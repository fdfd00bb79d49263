/**
 * The registry of block binding sources and the processing of one block's bindings.
 *
 * A source is registered under a unique name with a label and an `apply` callback. When a
 * block is rendered, each of its bindings names an attribute, a source and the source's
 * arguments; the source's callback supplies the override value, which is spliced into the
 * block's markup with `ReplaceHtml`.
 */
module SourceRegistry {
  import opened Wrappers
  import opened AttributeMap

  /** The rendered block instance handed to callbacks; only its context is visible here. */
  datatype BlockInstance = BlockInstance(context: map<string, string>)

  /** The arguments a binding passes to its source, e.g. {"value": "{ID}"}. */
  type SourceAttrs = map<string, string>

  /**
   * A source's `apply` callback, called with the binding's source arguments, the block
   * instance and the attribute name. None stands for a callback returning null.
   */
  type ApplyCallback = (SourceAttrs, BlockInstance, string) -> Option<string>

  /** What a source is registered with: its label and its callback. */
  datatype Source = Source(sourceLabel: string, apply: ApplyCallback)

  /** One entry of a block's bindings metadata: `attribute` is bound to `source` with `args`. */
  datatype Binding = Binding(attribute: string, source: string, args: SourceAttrs)

  /** The parts of a parsed block that binding processing reads: its type name and bindings. */
  datatype Block = Block(name: string, bindings: seq<Binding>)

  /** The override value a binding obtains: None when its source is unknown or returns null. */
  function BoundValue(sources: map<string, Source>, b: Binding, instance: BlockInstance): Option<string>
  {
    if b.source in sources then sources[b.source].apply(b.args, instance, b.attribute) else None
  }

  /** A binding that cannot change the markup: it has no value, or its attribute is not bindable. */
  predicate Unresolvable(sources: map<string, Source>, blockName: string, b: Binding, instance: BlockInstance)
  {
    BoundValue(sources, b, instance).None? || Lookup(blockName, b.attribute).None?
  }

  /**
   * The markup after splicing in the value of each binding, one after another. Bindings that
   * all fail to resolve leave the markup exactly as it was.
   */
  function ApplyBindings(sources: map<string, Source>, content: string, blockName: string,
                         bindings: seq<Binding>, instance: BlockInstance): (r: string)
    ensures (forall i :: 0 <= i < |bindings| ==> Unresolvable(sources, blockName, bindings[i], instance))
            ==> r == content
    decreases |bindings|
  {
    if bindings == [] then content
    else
      var next := ApplyBinding(sources, content, blockName, bindings[0], instance);
      assert forall i :: 0 <= i < |bindings| - 1 ==> bindings[1..][i] == bindings[i + 1];
      ApplyBindings(sources, next, blockName, bindings[1..], instance)
  }

  /** The value of a binding depends only on the source it names. */
  lemma BoundValueLocal(sources: map<string, Source>, name: string, src: Source, b: Binding,
                        instance: BlockInstance)
    requires name != b.source
    ensures BoundValue(sources[name := src], b, instance) == BoundValue(sources, b, instance)
  {
  }

  /** The markup after splicing in the value of one binding, if it has one. */
  function ApplyBinding(sources: map<string, Source>, content: string, blockName: string,
                        b: Binding, instance: BlockInstance): (r: string)
    ensures Unresolvable(sources, blockName, b, instance) ==> r == content
  {
    match BoundValue(sources, b, instance)
    case None => content
    case Some(v) => ReplaceHtml(content, blockName, b.attribute, v)
  }

  /** Processing `xs + ys` is processing `xs`, then `ys` on the result. */
  lemma {:induction false} ApplyBindingsSplit(sources: map<string, Source>, content: string, blockName: string,
                                              xs: seq<Binding>, ys: seq<Binding>, instance: BlockInstance)
    ensures ApplyBindings(sources, content, blockName, xs + ys, instance)
            == ApplyBindings(sources, ApplyBindings(sources, content, blockName, xs, instance), blockName, ys, instance)
    decreases |xs|
  {
    if xs == [] {
      assert xs + ys == ys;
    } else {
      var next := ApplyBinding(sources, content, blockName, xs[0], instance);
      assert (xs + ys)[0] == xs[0] && (xs + ys)[1..] == xs[1..] + ys;
      ApplyBindingsSplit(sources, next, blockName, xs[1..], ys, instance);
    }
  }

  /**
   * The value a source's callback returns for one binding of a block overrides the block's
   * original value, whatever other bindings the block has that do not resolve: it is what is
   * read back from the bound place of the processed markup.
   */
  lemma CallbackValueOverrides(sources: map<string, Source>, content: string, blockName: string,
                               pre: seq<Binding>, b: Binding, post: seq<Binding>, instance: BlockInstance)
    requires forall i :: 0 <= i < |pre| ==> Unresolvable(sources, blockName, pre[i], instance)
    requires forall i :: 0 <= i < |post| ==> Unresolvable(sources, blockName, post[i], instance)
    requires BoundValue(sources, b, instance).Some? && Lookup(blockName, b.attribute).Some?
    requires Spliceable(Lookup(blockName, b.attribute).value, BoundValue(sources, b, instance).value)
    requires TargetPresent(content, Lookup(blockName, b.attribute).value)
    ensures ReadTarget(ApplyBindings(sources, content, blockName, pre + [b] + post, instance),
                       Lookup(blockName, b.attribute).value)
            == BoundValue(sources, b, instance)
  {
    var v := BoundValue(sources, b, instance).value;
    OnlyResolvableBindingApplies(sources, content, blockName, pre, b, post, instance);
    ReplaceHtmlRoundTrip(content, blockName, b.attribute, v);
  }

  /** Among bindings that do not resolve, processing applies just the one binding `b`. */
  lemma OnlyResolvableBindingApplies(sources: map<string, Source>, content: string, blockName: string,
                                     pre: seq<Binding>, b: Binding, post: seq<Binding>, instance: BlockInstance)
    requires forall i :: 0 <= i < |pre| ==> Unresolvable(sources, blockName, pre[i], instance)
    requires forall i :: 0 <= i < |post| ==> Unresolvable(sources, blockName, post[i], instance)
    ensures ApplyBindings(sources, content, blockName, pre + [b] + post, instance)
            == ApplyBinding(sources, content, blockName, b, instance)
  {
    var rest := [b] + post;
    assert pre + [b] + post == pre + rest;
    ApplyBindingsSplit(sources, content, blockName, pre, rest, instance);
    assert ApplyBindings(sources, content, blockName, pre, instance) == content;
    var next := ApplyBinding(sources, content, blockName, b, instance);
    assert rest[0] == b && rest[1..] == post;
    assert ApplyBindings(sources, content, blockName, rest, instance)
           == ApplyBindings(sources, next, blockName, post, instance);
    assert ApplyBindings(sources, next, blockName, post, instance) == next;
  }

  /** A source that no binding refers to has no effect on processing. */
  lemma {:induction false} UnreferencedSourceIrrelevant(sources: map<string, Source>, name: string, src: Source,
                                                        content: string, blockName: string,
                                                        bindings: seq<Binding>, instance: BlockInstance)
    requires forall i :: 0 <= i < |bindings| ==> bindings[i].source != name
    ensures ApplyBindings(sources[name := src], content, blockName, bindings, instance)
            == ApplyBindings(sources, content, blockName, bindings, instance)
    decreases |bindings|
  {
    if bindings != [] {
      BoundValueLocal(sources, name, src, bindings[0], instance);
      var next := ApplyBinding(sources, content, blockName, bindings[0], instance);
      forall i | 0 <= i < |bindings[1..]|
        ensures bindings[1..][i].source != name
      {
        assert bindings[1..][i] == bindings[i + 1];
      }
      UnreferencedSourceIrrelevant(sources, name, src, next, blockName, bindings[1..], instance);
    }
  }

  /** The registry of binding sources, keyed by source name. */
  class Registry {
    var sources: map<string, Source>

    /** A new registry has no sources. */
    constructor()
      ensures sources == map[]
    {
      sources := map[];
    }

    /** Registers `args` under `name`; nothing else changes. */
    method Register(name: string, args: Source)
      requires name !in sources
      modifies this
      ensures sources == old(sources)[name := args]
    {
      sources := sources[name := args];
    }

    /** All registered sources, by name. */
    method GetSources() returns (r: map<string, Source>)
      ensures r == sources
    {
      r := sources;
    }

    /**
     * Processes the bindings of `block`: for each binding whose source is registered and
     * whose callback returns a value, that value is spliced into the markup. Reads only.
     */
    method ProcessBindings(content: string, block: Block, instance: BlockInstance) returns (r: string)
      ensures r == ApplyBindings(sources, content, block.name, block.bindings, instance)
    {
      r := content;
      var i := 0;
      while i < |block.bindings|
        invariant 0 <= i <= |block.bindings|
        invariant ApplyBindings(sources, r, block.name, block.bindings[i..], instance)
                  == ApplyBindings(sources, content, block.name, block.bindings, instance)
      {
        var b := block.bindings[i];
        assert block.bindings[i..][0] == b && block.bindings[i..][1..] == block.bindings[i + 1..];
        if b.source in sources {
          var value := sources[b.source].apply(b.args, instance, b.attribute);
          if value.Some? {
            r := ReplaceHtml(r, block.name, b.attribute, value.value);
          }
        }
        i := i + 1;
      }
      assert block.bindings[i..] == [];
    }
  }

  /**
   * The scenario of the registration unit test: a source registered on a new registry is
   * listed under its name, with the label and callback it was registered with.
   */
  method RegisterThenList(name: string, sourceLabel: string, apply: ApplyCallback) returns (listed: map<string, Source>)
    ensures name in listed
    ensures listed[name].sourceLabel == sourceLabel && listed[name].apply == apply
  {
    var registry := new Registry();
    registry.Register(name, Source(sourceLabel, apply));
    listed := registry.GetSources();
  }
}
