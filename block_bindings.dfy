/**
 * The public block bindings API: one registry for the whole process, created on first use,
 * and three functions that forward to it.
 */
module BlockBindings {
  import opened Wrappers
  import opened SourceRegistry

  /**
   * Holds the process-wide registry, which stays absent until it is first asked for.
   * `constructed` counts the registries ever created here.
   */
  class Api {
    var instance: Option<Registry>
    ghost var constructed: nat

    /** At most one registry is ever created, and it is the one held. */
    ghost predicate Valid()
      reads this
    {
      constructed == if instance.Some? then 1 else 0
    }

    /** The objects the held registry occupies. */
    ghost function Footprint(): set<object>
      reads this
    {
      if instance.Some? then {instance.value} else {}
    }

    /** The registered sources as the API sees them: none before the registry exists. */
    ghost function Sources(): map<string, Source>
      reads this, Footprint()
    {
      if instance.Some? then instance.value.sources else map[]
    }

    /** Start of the process: no registry yet. */
    constructor()
      ensures Valid() && instance == None && Sources() == map[]
    {
      instance := None;
      constructed := 0;
    }

    /** The registry, created empty on the first call and the same object on every later one. */
    method Instance() returns (r: Registry)
      requires Valid()
      modifies this
      ensures Valid() && instance == Some(r) && constructed <= 1
      ensures old(instance).Some? ==> r == old(instance).value && constructed == old(constructed)
      ensures old(instance).None? ==> fresh(r) && r.sources == map[]
      ensures Sources() == old(Sources())
    {
      if instance.None? {
        var created := new Registry();
        instance := Some(created);
        constructed := constructed + 1;
      }
      r := instance.value;
    }

    /** Registers a source with the process-wide registry. */
    method RegisterSource(name: string, args: Source)
      requires Valid() && name !in Sources()
      modifies this, Footprint()
      ensures Valid() && instance.Some?
      ensures old(instance).Some? ==> instance == old(instance)
      ensures Sources() == old(Sources())[name := args]
    {
      var registry := Instance();
      registry.Register(name, args);
    }

    /** All sources of the process-wide registry; the registered sources do not change. */
    method GetAllRegistered() returns (r: map<string, Source>)
      requires Valid()
      modifies this
      ensures Valid() && instance.Some?
      ensures old(instance).Some? ==> instance == old(instance)
      ensures r == Sources() && Sources() == old(Sources())
    {
      var registry := Instance();
      r := registry.GetSources();
    }

    /** The process-wide registry's processing of `block`'s bindings, unchanged. */
    method ProcessBindings(content: string, block: Block, blockInstance: BlockInstance) returns (r: string)
      requires Valid()
      modifies this
      ensures Valid() && instance.Some?
      ensures old(instance).Some? ==> instance == old(instance)
      ensures Sources() == old(Sources())
      ensures r == ApplyBindings(Sources(), content, block.name, block.bindings, blockInstance)
    {
      var registry := Instance();
      r := registry.ProcessBindings(content, block, blockInstance);
    }
  }

  /** Two calls for the registry return one and the same object. */
  method InstanceIsShared(api: Api) returns (first: Registry, second: Registry)
    requires api.Valid()
    modifies api
    ensures first == second && api.constructed <= 1
  {
    first := api.Instance();
    second := api.Instance();
  }

  /** A source registered through the API is listed by it, with what it was registered with. */
  method RegisteredSourceIsListed(api: Api, name: string, args: Source) returns (listed: map<string, Source>)
    requires api.Valid() && name !in api.Sources()
    modifies api, api.Footprint()
    ensures name in listed && listed[name] == args
  {
    api.RegisterSource(name, args);
    listed := api.GetAllRegistered();
  }
}
