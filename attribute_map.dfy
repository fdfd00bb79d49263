/**
 * The block attribute map: which attributes of which block types can be bound, and where
 * each one lives in the block's markup; and `ReplaceHtml`, which splices a bound value
 * into a block's serialized HTML at that place.
 */
module AttributeMap {
  import opened Wrappers
  import opened Markup

  /** Where a bindable attribute lives: an element's text, or an attribute of a start tag. */
  datatype Target = Text(tag: string) | Attribute(tag: string, name: string)

  /** The supported (block type, attribute) pairs and their targets. */
  const BindableAttributes: map<(string, string), Target> := map[
    ("core/paragraph", "content") := Text("p"),
    ("core/button", "url") := Attribute("a", "url")
  ]

  /** The target of attribute `attr` of block type `blockName`; None when it is not bindable. */
  function Lookup(blockName: string, attr: string): (r: Option<Target>)
    ensures r.None? <==> (blockName, attr) !in BindableAttributes
    ensures r.Some? ==> WellFormedTarget(r.value)
  {
    if (blockName, attr) in BindableAttributes then Some(BindableAttributes[(blockName, attr)]) else None
  }

  /** Tag and attribute names of a target are non-empty and contain no `>`. */
  predicate WellFormedTarget(t: Target)
  {
    && |t.tag| > 0 && '>' !in t.tag
    && (t.Attribute? ==> |t.name| > 0 && '>' !in t.name)
  }


  /** The markup has the place `t` refers to. */
  predicate TargetPresent(s: string, t: Target)
  {
    match t
    case Text(tag) => ElementContent(s, tag).Some?
    case Attribute(tag, _) => OpenTag(s, tag).Some?
  }

  /**
   * The values that can be spliced into the place `t` refers to and read back: text without
   * `<` for element content, and text without `<`, `>` or `"` for an attribute value.
   */
  predicate Spliceable(t: Target, v: string)
  {
    match t
    case Text(_) => '<' !in v
    case Attribute(_, _) => NoMarkup(v)
  }

  /** `r` is `content` with `v` put at the place `t` refers to, and nothing else changed. */
  predicate SplicedAtTarget(content: string, r: string, t: Target, v: string)
  {
    match t
    case Text(tag) =>
      ElementContent(content, tag).Some? &&
      Spliced(content, r, ElementContent(content, tag).value.0, ElementContent(content, tag).value.1, v)
    case Attribute(tag, name) => AttributeSpliced(content, r, tag, name, v)
  }

  /** The current value at the place `t` refers to, if it can be read. */
  function ReadTarget(s: string, t: Target): Option<string>
  {
    match t
    case Text(tag) => InnerText(s, tag)
    case Attribute(tag, name) => GetAttribute(s, tag, name)
  }

  /**
   * Splices `value` into `content`, the markup of a block of type `blockName`, at the place
   * where its attribute `attr` lives. The content is returned unchanged when the attribute
   * is not bindable for that block type, and when the markup has no such place.
   */
  function ReplaceHtml(content: string, blockName: string, attr: string, value: string): (r: string)
    ensures Lookup(blockName, attr).None? ==> r == content
    ensures Lookup(blockName, attr).Some? && !TargetPresent(content, Lookup(blockName, attr).value) ==> r == content
  {
    match Lookup(blockName, attr)
    case None => content
    case Some(Text(tag)) => ReplaceText(content, tag, value)
    case Some(Attribute(tag, name)) => SetAttribute(content, tag, name, value)
  }

  /**
   * When the attribute is bindable and its place is present, a value that suits the place is
   * what is read back from that place afterwards, the place is still present, the new markup
   * contains the value, and everything outside that place is kept.
   */
  lemma ReplaceHtmlRoundTrip(content: string, blockName: string, attr: string, value: string)
    requires Lookup(blockName, attr).Some? && TargetPresent(content, Lookup(blockName, attr).value)
    requires Spliceable(Lookup(blockName, attr).value, value)
    ensures var t := Lookup(blockName, attr).value;
            var r := ReplaceHtml(content, blockName, attr, value);
            && TargetPresent(r, t)
            && ReadTarget(r, t) == Some(value)
            && Contains(r, value)
            && SplicedAtTarget(content, r, t, value)
  {
    var r := ReplaceHtml(content, blockName, attr, value);
    match Lookup(blockName, attr).value
    case Text(tag) =>
      ReplaceTextRoundTrip(content, tag, value);
      SliceContained(r, ElementContent(r, tag).value.0, ElementContent(r, tag).value.1);
    case Attribute(tag, name) =>
      SetAttributeRoundTrip(content, tag, name, value);
      SliceContained(r, AttributeValue(r, tag, name).value.0, AttributeValue(r, tag, name).value.1);
  }

  /** Splicing the same suitable value twice gives the same markup as splicing it once. */
  lemma ReplaceHtmlIdempotent(content: string, blockName: string, attr: string, value: string)
    requires Lookup(blockName, attr).Some? ==> Spliceable(Lookup(blockName, attr).value, value)
    ensures var r := ReplaceHtml(content, blockName, attr, value);
            ReplaceHtml(r, blockName, attr, value) == r
  {
    match Lookup(blockName, attr)
    case None =>
    case Some(Text(tag)) => ReplaceTextIdempotent(content, tag, value);
    case Some(Attribute(tag, name)) => SetAttributeIdempotent(content, tag, name, value);
  }

  // ---------------------------------------------------------------------------------
  // The four scenarios of the unit tests

  /** The paragraph markup of the unit test has a `p` element with an end tag. */
  lemma ParagraphMarkupHasContent(s: string)
    requires s == "<p>Hello World</p>"
    ensures TargetPresent(s, Text("p"))
    ensures Found(ElementContent(s, "p"), 3, 14)
  {
    assert OpenTagAt(s, "p", 0) by {
      assert s[0..2] == "<p";
    }
    assert s[2] == '>';
    OpenTagIff(s, "p", StartTag(0, 2, 2));
    assert MatchAt(s, CloseTag("p"), 14) by {
      assert s[14..18] == "</p>";
    }
    forall j | 3 <= j < 14
      ensures !MatchAt(s, CloseTag("p"), j)
    {
      assert s[j..j + 4][0] == s[j] != '<';
    }
    ElementContentIff(s, "p", StartTag(0, 2, 2), 14);
  }

  /** Binding `content` of a paragraph puts the new text into the markup. */
  lemma ParagraphContentReplaced(content: string, value: string)
    requires content == "<p>Hello World</p>" && value == "Updated Content"
    ensures var r := ReplaceHtml(content, "core/paragraph", "content", value);
            && r == "<p>" + value + "</p>"
            && Contains(r, value)
            && !Contains(r, "Hello World")
  {
    var r := ReplaceHtml(content, "core/paragraph", "content", value);
    assert Lookup("core/paragraph", "content") == Some(Text("p"));
    assert '<' !in value;
    ParagraphMarkupHasContent(content);
    ReplaceHtmlRoundTrip(content, "core/paragraph", "content", value);
    assert Spliced(content, r, 3, 14, value);
    UpdatedParagraph(content, r, value);
  }

  /** Splicing the new text over the text of the test paragraph leaves only the tags around it. */
  lemma UpdatedParagraph(content: string, r: string, value: string)
    requires content == "<p>Hello World</p>" && value == "Updated Content"
    requires Spliced(content, r, 3, 14, value)
    ensures r == "<p>" + value + "</p>"
    ensures Contains(r, value)
    ensures !Contains(r, "Hello World")
  {
    assert r == r[..3] + r[3..18] + r[18..];
    assert r[..3] == content[..3] == "<p>";
    assert r[18..] == content[14..] == "</p>";
    assert MatchAt(r, value, 3);
    HelloWorldGone(r, value);
  }

  /** No 'H' in the updated paragraph, so the old text is nowhere in it. */
  lemma HelloWorldGone(r: string, v: string)
    requires v == "Updated Content" && r == "<p>" + v + "</p>"
    ensures !Contains(r, "Hello World")
  {
    forall k: nat
      ensures !MatchAt(r, "Hello World", k)
    {
      if k + 11 <= |r| {
        assert r[k..k + 11][0] == r[k] != 'H';
      }
    }
  }

  /** The button markup of the unit test has an `a` start tag. */
  lemma ButtonMarkupHasLink(s: string)
    requires s == "<div><a url\\=\"\">Hello World</a></div>"
    ensures TargetPresent(s, Attribute("a", "url"))
  {
    ButtonMarkupChars(s);
    assert OpenTagAt(s, "a", 5);
    FindOpenTagFinds(s, "a", 0, 5);
    var k := FindOpenTag(s, "a", 0).value;
    FindCharFinds(s, '>', k + 2, 15);
  }

  /** Where the `a` start tag of the button markup begins and ends. */
  lemma ButtonMarkupChars(s: string)
    requires s == "<div><a url\\=\"\">Hello World</a></div>"
    ensures s[5..7] == "<a" && s[7] == ' ' && s[15] == '>'
  {
    assert s[5] == '<' && s[6] == 'a';
  }

  /**
   * Binding `url` of a button inserts ` url="…"` right after `<a`, since the test markup has
   * no ` url="` to overwrite; the rest of the markup, anchor text included, is untouched.
   */
  lemma ButtonUrlReplaced(content: string, value: string)
    requires content == "<div><a url\\=\"\">Hello World</a></div>" && value == "Updated URL"
    ensures var r := ReplaceHtml(content, "core/button", "url", value);
            && r == content[..7] + " url=\"" + value + "\"" + content[7..]
            && Contains(r, value)
  {
    var r := ReplaceHtml(content, "core/button", "url", value);
    assert Lookup("core/button", "url") == Some(Attribute("a", "url"));
    ButtonUrlBindable(content, value);
    ReplaceHtmlRoundTrip(content, "core/button", "url", value);
    assert SplicedAtTarget(content, r, Attribute("a", "url"), value);
    ButtonInsertionPoint(content, r, value);
    assert Contains(r, value);
    InsertedAfterTagName(content, r, value);
  }

  /** The test's URL can be spliced into the button markup, which has the `a` start tag. */
  lemma ButtonUrlBindable(content: string, value: string)
    requires content == "<div><a url\\=\"\">Hello World</a></div>" && value == "Updated URL"
    ensures TargetPresent(content, Attribute("a", "url")) && Spliceable(Attribute("a", "url"), value)
  {
    ButtonMarkupHasLink(content);
    assert NoMarkup(value);
  }

  /** The only change to the button markup is ` url="v"` spliced in after the tag name. */
  lemma ButtonInsertionPoint(content: string, r: string, value: string)
    requires content == "<div><a url\\=\"\">Hello World</a></div>"
    requires SplicedAtTarget(content, r, Attribute("a", "url"), value)
    ensures Spliced(content, r, 7, 7, AttributeMarker("url") + value + "\"")
  {
    ButtonLinkTag(content);
    ButtonHasNoUrlValue(content);
  }

  /** The `a` start tag of the button markup spans [5, 15], its name ending at 7. */
  lemma ButtonLinkTag(s: string)
    requires s == "<div><a url\\=\"\">Hello World</a></div>"
    ensures OpenTag(s, "a") == Some(StartTag(5, 7, 15))
  {
    ButtonMarkupChars(s);
    assert OpenTagAt(s, "a", 5);
    forall j | 0 <= j < 5
      ensures !OpenTagAt(s, "a", j)
    {
      assert s[j..j + 2][1] == s[j + 1] != 'a';
    }
    forall j | 7 <= j < 15
      ensures s[j] != '>'
    {
    }
    OpenTagIff(s, "a", StartTag(5, 7, 15));
  }

  /** The button markup spells its attribute `url\=`, so it holds no readable ` url="`. */
  lemma ButtonHasNoUrlValue(s: string)
    requires s == "<div><a url\\=\"\">Hello World</a></div>"
    ensures AttributeValue(s, "a", "url").None?
  {
    ButtonLinkTag(s);
    forall k: nat
      ensures !MatchAt(s, AttributeMarker("url"), k)
    {
      if k + 6 <= |s| {
        assert s[k..k + 6][0] == s[k] && s[k..k + 6][4] == s[k + 4];
        assert s[k] != ' ' || s[k + 4] != '=';
      }
    }
    FindFromFirst(s, AttributeMarker("url"), 7);
  }

  /** Inserting ` url="v"` at index 7 keeps the first seven characters and everything after. */
  lemma InsertedAfterTagName(content: string, r: string, value: string)
    requires Spliced(content, r, 7, 7, AttributeMarker("url") + value + "\"")
    ensures r == content[..7] + " url=\"" + value + "\"" + content[7..]
  {
    var piece := AttributeMarker("url") + value + "\"";
    assert r == r[..7] + r[7..7 + |piece|] + r[7 + |piece|..];
  }

  /** A block type with no bindable attributes leaves the markup exactly as it was. */
  lemma UnregisteredBlockUnchanged(content: string, blockName: string, value: string)
    requires content == "<p>Hello World</p>" && blockName == "NONEXISTENT" && value == "Updated Content"
    ensures ReplaceHtml(content, blockName, "content", value) == content
  {
    assert Lookup(blockName, "content").None?;
  }

  /** An attribute the block type cannot bind leaves the markup exactly as it was. */
  lemma UnsupportedAttributeUnchanged(content: string, attr: string, value: string)
    requires content == "<div>Hello World</div>" && attr == "NONEXISTENT" && value == "Updated Content"
    ensures ReplaceHtml(content, "core/paragraph", attr, value) == content
  {
    assert Lookup("core/paragraph", attr).None?;
  }
}
