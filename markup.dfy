/**
 * Scanning and splicing of serialized block markup, without building a DOM.
 *
 * Two kinds of target are handled: the text content of the first element with a given
 * tag, and the value of a double-quoted attribute on the first start tag with a given
 * tag. Every search is "first match"; when a target cannot be located, the splice
 * functions return their input unchanged.
 */
module Markup {
  import opened Wrappers

  /** `pat` occurs in `s` starting at index `k`. */
  predicate MatchAt(s: string, pat: string, k: nat)
  {
    k + |pat| <= |s| && s[k..k + |pat|] == pat
  }

  /** `sub` occurs somewhere in `s` (PHPUnit's assertStringContainsString). */
  ghost predicate Contains(s: string, sub: string)
  {
    exists k: nat :: MatchAt(s, sub, k)
  }

  /** None of the characters that delimit markup occur in `v`. */
  predicate NoMarkup(v: string)
  {
    '<' !in v && '>' !in v && '"' !in v
  }

  /** `r` locates the span [from, to). */
  predicate Found(r: Option<(nat, nat)>, from: int, to: int)
  {
    r.Some? && r.value.0 == from && r.value.1 == to
  }

  /** The first index at or after `i` where `pat` occurs in `s`. */
  function FindFrom(s: string, pat: string, i: nat): (r: Option<nat>)
    decreases |s| - i
    ensures r.Some? ==> i <= r.value && r.value + |pat| <= |s|
  {
    if i + |pat| > |s| then None
    else if s[i..i + |pat|] == pat then Some(i)
    else FindFrom(s, pat, i + 1)
  }

  /** The first index at or after `i` where the character `c` occurs in `s`. */
  function FindChar(s: string, c: char, i: nat): (r: Option<nat>)
    decreases |s| - i
    ensures r.Some? ==> i <= r.value < |s| && s[r.value] == c
  {
    if i >= |s| then None
    else if s[i] == c then Some(i)
    else FindChar(s, c, i + 1)
  }

  /** A character that ends the tag name of a start tag: HTML whitespace, `/` or `>`. */
  predicate EndsTagName(c: char)
  {
    c == ' ' || c == '\t' || c == '\n' || c == '\r' || c == '\U{000C}' || c == '/' || c == '>'
  }

  /** A start tag `<tag` followed by a tag-name delimiter begins at index `k`. */
  predicate OpenTagAt(s: string, tag: string, k: nat)
  {
    MatchAt(s, "<" + tag, k) && k + |tag| + 1 < |s| && EndsTagName(s[k + |tag| + 1])
  }

  /** The first index at or after `i` where a start tag named `tag` begins. */
  function FindOpenTag(s: string, tag: string, i: nat): (r: Option<nat>)
    decreases |s| - i
    ensures r.Some? ==> i <= r.value && r.value + |tag| + 1 < |s|
  {
    if i + |tag| + 1 >= |s| then None
    else if OpenTagAt(s, tag, i) then Some(i)
    else FindOpenTag(s, tag, i + 1)
  }

  /**
   * A located start tag: it begins at `start`, its tag name ends at `nameEnd`, and its
   * closing `>` is at index `end`.
   */
  datatype StartTag = StartTag(start: nat, nameEnd: nat, end: nat)

  /** The first start tag named `tag` in `s`, up to its first `>`. */
  function OpenTag(s: string, tag: string): (r: Option<StartTag>)
    ensures r.Some? ==> r.value.nameEnd == r.value.start + |tag| + 1
    ensures r.Some? ==> r.value.nameEnd <= r.value.end < |s| && s[r.value.end] == '>'
  {
    match FindOpenTag(s, tag, 0)
    case None => None
    case Some(k) =>
      match FindChar(s, '>', k + |tag| + 1)
      case None => None
      case Some(e) => Some(StartTag(k, k + |tag| + 1, e))
  }

  /** The end tag matching `tag`. */
  function CloseTag(tag: string): string
  {
    "</" + tag + ">"
  }

  /**
   * The span [from, to) of the content of the first element named `tag`: from just after
   * its start tag up to the first matching end tag.
   */
  function ElementContent(s: string, tag: string): (r: Option<(nat, nat)>)
    ensures r.Some? ==> r.value.0 <= r.value.1 <= |s|
    ensures r.Some? ==> OpenTag(s, tag).Some?
  {
    match OpenTag(s, tag)
    case None => None
    case Some(t) =>
      match FindFrom(s, CloseTag(tag), t.end + 1)
      case None => None
      case Some(c) => Some((t.end + 1, c))
  }

  /** The text content of the first element named `tag`, if the element is present. */
  function InnerText(s: string, tag: string): Option<string>
  {
    match ElementContent(s, tag)
    case None => None
    case Some((from, to)) => Some(s[from..to])
  }

  /** `s` with the characters in [from, to) replaced by `v`, built one character at a time. */
  function Splice(s: string, from: nat, to: nat, v: string): (r: string)
    requires from <= to <= |s|
    ensures |r| == |s| - (to - from) + |v|
    decreases from
  {
    if from == 0 then v + s[to..] else [s[0]] + Splice(s[1..], from - 1, to - 1, v)
  }

  /** Replaces the content of the first element named `tag` by `v`; a no-op when there is none. */
  function ReplaceText(s: string, tag: string, v: string): (r: string)
    ensures ElementContent(s, tag).None? ==> r == s
    ensures ElementContent(s, tag).Some? ==>
              |r| == |s| - (ElementContent(s, tag).value.1 - ElementContent(s, tag).value.0) + |v|
  {
    match ElementContent(s, tag)
    case None => s
    case Some((from, to)) => Splice(s, from, to, v)
  }

  /** The text that opens a double-quoted attribute `name` inside a start tag. */
  function AttributeMarker(name: string): string
  {
    " " + name + "=\""
  }

  /**
   * The span [from, to) of the value of attribute `name` on the first start tag named
   * `tag`, when the first occurrence of the attribute after the tag name lies, quotes and
   * all, inside that start tag.
   */
  function AttributeValue(s: string, tag: string, name: string): (r: Option<(nat, nat)>)
    ensures r.Some? ==> OpenTag(s, tag).Some?
    ensures r.Some? ==> r.value.0 <= r.value.1 < |s| && s[r.value.1] == '"'
  {
    match OpenTag(s, tag)
    case None => None
    case Some(t) =>
      match FindFrom(s, AttributeMarker(name), t.nameEnd)
      case None => None
      case Some(a) =>
        var from := a + |AttributeMarker(name)|;
        if from > t.end then None
        else
          match FindChar(s, '"', from)
          case None => None
          case Some(q) => if q < t.end then Some((from, q)) else None
  }

  /** The value of attribute `name` on the first start tag named `tag`, if it can be read. */
  function GetAttribute(s: string, tag: string, name: string): Option<string>
  {
    match AttributeValue(s, tag, name)
    case None => None
    case Some((from, to)) => Some(s[from..to])
  }

  /**
   * Sets attribute `name` on the first start tag named `tag` to `v`: the existing value is
   * replaced when it can be read, otherwise the attribute is inserted right after the tag
   * name (where, being first, it takes precedence over any later one). A no-op when there
   * is no such start tag.
   */
  function SetAttribute(s: string, tag: string, name: string, v: string): (r: string)
    ensures OpenTag(s, tag).None? ==> r == s
    ensures OpenTag(s, tag).Some? && AttributeValue(s, tag, name).None? ==>
              |r| == |s| + |AttributeMarker(name)| + |v| + 1
    ensures AttributeValue(s, tag, name).Some? ==>
              |r| == |s| - (AttributeValue(s, tag, name).value.1 - AttributeValue(s, tag, name).value.0) + |v|
  {
    match OpenTag(s, tag)
    case None => s
    case Some(t) =>
      match AttributeValue(s, tag, name)
      case Some((from, to)) => Splice(s, from, to, v)
      case None => Splice(s, t.nameEnd, t.nameEnd, AttributeMarker(name) + v + "\"")
  }

  // ---------------------------------------------------------------------------------
  // What the searches find, stated without them

  /** `k` is the first index at or after `i` where `pat` occurs. */
  predicate FirstMatch(s: string, pat: string, i: nat, k: nat)
  {
    i <= k && MatchAt(s, pat, k) && forall j :: i <= j < k ==> !MatchAt(s, pat, j)
  }

  /** `k` is the first index at or after `i` holding `c`. */
  predicate FirstChar(s: string, c: char, i: nat, k: nat)
  {
    i <= k < |s| && s[k] == c && forall j :: i <= j < k ==> s[j] != c
  }

  /** `st` is the first start tag named `tag`, up to its first `>`. */
  predicate FirstStartTag(s: string, tag: string, st: StartTag)
  {
    && OpenTagAt(s, tag, st.start)
    && (forall j :: 0 <= j < st.start ==> !OpenTagAt(s, tag, j))
    && st.nameEnd == st.start + |tag| + 1
    && FirstChar(s, '>', st.nameEnd, st.end)
  }

  /** The value of attribute `name` of the start tag `st` is at [from, q). */
  predicate FirstAttribute(s: string, tag: string, name: string, st: StartTag, from: nat, q: nat)
  {
    && FirstStartTag(s, tag, st)
    && |AttributeMarker(name)| <= from <= st.end
    && FirstMatch(s, AttributeMarker(name), st.nameEnd, from - |AttributeMarker(name)|)
    && FirstChar(s, '"', from, q) && q < st.end
  }

  /** What FindFrom returns is the first match. */
  lemma {:induction false} FindFromFirst(s: string, pat: string, i: nat)
    ensures FindFrom(s, pat, i).Some? ==> FirstMatch(s, pat, i, FindFrom(s, pat, i).value)
    decreases |s| - i
  {
    if i + |pat| <= |s| && !MatchAt(s, pat, i) {
      FindFromFirst(s, pat, i + 1);
    }
  }

  /** FindFrom finds a match at or before any match there is. */
  lemma {:induction false} FindFromFinds(s: string, pat: string, i: nat, k: nat)
    requires i <= k && MatchAt(s, pat, k)
    ensures FindFrom(s, pat, i).Some? && FindFrom(s, pat, i).value <= k
    decreases |s| - i
  {
    if !MatchAt(s, pat, i) {
      FindFromFinds(s, pat, i + 1, k);
    }
  }

  /** FindFrom returns exactly the first match. */
  lemma FindFromIff(s: string, pat: string, i: nat, k: nat)
    ensures FindFrom(s, pat, i) == Some(k) <==> FirstMatch(s, pat, i, k)
  {
    FindFromFirst(s, pat, i);
    if FirstMatch(s, pat, i, k) {
      FindFromFinds(s, pat, i, k);
    }
  }


  /** What FindChar returns is the first occurrence. */
  lemma {:induction false} FindCharFirst(s: string, c: char, i: nat)
    ensures FindChar(s, c, i).Some? ==> FirstChar(s, c, i, FindChar(s, c, i).value)
    decreases |s| - i
  {
    if i < |s| && s[i] != c {
      FindCharFirst(s, c, i + 1);
    }
  }

  /** FindChar finds an occurrence at or before any occurrence there is. */
  lemma {:induction false} FindCharFinds(s: string, c: char, i: nat, k: nat)
    requires i <= k < |s| && s[k] == c
    ensures FindChar(s, c, i).Some? && FindChar(s, c, i).value <= k
    decreases |s| - i
  {
    if s[i] != c {
      FindCharFinds(s, c, i + 1, k);
    }
  }

  /** FindChar returns exactly the first occurrence. */
  lemma FindCharIff(s: string, c: char, i: nat, k: nat)
    ensures FindChar(s, c, i) == Some(k) <==> FirstChar(s, c, i, k)
  {
    FindCharFirst(s, c, i);
    if FirstChar(s, c, i, k) {
      FindCharFinds(s, c, i, k);
    }
  }

  /** What FindOpenTag returns is the first start tag. */
  lemma {:induction false} FindOpenTagFirst(s: string, tag: string, i: nat)
    ensures var r := FindOpenTag(s, tag, i);
            r.Some? ==> OpenTagAt(s, tag, r.value) && forall j :: i <= j < r.value ==> !OpenTagAt(s, tag, j)
    decreases |s| - i
  {
    if i + |tag| + 1 < |s| && !OpenTagAt(s, tag, i) {
      FindOpenTagFirst(s, tag, i + 1);
    }
  }

  /** FindOpenTag finds a start tag at or before any start tag there is. */
  lemma {:induction false} FindOpenTagFinds(s: string, tag: string, i: nat, k: nat)
    requires i <= k && OpenTagAt(s, tag, k)
    ensures FindOpenTag(s, tag, i).Some? && FindOpenTag(s, tag, i).value <= k
    decreases |s| - i
  {
    if !OpenTagAt(s, tag, i) {
      FindOpenTagFinds(s, tag, i + 1, k);
    }
  }


  /** OpenTag returns exactly the first start tag. */
  lemma OpenTagIff(s: string, tag: string, st: StartTag)
    ensures OpenTag(s, tag) == Some(st) <==> FirstStartTag(s, tag, st)
  {
    FindOpenTagFirst(s, tag, 0);
    if OpenTagAt(s, tag, st.start) {
      FindOpenTagFinds(s, tag, 0, st.start);
    }
    FindCharIff(s, '>', st.nameEnd, st.end);
  }

  /** The value span AttributeValue returns is the one described by FirstAttribute. */
  lemma AttributeValueFirst(s: string, tag: string, name: string, st: StartTag, from: nat, q: nat)
    requires OpenTag(s, tag) == Some(st) && Found(AttributeValue(s, tag, name), from, q)
    ensures FirstAttribute(s, tag, name, st, from, q)
  {
    var marker := AttributeMarker(name);
    OpenTagIff(s, tag, st);
    var a := FindFrom(s, marker, st.nameEnd).value;
    FindFromIff(s, marker, st.nameEnd, a);
    FindCharIff(s, '"', from, q);
  }

  /** Conversely, the value span described by FirstAttribute is the one AttributeValue returns. */
  lemma FirstAttributeFound(s: string, tag: string, name: string, st: StartTag, from: nat, q: nat)
    requires FirstAttribute(s, tag, name, st, from, q)
    ensures OpenTag(s, tag) == Some(st) && Found(AttributeValue(s, tag, name), from, q)
  {
    var marker := AttributeMarker(name);
    OpenTagIff(s, tag, st);
    FindFromIff(s, marker, st.nameEnd, from - |marker|);
    FindCharIff(s, '"', from, q);
  }


  // ---------------------------------------------------------------------------------
  // Strings that share pieces

  /** `s` and `t` are equal on their first `n` characters. */
  predicate Agree(s: string, t: string, n: nat)
  {
    n <= |s| && n <= |t| && s[..n] == t[..n]
  }

  /** `r` is `s` with the characters in [from, to) replaced by `v`, and nothing else changed. */
  predicate Spliced(s: string, r: string, from: nat, to: nat, v: string)
  {
    && from <= to <= |s| && |r| == |s| - (to - from) + |v|
    && r[..from] == s[..from] && r[from..from + |v|] == v && r[from + |v|..] == s[to..]
  }

  /** Splice keeps what comes before `from`, puts `v` next and then what comes from `to` on. */
  lemma {:induction false} SpliceIsConcat(s: string, from: nat, to: nat, v: string)
    requires from <= to <= |s|
    ensures Splice(s, from, to, v) == s[..from] + v + s[to..]
    decreases from
  {
    if from > 0 {
      SpliceIsConcat(s[1..], from - 1, to - 1, v);
      assert s[1..][..from - 1] == s[1..from];
      assert s[1..][to - 1..] == s[to..];
      assert [s[0]] + s[1..from] == s[..from];
    }
  }

  /** Splicing in what is already there changes nothing. */
  lemma SpliceCurrent(s: string, from: nat, to: nat)
    requires from <= to <= |s|
    ensures Splice(s, from, to, s[from..to]) == s
  {
    SpliceIsConcat(s, from, to, s[from..to]);
    assert s == s[..from] + s[from..to] + s[to..];
  }

  /** The pieces of a splice. */
  lemma SpliceShape(s: string, from: nat, to: nat, v: string)
    requires from <= to <= |s|
    ensures var r := Splice(s, from, to, v);
            && Agree(s, r, from)
            && from + |v| <= |r| && r[from..from + |v|] == v
            && r[from + |v|..] == s[to..]
            && Spliced(s, r, from, to, v)
  {
    SpliceIsConcat(s, from, to, v);
    var r := s[..from] + v + s[to..];
    assert r[..from] == s[..from];
    assert r[from..from + |v|] == v;
    assert r[from + |v|..] == s[to..];
  }

  /** Agreement on a prefix, character by character, and on every shorter prefix. */
  lemma AgreeAt(s: string, t: string, n: nat)
    requires Agree(s, t, n)
    ensures forall j :: 0 <= j < n ==> s[j] == t[j]
    ensures forall m: nat :: m <= n ==> Agree(s, t, m)
  {
    forall j | 0 <= j < n
      ensures s[j] == t[j]
    {
      assert s[j] == s[..n][j];
      assert t[j] == t[..n][j];
    }
  }

  /** Whether `pat` occurs at `j` depends only on the characters it covers. */
  lemma AgreeMatchAt(s: string, t: string, n: nat, pat: string, j: nat)
    requires Agree(s, t, n) && j + |pat| <= n
    ensures MatchAt(s, pat, j) == MatchAt(t, pat, j)
  {
    assert s[j..j + |pat|] == s[..n][j..j + |pat|];
    assert t[j..j + |pat|] == t[..n][j..j + |pat|];
  }

  /** A first match inside a stretch where `t` agrees with `s` is also the first in `t`. */
  lemma FirstMatchKept(s: string, t: string, n: nat, pat: string, i: nat, k: nat)
    requires FirstMatch(s, pat, i, k) && Agree(s, t, n) && k + |pat| <= n
    ensures FirstMatch(t, pat, i, k)
  {
    forall j | i <= j < k
      ensures !MatchAt(t, pat, j)
    {
      AgreeMatchAt(s, t, n, pat, j);
    }
    AgreeMatchAt(s, t, n, pat, k);
  }

  /** A match in `s` is also a match in a string whose tail is a copy of that part of `s`. */
  lemma MatchAtInCopy(s: string, b: nat, r: string, a: nat, pat: string)
    requires b <= |s| && a <= |r| && r[a..] == s[b..] && MatchAt(s, pat, b)
    ensures MatchAt(r, pat, a)
  {
    assert r[a..a + |pat|] == r[a..][..|pat|] == s[b..][..|pat|] == s[b..b + |pat|];
  }

  /** Characters absent from a stretch of `s` are absent where that stretch is copied into `r`. */
  lemma CharAbsentInCopy(s: string, b: nat, r: string, a: nat, n: nat, c: char)
    requires b + n <= |s| && a <= |r| && r[a..] == s[b..]
    requires forall j :: b <= j < b + n ==> s[j] != c
    ensures forall j :: a <= j < a + n ==> r[j] != c
  {
    forall j | a <= j < a + n
      ensures r[j] != c
    {
      assert r[j] == r[a..][j - a] == s[b..][j - a] == s[b + (j - a)];
    }
  }

  /** Characters absent from `piece` are absent where `piece` sits in `r`. */
  lemma CharAbsentInPiece(r: string, a: nat, piece: string, c: char)
    requires a + |piece| <= |r| && r[a..a + |piece|] == piece && c !in piece
    ensures forall j :: a <= j < a + |piece| ==> r[j] != c
  {
    forall j | a <= j < a + |piece|
      ensures r[j] != c
    {
      assert r[j] == piece[j - a];
    }
  }

  /** A value read back from `s` occurs in `s`. */
  lemma SliceContained(s: string, from: nat, to: nat)
    requires from <= to <= |s|
    ensures Contains(s, s[from..to])
  {
    assert MatchAt(s, s[from..to], from);
  }

  // ---------------------------------------------------------------------------------
  // Start tags and element content after a splice

  /**
   * The first start tag of `s` stays the first one, at the same place, in a string `r` that
   * agrees with `s` up to its tag name and still ends the tag name there; only the position
   * of its `>` may move.
   */
  lemma StartTagKept(s: string, r: string, tag: string, st: StartTag, end: nat)
    requires FirstStartTag(s, tag, st) && Agree(s, r, st.nameEnd)
    requires st.nameEnd < |r| && EndsTagName(r[st.nameEnd])
    requires FirstChar(r, '>', st.nameEnd, end)
    ensures FirstStartTag(r, tag, st.(end := end))
  {
    AgreeMatchAt(s, r, st.nameEnd, "<" + tag, st.start);
    forall j | 0 <= j < st.start
      ensures !OpenTagAt(r, tag, j)
    {
      AgreeMatchAt(s, r, st.nameEnd, "<" + tag, j);
      AgreeAt(s, r, st.nameEnd);
      assert !OpenTagAt(s, tag, j);
      assert s[j + |tag| + 1] == r[j + |tag| + 1];
    }
  }

  /**
   * A pattern that starts with `<` is not found inside text without `<`, so the first match
   * from the start of such text is the one right after it.
   */
  lemma FirstMatchAfterPlainText(r: string, pat: string, from: nat, v: string)
    requires |pat| > 0 && pat[0] == '<' && '<' !in v
    requires from + |v| <= |r| && r[from..from + |v|] == v
    requires MatchAt(r, pat, from + |v|)
    ensures FirstMatch(r, pat, from, from + |v|)
  {
    forall j | from <= j < from + |v|
      ensures !MatchAt(r, pat, j)
    {
      assert r[j] == v[j - from];
    }
  }

  /**
   * If `r` is `s` with the content [from, to) of its first `tag` element replaced by `v`
   * (which has no `<`), then `r` has the same start tag and its content is where `v` was put.
   */
  lemma ContentSpliced(s: string, r: string, tag: string, st: StartTag, to: nat, v: string)
    requires FirstStartTag(s, tag, st) && FirstMatch(s, CloseTag(tag), st.end + 1, to) && '<' !in v
    requires Agree(s, r, st.end + 1) && st.end + 1 + |v| <= |r| && r[st.end + 1..st.end + 1 + |v|] == v
    requires r[st.end + 1 + |v|..] == s[to..]
    ensures FirstStartTag(r, tag, st)
    ensures FirstMatch(r, CloseTag(tag), st.end + 1, st.end + 1 + |v|)
  {
    AgreeAt(s, r, st.end + 1);
    StartTagKept(s, r, tag, st, st.end);
    MatchAtInCopy(s, to, r, st.end + 1 + |v|, CloseTag(tag));
    FirstMatchAfterPlainText(r, CloseTag(tag), st.end + 1, v);
  }

  // ---------------------------------------------------------------------------------
  // Text content

  /**
   * Replacing the content of a present element by text `v` without `<` leaves the element in
   * place, with content exactly `v`, and keeps everything before it and from its end tag on.
   */
  lemma ReplaceTextRoundTrip(s: string, tag: string, v: string)
    requires ElementContent(s, tag).Some? && '<' !in v
    ensures var from := ElementContent(s, tag).value.0;
            var to := ElementContent(s, tag).value.1;
            var r := ReplaceText(s, tag, v);
            && Found(ElementContent(r, tag), from, from + |v|)
            && InnerText(r, tag) == Some(v)
            && Spliced(s, r, from, to, v)
  {
    var from := ElementContent(s, tag).value.0;
    var to := ElementContent(s, tag).value.1;
    TextShape(s, tag, v);
    ReplacedContentFound(s, ReplaceText(s, tag, v), tag, OpenTag(s, tag).value, from, to, v);
  }

  /** Where the pieces of replaced element content end up. */
  lemma TextShape(s: string, tag: string, v: string)
    requires ElementContent(s, tag).Some?
    ensures var from := ElementContent(s, tag).value.0;
            var to := ElementContent(s, tag).value.1;
            var r := ReplaceText(s, tag, v);
            && Agree(s, r, from) && from + |v| <= |r| && r[from..from + |v|] == v
            && r[from + |v|..] == s[to..]
            && Spliced(s, r, from, to, v)
  {
    var from := ElementContent(s, tag).value.0;
    var to := ElementContent(s, tag).value.1;
    SpliceShape(s, from, to, v);
  }

  /** ContentSpliced stated in terms of the searches. */
  lemma ReplacedContentFound(s: string, r: string, tag: string, st: StartTag, from: nat, to: nat, v: string)
    requires OpenTag(s, tag) == Some(st) && Found(ElementContent(s, tag), from, to) && '<' !in v
    requires Agree(s, r, from) && from + |v| <= |r| && r[from..from + |v|] == v
    requires r[from + |v|..] == s[to..]
    ensures Found(ElementContent(r, tag), from, from + |v|)
  {
    OpenTagIff(s, tag, st);
    ElementContentIff(s, tag, st, to);
    ContentSpliced(s, r, tag, st, to, v);
    OpenTagIff(r, tag, st);
    ElementContentIff(r, tag, st, from + |v|);
  }

  /** ElementContent returns the content after the first start tag, up to the first end tag. */
  lemma ElementContentIff(s: string, tag: string, st: StartTag, to: nat)
    requires OpenTag(s, tag) == Some(st)
    ensures ElementContent(s, tag).Some? ==> ElementContent(s, tag).value.0 == st.end + 1
    ensures Found(ElementContent(s, tag), st.end + 1, to) <==> FirstMatch(s, CloseTag(tag), st.end + 1, to)
  {
    FindFromIff(s, CloseTag(tag), st.end + 1, to);
  }



  /** Replacing the content of an element twice with the same text is the same as once. */
  lemma ReplaceTextIdempotent(s: string, tag: string, v: string)
    requires '<' !in v
    ensures ReplaceText(ReplaceText(s, tag, v), tag, v) == ReplaceText(s, tag, v)
  {
    if ElementContent(s, tag).Some? {
      ReplaceTextRoundTrip(s, tag, v);
      ReplaceTextToCurrent(ReplaceText(s, tag, v), tag);
    }
  }

  /** Writing back the content an element already has changes nothing. */
  lemma ReplaceTextToCurrent(r: string, tag: string)
    requires ElementContent(r, tag).Some?
    ensures ReplaceText(r, tag, InnerText(r, tag).value) == r
  {
    var from := ElementContent(r, tag).value.0;
    var to := ElementContent(r, tag).value.1;
    SpliceCurrent(r, from, to);
  }

  // ---------------------------------------------------------------------------------
  // Attribute values

  /** A quote right after text without quotes is the first quote from the start of the text. */
  lemma QuoteAfterPlainText(r: string, from: nat, v: string)
    requires '"' !in v && from + |v| < |r| && r[from..from + |v|] == v && r[from + |v|] == '"'
    ensures FirstChar(r, '"', from, from + |v|)
  {
    CharAbsentInPiece(r, from, v, '"');
  }

  /**
   * If `r` is `s` with the value [from, q) of attribute `name` replaced by markup-free `v`,
   * then `r` has the same start tag, whose `>` moved by the change in length.
   */
  lemma OverwrittenStartTag(s: string, r: string, tag: string, name: string, st: StartTag,
                            from: nat, q: nat, v: string)
    requires FirstAttribute(s, tag, name, st, from, q) && NoMarkup(v)
    requires Agree(s, r, from) && from + |v| <= |r| && r[from..from + |v|] == v
    requires r[from + |v|..] == s[q..]
    ensures FirstStartTag(r, tag, st.(end := st.end - q + from + |v|))
  {
    var end := st.end - q + from + |v|;
    AgreeAt(s, r, from);
    CharAbsentInPiece(r, from, v, '>');
    CharAbsentInCopy(s, q, r, from + |v|, st.end - q, '>');
    assert r[end] == r[from + |v|..][st.end - q] == s[q..][st.end - q] == s[st.end];
    assert FirstChar(r, '>', st.nameEnd, end);
    StartTagKept(s, r, tag, st, end);
  }

  /**
   * If `r` is `s` with the value [from, q) of attribute `name` replaced by markup-free `v`,
   * then in `r` the attribute's value is exactly where `v` was put.
   */
  lemma OverwrittenValue(s: string, r: string, tag: string, name: string, st: StartTag,
                         from: nat, q: nat, v: string)
    requires FirstAttribute(s, tag, name, st, from, q) && NoMarkup(v)
    requires Agree(s, r, from) && from + |v| <= |r| && r[from..from + |v|] == v
    requires r[from + |v|..] == s[q..]
    ensures FirstAttribute(r, tag, name, st.(end := st.end - q + from + |v|), from, from + |v|)
  {
    var marker := AttributeMarker(name);
    OverwrittenStartTag(s, r, tag, name, st, from, q, v);
    FirstMatchKept(s, r, from, marker, st.nameEnd, from - |marker|);
    assert r[from + |v|] == r[from + |v|..][0] == s[q..][0] == s[q];
    QuoteAfterPlainText(r, from, v);
  }

  /** Where the pieces of an overwritten attribute value end up. */
  lemma OverwriteShape(s: string, tag: string, name: string, v: string)
    requires AttributeValue(s, tag, name).Some?
    ensures var from := AttributeValue(s, tag, name).value.0;
            var q := AttributeValue(s, tag, name).value.1;
            var r := SetAttribute(s, tag, name, v);
            && Agree(s, r, from) && from + |v| <= |r| && r[from..from + |v|] == v
            && r[from + |v|..] == s[q..]
  {
    var from := AttributeValue(s, tag, name).value.0;
    var q := AttributeValue(s, tag, name).value.1;
    assert SetAttribute(s, tag, name, v) == Splice(s, from, q, v);
    SpliceShape(s, from, q, v);
  }

  /**
   * Overwriting a readable attribute value with markup-free `v` leaves exactly `v` as the
   * attribute's value, at the same place.
   */
  lemma OverwriteAttributeRoundTrip(s: string, tag: string, name: string, v: string)
    requires AttributeValue(s, tag, name).Some? && NoMarkup(v)
    ensures var from := AttributeValue(s, tag, name).value.0;
            var r := SetAttribute(s, tag, name, v);
            && Found(AttributeValue(r, tag, name), from, from + |v|)
            && OpenTag(r, tag).Some? && GetAttribute(r, tag, name) == Some(v)
  {
    var st := OpenTag(s, tag).value;
    var from := AttributeValue(s, tag, name).value.0;
    var q := AttributeValue(s, tag, name).value.1;
    var r := SetAttribute(s, tag, name, v);
    AttributeValueFirst(s, tag, name, st, from, q);
    OverwriteShape(s, tag, name, v);
    OverwrittenReadBack(s, r, tag, name, st, from, q, v);
  }

  /** OverwrittenValue, read back through the searches. */
  lemma OverwrittenReadBack(s: string, r: string, tag: string, name: string, st: StartTag,
                            from: nat, q: nat, v: string)
    requires FirstAttribute(s, tag, name, st, from, q) && NoMarkup(v)
    requires Agree(s, r, from) && from + |v| <= |r| && r[from..from + |v|] == v
    requires r[from + |v|..] == s[q..]
    ensures Found(AttributeValue(r, tag, name), from, from + |v|)
    ensures OpenTag(r, tag).Some? && GetAttribute(r, tag, name) == Some(v)
  {
    OverwrittenValue(s, r, tag, name, st, from, q, v);
    AttributeReadBack(r, tag, name, st.(end := st.end - q + from + |v|), from, v);
  }



  /** The marker of an attribute whose name has no `>` has no `>` either. */
  lemma MarkerHasNoTagEnd(name: string)
    requires '>' !in name
    ensures '>' !in AttributeMarker(name)
  {
    assert AttributeMarker(name) == [' '] + name + ['=', '"'];
  }

  /** The pieces of a splice that inserts ` name="v"` at `at`. */
  lemma InsertShape(s: string, at: nat, marker: string, v: string)
    requires at <= |s| && |marker| > 0
    ensures var r := Splice(s, at, at, marker + v + "\"");
            var from := at + |marker|;
            && Agree(s, r, at)
            && from + |v| < |r|
            && r[at] == marker[0] && MatchAt(r, marker, at)
            && r[at..from + |v| + 1] == marker + v + "\""
            && r[from..from + |v|] == v && r[from + |v|] == '"'
            && r[from + |v| + 1..] == s[at..]
  {
    var piece := marker + v + "\"";
    var r := Splice(s, at, at, piece);
    var from := at + |marker|;
    SpliceShape(s, at, at, piece);
    assert r[at..from] == r[at..at + |piece|][..|marker|] == piece[..|marker|] == marker;
    assert r[from..from + |v|] == r[at..at + |piece|][|marker|..|marker| + |v|] == v;
    assert r[from + |v|] == r[at..at + |piece|][|marker| + |v|] == '"';
  }

  /**
   * If `r` is `s` with ` name="v"` inserted right after the tag name of its first `tag` start
   * tag, then `r` has the same start tag, whose `>` moved by the inserted length, and the
   * attribute's value in `r` is exactly the inserted `v`.
   */
  lemma InsertedValue(s: string, r: string, tag: string, name: string, st: StartTag, v: string)
    requires FirstStartTag(s, tag, st) && NoMarkup(v) && '>' !in name
    requires var from := st.nameEnd + |AttributeMarker(name)|;
             && Agree(s, r, st.nameEnd) && from + |v| < |r|
             && r[st.nameEnd] == ' ' && MatchAt(r, AttributeMarker(name), st.nameEnd)
             && r[st.nameEnd..from + |v| + 1] == AttributeMarker(name) + v + "\""
             && r[from..from + |v|] == v && r[from + |v|] == '"'
             && r[from + |v| + 1..] == s[st.nameEnd..]
    ensures var from := st.nameEnd + |AttributeMarker(name)|;
            FirstAttribute(r, tag, name, st.(end := st.end + |v| + |AttributeMarker(name)| + 1), from, from + |v|)
  {
    var marker := AttributeMarker(name);
    var ne := st.nameEnd;
    var from := ne + |marker|;
    var ins := marker + v + "\"";
    var end := st.end + |ins|;
    MarkerHasNoTagEnd(name);
    assert '>' !in ins;
    CharAbsentInPiece(r, ne, ins, '>');
    CharAbsentInCopy(s, ne, r, ne + |ins|, st.end - ne, '>');
    assert r[end] == r[ne + |ins|..][st.end - ne] == s[ne..][st.end - ne] == s[st.end];
    assert FirstChar(r, '>', ne, end);
    StartTagKept(s, r, tag, st, end);
    assert FirstMatch(r, marker, ne, ne);
    QuoteAfterPlainText(r, from, v);
  }

  /**
   * Inserting an attribute right after the tag name of a start tag whose value cannot be
   * read keeps the start tag and makes markup-free `v` the attribute's value.
   */
  lemma InsertAttributeRoundTrip(s: string, tag: string, name: string, v: string)
    requires OpenTag(s, tag).Some? && AttributeValue(s, tag, name).None?
    requires NoMarkup(v) && '>' !in name
    ensures var from := OpenTag(s, tag).value.nameEnd + |AttributeMarker(name)|;
            var r := SetAttribute(s, tag, name, v);
            && Found(AttributeValue(r, tag, name), from, from + |v|)
            && OpenTag(r, tag).Some? && GetAttribute(r, tag, name) == Some(v)
  {
    var st := OpenTag(s, tag).value;
    var from := st.nameEnd + |AttributeMarker(name)|;
    var r := SetAttribute(s, tag, name, v);
    OpenTagIff(s, tag, st);
    InsertionShape(s, tag, name, v);
    InsertedValue(s, r, tag, name, st, v);
    AttributeReadBack(r, tag, name, st.(end := st.end + |v| + |AttributeMarker(name)| + 1), from, v);
  }

  /** Where the pieces of an inserted attribute end up. */
  lemma InsertionShape(s: string, tag: string, name: string, v: string)
    requires OpenTag(s, tag).Some? && AttributeValue(s, tag, name).None?
    ensures var ne := OpenTag(s, tag).value.nameEnd;
            var marker := AttributeMarker(name);
            var from := ne + |marker|;
            var r := SetAttribute(s, tag, name, v);
            && Agree(s, r, ne) && from + |v| < |r|
            && r[ne] == ' ' && MatchAt(r, marker, ne)
            && r[ne..from + |v| + 1] == marker + v + "\""
            && r[from..from + |v|] == v && r[from + |v|] == '"'
            && r[from + |v| + 1..] == s[ne..]
  {
    var st := OpenTag(s, tag).value;
    assert SetAttribute(s, tag, name, v) == Splice(s, st.nameEnd, st.nameEnd, AttributeMarker(name) + v + "\"");
    InsertShape(s, st.nameEnd, AttributeMarker(name), v);
  }



  /**
   * Setting attribute `name` of a present start tag to markup-free `v` makes `v` the value
   * read back, and the start tag stays present.
   */
  lemma SetAttributeRoundTrip(s: string, tag: string, name: string, v: string)
    requires OpenTag(s, tag).Some? && NoMarkup(v) && '>' !in name
    ensures var r := SetAttribute(s, tag, name, v);
            && OpenTag(r, tag).Some?
            && AttributeValue(r, tag, name).Some?
            && GetAttribute(r, tag, name) == Some(v)
            && AttributeSpliced(s, r, tag, name, v)
  {
    if AttributeValue(s, tag, name).Some? {
      OverwriteAttributeRoundTrip(s, tag, name, v);
      OverwriteSpliced(s, tag, name, v);
    } else {
      InsertAttributeRoundTrip(s, tag, name, v);
      InsertionSpliced(s, tag, name, v);
    }
  }

  /**
   * `r` is `s` with attribute `name` of its first `tag` start tag set to `v`: the old value
   * replaced when it can be read, otherwise ` name="v"` inserted right after the tag name.
   * Nothing else changes.
   */
  predicate AttributeSpliced(s: string, r: string, tag: string, name: string, v: string)
  {
    && OpenTag(s, tag).Some?
    && (AttributeValue(s, tag, name).Some? ==>
          Spliced(s, r, AttributeValue(s, tag, name).value.0, AttributeValue(s, tag, name).value.1, v))
    && (AttributeValue(s, tag, name).None? ==>
          var ne := OpenTag(s, tag).value.nameEnd;
          Spliced(s, r, ne, ne, AttributeMarker(name) + v + "\""))
  }

  /** An overwritten attribute value is the only change. */
  lemma OverwriteSpliced(s: string, tag: string, name: string, v: string)
    requires AttributeValue(s, tag, name).Some?
    ensures AttributeSpliced(s, SetAttribute(s, tag, name, v), tag, name, v)
  {
    var from := AttributeValue(s, tag, name).value.0;
    var q := AttributeValue(s, tag, name).value.1;
    assert SetAttribute(s, tag, name, v) == Splice(s, from, q, v);
    SpliceShape(s, from, q, v);
  }

  /** An inserted attribute is the only change. */
  lemma InsertionSpliced(s: string, tag: string, name: string, v: string)
    requires OpenTag(s, tag).Some? && AttributeValue(s, tag, name).None?
    ensures AttributeSpliced(s, SetAttribute(s, tag, name, v), tag, name, v)
  {
    var ne := OpenTag(s, tag).value.nameEnd;
    assert SetAttribute(s, tag, name, v) == Splice(s, ne, ne, AttributeMarker(name) + v + "\"");
    SpliceShape(s, ne, ne, AttributeMarker(name) + v + "\"");
  }

  /** An attribute value found at a stretch holding `v` reads back as `v`. */
  lemma AttributeReadBack(r: string, tag: string, name: string, st: StartTag, from: nat, v: string)
    requires FirstAttribute(r, tag, name, st, from, from + |v|)
    requires from + |v| <= |r| && r[from..from + |v|] == v
    ensures Found(AttributeValue(r, tag, name), from, from + |v|)
    ensures OpenTag(r, tag).Some? && GetAttribute(r, tag, name) == Some(v)
  {
    FirstAttributeFound(r, tag, name, st, from, from + |v|);
  }


  /** Writing back the value an attribute already has changes nothing. */
  lemma SetAttributeToCurrent(r: string, tag: string, name: string)
    requires AttributeValue(r, tag, name).Some?
    ensures SetAttribute(r, tag, name, GetAttribute(r, tag, name).value) == r
  {
    var from := AttributeValue(r, tag, name).value.0;
    var to := AttributeValue(r, tag, name).value.1;
    SpliceCurrent(r, from, to);
  }

  /** Setting an attribute twice to the same markup-free text is the same as once. */
  lemma SetAttributeIdempotent(s: string, tag: string, name: string, v: string)
    requires NoMarkup(v) && '>' !in name
    ensures SetAttribute(SetAttribute(s, tag, name, v), tag, name, v) == SetAttribute(s, tag, name, v)
  {
    if OpenTag(s, tag).Some? {
      SetAttributeRoundTrip(s, tag, name, v);
      SetAttributeToCurrent(SetAttribute(s, tag, name, v), tag, name);
    }
  }
}
