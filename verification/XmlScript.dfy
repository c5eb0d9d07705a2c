/**
 `xml_script_end`: where an SVG script body ends. The specification walks the content one byte
 at a time, inside or outside an opaque section; the scanner jumps from `<` to `<`.
 */
module XmlScript {
  import opened Bytes
  import opened HtmlTokenizer
  import opened ScriptEnd
  import opened Comments

  const CDATA_OPEN: seq<Byte> := [LT, BANG, 0x5B, 0x43, 0x44, 0x41, 0x54, 0x41, 0x5B]
  const CDATA_CLOSE: seq<Byte> := [0x5D, 0x5D, GT]
  const PI_OPEN: seq<Byte> := [LT, QUESTION]
  const PI_CLOSE: seq<Byte> := [QUESTION, GT]

  /** The opener of an opaque section that starts at `at`, with what closes it. */
  function SectionAt(page: seq<Byte>, at: nat): Option<(seq<Byte>, seq<Byte>)> {
    if StartsAt(page, at, CDATA_OPEN) then Some((CDATA_OPEN, CDATA_CLOSE))
    else if StartsAt(page, at, OPEN_COMMENT) then Some((OPEN_COMMENT, DASH_DASH_GT))
    else if StartsAt(page, at, PI_OPEN) then Some((PI_OPEN, PI_CLOSE))
    else None
  }

  /** Reading byte by byte; `closer` is what ends the open section, `[]` outside any. */
  function Walk(page: seq<Byte>, at: nat, closer: seq<Byte>): (end: Option<nat>)
    ensures end.Some? ==> at <= end.value < |page|
    decreases |page| - at
  {
    if at >= |page| then None
    else if closer != [] then
      if StartsAt(page, at, closer) then Walk(page, at + |closer|, []) else Walk(page, at + 1, closer)
    else
      match SectionAt(page, at)
      case Some(section) => Walk(page, at + |section.0|, section.1)
      case None => if IsEndTag(page, at, SCRIPT) then Some(at) else Walk(page, at + 1, [])
  }

  /** Outside a section nothing happens before the next `<`. */
  lemma {:induction false} WalkToLess(page: seq<Byte>, p: nat, q: nat)
    requires p <= q <= |page|
    requires forall k :: p <= k < q ==> page[k] != LT
    ensures Walk(page, p, []) == Walk(page, q, [])
    decreases q - p
  {
    if p < q {
      StartsAtBytes(page, p, CDATA_OPEN);
      StartsAtBytes(page, p, OPEN_COMMENT);
      StartsAtBytes(page, p, PI_OPEN);
      StartsAtBytes(page, p, [LT, SLASH]);
      assert page[p] != CDATA_OPEN[0] && page[p] != OPEN_COMMENT[0] && page[p] != PI_OPEN[0]
             && page[p] != [LT, SLASH][0];
      WalkToLess(page, p + 1, q);
    }
  }

  /** A section runs to the first occurrence of its closer. */
  lemma {:induction false} WalkThrough(page: seq<Byte>, p: nat, closer: seq<Byte>)
    requires closer != []
    ensures Walk(page, p, closer) == Walk(page, Past(page, p, closer), [])
    decreases |page| - p
  {
    hide SectionAt, IsEndTag;
    if p + |closer| > |page| {
      Unclosed(page, p, closer);
    } else if !StartsAt(page, p, closer) {
      WalkThrough(page, p + 1, closer);
    }
  }

  lemma {:induction false} Unclosed(page: seq<Byte>, p: nat, closer: seq<Byte>)
    requires closer != [] && p + |closer| > |page|
    ensures Walk(page, p, closer) == None
    decreases |page| - p
  {
    if p < |page| { Unclosed(page, p + 1, closer); }
  }

  lemma WalkToNext(page: seq<Byte>, at: nat)
    requires at <= |page|
    ensures var found := Find(page, at, [LT]);
            Walk(page, at, []) == (if found.Some? then Walk(page, found.value, []) else None)
            && (found.Some? ==> found.value < |page|)
  {
    hide Walk;
    var found := Find(page, at, [LT]);
    var start := if found.Some? then found.value else |page|;
    forall k | at <= k < start ensures page[k] != LT {
      assert !StartsAt(page, k, [LT]);
      assert page[k..k + 1] == [page[k]];
    }
    WalkToLess(page, at, start);
    WalkOff(page);
  }

  lemma WalkOff(page: seq<Byte>)
    ensures Walk(page, |page|, []) == None
  {
  }

  lemma WalkOnce(page: seq<Byte>, at: nat)
    requires at < |page|
    ensures Walk(page, at, [])
            == match SectionAt(page, at)
               case Some(section) => Walk(page, at + |section.0|, section.1)
               case None => if IsEndTag(page, at, SCRIPT) then Some(at) else Walk(page, at + 1, [])
    ensures SectionAt(page, at).Some? ==> SectionAt(page, at).value.0 != [] && SectionAt(page, at).value.1 != []
                                          && at + |SectionAt(page, at).value.0| <= |page|
  {
  }

  method XmlScriptEnd(page: seq<Byte>, from: nat) returns (end: Option<nat>)
    requires from <= |page|
    ensures end == Walk(page, from, [])
  {
    hide StartsAt, IsEndTag, SectionAt, Walk;
    var at := from;
    while true
      invariant from <= at <= |page|
      invariant Walk(page, at, []) == Walk(page, from, [])
      decreases |page| - at
    {
      WalkToNext(page, at);
      var found := Find(page, at, [LT]);
      if found.None? { return None; }
      var start := found.value;
      var section := SectionAt(page, start);
      WalkOnce(page, start);
      if section.Some? {
        WalkThrough(page, start + |section.value.0|, section.value.1);
        at := Past(page, start + |section.value.0|, section.value.1);
      } else if IsEndTag(page, start, SCRIPT) {
        return Some(start);
      } else {
        at := start + 1;
      }
    }
  }
}
