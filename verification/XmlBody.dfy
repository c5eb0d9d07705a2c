/**
 Where an SVG script body ends, from the writer's side: behind any text, character data, comments,
 instructions and other tags there is no end before the first `</script` outside them.
 */
module XmlBody {
  import opened Bytes
  import opened Comments
  import E = ScriptEnd
  import N = XmlNodes
  import T = HtmlTokenizer
  import opened XmlScript

  datatype Part =
    | Text(bytes: seq<Byte>)
    | CData(content: seq<Byte>)
    | Remark(content: seq<Byte>)  // a comment
    | Instruction(content: seq<Byte>)
    | Other(bytes: seq<Byte>)  // a `<` that opens none of these, with the text behind it

  function Print(p: Part): (s: seq<Byte>) {
    match p
    case Text(bytes) => bytes
    case CData(content) => CDATA_OPEN + (content + CDATA_CLOSE)
    case Remark(content) => E.OPEN_COMMENT + (content + DASH_DASH_GT)
    case Instruction(content) => PI_OPEN + (content + PI_CLOSE)
    case Other(bytes) => bytes
  }

  /** In `content` and the close behind it, that is the first close. */
  predicate ClosedBy(content: seq<Byte>, close: seq<Byte>) {
    Find(content + close, 0, close) == Some(|content|)
  }

  predicate IsPart(p: Part) {
    match p
    case Text(bytes) => LT !in bytes
    case CData(content) => ClosedBy(content, CDATA_CLOSE)
    case Remark(content) => ClosedBy(content, DASH_DASH_GT)
    case Instruction(content) => ClosedBy(content, PI_CLOSE)
    case Other(bytes) =>
      && |bytes| >= 2 && bytes[0] == LT && LT !in bytes[1..] && bytes[1] != BANG && bytes[1] != QUESTION
      && (bytes[1] == SLASH ==> |bytes| >= 3 && bytes[2] != 's' as int && bytes[2] != 'S' as int)
  }

  function PrintAll(ps: seq<Part>): seq<Byte> {
    if ps == [] then [] else Print(ps[0]) + PrintAll(ps[1..])
  }

  predicate AreParts(ps: seq<Part>) {
    forall k :: 0 <= k < |ps| ==> IsPart(ps[k])
  }

  /** `</script` in any case, before a blank, a `/`, a `>` or the end. */
  predicate Ends(rest: seq<Byte>) {
    && |rest| >= 8 && rest[0] == LT && rest[1] == SLASH && LowerAll(rest[2..8]) == Spelled("script")
    && (|rest| > 8 ==> rest[8] in {TAB, LF, FF, CR, SPACE, SLASH, GT})
  }

  // ----- one part -----

  lemma SectionWalks(page: seq<Byte>, i: nat, open: seq<Byte>, content: seq<Byte>, close: seq<Byte>)
    requires StartsAt(page, i, open + (content + close)) && ClosedBy(content, close) && IsSection(open, close)
    ensures Walk(page, i, []) == Walk(page, i + |open| + |content| + |close|, [])
  {
    hide SectionAt, Walk, Find;
    StartsWithPrefix(page, i, open, content + close);
    OpensAs(page, i, open, close);
    WalkOnce(page, i);
    var s := open + (content + close);
    N.SliceOfSlice(page, i, i + |s|, |open|, |s|);
    assert s[|open|..|s|] == content + close;
    N.FindInside(page, i + |open|, content + close, 0, close);
    WalkThrough(page, i + |open|, close);
  }

  /** What opens a section, and what closes it. */
  predicate IsSection(open: seq<Byte>, close: seq<Byte>) {
    || (open == Spelled("<![CDATA[") && close == Spelled("]]>"))
    || (open == Spelled("<!--") && close == Spelled("-->"))
    || (open == Spelled("<?") && close == Spelled("?>"))
  }

  lemma OpensAs(page: seq<Byte>, i: nat, open: seq<Byte>, close: seq<Byte>)
    requires StartsAt(page, i, open) && IsSection(open, close)
    ensures SectionAt(page, i) == Some((open, close)) && open != [] && close != []
  {
    hide StartsAt;
    AreSections();
    StartsAtBytes(page, i, open);
    StartsAtBytes(page, i, CDATA_OPEN);
    StartsAtBytes(page, i, E.OPEN_COMMENT);
    StartsAtBytes(page, i, PI_OPEN);
    assert page[i + 1] == open[1];
    assert |open| > 2 ==> page[i + 2] == open[2];
    assert CDATA_OPEN[2] != E.OPEN_COMMENT[2] && PI_OPEN[1] != E.OPEN_COMMENT[1] && PI_OPEN[1] != CDATA_OPEN[1];
  }

  lemma AreSections()
    ensures CDATA_OPEN == Spelled("<![CDATA[") && CDATA_CLOSE == Spelled("]]>")
    ensures E.OPEN_COMMENT == Spelled("<!--") && DASH_DASH_GT == Spelled("-->")
    ensures PI_OPEN == Spelled("<?") && PI_CLOSE == Spelled("?>")
  {
  }

  lemma StartsWithPrefix(page: seq<Byte>, i: nat, open: seq<Byte>, more: seq<Byte>)
    requires StartsAt(page, i, open + more)
    ensures StartsAt(page, i, open)
  {
    N.StartsInside(page, i, open + more, 0, open);
    assert (open + more)[0..|open|] == open;
  }

  lemma OtherOpensNothing(page: seq<Byte>, i: nat, bytes: seq<Byte>)
    requires IsPart(Other(bytes)) && StartsAt(page, i, bytes)
    ensures i + |bytes| <= |page| && SectionAt(page, i) == None && !E.IsEndTag(page, i, T.SCRIPT)
    ensures forall k :: i < k < i + |bytes| ==> page[k] != LT
  {
    hide StartsAt;
    StartsAtBytes(page, i, bytes);
    StartsAtBytes(page, i, CDATA_OPEN);
    StartsAtBytes(page, i, E.OPEN_COMMENT);
    StartsAtBytes(page, i, PI_OPEN);
    StartsAtBytes(page, i, [LT, SLASH]);
    assert page[i + 1] == bytes[1];
    assert CDATA_OPEN[1] == BANG && E.OPEN_COMMENT[1] == BANG && PI_OPEN[1] == QUESTION && [LT, SLASH][1] == SLASH;
    if bytes[1] == SLASH {
      assert page[i + 2] == bytes[2];
      NoScriptName(page, i);
    }
    forall k | i < k < i + |bytes| ensures page[k] != LT {
      assert page[i + (k - i)] == bytes[k - i] == bytes[1..][k - i - 1];
    }
  }

  lemma NoScriptName(page: seq<Byte>, i: nat)
    requires i + 2 < |page| && page[i + 2] != 's' as int && page[i + 2] != 'S' as int
    ensures !E.IsEndTag(page, i, T.SCRIPT)
  {
    if i + 8 <= |page| {
      assert LowerAll(page[i + 2..i + 8])[0] == Lower(page[i + 2]);
      assert LowerAll(T.SCRIPT)[0] == Lower(T.SCRIPT[0]) == 's' as int;
    }
  }

  lemma PartWalks(page: seq<Byte>, i: nat, p: Part)
    requires IsPart(p) && StartsAt(page, i, Print(p))
    ensures Walk(page, i, []) == Walk(page, i + |Print(p)|, [])
  {
    hide SectionAt, Walk, E.IsEndTag, ClosedBy;
    AreSections();
    match p {
      case Text(bytes) =>
        StartsAtBytes(page, i, bytes);
        forall k | i <= k < i + |bytes| ensures page[k] != LT { assert page[i + (k - i)] == bytes[k - i]; }
        WalkToLess(page, i, i + |bytes|);
      case CData(content) =>
        SectionWalks(page, i, CDATA_OPEN, content, CDATA_CLOSE);
      case Remark(content) =>
        SectionWalks(page, i, E.OPEN_COMMENT, content, DASH_DASH_GT);
      case Instruction(content) =>
        SectionWalks(page, i, PI_OPEN, content, PI_CLOSE);
      case Other(bytes) =>
        OtherOpensNothing(page, i, bytes);
        WalkOnce(page, i);
        WalkToLess(page, i + 1, i + |bytes|);
    }
  }

  lemma FirstPart(ps: seq<Part>)
    requires AreParts(ps) && ps != []
    ensures IsPart(ps[0]) && AreParts(ps[1..]) && PrintAll(ps) == Print(ps[0]) + PrintAll(ps[1..])
  {
    hide IsPart, Print;
  }

  lemma NoPart()
    ensures PrintAll([]) == []
  {
  }

  lemma Regroup(first: seq<Byte>, others: seq<Byte>, rest: seq<Byte>)
    ensures first + others + rest == first + (others + rest) && |first + others| == |first| + |others|
  {
  }

  lemma {:induction false} PartsWalk(page: seq<Byte>, i: nat, ps: seq<Part>, rest: seq<Byte>)
    requires AreParts(ps) && i <= |page| && page[i..] == PrintAll(ps) + rest
    ensures Walk(page, i, []) == Walk(page, i + |PrintAll(ps)|, [])
    decreases |ps|
  {
    hide *;
    NoPart();
    if ps != [] {
      var first, others := Print(ps[0]), PrintAll(ps[1..]);
      FirstPart(ps);
      Regroup(first, others, rest);
      N.Behind(page, i, first, others + rest);
      PartWalks(page, i, ps[0]);
      PartsWalk(page, i + |first|, ps[1..], rest);
    }
  }

  // ----- the end -----

  lemma EndsHere(page: seq<Byte>, at: nat, rest: seq<Byte>)
    requires at <= |page| && page[at..] == rest && Ends(rest)
    ensures Walk(page, at, []) == Some(at)
  {
    hide Walk, StartsAt;
    assert page[at] == rest[0] && page[at + 1] == rest[1];
    assert page[at + 2..at + 8] == rest[2..8];
    assert |rest| > 8 ==> page[at + 8] == rest[8];
    assert T.SCRIPT == Spelled("script") && LowerAll(T.SCRIPT) == T.SCRIPT;
    StartsAtBytes(page, at, [LT, SLASH]);
    StartsAtBytes(page, at, CDATA_OPEN);
    StartsAtBytes(page, at, E.OPEN_COMMENT);
    StartsAtBytes(page, at, PI_OPEN);
    assert CDATA_OPEN[1] == BANG && E.OPEN_COMMENT[1] == BANG && PI_OPEN[1] == QUESTION;
    WalkOnce(page, at);
  }

  /** Behind parts of any kind the body ends at once where a `</script` follows. */
  lemma EndsBehind(ps: seq<Part>, rest: seq<Byte>)
    requires AreParts(ps) && Ends(rest)
    ensures Walk(PrintAll(ps) + rest, 0, []) == Some(|PrintAll(ps)|)
  {
    hide Walk, Ends, AreParts;
    var page := PrintAll(ps) + rest;
    assert page[0..] == page && page[|PrintAll(ps)|..] == rest;
    PartsWalk(page, 0, ps, rest);
    EndsHere(page, |PrintAll(ps)|, rest);
  }

  /** Without one it does not end. */
  lemma NeverEnds(ps: seq<Part>)
    requires AreParts(ps)
    ensures Walk(PrintAll(ps), 0, []) == None
  {
    hide Walk, AreParts;
    var page := PrintAll(ps);
    assert page + [] == page && page[0..] == page;
    PartsWalk(page, 0, ps, []);
    WalkOff(page);
  }

  /** Nor does it where a section is never closed, whatever that holds. */
  lemma NeverCloses(ps: seq<Part>, open: seq<Byte>, close: seq<Byte>, content: seq<Byte>)
    requires AreParts(ps) && IsSection(open, close) && Find(content, 0, close).None?
    ensures Walk(PrintAll(ps) + (open + content), 0, []) == None
  {
    hide Walk, AreParts, PrintAll, IsSection, SectionAt, Find;
    var page, at := PrintAll(ps) + (open + content), |PrintAll(ps)|;
    assert page[0..] == page && page[at..] == open + content && page[at + |open|..] == content;
    PartsWalk(page, 0, ps, open + content);
    N.Behind(page, at, open, content);
    OpensAs(page, at, open, close);
    WalkOnce(page, at);
    N.NotInTail(page, at + |open|, 0, close);
    WalkThrough(page, at + |open|, close);
    WalkOff(page);
  }
}
