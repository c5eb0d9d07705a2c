/**
 What `script_bodies` finds, from the other side: a page written as nodes, HTML or XML, and the
 bodies of the script elements among them.
 */
module PageNodes {
  import opened Bytes
  import opened Comments
  import T = HtmlTokenizer
  import E = ScriptEnd
  import opened Attributes
  import Tags
  import X = XmlScript
  import N = XmlNodes
  import opened PageScan
  import opened PageSuffix

  datatype Node =
    | Chars(bytes: seq<Byte>)
    | Remark(content: seq<Byte>)  // a comment
    | Section(content: seq<Byte>)  // XML character data
    | Declaration(content: seq<Byte>)
    | Instruction(content: seq<Byte>)
    | Lone(bytes: seq<Byte>)  // a `<` that opens nothing, an end tag's among them
    | Element(tag: seq<Byte>)
    | RawText(tag: seq<Byte>, content: seq<Byte>, close: seq<Byte>)  // HTML
    | EmptyScript(tag: seq<Byte>)  // XML `<script/>`
    | ScriptElement(tag: seq<Byte>, body: seq<Byte>, close: seq<Byte>)

  function Print(n: Node, xml: bool): seq<Byte> {
    match n
    case Chars(bytes) => bytes
    case Remark(content) => E.OPEN_COMMENT + content + DASH_DASH_GT
    case Section(content) => X.CDATA_OPEN + content + X.CDATA_CLOSE
    case Declaration(content) => [LT, BANG] + content + [GT]
    case Instruction(content) => X.PI_OPEN + content + (if xml then X.PI_CLOSE else [GT])
    case Lone(bytes) => [LT] + bytes
    case Element(tag) => tag
    case RawText(tag, content, close) => tag + (content + close)
    case EmptyScript(tag) => tag
    case ScriptElement(tag, body, close) => tag + (body + close)
  }

  /** `tag` is a whole start tag of the name, in lower case. */
  predicate IsTagOf(tag: seq<Byte>, name: seq<Byte>) {
    var t := Tags.TagAt(tag, 0);
    tag != [] && tag[0] == LT && t.Some? && t.value.end == Some(|tag|) && LowerAll(t.value.name) == name
  }

  function NameOf(tag: seq<Byte>): seq<Byte> {
    if Tags.TagAt(tag, 0).Some? then LowerAll(Tags.TagAt(tag, 0).value.name) else []
  }

  predicate ClosesItself(tag: seq<Byte>) {
    Tags.TagAt(tag, 0).Some? && Tags.TagAt(tag, 0).value.selfClosing
  }

  /** No tag, comment or declaration opens at a `<` before these bytes, and none is in them. */
  predicate OpensNothing(bytes: seq<Byte>) {
    LT !in bytes && bytes != [] && !IsAlpha(bytes[0]) && bytes[0] != BANG && bytes[0] != QUESTION
  }

  /** An end tag, or any other text, at whose `<` nothing opens. */
  predicate IsClose(close: seq<Byte>) {
    close != [] && close[0] == LT && OpensNothing(close[1..])
  }

  /** Read on its own, `body` is ended by `close` and nowhere before. */
  predicate EndsAt(body: seq<Byte>, close: seq<Byte>, xml: bool) {
    if xml then X.Walk(body + close, 0, []) == Some(|body|) && 8 < |close|
    else T.Run(body + close, 0, T.ScriptData) == T.Recognised(|body|)
  }

  predicate IsNode(n: Node, xml: bool) {
    match n
    case Chars(bytes) => LT !in bytes
    case Remark(_) => CommentEnd(Print(n, xml), 4, xml) == |Print(n, xml)|
    case Section(_) => xml && N.ClosesAtItsEnd(Print(n, xml), 9, X.CDATA_CLOSE)
    case Declaration(content) =>
      GT !in content && !StartsAt(Print(n, xml), 0, E.OPEN_COMMENT)
      && (xml ==> !StartsAt(Print(n, xml), 0, X.CDATA_OPEN))
    case Instruction(content) => N.ClosesAtItsEnd(Print(n, xml), 2, if xml then X.PI_CLOSE else [GT])
    case Lone(bytes) => OpensNothing(bytes)
    case Element(tag) =>
      IsTagOf(tag, NameOf(tag)) && NameOf(tag) != T.SCRIPT
      && (xml || (NameOf(tag) != PLAINTEXT && NameOf(tag) !in RAW_TEXT_ELEMENTS))
    case RawText(tag, content, close) =>
      && !xml && IsTagOf(tag, NameOf(tag)) && NameOf(tag) in RAW_TEXT_ELEMENTS && NameOf(tag) != T.SCRIPT
      && NameOf(tag) != PLAINTEXT && IsClose(close)
      && FirstEndTag(content + close, 0, Tags.TagAt(tag, 0).value.name) == Some(|content|)
      && 2 + |Tags.TagAt(tag, 0).value.name| < |close|
    case EmptyScript(tag) => xml && IsTagOf(tag, T.SCRIPT) && ClosesItself(tag)
    case ScriptElement(tag, body, close) =>
      IsTagOf(tag, T.SCRIPT) && (xml ==> !ClosesItself(tag)) && IsClose(close) && EndsAt(body, close, xml)
  }

  function PrintAll(ns: seq<Node>, xml: bool): seq<Byte> {
    if ns == [] then [] else Print(ns[0], xml) + PrintAll(ns[1..], xml)
  }

  predicate AreNodes(ns: seq<Node>, xml: bool) {
    forall k :: 0 <= k < |ns| ==> IsNode(ns[k], xml)
  }

  /** The bodies of the script elements, the first node standing at `at`. */
  function Bodies(ns: seq<Node>, xml: bool, at: nat): seq<Script> {
    if ns == [] then []
    else OwnBody(ns[0], at) + Bodies(ns[1..], xml, at + |Print(ns[0], xml)|)
  }

  function OwnBody(n: Node, at: nat): seq<Script> {
    match n
    case EmptyScript(tag) => [Script(at + |tag|, at + |tag|, ScopeIn(tag))]
    case ScriptElement(tag, body, _) => [Script(at + |tag|, at + |tag| + |body|, ScopeIn(tag))]
    case _ => []
  }

  /** The scope the attributes of `tag`, read on its own, give a script. */
  function ScopeIn(tag: seq<Byte>): Option<ScriptScope> {
    if tag == [] then None else ScopeOf(Tags.Run(tag, 1, Tags.TagName, Tags.BeginsValue, Tags.NOTHING).attributes)
  }

  // ----- reading on past what follows -----

  lemma {:induction false} TagRunWithin(page: seq<Byte>, front: seq<Byte>, at: nat, s: Tags.State, t: Tags.Tally)
    requires front <= page && Tags.Run(front, at, s, Tags.BeginsValue, t).end.Some?
    ensures Tags.Run(page, at, s, Tags.BeginsValue, t) == Tags.Run(front, at, s, Tags.BeginsValue, t)
    decreases |front| - at, if at < |front| then Tags.Rank(s, front[at]) else 0
  {
    hide Tags.Note;
    var noted := Tags.Note(s, front[at], Tags.BeginsValue, t);
    match Tags.Step(s, front[at], Tags.BeginsValue) {
      case Consume(next) => TagRunWithin(page, front, at + 1, next, noted);
      case Reconsume(next) => TagRunWithin(page, front, at, next, noted);
      case Close =>
    }
  }

  lemma {:induction false} NameEndWithin(page: seq<Byte>, front: seq<Byte>, at: nat)
    requires front <= page && at <= |front| && Tags.NameEnd(front, at) < |front|
    ensures Tags.NameEnd(page, at) == Tags.NameEnd(front, at)
    decreases |front| - at
  {
    if !Tags.EndsName(front[at]) { NameEndWithin(page, front, at + 1); }
  }

  lemma NameEndsBeforeGt(tag: seq<Byte>, at: nat)
    requires at < |tag| && tag[|tag| - 1] == GT
    ensures Tags.NameEnd(tag, at) < |tag|
  {
    var last := |tag| - 1;
    assert Tags.EndsName(tag[last]);
  }

  /** A whole tag reads the same whatever follows it. */
  lemma TagReads(tag: seq<Byte>, after: seq<Byte>, name: seq<Byte>)
    requires IsTagOf(tag, name)
    ensures Tags.TagAt(tag + after, 0) == Tags.TagAt(tag, 0)
    ensures |tag| > 1 && IsAlpha((tag + after)[1]) && (tag + after)[0] == LT
  {
    hide Tags.Run, Tags.NameEnd;
    var page := tag + after;
    TagRunWithin(page, tag, 1, Tags.TagName, Tags.NOTHING);
    NameEndsBeforeGt(tag, 1);
    NameEndWithin(page, tag, 1);
    var end := Tags.NameEnd(tag, 1);
    assert page[1..end] == tag[1..end];
  }

  /** At a tag the scan asks what the tag says, and nothing else. */
  lemma HopAtTag(page: seq<Byte>, xml: bool, name: seq<Byte>, tag: seq<Byte>, after: seq<Byte>)
    requires IsTagOf(tag, name) && page == tag + after
    ensures page != [] && page[0] == LT
    ensures HopAt(page, 0, xml) == TagHop(page, Tags.TagAt(tag, 0).value, xml)
  {
    hide TagHop, IsTagOf;
    TagReads(tag, after, name);
    NoMarkup(page, 0);
  }

  /** Behind the `<` stands neither `!` nor `?`. */
  lemma NoMarkup(page: seq<Byte>, lt: nat)
    requires lt + 1 < |page| && page[lt + 1] != BANG && page[lt + 1] != QUESTION
    ensures !StartsAt(page, lt, E.OPEN_COMMENT) && !StartsAt(page, lt, X.CDATA_OPEN)
    ensures !StartsAt(page, lt, [LT, BANG]) && !StartsAt(page, lt, X.PI_OPEN)
  {
    SecondByte(page, lt, E.OPEN_COMMENT);
    SecondByte(page, lt, X.CDATA_OPEN);
    SecondByte(page, lt, [LT, BANG]);
    SecondByte(page, lt, X.PI_OPEN);
  }

  lemma SecondByte(page: seq<Byte>, lt: nat, needle: seq<Byte>)
    requires |needle| >= 2
    ensures StartsAt(page, lt, needle) ==> page[lt + 1] == needle[1]
  {
    if StartsAt(page, lt, needle) { assert page[lt..lt + |needle|][1] == page[lt + 1]; }
  }

  lemma {:induction false} FindSkips(page: seq<Byte>, p: nat, q: nat)
    requires p <= q <= |page| && forall k :: p <= k < q ==> page[k] != LT
    ensures Find(page, p, [LT]) == Find(page, q, [LT])
    decreases q - p
  {
    if p < q {
      assert !StartsAt(page, p, [LT]) by { assert page[p..p + 1] == [page[p]]; }
      FindSkips(page, p + 1, q);
    }
  }

  lemma ScanSkips(page: seq<Byte>, xml: bool, p: nat, q: nat)
    requires p <= q <= |page| && forall k :: p <= k < q ==> page[k] != LT
    ensures Scan(page, p, xml) == Scan(page, q, xml)
  {
    hide Find, HopAt;
    FindSkips(page, p, q);
  }

  lemma ScanHops(page: seq<Byte>, xml: bool, lt: nat)
    requires lt < |page| && page[lt] == LT
    ensures Scan(page, lt, xml)
            == var hop := HopAt(page, lt, xml);
               if hop.Stop? then [] else if hop.Skip? then Scan(page, hop.resume, xml)
               else [hop.script] + Scan(page, hop.script.end, xml)
  {
    hide HopAt;
    StartsAtBytes(page, lt, [LT]);
    assert Find(page, lt, [LT]) == Some(lt);
  }

  // ----- reading one node -----

  lemma CharsScan(bytes: seq<Byte>, after: seq<Byte>, xml: bool)
    requires LT !in bytes
    ensures Scan(bytes + after, 0, xml) == Scan(bytes + after, |bytes|, xml)
  {
    hide Scan;
    var page := bytes + after;
    forall k | 0 <= k < |bytes| ensures page[k] != LT {
      assert page[k] == bytes[k] && bytes[k] in bytes;
    }
    ScanSkips(page, xml, 0, |bytes|);
  }

  /** At a `<` that opens nothing the scan moves on behind the bytes that follow it. */
  lemma LoneScan(page: seq<Byte>, xml: bool, at: nat, bytes: seq<Byte>)
    requires OpensNothing(bytes) && StartsAt(page, at, [LT] + bytes)
    ensures Scan(page, at, xml) == Scan(page, at + 1 + |bytes|, xml)
  {
    hide Scan, HopAt, StartsAt;
    LoneBytes(page, at, bytes);
    ScanHops(page, xml, at);
    OpensNothingAt(page, xml, at);
    ScanSkips(page, xml, at + 1, at + 1 + |bytes|);
  }

  lemma LoneBytes(page: seq<Byte>, at: nat, bytes: seq<Byte>)
    requires OpensNothing(bytes) && StartsAt(page, at, [LT] + bytes)
    ensures at + 1 + |bytes| <= |page| && page[at] == LT && page[at + 1] == bytes[0]
    ensures forall k :: at + 1 <= k < at + 1 + |bytes| ==> page[k] != LT
  {
    var s := [LT] + bytes;
    var part := page[at..at + |s|];
    assert part == s && part[0] == LT && part[1] == bytes[0];
    forall k | at + 1 <= k < at + 1 + |bytes| ensures page[k] != LT {
      assert page[k] == part[k - at] == s[k - at] == bytes[k - at - 1];
    }
  }

  lemma OpensNothingAt(page: seq<Byte>, xml: bool, lt: nat)
    requires lt + 1 < |page| && !IsAlpha(page[lt + 1]) && page[lt + 1] != BANG && page[lt + 1] != QUESTION
    ensures HopAt(page, lt, xml) == Skip(lt + 1)
  {
    hide StartsAt;
    NoMarkup(page, lt);
  }

  /** Markup that is skipped whole: one hop from its `<` to its end. */
  lemma SkipScan(page: seq<Byte>, xml: bool, end: nat)
    requires page != [] && page[0] == LT && HopAt(page, 0, xml) == Skip(end)
    ensures Scan(page, 0, xml) == Scan(page, end, xml)
  {
    hide Scan, HopAt;
    ScanHops(page, xml, 0);
  }

  lemma StartsItself(s: seq<Byte>, after: seq<Byte>)
    ensures StartsAt(s + after, 0, s)
  {
  }

  /** What stands at the front of `s` stands at the front of a page that begins with it. */
  lemma FrontStands(s: seq<Byte>, after: seq<Byte>, needle: seq<Byte>)
    requires |needle| <= |s|
    ensures StartsAt(s + after, 0, needle) <==> s[..|needle|] == needle
  {
    assert (s + after)[0..|needle|] == s[..|needle|];
  }

  lemma RemarkHop(n: Node, after: seq<Byte>, xml: bool)
    requires n.Remark? && IsNode(n, xml)
    ensures var s := Print(n, xml); s[0] == LT && HopAt(s + after, 0, xml) == Skip(|s|)
  {
    hide CommentEnd, Tags.TagAt, StartsAt, Find;
    var s := Print(n, xml);
    FrontStands(s, after, E.OPEN_COMMENT);
    assert s[..4] == E.OPEN_COMMENT;
    ClosedAtEnd(s, n.content);
    CommentWithin(s, after, xml);
  }

  lemma ClosedAtEnd(s: seq<Byte>, content: seq<Byte>)
    requires s == E.OPEN_COMMENT + content + DASH_DASH_GT
    ensures StartsAt(s, |s| - 3, DASH_DASH_GT)
  {
  }

  /** A comment that closes at its own end closes there whatever follows. */
  lemma CommentWithin(s: seq<Byte>, after: seq<Byte>, xml: bool)
    requires 7 <= |s| && StartsAt(s, |s| - 3, DASH_DASH_GT) && CommentEnd(s, 4, xml) == |s|
    ensures CommentEnd(s + after, 4, xml) == |s|
  {
    hide Find, StartsAt;
    var page := s + after;
    StartsItself(s, after);
    N.StartsInside(page, 0, s, 4, [GT]);
    N.StartsInside(page, 0, s, 4, [DASH, GT]);
    N.FindInside(page, 0, s, 4, DASH_DASH_GT);
    var bang := Find(page, 4, DASH_DASH_BANG_GT);
    if bang.Some? && bang.value + 4 < |s| {
      N.StartsInside(page, 0, s, bang.value, DASH_DASH_BANG_GT);
    }
  }

  lemma SectionHop(n: Node, after: seq<Byte>, xml: bool)
    requires n.Section? && IsNode(n, xml)
    ensures var s := Print(n, xml); s[0] == LT && HopAt(s + after, 0, xml) == Skip(|s|)
  {
    hide CommentEnd, Tags.TagAt, StartsAt, Find;
    var s := Print(n, xml);
    FrontStands(s, after, X.CDATA_OPEN);
    FrontStands(s, after, E.OPEN_COMMENT);
    assert s[..9] == X.CDATA_OPEN && s[2] == X.CDATA_OPEN[2];
    assert s[..4][2] != E.OPEN_COMMENT[2];
    StartsItself(s, after);
    N.FindInside(s + after, 0, s, 9, X.CDATA_CLOSE);
  }

  lemma DeclarationHop(n: Node, after: seq<Byte>, xml: bool)
    requires n.Declaration? && IsNode(n, xml)
    ensures var s := Print(n, xml); s[0] == LT && HopAt(s + after, 0, xml) == Skip(|s|)
  {
    hide CommentEnd, Tags.TagAt, StartsAt, Find;
    var s := Print(n, xml);
    FrontStands(s, after, [LT, BANG]);
    assert s[..2] == [LT, BANG];
    StartsItself(s, after);
    FirstGt(s, 2);
    N.FindInside(s + after, 0, s, 2, [GT]);
    DoesNotGrow(s, after, E.OPEN_COMMENT);
    DoesNotGrow(s, after, X.CDATA_OPEN);
    SecondByte(s + after, 0, X.PI_OPEN);
  }

  lemma FirstGt(s: seq<Byte>, from: nat)
    requires from < |s| && s[|s| - 1] == GT && forall k :: from <= k < |s| - 1 ==> s[k] != GT
    ensures Find(s, from, [GT]) == Some(|s| - 1)
  {
    var last := |s| - 1;
    assert StartsAt(s, last, [GT]) by { assert s[last..last + 1] == [GT]; }
    forall k | from <= k < last ensures !StartsAt(s, k, [GT]) {
      assert s[k..k + 1] == [s[k]];
    }
  }

  /** A needle without a `>` does not begin in `s`, which ends in one, and reach past it. */
  lemma DoesNotGrow(s: seq<Byte>, after: seq<Byte>, needle: seq<Byte>)
    requires s != [] && s[|s| - 1] == GT && GT !in needle
    ensures StartsAt(s + after, 0, needle) <==> StartsAt(s, 0, needle)
  {
    StartsAtBytes(s, 0, needle);
    StartsAtBytes(s + after, 0, needle);
    if |needle| >= |s| {
      var last := |s| - 1;
      assert (s + after)[0 + last] == GT && needle[last] != GT;
    }
  }

  lemma InstructionHop(n: Node, after: seq<Byte>, xml: bool)
    requires n.Instruction? && IsNode(n, xml)
    ensures var s := Print(n, xml); s[0] == LT && HopAt(s + after, 0, xml) == Skip(|s|)
  {
    hide CommentEnd, Tags.TagAt, StartsAt, Find;
    var s := Print(n, xml);
    FrontStands(s, after, X.PI_OPEN);
    assert s[..2] == X.PI_OPEN && s[1] == QUESTION && (s + after)[1] == QUESTION;
    SecondByte(s + after, 0, E.OPEN_COMMENT);
    SecondByte(s + after, 0, X.CDATA_OPEN);
    StartsItself(s, after);
    N.FindInside(s + after, 0, s, 2, if xml then X.PI_CLOSE else [GT]);
  }

  lemma ElementHop(n: Node, after: seq<Byte>, xml: bool)
    requires n.Element? && IsNode(n, xml)
    ensures n.tag != [] && n.tag[0] == LT && HopAt(n.tag + after, 0, xml) == Skip(|n.tag|)
  {
    hide HopAt, Tags.TagAt;
    HopAtTag(n.tag + after, xml, NameOf(n.tag), n.tag, after);
  }

  lemma EndTagWithin(page: seq<Byte>, front: seq<Byte>, k: nat, name: seq<Byte>)
    requires front <= page && k + 2 + |name| < |front|
    ensures E.IsEndTag(page, k, name) == E.IsEndTag(front, k, name)
  {
    assert page[k..k + 2] == front[k..k + 2];
    assert page[k + 2..k + 2 + |name|] == front[k + 2..k + 2 + |name|];
  }

  lemma {:induction false} FirstEndTagWithin(page: seq<Byte>, front: seq<Byte>, at: nat, name: seq<Byte>, end: nat)
    requires front <= page && FirstEndTag(front, at, name) == Some(end) && end + 2 + |name| < |front|
    ensures FirstEndTag(page, at, name) == Some(end)
    decreases |front| - at
  {
    hide E.IsEndTag;
    EndTagWithin(page, front, at, name);
    if at < end { FirstEndTagWithin(page, front, at + 1, name, end); }
  }

  lemma StartsWithin(page: seq<Byte>, front: seq<Byte>, at: nat, needle: seq<Byte>)
    requires front <= page && at + |needle| <= |front|
    ensures StartsAt(page, at, needle) == StartsAt(front, at, needle)
  {
    assert page[at..at + |needle|] == front[at..at + |needle|];
  }

  lemma {:induction false} WalkWithin(page: seq<Byte>, front: seq<Byte>, at: nat, closer: seq<Byte>, end: nat)
    requires front <= page && X.Walk(front, at, closer) == Some(end) && end + 8 < |front| && |closer| <= 9
    ensures X.Walk(page, at, closer) == Some(end)
    decreases |front| - at
  {
    hide StartsAt, E.IsEndTag;
    if closer != [] {
      StartsWithin(page, front, at, closer);
      WalkWithin(page, front, if StartsAt(front, at, closer) then at + |closer| else at + 1,
                 if StartsAt(front, at, closer) then [] else closer, end);
    } else {
      StartsWithin(page, front, at, X.CDATA_OPEN);
      StartsWithin(page, front, at, E.OPEN_COMMENT);
      StartsWithin(page, front, at, X.PI_OPEN);
      EndTagWithin(page, front, at, T.SCRIPT);
      var section := X.SectionAt(front, at);
      if section.Some? {
        WalkWithin(page, front, at + |section.value.0|, section.value.1, end);
      } else if !E.IsEndTag(front, at, T.SCRIPT) {
        WalkWithin(page, front, at + 1, [], end);
      }
    }
  }

  lemma BehindTag(tag: seq<Byte>, inner: seq<Byte>, close: seq<Byte>, after: seq<Byte>)
    ensures var page, rest := tag + (inner + close) + after, inner + close + after;
            Drops(page, |tag|, rest) && page == tag + rest && inner + close <= rest
  {
  }

  lemma CloseStands(tag: seq<Byte>, inner: seq<Byte>, close: seq<Byte>, after: seq<Byte>)
    ensures StartsAt(tag + (inner + close) + after, |tag| + |inner|, close)
  {
    var page := tag + (inner + close) + after;
    assert page[|tag| + |inner|..|tag| + |inner| + |close|] == close;
  }

  /** From a close the scan moves on behind it. */
  lemma CloseScan(tag: seq<Byte>, inner: seq<Byte>, close: seq<Byte>, after: seq<Byte>, xml: bool)
    requires IsClose(close)
    ensures var page := tag + (inner + close) + after;
            Scan(page, |tag| + |inner|, xml) == Scan(page, |tag| + |inner| + |close|, xml)
  {
    hide Scan, StartsAt, OpensNothing;
    CloseStands(tag, inner, close, after);
    assert close == [LT] + close[1..];
    LoneScan(tag + (inner + close) + after, xml, |tag| + |inner|, close[1..]);
  }

  lemma RawTextScan(tag: seq<Byte>, content: seq<Byte>, close: seq<Byte>, after: seq<Byte>)
    requires IsNode(RawText(tag, content, close), false)
    ensures var page := tag + (content + close) + after;
            Scan(page, 0, false) == Scan(page, |tag| + |content| + |close|, false)
  {
    hide Scan, HopAt, IsClose, IsTagOf, NameOf, FirstEndTag, Tags.TagAt;
    RawTextHop(tag, content, close, after);
    SkipScan(tag + (content + close) + after, false, |tag| + |content|);
    CloseScan(tag, content, close, after, false);
  }

  lemma RawTextHop(tag: seq<Byte>, content: seq<Byte>, close: seq<Byte>, after: seq<Byte>)
    requires IsNode(RawText(tag, content, close), false)
    ensures var page := tag + (content + close) + after;
            page != [] && page[0] == LT && HopAt(page, 0, false) == Skip(|tag| + |content|)
  {
    hide HopAt, Tags.TagAt, FirstEndTag, Drops, IsClose;
    var page, rest := tag + (content + close) + after, content + close + after;
    var name := Tags.TagAt(tag, 0).value.name;
    BehindTag(tag, content, close, after);
    HopAtTag(page, false, NameOf(tag), tag, rest);
    FirstEndTagWithin(rest, content + close, 0, name, |content|);
    FirstEndTagDropped(page, |tag|, rest, 0, name);
  }

  lemma ScopeOfItsTag(tag: seq<Byte>, name: seq<Byte>)
    requires IsTagOf(tag, name)
    ensures var t := Tags.TagAt(tag, 0).value; Scope(t.kind, t.language) == ScopeIn(tag)
  {
    hide Scope, Tags.Run, LastValued;
  }

  lemma EmptyScriptHop(n: Node, after: seq<Byte>)
    requires n.EmptyScript? && IsNode(n, true)
    ensures n.tag != [] && n.tag[0] == LT && HopAt(n.tag + after, 0, true) == Body(OwnBody(n, 0)[0])
  {
    hide HopAt, Tags.TagAt, Scope, ScopeIn;
    ScopeOfItsTag(n.tag, T.SCRIPT);
    HopAtTag(n.tag + after, true, T.SCRIPT, n.tag, after);
  }

  /** Where a body ends on its own, it ends whatever is behind its close. */
  lemma BodyEnds(body: seq<Byte>, close: seq<Byte>, after: seq<Byte>, xml: bool)
    requires EndsAt(body, close, xml)
    ensures (if xml then X.Walk(body + close + after, 0, [])
             else E.Answer(body + close + after, 0, T.ScriptData)) == Some(|body|)
  {
    hide T.Run, X.Walk;
    var front := body + close;
    assert (front + after)[..|front|] == front;
    if xml {
      WalkWithin(front + after, front, 0, [], |body|);
    } else {
      E.ThroughPrefix(front + after, |front|, 0, T.ScriptData);
    }
  }

  lemma ScriptHop(tag: seq<Byte>, body: seq<Byte>, close: seq<Byte>, after: seq<Byte>, xml: bool)
    requires IsNode(ScriptElement(tag, body, close), xml)
    ensures var page := tag + (body + close) + after;
            page != [] && page[0] == LT && HopAt(page, 0, xml) == Body(Script(|tag|, |tag| + |body|, ScopeIn(tag)))
  {
    hide HopAt, Tags.TagAt, E.Answer, X.Walk, EndsAt, IsClose, Drops, Scope, ScopeIn;
    ScopeOfItsTag(tag, T.SCRIPT);
    var page, rest := tag + (body + close) + after, body + close + after;
    BehindTag(tag, body, close, after);
    HopAtTag(page, xml, T.SCRIPT, tag, rest);
    BodyEnds(body, close, after, xml);
    AnswerDropped(page, |tag|, rest, 0, T.ScriptData);
    WalkDropped(page, |tag|, rest, 0, []);
  }

  lemma ScriptScan(tag: seq<Byte>, body: seq<Byte>, close: seq<Byte>, after: seq<Byte>, xml: bool)
    requires IsNode(ScriptElement(tag, body, close), xml)
    ensures var page := tag + (body + close) + after;
            Scan(page, 0, xml)
            == [Script(|tag|, |tag| + |body|, ScopeIn(tag))] + Scan(page, |tag| + |body| + |close|, xml)
  {
    hide Scan, HopAt, IsClose, IsTagOf, EndsAt;
    ScriptHop(tag, body, close, after, xml);
    ScanHops(tag + (body + close) + after, xml, 0);
    CloseScan(tag, body, close, after, xml);
  }

  /** A node is read as itself, and the scan goes on behind it. */
  ghost predicate ReadsOn(n: Node, after: seq<Byte>, xml: bool) {
    Scan(Print(n, xml) + after, 0, xml) == OwnBody(n, 0) + Scan(Print(n, xml) + after, |Print(n, xml)|, xml)
  }

  lemma NodeScan(n: Node, after: seq<Byte>, xml: bool)
    requires IsNode(n, xml)
    ensures ReadsOn(n, after, xml)
  {
    hide ReadsOn, IsNode;
    match n {
      case Chars(_) => PlainScan(n, after, xml);
      case Lone(_) => PlainScan(n, after, xml);
      case RawText(_, _, _) => RawTextReads(n, after, xml);
      case EmptyScript(_) => EmptyScriptReads(n, after, xml);
      case ScriptElement(_, _, _) => ScriptReads(n, after, xml);
      case _ => MarkupScan(n, after, xml);
    }
  }

  lemma NoBody(n: Node, after: seq<Byte>, xml: bool)
    requires !n.EmptyScript? && !n.ScriptElement?
    requires Scan(Print(n, xml) + after, 0, xml) == Scan(Print(n, xml) + after, |Print(n, xml)|, xml)
    ensures ReadsOn(n, after, xml)
  {
    hide Scan, Print;
  }

  lemma PlainScan(n: Node, after: seq<Byte>, xml: bool)
    requires IsNode(n, xml) && (n.Chars? || n.Lone?)
    ensures ReadsOn(n, after, xml)
  {
    hide Scan, HopAt, OpensNothing, ReadsOn;
    if n.Chars? {
      CharsScan(n.bytes, after, xml);
    } else {
      StartsItself([LT] + n.bytes, after);
      LoneScan([LT] + n.bytes + after, xml, 0, n.bytes);
    }
    NoBody(n, after, xml);
  }

  lemma RawTextReads(n: Node, after: seq<Byte>, xml: bool)
    requires IsNode(n, xml) && n.RawText?
    ensures ReadsOn(n, after, xml)
  {
    hide Scan, IsNode, ReadsOn, OwnBody;
    IsHtml(n, xml);
    match n {
      case RawText(tag, content, close) =>
        RawTextScan(tag, content, close, after);
        assert |Print(n, xml)| == |tag| + |content| + |close|;
    }
    NoBody(n, after, xml);
  }

  lemma EmptyScriptReads(n: Node, after: seq<Byte>, xml: bool)
    requires IsNode(n, xml) && n.EmptyScript?
    ensures ReadsOn(n, after, xml)
  {
    IsXml(n, xml);
    hide Scan, IsNode, HopAt, ScopeIn;
    EmptyScriptHop(n, after);
    ScanHops(n.tag + after, xml, 0);
  }

  lemma ScriptReads(n: Node, after: seq<Byte>, xml: bool)
    requires IsNode(n, xml) && n.ScriptElement?
    ensures ReadsOn(n, after, xml)
  {
    hide Scan, IsNode, ScopeIn;
    ScriptScan(n.tag, n.body, n.close, after, xml);
  }

  lemma MarkupScan(n: Node, after: seq<Byte>, xml: bool)
    requires IsNode(n, xml) && (n.Remark? || n.Section? || n.Declaration? || n.Instruction? || n.Element?)
    ensures ReadsOn(n, after, xml)
  {
    hide Scan, IsNode, HopAt, Print, ReadsOn;
    MarkupHop(n, after, xml);
    SkipScan(Print(n, xml) + after, xml, |Print(n, xml)|);
    NoBody(n, after, xml);
  }

  lemma MarkupHop(n: Node, after: seq<Byte>, xml: bool)
    requires IsNode(n, xml) && (n.Remark? || n.Section? || n.Declaration? || n.Instruction? || n.Element?)
    ensures var s := Print(n, xml); s != [] && s[0] == LT && HopAt(s + after, 0, xml) == Skip(|s|)
  {
    hide IsNode, HopAt;
    match n {
      case Remark(_) => RemarkHop(n, after, xml);
      case Section(_) => SectionHop(n, after, xml);
      case Declaration(_) => DeclarationHop(n, after, xml);
      case Instruction(_) => InstructionHop(n, after, xml);
      case Element(_) => ElementHop(n, after, xml);
    }
  }

  lemma IsHtml(n: Node, xml: bool)
    requires IsNode(n, xml) && n.RawText?
    ensures !xml
  {
  }

  lemma IsXml(n: Node, xml: bool)
    requires IsNode(n, xml) && n.EmptyScript?
    ensures xml
  {
  }

  // ----- the whole page -----

  lemma {:induction false} BodiesMove(ns: seq<Node>, xml: bool, at: nat, d: nat)
    ensures Bodies(ns, xml, at + d) == Moved(Bodies(ns, xml, at), d)
    decreases |ns|
  {
    hide Print, Moved, OwnBody;
    if ns == [] {
      MovedNothing(d);
    } else {
      var next := at + |Print(ns[0], xml)|;
      BodiesMove(ns[1..], xml, next, d);
      assert at + d + |Print(ns[0], xml)| == next + d;
      OwnBodyMoves(ns[0], at, d);
      MovedJoins(OwnBody(ns[0], at), Bodies(ns[1..], xml, next), d);
    }
  }

  lemma MovedNothing(d: nat)
    ensures Moved([], d) == []
  {
  }

  lemma MovedJoins(x: seq<Script>, y: seq<Script>, d: nat)
    ensures Moved(x + y, d) == Moved(x, d) + Moved(y, d)
  {
  }

  lemma OwnBodyMoves(n: Node, at: nat, d: nat)
    ensures OwnBody(n, at + d) == Moved(OwnBody(n, at), d)
  {
  }

  /** The scan of a page written as nodes finds the bodies of its script elements, and no others. */
  lemma {:induction false} FindsTheScripts(ns: seq<Node>, xml: bool)
    requires AreNodes(ns, xml)
    ensures Scan(PrintAll(ns, xml), 0, xml) == Bodies(ns, xml, 0)
    decreases |ns|
  {
    hide Scan, IsNode, Print, Moved, OwnBody;
    if ns == [] {
      NothingToScan(xml);
    } else {
      var first, after := Print(ns[0], xml), PrintAll(ns[1..], xml);
      NodeScan(ns[0], after, xml);
      BehindFirst(first, after);
      ScanDropped(first + after, |first|, after, xml);
      FindsTheScripts(ns[1..], xml);
      BodiesMove(ns[1..], xml, 0, |first|);
    }
  }

  lemma NothingToScan(xml: bool)
    ensures Scan([], 0, xml) == []
  {
  }

  lemma BehindFirst(first: seq<Byte>, after: seq<Byte>)
    ensures Drops(first + after, |first|, after)
  {
  }

  // ----- one such page -----

  /** `<script>` and `</script>` */
  const SCRIPT_OPEN: seq<Byte> := [LT] + T.SCRIPT + [GT]
  const SCRIPT_CLOSE: seq<Byte> := [LT, SLASH] + T.SCRIPT + [GT]

  /** An element without text, in front of any other nodes: its body is found just behind its tag. */
  lemma ScriptWithoutText(ns: seq<Node>)
    requires AreNodes(ns, false)
    ensures var n := ScriptElement(SCRIPT_OPEN, [], SCRIPT_CLOSE);
            && IsNode(n, false)
            && Scan(PrintAll([n] + ns, false), 0, false) == [Script(8, 8, Some(Classic))] + Bodies(ns, false, 17)
  {
    hide Scan, IsNode, PrintAll, ScopeIn;
    var n := ScriptElement(SCRIPT_OPEN, [], SCRIPT_CLOSE);
    ShortestScript();
    assert ([n] + ns)[1..] == ns;
    FindsTheScripts([n] + ns, false);
  }

  lemma ShortestScript()
    ensures IsNode(ScriptElement(SCRIPT_OPEN, [], SCRIPT_CLOSE), false)
    ensures ScopeIn(SCRIPT_OPEN) == Some(Classic)
  {
    hide IsTagOf, IsClose, EndsAt, ScopeIn;
    OpenIsATag();
    CloseIsAClose();
  }

  lemma CloseIsAClose()
    ensures IsClose(SCRIPT_CLOSE) && EndsAt([], SCRIPT_CLOSE, false)
  {
    hide T.Run;
    CloseEndsTheBody();
    assert [] + SCRIPT_CLOSE == SCRIPT_CLOSE;
  }

  lemma OpenIsATag()
    ensures IsTagOf(SCRIPT_OPEN, T.SCRIPT) && ScopeIn(SCRIPT_OPEN) == Some(Classic)
  {
    var s := SCRIPT_OPEN;
    assert forall k :: 1 <= k < 7 ==> !Tags.EndsName(s[k]);
    Tags.Stays(s, 1, 7, Tags.TagName, Tags.NOTHING);
    assert Tags.Run(s, 7, Tags.TagName, Tags.BeginsValue, Tags.NOTHING) == Tags.Reading(Some(8), []);
    assert Tags.NameEnd(s, 7) == 7;
    assert Tags.NameEnd(s, 5) == 7;
    assert Tags.NameEnd(s, 3) == 7;
    assert Tags.NameEnd(s, 1) == 7;
    assert s[1..7] == T.SCRIPT && LowerAll(T.SCRIPT) == T.SCRIPT;
  }

  lemma CloseEndsTheBody()
    ensures T.Run(SCRIPT_CLOSE, 0, T.ScriptData) == T.Recognised(0)
  {
    CloseNames(0);
    assert T.SCRIPT[..0] == [];
    assert T.Run(SCRIPT_CLOSE, 2, T.EndTagOpen(0)) == T.Recognised(0);
  }

  lemma {:induction false} CloseNames(k: nat)
    requires k <= 6
    ensures T.Run(SCRIPT_CLOSE, 2 + k, T.EndTagName(0, T.SCRIPT[..k])) == T.Recognised(0)
    decreases 6 - k
  {
    if k < 6 {
      CloseNames(k + 1);
      assert SCRIPT_CLOSE[2 + k] == T.SCRIPT[k];
      assert IsAlpha(T.SCRIPT[k]) && Lower(T.SCRIPT[k]) == T.SCRIPT[k];
      assert T.SCRIPT[..k] + [T.SCRIPT[k]] == T.SCRIPT[..k + 1];
    } else {
      assert T.SCRIPT[..k] == T.SCRIPT;
    }
  }
}
