/**
 `script_bodies`: the scan that cuts a page into script bodies, each with its scope. Comments, declarations and raw-text
 elements are passed over whole; every `<script>` start tag that is left opens a body.
 */
module PageScan {
  import opened Bytes
  import opened HtmlTokenizer
  import opened ScriptEnd
  import opened Comments
  import opened Attributes
  import opened Tags
  import opened XmlScript

  /** Where a script element's body starts and ends, and its scope; `None` is a data block. */
  datatype Script = Script(start: nat, end: nat, scope: Option<ScriptScope>)

  const PLAINTEXT: seq<Byte> := [0x70, 0x6C, 0x61, 0x69, 0x6E, 0x74, 0x65, 0x78, 0x74]

  /** iframe, noembed, noframes, noscript, style, textarea, title, xmp */
  const RAW_TEXT_ELEMENTS: seq<seq<Byte>> := [
    [0x69, 0x66, 0x72, 0x61, 0x6D, 0x65],
    [0x6E, 0x6F, 0x65, 0x6D, 0x62, 0x65, 0x64],
    [0x6E, 0x6F, 0x66, 0x72, 0x61, 0x6D, 0x65, 0x73],
    [0x6E, 0x6F, 0x73, 0x63, 0x72, 0x69, 0x70, 0x74],
    [0x73, 0x74, 0x79, 0x6C, 0x65],
    [0x74, 0x65, 0x78, 0x74, 0x61, 0x72, 0x65, 0x61],
    [0x74, 0x69, 0x74, 0x6C, 0x65],
    [0x78, 0x6D, 0x70]
  ]

  /** The first end tag of `name` at or after `from`. */
  function FirstEndTag(page: seq<Byte>, from: nat, name: seq<Byte>): (at: Option<nat>)
    ensures at.Some? ==> from <= at.value < |page|
    decreases |page| - from
  {
    if from >= |page| then None
    else if IsEndTag(page, from, name) then Some(from)
    else FirstEndTag(page, from + 1, name)
  }

  /** Between two offsets without an end tag of `name` the search only moves on. */
  lemma {:induction false} NoEndTagBetween(page: seq<Byte>, p: nat, q: nat, name: seq<Byte>)
    requires p <= q
    requires forall k :: p <= k < q ==> !IsEndTag(page, k, name)
    ensures FirstEndTag(page, p, name) == FirstEndTag(page, q, name)
    decreases q - p
  {
    if p < q { NoEndTagBetween(page, p + 1, q, name); }
  }

  lemma PastThePage(page: seq<Byte>, from: nat, name: seq<Byte>)
    requires from >= |page|
    ensures FirstEndTag(page, from, name) == None
  {
  }

  lemma AtAnEndTag(page: seq<Byte>, at: nat, name: seq<Byte>)
    ensures IsEndTag(page, at, name) ==> FirstEndTag(page, at, name) == Some(at)
  {
  }

  /** No end tag starts at the `/` of another `</`. */
  lemma NotInTheSlash(page: seq<Byte>, at: nat, name: seq<Byte>)
    requires StartsAt(page, at, [LT, SLASH])
    ensures !IsEndTag(page, at + 1, name)
  {
    StartsAtBytes(page, at, [LT, SLASH]);
    assert page[at + 1] == [LT, SLASH][1];
    StartsAtBytes(page, at + 1, [LT, SLASH]);
    assert page[at + 1 + 0] != [LT, SLASH][0];
  }

  /** `end_tag`: the search looks only at `</`. */
  method EndTag(page: seq<Byte>, from: nat, name: seq<Byte>) returns (end: Option<nat>)
    ensures end == FirstEndTag(page, from, name)
  {
    hide FirstEndTag;
    var at := from;
    while true
      invariant from <= at
      invariant FirstEndTag(page, at, name) == FirstEndTag(page, from, name)
      decreases |page| - at
    {
      var found := Find(page, at, [LT, SLASH]);
      if found.None? {
        NoEndTagBetween(page, at, at + |page|, name);
        PastThePage(page, at + |page|, name);
        return None;
      }
      NoEndTagBetween(page, at, found.value, name);
      AtAnEndTag(page, found.value, name);
      if IsEndTag(page, found.value, name) { return found; }
      NotInTheSlash(page, found.value, name);
      NoEndTagBetween(page, found.value, found.value + 2, name);
      at := found.value + 2;
    }
  }

  function OrPageEnd(page: seq<Byte>, end: Option<nat>): nat {
    if end.Some? then end.value else |page|
  }

  /** Where the body that starts at `start` ends. */
  function BodyEnd(page: seq<Byte>, start: nat, selfClosing: bool, xml: bool): nat {
    if xml && selfClosing then start
    else if xml then OrPageEnd(page, Walk(page, start, []))
    else OrPageEnd(page, Answer(page, start, ScriptData))
  }

  /** What the scan does at a `<`: stop for good, pass to a later offset, or report a body. */
  datatype Hop = Stop | Skip(resume: nat) | Body(script: Script)

  function TagHop(page: seq<Byte>, tag: Tag, xml: bool): Hop {
    if tag.end.None? then Stop
    else if LowerAll(tag.name) == SCRIPT then
      Body(Script(tag.end.value, BodyEnd(page, tag.end.value, tag.selfClosing, xml), Scope(tag.kind, tag.language)))
    else if !xml && LowerAll(tag.name) == PLAINTEXT then Stop
    else if !xml && LowerAll(tag.name) in RAW_TEXT_ELEMENTS then
      Skip(OrPageEnd(page, FirstEndTag(page, tag.end.value, tag.name)))
    else Skip(tag.end.value)
  }

  function HopAt(page: seq<Byte>, lt: nat, xml: bool): Hop {
    if StartsAt(page, lt, OPEN_COMMENT) then Skip(CommentEnd(page, lt + 4, xml))
    else if xml && StartsAt(page, lt, CDATA_OPEN) then Skip(Past(page, lt + 9, CDATA_CLOSE))
    else if StartsAt(page, lt, [LT, BANG]) || StartsAt(page, lt, PI_OPEN) then
      Skip(Past(page, lt + 2, if xml && StartsAt(page, lt, PI_OPEN) then PI_CLOSE else [GT]))
    else
      match TagAt(page, lt)
      case Some(tag) => TagHop(page, tag, xml)
      case None => Skip(lt + 1)
  }

  /** Every hop moves on, within the page, and a body lies within it. */
  lemma HopAdvances(page: seq<Byte>, lt: nat, xml: bool)
    requires lt < |page| && page[lt] == LT
    ensures match HopAt(page, lt, xml)
            case Stop => true
            case Skip(resume) => lt < resume <= |page|
            case Body(script) => lt < script.start <= script.end <= |page|
  {
    var tag := TagAt(page, lt);
    if tag.Some? && tag.value.end.Some? {
      AnswerIsEndTag(page, tag.value.end.value, tag.value.end.value, ScriptData);
    }
  }

  function Scan(page: seq<Byte>, at: nat, xml: bool): seq<Script>
    decreases |page| - at
  {
    match Find(page, at, [LT])
    case None => []
    case Some(lt) =>
      assert page[lt..lt + 1][0] == LT;
      HopAdvances(page, lt, xml);
      match HopAt(page, lt, xml)
      case Stop => []
      case Skip(resume) => Scan(page, resume, xml)
      case Body(script) => [script] + Scan(page, script.end, xml)
  }

  method ScriptClose(page: seq<Byte>, end: nat, selfClosing: bool, xml: bool) returns (close: nat)
    requires end <= |page|
    ensures close == BodyEnd(page, end, selfClosing, xml)
  {
    if xml && selfClosing { return end; }
    var found;
    if xml {
      found := XmlScriptEnd(page, end);
    } else {
      found := HtmlScriptEnd(page, end);
    }
    return OrPageEnd(page, found);
  }

  /** The element whose start tag `tag` was read: what it opens, and where the scan goes on. */
  method PassElement(page: seq<Byte>, tag: Tag, xml: bool) returns (hop: Hop)
    requires tag.end.Some? ==> tag.end.value <= |page|
    ensures hop == TagHop(page, tag, xml)
  {
    // No `>` is left for this tag, and so for none behind it.
    if tag.end.None? { return Stop; }
    var end := tag.end.value;
    var name := LowerAll(tag.name);
    if name == SCRIPT {
      var close := ScriptClose(page, end, tag.selfClosing, xml);
      return Body(Script(end, close, Scope(tag.kind, tag.language)));
    }
    if !xml && name == PLAINTEXT { return Stop; }
    if !xml && name in RAW_TEXT_ELEMENTS {
      var close := EndTag(page, end, tag.name);
      return Skip(OrPageEnd(page, close));
    }
    return Skip(end);
  }

  /** The markup at the `<` at `start`: passed over, or the element it opens. */
  method PassMarkup(page: seq<Byte>, start: nat, xml: bool) returns (hop: Hop)
    ensures hop == HopAt(page, start, xml)
  {
    if StartsAt(page, start, OPEN_COMMENT) {
      return Skip(CommentEnd(page, start + 4, xml));
    }
    if xml && StartsAt(page, start, CDATA_OPEN) {
      return Skip(Past(page, start + 9, CDATA_CLOSE));
    }
    if StartsAt(page, start, [LT, BANG]) || StartsAt(page, start, PI_OPEN) {
      return Skip(Past(page, start + 2, if xml && StartsAt(page, start, PI_OPEN) then PI_CLOSE else [GT]));
    }
    var tag := StartTag(page, start);
    if tag.None? { return Skip(start + 1); }
    hop := PassElement(page, tag.value, xml);
  }

  /** What a scan from `at` finds, given its first hop. */
  predicate Continues(page: seq<Byte>, at: nat, xml: bool, hop: Hop) {
    match hop
    case Stop => Scan(page, at, xml) == []
    case Skip(resume) => at < resume <= |page| && Scan(page, at, xml) == Scan(page, resume, xml)
    case Body(script) =>
      at < script.end <= |page| && Scan(page, at, xml) == [script] + Scan(page, script.end, xml)
  }

  /** One turn of the scan. */
  method Turn(page: seq<Byte>, at: nat, xml: bool) returns (hop: Hop)
    ensures Continues(page, at, xml, hop)
  {
    var found := Find(page, at, [LT]);
    if found.None? { return Stop; }
    assert page[found.value..found.value + 1][0] == LT;
    HopAdvances(page, found.value, xml);
    hop := PassMarkup(page, found.value, xml);
  }

  method ScriptBodies(page: seq<Byte>, xml: bool) returns (scripts: seq<Script>)
    ensures scripts == Scan(page, 0, xml)
  {
    hide HopAt, Scan;
    scripts := [];
    var at := 0;
    ghost var ahead := Scan(page, 0, xml);
    while true
      invariant at <= |page|
      invariant ahead == Scan(page, at, xml)
      invariant scripts + ahead == Scan(page, 0, xml)
      decreases |page| - at
    {
      var hop := Turn(page, at, xml);
      match hop {
        case Stop => return;
        case Skip(resume) => at := resume;
        case Body(script) =>
          scripts, at, ahead := scripts + [script], script.end, ahead[1..];
      }
    }
  }

  // ----- the bodies a scan reports -----

  /** `s` is the body of a `<script>` start tag, ended as its page type ends one. */
  predicate IsBody(page: seq<Byte>, lt: nat, s: Script, xml: bool) {
    && lt < |page| && page[lt] == LT
    && var tag := TagAt(page, lt);
    && tag.Some? && tag.value.end == Some(s.start)
    && LowerAll(tag.value.name) == SCRIPT
    && s.end == BodyEnd(page, s.start, tag.value.selfClosing, xml)
    && s.scope == Scope(tag.value.kind, tag.value.language)
  }

  /** Bodies lie in the page from `from` on, each opened by a start tag after the body before it. */
  ghost predicate Laid(page: seq<Byte>, from: nat, scripts: seq<Script>, xml: bool)
    decreases |scripts|
  {
    scripts == []
    || (&& from < scripts[0].start <= scripts[0].end <= |page|
        && (exists lt: nat :: from <= lt < scripts[0].start && IsBody(page, lt, scripts[0], xml))
        && Laid(page, scripts[0].end, scripts[1..], xml))
  }

  lemma LaidEarlier(page: seq<Byte>, from: nat, later: nat, scripts: seq<Script>, xml: bool)
    requires from <= later && Laid(page, later, scripts, xml)
    ensures Laid(page, from, scripts, xml)
  {
  }

  lemma {:induction false} ScanIsLaid(page: seq<Byte>, at: nat, xml: bool)
    ensures Laid(page, at, Scan(page, at, xml), xml)
    decreases |page| - at
  {
    var found := Find(page, at, [LT]);
    if found.Some? {
      var lt := found.value;
      assert page[lt..lt + 1][0] == LT;
      HopAdvances(page, lt, xml);
      match HopAt(page, lt, xml) {
        case Stop =>
        case Skip(resume) =>
          ScanIsLaid(page, resume, xml);
          LaidEarlier(page, at, resume, Scan(page, resume, xml), xml);
        case Body(script) =>
          ScanIsLaid(page, script.end, xml);
          HopBody(page, lt, xml);
          assert Scan(page, at, xml)[1..] == Scan(page, script.end, xml);
      }
    }
  }

  lemma HopBody(page: seq<Byte>, lt: nat, xml: bool)
    requires lt < |page| && page[lt] == LT && HopAt(page, lt, xml).Body?
    ensures IsBody(page, lt, HopAt(page, lt, xml).script, xml)
  {
  }

  /** Two bodies of one page never overlap, and come in page order. */
  lemma {:induction false} BodiesApart(page: seq<Byte>, from: nat, scripts: seq<Script>, xml: bool, i: nat, j: nat)
    requires Laid(page, from, scripts, xml) && i < j < |scripts|
    ensures from < scripts[i].start <= scripts[i].end < scripts[j].start <= scripts[j].end <= |page|
    decreases j
  {
    hide IsBody;
    if i == 0 {
      LaidAt(page, scripts[0].end, scripts[1..], xml, j - 1);
    } else {
      BodiesApart(page, scripts[0].end, scripts[1..], xml, i - 1, j - 1);
    }
  }

  /** Every reported body is a `<script>` element's, and lies in the page. */
  lemma {:induction false} LaidAt(page: seq<Byte>, from: nat, scripts: seq<Script>, xml: bool, i: nat)
    requires Laid(page, from, scripts, xml) && i < |scripts|
    ensures from < scripts[i].start <= scripts[i].end <= |page|
    ensures exists lt: nat :: from <= lt < scripts[i].start && IsBody(page, lt, scripts[i], xml)
    decreases i
  {
    hide IsBody;
    if i > 0 { LaidAt(page, scripts[0].end, scripts[1..], xml, i - 1); }
  }

  /** An XML body ends at once behind an empty-element tag, else at its first end tag outside a section, or the page. */
  lemma XmlBodyEnds(page: seq<Byte>, i: nat) returns (lt: nat)
    requires i < |Scan(page, 0, true)|
    ensures var s := Scan(page, 0, true)[i];
            && lt < s.start && IsBody(page, lt, s, true)
            && s.end == if TagAt(page, lt).value.selfClosing then s.start
                        else match Walk(page, s.start, []) case Some(end) => end case None => |page|
  {
    ScanIsLaid(page, 0, true);
    LaidAt(page, 0, Scan(page, 0, true), true, i);
    lt :| lt < Scan(page, 0, true)[i].start && IsBody(page, lt, Scan(page, 0, true)[i], true);
  }

  /** An HTML body ends at the tokenizer's end tag, at an end tag the page cuts off, or with the page. */
  lemma HtmlBodyEnds(page: seq<Byte>, i: nat)
    requires i < |Scan(page, 0, false)|
    ensures var s := Scan(page, 0, false)[i];
            var o := HtmlTokenizer.Run(page, s.start, ScriptData);
            s.end == if o.Recognised? then o.lt
                     else if CutOff(page, s.start) then |page| - 8
                     else |page|
  {
    ScanIsLaid(page, 0, false);
    LaidAt(page, 0, Scan(page, 0, false), false, i);
    AgainstTheStandard(page, Scan(page, 0, false)[i].start);
  }
}
