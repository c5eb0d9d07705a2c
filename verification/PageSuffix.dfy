/**
 What follows a script body is read as if the page began there: nothing left open in one body, or
 in the markup before it, reaches past its end. Every scanner commutes with dropping a prefix.
 */
module PageSuffix {
  import opened Bytes
  import opened HtmlTokenizer
  import E = ScriptEnd
  import Comments
  import Tags
  import opened XmlScript
  import opened PageScan

  function Plus(d: nat, o: Option<nat>): Option<nat> {
    if o.Some? then Some(d + o.value) else None
  }

  function MovedScript(s: Script, d: nat): Script {
    Script(s.start + d, s.end + d, s.scope)
  }

  function Moved(scripts: seq<Script>, d: nat): (r: seq<Script>)
    ensures |r| == |scripts|
    ensures forall i :: 0 <= i < |scripts| ==> r[i] == MovedScript(scripts[i], d)
  {
    seq(|scripts|, i requires 0 <= i < |scripts| => MovedScript(scripts[i], d))
  }

  /** `rest` is what is left of `page` without its first `d` bytes. */
  ghost predicate Drops(page: seq<Byte>, d: nat, rest: seq<Byte>) {
    && |page| == d + |rest|
    && forall k :: 0 <= k < |rest| ==> rest[k] == page[d + k]
  }

  lemma StartsAtDropped(page: seq<Byte>, d: nat, rest: seq<Byte>, x: nat, needle: seq<Byte>)
    requires Drops(page, d, rest)
    ensures StartsAt(page, d + x, needle) <==> StartsAt(rest, x, needle)
  {
    if x + |needle| <= |rest| {
      assert rest[x..x + |needle|] == page[d + x..d + x + |needle|];
    }
  }

  lemma {:induction false} FindDropped(page: seq<Byte>, d: nat, rest: seq<Byte>, x: nat, needle: seq<Byte>)
    requires Drops(page, d, rest)
    ensures Find(page, d + x, needle) == Plus(d, Find(rest, x, needle))
    decreases |rest| - x
  {
    StartsAtDropped(page, d, rest, x, needle);
    if d + x + |needle| <= |page| && !StartsAt(page, d + x, needle) {
      FindDropped(page, d, rest, x + 1, needle);
    }
  }

  lemma PastDropped(page: seq<Byte>, d: nat, rest: seq<Byte>, x: nat, needle: seq<Byte>)
    requires Drops(page, d, rest)
    ensures Comments.Past(page, d + x, needle) == d + Comments.Past(rest, x, needle)
  {
    hide Find;
    FindDropped(page, d, rest, x, needle);
  }

  lemma CommentDropped(page: seq<Byte>, d: nat, rest: seq<Byte>, x: nat, xml: bool)
    requires Drops(page, d, rest)
    ensures Comments.CommentEnd(page, d + x, xml) == d + Comments.CommentEnd(rest, x, xml)
  {
    hide StartsAt, Comments.Past;
    PastDropped(page, d, rest, x, Comments.DASH_DASH_GT);
    PastDropped(page, d, rest, x, Comments.DASH_DASH_BANG_GT);
    StartsAtDropped(page, d, rest, x, [GT]);
    StartsAtDropped(page, d, rest, x, [DASH, GT]);
  }

  lemma {:induction false} TagRunDropped(page: seq<Byte>, d: nat, rest: seq<Byte>, x: nat, s: Tags.State,
                                         stray: Tags.Stray, t: Tags.Tally)
    requires Drops(page, d, rest)
    ensures var here, there := Tags.Run(page, d + x, s, stray, t), Tags.Run(rest, x, s, stray, t);
            here == Tags.Reading(Plus(d, there.end), there.attributes)
    decreases |rest| - x, if x < |rest| then Tags.Rank(s, rest[x]) else 0
  {
    if x < |rest| {
      hide Tags.Note, Tags.Step;
      var noted := Tags.Note(s, rest[x], stray, t);
      match Tags.Step(s, rest[x], stray) {
        case Consume(next) => TagRunDropped(page, d, rest, x + 1, next, stray, noted);
        case Reconsume(next) => TagRunDropped(page, d, rest, x, next, stray, noted);
        case Close =>
      }
    }
  }

  lemma {:induction false} NameEndDropped(page: seq<Byte>, d: nat, rest: seq<Byte>, x: nat)
    requires Drops(page, d, rest) && x <= |rest|
    ensures Tags.NameEnd(page, d + x) == d + Tags.NameEnd(rest, x)
    decreases |rest| - x
  {
    if d + x < |page| && !Tags.EndsName(rest[x]) { NameEndDropped(page, d, rest, x + 1); }
  }

  lemma TagDropped(page: seq<Byte>, d: nat, rest: seq<Byte>, x: nat)
    requires Drops(page, d, rest)
    ensures var here, there := Tags.TagAt(page, d + x), Tags.TagAt(rest, x);
            && here.Some? == there.Some?
            && (here.Some? ==> here.value == there.value.(end := Plus(d, there.value.end)))
  {
    hide Tags.Run, Tags.NameEnd;
    TagRunDropped(page, d, rest, x + 1, Tags.TagName, Tags.BeginsValue, Tags.NOTHING);
    if x + 1 < |rest| {
      NameEndDropped(page, d, rest, x + 1);
      var e := Tags.NameEnd(rest, x + 1);
      assert rest[x + 1..e] == page[d + x + 1..d + e];
    }
  }

  lemma EndTagDropped(page: seq<Byte>, d: nat, rest: seq<Byte>, x: nat, name: seq<Byte>)
    requires Drops(page, d, rest)
    ensures E.IsEndTag(page, d + x, name) <==> E.IsEndTag(rest, x, name)
  {
    StartsAtDropped(page, d, rest, x, [LT, SLASH]);
    if d + x + 2 + |name| <= |page| {
      assert rest[x + 2..x + 2 + |name|] == page[d + x + 2..d + x + 2 + |name|];
    }
  }

  lemma {:induction false} FirstEndTagDropped(page: seq<Byte>, d: nat, rest: seq<Byte>, x: nat, name: seq<Byte>)
    requires Drops(page, d, rest)
    ensures FirstEndTag(page, d + x, name) == Plus(d, FirstEndTag(rest, x, name))
    decreases |rest| - x
  {
    EndTagDropped(page, d, rest, x, name);
    if d + x < |page| && !E.IsEndTag(page, d + x, name) { FirstEndTagDropped(page, d, rest, x + 1, name); }
  }

  lemma {:induction false} WalkDropped(page: seq<Byte>, d: nat, rest: seq<Byte>, x: nat, closer: seq<Byte>)
    requires Drops(page, d, rest)
    ensures Walk(page, d + x, closer) == Plus(d, Walk(rest, x, closer))
    decreases |rest| - x
  {
    hide StartsAt, E.IsEndTag;
    if x < |rest| {
      StartsAtDropped(page, d, rest, x, closer);
      StartsAtDropped(page, d, rest, x, CDATA_OPEN);
      StartsAtDropped(page, d, rest, x, E.OPEN_COMMENT);
      StartsAtDropped(page, d, rest, x, PI_OPEN);
      EndTagDropped(page, d, rest, x, SCRIPT);
      if closer != [] {
        WalkDropped(page, d, rest, if StartsAt(page, d + x, closer) then x + |closer| else x + 1,
                    if StartsAt(page, d + x, closer) then [] else closer);
      } else {
        var section := SectionAt(page, d + x);
        assert section == SectionAt(rest, x);
        WalkDropped(page, d, rest, if section.Some? then x + |section.value.0| else x + 1,
                    if section.Some? then section.value.1 else []);
      }
    }
  }

  /** A tokenizer state with the offset it carries moved by `d`. */
  function MovedState(s: State, d: nat): State {
    match s
    case LessThanSign(lt) => LessThanSign(lt + d)
    case EndTagOpen(lt) => EndTagOpen(lt + d)
    case EndTagName(lt, buffer) => EndTagName(lt + d, buffer)
    case EscapedLessThanSign(lt) => EscapedLessThanSign(lt + d)
    case EscapedEndTagOpen(lt) => EscapedEndTagOpen(lt + d)
    case EscapedEndTagName(lt, buffer) => EscapedEndTagName(lt + d, buffer)
    case _ => s
  }

  lemma StepMoved(s: State, b: Byte, at: nat, d: nat)
    ensures Step(MovedState(s, d), b, at + d)
            == match Step(s, b, at)
               case Consume(next) => Consume(MovedState(next, d))
               case Reconsume(next) => Reconsume(MovedState(next, d))
               case EndTag(lt) => EndTag(lt + d)
  {
  }

  lemma {:induction false} AnswerDropped(page: seq<Byte>, d: nat, rest: seq<Byte>, x: nat, s: State)
    requires Drops(page, d, rest)
    ensures E.Answer(page, d + x, MovedState(s, d)) == Plus(d, E.Answer(rest, x, s))
    decreases |rest| - x, Rank(s)
  {
    if x < |rest| {
      StepMoved(s, rest[x], x, d);
      match Step(s, rest[x], x) {
        case Consume(next) => AnswerDropped(page, d, rest, x + 1, next);
        case Reconsume(next) => AnswerDropped(page, d, rest, x, next);
        case EndTag(_) =>
      }
    }
  }

  function MovedHop(hop: Hop, d: nat): Hop {
    match hop
    case Stop => Stop
    case Skip(resume) => Skip(resume + d)
    case Body(script) => Body(MovedScript(script, d))
  }

  lemma TagHopDropped(page: seq<Byte>, d: nat, rest: seq<Byte>, x: nat, xml: bool)
    requires Drops(page, d, rest) && Tags.TagAt(page, d + x).Some?
    ensures var there := Tags.TagAt(rest, x);
            there.Some?
            && TagHop(page, Tags.TagAt(page, d + x).value, xml) == MovedHop(TagHop(rest, there.value, xml), d)
  {
    hide Tags.TagAt, FirstEndTag, Walk, E.Answer;
    TagDropped(page, d, rest, x);
    var there := Tags.TagAt(rest, x).value;
    if there.end.Some? {
      FirstEndTagDropped(page, d, rest, there.end.value, there.name);
      WalkDropped(page, d, rest, there.end.value, []);
      AnswerDropped(page, d, rest, there.end.value, ScriptData);
    }
  }

  lemma HopDropped(page: seq<Byte>, d: nat, rest: seq<Byte>, x: nat, xml: bool)
    requires Drops(page, d, rest)
    ensures HopAt(page, d + x, xml) == MovedHop(HopAt(rest, x, xml), d)
  {
    hide StartsAt, Comments.CommentEnd, Comments.Past, Tags.TagAt, TagHop;
    StartsAtDropped(page, d, rest, x, E.OPEN_COMMENT);
    StartsAtDropped(page, d, rest, x, CDATA_OPEN);
    StartsAtDropped(page, d, rest, x, [LT, BANG]);
    StartsAtDropped(page, d, rest, x, PI_OPEN);
    CommentDropped(page, d, rest, x + 4, xml);
    PastDropped(page, d, rest, x + 9, CDATA_CLOSE);
    PastDropped(page, d, rest, x + 2, PI_CLOSE);
    PastDropped(page, d, rest, x + 2, [GT]);
    TagDropped(page, d, rest, x);
    if Tags.TagAt(page, d + x).Some? { TagHopDropped(page, d, rest, x, xml); }
  }

  /** The hop from an offset: to the next `<`, and what the scan does there. */
  function NextHop(page: seq<Byte>, at: nat, xml: bool): Hop {
    match Find(page, at, [LT])
    case None => Stop
    case Some(lt) => HopAt(page, lt, xml)
  }

  function Hops(page: seq<Byte>, xml: bool): nat -> Hop {
    (at: nat) => NextHop(page, at, xml)
  }

  /** The bodies met by following hops that stay within `size`. */
  function Follow(hops: nat -> Hop, size: nat, at: nat): seq<Script>
    decreases size - at
  {
    match hops(at)
    case Stop => []
    case Skip(resume) => if at < resume <= size then Follow(hops, size, resume) else []
    case Body(script) => if at < script.end <= size then [script] + Follow(hops, size, script.end) else []
  }

  lemma {:induction false} ScanIsFollow(page: seq<Byte>, at: nat, xml: bool)
    ensures Scan(page, at, xml) == Follow(Hops(page, xml), |page|, at)
    decreases |page| - at
  {
    var found := Find(page, at, [LT]);
    if found.Some? {
      assert page[found.value..found.value + 1][0] == LT;
      HopAdvances(page, found.value, xml);
      match HopAt(page, found.value, xml) {
        case Stop =>
        case Skip(resume) => ScanIsFollow(page, resume, xml);
        case Body(script) => ScanIsFollow(page, script.end, xml);
      }
    }
  }

  lemma {:induction false} FollowMoved(here: nat -> Hop, there: nat -> Hop, size: nat, d: nat, x: nat)
    requires forall y: nat :: here(d + y) == MovedHop(there(y), d)
    ensures Follow(here, d + size, d + x) == Moved(Follow(there, size, x), d)
    decreases size - x
  {
    hide Moved, Follow;
    FollowsOn(here, d + size, d + x);
    FollowsOn(there, size, x);
    assert here(d + x) == MovedHop(there(x), d);
    NothingMoved(d);
    match there(x) {
      case Stop =>
      case Skip(resume) =>
        if x < resume <= size {
          FollowMoved(here, there, size, d, resume);
          assert d + resume == resume + d;
        }
      case Body(script) =>
        if x < script.end <= size {
          FollowMoved(here, there, size, d, script.end);
          assert d + script.end == script.end + d;
          MovedFirst(script, Follow(there, size, script.end), d);
        }
    }
  }

  /** `Follow`, one hop on. */
  lemma FollowsOn(hops: nat -> Hop, size: nat, at: nat)
    ensures var hop := hops(at);
            Follow(hops, size, at)
            == if hop.Stop? then []
               else if hop.Skip? then (if at < hop.resume <= size then Follow(hops, size, hop.resume) else [])
               else if at < hop.script.end <= size then [hop.script] + Follow(hops, size, hop.script.end)
               else []
  {
  }

  lemma NothingMoved(d: nat)
    ensures Moved([], d) == []
  {
  }

  lemma MovedFirst(script: Script, scripts: seq<Script>, d: nat)
    ensures Moved([script] + scripts, d) == [MovedScript(script, d)] + Moved(scripts, d)
  {
  }

  lemma HopsDropped(page: seq<Byte>, d: nat, rest: seq<Byte>, xml: bool)
    requires Drops(page, d, rest)
    ensures forall y: nat :: Hops(page, xml)(d + y) == MovedHop(Hops(rest, xml)(y), d)
  {
    hide NextHop;
    forall y: nat ensures Hops(page, xml)(d + y) == MovedHop(Hops(rest, xml)(y), d) {
      NextHopDropped(page, d, rest, y, xml);
    }
  }

  /** Scanning on from an offset finds what scanning the rest of the page alone finds. */
  lemma ScanDropped(page: seq<Byte>, d: nat, rest: seq<Byte>, xml: bool)
    requires Drops(page, d, rest)
    ensures Scan(page, d, xml) == Moved(Scan(rest, 0, xml), d)
  {
    hide Scan, NextHop;
    calc {
      Scan(page, d, xml);
      { ScanIsFollow(page, d, xml); }
      Follow(Hops(page, xml), d + |rest|, d + 0);
      { HopsDropped(page, d, rest, xml); FollowMoved(Hops(page, xml), Hops(rest, xml), |rest|, d, 0); }
      Moved(Follow(Hops(rest, xml), |rest|, 0), d);
      { ScanIsFollow(rest, 0, xml); }
      Moved(Scan(rest, 0, xml), d);
    }
  }

  lemma NextHopDropped(page: seq<Byte>, d: nat, rest: seq<Byte>, x: nat, xml: bool)
    requires Drops(page, d, rest)
    ensures NextHop(page, d + x, xml) == MovedHop(NextHop(rest, x, xml), d)
  {
    hide HopAt, Find;
    FindDropped(page, d, rest, x, [LT]);
    var found := Find(rest, x, [LT]);
    if found.Some? { HopDropped(page, d, rest, found.value, xml); }
  }

  lemma {:induction false} AfterBody(hops: nat -> Hop, size: nat, at: nat, i: nat)
    requires i < |Follow(hops, size, at)|
    ensures var scripts := Follow(hops, size, at);
            scripts[i].end <= size && scripts[i + 1..] == Follow(hops, size, scripts[i].end)
    decreases size - at
  {
    match hops(at) {
      case Skip(resume) => AfterBody(hops, size, resume, i);
      case Body(script) => if i > 0 { AfterBody(hops, size, script.end, i - 1); }
    }
  }

  /** The bodies after one are those of the page that starts where that one ends. */
  lemma NothingHidesTheNext(page: seq<Byte>, xml: bool, i: nat)
    requires i < |Scan(page, 0, xml)|
    ensures var scripts := Scan(page, 0, xml);
            && scripts[i].end <= |page|
            && scripts[i + 1..] == Moved(Scan(page[scripts[i].end..], 0, xml), scripts[i].end)
  {
    ScanIsFollow(page, 0, xml);
    AfterBody(Hops(page, xml), |page|, 0, i);
    var end := Scan(page, 0, xml)[i].end;
    ScanIsFollow(page, end, xml);
    ScanDropped(page, end, page[end..], xml);
  }
}
