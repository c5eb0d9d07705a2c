/**
 `script_bodies` on an HTML page against the whole tokenizer: they read a page alike exactly when no
 tag meets a stray `=`, no script is cut off in its end tag, and nothing opens inside an end tag or a
 comment that begins with `</`, which the tokenizer reads through to the `>` and the scan does not.
 */
module StandardPage {
  import opened Bytes
  import opened Attributes
  import opened References
  import Comments
  import E = ScriptEnd
  import T = HtmlTokenizer
  import Tags
  import X = XmlScript
  import PageNodes
  import opened PageScan
  import PageSuffix
  import opened PageTokenizer

  // ----- the tokenizer, from one `<` in the data state to the next -----

  /** Where the tokenizer is done with the `</` at `lt`: behind an end tag, or behind a bogus comment. */
  function EndTagEnd(page: seq<Byte>, lt: nat): (end: nat)
    requires lt + 1 < |page|
    ensures lt < end <= |page|
  {
    if lt + 2 < |page| && IsAlpha(page[lt + 2]) then
      OrPageEnd(page, Tags.Run(page, lt + 2, Tags.TagName, Tags.BeginsName, Tags.NOTHING).end)
    else Comments.Past(page, lt + 2, [GT])
  }

  function ScriptBodyEnd(page: seq<Byte>, start: nat): (end: nat)
    requires start <= |page|
  {
    var o := T.Run(page, start, T.ScriptData);
    if o.Recognised? then o.lt else |page|
  }

  /** The start tag at `lt`, and what its element's content is. */
  function StartTagHop(page: seq<Byte>, lt: nat, named: Named): Hop
    requires lt < |page|
  {
    var r := Tags.Run(page, lt + 1, Tags.TagName, Tags.BeginsName, Tags.NOTHING);
    if r.end.None? then Stop
    else
      var end, name := r.end.value, LowerAll(NameAt(page, lt));
      if name == T.SCRIPT then Body(Script(end, ScriptBodyEnd(page, end), StandardScope(r.attributes, named)))
      else if name == PLAINTEXT then Stop
      else if name in RAW_TEXT_ELEMENTS then Skip(OrPageEnd(page, FirstEndTag(page, end, name)))
      else Skip(end)
  }

  function StandardHop(page: seq<Byte>, lt: nat, named: Named): Hop
    requires lt < |page|
  {
    if lt + 1 >= |page| then Skip(lt + 1)
    else if page[lt + 1] == BANG then
      Skip(if StartsAt(page, lt + 2, DASH_DASH) then Comments.Run(page, lt + 4, Comments.CommentStart)
           else Comments.Past(page, lt + 2, [GT]))
    else if page[lt + 1] == SLASH then Skip(EndTagEnd(page, lt))
    else if IsAlpha(page[lt + 1]) then StartTagHop(page, lt, named)
    else if page[lt + 1] == QUESTION then Skip(Comments.Past(page, lt + 1, [GT]))
    else Skip(lt + 1)
  }

  /** From a `<` the tokenizer runs as its hop says. */
  lemma HopIsRun(page: seq<Byte>, lt: nat, named: Named)
    requires lt < |page| && page[lt] == LT
    ensures var hop := StandardHop(page, lt, named);
            Run(page, lt, Data, named)
            == if hop.Stop? then []
               else if hop.Skip? then Run(page, hop.resume, Data, named)
               else [hop.script] + Run(page, hop.script.end, Data, named)
  {
    assert Run(page, lt, Data, named) == Run(page, lt + 1, TagOpen(lt), named);
    if lt + 1 >= |page| {
    } else if page[lt + 1] == BANG {
      MarkupRun(page, lt, named);
    } else if page[lt + 1] == SLASH {
      EndTagHopRun(page, lt, named);
    } else if IsAlpha(page[lt + 1]) {
      StartTagHopRun(page, lt, named);
    } else if page[lt + 1] == QUESTION {
      BogusRun(page, lt + 1, named);
    }
  }

  lemma MarkupRun(page: seq<Byte>, lt: nat, named: Named)
    requires lt + 1 < |page| && page[lt + 1] == BANG
    ensures var end := if StartsAt(page, lt + 2, DASH_DASH) then Comments.Run(page, lt + 4, Comments.CommentStart)
                       else Comments.Past(page, lt + 2, [GT]);
            Run(page, lt + 1, TagOpen(lt), named) == Run(page, end, Data, named)
  {
    hide Run, Comments.Run, Comments.Past, StartsAt;
    BangRun(page, lt, named);
    if lt + 2 >= |page| {
      AtEndOfPage(page, lt + 2, MarkupDeclarationOpen, named);
      PastTheEnd(page, lt + 2, [GT]);
      PastTheEnd(page, lt + 2, DASH_DASH);
      AtEndOfPage(page, |page|, Data, named);
    } else if StartsAt(page, lt + 2, DASH_DASH) {
      OpenRun(page, lt + 2, named);
      CommentRun(page, lt + 4, Comments.CommentStart, named);
    } else {
      OpenRun(page, lt + 2, named);
      BogusRun(page, lt + 2, named);
    }
  }

  lemma BangRun(page: seq<Byte>, lt: nat, named: Named)
    requires lt + 1 < |page| && page[lt + 1] == BANG
    ensures Run(page, lt + 1, TagOpen(lt), named) == Run(page, lt + 2, MarkupDeclarationOpen, named)
  {
    hide Run;
    OpensInside(page, lt + 1, TagOpen(lt), named);
  }

  lemma OpensInside(page: seq<Byte>, at: nat, s: State, named: Named)
    requires at < |page| && Inside(page, s) && (s.TagOpen? || s.InEndTagOpen? || s.MarkupDeclarationOpen?)
    ensures Run(page, at, s, named) == RunOpen(page, at, s, named)
  {
    hide RunOpen;
  }

  lemma PastTheEnd(page: seq<Byte>, at: nat, needle: seq<Byte>)
    requires at >= |page| && needle != []
    ensures Comments.Past(page, at, needle) == |page| && !StartsAt(page, at, needle)
  {
  }

  lemma OpenRun(page: seq<Byte>, at: nat, named: Named)
    requires at < |page|
    ensures Run(page, at, MarkupDeclarationOpen, named)
            == if StartsAt(page, at, DASH_DASH) then Run(page, at + 2, InComment(Comments.CommentStart), named)
               else Run(page, at, BogusComment, named)
  {
  }

  lemma EndTagHopRun(page: seq<Byte>, lt: nat, named: Named)
    requires lt + 1 < |page| && page[lt + 1] == SLASH
    ensures Run(page, lt + 1, TagOpen(lt), named) == Run(page, EndTagEnd(page, lt), Data, named)
  {
    hide Run, Tags.Run, Comments.Past;
    SlashRun(page, lt, named);
    AtEndOfPage(page, |page|, Data, named);
    if lt + 2 >= |page| {
      AtEndOfPage(page, lt + 2, InEndTagOpen, named);
      PastTheEnd(page, lt + 2, [GT]);
    } else {
      EndTagOpenRun(page, lt + 2, named);
      EndTagRun(page, lt + 2, Tags.TagName, Tags.NOTHING, named);
      BogusRun(page, lt + 2, named);
      if page[lt + 2] == GT { PastHere(page, lt + 2); }
    }
  }

  lemma SlashRun(page: seq<Byte>, lt: nat, named: Named)
    requires lt + 1 < |page| && page[lt + 1] == SLASH
    ensures Run(page, lt + 1, TagOpen(lt), named) == Run(page, lt + 2, InEndTagOpen, named)
  {
    hide Run;
    OpensInside(page, lt + 1, TagOpen(lt), named);
  }

  lemma EndTagOpenRun(page: seq<Byte>, at: nat, named: Named)
    requires at < |page|
    ensures Run(page, at, InEndTagOpen, named)
            == if IsAlpha(page[at]) then Run(page, at, InEndTag(Tags.TagName), named)
               else if page[at] == GT then Run(page, at + 1, Data, named)
               else Run(page, at, BogusComment, named)
  {
    hide Run;
    OpensInside(page, at, InEndTagOpen, named);
  }

  lemma PastHere(page: seq<Byte>, at: nat)
    requires at < |page| && page[at] == GT
    ensures Comments.Past(page, at, [GT]) == at + 1
  {
    assert page[at..at + 1] == [GT];
  }

  lemma StartTagHopRun(page: seq<Byte>, lt: nat, named: Named)
    requires lt + 1 < |page| && IsAlpha(page[lt + 1])
    ensures var hop := StartTagHop(page, lt, named);
            Run(page, lt + 1, TagOpen(lt), named)
            == if hop.Stop? then []
               else if hop.Skip? then Run(page, hop.resume, Data, named)
               else [hop.script] + Run(page, hop.script.end, Data, named)
  {
    hide Tags.Run, T.Run, FirstEndTag, StandardScope;
    assert Run(page, lt + 1, TagOpen(lt), named)
        == Run(page, lt + 1, InStartTag(lt, Tags.TagName, Tags.NOTHING), named);
    StartTagRun(page, lt + 1, lt, Tags.TagName, Tags.NOTHING, named);
    var r := Tags.Run(page, lt + 1, Tags.TagName, Tags.BeginsName, Tags.NOTHING);
    if r.end.Some? {
      var name := LowerAll(NameAt(page, lt));
      AtEndOfPage(page, |page|, Data, named);
      RawNames();
      if name == T.SCRIPT {
        ScriptRun(page, r.end.value, r.end.value, r.end.value, StandardScope(r.attributes, named), T.ScriptData, named);
      } else if name in RAW_TEXT_ELEMENTS {
        RawRun(page, r.end.value, name, named);
      }
    }
  }

  // ----- hop against hop -----

  predicate OpensMarkup(page: seq<Byte>, lt: nat) {
    lt + 1 < |page| && page[lt] == LT && (page[lt + 1] == BANG || page[lt + 1] == QUESTION)
  }

  predicate OpensTag(page: seq<Byte>, lt: nat) {
    lt + 1 < |page| && page[lt] == LT && IsAlpha(page[lt + 1])
  }

  predicate OpensEndTag(page: seq<Byte>, lt: nat) {
    lt + 1 < |page| && page[lt] == LT && page[lt + 1] == SLASH
  }

  lemma MarkupHops(page: seq<Byte>, lt: nat, named: Named)
    requires OpensMarkup(page, lt)
    ensures HopAt(page, lt, false) == StandardHop(page, lt, named)
    ensures HopAt(page, lt, false).Skip?
  {
    MarkupStarts(page, lt);
    hide StartsAt, Find, Comments.CommentEnd, Comments.Past, Comments.Run;
    if StartsAt(page, lt, E.OPEN_COMMENT) {
      Comments.CommentEndIsTokenizers(page, lt + 4);
    } else if page[lt + 1] == QUESTION {
      PastQuestion(page, lt + 1);
    }
  }

  lemma MarkupStarts(page: seq<Byte>, lt: nat)
    requires OpensMarkup(page, lt)
    ensures StartsAt(page, lt, E.OPEN_COMMENT) <==> page[lt + 1] == BANG && StartsAt(page, lt + 2, DASH_DASH)
    ensures StartsAt(page, lt, E.OPEN_COMMENT) ==> lt + 4 <= |page|
    ensures StartsAt(page, lt, [LT, BANG]) <==> page[lt + 1] == BANG
    ensures StartsAt(page, lt, X.PI_OPEN) <==> page[lt + 1] == QUESTION
  {
    assert page[lt..lt + 2] == [page[lt], page[lt + 1]];
    if lt + 4 <= |page| {
      assert page[lt..lt + 4] == [page[lt], page[lt + 1], page[lt + 2], page[lt + 3]];
      assert page[lt + 2..lt + 4] == [page[lt + 2], page[lt + 3]];
    }
  }

  lemma PastQuestion(page: seq<Byte>, at: nat)
    requires at < |page| && page[at] != GT
    ensures Comments.Past(page, at, [GT]) == Comments.Past(page, at + 1, [GT])
  {
    assert page[at..at + 1] == [page[at]];
  }

  /** Where nothing opens the scan passes the `<` alone. */
  lemma NothingHops(page: seq<Byte>, lt: nat)
    requires lt < |page| && page[lt] == LT && !OpensMarkup(page, lt) && !OpensTag(page, lt)
    ensures HopAt(page, lt, false) == Skip(lt + 1)
  {
    NoMarkupStarts(page, lt);
    hide StartsAt;
    Tags.NoTagOpens(page, lt);
  }

  lemma NoMarkupStarts(page: seq<Byte>, lt: nat)
    requires !(lt + 1 < |page| && (page[lt + 1] == BANG || page[lt + 1] == QUESTION))
    ensures !StartsAt(page, lt, E.OPEN_COMMENT) && !StartsAt(page, lt, [LT, BANG]) && !StartsAt(page, lt, X.PI_OPEN)
  {
    StartsAtBytes(page, lt, E.OPEN_COMMENT);
    StartsAtBytes(page, lt, [LT, BANG]);
    StartsAtBytes(page, lt, X.PI_OPEN);
    assert E.OPEN_COMMENT[1] == BANG && [LT, BANG][1] == BANG && X.PI_OPEN[1] == QUESTION;
  }

  lemma {:induction false} FirstEndTagLower(page: seq<Byte>, from: nat, name: seq<Byte>)
    ensures FirstEndTag(page, from, LowerAll(name)) == FirstEndTag(page, from, name)
    decreases |page| - from
  {
    assert LowerAll(LowerAll(name)) == LowerAll(name);
    if from < |page| { FirstEndTagLower(page, from + 1, name); }
  }

  /** A hop without the scope of the body it finds. */
  function Bare(hop: Hop): Hop {
    if hop.Body? then Body(Script(hop.script.start, hop.script.end, None)) else hop
  }

  /** A start tag that meets no stray `=` is left alike, but for a script cut off in its end tag. */
  lemma StartTagHops(page: seq<Byte>, lt: nat, named: Named)
    requires OpensTag(page, lt) && !Tags.MeetsStray(page, lt + 1, Tags.TagName)
    ensures var here, there := HopAt(page, lt, false), StandardHop(page, lt, named);
            && here.Body? == there.Body?
            && (!here.Body? ==> here == there)
            && (here.Body? ==> here.script.start == there.script.start
                               && (Bare(here) == Bare(there) <==> !E.CutOff(page, here.script.start)))
  {
    NoMarkupStarts(page, lt);
    Tags.AgreesWithoutStray(page, lt + 1, Tags.TagName, Tags.NOTHING);
    hide StartsAt, Tags.Run, T.Run, E.Answer, FirstEndTag, StandardScope, Scope, E.CutOff;
    var tag := Tags.TagAt(page, lt).value;
    if tag.end.Some? {
      E.AgainstTheStandard(page, tag.end.value);
      FirstEndTagLower(page, tag.end.value, tag.name);
      CutOffIsBefore(page, tag.end.value);
    }
  }

  lemma CutOffIsBefore(page: seq<Byte>, from: nat)
    ensures E.CutOff(page, from) ==> 8 <= |page|
  {
  }

  lemma RunStaysInside(page: seq<Byte>, start: nat)
    requires start <= |page|
    ensures start <= ScriptBodyEnd(page, start) <= |page|
  {
    hide T.Run;
    E.AgainstTheStandard(page, start);
    E.AnswerIsEndTag(page, start, start, T.ScriptData);
  }

  lemma StandardHopAdvances(page: seq<Byte>, lt: nat, named: Named)
    requires lt < |page| && page[lt] == LT
    ensures var hop := StandardHop(page, lt, named);
            && (hop.Skip? ==> lt < hop.resume <= |page|)
            && (hop.Body? ==> lt < hop.script.start <= hop.script.end <= |page|)
  {
    hide Tags.Run, T.Run, FirstEndTag, StandardScope, Find;
    if OpensMarkup(page, lt) && StartsAt(page, lt + 2, DASH_DASH) {
      Comments.RunEnds(page, lt + 4, lt + 4, Comments.CommentStart);
    } else if OpensTag(page, lt) {
      var r := Tags.Run(page, lt + 1, Tags.TagName, Tags.BeginsName, Tags.NOTHING);
      if r.end.Some? { RunStaysInside(page, r.end.value); }
    }
  }

  // ----- what each reads, markup by markup -----

  /** Something starts at `lt`: a tag, a comment, a declaration or an instruction. */
  predicate Opens(page: seq<Byte>, lt: nat) {
    OpensMarkup(page, lt) || OpensTag(page, lt)
  }

  /** What was met at `lt`, how it was left, and through which states a tag was read. */
  datatype Event = Event(lt: nat, hop: Hop, states: seq<Tags.State>)

  function HopBy(page: seq<Byte>, lt: nat, standard: bool, named: Named): (hop: Hop)
    requires lt < |page| && page[lt] == LT
    ensures hop.Skip? ==> lt < hop.resume <= |page|
    ensures hop.Body? ==> lt < hop.script.start <= hop.script.end <= |page|
  {
    StandardHopAdvances(page, lt, named);
    HopAdvances(page, lt, false);
    if standard then StandardHop(page, lt, named) else HopAt(page, lt, false)
  }

  function EventAt(page: seq<Byte>, lt: nat, standard: bool, named: Named): (here: seq<Event>)
    requires lt < |page| && page[lt] == LT
    ensures |here| == if Opens(page, lt) then 1 else 0
    ensures Opens(page, lt) ==> here[0].lt == lt
  {
    var hop := HopBy(page, lt, standard, named);
    if OpensMarkup(page, lt) then [Event(lt, hop, [])]
    else if OpensTag(page, lt) then
      var stray := if standard then Tags.BeginsName else Tags.BeginsValue;
      [Event(lt, Bare(hop), Tags.States(page, lt + 1, Tags.TagName, stray))]
    else []
  }

  /** The next `<` from `at`. */
  function NextLess(page: seq<Byte>, at: nat): (lt: Option<nat>)
    ensures lt.Some? ==> at <= lt.value < |page| && page[lt.value] == LT
    ensures lt.Some? ==> forall k :: at <= k < lt.value ==> page[k] != LT
    ensures lt.None? ==> forall k :: at <= k < |page| ==> page[k] != LT
    decreases |page| - at
  {
    if at >= |page| then None else if page[at] == LT then Some(at) else NextLess(page, at + 1)
  }

  /** Everything the scan, or the tokenizer, meets from `at` on. */
  function Trace(page: seq<Byte>, at: nat, standard: bool, named: Named): seq<Event>
    decreases |page| - at
  {
    match NextLess(page, at)
    case None => []
    case Some(lt) =>
      EventAt(page, lt, standard, named)
      + match HopBy(page, lt, standard, named)
        case Stop => []
        case Skip(resume) => Trace(page, resume, standard, named)
        case Body(script) => Trace(page, script.end, standard, named)
  }

  /** What follows a hop. */
  function Rest(page: seq<Byte>, hop: Hop, standard: bool, named: Named): seq<Event> {
    match hop
    case Stop => []
    case Skip(resume) => Trace(page, resume, standard, named)
    case Body(script) => Trace(page, script.end, standard, named)
  }

  lemma TraceOnce(page: seq<Byte>, at: nat, standard: bool, named: Named)
    ensures var lt := NextLess(page, at);
            Trace(page, at, standard, named)
            == if lt.None? then []
               else EventAt(page, lt.value, standard, named)
                    + Rest(page, HopBy(page, lt.value, standard, named), standard, named)
  {
    hide EventAt, NextLess;
  }

  predicate NothingOpens(page: seq<Byte>, p: nat, q: nat) {
    forall k :: p <= k < q ==> !Opens(page, k)
  }

  /**
   From `at` on the tokenizer meets no stray `=` in a start tag, no script that ends in a cut-off end
   tag, and nothing that would open inside an end tag, or a bogus comment that begins with `</`.
   */
  predicate Clean(page: seq<Byte>, at: nat, named: Named)
    decreases |page| - at
  {
    match NextLess(page, at)
    case None => true
    case Some(lt) =>
      var hop := HopBy(page, lt, true, named);
      && (OpensTag(page, lt) ==> !Tags.MeetsStray(page, lt + 1, Tags.TagName))
      && (hop.Body? ==> !E.CutOff(page, hop.script.start))
      && (OpensEndTag(page, lt) ==> NothingOpens(page, lt + 1, EndTagEnd(page, lt)))
      && match hop
         case Stop => true
         case Skip(resume) => Clean(page, resume, named)
         case Body(script) => Clean(page, script.end, named)
  }

  lemma {:induction false} NextLessSkips(page: seq<Byte>, p: nat, q: nat)
    requires p <= q && forall k :: p <= k < q && k < |page| ==> page[k] != LT
    ensures NextLess(page, p) == NextLess(page, q)
    decreases q - p
  {
    if p < q { NextLessSkips(page, p + 1, q); }
  }

  /** The scan passes over a stretch in which nothing opens. */
  lemma {:induction false} TraceSkips(page: seq<Byte>, p: nat, q: nat, named: Named)
    requires p <= q && NothingOpens(page, p, q)
    ensures Trace(page, p, false, named) == Trace(page, q, false, named)
    decreases q - p
  {
    hide Trace, HopBy, EventAt, NextLess, Opens;
    TraceOnce(page, p, false, named);
    TraceOnce(page, q, false, named);
    var lt := NextLess(page, p);
    if lt.Some? && lt.value < q {
      NothingMet(page, lt.value, named);
      TraceSkips(page, lt.value + 1, q, named);
    } else {
      NextLessSkips(page, p, q);
    }
  }

  lemma NothingMet(page: seq<Byte>, lt: nat, named: Named)
    requires lt < |page| && page[lt] == LT && !Opens(page, lt)
    ensures HopBy(page, lt, false, named) == Skip(lt + 1)
    ensures EventAt(page, lt, false, named) == [] && EventAt(page, lt, true, named) == []
  {
    NothingHops(page, lt);
  }

  /** A trace begins at or behind its start, and the scan's no later than the first thing that opens. */
  lemma {:induction false} TraceBegins(page: seq<Byte>, at: nat, standard: bool, named: Named)
    ensures var t := Trace(page, at, standard, named); t != [] ==> at <= t[0].lt
    decreases |page| - at
  {
    hide EventAt, NextLess, Opens;
    var lt := NextLess(page, at);
    if lt.Some? {
      match HopBy(page, lt.value, standard, named) {
        case Stop =>
        case Skip(resume) => TraceBegins(page, resume, standard, named);
        case Body(script) => TraceBegins(page, script.end, standard, named);
      }
    }
  }

  lemma {:induction false} TraceMeets(page: seq<Byte>, p: nat, k: nat, named: Named)
    requires p <= k && Opens(page, k)
    ensures var t := Trace(page, p, false, named); t != [] && t[0].lt <= k
    decreases k - p
  {
    hide HopBy, EventAt, NextLess, Opens;
    OpensAtLess(page, k);
    var lt := NextLess(page, p).value;
    if !Opens(page, lt) {
      NothingMet(page, lt, named);
      TraceMeets(page, lt + 1, k, named);
    }
  }

  lemma OpensAtLess(page: seq<Byte>, k: nat)
    requires Opens(page, k)
    ensures k < |page| && page[k] == LT
  {
  }

  // ----- the scan against the tokenizer -----

  /** At one `<` that opens something: both meet it alike, and go on from one place, or their events differ. */
  lemma MeetsAlike(page: seq<Byte>, lt: nat, named: Named)
    requires lt < |page| && page[lt] == LT && Opens(page, lt)
    ensures var here, there := HopBy(page, lt, false, named), HopBy(page, lt, true, named);
            var alike := && (OpensTag(page, lt) ==> !Tags.MeetsStray(page, lt + 1, Tags.TagName))
                         && (there.Body? ==> !E.CutOff(page, there.script.start));
            && (EventAt(page, lt, false, named) == EventAt(page, lt, true, named) <==> alike)
            && (alike ==> Bare(here) == Bare(there))
  {
    if OpensMarkup(page, lt) {
      MarkupHops(page, lt, named);
    } else {
      Tags.SameStatesUnlessStray(page, lt + 1, Tags.TagName);
      hide Tags.MeetsStray, Tags.States, E.CutOff, StandardHop;
      if !Tags.MeetsStray(page, lt + 1, Tags.TagName) { StartTagHops(page, lt, named); }
    }
  }

  lemma SameRest<T>(here: seq<T>, there: seq<T>, x: seq<T>, y: seq<T>)
    requires |here| == |there|
    ensures here + x == there + y <==> here == there && x == y
  {
    if here + x == there + y {
      assert here == (here + x)[..|here|] && there == (there + y)[..|there|];
      assert x == (here + x)[|here|..] && y == (there + y)[|there|..];
    }
  }

  function CleanRest(page: seq<Byte>, hop: Hop, named: Named): bool {
    match hop
    case Stop => true
    case Skip(resume) => Clean(page, resume, named)
    case Body(script) => Clean(page, script.end, named)
  }

  lemma CleanOnce(page: seq<Byte>, at: nat, named: Named)
    ensures var lt := NextLess(page, at);
            Clean(page, at, named)
            <==> lt.None? || (var hop := HopBy(page, lt.value, true, named);
                              && (OpensTag(page, lt.value) ==> !Tags.MeetsStray(page, lt.value + 1, Tags.TagName))
                              && (hop.Body? ==> !E.CutOff(page, hop.script.start))
                              && (OpensEndTag(page, lt.value)
                                  ==> NothingOpens(page, lt.value + 1, EndTagEnd(page, lt.value)))
                              && CleanRest(page, hop, named))
  {
    hide NextLess, Tags.MeetsStray, E.CutOff, OpensTag, OpensEndTag, NothingOpens;
  }

  /** A `<` at which nothing opens: an end tag's, or one in text. */
  lemma PassesAlike(page: seq<Byte>, lt: nat, named: Named)
    requires lt < |page| && page[lt] == LT && !Opens(page, lt)
    ensures HopBy(page, lt, false, named) == Skip(lt + 1)
    ensures HopBy(page, lt, true, named) == Skip(if OpensEndTag(page, lt) then EndTagEnd(page, lt) else lt + 1)
    ensures EventAt(page, lt, false, named) == [] && EventAt(page, lt, true, named) == []
  {
    NothingMet(page, lt, named);
  }

  /**
   The scan reads a page as the tokenizer does, each tag, comment and declaration at its place, through
   the same states and left at the same offset, and each script body from its start to its end, if
   and only if the page is clean.
   */
  lemma {:induction false} ReadsAlike(page: seq<Byte>, at: nat, named: Named)
    ensures Trace(page, at, false, named) == Trace(page, at, true, named) <==> Clean(page, at, named)
    decreases |page| - at
  {
    hide Trace, Clean, HopBy, EventAt, NextLess, Opens, OpensTag, OpensEndTag, EndTagEnd, Tags.MeetsStray, E.CutOff;
    TraceOnce(page, at, false, named);
    TraceOnce(page, at, true, named);
    CleanOnce(page, at, named);
    var next := NextLess(page, at);
    if next.Some? {
      var lt := next.value;
      var here, there := HopBy(page, lt, false, named), HopBy(page, lt, true, named);
      SameRest(EventAt(page, lt, false, named), EventAt(page, lt, true, named),
               Rest(page, here, false, named), Rest(page, there, true, named));
      if Opens(page, lt) {
        MeetsAlike(page, lt, named);
        OpensNoEndTag(page, lt);
        match there {
          case Stop =>
          case Skip(resume) => ReadsAlike(page, resume, named);
          case Body(script) => ReadsAlike(page, script.end, named);
        }
      } else {
        PassesAlike(page, lt, named);
        ReadsAlike(page, there.resume, named);
        NoTag(page, lt);
        if NothingOpens(page, lt + 1, there.resume) {
          TraceSkips(page, lt + 1, there.resume, named);
        } else {
          var k :| lt + 1 <= k < there.resume && Opens(page, k);
          TraceMeets(page, lt + 1, k, named);
          TraceBegins(page, there.resume, true, named);
        }
      }
    }
  }

  lemma OpensNoEndTag(page: seq<Byte>, lt: nat)
    requires Opens(page, lt)
    ensures !OpensEndTag(page, lt)
  {
  }

  lemma NoTag(page: seq<Byte>, lt: nat)
    requires !Opens(page, lt)
    ensures !OpensTag(page, lt) && !(OpensEndTag(page, lt) && OpensTag(page, lt))
  {
  }

  // ----- the scripts found -----

  /** Every script tag the tokenizer meets is unambiguous about its scope, without a reference in it. */
  predicate Clear(page: seq<Byte>, at: nat, named: Named)
    decreases |page| - at
  {
    match NextLess(page, at)
    case None => true
    case Some(lt) =>
      match HopBy(page, lt, true, named)
      case Stop => true
      case Skip(resume) => Clear(page, resume, named)
      case Body(script) =>
        var attributes := Tags.Run(page, lt + 1, Tags.TagName, Tags.BeginsName, Tags.NOTHING).attributes;
        Unambiguous(attributes) && Plain(attributes) && Clear(page, script.end, named)
  }

  function BareAll(scripts: seq<Script>): (bare: seq<Script>)
    ensures |bare| == |scripts|
    ensures forall i :: 0 <= i < |scripts| ==> bare[i] == Script(scripts[i].start, scripts[i].end, None)
  {
    seq(|scripts|, i requires 0 <= i < |scripts| => Script(scripts[i].start, scripts[i].end, None))
  }

  lemma NextLessIsFound(page: seq<Byte>, at: nat)
    ensures NextLess(page, at) == Find(page, at, [LT])
  {
    hide Find;
    var lt := NextLess(page, at);
    forall k | at <= k < |page| ensures StartsAt(page, k, [LT]) <==> page[k] == LT {
      assert page[k..k + 1] == [page[k]];
    }
  }

  lemma ScanOnce(page: seq<Byte>, at: nat, named: Named)
    ensures var lt := NextLess(page, at);
            Scan(page, at, false)
            == if lt.None? then []
               else
                 var hop := HopBy(page, lt.value, false, named);
                 if hop.Stop? then [] else if hop.Skip? then Scan(page, hop.resume, false)
                 else [hop.script] + Scan(page, hop.script.end, false)
  {
    hide HopAt, StandardHop, NextLess, Find;
    NextLessIsFound(page, at);
  }

  lemma RunOnce(page: seq<Byte>, at: nat, named: Named)
    ensures var lt := NextLess(page, at);
            Run(page, at, Data, named)
            == if lt.None? then []
               else
                 var hop := HopBy(page, lt.value, true, named);
                 if hop.Stop? then [] else if hop.Skip? then Run(page, hop.resume, Data, named)
                 else [hop.script] + Run(page, hop.script.end, Data, named)
  {
    hide HopAt, StandardHop, NextLess, Run;
    var lt := NextLess(page, at);
    if lt.Some? {
      DataRun(page, at, lt.value, named);
      HopIsRun(page, lt.value, named);
    } else if at <= |page| {
      DataRun(page, at, |page|, named);
      AtEndOfPage(page, |page|, Data, named);
    } else {
      AtEndOfPage(page, at, Data, named);
    }
  }

  lemma {:induction false} ScanSkips(page: seq<Byte>, p: nat, q: nat, named: Named)
    requires p <= q && NothingOpens(page, p, q)
    ensures Scan(page, p, false) == Scan(page, q, false)
    decreases q - p
  {
    hide Scan, HopBy, NextLess, Opens;
    ScanOnce(page, p, named);
    ScanOnce(page, q, named);
    var lt := NextLess(page, p);
    if lt.Some? && lt.value < q {
      NothingMet(page, lt.value, named);
      ScanSkips(page, lt.value + 1, q, named);
    } else {
      NextLessSkips(page, p, q);
    }
  }

  /** A script tag that is unambiguous, without a reference, has the scope the standard gives it. */
  lemma ScopesAlike(page: seq<Byte>, lt: nat, named: Named)
    requires lt < |page| && page[lt] == LT && OpensTag(page, lt)
    requires !Tags.MeetsStray(page, lt + 1, Tags.TagName)
    requires HopBy(page, lt, false, named).Body? && HopBy(page, lt, true, named).Body?
    ensures var attributes := Tags.Run(page, lt + 1, Tags.TagName, Tags.BeginsName, Tags.NOTHING).attributes;
            Unambiguous(attributes) && Plain(attributes) ==>
              HopBy(page, lt, false, named).script.scope == HopBy(page, lt, true, named).script.scope
  {
    NoMarkupStarts(page, lt);
    hide StartsAt, Tags.Run, T.Run, E.Answer, FirstEndTag, StandardScope, Scope, Unambiguous, Plain, Tags.MeetsStray;
    Tags.ScopeOfTag(page, lt, named);
  }

  /**
   On a clean page the scan finds the scripts the tokenizer finds, from start to end, with the scopes
   the standard gives them where their tags are clear about it.
   */
  lemma {:induction false} FindsAlike(page: seq<Byte>, at: nat, named: Named)
    requires Clean(page, at, named)
    ensures BareAll(Scan(page, at, false)) == BareAll(Run(page, at, Data, named))
    ensures Clear(page, at, named) ==> Scan(page, at, false) == Run(page, at, Data, named)
    decreases |page| - at
  {
    hide Scan, Run, HopBy, EventAt, NextLess, Opens, OpensTag, OpensEndTag, EndTagEnd, Tags.MeetsStray, E.CutOff,
      Clean, Unambiguous, Plain, BareAll;
    ScanOnce(page, at, named);
    RunOnce(page, at, named);
    CleanOnce(page, at, named);
    var next := NextLess(page, at);
    if next.Some? {
      var lt := next.value;
      var there := HopBy(page, lt, true, named);
      if Opens(page, lt) {
        MeetsAlike(page, lt, named);
        match there {
          case Stop =>
          case Skip(resume) => FindsAlike(page, resume, named);
          case Body(script) =>
            FindsAlike(page, script.end, named);
            BodyIsTag(page, lt, named);
            ScopesAlike(page, lt, named);
            BareFirst(HopBy(page, lt, false, named).script, Scan(page, script.end, false));
            BareFirst(script, Run(page, script.end, Data, named));
        }
      } else {
        PassesAlike(page, lt, named);
        ScanSkips(page, lt + 1, there.resume, named);
        FindsAlike(page, there.resume, named);
      }
    }
  }

  lemma BareFirst(script: Script, scripts: seq<Script>)
    ensures BareAll([script] + scripts) == [Script(script.start, script.end, None)] + BareAll(scripts)
  {
  }

  lemma BodyIsTag(page: seq<Byte>, lt: nat, named: Named)
    requires lt < |page| && page[lt] == LT && HopBy(page, lt, true, named).Body?
    ensures OpensTag(page, lt)
  {
  }

  // ----- a page that is not clean -----

  /** `</script type="<script>">` */
  const END_TAG_PAGE: seq<Byte> :=
    [LT, SLASH] + Tags.TYPED_OPEN[1..] + PageNodes.SCRIPT_OPEN + Tags.TYPED_CLOSE

  lemma EndTagPageParts()
    ensures PageSuffix.Drops(END_TAG_PAGE, 1, END_TAG_PAGE[1..])
    ensures PageSuffix.Drops(END_TAG_PAGE, 15, PageNodes.SCRIPT_OPEN + Tags.TYPED_CLOSE)
    ensures |END_TAG_PAGE| == 25 && END_TAG_PAGE[0] == LT && END_TAG_PAGE[1] == SLASH && IsAlpha(END_TAG_PAGE[2])
    ensures forall k :: 1 <= k < 15 ==> END_TAG_PAGE[k] != LT
    ensures END_TAG_PAGE[15] == LT && !Opens(END_TAG_PAGE, 0)
    ensures Tags.IsTyped(END_TAG_PAGE[1..], PageNodes.SCRIPT_OPEN)
  {
    var page, rest := END_TAG_PAGE, END_TAG_PAGE[1..];
    assert page[15..] == PageNodes.SCRIPT_OPEN + Tags.TYPED_CLOSE;
    var typed := Tags.TYPED_OPEN + PageNodes.SCRIPT_OPEN + Tags.TYPED_CLOSE + [];
    Tags.TypedStands(PageNodes.SCRIPT_OPEN, []);
    assert rest[1..] == typed[1..];
    LikeTyped(rest, typed, PageNodes.SCRIPT_OPEN);
  }

  lemma LikeTyped(page: seq<Byte>, typed: seq<Byte>, value: seq<Byte>)
    requires Tags.IsTyped(typed, value) && page != [] && page[1..] == typed[1..]
    ensures Tags.IsTyped(page, value)
  {
    var n := |value|;
    assert forall k :: 1 <= k < |page| ==> page[k] == page[1..][k - 1] == typed[k];
    assert page[1..7] == typed[1..7] && page[8..12] == typed[8..12] && page[14..14 + n] == typed[14..14 + n];
  }

  /** The scan finds a script in the end tag's attribute, where to the tokenizer there is only an end tag. */
  lemma ScriptInEndTag(named: Named)
    ensures Run(END_TAG_PAGE, 0, Data, named) == []
    ensures Scan(END_TAG_PAGE, 0, false) != []
    ensures !Clean(END_TAG_PAGE, 0, named)
  {
    var page := END_TAG_PAGE;
    EndTagPageParts();
    OneEndTag(named);
    ScriptOpens(named);
    hide Run, Scan, Clean, NextLess, HopBy, Opens;
    if Clean(page, 0, named) { FindsAlike(page, 0, named); }
  }

  lemma OneEndTag(named: Named)
    ensures Run(END_TAG_PAGE, 0, Data, named) == []
  {
    EndTagPageParts();
    var page, rest := END_TAG_PAGE, END_TAG_PAGE[1..];
    hide Run, Tags.Run, Tags.IsTyped, PageSuffix.Drops, Tags.MeetsStray;
    Tags.TypedReads(rest, PageNodes.SCRIPT_OPEN);
    Tags.TypedMeetsNone(rest, PageNodes.SCRIPT_OPEN);
    Tags.AgreesWithoutStray(rest, 1, Tags.TagName, Tags.NOTHING);
    PageSuffix.TagRunDropped(page, 1, rest, 1, Tags.TagName, Tags.BeginsName, Tags.NOTHING);
    HopIsRun(page, 0, named);
    AtEndOfPage(page, 25, Data, named);
  }

  lemma ScriptOpens(named: Named)
    ensures Scan(END_TAG_PAGE, 0, false) != []
  {
    var page := END_TAG_PAGE;
    EndTagPageParts();
    BodyInside();
    hide Scan, PageSuffix.Drops, Opens, HopAt, StandardHop, Tags.IsTyped;
    NothingMet(page, 0, named);
    ScanOnce(page, 0, named);
    ScanOnce(page, 1, named);
  }

  lemma BodyInside()
    ensures HopAt(END_TAG_PAGE, 15, false).Body?
  {
    EndTagPageParts();
    var tail := PageNodes.SCRIPT_OPEN + Tags.TYPED_CLOSE;
    PageNodes.OpenIsATag();
    hide HopAt, PageSuffix.Drops, Opens, Tags.IsTyped, Tags.Run;
    PageNodes.HopAtTag(tail, false, T.SCRIPT, PageNodes.SCRIPT_OPEN, Tags.TYPED_CLOSE);
    PageSuffix.HopDropped(END_TAG_PAGE, 15, tail, 0, false);
  }
}
