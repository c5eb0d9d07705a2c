/**
 `html_script_end`: the seven-state, look-ahead scanner that finds where an inline script ends,
 and the proof that it answers as the tokenizer of `HtmlTokenizer` does.
 */
module ScriptEnd {
  import opened Bytes
  import T = HtmlTokenizer

  const OPEN_COMMENT: seq<Byte> := [LT, BANG, DASH, DASH]

  /** `</` and the name stand at `at`, letters in either case, before a delimiter or the last offset. */
  predicate IsEndTag(page: seq<Byte>, at: nat, name: seq<Byte>) {
    var nameEnd := at + 2 + |name|;
    && StartsAt(page, at, [LT, SLASH])
    && nameEnd <= |page|
    && LowerAll(page[at + 2..nameEnd]) == LowerAll(name)
    && (nameEnd < |page| ==> T.EndsTagName(page[nameEnd]))
  }

  /** The end of the run of letters that starts at `at`. */
  function LetterRun(page: seq<Byte>, at: nat): (end: nat)
    ensures at <= end
    ensures at <= |page| ==> end <= |page|
    ensures forall k :: at <= k < end ==> k < |page| && IsAlpha(page[k])
    ensures end < |page| ==> !IsAlpha(page[end])
    decreases |page| - at
  {
    if at < |page| && IsAlpha(page[at]) then LetterRun(page, at + 1) else at
  }

  /** The offset past the delimiter when the letters at `at` spell `script` and one follows. */
  function NamesScript(page: seq<Byte>, at: nat): Option<nat> {
    var end := LetterRun(page, at);
    if end < |page| && LowerAll(page[at..end]) == T.SCRIPT && T.EndsTagName(page[end])
    then Some(end + 1) else None
  }

  datatype State =
    | Plain
    | Escaped
    | EscapedDash
    | EscapedDashDash
    | DoubleEscaped
    | DoubleEscapedDash
    | DoubleEscapedDashDash

  predicate IsEscaped(s: State) {
    s.Escaped? || s.EscapedDash? || s.EscapedDashDash?
  }

  /** The tokenizer state each scanner state stands for. */
  function Meaning(s: State): T.State {
    match s
    case Plain => T.ScriptData
    case Escaped => T.Escaped
    case EscapedDash => T.EscapedDash
    case EscapedDashDash => T.EscapedDashDash
    case DoubleEscaped => T.DoubleEscaped
    case DoubleEscapedDash => T.DoubleEscapedDash
    case DoubleEscapedDashDash => T.DoubleEscapedDashDash
  }

  /** The scanner's transition on a byte other than `<`, for the six states that take one. */
  function OnByte(s: State, b: Byte): State
    requires !s.Plain?
  {
    if b == DASH then
      match s
      case Escaped => EscapedDash
      case EscapedDash | EscapedDashDash => EscapedDashDash
      case DoubleEscaped => DoubleEscapedDash
      case _ => DoubleEscapedDashDash
    else if b == GT && (s.EscapedDashDash? || s.DoubleEscapedDashDash?) then Plain
    else if IsEscaped(s) then Escaped
    else DoubleEscaped
  }

  /**
   What the tokenizer's outcome means for the scanner. The second and third cases are the one
   departure from the standard: a `</script` that the end of the file cuts off ends the body.
   */
  function Verdict(o: T.Outcome): Option<nat> {
    match o
    case Recognised(lt) => Some(lt)
    case EndOfFile(EndTagName(lt, name)) => if name == T.SCRIPT then Some(lt) else None
    case EndOfFile(EscapedEndTagName(lt, name)) => if name == T.SCRIPT then Some(lt) else None
    case EndOfFile(_) => None
  }

  function Answer(page: seq<Byte>, at: nat, s: T.State): Option<nat> {
    Verdict(T.Run(page, at, s))
  }

  // ----- runs the tokenizer makes without a decision -----

  predicate Naming(s: T.State) {
    s.EndTagName? || s.EscapedEndTagName? || s.DoubleEscapeStart? || s.DoubleEscapeEnd?
  }

  /** A naming state with `more` appended to its temporary buffer. */
  function Grown(s: T.State, more: seq<Byte>): T.State
    requires Naming(s)
  {
    match s
    case EndTagName(lt, buffer) => T.EndTagName(lt, buffer + more)
    case EscapedEndTagName(lt, buffer) => T.EscapedEndTagName(lt, buffer + more)
    case DoubleEscapeStart(buffer) => T.DoubleEscapeStart(buffer + more)
    case DoubleEscapeEnd(buffer) => T.DoubleEscapeEnd(buffer + more)
  }

  lemma NamingStep(page: seq<Byte>, p: nat, s: T.State)
    requires Naming(s) && p < |page| && IsAlpha(page[p])
    ensures T.Run(page, p, s) == T.Run(page, p + 1, Grown(s, [Lower(page[p])]))
  {
  }

  lemma GrownTwice(s: T.State, x: seq<Byte>, y: seq<Byte>)
    requires Naming(s)
    ensures Naming(Grown(s, x)) && Grown(Grown(s, x), y) == Grown(s, x + y)
    ensures Grown(s, []) == s
  {
    assert s.buffer + x + y == s.buffer + (x + y) && s.buffer + [] == s.buffer;
  }

  lemma LowerSplit(page: seq<Byte>, p: nat, q: nat)
    requires p < q <= |page|
    ensures LowerAll(page[p..q]) == [Lower(page[p])] + LowerAll(page[p + 1..q])
  {
  }

  /** Letters only fill the temporary buffer. */
  lemma {:induction false} Letters(page: seq<Byte>, p: nat, q: nat, s: T.State)
    requires Naming(s) && p <= q <= |page|
    requires forall k :: p <= k < q ==> IsAlpha(page[k])
    ensures T.Run(page, p, s) == T.Run(page, q, Grown(s, LowerAll(page[p..q])))
    decreases q - p
  {
    hide T.Run, Grown;
    if p == q {
      assert page[p..q] == [];
      assert LowerAll([]) == [];
      GrownTwice(s, [], []);
    } else {
      var first := [Lower(page[p])];
      NamingStep(page, p, s);
      GrownTwice(s, first, LowerAll(page[p + 1..q]));
      Letters(page, p + 1, q, Grown(s, first));
      LowerSplit(page, p, q);
    }
  }

  predicate Home(s: T.State) {
    s.ScriptData? || s.Escaped? || s.DoubleEscaped?
  }

  /** Bytes that are neither `<` nor `-` leave the three resting states alone. */
  lemma {:induction false} Idle(page: seq<Byte>, p: nat, q: nat, s: T.State)
    requires Home(s) && p <= q <= |page|
    requires forall k :: p <= k < q ==> page[k] != LT && (page[k] != DASH || s.ScriptData?)
    ensures T.Run(page, p, s) == T.Run(page, q, s)
    decreases q - p
  {
    if p < q {
      assert T.Step(s, page[p], p) == T.Consume(s);
      Idle(page, p + 1, q, s);
    }
  }

  /** In plain script data only the next `<` matters. */
  lemma NextLess(page: seq<Byte>, p: nat)
    ensures var found := Find(page, p, [LT]);
            && Answer(page, p, T.ScriptData)
                 == (if found.Some? then Answer(page, found.value, T.ScriptData) else None)
            && (found.Some? ==> found.value < |page| && page[found.value] == LT)
  {
    var found := Find(page, p, [LT]);
    var stop := if found.Some? then found.value else |page|;
    forall k | p <= k < stop ensures page[k] != LT {
      assert !StartsAt(page, k, [LT]);
      assert page[k..k + 1] == [page[k]];
    }
    if p <= stop { Idle(page, p, stop, T.ScriptData); }
    if found.Some? { assert page[stop] == page[stop..stop + 1][0]; }
  }

  // ----- the look-aheads -----

  /** The tokenizer's view of `</` plus a run of letters, from the state that saw `</`. */
  lemma EndTagLetters(page: seq<Byte>, lt: nat, tag: T.State)
    requires tag == T.EndTagOpen(lt) || tag == T.EscapedEndTagOpen(lt)
    requires lt + 2 < |page| && IsAlpha(page[lt + 2])
    ensures var q := LetterRun(page, lt + 2);
            var name := LowerAll(page[lt + 2..q]);
            T.Run(page, lt + 2, tag)
              == T.Run(page, q, if tag.EndTagOpen? then T.EndTagName(lt, name)
                                else T.EscapedEndTagName(lt, name))
  {
    hide T.Run, LetterRun;
    T.OneStep(page, lt + 2, tag);
    var q := LetterRun(page, lt + 2);
    var named := if tag.EndTagOpen? then T.EndTagName(lt, []) else T.EscapedEndTagName(lt, []);
    assert T.Step(tag, page[lt + 2], lt + 2) == T.Reconsume(named);
    Letters(page, lt + 2, q, named);
    assert [] + LowerAll(page[lt + 2..q]) == LowerAll(page[lt + 2..q]);
  }

  /** `</` either names the appropriate end tag or falls back to the resting state after the `<`. */
  lemma AfterEndTagOpen(page: seq<Byte>, lt: nat, tag: T.State)
    requires tag == T.EndTagOpen(lt) || tag == T.EscapedEndTagOpen(lt)
    requires StartsAt(page, lt, [LT, SLASH])
    ensures var home := if tag.EndTagOpen? then T.ScriptData else T.Escaped;
            Answer(page, lt + 2, tag)
              == if IsEndTag(page, lt, T.SCRIPT) then Some(lt) else Answer(page, lt + 1, home)
  {
    var home := if tag.EndTagOpen? then T.ScriptData else T.Escaped;
    assert page[lt + 1] == SLASH by { assert page[lt..lt + 2][1] == SLASH; }
    Idle(page, lt + 1, lt + 2, home);
    if lt + 2 < |page| && IsAlpha(page[lt + 2]) {
      EndTagLetters(page, lt, tag);
      var q := LetterRun(page, lt + 2);
      SixLetters(page, lt, q);
      if !IsEndTag(page, lt, T.SCRIPT) { Idle(page, lt + 2, q, home); }
    } else if IsEndTag(page, lt, T.SCRIPT) {
      Spelled(page, lt);
    }
  }

  /** An accepted end tag puts six letters after its `</`. */
  lemma Spelled(page: seq<Byte>, lt: nat)
    requires IsEndTag(page, lt, T.SCRIPT)
    ensures LowerAll(page[lt + 2..lt + 8]) == T.SCRIPT
    ensures forall k :: lt + 2 <= k < lt + 8 ==> IsAlpha(page[k])
  {
    var name := page[lt + 2..lt + 8];
    assert LowerAll(T.SCRIPT) == T.SCRIPT;
    forall k | lt + 2 <= k < lt + 8 ensures IsAlpha(page[k]) {
      assert LowerAll(name)[k - lt - 2] == Lower(page[k]);
    }
  }

  /** The end-tag test, said of the whole run of letters after `</`. */
  lemma SixLetters(page: seq<Byte>, lt: nat, q: nat)
    requires StartsAt(page, lt, [LT, SLASH]) && q == LetterRun(page, lt + 2)
    ensures IsEndTag(page, lt, T.SCRIPT)
            <==> LowerAll(page[lt + 2..q]) == T.SCRIPT && (q < |page| ==> T.EndsTagName(page[q]))
  {
    assert LowerAll(T.SCRIPT) == T.SCRIPT;
    if IsEndTag(page, lt, T.SCRIPT) {
      Spelled(page, lt);
      assert q >= lt + 8;
    }
  }

  lemma PlainLess(page: seq<Byte>, i: nat)
    requires i < |page| && page[i] == LT
    ensures Answer(page, i, T.ScriptData)
            == if IsEndTag(page, i, T.SCRIPT) then Some(i)
               else if StartsAt(page, i, OPEN_COMMENT) then Answer(page, i + 4, T.EscapedDashDash)
               else Answer(page, i + 1, T.ScriptData)
  {
    assert T.Run(page, i, T.ScriptData) == T.Run(page, i + 1, T.LessThanSign(i));
    if i + 1 < |page| && page[i + 1] == SLASH {
      assert page[i..i + 2] == [LT, SLASH];
      AfterEndTagOpen(page, i, T.EndTagOpen(i));
    } else if i + 1 < |page| && page[i + 1] == BANG {
      CommentOpening(page, i);
    }
  }

  /** `<!` enters the escaped states only when `--` follows. */
  lemma CommentOpening(page: seq<Byte>, i: nat)
    requires i + 1 < |page| && page[i] == LT && page[i + 1] == BANG
    ensures Answer(page, i + 2, T.EscapeStart)
            == if StartsAt(page, i, OPEN_COMMENT) then Answer(page, i + 4, T.EscapedDashDash)
               else Answer(page, i + 1, T.ScriptData)
  {
    StartsAtBytes(page, i, OPEN_COMMENT);
    assert OPEN_COMMENT[2] == OPEN_COMMENT[3] == DASH;
    Idle(page, i + 1, i + 2, T.ScriptData);
    if i + 2 < |page| && page[i + 2] == DASH {
      Idle(page, i + 2, i + 3, T.ScriptData);
      assert T.Run(page, i + 2, T.EscapeStart) == T.Run(page, i + 3, T.EscapeStartDash);
    }
  }

  lemma EscapedLess(page: seq<Byte>, i: nat, s: State)
    requires IsEscaped(s) && i < |page| && page[i] == LT
    ensures Answer(page, i, Meaning(s))
            == if IsEndTag(page, i, T.SCRIPT) then Some(i)
               else if NamesScript(page, i + 1).Some?
               then Answer(page, NamesScript(page, i + 1).value, T.DoubleEscaped)
               else Answer(page, i + 1, T.Escaped)
  {
    assert T.Run(page, i, Meaning(s)) == T.Run(page, i + 1, T.EscapedLessThanSign(i));
    hide T.Run;
    BehindEscapedLess(page, i);
  }

  lemma BehindEscapedLess(page: seq<Byte>, i: nat)
    requires i < |page| && page[i] == LT
    ensures Answer(page, i + 1, T.EscapedLessThanSign(i))
            == if IsEndTag(page, i, T.SCRIPT) then Some(i)
               else if NamesScript(page, i + 1).Some?
               then Answer(page, NamesScript(page, i + 1).value, T.DoubleEscaped)
               else Answer(page, i + 1, T.Escaped)
  {
    if i + 1 < |page| && page[i + 1] == SLASH {
      assert page[i..i + 2] == [LT, SLASH];
      AfterEndTagOpen(page, i, T.EscapedEndTagOpen(i));
      assert LowerAll(page[i + 1..i + 1]) == [];
    } else if i + 1 < |page| && IsAlpha(page[i + 1]) {
      NameLookahead(page, i + 1, T.DoubleEscapeStart([]));
    } else if i + 1 < |page| {
      assert LetterRun(page, i + 1) == i + 1;
      assert LowerAll(page[i + 1..i + 1]) == [];
    }
  }

  /** A name in a double-escape state decides at its delimiter, or not at all. */
  lemma NameLookahead(page: seq<Byte>, at: nat, s: T.State)
    requires s == T.DoubleEscapeStart([]) || s == T.DoubleEscapeEnd([])
    requires at <= |page|
    ensures var (home, other) := if s.DoubleEscapeStart? then (T.Escaped, T.DoubleEscaped)
                                 else (T.DoubleEscaped, T.Escaped);
            Answer(page, at, s)
              == if NamesScript(page, at).Some? then Answer(page, NamesScript(page, at).value, other)
                 else Answer(page, at, home)
  {
    var home := if s.DoubleEscapeStart? then T.Escaped else T.DoubleEscaped;
    var q := LetterRun(page, at);
    Letters(page, at, q, s);
    assert [] + LowerAll(page[at..q]) == LowerAll(page[at..q]);
    if NamesScript(page, at).None? {
      Idle(page, at, q, home);
    }
  }

  lemma DoubleEscapedLess(page: seq<Byte>, i: nat, s: State)
    requires !s.Plain? && !IsEscaped(s) && i < |page| && page[i] == LT
    ensures Answer(page, i, Meaning(s))
            == if i + 1 < |page| && page[i + 1] == SLASH && NamesScript(page, i + 2).Some?
               then Answer(page, NamesScript(page, i + 2).value, T.Escaped)
               else Answer(page, i + 1, T.DoubleEscaped)
  {
    assert T.Run(page, i, Meaning(s)) == T.Run(page, i + 1, T.DoubleEscapedLessThanSign);
    if i + 1 < |page| && page[i + 1] == SLASH {
      NameLookahead(page, i + 2, T.DoubleEscapeEnd([]));
      Idle(page, i + 1, i + 2, T.DoubleEscaped);
    }
  }

  lemma OtherByte(page: seq<Byte>, i: nat, s: State)
    requires !s.Plain? && i < |page| && page[i] != LT
    ensures Answer(page, i, Meaning(s)) == Answer(page, i + 1, Meaning(OnByte(s, page[i])))
  {
  }

  // ----- what an answer points at, and where it departs from the standard -----

  /** What a state of a run that began at `from` remembers of the page before `at`. */
  predicate Remembers(page: seq<Byte>, from: nat, at: nat, s: T.State) {
    match s
    case LessThanSign(lt) => from <= lt && lt + 1 == at <= |page| && page[lt] == LT
    case EscapedLessThanSign(lt) => from <= lt && lt + 1 == at <= |page| && page[lt] == LT
    case EndTagOpen(lt) => from <= lt && lt + 2 == at <= |page| && page[lt] == LT && page[lt + 1] == SLASH
    case EscapedEndTagOpen(lt) => from <= lt && lt + 2 == at <= |page| && page[lt] == LT && page[lt + 1] == SLASH
    case EndTagName(lt, buffer) => RemembersName(page, from, at, lt, buffer)
    case EscapedEndTagName(lt, buffer) => RemembersName(page, from, at, lt, buffer)
    case _ => true
  }

  predicate RemembersName(page: seq<Byte>, from: nat, at: nat, lt: nat, buffer: seq<Byte>) {
    && from <= lt && lt + 2 <= at <= |page|
    && page[lt] == LT && page[lt + 1] == SLASH
    && buffer == LowerAll(page[lt + 2..at])
  }

  lemma StepRemembers(page: seq<Byte>, from: nat, at: nat, s: T.State)
    requires from <= at < |page| && Remembers(page, from, at, s)
    ensures match T.Step(s, page[at], at)
            case Consume(next) => Remembers(page, from, at + 1, next)
            case Reconsume(next) => Remembers(page, from, at, next)
            case EndTag(lt) => from <= lt && IsEndTag(page, lt, T.SCRIPT)
  {
    hide RemembersName, IsEndTag;
    if s.EndTagName? || s.EscapedEndTagName? {
      NameGrows(page, from, at, s.lt, s.buffer);
      if s.buffer == T.SCRIPT && T.EndsTagName(page[at]) { NameIsEndTag(page, at, s.lt); }
    } else if s.EndTagOpen? || s.EscapedEndTagOpen? {
      NameBegins(page, from, s.lt);
    }
  }

  lemma NameBegins(page: seq<Byte>, from: nat, lt: nat)
    requires from <= lt && lt + 2 <= |page| && page[lt] == LT && page[lt + 1] == SLASH
    ensures RemembersName(page, from, lt + 2, lt, [])
  {
  }

  lemma NameGrows(page: seq<Byte>, from: nat, at: nat, lt: nat, buffer: seq<Byte>)
    requires RemembersName(page, from, at, lt, buffer) && at < |page|
    ensures from <= lt && RemembersName(page, 0, at, lt, buffer)
    ensures RemembersName(page, from, at + 1, lt, buffer + [Lower(page[at])])
  {
    assert page[lt + 2..at + 1] == page[lt + 2..at] + [page[at]];
  }

  /** An answer is the offset of an end tag at or after the start. */
  lemma {:induction false} AnswerIsEndTag(page: seq<Byte>, from: nat, at: nat, s: T.State)
    requires from <= at && Remembers(page, from, at, s)
    ensures Answer(page, at, s).Some?
            ==> from <= Answer(page, at, s).value && IsEndTag(page, Answer(page, at, s).value, T.SCRIPT)
    decreases |page| - at, T.Rank(s)
  {
    hide Remembers, IsEndTag;
    if at < |page| {
      StepRemembers(page, from, at, s);
      match T.Step(s, page[at], at) {
        case Consume(next) => AnswerIsEndTag(page, from, at + 1, next);
        case Reconsume(next) => AnswerIsEndTag(page, from, at, next);
        case EndTag(_) =>
      }
    } else {
      CutOffIsEndTag(page, from, at, s);
    }
  }

  lemma CutOffIsEndTag(page: seq<Byte>, from: nat, at: nat, s: T.State)
    requires at >= |page| && Remembers(page, from, at, s)
    ensures Answer(page, at, s).Some?
            ==> from <= Answer(page, at, s).value && IsEndTag(page, Answer(page, at, s).value, T.SCRIPT)
  {
    if Answer(page, at, s).Some? { NameIsEndTag(page, at, s.lt); }
  }

  lemma NameIsEndTag(page: seq<Byte>, at: nat, lt: nat)
    requires RemembersName(page, 0, at, lt, T.SCRIPT)
    requires at < |page| ==> T.EndsTagName(page[at])
    ensures IsEndTag(page, lt, T.SCRIPT)
  {
    assert LowerAll(T.SCRIPT) == T.SCRIPT;
    StartsAtBytes(page, lt, [LT, SLASH]);
  }

  /** A run over a page passes through the state in which it leaves any prefix of it. */
  lemma {:induction false} ThroughPrefix(page: seq<Byte>, m: nat, at: nat, s: T.State)
    requires at <= m <= |page|
    ensures var o := T.Run(page[..m], at, s);
            T.Run(page, at, s) == if o.Recognised? then o else T.Run(page, m, o.state)
    decreases m - at, T.Rank(s)
  {
    if at < m {
      assert page[..m][at] == page[at];
      match T.Step(s, page[at], at) {
        case Consume(next) => ThroughPrefix(page, m, at + 1, next);
        case Reconsume(next) => ThroughPrefix(page, m, at, next);
        case EndTag(_) =>
      }
    }
  }

  predicate DoublyEscaped(s: T.State) {
    s.DoubleEscaped? || s.DoubleEscapedDash? || s.DoubleEscapedDashDash?
    || s.DoubleEscapedLessThanSign? || s.DoubleEscapeEnd?
  }

  /** The tokenizer meets a final, unfinished `</script` where an end tag counts. */
  predicate CutOff(page: seq<Byte>, from: nat) {
    && from + 8 <= |page|
    && IsEndTag(page, |page| - 8, T.SCRIPT)
    && var before := T.Run(page[..|page| - 8], from, T.ScriptData);
    before.EndOfFile? && !DoublyEscaped(before.state)
  }

  /** The last eight bytes `</script`, from whatever state meets them. */
  lemma CutOffTail(page: seq<Byte>, s: T.State)
    requires |page| >= 8 && IsEndTag(page, |page| - 8, T.SCRIPT)
    ensures Answer(page, |page| - 8, s)
            == if DoublyEscaped(s) then None else Some((|page| - 8) as nat)
    ensures T.Run(page, |page| - 8, s).EndOfFile?
  {
    var lt: nat := |page| - 8;
    StartsAtBytes(page, lt, [LT, SLASH]);
    assert page[lt] == LT && page[lt + 1] == SLASH by { assert [LT, SLASH][1] == SLASH; }
    Spelled(page, lt);
    assert LetterRun(page, lt + 2) == |page|;
    if DoublyEscaped(s) { CutOffDoubly(page, lt, s); } else { CutOffSingly(page, lt, s); }
  }

  lemma CutOffDoubly(page: seq<Byte>, lt: nat, s: T.State)
    requires lt + 8 == |page| && page[lt] == LT && page[lt + 1] == SLASH && LetterRun(page, lt + 2) == |page|
    requires DoublyEscaped(s)
    ensures T.Run(page, lt, s).EndOfFile? && Answer(page, lt, s) == None
  {
    SlashAfterLess(page, lt);
    AtEndOfFile(page);
    hide T.Run;
    DoublyEscapedLess(page, lt, s);
    Letters(page, lt + 2, |page|, T.DoubleEscapeEnd([]));
  }

  lemma CutOffSingly(page: seq<Byte>, lt: nat, s: T.State)
    requires lt + 8 == |page| && page[lt] == LT && page[lt + 1] == SLASH && LetterRun(page, lt + 2) == |page|
    requires LowerAll(page[lt + 2..lt + 8]) == T.SCRIPT && !DoublyEscaped(s)
    ensures T.Run(page, lt, s).EndOfFile? && Answer(page, lt, s) == Some(lt)
  {
    SlashAfterLess(page, lt);
    AtEndOfFile(page);
    hide T.Run;
    SinglyEscapedLess(page, lt, s);
    EndTagLetters(page, lt, T.EndTagOpen(lt));
    EndTagLetters(page, lt, T.EscapedEndTagOpen(lt));
  }

  lemma SlashAfterLess(page: seq<Byte>, lt: nat)
    requires lt + 1 < |page| && page[lt + 1] == SLASH
    ensures T.Run(page, lt + 1, T.LessThanSign(lt)) == T.Run(page, lt + 2, T.EndTagOpen(lt))
    ensures T.Run(page, lt + 1, T.EscapedLessThanSign(lt)) == T.Run(page, lt + 2, T.EscapedEndTagOpen(lt))
    ensures T.Run(page, lt + 1, T.DoubleEscapedLessThanSign) == T.Run(page, lt + 2, T.DoubleEscapeEnd([]))
  {
  }

  lemma AtEndOfFile(page: seq<Byte>)
    ensures forall s :: T.Run(page, |page|, s) == T.EndOfFile(s)
  {
  }

  lemma DoublyEscapedLess(page: seq<Byte>, lt: nat, s: T.State)
    requires lt < |page| && page[lt] == LT && DoublyEscaped(s)
    ensures T.Run(page, lt, s) == T.Run(page, lt + 1, T.DoubleEscapedLessThanSign)
  {
    if s.DoubleEscapeEnd? || s.DoubleEscapedLessThanSign? {
      assert T.Step(s, page[lt], lt) == T.Reconsume(T.DoubleEscaped);
    }
  }

  lemma SinglyEscapedLess(page: seq<Byte>, lt: nat, s: T.State)
    requires lt < |page| && page[lt] == LT && !DoublyEscaped(s)
    ensures T.Run(page, lt, s) == T.Run(page, lt + 1, T.LessThanSign(lt))
            || T.Run(page, lt, s) == T.Run(page, lt + 1, T.EscapedLessThanSign(lt))
  {
    match T.Step(s, LT, lt) {
      case Consume(_) =>
      case Reconsume(home) => assert home == T.ScriptData || home == T.Escaped;
    }
  }

  /**
   The scanner's answer against the standard alone: the tokenizer's end tag when it recognises
   one, and otherwise an offset exactly when the page cuts an end tag off.
   */
  lemma AgainstTheStandard(page: seq<Byte>, from: nat)
    ensures var o := T.Run(page, from, T.ScriptData);
            Answer(page, from, T.ScriptData)
              == if o.Recognised? then Some(o.lt)
                 else if CutOff(page, from) then Some((|page| - 8) as nat)
                 else None
    ensures CutOff(page, from) ==> T.Run(page, from, T.ScriptData).EndOfFile?
  {
    var o := T.Run(page, from, T.ScriptData);
    if from + 8 <= |page| && IsEndTag(page, |page| - 8, T.SCRIPT) {
      ThroughPrefix(page, |page| - 8, from, T.ScriptData);
      var before := T.Run(page[..|page| - 8], from, T.ScriptData);
      if before.EndOfFile? { CutOffTail(page, before.state); }
    } else if o.EndOfFile? && Answer(page, from, T.ScriptData).Some? {
      EndsMidName(page, from, from, T.ScriptData);
      assert false;
    }
  }

  /** The page `</script` and nothing more: no end tag for the tokenizer, one for the scanner. */
  lemma CutOffPage()
    ensures var page := [LT, SLASH] + T.SCRIPT;
            T.Run(page, 0, T.ScriptData).EndOfFile? && CutOff(page, 0) && Answer(page, 0, T.ScriptData) == Some(0)
  {
    var page := [LT, SLASH] + T.SCRIPT;
    assert page[0..2] == [LT, SLASH] && page[2..8] == T.SCRIPT;
    assert page[..0] == [];
    CutOffTail(page, T.ScriptData);
  }

  /** A run that the end of the file stops inside the name `script` began it eight bytes earlier. */
  lemma {:induction false} EndsMidName(page: seq<Byte>, from: nat, at: nat, s: T.State)
    requires from <= at && Remembers(page, from, at, s)
    requires T.Run(page, at, s).EndOfFile? && Answer(page, at, s).Some?
    ensures from + 8 <= |page| && IsEndTag(page, |page| - 8, T.SCRIPT)
    decreases |page| - at, T.Rank(s)
  {
    if at >= |page| {
      NameIsEndTag(page, at, s.lt);
    } else {
      StepRemembers(page, from, at, s);
      match T.Step(s, page[at], at) {
        case Consume(next) => EndsMidName(page, from, at + 1, next);
        case Reconsume(next) => EndsMidName(page, from, at, next);
        case EndTag(_) =>
      }
    }
  }

  // ----- the scanner -----

  /** `html_script_end`: each turn keeps the answer the tokenizer gives from here on. */
  method HtmlScriptEnd(page: seq<Byte>, from: nat) returns (end: Option<nat>)
    ensures end == Answer(page, from, T.ScriptData)
  {
    var state := Plain;
    var i := from;
    while true
      invariant Answer(page, i, Meaning(state)) == Answer(page, from, T.ScriptData)
      decreases |page| - i
    {
      if state == Plain {
        NextLess(page, i);
        var found := Find(page, i, [LT]);
        if found.None? { return None; }
        i := found.value;
      }
      if i >= |page| { return None; }
      var b := page[i];
      if state == Plain {
        PlainLess(page, i);
        if IsEndTag(page, i, T.SCRIPT) { return Some(i); }
        if StartsAt(page, i, OPEN_COMMENT) {
          state, i := EscapedDashDash, i + 4;
        } else {
          i := i + 1;
        }
      } else if b == LT && IsEscaped(state) {
        EscapedLess(page, i, state);
        if IsEndTag(page, i, T.SCRIPT) { return Some(i); }
        var next := NamesScript(page, i + 1);
        if next.Some? {
          state, i := DoubleEscaped, next.value;
        } else {
          state, i := Escaped, i + 1;
        }
      } else if b == LT {
        DoubleEscapedLess(page, i, state);
        if i + 1 < |page| && page[i + 1] == SLASH && NamesScript(page, i + 2).Some? {
          state, i := Escaped, NamesScript(page, i + 2).value;
        } else {
          state, i := DoubleEscaped, i + 1;
        }
      } else {
        OtherByte(page, i, state);
        state, i := OnByte(state, b), i + 1;
      }
    }
  }
}
