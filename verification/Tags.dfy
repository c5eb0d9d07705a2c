/**
 What a start tag says and where it ends: the tag states of sections 13.2.5.8 and 13.2.5.32 to
 13.2.5.40 of the HTML Standard, one character at a time, and `start_tag`, which passes whole names
 and values.

 The two differ in one transition. Before an attribute name the standard starts a name with a
 stray `=`; `start_tag` sees an empty name and reads a value. `stray` selects that transition,
 so that one machine says both what the standard does and what `start_tag` does.
 */
module Tags {
  import opened Bytes
  import opened Attributes
  import opened References

  const DOUBLE_QUOTE: Byte := 0x22
  const SINGLE_QUOTE: Byte := 0x27

  datatype State =
    | TagName
    | BeforeAttributeName
    | AttributeName
    | AfterAttributeName
    | BeforeAttributeValue
    | Quoted(quote: Byte)
    | Unquoted
    | AfterQuoted
    | SelfClosing

  /** What the tag does with a stray `=`: begin a name (the standard) or a value (`start_tag`). */
  datatype Stray = BeginsName | BeginsValue

  datatype Move = Consume(next: State) | Reconsume(next: State) | Close

  function Step(s: State, b: Byte, stray: Stray): Move {
    match s
    case TagName =>
      if IsSpace(b) then Consume(BeforeAttributeName)
      else if b == SLASH then Consume(SelfClosing)
      else if b == GT then Close
      else Consume(TagName)
    case BeforeAttributeName =>
      if IsSpace(b) then Consume(BeforeAttributeName)
      else if b == SLASH || b == GT then Reconsume(AfterAttributeName)
      else if b == EQUALS then Consume(if stray.BeginsName? then AttributeName else BeforeAttributeValue)
      else Reconsume(AttributeName)
    case AttributeName =>
      if IsSpace(b) || b == SLASH || b == GT then Reconsume(AfterAttributeName)
      else if b == EQUALS then Consume(BeforeAttributeValue)
      else Consume(AttributeName)
    case AfterAttributeName =>
      if IsSpace(b) then Consume(AfterAttributeName)
      else if b == SLASH then Consume(SelfClosing)
      else if b == EQUALS then Consume(BeforeAttributeValue)
      else if b == GT then Close
      else Reconsume(AttributeName)
    case BeforeAttributeValue =>
      if IsSpace(b) then Consume(BeforeAttributeValue)
      else if b == DOUBLE_QUOTE || b == SINGLE_QUOTE then Consume(Quoted(b))
      else if b == GT then Close
      else Reconsume(Unquoted)
    case Quoted(quote) =>
      if b == quote then Consume(AfterQuoted) else Consume(Quoted(quote))
    case Unquoted =>
      if IsSpace(b) then Consume(BeforeAttributeName)
      else if b == GT then Close
      else Consume(Unquoted)
    case AfterQuoted =>
      if IsSpace(b) then Consume(BeforeAttributeName)
      else if b == SLASH then Consume(SelfClosing)
      else if b == GT then Close
      else Reconsume(BeforeAttributeName)
    case SelfClosing =>
      if b == GT then Close else Reconsume(BeforeAttributeName)
  }

  predicate EndsName(b: Byte) {
    IsSpace(b) || b == SLASH || b == GT
  }

  /** How many more times the byte `b` may be handed back. */
  function Rank(s: State, b: Byte): nat {
    match s
    case SelfClosing | AfterQuoted => 5
    case BeforeAttributeName => 4
    case AttributeName => if EndsName(b) then 3 else 1
    case AfterAttributeName => 2
    case BeforeAttributeValue => 1
    case _ => 0
  }

  /** The attributes read so far, the last of them perhaps not to its end. */
  datatype Tally = Tally(done: seq<Attribute>, open: Option<Attribute>) {
    function All(): seq<Attribute> {
      if open.Some? then done + [open.value] else done
    }

    function Begin(name: seq<Byte>, value: Option<seq<Byte>>): Tally {
      Tally(All(), Some(Attribute(LowerAll(name), value)))
    }

    function Named(bytes: seq<Byte>): Tally {
      if open.None? then this else this.(open := Some(open.value.(name := open.value.name + LowerAll(bytes))))
    }

    function Valued(bytes: seq<Byte>): Tally {
      if open.None? then this
      else
        var value := if open.value.value.Some? then open.value.value.value else [];
        this.(open := Some(open.value.(value := Some(value + bytes))))
    }
  }

  const NOTHING: Tally := Tally([], None)

  /** What the step at `b` does to the attributes. */
  function Note(s: State, b: Byte, stray: Stray, t: Tally): Tally {
    match s
    case BeforeAttributeName =>
      if EndsName(b) then t
      else if b != EQUALS then t.Begin([], None)
      else if stray.BeginsName? then t.Begin([b], None)
      else t.Begin([], Some([]))
    case AttributeName =>
      if EndsName(b) then t else if b == EQUALS then t.Valued([]) else t.Named([b])
    case AfterAttributeName =>
      if EndsName(b) then t else if b == EQUALS then t.Valued([]) else t.Begin([], None)
    case Quoted(quote) => if b == quote then t else t.Valued([b])
    case Unquoted => if IsSpace(b) || b == GT then t else t.Valued([b])
    case _ => t
  }

  /** The offset behind the `>` that closes a tag, and the tag's attributes. */
  datatype Reading = Reading(end: Option<nat>, attributes: seq<Attribute>)

  /** What a run from `at` reads; of a tag cut off by the page's end, a quoted value left open is no attribute. */
  function Run(page: seq<Byte>, at: nat, s: State, stray: Stray, t: Tally): (r: Reading)
    ensures r.end.Some? ==> at < r.end.value <= |page| && page[r.end.value - 1] == GT
    decreases |page| - at, if at < |page| then Rank(s, page[at]) else 0
  {
    if at >= |page| then Reading(None, if s.Quoted? then t.done else t.All())
    else
      var noted := Note(s, page[at], stray, t);
      match Step(s, page[at], stray)
      case Consume(next) => Run(page, at + 1, next, stray, noted)
      case Reconsume(next) => Run(page, at, next, stray, noted)
      case Close => Reading(Some(at + 1), noted.All())
  }

  /** The standard's run meets an `=` where it expects an attribute name. */
  predicate MeetsStray(page: seq<Byte>, at: nat, s: State)
    decreases |page| - at, if at < |page| then Rank(s, page[at]) else 0
  {
    at < |page| &&
    (|| (s.BeforeAttributeName? && page[at] == EQUALS)
     || match Step(s, page[at], BeginsName)
        case Consume(next) => MeetsStray(page, at + 1, next)
        case Reconsume(next) => MeetsStray(page, at, next)
        case Close => false)
  }

  /** Away from a stray `=`, `start_tag` ends a tag where the standard does, with the same attributes as written. */
  lemma {:induction false} AgreesWithoutStray(page: seq<Byte>, at: nat, s: State, t: Tally)
    requires !MeetsStray(page, at, s)
    ensures Run(page, at, s, BeginsValue, t) == Run(page, at, s, BeginsName, t)
    decreases |page| - at, if at < |page| then Rank(s, page[at]) else 0
  {
    if at < |page| {
      assert Step(s, page[at], BeginsValue) == Step(s, page[at], BeginsName);
      var noted := Note(s, page[at], BeginsName, t);
      match Step(s, page[at], BeginsName) {
        case Consume(next) => AgreesWithoutStray(page, at + 1, next, noted);
        case Reconsume(next) => AgreesWithoutStray(page, at, next, noted);
        case Close =>
      }
    }
  }

  /** The states a run passes through, in order. */
  function States(page: seq<Byte>, at: nat, s: State, stray: Stray): (states: seq<State>)
    ensures states != [] && states[0] == s
    decreases |page| - at, if at < |page| then Rank(s, page[at]) else 0
  {
    if at >= |page| then [s]
    else
      match Step(s, page[at], stray)
      case Consume(next) => [s] + States(page, at + 1, next, stray)
      case Reconsume(next) => [s] + States(page, at, next, stray)
      case Close => [s]
  }

  lemma SameTail(s: State, x: seq<State>, y: seq<State>)
    ensures [s] + x == [s] + y <==> x == y
  {
    assert ([s] + x)[1..] == x && ([s] + y)[1..] == y;
  }

  /** State by state, `start_tag` reads a tag as the standard does exactly when it meets no stray `=`. */
  lemma {:induction false} SameStatesUnlessStray(page: seq<Byte>, at: nat, s: State)
    ensures States(page, at, s, BeginsValue) == States(page, at, s, BeginsName) <==> !MeetsStray(page, at, s)
    decreases |page| - at, if at < |page| then Rank(s, page[at]) else 0
  {
    if at < |page| && !(s.BeforeAttributeName? && page[at] == EQUALS) {
      assert Step(s, page[at], BeginsValue) == Step(s, page[at], BeginsName);
      match Step(s, page[at], BeginsName) {
        case Consume(next) =>
          SameStatesUnlessStray(page, at + 1, next);
          SameTail(s, States(page, at + 1, next, BeginsValue), States(page, at + 1, next, BeginsName));
        case Reconsume(next) =>
          SameStatesUnlessStray(page, at, next);
          SameTail(s, States(page, at, next, BeginsValue), States(page, at, next, BeginsName));
        case Close =>
      }
    } else if at < |page| {
      assert States(page, at, s, BeginsValue)[1] == BeforeAttributeValue;
      assert States(page, at, s, BeginsName)[1] == AttributeName;
    }
  }

  /** `<a ="">">`: the standard closes the tag at the first `>`, `start_tag` at the second. */
  lemma StrayEqualsMovesTheEnd()
    ensures var page := [LT, 0x61, SPACE, EQUALS, DOUBLE_QUOTE, GT, DOUBLE_QUOTE, GT];
            && Run(page, 1, TagName, BeginsName, NOTHING).end == Some(6)
            && Run(page, 1, TagName, BeginsValue, NOTHING).end == Some(8)
  {
    var page := [LT, 0x61, SPACE, EQUALS, DOUBLE_QUOTE, GT, DOUBLE_QUOTE, GT];
    forall t: Tally ensures Run(page, 3, BeforeAttributeName, BeginsName, t).end == Some(6) {
      var named := t.Begin([EQUALS], None);
      assert Run(page, 5, AttributeName, BeginsName, named.Named([DOUBLE_QUOTE])).end == Some(6);
      assert Run(page, 4, AttributeName, BeginsName, named).end == Some(6);
    }
    assert Run(page, 2, TagName, BeginsName, NOTHING).end == Some(6);
    forall t: Tally ensures Run(page, 3, BeforeAttributeName, BeginsValue, t).end == Some(8) {
      var valued := t.Begin([], Some([]));
      assert Run(page, 7, AfterQuoted, BeginsValue, valued.Valued([GT])).end == Some(8);
      assert Run(page, 5, Quoted(DOUBLE_QUOTE), BeginsValue, valued).end == Some(8);
    }
    assert Run(page, 2, TagName, BeginsValue, NOTHING).end == Some(8);
  }

  // ----- start_tag -----

  /** What a start tag says: its name, its `type` and `language`; `end` is just past its `>`. */
  datatype Tag = Tag(name: seq<Byte>, kind: Option<seq<Byte>>, language: Option<seq<Byte>>, selfClosing: bool,
                     end: Option<nat>)

  /** The end of the tag name that starts at `at`. */
  function NameEnd(page: seq<Byte>, at: nat): (end: nat)
    requires at <= |page|
    ensures at <= end <= |page|
    ensures forall k :: at <= k < end ==> !EndsName(page[k])
    ensures end < |page| ==> EndsName(page[end])
    decreases |page| - at
  {
    if at < |page| && !EndsName(page[at]) then NameEnd(page, at + 1) else at
  }

  /** The tag the machine reads at `start`, a `<`; `None` when no tag opens there. */
  function TagAt(page: seq<Byte>, start: nat): (tag: Option<Tag>)
    ensures tag.Some? && tag.value.end.Some? ==> start + 1 < tag.value.end.value <= |page|
  {
    if start + 1 < |page| && IsAlpha(page[start + 1]) then
      Some(TagOf(page, page[start + 1..NameEnd(page, start + 1)], Run(page, start + 1, TagName, BeginsValue, NOTHING)))
    else None
  }

  /** The tag of that name and of what was read behind it. */
  function TagOf(page: seq<Byte>, name: seq<Byte>, r: Reading): Tag
    requires r.end.Some? ==> 2 <= r.end.value <= |page|
  {
    Tag(name, LastValued(r.attributes, TYPE), LastValued(r.attributes, LANGUAGE),
        r.end.Some? && page[r.end.value - 2] == SLASH, r.end)
  }

  /**
   Where a tag meets no stray `=` and its attributes are unambiguous, its script scope is the one the
   standard gives it, unless an `&` in the value that decides makes a script of what is data as written.
   */
  lemma ScopeOfTag(page: seq<Byte>, start: nat, named: Named)
    requires TagAt(page, start).Some? && !MeetsStray(page, start + 1, TagName)
    ensures var tag, r := TagAt(page, start).value, Run(page, start + 1, TagName, BeginsName, NOTHING);
            var standard := StandardScope(r.attributes, named);
            Unambiguous(r.attributes) ==>
              (Scope(tag.kind, tag.language) == standard <==> Plain(r.attributes) || standard == None)
  {
    hide Scope, StandardScope, Run, LastValued, Unambiguous, Plain;
    var r := Run(page, start + 1, TagName, BeginsName, NOTHING);
    AgreesWithoutStray(page, start + 1, TagName, NOTHING);
    if Unambiguous(r.attributes) { ScopeOfUnambiguous(r.attributes, named); }
  }

  lemma NoTagOpens(page: seq<Byte>, start: nat)
    requires start + 1 >= |page| || !IsAlpha(page[start + 1])
    ensures TagAt(page, start) == None
  {
  }

  /** A stretch of bytes on which a state stays put, and reads nothing. */
  lemma {:induction false} Stays(page: seq<Byte>, p: nat, q: nat, s: State, t: Tally)
    requires p <= q <= |page|
    requires forall k :: p <= k < q ==>
               Step(s, page[k], BeginsValue) == Consume(s) && Note(s, page[k], BeginsValue, t) == t
    ensures Run(page, p, s, BeginsValue, t) == Run(page, q, s, BeginsValue, t)
    decreases q - p
  {
    if p < q { Stays(page, p + 1, q, s, t); }
  }

  lemma SpacesStay(page: seq<Byte>, p: nat, q: nat, s: State, t: Tally)
    requires p <= q <= |page| && s in {BeforeAttributeName, AfterAttributeName, BeforeAttributeValue}
    requires forall k :: p <= k < q ==> IsSpace(page[k])
    ensures Run(page, p, s, BeginsValue, t) == Run(page, q, s, BeginsValue, t)
  {
    Stays(page, p, q, s, t);
  }

  lemma GrowsBy(t: Tally, x: seq<Byte>, y: seq<Byte>)
    ensures t.Named(x).Named(y) == t.Named(x + y)
    ensures t.Valued(x).Valued(y) == t.Valued(x + y)
  {
    assert LowerAll(x + y) == LowerAll(x) + LowerAll(y);
    if t.open.Some? {
      var name := t.open.value.name;
      assert name + LowerAll(x) + LowerAll(y) == name + (LowerAll(x) + LowerAll(y));
      var value := if t.open.value.value.Some? then t.open.value.value.value else [];
      assert value + x + y == value + (x + y);
    }
  }

  lemma GrowsByNothing(t: Tally)
    ensures t.Named([]) == t
    ensures t.open.Some? && t.open.value.value.Some? ==> t.Valued([]) == t
    ensures t.open.Some? && t.open.value.value.None? ==>
              t.Valued([]) == t.(open := Some(t.open.value.(value := Some([]))))
  {
    assert LowerAll([]) == [];
    assert forall x: seq<Byte> :: x + [] == x;
  }

  /** A value read in one piece. */
  lemma WholeValue(t: Tally, value: seq<Byte>)
    requires t.open.Some? && t.open.value.value == Some([])
    ensures t.Valued(value) == t.(open := Some(Attribute(t.open.value.name, Some(value))))
  {
    assert [] + value == value;
  }

  /** The rest of an attribute's name. */
  lemma {:induction false} NameGrows(page: seq<Byte>, p: nat, q: nat, t: Tally)
    requires p <= q <= |page|
    requires forall k :: p <= k < q ==> !EndsName(page[k]) && page[k] != EQUALS
    ensures Run(page, p, AttributeName, BeginsValue, t)
            == Run(page, q, AttributeName, BeginsValue, t.Named(page[p..q]))
    decreases q - p
  {
    if p < q {
      NameGrows(page, p + 1, q, t.Named([page[p]]));
      GrowsBy(t, [page[p]], page[p + 1..q]);
      assert page[p..q] == [page[p]] + page[p + 1..q];
    } else {
      GrowsByNothing(t);
    }
  }

  /** The rest of a value, its last byte excepted. */
  lemma ValueByte(page: seq<Byte>, p: nat, s: State, t: Tally)
    requires p < |page| && t.open.Some? && t.open.value.value.Some? && (s.Quoted? || s.Unquoted?)
    requires Step(s, page[p], BeginsValue) == Consume(s)
    ensures Run(page, p, s, BeginsValue, t) == Run(page, p + 1, s, BeginsValue, t.Valued([page[p]]))
  {
  }

  lemma {:induction false} ValueGrows(page: seq<Byte>, p: nat, q: nat, s: State, t: Tally)
    requires p <= q <= |page| && t.open.Some? && t.open.value.value.Some?
    requires s.Quoted? || s.Unquoted?
    requires forall k :: p <= k < q ==> Step(s, page[k], BeginsValue) == Consume(s)
    ensures Run(page, p, s, BeginsValue, t) == Run(page, q, s, BeginsValue, t.Valued(page[p..q]))
    decreases q - p
  {
    if p < q {
      ValueByte(page, p, s, t);
      hide Run, Step;
      ValueGrows(page, p + 1, q, s, t.Valued([page[p]]));
      GrowsBy(t, [page[p]], page[p + 1..q]);
      assert page[p..q] == [page[p]] + page[p + 1..q];
    } else {
      GrowsByNothing(t);
    }
  }

  /** What follows a tag name, a skipped attribute name, a value or a slash reads as before an attribute. */
  lemma BetweenAttributes(page: seq<Byte>, at: nat, s: State, t: Tally)
    requires s.AfterQuoted? || s.SelfClosing?
             || (s.TagName? && (at < |page| ==> EndsName(page[at])))
             || (s.Unquoted? && (at < |page| ==> IsSpace(page[at]) || page[at] == GT))
             || (s.AfterAttributeName? && (at < |page| ==> !IsSpace(page[at]) && page[at] != EQUALS))
    ensures Run(page, at, s, BeginsValue, t) == Run(page, at, BeforeAttributeName, BeginsValue, t)
  {
    if at < |page| && page[at] == SLASH {
      assert Run(page, at, BeforeAttributeName, BeginsValue, t) == Run(page, at, AfterAttributeName, BeginsValue, t);
    }
  }

  /** An attribute name, empty only before `=`, is read up to `stop`. */
  lemma AttributeNameRead(page: seq<Byte>, at: nat, stop: nat, t: Tally)
    requires at <= stop <= |page| && at < |page| && !EndsName(page[at])
    requires forall k :: at <= k < stop ==> !EndsName(page[k]) && page[k] != EQUALS
    requires stop < |page| ==> EndsName(page[stop]) || page[stop] == EQUALS
    ensures Run(page, at, BeforeAttributeName, BeginsValue, t)
            == Run(page, stop, AfterAttributeName, BeginsValue, t.Begin(page[at..stop], None))
  {
    var begun := t.Begin([], None);
    assert LowerAll([]) + LowerAll(page[at..stop]) == LowerAll(page[at..stop]);
    if at < stop {
      assert Run(page, at, BeforeAttributeName, BeginsValue, t) == Run(page, at, AttributeName, BeginsValue, begun);
      NameGrows(page, at, stop, begun);
      NameOver(page, stop, begun.Named(page[at..stop]));
    } else {
      assert page[at..at] == [];
    }
  }

  lemma NameOver(page: seq<Byte>, stop: nat, t: Tally)
    requires stop < |page| ==> EndsName(page[stop]) || page[stop] == EQUALS
    ensures Run(page, stop, AttributeName, BeginsValue, t) == Run(page, stop, AfterAttributeName, BeginsValue, t)
  {
  }

  /** The value after an opening quote runs to the next such quote, or to the end of the page. */
  lemma QuotedValue(page: seq<Byte>, from: nat, quote: Byte, t: Tally)
    requires from <= |page| && t.open.Some? && t.open.value.value.Some?
    ensures var close := Find(page, from, [quote]);
            Run(page, from, Quoted(quote), BeginsValue, t)
              == if close.Some?
                 then Run(page, close.value + 1, AfterQuoted, BeginsValue, t.Valued(page[from..close.value]))
                 else Reading(None, t.done)
  {
    var close := Find(page, from, [quote]);
    var stop := if close.Some? then close.value else |page|;
    forall k | from <= k < stop ensures page[k] != quote {
      assert !StartsAt(page, k, [quote]);
      assert page[k..k + 1] == [page[k]];
    }
    ValueGrows(page, from, stop, Quoted(quote), t);
    if close.Some? { assert page[stop] == page[stop..stop + 1][0]; }
  }

  /** Before an attribute name a `/` is passed over, a `>` closes the tag. */
  lemma AtDelimiter(page: seq<Byte>, at: nat, t: Tally)
    requires at >= |page| || page[at] == SLASH || page[at] == GT
    ensures Run(page, at, BeforeAttributeName, BeginsValue, t)
            == if at >= |page| then Reading(None, t.All())
               else if page[at] == GT then Reading(Some(at + 1), t.All())
               else Run(page, at + 1, BeforeAttributeName, BeginsValue, t)
  {
    if at < |page| {
      assert Run(page, at, BeforeAttributeName, BeginsValue, t) == Run(page, at, AfterAttributeName, BeginsValue, t);
      BetweenAttributes(page, at + 1, SelfClosing, t);
    }
  }

  method SkipSpace(page: seq<Byte>, from: nat) returns (i: nat)
    requires from <= |page|
    ensures from <= i <= |page|
    ensures forall k :: from <= k < i ==> IsSpace(page[k])
    ensures i < |page| ==> !IsSpace(page[i])
  {
    i := from;
    while i < |page| && IsSpace(page[i])
      invariant from <= i <= |page|
      invariant forall k :: from <= k < i ==> IsSpace(page[k])
    {
      i := i + 1;
    }
  }

  /** Past the attribute at `at`, with its value if it has one; `next` is `None` when a quote never closes. */
  method ReadAttribute(page: seq<Byte>, at: nat, ghost t: Tally) returns (next: Option<nat>, attribute: Attribute)
    requires at < |page| && !EndsName(page[at])
    ensures next.Some? ==> at < next.value <= |page|
    ensures Run(page, at, BeforeAttributeName, BeginsValue, t)
            == if next.Some?
               then Run(page, next.value, BeforeAttributeName, BeginsValue, Tally(t.All(), Some(attribute)))
               else Reading(None, t.All())
  {
    hide Run, Step, Note;
    var i := at;
    while i < |page| && !EndsName(page[i]) && page[i] != EQUALS
      invariant at <= i <= |page|
      invariant forall k :: at <= k < i ==> !EndsName(page[k]) && page[k] != EQUALS
    {
      i := i + 1;
    }
    attribute := Attribute(LowerAll(page[at..i]), None);
    AttributeNameRead(page, at, i, t);
    ghost var stop, named := i, t.Begin(page[at..i], None);
    i := SkipSpace(page, i);
    SpacesStay(page, stop, i, AfterAttributeName, named);
    if i >= |page| || page[i] != EQUALS {
      BetweenAttributes(page, i, AfterAttributeName, named);
      return Some(i), attribute;
    }
    ValueFollows(page, i, named);
    GrowsByNothing(named);
    var value;
    next, value := ReadValue(page, i + 1, named.Valued([]));
    attribute := attribute.(value := Some(value));
  }

  lemma ValueFollows(page: seq<Byte>, at: nat, t: Tally)
    requires at < |page| && page[at] == EQUALS
    ensures Run(page, at, AfterAttributeName, BeginsValue, t)
            == Run(page, at + 1, BeforeAttributeValue, BeginsValue, t.Valued([]))
  {
  }

  lemma ValueBegins(page: seq<Byte>, at: nat, t: Tally)
    requires at <= |page| && (at < |page| ==> !IsSpace(page[at]))
    ensures Run(page, at, BeforeAttributeValue, BeginsValue, t)
            == if at < |page| && (page[at] == DOUBLE_QUOTE || page[at] == SINGLE_QUOTE)
               then Run(page, at + 1, Quoted(page[at]), BeginsValue, t)
               else Run(page, at, Unquoted, BeginsValue, t)
  {
  }

  /** Past the attribute value that follows an `=` at `from - 1`. */
  method ReadValue(page: seq<Byte>, from: nat, ghost t: Tally) returns (next: Option<nat>, value: seq<Byte>)
    requires from <= |page| && t.open.Some? && t.open.value.value == Some([])
    ensures next.Some? ==> from <= next.value <= |page|
    ensures Run(page, from, BeforeAttributeValue, BeginsValue, t)
            == if next.Some?
               then Run(page, next.value, BeforeAttributeName, BeginsValue,
                        t.(open := Some(Attribute(t.open.value.name, Some(value)))))
               else Reading(None, t.done)
  {
    hide Run, Find, Step, Note;
    var i := SkipSpace(page, from);
    SpacesStay(page, from, i, BeforeAttributeValue, t);
    ValueBegins(page, i, t);
    if i < |page| && (page[i] == DOUBLE_QUOTE || page[i] == SINGLE_QUOTE) {
      QuotedValue(page, i + 1, page[i], t);
      var close := Find(page, i + 1, [page[i]]);
      if close.None? { return None, []; }
      value := page[i + 1..close.value];
      WholeValue(t, value);
      BetweenAttributes(page, close.value + 1, AfterQuoted, t.Valued(value));
      return Some(close.value + 1), value;
    }
    var start := i;
    while i < |page| && !IsSpace(page[i]) && page[i] != GT
      invariant start <= i <= |page|
      invariant forall k :: start <= k < i ==> !IsSpace(page[k]) && page[k] != GT
    {
      i := i + 1;
    }
    value := page[start..i];
    WholeValue(t, value);
    UnquotedValue(page, start, i, t);
    BetweenAttributes(page, i, Unquoted, t.Valued(value));
    return Some(i), value;
  }

  lemma UnquotedValue(page: seq<Byte>, p: nat, q: nat, t: Tally)
    requires p <= q <= |page| && t.open.Some? && t.open.value.value.Some?
    requires forall k :: p <= k < q ==> !IsSpace(page[k]) && page[k] != GT
    ensures Run(page, p, Unquoted, BeginsValue, t) == Run(page, q, Unquoted, BeginsValue, t.Valued(page[p..q]))
  {
    ValueGrows(page, p, q, Unquoted, t);
  }

  /** A tag that opens is its name and what the machine reads behind it. */
  lemma OpensWithName(page: seq<Byte>, start: nat)
    requires start + 1 < |page| && IsAlpha(page[start + 1])
    ensures var nameEnd := NameEnd(page, start + 1);
            && start + 1 < nameEnd <= |page|
            && TagAt(page, start) == Some(TagOf(page, page[start + 1..nameEnd],
                                                Run(page, nameEnd, BeforeAttributeName, BeginsValue, NOTHING)))
  {
    var nameEnd := NameEnd(page, start + 1);
    Stays(page, start + 1, nameEnd, TagName, NOTHING);
    BetweenAttributes(page, nameEnd, TagName, NOTHING);
  }

  lemma LastValuedGrows(attributes: seq<Attribute>, a: Attribute, name: seq<Byte>)
    ensures LastValued(attributes + [a], name)
            == if a.name == name && a.value.Some? then Some(LowerAll(a.value.value)) else LastValued(attributes, name)
  {
    assert (attributes + [a])[..|attributes|] == attributes;
  }

  method StartTag(page: seq<Byte>, start: nat) returns (tag: Option<Tag>)
    ensures tag == TagAt(page, start)
  {
    hide TagAt, Run, Step, Note, NameEnd, LastValued;
    if start + 1 >= |page| || !IsAlpha(page[start + 1]) {
      NoTagOpens(page, start);
      return None;
    }
    OpensWithName(page, start);
    var i := NameEnd(page, start + 1);
    var name, kind, language := page[start + 1..i], None, None;
    ghost var t := NOTHING;
    NoAttributes();
    ghost var whole := Run(page, i, BeforeAttributeName, BeginsValue, t);
    while true
      invariant start + 1 < i <= |page|
      invariant Run(page, i, BeforeAttributeName, BeginsValue, t) == whole
      invariant kind == LastValued(t.All(), TYPE) && language == LastValued(t.All(), LANGUAGE)
      decreases |page| - i
    {
      ghost var top := i;
      i := SkipSpace(page, i);
      SpacesStay(page, top, i, BeforeAttributeName, t);
      if i >= |page| || EndsName(page[i]) { AtDelimiter(page, i, t); }
      if i >= |page| { return Some(Tag(name, kind, language, false, None)); }
      if page[i] == GT { return Some(Tag(name, kind, language, page[i - 1] == SLASH, Some(i + 1))); }
      if page[i] == SLASH {
        i := i + 1;
      } else {
        var next, attribute := ReadAttribute(page, i, t);
        if next.None? { return Some(Tag(name, kind, language, false, None)); }
        LastValuedGrows(t.All(), attribute, TYPE);
        LastValuedGrows(t.All(), attribute, LANGUAGE);
        if attribute.value.Some? {
          if attribute.name == TYPE {
            kind := Some(LowerAll(attribute.value.value));
          } else if attribute.name == LANGUAGE {
            language := Some(LowerAll(attribute.value.value));
          }
        }
        i, t := next.value, Tally(t.All(), Some(attribute));
      }
    }
  }

  lemma NoAttributes()
    ensures LastValued(NOTHING.All(), TYPE) == None && LastValued(NOTHING.All(), LANGUAGE) == None
  {
  }

  // ----- a module that is taken for data -----

  /** `<script type="` and `">` */
  const TYPED_OPEN: seq<Byte> :=
    [LT, 0x73, 0x63, 0x72, 0x69, 0x70, 0x74, SPACE] + TYPE + [EQUALS, DOUBLE_QUOTE]
  const TYPED_CLOSE: seq<Byte> := [DOUBLE_QUOTE, GT]

  /** A stretch of bytes on which a state stays put meets no stray `=`. */
  lemma {:induction false} MeetsNone(page: seq<Byte>, p: nat, q: nat, s: State)
    requires p <= q <= |page|
    requires forall k :: p <= k < q ==>
               Step(s, page[k], BeginsName) == Consume(s) && !(s.BeforeAttributeName? && page[k] == EQUALS)
    ensures MeetsStray(page, p, s) == MeetsStray(page, q, s)
    decreases q - p
  {
    if p < q { MeetsNone(page, p + 1, q, s); }
  }

  /** From offset 1 on stands a tag named `script` with this quoted `type` and nothing else. */
  predicate IsTyped(page: seq<Byte>, value: seq<Byte>) {
    var n := |value|;
    && 16 + n <= |page|
    && page[1..7] == TYPED_OPEN[1..7] && page[7] == SPACE && page[8..12] == TYPE
    && page[12] == EQUALS && page[13] == DOUBLE_QUOTE && page[14..14 + n] == value && DOUBLE_QUOTE !in value
    && page[14 + n] == DOUBLE_QUOTE && page[15 + n] == GT
  }

  lemma TypedStands(value: seq<Byte>, after: seq<Byte>)
    requires DOUBLE_QUOTE !in value
    ensures IsTyped(TYPED_OPEN + value + TYPED_CLOSE + after, value)
  {
    var page := TYPED_OPEN + value + TYPED_CLOSE + after;
    assert page[1..7] == TYPED_OPEN[1..7];
    assert page[8..12] == TYPED_OPEN[8..12] == TYPE;
    assert page[14..14 + |value|] == value;
  }

  lemma TypedBytes(page: seq<Byte>, value: seq<Byte>)
    requires IsTyped(page, value)
    ensures forall k :: 1 <= k < 7 ==> IsAlpha(page[k])
    ensures forall k :: 8 <= k < 12 ==> IsAlpha(page[k])
    ensures forall k :: 14 <= k < 14 + |value| ==> page[k] != DOUBLE_QUOTE
  {
    forall k | 1 <= k < 7 ensures IsAlpha(page[k]) { assert page[k] == page[1..7][k - 1] == TYPED_OPEN[k]; }
    forall k | 8 <= k < 12 ensures IsAlpha(page[k]) { assert page[k] == page[8..12][k - 8]; }
    forall k | 14 <= k < 14 + |value| ensures page[k] != DOUBLE_QUOTE { assert page[k] == value[k - 14]; }
  }

  lemma TypedMeetsNone(page: seq<Byte>, value: seq<Byte>)
    requires IsTyped(page, value)
    ensures !MeetsStray(page, 1, TagName)
  {
    hide IsTyped;
    TypedBytes(page, value);
    TypedDelimiters(page, value);
    var end := 14 + |value|;
    MeetsNone(page, 1, 7, TagName);
    MeetsNone(page, 8, 12, AttributeName);
    MeetsNone(page, 14, end, Quoted(DOUBLE_QUOTE));
    assert !MeetsStray(page, end + 1, AfterQuoted);
    assert !MeetsStray(page, end, Quoted(DOUBLE_QUOTE));
    assert !MeetsStray(page, 13, BeforeAttributeValue);
    assert !MeetsStray(page, 12, AttributeName);
    assert !MeetsStray(page, 8, BeforeAttributeName);
  }

  lemma TypedDelimiters(page: seq<Byte>, value: seq<Byte>)
    requires IsTyped(page, value)
    ensures 16 + |value| <= |page| && page[7] == SPACE && page[12] == EQUALS && page[13] == DOUBLE_QUOTE
    ensures page[14 + |value|] == DOUBLE_QUOTE && page[15 + |value|] == GT
    ensures page[8..12] == TYPE && page[14..14 + |value|] == value
  {
  }

  lemma QuoteCloses(page: seq<Byte>, value: seq<Byte>)
    requires IsTyped(page, value)
    ensures Find(page, 14, [DOUBLE_QUOTE]) == Some(14 + |value|)
  {
    hide IsTyped, Find;
    TypedBytes(page, value);
    TypedDelimiters(page, value);
    var end := 14 + |value|;
    assert page[end..end + 1] == [DOUBLE_QUOTE];
    assert StartsAt(page, end, [DOUBLE_QUOTE]);
    forall k | 14 <= k < end ensures !StartsAt(page, k, [DOUBLE_QUOTE]) {
      assert page[k..k + 1] == [page[k]];
    }
  }

  lemma TypedReads(page: seq<Byte>, value: seq<Byte>)
    requires IsTyped(page, value)
    ensures Run(page, 1, TagName, BeginsValue, NOTHING)
            == Reading(Some(16 + |value|), [Attribute(TYPE, Some(value))])
  {
    hide Run;
    TypedBytes(page, value);
    TypedName(page);
    TypedAttribute(page);
    TypedValue(page, value);
  }

  /** The attribute's name and `=`, from the name on. */
  lemma TypedAttribute(page: seq<Byte>)
    requires 13 <= |page| && page[8..12] == TYPE && page[12] == EQUALS && forall k :: 8 <= k < 12 ==> IsAlpha(page[k])
    ensures Run(page, 8, BeforeAttributeName, BeginsValue, NOTHING)
            == Run(page, 13, BeforeAttributeValue, BeginsValue, Tally([], Some(Attribute(TYPE, Some([])))))
  {
    hide Run, Step, Note;
    var begun := NOTHING.Begin(TYPE, None);
    AttributeNameRead(page, 8, 12, NOTHING);
    ValueFollows(page, 12, begun);
    GrowsByNothing(begun);
    assert LowerAll(TYPE) == TYPE;
  }

  /** Its value, from the opening quote to the end of the tag. */
  lemma TypedValue(page: seq<Byte>, value: seq<Byte>)
    requires IsTyped(page, value)
    ensures Run(page, 13, BeforeAttributeValue, BeginsValue, Tally([], Some(Attribute(TYPE, Some([])))))
            == Reading(Some(16 + |value|), [Attribute(TYPE, Some(value))])
  {
    TypedDelimiters(page, value);
    QuoteCloses(page, value);
    hide IsTyped, Run, Find, Step, Note;
    var end := 14 + |value|;
    var empty := Tally([], Some(Attribute(TYPE, Some([]))));
    ValueBegins(page, 13, empty);
    QuotedValue(page, 14, DOUBLE_QUOTE, empty);
    WholeValue(empty, value);
    BetweenAttributes(page, end + 1, AfterQuoted, empty.Valued(value));
    AtDelimiter(page, end + 1, empty.Valued(value));
  }

  lemma TypedName(page: seq<Byte>)
    requires 7 < |page| && page[7] == SPACE && forall k :: 1 <= k < 7 ==> IsAlpha(page[k])
    ensures Run(page, 1, TagName, BeginsValue, NOTHING) == Run(page, 8, BeforeAttributeName, BeginsValue, NOTHING)
  {
    Stays(page, 1, 7, TagName, NOTHING);
  }

  /** A `type` in which `module` is spelled with a reference: a module to the standard, data to the source. */
  lemma ReferencedModuleIsData(named: Named, after: seq<Byte>)
    ensures var page := TYPED_OPEN + CODED_MODULE + TYPED_CLOSE + after;
            var tag, r := TagAt(page, 0), Run(page, 1, TagName, BeginsName, NOTHING);
            && !MeetsStray(page, 1, TagName) && Unambiguous(r.attributes)
            && tag.Some? && tag.value.end == r.end == Some(27)
            && Scope(tag.value.kind, tag.value.language) == None
            && StandardScope(r.attributes, named) == Some(Module)
  {
    var page := TYPED_OPEN + CODED_MODULE + TYPED_CLOSE + after;
    CodedHasAmpersand();
    assert DOUBLE_QUOTE !in CODED_MODULE;
    TypedStands(CODED_MODULE, after);
    TypedBytes(page, CODED_MODULE);
    TypedReads(page, CODED_MODULE);
    TypedMeetsNone(page, CODED_MODULE);
    hide Run, MeetsStray, Scope, StandardScope, IsTyped, NameEnd;
    AgreesWithoutStray(page, 1, TagName, NOTHING);
    OneReference(CODED_MODULE, named);
  }

  lemma OneAttribute(attributes: seq<Attribute>)
    requires |attributes| == 1 && attributes[0].name == TYPE && attributes[0].value.Some?
    ensures FirstNamed(attributes, TYPE) == Some(0) && OnlyFirstValued(attributes, TYPE) && HasValue(attributes, TYPE)
  {
  }

  lemma OneReference(value: seq<Byte>, named: Named)
    requires value == CODED_MODULE
    ensures var attributes := [Attribute(TYPE, Some(value))];
            Unambiguous(attributes) && ScopeOf(attributes) == None && StandardScope(attributes, named) == Some(Module)
  {
    var attributes := [Attribute(TYPE, Some(value))];
    hide ScopeOf, StandardScope, Decode, Runs, Trim, FirstNamed, OnlyFirstValued, HasValue;
    OneAttribute(attributes);
    TextModuleIsNoScript();
    CodedDecodes(named);
    SourceReads(value);
    SourceByType(attributes, 0);
    StandardByType(attributes, named, 0);
  }
}
