/**
 Where an HTML comment ends: the comment states of sections 13.2.5.43 to 13.2.5.52 of the HTML
 Standard, one character at a time, and `comment_end`, which finds the same place by searching.
 */
module Comments {
  import opened Bytes

  datatype State =
    | CommentStart
    | CommentStartDash
    | Comment
    | LessThanSign
    | LessThanSignBang
    | LessThanSignBangDash
    | LessThanSignBangDashDash
    | EndDash
    | End
    | EndBang

  datatype Move = Consume(next: State) | Reconsume(next: State) | Close

  function Step(s: State, b: Byte): Move {
    match s
    case CommentStart =>
      if b == DASH then Consume(CommentStartDash) else if b == GT then Close else Reconsume(Comment)
    case CommentStartDash =>
      if b == DASH then Consume(End) else if b == GT then Close else Reconsume(Comment)
    case Comment =>
      if b == LT then Consume(LessThanSign) else if b == DASH then Consume(EndDash) else Consume(Comment)
    case LessThanSign =>
      if b == BANG then Consume(LessThanSignBang)
      else if b == LT then Consume(LessThanSign)
      else Reconsume(Comment)
    case LessThanSignBang =>
      if b == DASH then Consume(LessThanSignBangDash) else Reconsume(Comment)
    case LessThanSignBangDash =>
      if b == DASH then Consume(LessThanSignBangDashDash) else Reconsume(EndDash)
    case LessThanSignBangDashDash =>
      Reconsume(End)
    case EndDash =>
      if b == DASH then Consume(End) else Reconsume(Comment)
    case End =>
      if b == GT then Close
      else if b == BANG then Consume(EndBang)
      else if b == DASH then Consume(End)
      else Reconsume(Comment)
    case EndBang =>
      if b == DASH then Consume(EndDash) else if b == GT then Close else Reconsume(Comment)
  }

  function Rank(s: State): nat {
    match s
    case Comment => 0
    case EndDash | End => 1
    case _ => 2
  }

  /** Just past the comment's `>`, or the end of a page that never closes it. */
  function Run(page: seq<Byte>, at: nat, s: State): (end: nat)
    decreases |page| - at, Rank(s)
  {
    if at >= |page| then |page|
    else
      match Step(s, page[at])
      case Consume(next) => Run(page, at + 1, next)
      case Reconsume(next) => Run(page, at, next)
      case Close => at + 1
  }

  const DASH_DASH_GT: seq<Byte> := [DASH, DASH, GT]
  const DASH_DASH_BANG_GT: seq<Byte> := [DASH, DASH, BANG, GT]

  /** The bytes of the comment text just before `at` are two dashes. */
  predicate AfterDashes(page: seq<Byte>, from: nat, at: int) {
    from + 2 <= at <= |page| && page[at - 1] == DASH && page[at - 2] == DASH
  }

  /** The `>` at `k` follows `--` or `--!`. */
  predicate ClosesWhole(page: seq<Byte>, from: nat, k: nat) {
    && from <= k < |page| && page[k] == GT
    && (AfterDashes(page, from, k) || (AfterDashes(page, from, k - 1) && page[k - 1] == BANG))
  }

  /** A comment opened just before `from` is closed by the `>` at `k`, wholly or abruptly. */
  predicate Closes(page: seq<Byte>, from: nat, k: nat) {
    || ClosesWhole(page, from, k)
    || (from == k < |page| && page[k] == GT)
    || (from + 1 == k < |page| && page[from] == DASH && page[k] == GT)
  }

  /** What a state knows of the bytes it has read, and of the next when it was handed it back. */
  predicate Knows(page: seq<Byte>, from: nat, at: nat, s: State)
    requires from <= at <= |page|
  {
    match s
    case CommentStart => at == from
    case CommentStartDash => at == from + 1 && page[from] == DASH
    case Comment =>
      at < |page| ==>
        && !Closes(page, from, at)
        && (page[at] == DASH ==> from < at && page[at - 1] != DASH)
        && (page[at] == BANG ==> !AfterDashes(page, from, at))
    case LessThanSign => from < at && page[at - 1] == LT
    case LessThanSignBang => from + 2 <= at && page[at - 1] == BANG && page[at - 2] == LT
    case LessThanSignBangDash => from + 2 <= at && page[at - 1] == DASH && page[at - 2] == BANG
                                 && !(from + 3 <= at && page[at - 3] == DASH)
    case LessThanSignBangDashDash => AfterDashes(page, from, at)
    case EndDash => from + 1 <= at && page[at - 1] == DASH && (at < |page| ==> !Closes(page, from, at))
                    && !AfterDashes(page, from, at)
    case End => AfterDashes(page, from, at)
    case EndBang => AfterDashes(page, from, at - 1) && page[at - 1] == BANG
  }

  lemma StepKnows(page: seq<Byte>, from: nat, at: nat, s: State)
    requires from <= at < |page| && Knows(page, from, at, s)
    ensures match Step(s, page[at])
            case Consume(next) => Knows(page, from, at + 1, next) && !Closes(page, from, at)
            case Reconsume(next) => Knows(page, from, at, next)
            case Close => Closes(page, from, at)
  {
  }

  /** The tokenizer closes a comment at the first `>` that `Closes` it. */
  lemma {:induction false} RunEnds(page: seq<Byte>, from: nat, at: nat, s: State)
    requires from <= at <= |page| && Knows(page, from, at, s)
    ensures var end := Run(page, at, s);
            && at <= end <= |page|
            && (forall k :: at <= k < end - 1 ==> !Closes(page, from, k))
            && (|| (at < end && Closes(page, from, end - 1))
                || (end == |page| && forall k :: at <= k < end ==> !Closes(page, from, k)))
    decreases |page| - at, Rank(s)
  {
    if at < |page| {
      StepKnows(page, from, at, s);
      match Step(s, page[at]) {
        case Consume(next) => RunEnds(page, from, at + 1, next);
        case Reconsume(next) => RunEnds(page, from, at, next);
        case Close =>
      }
    }
  }

  /** Where a search from `from` for `needle` resumes: behind the match, or with no page left. */
  function Past(page: seq<Byte>, from: nat, needle: seq<Byte>): (end: nat)
    ensures end <= |page|
    ensures from <= |page| ==> from <= end
  {
    match Find(page, from, needle)
    case Some(i) => i + |needle|
    case None => |page|
  }

  /** The nearer of the two ends a search finds. */
  function NearerEnd(page: seq<Byte>, from: nat): (end: nat)
    ensures end <= |page|
  {
    var close := Past(page, from, DASH_DASH_GT);
    var bang := Past(page, from, DASH_DASH_BANG_GT);
    if close <= bang then close else bang
  }

  /** `comment_end`: XML ends a comment only at `-->`. */
  function CommentEnd(page: seq<Byte>, from: nat, xml: bool): (end: nat)
    ensures end <= |page|
  {
    if xml then Past(page, from, DASH_DASH_GT)
    else if StartsAt(page, from, [GT]) then from + 1
    else if StartsAt(page, from, [DASH, GT]) then from + 2
    else NearerEnd(page, from)
  }

  lemma ClosesBySearch(page: seq<Byte>, from: nat, k: nat)
    requires from <= k < |page|
    ensures ClosesWhole(page, from, k) <==>
            || (from + 2 <= k && StartsAt(page, k - 2, DASH_DASH_GT))
            || (from + 3 <= k && StartsAt(page, k - 3, DASH_DASH_BANG_GT))
  {
    if from + 2 <= k { assert page[k - 2..k + 1] == [page[k - 2], page[k - 1], page[k]]; }
    if from + 3 <= k { assert page[k - 3..k + 1] == [page[k - 3], page[k - 2], page[k - 1], page[k]]; }
  }

  /** The searches find the first whole close. */
  lemma NearerEndIsFirst(page: seq<Byte>, from: nat)
    requires from <= |page|
    ensures var end := NearerEnd(page, from);
            && (forall k :: from <= k < end - 1 ==> !ClosesWhole(page, from, k))
            && (|| (from < end && ClosesWhole(page, from, end - 1))
                || (end == |page| && forall k :: from <= k < end ==> !ClosesWhole(page, from, k)))
  {
    hide Find, StartsAt, ClosesWhole;
    var close := Find(page, from, DASH_DASH_GT);
    var bang := Find(page, from, DASH_DASH_BANG_GT);
    if close.Some? { ClosesBySearch(page, from, close.value + 2); }
    if bang.Some? { ClosesBySearch(page, from, bang.value + 3); }
    forall k | from <= k < |page|
      ensures ClosesWhole(page, from, k) ==> k >= NearerEnd(page, from) - 1 && (close.Some? || bang.Some?)
    {
      ClosesBySearch(page, from, k);
    }
  }

  /** An HTML comment ends where the tokenizer's comment states end it. */
  lemma CommentEndIsTokenizers(page: seq<Byte>, from: nat)
    requires from <= |page|
    ensures CommentEnd(page, from, false) == Run(page, from, CommentStart)
  {
    RunEnds(page, from, from, CommentStart);
    NearerEndIsFirst(page, from);
    StartsAtBytes(page, from, [GT]);
    StartsAtBytes(page, from, [DASH, GT]);
    var end := Run(page, from, CommentStart);
    var abrupt := [DASH, GT];
    assert abrupt[0] == DASH && abrupt[1] == GT;
    if StartsAt(page, from, [GT]) {
      assert Closes(page, from, from);
    } else if StartsAt(page, from, abrupt) {
      assert page[from + 0] == DASH && page[from + 1] == GT;
      assert Closes(page, from, from + 1);
      assert !Closes(page, from, from);
    } else {
      assert from < |page| ==> page[from] != GT;
      assert from + 1 < |page| ==> !(page[from] == DASH && page[from + 1] == GT);
      assert forall k :: from <= k < |page| ==> (Closes(page, from, k) <==> ClosesWhole(page, from, k));
    }
  }
}
