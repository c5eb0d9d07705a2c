/**
 The HTML tokenizer's script-data states, one character at a time: sections 13.2.5.4 and
 13.2.5.15 to 13.2.5.31 of the HTML Standard, with the insertion point fixed inside a
 `<script>` element so that the appropriate end tag is `script`. A carriage return counts as
 the line feed that input preprocessing turns it into.

 This is the reference machine; it shares no code with the scanner in `ScriptEnd`.
 */
module HtmlTokenizer {
  import opened Bytes

  const SCRIPT: seq<Byte> := [0x73, 0x63, 0x72, 0x69, 0x70, 0x74]

  /** Tag-opening states carry the offset of their `<`, naming states the temporary buffer. */
  datatype State =
    | ScriptData
    | LessThanSign(lt: nat)
    | EndTagOpen(lt: nat)
    | EndTagName(lt: nat, buffer: seq<Byte>)
    | EscapeStart
    | EscapeStartDash
    | Escaped
    | EscapedDash
    | EscapedDashDash
    | EscapedLessThanSign(lt: nat)
    | EscapedEndTagOpen(lt: nat)
    | EscapedEndTagName(lt: nat, buffer: seq<Byte>)
    | DoubleEscapeStart(buffer: seq<Byte>)
    | DoubleEscaped
    | DoubleEscapedDash
    | DoubleEscapedDashDash
    | DoubleEscapedLessThanSign
    | DoubleEscapeEnd(buffer: seq<Byte>)

  datatype Move =
    | Consume(next: State)
    | Reconsume(next: State)
    | EndTag(lt: nat)

  /** How a run stops: at the appropriate end tag that starts at `lt`, or at the end of the file. */
  datatype Outcome =
    | Recognised(lt: nat)
    | EndOfFile(state: State)

  predicate EndsTagName(b: Byte) {
    IsSpace(b) || b == SLASH || b == GT
  }

  function Step(s: State, b: Byte, at: nat): Move {
    match s
    case ScriptData =>
      if b == LT then Consume(LessThanSign(at)) else Consume(ScriptData)
    case LessThanSign(lt) =>
      if b == SLASH then Consume(EndTagOpen(lt))
      else if b == BANG then Consume(EscapeStart)
      else Reconsume(ScriptData)
    case EndTagOpen(lt) =>
      if IsAlpha(b) then Reconsume(EndTagName(lt, [])) else Reconsume(ScriptData)
    case EndTagName(lt, buffer) =>
      if EndsTagName(b) && buffer == SCRIPT then EndTag(lt)
      else if IsAlpha(b) then Consume(EndTagName(lt, buffer + [Lower(b)]))
      else Reconsume(ScriptData)
    case EscapeStart =>
      if b == DASH then Consume(EscapeStartDash) else Reconsume(ScriptData)
    case EscapeStartDash =>
      if b == DASH then Consume(EscapedDashDash) else Reconsume(ScriptData)
    case Escaped =>
      if b == DASH then Consume(EscapedDash)
      else if b == LT then Consume(EscapedLessThanSign(at))
      else Consume(Escaped)
    case EscapedDash =>
      if b == DASH then Consume(EscapedDashDash)
      else if b == LT then Consume(EscapedLessThanSign(at))
      else Consume(Escaped)
    case EscapedDashDash =>
      if b == DASH then Consume(EscapedDashDash)
      else if b == LT then Consume(EscapedLessThanSign(at))
      else if b == GT then Consume(ScriptData)
      else Consume(Escaped)
    case EscapedLessThanSign(lt) =>
      if b == SLASH then Consume(EscapedEndTagOpen(lt))
      else if IsAlpha(b) then Reconsume(DoubleEscapeStart([]))
      else Reconsume(Escaped)
    case EscapedEndTagOpen(lt) =>
      if IsAlpha(b) then Reconsume(EscapedEndTagName(lt, [])) else Reconsume(Escaped)
    case EscapedEndTagName(lt, buffer) =>
      if EndsTagName(b) && buffer == SCRIPT then EndTag(lt)
      else if IsAlpha(b) then Consume(EscapedEndTagName(lt, buffer + [Lower(b)]))
      else Reconsume(Escaped)
    case DoubleEscapeStart(buffer) =>
      if EndsTagName(b) then Consume(if buffer == SCRIPT then DoubleEscaped else Escaped)
      else if IsAlpha(b) then Consume(DoubleEscapeStart(buffer + [Lower(b)]))
      else Reconsume(Escaped)
    case DoubleEscaped =>
      if b == DASH then Consume(DoubleEscapedDash)
      else if b == LT then Consume(DoubleEscapedLessThanSign)
      else Consume(DoubleEscaped)
    case DoubleEscapedDash =>
      if b == DASH then Consume(DoubleEscapedDashDash)
      else if b == LT then Consume(DoubleEscapedLessThanSign)
      else Consume(DoubleEscaped)
    case DoubleEscapedDashDash =>
      if b == DASH then Consume(DoubleEscapedDashDash)
      else if b == LT then Consume(DoubleEscapedLessThanSign)
      else if b == GT then Consume(ScriptData)
      else Consume(DoubleEscaped)
    case DoubleEscapedLessThanSign =>
      if b == SLASH then Consume(DoubleEscapeEnd([])) else Reconsume(DoubleEscaped)
    case DoubleEscapeEnd(buffer) =>
      if EndsTagName(b) then Consume(if buffer == SCRIPT then Escaped else DoubleEscaped)
      else if IsAlpha(b) then Consume(DoubleEscapeEnd(buffer + [Lower(b)]))
      else Reconsume(DoubleEscaped)
  }

  /** How many times in a row a state may reconsume before the character is taken. */
  function Rank(s: State): nat {
    match s
    case LessThanSign(_) | EscapedLessThanSign(_) | EndTagOpen(_) | EscapedEndTagOpen(_) => 2
    case EndTagName(_, _) | EscapedEndTagName(_, _) | DoubleEscapeStart(_) | DoubleEscapeEnd(_) => 1
    case EscapeStart | EscapeStartDash | DoubleEscapedLessThanSign => 1
    case _ => 0
  }

  function Run(page: seq<Byte>, at: nat, s: State): (o: Outcome)
    decreases |page| - at, Rank(s)
  {
    if at >= |page| then EndOfFile(s)
    else
      match Step(s, page[at], at)
      case Consume(next) => Run(page, at + 1, next)
      case Reconsume(next) => Run(page, at, next)
      case EndTag(lt) => Recognised(lt)
  }

  /** One step of a run, for proofs that keep `Run` folded. */
  lemma OneStep(page: seq<Byte>, at: nat, s: State)
    requires at < |page|
    ensures Run(page, at, s)
            == match Step(s, page[at], at)
               case Consume(next) => Run(page, at + 1, next)
               case Reconsume(next) => Run(page, at, next)
               case EndTag(lt) => Recognised(lt)
  {
  }
}
