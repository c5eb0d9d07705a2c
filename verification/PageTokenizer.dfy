/**
 A whole HTML page by the tokenizer of section 13.2.5 of the HTML Standard, one character at a time:
 the data, tag, markup declaration and comment states, raw text and script data, and the scripts
 they find. Of tree construction it has what a start tag's name alone decides, which state the
 tokenizer goes on in; a DOCTYPE ends, as a bogus comment does, at its first `>`.
 */
module PageTokenizer {
  import opened Bytes
  import opened Attributes
  import opened References
  import Comments
  import Tags
  import T = HtmlTokenizer
  import E = ScriptEnd
  import opened PageScan

  datatype RawState = Text | LessThanSign | EndTagOpen | EndTagName(buffer: seq<Byte>)

  datatype State =
    | Data
    | TagOpen(lt: nat)
    | InStartTag(lt: nat, tag: Tags.State, tally: Tags.Tally)
    | InEndTagOpen
    | InEndTag(tag: Tags.State)
    | MarkupDeclarationOpen
    | BogusComment
    | InComment(comment: Comments.State)
    | InRawText(name: seq<Byte>, raw: RawState)
    | InScript(start: nat, scope: Option<ScriptScope>, script: T.State)
    | Plaintext

  const DASH_DASH: seq<Byte> := [DASH, DASH]

  /** The name of the start tag whose `<` is at `lt`. */
  function NameAt(page: seq<Byte>, lt: nat): seq<Byte>
    requires lt < |page|
  {
    page[lt + 1..Tags.NameEnd(page, lt + 1)]
  }

  /** The state behind the start tag at `lt` that ends at `end`. */
  function Behind(page: seq<Byte>, lt: nat, end: nat, attributes: seq<Attribute>, named: Named): State
    requires lt < |page|
  {
    var name := LowerAll(NameAt(page, lt));
    if name == T.SCRIPT then InScript(end, StandardScope(attributes, named), T.ScriptData)
    else if name == PLAINTEXT then Plaintext
    else if name in RAW_TEXT_ELEMENTS then InRawText(name, Text)
    else Data
  }

  /** How many more times the byte `b` may be handed back. */
  function Rank(s: State, b: Byte): nat {
    match s
    case TagOpen(_) | InEndTagOpen | MarkupDeclarationOpen => 1
    case InStartTag(_, tag, _) => Tags.Rank(tag, b)
    case InEndTag(tag) => Tags.Rank(tag, b)
    case InComment(comment) => Comments.Rank(comment)
    case InRawText(_, raw) => (match raw case Text => 0 case EndTagOpen => 2 case _ => 1)
    case InScript(_, _, script) => 1 + T.Rank(script)
    case _ => 0
  }

  /** The offset of a tag that is being read lies in the page. */
  predicate Inside(page: seq<Byte>, s: State) {
    match s
    case TagOpen(lt) => lt < |page|
    case InStartTag(lt, _, _) => lt < |page|
    case _ => true
  }

  /** The scripts a run from `at` finds. */
  function Run(page: seq<Byte>, at: nat, s: State, named: Named): seq<Script>
    requires Inside(page, s)
    decreases |page| - at, if at < |page| then Rank(s, page[at]) else 0
  {
    if at >= |page| then (if s.InScript? then [Script(s.start, |page|, s.scope)] else [])
    else
      match s
      case Data => Run(page, at + 1, if page[at] == LT then TagOpen(at) else Data, named)
      case TagOpen(_) | InEndTagOpen | MarkupDeclarationOpen => RunOpen(page, at, s, named)
      case InStartTag(_, _, _) | InEndTag(_) => RunTag(page, at, s, named)
      case BogusComment => Run(page, at + 1, if page[at] == GT then Data else BogusComment, named)
      case InComment(comment) =>
        (match Comments.Step(comment, page[at])
         case Consume(next) => Run(page, at + 1, InComment(next), named)
         case Reconsume(next) => Run(page, at, InComment(next), named)
         case Close => Run(page, at + 1, Data, named))
      case InRawText(name, raw) => RunRaw(page, at, name, raw, named)
      case InScript(start, scope, script) =>
        (match T.Step(script, page[at], at)
         case Consume(next) => Run(page, at + 1, InScript(start, scope, next), named)
         case Reconsume(next) => Run(page, at, InScript(start, scope, next), named)
         case EndTag(lt) => [Script(start, lt, scope)] + Run(page, at, InEndTag(Tags.TagName), named))
      case Plaintext => []
  }

  /** Behind `<`, `</` and `<!`. */
  function RunOpen(page: seq<Byte>, at: nat, s: State, named: Named): seq<Script>
    requires at < |page| && Inside(page, s) && (s.TagOpen? || s.InEndTagOpen? || s.MarkupDeclarationOpen?)
    decreases |page| - at, Rank(s, page[at]), 0
  {
    var b := page[at];
    match s
    case TagOpen(lt) =>
      if b == BANG then Run(page, at + 1, MarkupDeclarationOpen, named)
      else if b == SLASH then Run(page, at + 1, InEndTagOpen, named)
      else if IsAlpha(b) then Run(page, at, InStartTag(lt, Tags.TagName, Tags.NOTHING), named)
      else if b == QUESTION then Run(page, at, BogusComment, named)
      else Run(page, at, Data, named)
    case InEndTagOpen =>
      if IsAlpha(b) then Run(page, at, InEndTag(Tags.TagName), named)
      else if b == GT then Run(page, at + 1, Data, named)
      else Run(page, at, BogusComment, named)
    case MarkupDeclarationOpen =>
      if StartsAt(page, at, DASH_DASH) then Run(page, at + 2, InComment(Comments.CommentStart), named)
      else Run(page, at, BogusComment, named)
  }

  function RunTag(page: seq<Byte>, at: nat, s: State, named: Named): seq<Script>
    requires at < |page| && Inside(page, s) && (s.InStartTag? || s.InEndTag?)
    decreases |page| - at, Rank(s, page[at]), 0
  {
    var b := page[at];
    match s
    case InStartTag(lt, tag, tally) =>
      var noted := Tags.Note(tag, b, Tags.BeginsName, tally);
      (match Tags.Step(tag, b, Tags.BeginsName)
       case Consume(next) => Run(page, at + 1, InStartTag(lt, next, noted), named)
       case Reconsume(next) => Run(page, at, InStartTag(lt, next, noted), named)
       case Close => Run(page, at + 1, Behind(page, lt, at + 1, noted.All(), named), named))
    case InEndTag(tag) =>
      (match Tags.Step(tag, b, Tags.BeginsName)
       case Consume(next) => Run(page, at + 1, InEndTag(next), named)
       case Reconsume(next) => Run(page, at, InEndTag(next), named)
       case Close => Run(page, at + 1, Data, named))
  }

  /** Raw text: only the end tag of its own element leaves it. */
  function RunRaw(page: seq<Byte>, at: nat, name: seq<Byte>, raw: RawState, named: Named): seq<Script>
    requires at < |page|
    decreases |page| - at, Rank(InRawText(name, raw), page[at]), 0
  {
    var b := page[at];
    match raw
    case Text => Run(page, at + 1, InRawText(name, if b == LT then LessThanSign else Text), named)
    case LessThanSign =>
      if b == SLASH then Run(page, at + 1, InRawText(name, EndTagOpen), named)
      else Run(page, at, InRawText(name, Text), named)
    case EndTagOpen => Run(page, at, InRawText(name, if IsAlpha(b) then EndTagName([]) else Text), named)
    case EndTagName(buffer) =>
      if T.EndsTagName(b) && buffer == name then Run(page, at, InEndTag(Tags.TagName), named)
      else if IsAlpha(b) then Run(page, at + 1, InRawText(name, EndTagName(buffer + [Lower(b)])), named)
      else Run(page, at, InRawText(name, Text), named)
  }

  // ----- each part by the machine of its own states -----

  lemma AtEndOfPage(page: seq<Byte>, at: nat, s: State, named: Named)
    requires at >= |page| && Inside(page, s) && !s.InScript?
    ensures Run(page, at, s, named) == []
  {
  }

  lemma {:induction false} CommentRun(page: seq<Byte>, at: nat, comment: Comments.State, named: Named)
    ensures Run(page, at, InComment(comment), named) == Run(page, Comments.Run(page, at, comment), Data, named)
    decreases |page| - at, Comments.Rank(comment)
  {
    if at < |page| {
      match Comments.Step(comment, page[at]) {
        case Consume(next) => CommentRun(page, at + 1, next, named);
        case Reconsume(next) => CommentRun(page, at, next, named);
        case Close =>
      }
    }
  }

  /** An end tag's attributes are read and dropped. */
  lemma {:induction false} EndTagRun(page: seq<Byte>, at: nat, tag: Tags.State, tally: Tags.Tally, named: Named)
    ensures var end := Tags.Run(page, at, tag, Tags.BeginsName, tally).end;
            Run(page, at, InEndTag(tag), named) == if end.Some? then Run(page, end.value, Data, named) else []
    decreases |page| - at, if at < |page| then Tags.Rank(tag, page[at]) else 0
  {
    if at < |page| {
      var noted := Tags.Note(tag, page[at], Tags.BeginsName, tally);
      match Tags.Step(tag, page[at], Tags.BeginsName) {
        case Consume(next) => EndTagRun(page, at + 1, next, noted, named);
        case Reconsume(next) => EndTagRun(page, at, next, noted, named);
        case Close =>
      }
    }
  }

  lemma {:induction false} StartTagRun(page: seq<Byte>, at: nat, lt: nat, tag: Tags.State, tally: Tags.Tally,
                                       named: Named)
    requires lt < |page|
    ensures var r := Tags.Run(page, at, tag, Tags.BeginsName, tally);
            Run(page, at, InStartTag(lt, tag, tally), named)
            == if r.end.Some?
               then Run(page, r.end.value, Behind(page, lt, r.end.value, r.attributes, named), named) else []
    decreases |page| - at, if at < |page| then Tags.Rank(tag, page[at]) else 0
  {
    if at < |page| {
      var noted := Tags.Note(tag, page[at], Tags.BeginsName, tally);
      match Tags.Step(tag, page[at], Tags.BeginsName) {
        case Consume(next) => StartTagRun(page, at + 1, lt, next, noted, named);
        case Reconsume(next) => StartTagRun(page, at, lt, next, noted, named);
        case Close =>
      }
    }
  }

  lemma {:induction false} BogusRun(page: seq<Byte>, at: nat, named: Named)
    ensures Run(page, at, BogusComment, named) == Run(page, Comments.Past(page, at, [GT]), Data, named)
    decreases |page| - at
  {
    if at < |page| {
      assert page[at..at + 1] == [page[at]];
      BogusRun(page, at + 1, named);
    } else {
      AtEndOfPage(page, Comments.Past(page, at, [GT]), Data, named);
    }
  }

  /** In the data state nothing happens before the next `<`. */
  lemma {:induction false} DataRun(page: seq<Byte>, p: nat, q: nat, named: Named)
    requires p <= q <= |page| && forall k :: p <= k < q ==> page[k] != LT
    ensures Run(page, p, Data, named) == Run(page, q, Data, named)
    decreases q - p
  {
    if p < q { DataRun(page, p + 1, q, named); }
  }

  // ----- end tags that leave raw text or a script -----

  lemma {:induction false} NameOfEndTag(page: seq<Byte>, p: nat, q: nat, named: Named)
    requires p <= q <= |page| && forall k :: p <= k < q ==> IsAlpha(page[k])
    ensures Run(page, p, InEndTag(Tags.TagName), named) == Run(page, q, InEndTag(Tags.TagName), named)
    decreases q - p
  {
    if p < q { NameOfEndTag(page, p + 1, q, named); }
  }

  /** From the `<` of an end tag, the data state comes to its name's end as the state that recognised it. */
  lemma EndTagFromData(page: seq<Byte>, lt: nat, q: nat, named: Named)
    requires lt + 2 < q <= |page| && page[lt] == LT && page[lt + 1] == SLASH
    requires forall k :: lt + 2 <= k < q ==> IsAlpha(page[k])
    ensures Run(page, lt, Data, named) == Run(page, q, InEndTag(Tags.TagName), named)
  {
    NameOfEndTag(page, lt + 2, q, named);
    assert Run(page, lt, Data, named) == Run(page, lt + 1, TagOpen(lt), named);
    assert Run(page, lt + 1, TagOpen(lt), named) == Run(page, lt + 2, InEndTagOpen, named);
    assert Run(page, lt + 2, InEndTagOpen, named) == Run(page, lt + 2, InEndTag(Tags.TagName), named);
  }

  lemma LettersOf(s: seq<Byte>, name: seq<Byte>)
    requires LowerAll(s) == name && forall k :: 0 <= k < |name| ==> IsAlpha(name[k])
    ensures |s| == |name| && forall k :: 0 <= k < |s| ==> IsAlpha(s[k])
  {
    forall k | 0 <= k < |s| ensures IsAlpha(s[k]) { assert name[k] == Lower(s[k]); }
  }

  /** The script-data states recognise an end tag behind the six letters of its name. */
  lemma RecognisedBehindName(page: seq<Byte>, from: nat, at: nat, script: T.State)
    requires from <= at < |page| && E.Remembers(page, from, at, script) && T.Step(script, page[at], at).EndTag?
    ensures var lt := script.lt;
            && T.Step(script, page[at], at) == T.EndTag(lt)
            && lt + 8 == at && page[lt] == LT && page[lt + 1] == SLASH
            && forall k :: lt + 2 <= k < at ==> IsAlpha(page[k])
  {
    LettersOf(page[script.lt + 2..at], T.SCRIPT);
    assert forall k :: script.lt + 2 <= k < at ==> page[k] == page[script.lt + 2..at][k - script.lt - 2];
  }

  lemma {:induction false} ScriptRun(page: seq<Byte>, from: nat, at: nat, start: nat, scope: Option<ScriptScope>,
                                     script: T.State, named: Named)
    requires from <= at && E.Remembers(page, from, at, script)
    ensures var o := T.Run(page, at, script);
            Run(page, at, InScript(start, scope, script), named)
            == if o.Recognised? && o.lt < |page| then [Script(start, o.lt, scope)] + Run(page, o.lt, Data, named)
               else [Script(start, |page|, scope)]
    ensures T.Run(page, at, script).Recognised? ==> T.Run(page, at, script).lt < |page|
    decreases |page| - at, T.Rank(script)
  {
    hide E.Remembers;
    if at < |page| {
      E.StepRemembers(page, from, at, script);
      match T.Step(script, page[at], at) {
        case Consume(next) => ScriptRun(page, from, at + 1, start, scope, next, named);
        case Reconsume(next) => ScriptRun(page, from, at, start, scope, next, named);
        case EndTag(lt) =>
          RecognisedBehindName(page, from, at, script);
          EndTagFromData(page, lt, at, named);
      }
    }
  }

  predicate IsLowerName(name: seq<Byte>) {
    name != [] && LowerAll(name) == name && forall k :: 0 <= k < |name| ==> IsAlpha(name[k])
  }

  lemma RawNames()
    ensures forall i :: 0 <= i < |RAW_TEXT_ELEMENTS| ==> IsLowerName(RAW_TEXT_ELEMENTS[i])
  {
  }

  /** The end-tag test, said of the whole run of letters behind `</`. */
  lemma EndTagByLetters(page: seq<Byte>, lt: nat, q: nat, name: seq<Byte>)
    requires StartsAt(page, lt, [LT, SLASH]) && q == E.LetterRun(page, lt + 2) && IsLowerName(name)
    ensures E.IsEndTag(page, lt, name)
            <==> LowerAll(page[lt + 2..q]) == name && (q < |page| ==> T.EndsTagName(page[q]))
  {
    if E.IsEndTag(page, lt, name) {
      var spelled := page[lt + 2..lt + 2 + |name|];
      LettersOf(spelled, name);
      assert forall k :: lt + 2 <= k < lt + 2 + |name| ==> page[k] == spelled[k - lt - 2];
      assert q == lt + 2 + |name|;
    }
  }

  lemma {:induction false} RawLetters(page: seq<Byte>, p: nat, q: nat, name: seq<Byte>, buffer: seq<Byte>, named: Named)
    requires p <= q <= |page| && forall k :: p <= k < q ==> IsAlpha(page[k])
    ensures Run(page, p, InRawText(name, EndTagName(buffer)), named)
            == Run(page, q, InRawText(name, EndTagName(buffer + LowerAll(page[p..q]))), named)
    decreases q - p
  {
    if p < q {
      RawLetters(page, p + 1, q, name, buffer + [Lower(page[p])], named);
      assert buffer + [Lower(page[p])] + LowerAll(page[p + 1..q]) == buffer + LowerAll(page[p..q]);
    } else {
      assert buffer + LowerAll(page[p..q]) == buffer;
    }
  }

  /** From the `<` of `</` and a letter, the run of letters decides. */
  lemma RawEndTag(page: seq<Byte>, lt: nat, q: nat, name: seq<Byte>, named: Named)
    requires IsLowerName(name) && StartsAt(page, lt, [LT, SLASH]) && q == E.LetterRun(page, lt + 2) && lt + 2 < q
    ensures Run(page, lt, InRawText(name, Text), named)
            == if E.IsEndTag(page, lt, name) then Run(page, lt, Data, named)
               else Run(page, q, InRawText(name, Text), named)
  {
    StartsAtBytes(page, lt, [LT, SLASH]);
    assert page[lt] == LT && page[lt + 1] == SLASH by { assert [LT, SLASH][1] == SLASH; }
    EndTagByLetters(page, lt, q, name);
    RawLetters(page, lt + 2, q, name, [], named);
    assert [] + LowerAll(page[lt + 2..q]) == LowerAll(page[lt + 2..q]);
    EndTagFromData(page, lt, q, named);
    assert Run(page, lt + 1, InRawText(name, LessThanSign), named)
        == Run(page, lt + 2, InRawText(name, EndTagOpen), named);
    hide E.IsEndTag, E.LetterRun;
    AtTheLettersEnd(page, q, name, LowerAll(page[lt + 2..q]), named);
  }

  lemma AtTheLettersEnd(page: seq<Byte>, q: nat, name: seq<Byte>, buffer: seq<Byte>, named: Named)
    requires q <= |page| && (q < |page| ==> !IsAlpha(page[q]))
    ensures Run(page, q, InRawText(name, EndTagName(buffer)), named)
            == if q < |page| && T.EndsTagName(page[q]) && buffer == name
               then Run(page, q, InEndTag(Tags.TagName), named)
               else Run(page, q, InRawText(name, Text), named)
    ensures q == |page| ==> Run(page, q, InEndTag(Tags.TagName), named) == []
    ensures q == |page| ==> Run(page, q, InRawText(name, Text), named) == []
  {
  }

  /** A `<` that is not followed by `/` and a letter is text. */
  lemma RawLess(page: seq<Byte>, lt: nat, name: seq<Byte>, named: Named)
    requires lt < |page| && page[lt] == LT
    requires !(lt + 2 < |page| && page[lt + 1] == SLASH && IsAlpha(page[lt + 2]))
    ensures var next := if lt + 1 < |page| && page[lt + 1] == SLASH then lt + 2 else lt + 1;
            Run(page, lt, InRawText(name, Text), named) == Run(page, next, InRawText(name, Text), named)
  {
    assert Run(page, lt, InRawText(name, Text), named) == Run(page, lt + 1, InRawText(name, LessThanSign), named);
    if lt + 1 < |page| && page[lt + 1] == SLASH {
      assert Run(page, lt + 1, InRawText(name, LessThanSign), named)
             == Run(page, lt + 2, InRawText(name, EndTagOpen), named);
      assert Run(page, lt + 2, InRawText(name, EndTagOpen), named) == Run(page, lt + 2, InRawText(name, Text), named);
    } else {
      assert Run(page, lt + 1, InRawText(name, LessThanSign), named) == Run(page, lt + 1, InRawText(name, Text), named);
    }
  }

  lemma EndTagOpens(page: seq<Byte>, k: nat, name: seq<Byte>)
    requires IsLowerName(name)
    ensures E.IsEndTag(page, k, name) ==>
              k + 2 < |page| && page[k] == LT && page[k + 1] == SLASH && IsAlpha(page[k + 2])
  {
    if E.IsEndTag(page, k, name) {
      StartsAtBytes(page, k, [LT, SLASH]);
      assert page[k + 0] == [LT, SLASH][0] && page[k + 1] == [LT, SLASH][1];
      LettersOf(page[k + 2..k + 2 + |name|], name);
      assert page[k + 2..k + 2 + |name|][0] == page[k + 2];
    }
  }

  /** Raw text goes on to its own end tag, which the data state then reads; an end tag the page cuts off is nothing. */
  lemma {:induction false} RawRun(page: seq<Byte>, at: nat, name: seq<Byte>, named: Named)
    requires IsLowerName(name)
    ensures var end := FirstEndTag(page, at, name);
            Run(page, at, InRawText(name, Text), named) == if end.Some? then Run(page, end.value, Data, named) else []
    decreases |page| - at
  {
    hide E.IsEndTag;
    if at >= |page| {
      PastThePage(page, at, name);
    } else if at + 2 < |page| && page[at] == LT && page[at + 1] == SLASH && IsAlpha(page[at + 2]) {
      var q := E.LetterRun(page, at + 2);
      assert page[at..at + 2] == [LT, SLASH];
      RawEndTag(page, at, q, name, named);
      AtAnEndTag(page, at, name);
      if !E.IsEndTag(page, at, name) {
        forall k | at < k < q ensures !E.IsEndTag(page, k, name) { EndTagOpens(page, k, name); }
        NoEndTagBetween(page, at, q, name);
        RawRun(page, q, name, named);
      }
    } else {
      var next := if page[at] == LT && at + 1 < |page| && page[at + 1] == SLASH then at + 2 else at + 1;
      if page[at] == LT { RawLess(page, at, name, named); }
      forall k | at <= k < next ensures !E.IsEndTag(page, k, name) { EndTagOpens(page, k, name); }
      NoEndTagBetween(page, at, next, name);
      RawRun(page, next, name, named);
    }
  }
}
