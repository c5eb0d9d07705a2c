/**
 The scope that the `type` and `language` attributes of a tag give its script: `script_scope`, and the
 type that "prepare the script element" in section 4.12.1.1 of the HTML Standard gives the element.

 The two read different attributes. Of several with one name the standard keeps the first, the source
 the last; to an attribute without a value the standard gives the empty one, the source none; and in
 a value the standard decodes character references, the source does not.
 */
module Attributes {
  import opened Bytes
  import opened References

  /** An attribute as it is written, its name in lower case; `None` when no `=` follows the name. */
  datatype Attribute = Attribute(name: seq<Byte>, value: Option<seq<Byte>>)

  datatype ScriptScope = Classic | Module

  const TYPE: seq<Byte> := [0x74, 0x79, 0x70, 0x65]
  const LANGUAGE: seq<Byte> := [0x6C, 0x61, 0x6E, 0x67, 0x75, 0x61, 0x67, 0x65]

  /** `text/`, and `text/javascript` */
  const TEXT: seq<Byte> := [0x74, 0x65, 0x78, 0x74, 0x2F]
  const TEXT_JAVASCRIPT: seq<Byte> :=
    TEXT + [0x6A, 0x61, 0x76, 0x61, 0x73, 0x63, 0x72, 0x69, 0x70, 0x74]

  /** `module` */
  const MODULE: seq<Byte> := [0x6D, 0x6F, 0x64, 0x75, 0x6C, 0x65]

  const JAVASCRIPT_TYPES: seq<string> := [
    "application/ecmascript",
    "application/javascript",
    "application/x-ecmascript",
    "application/x-javascript",
    "text/ecmascript",
    "text/javascript",
    "text/javascript1.0",
    "text/javascript1.1",
    "text/javascript1.2",
    "text/javascript1.3",
    "text/javascript1.4",
    "text/javascript1.5",
    "text/jscript",
    "text/livescript",
    "text/x-ecmascript",
    "text/x-javascript"
  ]

  /** ASCII bytes as text; any other byte becomes a character no script type has. */
  function Characters(s: seq<Byte>): (r: string)
    ensures |r| == |s|
  {
    seq(|s|, i requires 0 <= i < |s| => s[i] as char)
  }

  function TrimBack(s: seq<Byte>): seq<Byte> {
    if s != [] && IsSpace(s[|s| - 1]) then TrimBack(s[..|s| - 1]) else s
  }

  function Trim(s: seq<Byte>): seq<Byte> {
    TrimBack(TrimFront(s))
  }

  lemma {:induction false} TrimsBack(s: seq<Byte>) returns (behind: seq<Byte>)
    ensures s == TrimBack(s) + behind && AllSpaces(behind)
    ensures TrimBack(s) != [] ==> !IsSpace(TrimBack(s)[|TrimBack(s)| - 1])
    decreases |s|
  {
    behind := [];
    if s != [] && IsSpace(s[|s| - 1]) {
      var others := TrimsBack(s[..|s| - 1]);
      behind := others + [s[|s| - 1]];
    }
  }

  /** What is left of a text between blanks begins and ends with none. */
  lemma TrimIs(s: seq<Byte>) returns (before: seq<Byte>, behind: seq<Byte>)
    ensures var t := Trim(s);
            && s == before + t + behind && AllSpaces(before) && AllSpaces(behind)
            && (t != [] ==> !IsSpace(t[0]) && !IsSpace(t[|t| - 1]))
  {
    before := TrimsFront(s);
    behind := TrimsBack(TrimFront(s));
    var front, t := TrimFront(s), Trim(s);
    assert front == t + behind;
    if t != [] { assert front[0] == t[0]; }
  }

  /** What a type string in lower case says. */
  function Runs(typeString: seq<Byte>): Option<ScriptScope> {
    if Characters(typeString) in JAVASCRIPT_TYPES then Some(Classic)
    else if typeString == MODULE then Some(Module)
    else None
  }

  // ----- the source -----

  /** The value of the last attribute of the name that has one, in lower case. */
  function LastValued(attributes: seq<Attribute>, name: seq<Byte>): Option<seq<Byte>> {
    if attributes == [] then None
    else
      var last := attributes[|attributes| - 1];
      if last.name == name && last.value.Some? then Some(LowerAll(last.value.value))
      else LastValued(attributes[..|attributes| - 1], name)
  }

  /** `script_scope`: `None` is a data block. */
  function Scope(kind: Option<seq<Byte>>, language: Option<seq<Byte>>): Option<ScriptScope> {
    if kind == Some([]) || (kind.None? && (language.None? || language == Some([]))) then Some(Classic)
    else if kind.Some? then Runs(Trim(kind.value))
    else Runs(TEXT + language.value)
  }

  function ScopeOf(attributes: seq<Attribute>): Option<ScriptScope> {
    Scope(LastValued(attributes, TYPE), LastValued(attributes, LANGUAGE))
  }

  // ----- the standard -----

  function FirstNamed(attributes: seq<Attribute>, name: seq<Byte>): (first: Option<nat>)
    ensures first.Some? ==> first.value < |attributes| && attributes[first.value].name == name
    ensures first.Some? ==> forall k :: 0 <= k < first.value ==> attributes[k].name != name
    ensures first.None? ==> forall k :: 0 <= k < |attributes| ==> attributes[k].name != name
  {
    if attributes == [] then None
    else if attributes[0].name == name then Some(0)
    else match FirstNamed(attributes[1..], name) case Some(k) => Some(k + 1) case None => None
  }

  /** The element's attribute: the first of that name, decoded, empty when it was given no value. */
  function ElementValue(attributes: seq<Attribute>, name: seq<Byte>, named: Named): Option<seq<Byte>> {
    match FirstNamed(attributes, name)
    case None => None
    case Some(k) =>
      Some(if attributes[k].value.Some? then Decode(attributes[k].value.value, named) else [])
  }

  /** The script block's type string. */
  function TypeString(attributes: seq<Attribute>, named: Named): seq<Byte> {
    var kind, language := ElementValue(attributes, TYPE, named), ElementValue(attributes, LANGUAGE, named);
    if kind == Some([]) then TEXT_JAVASCRIPT
    else if kind.Some? then Trim(kind.value)
    else if language.Some? && language != Some([]) then TEXT + language.value
    else TEXT_JAVASCRIPT
  }

  /** The element's scope: its type string, compared in any case. */
  function StandardScope(attributes: seq<Attribute>, named: Named): Option<ScriptScope> {
    Runs(LowerAll(TypeString(attributes, named)))
  }

  // ----- where they agree -----

  /** No attribute of the name has a value but the first of them. */
  predicate OnlyFirstValued(attributes: seq<Attribute>, name: seq<Byte>) {
    forall k :: 0 <= k < |attributes| && attributes[k].name == name && attributes[k].value.Some?
           ==> FirstNamed(attributes, name) == Some(k)
  }

  predicate HasValue(attributes: seq<Attribute>, name: seq<Byte>) {
    exists k :: 0 <= k < |attributes| && attributes[k].name == name && attributes[k].value.Some?
  }

  /** Whatever the values are, both read the same ones: seen from which attributes are given, and which with a value. */
  predicate Unambiguous(attributes: seq<Attribute>) {
    && OnlyFirstValued(attributes, TYPE)
    && (FirstNamed(attributes, TYPE).None? ==> OnlyFirstValued(attributes, LANGUAGE))
    && (FirstNamed(attributes, TYPE).Some? && !HasValue(attributes, TYPE) ==> !HasValue(attributes, LANGUAGE))
  }

  predicate NoAmpersand(attributes: seq<Attribute>, name: seq<Byte>) {
    forall k :: 0 <= k < |attributes| && attributes[k].name == name && attributes[k].value.Some?
           ==> AMP !in attributes[k].value.value
  }

  /** No `&` is in a value of the attribute that decides: `type` where it is given, else `language`. */
  predicate Plain(attributes: seq<Attribute>) {
    NoAmpersand(attributes, if FirstNamed(attributes, TYPE).Some? then TYPE else LANGUAGE)
  }

  /** The same attributes, those with a value perhaps with another one, an `&` in it where one was. */
  predicate SameShape(a: seq<Attribute>, b: seq<Attribute>) {
    |a| == |b| && forall k :: 0 <= k < |a| ==> LikeShaped(a[k], b[k])
  }

  predicate LikeShaped(x: Attribute, y: Attribute) {
    && x.name == y.name && x.value.Some? == y.value.Some?
    && (x.value.Some? ==> (AMP in x.value.value <==> AMP in y.value.value))
  }

  lemma {:induction false} LastValuedIs(attributes: seq<Attribute>, name: seq<Byte>, k: nat)
    requires k < |attributes| && attributes[k].name == name && attributes[k].value.Some?
    requires forall j :: k < j < |attributes| && attributes[j].name == name ==> attributes[j].value.None?
    ensures LastValued(attributes, name) == Some(LowerAll(attributes[k].value.value))
    decreases |attributes|
  {
    if k < |attributes| - 1 { LastValuedIs(attributes[..|attributes| - 1], name, k); }
  }

  lemma {:induction false} NoneValued(attributes: seq<Attribute>, name: seq<Byte>)
    requires !HasValue(attributes, name)
    ensures LastValued(attributes, name) == None
    decreases |attributes|
  {
    if attributes != [] {
      var front := attributes[..|attributes| - 1];
      assert forall k :: 0 <= k < |front| ==> front[k] == attributes[k];
      NoneValued(front, name);
    }
  }

  /** When only the first is given a value, it is the one the source keeps, and without an `&` no other text. */
  lemma SameValue(attributes: seq<Attribute>, name: seq<Byte>, named: Named)
    requires OnlyFirstValued(attributes, name) && NoAmpersand(attributes, name)
    ensures var kept, given := LastValued(attributes, name), ElementValue(attributes, name, named);
            if HasValue(attributes, name) then given.Some? && kept == Some(LowerAll(given.value))
            else kept == None && given == if FirstNamed(attributes, name).Some? then Some([]) else None
  {
    hide Decode;
    if HasValue(attributes, name) {
      var k :| 0 <= k < |attributes| && attributes[k].name == name && attributes[k].value.Some?;
      LastValuedIs(attributes, name, k);
      PlainIsItself(attributes[k].value.value, named);
    } else {
      NoneValued(attributes, name);
    }
  }

  lemma {:induction false} TrimFrontLowers(s: seq<Byte>)
    ensures TrimFront(LowerAll(s)) == LowerAll(TrimFront(s))
    decreases |s|
  {
    if s != [] {
      assert LowerAll(s)[1..] == LowerAll(s[1..]);
      TrimFrontLowers(s[1..]);
    }
  }

  lemma {:induction false} TrimBackLowers(s: seq<Byte>)
    ensures TrimBack(LowerAll(s)) == LowerAll(TrimBack(s))
    decreases |s|
  {
    if s != [] {
      assert LowerAll(s)[..|s| - 1] == LowerAll(s[..|s| - 1]);
      TrimBackLowers(s[..|s| - 1]);
    }
  }

  lemma TypeStringLowers(kind: seq<Byte>, language: seq<Byte>)
    ensures Trim(LowerAll(kind)) == LowerAll(Trim(kind))
    ensures TEXT + LowerAll(language) == LowerAll(TEXT + language)
  {
    TrimFrontLowers(kind);
    TrimBackLowers(TrimFront(kind));
    assert LowerAll(TEXT) == TEXT;
  }

  lemma JavaScriptRuns()
    ensures Runs(LowerAll(TEXT_JAVASCRIPT)) == Some(Classic)
  {
    assert LowerAll(TEXT_JAVASCRIPT) == TEXT_JAVASCRIPT;
    assert Characters(TEXT_JAVASCRIPT) == "text/javascript" == JAVASCRIPT_TYPES[5];
  }

  /** On unambiguous attributes without an `&` the source gives a script the scope the standard gives it. */
  lemma PlainAgrees(attributes: seq<Attribute>, named: Named)
    requires Unambiguous(attributes) && Plain(attributes)
    ensures ScopeOf(attributes) == StandardScope(attributes, named)
  {
    hide LastValued, FirstNamed, OnlyFirstValued, HasValue, NoAmpersand, Runs, Trim, Decode;
    JavaScriptRuns();
    if FirstNamed(attributes, TYPE).Some? {
      SameValue(attributes, TYPE, named);
      if HasValue(attributes, TYPE) {
        TypeStringLowers(ElementValue(attributes, TYPE, named).value, []);
      } else {
        NoneValued(attributes, LANGUAGE);
      }
    } else {
      NoneNamed(attributes, TYPE);
      SameValue(attributes, LANGUAGE, named);
      if HasValue(attributes, LANGUAGE) { TypeStringLowers([], ElementValue(attributes, LANGUAGE, named).value); }
    }
  }

  lemma NoneNamed(attributes: seq<Attribute>, name: seq<Byte>)
    requires FirstNamed(attributes, name).None?
    ensures LastValued(attributes, name) == None
  {
    hide FirstNamed;
    NoneValued(attributes, name);
  }

  // ----- where they part -----

  lemma {:induction false} TrimKeeps(s: seq<Byte>, b: Byte)
    requires b in s && !IsSpace(b)
    ensures b in TrimFront(s) && b in TrimBack(s)
    decreases |s|
  {
    if IsSpace(s[0]) {
      assert s == [s[0]] + s[1..];
      TrimKeeps(s[1..], b);
    }
    if IsSpace(s[|s| - 1]) {
      assert s == s[..|s| - 1] + [s[|s| - 1]];
      TrimKeeps(s[..|s| - 1], b);
    }
  }

  /** No script type has an `&`. */
  lemma AmpersandIsNoScript(typeString: seq<Byte>)
    requires AMP in typeString
    ensures Runs(typeString) == None
  {
    var k :| 0 <= k < |typeString| && typeString[k] == AMP;
    assert Characters(typeString)[k] == '&';
    NoTypeHasAmpersand();
    assert AMP !in MODULE;
  }

  lemma NoTypeHasAmpersand()
    ensures forall i :: 0 <= i < |JAVASCRIPT_TYPES| ==> '&' !in JAVASCRIPT_TYPES[i]
  {
  }

  /** With an `&` in the value that decides the source always takes the script for data. */
  lemma AmpersandIsData(attributes: seq<Attribute>)
    requires Unambiguous(attributes) && !Plain(attributes)
    ensures ScopeOf(attributes) == None
  {
    hide FirstNamed, Runs, Trim;
    var name := if FirstNamed(attributes, TYPE).Some? then TYPE else LANGUAGE;
    var k :| 0 <= k < |attributes| && attributes[k].name == name && attributes[k].value.Some?
             && AMP in attributes[k].value.value;
    LastValuedIs(attributes, name, k);
    var value := attributes[k].value.value;
    AmpersandStays(value);
    if name == LANGUAGE { NoneNamed(attributes, TYPE); }
  }

  lemma AmpersandStays(value: seq<Byte>)
    requires AMP in value
    ensures LowerAll(value) != [] && Runs(Trim(LowerAll(value))) == None && Runs(TEXT + LowerAll(value)) == None
  {
    hide Runs;
    var k :| 0 <= k < |value| && value[k] == AMP;
    var lowered := LowerAll(value);
    assert lowered[k] == AMP;
    TrimKeeps(lowered, AMP);
    TrimKeeps(TrimFront(lowered), AMP);
    AmpersandIsNoScript(Trim(lowered));
    assert (TEXT + lowered)[|TEXT| + k] == AMP;
    AmpersandIsNoScript(TEXT + lowered);
  }

  /** So there it agrees only where the standard, having decoded the value, takes it for data as well. */
  lemma ScopeOfUnambiguous(attributes: seq<Attribute>, named: Named)
    requires Unambiguous(attributes)
    ensures ScopeOf(attributes) == StandardScope(attributes, named)
            <==> Plain(attributes) || StandardScope(attributes, named) == None
  {
    hide Unambiguous, Plain, ScopeOf, StandardScope;
    if Plain(attributes) { PlainAgrees(attributes, named); } else { AmpersandIsData(attributes); }
  }

  function WithValue(attributes: seq<Attribute>, k: nat, value: seq<Byte>): seq<Attribute>
    requires k < |attributes|
  {
    attributes[k := attributes[k].(value := Some(value))]
  }

  lemma LastWithValue(attributes: seq<Attribute>, name: seq<Byte>) returns (k: nat)
    requires HasValue(attributes, name)
    ensures k < |attributes| && attributes[k].name == name && attributes[k].value.Some?
    ensures forall j :: k < j < |attributes| && attributes[j].name == name ==> attributes[j].value.None?
  {
    k := |attributes| - 1;
    while attributes[k].name != name || attributes[k].value.None?
      invariant k < |attributes|
      invariant exists j :: 0 <= j <= k && attributes[j].name == name && attributes[j].value.Some?
      invariant forall j :: k < j < |attributes| && attributes[j].name == name ==> attributes[j].value.None?
      decreases k
    {
      k := k - 1;
    }
  }

  lemma ShapeKeepsTheFirst(a: seq<Attribute>, b: seq<Attribute>, name: seq<Byte>)
    requires SameShape(a, b)
    ensures FirstNamed(a, name) == FirstNamed(b, name) && HasValue(a, name) == HasValue(b, name)
    ensures OnlyFirstValued(a, name) == OnlyFirstValued(b, name)
    ensures NoAmpersand(a, name) == NoAmpersand(b, name)
  {
    hide FirstNamed;
  }

  /** `&#109;odule` and `&#106;avascript` */
  const CODED_MODULE: seq<Byte> := [AMP, HASH, 0x31, 0x30, 0x39, SEMICOLON] + MODULE[1..]
  const CODED_JAVASCRIPT: seq<Byte> := [AMP, HASH, 0x31, 0x30, 0x36, SEMICOLON] + TEXT_JAVASCRIPT[|TEXT| + 1..]

  lemma CodedDecodes(named: Named)
    ensures Decode(CODED_MODULE, named) == Decode(MODULE, named) == MODULE
    ensures var script := TEXT_JAVASCRIPT[|TEXT|..]; Decode(CODED_JAVASCRIPT, named) == Decode(script, named) == script
  {
    LetterDecodes(0x39, MODULE[1..], named);
    LetterDecodes(0x36, TEXT_JAVASCRIPT[|TEXT| + 1..], named);
    PlainIsItself(MODULE, named);
    PlainIsItself(TEXT_JAVASCRIPT[|TEXT|..], named);
    assert MODULE == [0x6D] + MODULE[1..];
  }

  /** The value at `k` made `plain`, or `coded` where it has an `&`. */
  function Rewritten(attributes: seq<Attribute>, k: nat, plain: seq<Byte>, coded: seq<Byte>): seq<Attribute>
    requires k < |attributes| && attributes[k].value.Some?
  {
    WithValue(attributes, k, if AMP in attributes[k].value.value then coded else plain)
  }

  lemma TextModuleIsNoScript()
    ensures Runs(TEXT + MODULE) == None
    ensures Runs(MODULE) == Some(Module)
    ensures LowerAll(MODULE) == MODULE && Trim(MODULE) == MODULE
  {
    assert Characters(TEXT + MODULE) == "text/module";
    assert Characters(MODULE) == "module";
  }

  /** With other values in the same places the source's scope is not the standard's. */
  ghost predicate CanDiffer(attributes: seq<Attribute>, named: Named) {
    exists other :: SameShape(attributes, other) && ScopeOf(other) != StandardScope(other, named)
  }

  lemma RewrittenShape(attributes: seq<Attribute>, k: nat, plain: seq<Byte>, coded: seq<Byte>)
    requires k < |attributes| && attributes[k].value.Some? && AMP !in plain && AMP in coded
    ensures SameShape(attributes, Rewritten(attributes, k, plain, coded))
  {
  }

  lemma ShapeIsTransitive(a: seq<Attribute>, b: seq<Attribute>, c: seq<Attribute>)
    requires SameShape(a, b) && SameShape(b, c)
    ensures SameShape(a, c)
  {
  }

  lemma CodedHasAmpersand()
    ensures AMP in CODED_MODULE && AMP in CODED_JAVASCRIPT
    ensures AMP !in MODULE && AMP !in TEXT_JAVASCRIPT && AMP !in TEXT_JAVASCRIPT[|TEXT|..]
  {
    assert CODED_MODULE[0] == AMP && CODED_JAVASCRIPT[0] == AMP;
  }

  /** What the source makes of the values used below. */
  lemma SourceReads(value: seq<Byte>)
    requires value == MODULE || value == TEXT_JAVASCRIPT || value == CODED_MODULE || value == CODED_JAVASCRIPT
    ensures var lowered := LowerAll(value);
            && lowered != []
            && Runs(Trim(lowered)) == (if value == MODULE then Some(Module)
                                       else if value == TEXT_JAVASCRIPT then Some(Classic) else None)
            && (value != TEXT_JAVASCRIPT ==> Runs(TEXT + lowered) == None)
  {
    hide Runs, Trim;
    TextModuleIsNoScript();
    JavaScriptRuns();
    JavaScriptIsTrimmed();
    CodedHasAmpersand();
    if AMP in value { AmpersandStays(value); }
  }

  lemma JavaScriptIsTrimmed()
    ensures LowerAll(TEXT_JAVASCRIPT) == TEXT_JAVASCRIPT && Trim(TEXT_JAVASCRIPT) == TEXT_JAVASCRIPT
  {
  }

  lemma JavaScriptIsALanguage()
    ensures TEXT + TEXT_JAVASCRIPT[|TEXT|..] == TEXT_JAVASCRIPT && TEXT_JAVASCRIPT[|TEXT|..] != []
  {
  }

  predicate IsLastValued(attributes: seq<Attribute>, name: seq<Byte>, k: nat) {
    && k < |attributes| && attributes[k].name == name && attributes[k].value.Some?
    && forall j :: k < j < |attributes| && attributes[j].name == name ==> attributes[j].value.None?
  }

  lemma SourceByType(attributes: seq<Attribute>, k: nat)
    requires IsLastValued(attributes, TYPE, k)
    ensures var lowered := LowerAll(attributes[k].value.value);
            lowered != [] ==> ScopeOf(attributes) == Runs(Trim(lowered))
  {
    hide Runs, Trim;
    LastValuedIs(attributes, TYPE, k);
  }

  lemma SourceByLanguage(attributes: seq<Attribute>, k: nat)
    requires !HasValue(attributes, TYPE) && IsLastValued(attributes, LANGUAGE, k)
    ensures var lowered := LowerAll(attributes[k].value.value);
            lowered != [] ==> ScopeOf(attributes) == Runs(TEXT + lowered)
  {
    hide Runs;
    NoneValued(attributes, TYPE);
    LastValuedIs(attributes, LANGUAGE, k);
  }

  lemma StandardByType(attributes: seq<Attribute>, named: Named, k: nat)
    requires FirstNamed(attributes, TYPE) == Some(k)
    ensures var value := attributes[k].value;
            StandardScope(attributes, named)
            == if value.None? || Decode(value.value, named) == [] then Some(Classic)
               else Runs(LowerAll(Trim(Decode(value.value, named))))
  {
    hide Runs, Trim, Decode, FirstNamed;
    JavaScriptRuns();
  }

  lemma StandardByLanguage(attributes: seq<Attribute>, named: Named, k: nat)
    requires FirstNamed(attributes, TYPE) == None && FirstNamed(attributes, LANGUAGE) == Some(k)
    ensures var value := attributes[k].value;
            StandardScope(attributes, named)
            == if value.None? || Decode(value.value, named) == [] then Some(Classic)
               else Runs(LowerAll(TEXT + Decode(value.value, named)))
  {
    hide Runs, Decode, FirstNamed;
    JavaScriptRuns();
  }

  /** A second `type`: of a module and a classic script the source takes one, the standard the other. */
  lemma TypesDiffer(attributes: seq<Attribute>, named: Named)
    requires !OnlyFirstValued(attributes, TYPE)
    ensures CanDiffer(attributes, named)
  {
    hide FirstNamed, Runs, Trim, Decode, OnlyFirstValued, ScopeOf, StandardScope;
    TextModuleIsNoScript();
    CodedDecodes(named);
    CodedHasAmpersand();
    AmbiguousTwice(attributes, TYPE);
    var f := FirstNamed(attributes, TYPE).value;
    var l := LastWithValue(attributes, TYPE);
    var other := Rewritten(attributes, l, MODULE, CODED_MODULE);
    RewrittenShape(attributes, l, MODULE, CODED_MODULE);
    if attributes[f].value.Some? {
      var first := Rewritten(attributes, f, MODULE, CODED_MODULE);
      RewrittenShape(attributes, f, MODULE, CODED_MODULE);
      other := Rewritten(first, l, TEXT_JAVASCRIPT, CODED_MODULE);
      RewrittenShape(first, l, TEXT_JAVASCRIPT, CODED_MODULE);
      ShapeIsTransitive(attributes, first, other);
    }
    ShapeKeepsTheFirst(attributes, other, TYPE);
    SourceByType(other, l);
    StandardByType(other, named, f);
    SourceReads(other[l].value.value);
    assert SameShape(attributes, other) && ScopeOf(other) != StandardScope(other, named);
  }

  /** A `type` without a value is the empty type to the standard, and no type to the source. */
  lemma EmptyTypeDiffers(attributes: seq<Attribute>, named: Named)
    requires FirstNamed(attributes, TYPE).Some? && !HasValue(attributes, TYPE) && HasValue(attributes, LANGUAGE)
    ensures CanDiffer(attributes, named)
  {
    hide FirstNamed, Runs, Trim, Decode, ScopeOf, StandardScope;
    CodedHasAmpersand();
    var l := LastWithValue(attributes, LANGUAGE);
    var other := Rewritten(attributes, l, MODULE, CODED_MODULE);
    RewrittenShape(attributes, l, MODULE, CODED_MODULE);
    ShapeKeepsTheFirst(attributes, other, TYPE);
    SourceByLanguage(other, l);
    StandardByType(other, named, FirstNamed(other, TYPE).value);
    SourceReads(other[l].value.value);
    assert SameShape(attributes, other) && ScopeOf(other) != StandardScope(other, named);
  }

  /** Some attribute of the name has a value behind the first of them. */
  lemma AmbiguousTwice(attributes: seq<Attribute>, name: seq<Byte>)
    requires !OnlyFirstValued(attributes, name)
    ensures FirstNamed(attributes, name).Some? && HasValue(attributes, name)
    ensures exists k :: FirstNamed(attributes, name).value < k < |attributes|
                        && attributes[k].name == name && attributes[k].value.Some?
  {
    hide FirstNamed;
  }

  /** Without a `type`, a second `language`: one names a script, the other none. */
  lemma LanguagesDiffer(attributes: seq<Attribute>, named: Named)
    requires FirstNamed(attributes, TYPE).None? && !OnlyFirstValued(attributes, LANGUAGE)
    ensures CanDiffer(attributes, named)
  {
    hide FirstNamed, Runs, Trim, OnlyFirstValued, Decode, ScopeOf, StandardScope;
    JavaScriptRuns();
    JavaScriptIsALanguage();
    CodedDecodes(named);
    CodedHasAmpersand();
    AmbiguousTwice(attributes, LANGUAGE);
    var f := FirstNamed(attributes, LANGUAGE).value;
    var l := LastWithValue(attributes, LANGUAGE);
    var last := Rewritten(attributes, l, MODULE, CODED_MODULE);
    RewrittenShape(attributes, l, MODULE, CODED_MODULE);
    var other := last;
    if attributes[f].value.Some? {
      other := Rewritten(last, f, TEXT_JAVASCRIPT[|TEXT|..], CODED_JAVASCRIPT);
      RewrittenShape(last, f, TEXT_JAVASCRIPT[|TEXT|..], CODED_JAVASCRIPT);
      ShapeIsTransitive(attributes, last, other);
    }
    ShapeKeepsTheFirst(attributes, other, TYPE);
    ShapeKeepsTheFirst(attributes, other, LANGUAGE);
    SourceByLanguage(other, l);
    StandardByLanguage(other, named, f);
    SourceReads(other[l].value.value);
    assert SameShape(attributes, other) && ScopeOf(other) != StandardScope(other, named);
  }

  /** With an `&` in the value that decides: a reference to a letter of a script type. */
  lemma ReferenceDiffers(attributes: seq<Attribute>, named: Named)
    requires Unambiguous(attributes) && !Plain(attributes)
    ensures CanDiffer(attributes, named)
  {
    hide FirstNamed, CanDiffer;
    var name := if FirstNamed(attributes, TYPE).Some? then TYPE else LANGUAGE;
    var k :| 0 <= k < |attributes| && attributes[k].name == name && attributes[k].value.Some?
             && AMP in attributes[k].value.value;
    if name == TYPE {
      TypeReferenceDiffers(attributes, named, k);
    } else {
      LanguageReferenceDiffers(attributes, named, k);
    }
  }

  lemma TypeReferenceDiffers(attributes: seq<Attribute>, named: Named, k: nat)
    requires FirstNamed(attributes, TYPE) == Some(k) && IsLastValued(attributes, TYPE, k)
    requires AMP in attributes[k].value.value
    ensures CanDiffer(attributes, named)
  {
    hide FirstNamed, Runs, Trim, Decode, ScopeOf, StandardScope;
    TextModuleIsNoScript();
    CodedDecodes(named);
    CodedHasAmpersand();
    var other := WithValue(attributes, k, CODED_MODULE);
    assert SameShape(attributes, other);
    ShapeKeepsTheFirst(attributes, other, TYPE);
    SourceReads(CODED_MODULE);
    SourceByType(other, k);
    StandardByType(other, named, k);
  }

  lemma LanguageReferenceDiffers(attributes: seq<Attribute>, named: Named, k: nat)
    requires FirstNamed(attributes, TYPE) == None
    requires FirstNamed(attributes, LANGUAGE) == Some(k) && IsLastValued(attributes, LANGUAGE, k)
    requires AMP in attributes[k].value.value
    ensures CanDiffer(attributes, named)
  {
    hide FirstNamed, Runs, Trim, Decode, ScopeOf, StandardScope;
    JavaScriptRuns();
    JavaScriptIsALanguage();
    CodedDecodes(named);
    CodedHasAmpersand();
    var other := WithValue(attributes, k, CODED_JAVASCRIPT);
    assert SameShape(attributes, other);
    ShapeKeepsTheFirst(attributes, other, TYPE);
    ShapeKeepsTheFirst(attributes, other, LANGUAGE);
    SourceReads(CODED_JAVASCRIPT);
    SourceByLanguage(other, k);
    StandardByLanguage(other, named, k);
  }

  /**
   The source's scope is the standard's, whatever values of their shape the attributes have, exactly
   when they are unambiguous and the value that decides has no `&`.
   */
  lemma ScopeIsTheStandards(attributes: seq<Attribute>, named: Named)
    ensures Unambiguous(attributes) && Plain(attributes)
            <==> forall other :: SameShape(attributes, other) ==> ScopeOf(other) == StandardScope(other, named)
  {
    hide ScopeOf, StandardScope, SameShape, OnlyFirstValued, FirstNamed, HasValue, NoAmpersand;
    if Unambiguous(attributes) && Plain(attributes) {
      forall other | SameShape(attributes, other) ensures ScopeOf(other) == StandardScope(other, named) {
        ShapeKeepsTheFirst(attributes, other, TYPE);
        ShapeKeepsTheFirst(attributes, other, LANGUAGE);
        PlainAgrees(other, named);
      }
    } else if Unambiguous(attributes) {
      ReferenceDiffers(attributes, named);
    } else if !OnlyFirstValued(attributes, TYPE) {
      TypesDiffer(attributes, named);
    } else if FirstNamed(attributes, TYPE).Some? {
      EmptyTypeDiffers(attributes, named);
    } else {
      LanguagesDiffer(attributes, named);
    }
  }
}
