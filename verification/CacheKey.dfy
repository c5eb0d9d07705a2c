/**
 The bytes hashed for a cache key, and that nothing else hashes the same bytes: the variant text
 reads back to its fields because quoted strings end where they say, and the key's bytes split at
 their zero bytes because quoting leaves none in the variant.

 `printable` is the standard library's table of characters that `{:?}` prints as they are.
 */
module CacheKey {
  import opened Bytes
  import opened Utf8

  // ----- `{:?}` of a string -----

  function HexDigit(d: nat): char
    requires d < 16
  {
    "0123456789abcdef"[d]
  }

  function Hex(n: nat): (s: string)
    ensures |s| >= 1
    decreases n
  {
    if n < 16 then [HexDigit(n)] else Hex(n / 16) + [HexDigit(n % 16)]
  }

  function EscapeChar(c: char, printable: char -> bool): (s: string)
    ensures s != []
  {
    if c == '\0' then "\\0"
    else if c == '\t' then "\\t"
    else if c == '\r' then "\\r"
    else if c == '\n' then "\\n"
    else if c == '\"' then "\\\""
    else if c == '\\' then "\\\\"
    else if printable(c) then [c]
    else "\\u{" + Hex(c as nat) + "}"
  }

  function Escape(s: string, printable: char -> bool): string {
    if s == [] then [] else EscapeChar(s[0], printable) + Escape(s[1..], printable)
  }

  function Quoted(s: string, printable: char -> bool): string {
    "\"" + Escape(s, printable) + "\""
  }

  function Debug(o: Option<string>, printable: char -> bool): string {
    match o
    case None => "None"
    case Some(s) => "Some(" + Quoted(s, printable) + ")"
  }

  // ----- texts that end where they say -----

  /** A text is cut uniquely at the first occurrence of a character. */
  lemma CutAt(x: string, y: string, x': string, y': string, c: char)
    requires Without(x, c) && Without(x', c)
    requires x + ([c] + y) == x' + ([c] + y')
    ensures x == x' && y == y'
  {
    var whole := x + ([c] + y);
    assert whole[|x|] == c && whole[|x'|] == c;
    assert forall i :: 0 <= i < |x| ==> whole[i] == x[i];
    assert forall i :: 0 <= i < |x'| ==> whole[i] == x'[i];
    assert |x| == |x'|;
    assert whole[..|x|] == x && whole[..|x'|] == x';
    assert whole[|x| + 1..] == y && whole[|x'| + 1..] == y';
  }

  lemma DropPrefix(p: string, x: string, y: string)
    requires p + x == p + y
    ensures x == y
  {
    assert (p + x)[|p|..] == x && (p + y)[|p|..] == y;
  }

  lemma {:induction false} HexIsFree(n: nat, c: char)
    requires forall d :: 0 <= d < 16 ==> HexDigit(d) != c
    ensures Without(Hex(n), c)
    decreases n
  {
    if n >= 16 { HexIsFree(n / 16, c); }
  }

  lemma HexDigitIsInjective(d: nat, e: nat)
    requires d < 16 && e < 16 && HexDigit(d) == HexDigit(e)
    ensures d == e
  {
  }

  lemma {:induction false} HexIsInjective(n: nat, m: nat)
    requires Hex(n) == Hex(m)
    ensures n == m
    decreases n
  {
    hide Hex, HexDigit;
    LastDigit(n);
    LastDigit(m);
    HexDigitIsInjective(n % 16, m % 16);
    if n >= 16 { HexIsInjective(n / 16, m / 16); }
  }

  /** A number's last digit, and the digits of what is above it. */
  lemma LastDigit(n: nat)
    ensures var s := Hex(n);
            && s != [] && s[|s| - 1] == HexDigit(n % 16) && (|s| == 1 <==> n < 16)
            && (n >= 16 ==> s[..|s| - 1] == Hex(n / 16))
  {
    hide HexDigit;
    if n >= 16 { assert Hex(n / 16) != []; }
  }

  /** How a character's escape begins tells which kind it is. */
  lemma EscapeBegins(c: char, printable: char -> bool)
    ensures var e := EscapeChar(c, printable);
            && e[0] != '\"'
            && (e[0] != '\\' ==> e == [c])
            && (e[0] == '\\' ==> |e| >= 2)
            && (e[0] == '\\' && e[1] == 'u' ==> e == "\\u{" + Hex(c as nat) + "}")
            && (e[0] == '\\' && e[1] != 'u' ==> |e| == 2)
  {
  }

  lemma ShortEscapes(c: char, d: char, printable: char -> bool)
    requires var e, f := EscapeChar(c, printable), EscapeChar(d, printable);
             |e| == 2 && |f| == 2 && e[0] == '\\' && e[1] == f[1] && f[0] == '\\'
    ensures c == d
  {
  }

  /** The escape of a character is cut uniquely from what follows it. */
  lemma EscapeCharEnds(c: char, x: string, d: char, y: string, printable: char -> bool)
    requires EscapeChar(c, printable) + x == EscapeChar(d, printable) + y
    ensures c == d && x == y
  {
    var e, f := EscapeChar(c, printable), EscapeChar(d, printable);
    EscapeBegins(c, printable);
    EscapeBegins(d, printable);
    assert (e + x)[0] == e[0] && (f + y)[0] == f[0];
    if e[0] == '\\' {
      assert (e + x)[1] == e[1] && (f + y)[1] == f[1];
      if e[1] == 'u' {
        HexEscapeEnds(c as nat, x, d as nat, y);
      } else {
        ShortEscapes(c, d, printable);
        DropPrefix(e, x, y);
      }
    } else {
      DropPrefix(e, x, y);
    }
  }

  lemma Regroup(a: string, b: string, c: string, x: string)
    ensures (a + b + c) + x == a + (b + (c + x))
  {
  }

  lemma HexEscapeEnds(n: nat, x: string, m: nat, y: string)
    requires ("\\u{" + Hex(n) + "}") + x == ("\\u{" + Hex(m) + "}") + y
    ensures n == m && x == y
  {
    hide Hex;
    var u := "\\u{";
    Regroup(u, Hex(n), ['}'], x);
    Regroup(u, Hex(m), ['}'], y);
    DropPrefix(u, Hex(n) + (['}'] + x), Hex(m) + (['}'] + y));
    HexIsFree(n, '}');
    HexIsFree(m, '}');
    CutAt(Hex(n), x, Hex(m), y, '}');
    HexIsInjective(n, m);
  }

  /** A quoted string ends at its own closing quote, whatever follows. */
  lemma {:induction false} EscapeEnds(s: string, x: string, t: string, y: string, printable: char -> bool)
    requires Escape(s, printable) + "\"" + x == Escape(t, printable) + "\"" + y
    ensures s == t && x == y
    decreases |s| + |t|
  {
    hide Escape, EscapeChar;
    EscapeFirst(s, x, printable);
    EscapeFirst(t, y, printable);
    if s == [] {
      DropPrefix("\"", x, y);
    } else {
      var xs, ys := Escape(s[1..], printable) + "\"" + x, Escape(t[1..], printable) + "\"" + y;
      EscapeCharEnds(s[0], xs, t[0], ys, printable);
      EscapeEnds(s[1..], x, t[1..], y, printable);
      assert s == [s[0]] + s[1..] && t == [t[0]] + t[1..];
    }
  }

  /** The text of a quoted string, by its first character. */
  lemma EscapeFirst(s: string, x: string, printable: char -> bool)
    ensures var whole := Escape(s, printable) + "\"" + x;
            && (whole[0] == '\"' <==> s == [])
            && (s == [] ==> whole == "\"" + x)
            && (s != [] ==> whole == EscapeChar(s[0], printable) + (Escape(s[1..], printable) + "\"" + x))
  {
    hide EscapeChar;
    if s == [] {
      assert [] + "\"" == "\"";
    } else {
      EscapeBegins(s[0], printable);
      Leads(EscapeChar(s[0], printable), Escape(s[1..], printable), "\"", x);
    }
  }

  lemma Leads(e: string, r: string, q: string, x: string)
    requires e != []
    ensures (e + r) + q + x == e + (r + q + x) && ((e + r) + q + x)[0] == e[0]
  {
  }

  lemma DebugEnds(o: Option<string>, x: string, p: Option<string>, y: string, printable: char -> bool)
    requires Debug(o, printable) + x == Debug(p, printable) + y
    ensures o == p && x == y
  {
    assert (Debug(o, printable) + x)[0] == if o.None? then 'N' else 'S';
    assert (Debug(p, printable) + y)[0] == if p.None? then 'N' else 'S';
    if o.None? {
      DropPrefix("None", x, y);
    } else {
      var s, t := Escape(o.value, printable), Escape(p.value, printable);
      DebugShape(s, x);
      DebugShape(t, y);
      DropPrefix("Some(\"", s + "\"" + (")" + x), t + "\"" + (")" + y));
      EscapeEnds(o.value, ")" + x, p.value, ")" + y, printable);
      DropPrefix(")", x, y);
    }
  }

  lemma DebugShape(escaped: string, x: string)
    ensures ("Some(" + ("\"" + escaped + "\"") + ")") + x == "Some(\"" + (escaped + "\"" + (")" + x))
  {
    assert "Some(" + "\"" == "Some(\"";
  }

  /** Quoting leaves no NUL. */
  lemma {:induction false} EscapeHasNoNul(s: string, printable: char -> bool)
    ensures Without(Escape(s, printable), '\0')
    decreases |s|
  {
    if s != [] {
      EscapeHasNoNul(s[1..], printable);
      HexIsFree(s[0] as nat, '\0');
    }
  }

  // ----- the variant -----

  /** The content/extension mismatch as the key sees it. */
  datatype Mismatch = NoMismatch | Unclassified | Between(content: string, ext: string)

  /** The transition counts only where there is a mismatch. */
  function Effective(mismatch: bool, transition: Option<(string, string)>): Mismatch {
    if !mismatch then NoMismatch
    else match transition case None => Unclassified case Some(pair) => Between(pair.0, pair.1)
  }

  function MismatchText(m: Mismatch): string {
    match m
    case NoMismatch => "-"
    case Unclassified => "?"
    case Between(content, ext) => content + "_as_" + ext
  }

  /** The labels of the file groups: no separator of the variant, and no `_a`, is in any of them. */
  predicate IsGroupLabel(s: string) {
    && s != [] && Without(s, ';') && Without(s, '\0') && s[|s| - 1] != '_'
    && forall i :: 0 <= i < |s| - 1 ==> !(s[i] == '_' && s[i + 1] == 'a')
  }

  /** The labels there are. */
  const GROUP_LABELS: seq<string> := [
    "native", "bytecode", "machine_code", "scripts", "source", "build", "config", "archives", "compressed",
    "documents", "text", "images", "audio", "video", "fonts", "signatures", "serialized", "data", "unknown"
  ]

  lemma GroupLabelsAreLabels()
    ensures forall k :: 0 <= k < |GROUP_LABELS| ==> IsGroupLabel(GROUP_LABELS[k])
  {
    hide IsGroupLabel;
    FirstLabels();
    MiddleLabels();
    LastLabels();
  }

  lemma FirstLabels()
    ensures IsGroupLabel("native") && IsGroupLabel("bytecode") && IsGroupLabel("machine_code")
    ensures IsGroupLabel("scripts") && IsGroupLabel("source") && IsGroupLabel("build")
  {
  }

  lemma MiddleLabels()
    ensures IsGroupLabel("config") && IsGroupLabel("archives") && IsGroupLabel("compressed")
    ensures IsGroupLabel("documents") && IsGroupLabel("text") && IsGroupLabel("images")
  {
  }

  lemma LastLabels()
    ensures IsGroupLabel("audio") && IsGroupLabel("video") && IsGroupLabel("fonts")
    ensures IsGroupLabel("signatures") && IsGroupLabel("serialized") && IsGroupLabel("data")
    ensures IsGroupLabel("unknown")
  {
  }

  predicate IsMismatch(m: Mismatch) {
    m.Between? ==> IsGroupLabel(m.content) && IsGroupLabel(m.ext)
  }

  datatype Fields = Fields(namespace: Option<string>, fileType: string, mismatch: bool,
                           transition: Option<(string, string)>, basename: Option<string>)

  function MismatchOf(f: Fields): Mismatch {
    Effective(f.mismatch, f.transition)
  }

  predicate IsFields(f: Fields) {
    Without(f.fileType, ';') && Without(f.fileType, '\0') && IsMismatch(MismatchOf(f))
  }

  /** The same to an extraction: a transition without a mismatch changes nothing. */
  predicate Alike(f: Fields, g: Fields) {
    && f.namespace == g.namespace && f.fileType == g.fileType && f.basename == g.basename
    && f.mismatch == g.mismatch && (f.mismatch ==> f.transition == g.transition)
  }

  lemma AlikeIsTheMismatch(f: Fields, g: Fields)
    ensures f.namespace == g.namespace && f.fileType == g.fileType && f.basename == g.basename ==>
              (Alike(f, g) <==> MismatchOf(f) == MismatchOf(g))
  {
  }

  const POLICY: string := "binform=v10"

  /** `extraction_cache_variant`, one piece of the text after another. */
  function Variant(f: Fields, printable: char -> bool): string {
    POLICY + (";namespace=" + (Debug(f.namespace, printable) + (";file_type=" + (f.fileType + ([';'] +
      ("mismatch=" + (MismatchText(MismatchOf(f)) + ([';'] + ("basename=" + Debug(f.basename, printable))))))))))
  }

  lemma MismatchIsInjective(m: Mismatch, m': Mismatch)
    requires IsMismatch(m) && IsMismatch(m') && MismatchText(m) == MismatchText(m')
    ensures m == m'
  {
    assert m.Between? <==> |MismatchText(m)| >= 4;
    assert m'.Between? <==> |MismatchText(m')| >= 4;
    if m.Between? {
      TransitionSplits(m.content, m.ext, m'.content, m'.ext);
    }
  }

  lemma TransitionSplits(c: string, e: string, c': string, e': string)
    requires IsGroupLabel(c) && IsGroupLabel(c')
    requires c + "_as_" + e == c' + "_as_" + e'
    ensures c == c' && e == e'
  {
    var whole := c + "_as_" + e;
    assert whole[|c|] == '_' && whole[|c| + 1] == 'a';
    assert whole[|c'|] == '_' && whole[|c'| + 1] == 'a';
    assert forall i :: 0 <= i < |c| ==> whole[i] == c[i];
    assert forall i :: 0 <= i < |c'| ==> whole[i] == c'[i];
    assert |c| == |c'|;
    assert whole[..|c|] == c && whole[..|c'|] == c';
    DropPrefix(c + "_as_", e, e');
  }

  lemma MismatchIsFree(m: Mismatch, c: char)
    requires IsMismatch(m) && (c == ';' || c == '\0')
    ensures Without(MismatchText(m), c)
  {
  }

  /** Two variants are one text exactly when their fields are alike. */
  lemma VariantIsInjective(f: Fields, g: Fields, printable: char -> bool)
    requires IsFields(f) && IsFields(g)
    ensures Variant(f, printable) == Variant(g, printable) <==> Alike(f, g)
  {
    if Variant(f, printable) == Variant(g, printable) { VariantReads(f, g, printable); }
    AlikeIsTheMismatch(f, g);
  }

  lemma VariantReads(f: Fields, g: Fields, printable: char -> bool)
    requires IsFields(f) && IsFields(g)
    requires Variant(f, printable) == Variant(g, printable)
    ensures Alike(f, g)
  {
    hide Debug, MismatchText, IsMismatch;
    var bf, bg := Debug(f.basename, printable), Debug(g.basename, printable);
    var mf := MismatchText(MismatchOf(f)) + ([';'] + ("basename=" + bf));
    var mg := MismatchText(MismatchOf(g)) + ([';'] + ("basename=" + bg));
    var tf, tg := f.fileType + ([';'] + ("mismatch=" + mf)), g.fileType + ([';'] + ("mismatch=" + mg));
    var nf := Debug(f.namespace, printable) + (";file_type=" + tf);
    var ng := Debug(g.namespace, printable) + (";file_type=" + tg);
    DropPrefix(POLICY, ";namespace=" + nf, ";namespace=" + ng);
    DropPrefix(";namespace=", nf, ng);
    DebugEnds(f.namespace, ";file_type=" + tf, g.namespace, ";file_type=" + tg, printable);
    DropPrefix(";file_type=", tf, tg);
    CutAt(f.fileType, "mismatch=" + mf, g.fileType, "mismatch=" + mg, ';');
    DropPrefix("mismatch=", mf, mg);
    MismatchIsFree(MismatchOf(f), ';');
    MismatchIsFree(MismatchOf(g), ';');
    CutAt(MismatchText(MismatchOf(f)), "basename=" + bf, MismatchText(MismatchOf(g)), "basename=" + bg, ';');
    MismatchIsInjective(MismatchOf(f), MismatchOf(g));
    DropPrefix("basename=", bf, bg);
    assert bf == bf + [] && bg == bg + [];
    DebugEnds(f.basename, [], g.basename, [], printable);
    AlikeIsTheMismatch(f, g);
  }

  /** Printable characters other than the quote and the backslash are quoted as they are. */
  predicate IsSimple(s: string, printable: char -> bool) {
    forall k :: 0 <= k < |s| ==> printable(s[k]) && s[k] !in {'\0', '\t', '\r', '\n', '\"', '\\'}
  }

  lemma {:induction false} SimpleIsItself(s: string, printable: char -> bool)
    requires IsSimple(s, printable)
    ensures Escape(s, printable) == s
  {
    if s != [] {
      SimpleIsItself(s[1..], printable);
      assert s == [s[0]] + s[1..];
    }
  }

  /** How a plain name and the transition of a file read in a variant. */
  lemma PiecesRead(name: string, transition: Option<(string, string)>, printable: char -> bool)
    requires IsSimple(name, printable)
    ensures Debug(Some(name), printable) == "Some(" + ("\"" + name + "\"") + ")" && Debug(None, printable) == "None"
    ensures MismatchText(Effective(false, transition)) == "-"
    ensures MismatchText(Effective(true, transition))
            == if transition.None? then "?" else transition.value.0 + "_as_" + transition.value.1
  {
    SimpleIsItself(name, printable);
    hide Escape;
  }

  lemma VariantHasNoNul(f: Fields, printable: char -> bool)
    requires IsFields(f)
    ensures Without(Variant(f, printable), '\0')
  {
    hide Debug, MismatchText, MismatchOf, IsMismatch, Without;
    var b := "basename=" + Debug(f.basename, printable);
    var m := MismatchText(MismatchOf(f));
    var rest := "mismatch=" + (m + ([';'] + b));
    DebugHasNoNul(f.namespace, printable);
    DebugHasNoNul(f.basename, printable);
    MismatchIsFree(MismatchOf(f), '\0');
    LabelsHaveNoNul();
    WithoutBoth("basename=", Debug(f.basename, printable), '\0');
    WithoutBoth([';'], b, '\0');
    WithoutBoth(m, [';'] + b, '\0');
    WithoutBoth("mismatch=", m + ([';'] + b), '\0');
    WithoutBoth([';'], rest, '\0');
    WithoutBoth(f.fileType, [';'] + rest, '\0');
    var tail := f.fileType + ([';'] + rest);
    WithoutBoth(";file_type=", tail, '\0');
    WithoutBoth(Debug(f.namespace, printable), ";file_type=" + tail, '\0');
    var all := Debug(f.namespace, printable) + (";file_type=" + tail);
    WithoutBoth(";namespace=", all, '\0');
    WithoutBoth(POLICY, ";namespace=" + all, '\0');
  }

  lemma LabelsHaveNoNul()
    ensures Without("basename=", '\0') && Without([';'], '\0') && Without("mismatch=", '\0')
    ensures Without(";file_type=", '\0') && Without(";namespace=", '\0') && Without(POLICY, '\0')
  {
  }

  lemma DebugHasNoNul(o: Option<string>, printable: char -> bool)
    ensures Without(Debug(o, printable), '\0')
  {
    if o.Some? { EscapeHasNoNul(o.value, printable); }
  }

  // ----- the hashed bytes -----

  function Utf8Bytes(s: string): seq<Byte> {
    if s == [] then [] else CharBytes(s[0]) + Utf8Bytes(s[1..])
  }

  function CharBytes(c: char): (b: seq<Byte>)
    ensures 1 <= |b| <= 4
  {
    Encode(c as nat)
  }

  /** What `cache_key` feeds the hash. */
  function Preimage(content: seq<Byte>, build: seq<Byte>, variant: seq<Byte>): seq<Byte> {
    content + [0] + build + [0] + variant
  }

  predicate NoZero(s: seq<Byte>) {
    forall i :: 0 <= i < |s| ==> s[i] != 0
  }

  /** A byte string is cut uniquely at its last zero. */
  lemma CutAtLastZero(x: seq<Byte>, y: seq<Byte>, x': seq<Byte>, y': seq<Byte>)
    requires NoZero(y) && NoZero(y') && x + [0] + y == x' + [0] + y'
    ensures x == x' && y == y'
  {
    var whole := x + [0] + y;
    assert whole[|x|] == 0 && whole[|x'|] == 0;
    assert forall k :: |x| < k < |whole| ==> whole[k] == y[k - |x| - 1];
    assert forall k :: |x'| < k < |whole| ==> whole[k] == y'[k - |x'| - 1];
    assert |x| == |x'|;
    assert whole[..|x|] == x && whole[..|x'|] == x';
    assert whole[|x| + 1..] == y && whole[|x'| + 1..] == y';
  }

  lemma PreimageSplits(c: seq<Byte>, b: seq<Byte>, v: seq<Byte>, c': seq<Byte>, b': seq<Byte>, v': seq<Byte>)
    requires NoZero(b) && NoZero(v) && NoZero(b') && NoZero(v')
    requires Preimage(c, b, v) == Preimage(c', b', v')
    ensures c == c' && b == b' && v == v'
  {
    CutAtLastZero(c + [0] + b, v, c' + [0] + b', v');
    CutAtLastZero(c, b, c', b');
  }

  /** A variant with a zero byte anywhere has the preimage of another content, build and variant. */
  lemma ZeroInVariantCollides(c: seq<Byte>, b: seq<Byte>, v: seq<Byte>, w: seq<Byte>)
    ensures Preimage(c, b, v + [0] + w) == Preimage(c + [0] + b, v, w)
    ensures c + [0] + b != c
  {
    assert |c + [0] + b| > |c|;
    assert c + [0] + b + [0] + (v + [0] + w) == c + [0] + b + [0] + v + [0] + w;
  }

  lemma CharBytesAreInjective(c: char, x: seq<Byte>, d: char, y: seq<Byte>)
    requires CharBytes(c) + x == CharBytes(d) + y
    ensures c == d && x == y
  {
    var e, f := CharBytes(c), CharBytes(d);
    assert (e + x)[0] == e[0] && (f + y)[0] == f[0];
    LeadGivesLength(c as nat);
    LeadGivesLength(d as nat);
    assert |e| == |f|;
    assert (e + x)[..|e|] == e && (f + y)[..|f|] == f;
    assert (e + x)[|e|..] == x && (f + y)[|f|..] == y;
    EncodeIsInjective(c as nat, d as nat);
  }

  lemma LeadGivesLength(code: nat)
    requires IsScalar(code)
    ensures |Encode(code)| == Announced(Encode(code)[0])
  {
  }

  lemma EncodeIsInjective(n: nat, m: nat)
    requires IsScalar(n) && IsScalar(m) && Encode(n) == Encode(m)
    ensures n == m
  {
    SixBits(n);
    SixBits(m);
    var e := Encode(n);
    assert |e| >= 2 ==> e[1] == Encode(m)[1];
    assert |e| >= 3 ==> e[2] == Encode(m)[2];
    assert |e| >= 4 ==> e[3] == Encode(m)[3];
    assert e[0] == Encode(m)[0];
  }

  lemma SixBits(n: nat)
    ensures n == n / 0x40 * 0x40 + n % 0x40
    ensures n / 0x40 == n / 0x1000 * 0x40 + n / 0x40 % 0x40
    ensures n / 0x1000 == n / 0x4_0000 * 0x40 + n / 0x1000 % 0x40
  {
  }

  lemma {:induction false} Utf8IsInjective(s: string, t: string)
    requires Utf8Bytes(s) == Utf8Bytes(t)
    ensures s == t
    decreases |s|
  {
    if s != [] && t != [] {
      CharBytesAreInjective(s[0], Utf8Bytes(s[1..]), t[0], Utf8Bytes(t[1..]));
      Utf8IsInjective(s[1..], t[1..]);
      assert s == [s[0]] + s[1..] && t == [t[0]] + t[1..];
    }
  }

  /** Only a NUL encodes to a zero byte. */
  lemma {:induction false} Utf8KeepsNoNul(s: string)
    requires Without(s, '\0')
    ensures NoZero(Utf8Bytes(s))
    decreases |s|
  {
    if s != [] {
      Utf8KeepsNoNul(s[1..]);
      assert s[0] != '\0';
      EncodeHasNoZero(s[0] as nat);
    }
  }

  lemma EncodeHasNoZero(code: nat)
    requires IsScalar(code) && code != 0
    ensures NoZero(Encode(code))
  {
  }

  function KeyBytes(content: seq<Byte>, build: seq<Byte>, f: Fields, printable: char -> bool): seq<Byte> {
    Preimage(content, build, Utf8Bytes(Variant(f, printable)))
  }

  /**
   The hashed bytes are the same exactly for the same content, the same build and fields that are
   alike: short of a hash collision, two analyses share a key only when nothing that can change the
   result differs.
   */
  lemma KeyBytesAreUnique(content: seq<Byte>, build: seq<Byte>, f: Fields,
                          content': seq<Byte>, build': seq<Byte>, f': Fields, printable: char -> bool)
    requires IsFields(f) && IsFields(f') && NoZero(build) && NoZero(build')
    ensures KeyBytes(content, build, f, printable) == KeyBytes(content', build', f', printable)
            <==> content == content' && build == build' && Alike(f, f')
  {
    hide Variant, Utf8Bytes, Alike, IsFields, Preimage;
    VariantIsInjective(f, f', printable);
    if KeyBytes(content, build, f, printable) == KeyBytes(content', build', f', printable) {
      VariantHasNoNul(f, printable);
      VariantHasNoNul(f', printable);
      Utf8KeepsNoNul(Variant(f, printable));
      Utf8KeepsNoNul(Variant(f', printable));
      PreimageSplits(content, build, Utf8Bytes(Variant(f, printable)),
                     content', build', Utf8Bytes(Variant(f', printable)));
      Utf8IsInjective(Variant(f, printable), Variant(f', printable));
    }
  }
}
