/**
 What `xml_text` delivers, from the other side: a script body written as nodes, and the text those
 nodes stand for.
 */
module XmlNodes {
  import opened Bytes
  import opened Comments
  import opened References
  import opened ScriptEnd
  import opened Utf8
  import opened XmlScript
  import opened XmlText

  datatype Node =
    | Chars(bytes: seq<Byte>)
    | Section(content: seq<Byte>)
    | Remark(content: seq<Byte>)  // a comment
    | Instruction(content: seq<Byte>)
    | Tag(content: seq<Byte>)  // a tag or a declaration
    | Entity(name: seq<Byte>)
    | Numbered(digits: seq<Byte>, hex: bool)
    | Ampersand  // one that starts no reference
    | Unclosed(bytes: seq<Byte>)  // markup or a section that the body's end cuts off

  function Print(n: Node): (s: seq<Byte>) {
    match n
    case Chars(bytes) => bytes
    case Section(content) => CDATA_OPEN + content + CDATA_CLOSE
    case Remark(content) => OPEN_COMMENT + content + DASH_DASH_GT
    case Instruction(content) => PI_OPEN + content + PI_CLOSE
    case Tag(content) => [LT] + content + [GT]
    case Entity(name) => [AMP] + name + [SEMICOLON]
    case Numbered(digits, hex) => Written(digits, hex)
    case Ampersand => [AMP]
    case Unclosed(bytes) => bytes
  }

  /** In `s`, read from `from` on, `close` stands at the end and nowhere before it. */
  predicate ClosesAtItsEnd(s: seq<Byte>, from: nat, close: seq<Byte>) {
    |close| <= |s| && Find(s, from, close) == Some((|s| - |close|) as nat)
  }

  /** The node is written so that it can be read back: its own close is the first one in it. */
  predicate IsNode(n: Node) {
    match n
    case Chars(bytes) => LT !in bytes && AMP !in bytes
    case Section(_) => ClosesAtItsEnd(Print(n), 9, CDATA_CLOSE)
    case Remark(_) => ClosesAtItsEnd(Print(n), 1, DASH_DASH_GT)
    case Instruction(_) => ClosesAtItsEnd(Print(n), 1, PI_CLOSE)
    case Tag(content) =>
      && GT !in content && !StartsAt(Print(n), 0, PI_OPEN)
      && !StartsAt(Print(n), 0, OPEN_COMMENT) && !StartsAt(Print(n), 0, CDATA_OPEN)
    case Entity(name) => name in ENTITIES
    case Numbered(digits, hex) =>
      && digits != [] && AllDigits(digits, if hex then 16 else 10) && |Print(n)| <= LONGEST_REFERENCE
      && IsXmlChar(Number(digits, if hex then 16 else 10))
    case Ampersand => true
    case Unclosed(bytes) =>
      && bytes != [] && bytes[0] == LT
      && (if StartsAt(bytes, 0, CDATA_OPEN) then Find(bytes, 9, CDATA_CLOSE).None?
          else if StartsAt(bytes, 0, OPEN_COMMENT) then Find(bytes, 1, DASH_DASH_GT).None?
          else if StartsAt(bytes, 0, PI_OPEN) then Find(bytes, 1, PI_CLOSE).None?
          else GT !in bytes)
  }

  /** `lt`, `gt`, `amp`, `quot` and `apos`. */
  const ENTITIES: seq<seq<Byte>> := [[0x6C, 0x74], [0x67, 0x74], [0x61, 0x6D, 0x70], [0x71, 0x75, 0x6F, 0x74],
                                     [0x61, 0x70, 0x6F, 0x73]]

  const CHARACTERS: seq<nat> := [0x3C, 0x3E, 0x26, 0x22, 0x27]

  function CharacterOf(name: seq<Byte>): nat
    requires name in ENTITIES
  {
    if name == ENTITIES[0] then CHARACTERS[0]
    else if name == ENTITIES[1] then CHARACTERS[1]
    else if name == ENTITIES[2] then CHARACTERS[2]
    else if name == ENTITIES[3] then CHARACTERS[3]
    else CHARACTERS[4]
  }

  predicate IsReference(n: Node) {
    n.Entity? || n.Numbered?
  }

  /** What the node stands for: content as it is, markup blanked, references as their character. */
  function Meaning(n: Node): (s: seq<Byte>)
    requires IsNode(n)
  {
    match n
    case Chars(bytes) => bytes
    case Section(content) => Blank(CDATA_OPEN) + content + Blank(CDATA_CLOSE)
    case Remark(_) | Instruction(_) | Tag(_) => Blank(Print(n))
    case Entity(name) => Encode(CharacterOf(name))
    case Numbered(digits, hex) => Encode(Number(digits, if hex then 16 else 10))
    case Ampersand => [AMP]
    case Unclosed(bytes) =>
      if StartsAt(bytes, 0, CDATA_OPEN) then Blank(CDATA_OPEN) + bytes[9..] else Blank(bytes)
  }

  function PrintAll(ns: seq<Node>): seq<Byte> {
    if ns == [] then [] else Print(ns[0]) + PrintAll(ns[1..])
  }

  predicate AreNodes(ns: seq<Node>) {
    forall k :: 0 <= k < |ns| ==> IsNode(ns[k])
  }

  /** The text begins with a reference to a character. */
  ghost predicate WritesReference(s: seq<Byte>) {
    exists n: Node :: IsReference(n) && IsNode(n) && Print(n) <= s
  }

  /** Each `&` that is written as itself starts no reference where it stands, and nothing follows what is cut off. */
  ghost predicate Stand(ns: seq<Node>) {
    forall k :: 0 <= k < |ns| ==>
      (ns[k].Ampersand? ==> !WritesReference(PrintAll(ns[k..]))) && (ns[k].Unclosed? ==> k == |ns| - 1)
  }

  function MeaningOf(ns: seq<Node>): seq<Byte>
    requires AreNodes(ns)
  {
    if ns == [] then [] else Meaning(ns[0]) + MeaningOf(ns[1..])
  }

  predicate HasReference(ns: seq<Node>) {
    exists k :: 0 <= k < |ns| && IsReference(ns[k])
  }

  // ----- reading a node back -----

  /** A search inside a part of the page finds what a search of that part alone finds. */
  lemma FindInside(raw: seq<Byte>, i: nat, s: seq<Byte>, from: nat, needle: seq<Byte>)
    requires StartsAt(raw, i, s) && Find(s, from, needle).Some?
    ensures Find(raw, i + from, needle) == Some(i + Find(s, from, needle).value)
  {
    hide Find, StartsAt;
    var at := Find(s, from, needle).value;
    forall k: nat | from <= k <= at ensures StartsAt(raw, i + k, needle) == StartsAt(s, k, needle) {
      StartsInside(raw, i, s, k, needle);
    }
    assert StartsAt(raw, i + at, needle);
    forall k | i + from <= k < i + at ensures !StartsAt(raw, k, needle) {
      assert !StartsAt(s, k - i, needle);
      assert k == i + (k - i);
    }
  }

  lemma StartsInside(raw: seq<Byte>, i: nat, s: seq<Byte>, k: nat, needle: seq<Byte>)
    requires StartsAt(raw, i, s) && k + |needle| <= |s|
    ensures StartsAt(raw, i + k, needle) == StartsAt(s, k, needle)
  {
    StartsAtBytes(raw, i, s);
    StartsAtBytes(raw, i + k, needle);
    StartsAtBytes(s, k, needle);
    assert forall m :: k <= m < k + |needle| ==> raw[i + m] == s[m];
  }

  lemma MarkupReads(raw: seq<Byte>, i: nat, s: seq<Byte>, close: seq<Byte>)
    requires StartsAt(raw, i, s) && ClosesAtItsEnd(s, 1, close)
    ensures Past(raw, i + 1, close) == i + |s| && raw[i..i + |s|] == s
  {
    hide Find;
    FindInside(raw, i, s, 1, close);
  }

  lemma SectionReads(raw: seq<Byte>, i: nat, content: seq<Byte>)
    requires IsNode(Section(content)) && StartsAt(raw, i, Print(Section(content)))
    ensures i < |raw| && PieceAt(raw, i) == Piece(|Print(Section(content))|, Meaning(Section(content)), true)
  {
    hide Find, MarkupPiece, Reference, CDataPiece;
    var s := Print(Section(content));
    FindInside(raw, i, s, 9, CDATA_CLOSE);
    StartsInside(raw, i, s, 0, CDATA_OPEN);
    PartsOf(CDATA_OPEN, content, CDATA_CLOSE);
    SliceOfSlice(raw, i, i + |s|, 9, 9 + |content|);
    assert raw[i] == raw[i..i + 9][0] == LT;
    SectionPiece(raw, i, content);
  }

  lemma SectionPiece(raw: seq<Byte>, i: nat, content: seq<Byte>)
    requires StartsAt(raw, i, CDATA_OPEN) && Find(raw, i + 9, CDATA_CLOSE) == Some(i + 9 + |content|)
    requires raw[i + 9..i + 9 + |content|] == content
    ensures CDataPiece(raw, i) == Piece(12 + |content|, Blank(CDATA_OPEN) + content + Blank(CDATA_CLOSE), true)
  {
    hide Find;
    var contentEnd := i + 9 + |content|;
    assert Past(raw, i + 9, CDATA_CLOSE) == contentEnd + 3;
    assert raw[contentEnd..contentEnd + 3] == CDATA_CLOSE;
  }

  lemma PartsOf(open: seq<Byte>, content: seq<Byte>, close: seq<Byte>)
    ensures var s := open + content + close;
            && s[0..|open|] == open && s[|open|..|open| + |content|] == content && s[|open| + |content|..] == close
            && s[|open| + |content|..|s|] == close
  {
  }

  lemma SliceOfSlice(raw: seq<Byte>, i: nat, j: nat, p: nat, q: nat)
    requires p <= q && i + q <= j <= |raw|
    ensures raw[i..j][p..q] == raw[i + p..i + q]
  {
    var part := raw[i..j];
    assert forall k :: 0 <= k < |part| ==> part[k] == raw[i + k];
  }

  lemma RemarkReads(raw: seq<Byte>, i: nat, content: seq<Byte>)
    requires IsNode(Remark(content)) && StartsAt(raw, i, Print(Remark(content)))
    ensures i < |raw| && PieceAt(raw, i) == Piece(|Print(Remark(content))|, Meaning(Remark(content)), true)
  {
    hide Find, CDataPiece, Reference;
    var s := Print(Remark(content));
    MarkupReads(raw, i, s, DASH_DASH_GT);
    StartsAtBytes(raw, i, s);
    assert raw[i + 0] == s[0] && raw[i + 2] == s[2];
    StartsAtBytes(raw, i, CDATA_OPEN);
    StartsInside(raw, i, s, 0, OPEN_COMMENT);
    assert s[0..4] == OPEN_COMMENT;
  }

  lemma InstructionReads(raw: seq<Byte>, i: nat, content: seq<Byte>)
    requires IsNode(Instruction(content)) && StartsAt(raw, i, Print(Instruction(content)))
    ensures i < |raw| && PieceAt(raw, i) == Piece(|Print(Instruction(content))|, Meaning(Instruction(content)), true)
  {
    hide Find, CDataPiece, Reference, StartsAt;
    var s := Print(Instruction(content));
    MarkupReads(raw, i, s, PI_CLOSE);
    InstructionOpens(raw, i, s);
  }

  lemma InstructionOpens(raw: seq<Byte>, i: nat, s: seq<Byte>)
    requires StartsAt(raw, i, s) && |s| >= 2 && s[0] == LT && s[1] == QUESTION
    ensures i < |raw| && raw[i] == LT && StartsAt(raw, i, PI_OPEN)
    ensures !StartsAt(raw, i, CDATA_OPEN) && !StartsAt(raw, i, OPEN_COMMENT)
  {
    hide StartsAt;
    StartsAtBytes(raw, i, s);
    assert raw[i + 0] == s[0] && raw[i + 1] == s[1];
    StartsAtBytes(raw, i, CDATA_OPEN);
    StartsAtBytes(raw, i, OPEN_COMMENT);
    StartsAtBytes(raw, i, PI_OPEN);
    assert OPEN_COMMENT[1] == BANG && CDATA_OPEN[1] == BANG;
  }

  lemma TagReads(raw: seq<Byte>, i: nat, content: seq<Byte>)
    requires IsNode(Tag(content)) && StartsAt(raw, i, Print(Tag(content)))
    ensures i < |raw| && PieceAt(raw, i) == Piece(|Print(Tag(content))|, Meaning(Tag(content)), true)
  {
    hide Find, CDataPiece, Reference, StartsAt;
    var s := Print(Tag(content));
    TagClosesAtItsEnd(content);
    MarkupReads(raw, i, s, [GT]);
    StartsAtBytes(raw, i, s);
    assert raw[i + 0] == s[0];
    OpensLikewise(raw, i, s, CDATA_OPEN);
    OpensLikewise(raw, i, s, OPEN_COMMENT);
    OpensLikewise(raw, i, s, PI_OPEN);
  }

  lemma TagClosesAtItsEnd(content: seq<Byte>)
    requires IsNode(Tag(content))
    ensures ClosesAtItsEnd(Print(Tag(content)), 1, [GT])
  {
    hide Find, StartsAt;
    var s := Print(Tag(content));
    var last := |s| - 1;
    forall k | 1 <= k < last ensures !StartsAt(s, k, [GT]) {
      StartsWithByte(s, k, GT);
      assert s[k] == content[k - 1] && content[k - 1] in content;
    }
    StartsWithByte(s, last, GT);
    assert StartsAt(s, last, [GT]);
  }

  /** What opens a section, comment or instruction holds no `>`, so a part that ends in one shows all of it. */
  lemma OpensLikewise(raw: seq<Byte>, i: nat, s: seq<Byte>, open: seq<Byte>)
    requires StartsAt(raw, i, s) && s != [] && s[|s| - 1] == GT && GT !in open
    ensures StartsAt(raw, i, open) == StartsAt(s, 0, open)
  {
    hide StartsAt;
    StartsAtBytes(raw, i, s);
    StartsAtBytes(raw, i, open);
    StartsAtBytes(s, 0, open);
    if |open| >= |s| {
      var last := |s| - 1;
      assert open[last] in open;
      assert raw[i + last] == s[0 + last] != open[last];
    } else {
      StartsInside(raw, i, s, 0, open);
    }
  }

  lemma ReferencePiece(raw: seq<Byte>, i: nat, n: Node)
    requires IsNode(n) && IsReference(n) && StartsAt(raw, i, Print(n))
    ensures i < |raw| && PieceAt(raw, i) == Piece(|Print(n)|, Meaning(n), false)
  {
    hide Find, Encode, NamedChar, Number, IsXmlChar, AllDigits, Reference;
    StartsAtBytes(raw, i, Print(n));
    assert raw[i + 0] == Print(n)[0] == AMP;
    match n {
      case Entity(name) =>
        EntityNames(name);
        ReferenceReads(raw, i, name);
      case Numbered(digits, hex) => NumericReference(raw, i, digits, hex);
    }
  }

  /** Whatever is read as a reference is written as one. */
  lemma ReferenceIsWritten(raw: seq<Byte>, i: nat)
    requires i < |raw| && raw[i] == AMP && Reference(raw, i).Some?
    ensures WritesReference(raw[i..])
  {
    hide NamedChar, WritesReference, IsNode, Find;
    var semicolon := Find(raw, i, [SEMICOLON]).value;
    StartsWithByte(raw, semicolon, SEMICOLON);
    var n := NodeOfName(raw[i + 1..semicolon]);
    WrittenThere(raw, i, semicolon, n);
  }

  lemma WrittenThere(raw: seq<Byte>, i: nat, semicolon: nat, n: Node)
    requires i < semicolon < |raw| && raw[i] == AMP && raw[semicolon] == SEMICOLON
    requires IsReference(n) && IsNode(n) && Print(n) == [AMP] + raw[i + 1..semicolon] + [SEMICOLON]
    ensures WritesReference(raw[i..])
  {
    hide IsNode;
    assert Print(n) == raw[i..][..semicolon + 1 - i];
  }

  /** A name that stands for a character is an entity's or a number's. */
  lemma NodeOfName(name: seq<Byte>) returns (n: Node)
    requires NamedChar(name).Some? && |name| + 2 <= LONGEST_REFERENCE
    ensures IsReference(n) && IsNode(n) && Print(n) == [AMP] + name + [SEMICOLON]
  {
    if name in ENTITIES { return Entity(name); }
    hide NamedChar, Number, IsXmlChar, CharOf, AllDigits;
    var digits, hex := NumberOfName(name);
    var radix := if hex then 16 else 10;
    CharIsXmlChar(digits, radix);
    assert Written(digits, hex) == [AMP] + name + [SEMICOLON];
    return Numbered(digits, hex);
  }

  lemma NumberOfName(name: seq<Byte>) returns (digits: seq<Byte>, hex: bool)
    requires NamedChar(name).Some? && name !in ENTITIES
    ensures name == (if hex then [HASH, LOWER_X] else [HASH]) + digits
    ensures AllDigits(digits, if hex then 16 else 10) && CharOf(digits, if hex then 16 else 10).Some?
  {
    hide Valid, CharOf, AllDigits, StartsAt;
    assert forall k :: 0 <= k < 5 ==> ENTITIES[k] in ENTITIES;
    hex := StartsAt(name, 0, [HASH, LOWER_X]);
    digits := BehindPrefix(name, if hex then [HASH, LOWER_X] else [HASH]);
  }

  lemma BehindPrefix(s: seq<Byte>, prefix: seq<Byte>) returns (rest: seq<Byte>)
    requires StartsAt(s, 0, prefix)
    ensures s == prefix + rest && rest == s[|prefix|..]
  {
    rest := s[|prefix|..];
  }

  lemma CharIsXmlChar(digits: seq<Byte>, radix: nat)
    requires AllDigits(digits, radix) && CharOf(digits, radix).Some?
    ensures digits != [] && IsXmlChar(Number(digits, radix))
  {
    FiltersAreXmlChar(digits, radix);
  }

  lemma AmpersandReads(raw: seq<Byte>, i: nat)
    requires i < |raw| && raw[i] == AMP && !WritesReference(raw[i..])
    ensures PieceAt(raw, i) == Piece(1, [AMP], true)
  {
    hide CDataPiece, MarkupPiece, Reference;
    if Reference(raw, i).Some? { ReferenceIsWritten(raw, i); }
  }

  lemma UnclosedReads(raw: seq<Byte>, i: nat, bytes: seq<Byte>)
    requires IsNode(Unclosed(bytes)) && i <= |raw| && raw[i..] == bytes
    ensures i < |raw| && PieceAt(raw, i) == Piece(|bytes|, Meaning(Unclosed(bytes)), true)
  {
    hide Find, Reference, StartsAt, CDataPiece, MarkupPiece;
    assert raw[i] == bytes[0];
    TailStarts(raw, i, 0, CDATA_OPEN);
    if StartsAt(bytes, 0, CDATA_OPEN) { UnclosedSection(raw, i); } else { UnclosedMarkup(raw, i); }
  }

  lemma UnclosedSection(raw: seq<Byte>, i: nat)
    requires i <= |raw| && StartsAt(raw, i, CDATA_OPEN) && StartsAt(raw[i..], 0, CDATA_OPEN)
    requires Find(raw[i..], 9, CDATA_CLOSE).None?
    ensures CDataPiece(raw, i) == Piece(|raw| - i, Blank(CDATA_OPEN) + raw[i..][9..], true)
  {
    hide Find;
    NotInTail(raw, i, 9, CDATA_CLOSE);
    assert raw[i + 9..|raw|] == raw[i..][9..];
  }

  lemma UnclosedMarkup(raw: seq<Byte>, i: nat)
    requires i < |raw| && IsNode(Unclosed(raw[i..])) && !StartsAt(raw[i..], 0, CDATA_OPEN)
    ensures MarkupPiece(raw, i) == Piece(|raw| - i, Blank(raw[i..]), true)
  {
    hide Find, StartsAt;
    TailStarts(raw, i, 0, OPEN_COMMENT);
    TailStarts(raw, i, 0, PI_OPEN);
    var bytes := raw[i..];
    var close := if StartsAt(bytes, 0, OPEN_COMMENT) then DASH_DASH_GT
                 else if StartsAt(bytes, 0, PI_OPEN) then PI_CLOSE
                 else [GT];
    if close == [GT] {
      forall k: nat ensures !StartsAt(bytes, k, [GT]) { StartsWithByte(bytes, k, GT); }
    }
    NotInTail(raw, i, 1, close);
  }

  lemma TailStarts(raw: seq<Byte>, i: nat, k: nat, needle: seq<Byte>)
    requires i <= |raw|
    ensures StartsAt(raw, i + k, needle) == StartsAt(raw[i..], k, needle)
  {
    if i + k + |needle| <= |raw| { assert raw[i..][k..k + |needle|] == raw[i + k..i + k + |needle|]; }
  }

  lemma NotInTail(raw: seq<Byte>, i: nat, from: nat, needle: seq<Byte>)
    requires i <= |raw| && Find(raw[i..], from, needle).None?
    ensures Find(raw, i + from, needle).None? && Past(raw, i + from, needle) == |raw|
  {
    hide Find, StartsAt;
    forall k | i + from <= k ensures !StartsAt(raw, k, needle) { TailStarts(raw, i, k - i, needle); }
  }

  lemma EntityNames(name: seq<Byte>)
    requires name in ENTITIES
    ensures NamedChar(name) == Some(CharacterOf(name)) && |name| <= 4 && SEMICOLON !in name
  {
    hide Valid, StartsAt, AllDigits, CharOf, Find;
    EntityIsText(name);
    var k :| 0 <= k < |ENTITIES| && ENTITIES[k] == name;
    assert ENTITIES[0][0] == 0x6C && ENTITIES[1][0] == 0x67 && ENTITIES[3][0] == 0x71 && ENTITIES[4][0] == 0x61;
  }

  lemma EntityIsText(name: seq<Byte>)
    requires name in ENTITIES
    ensures Valid(name)
  {
    hide Valid;
    AsciiIsValid(name);
  }

  lemma {:induction false} CharsRead(raw: seq<Byte>, i: nat, bytes: seq<Byte>)
    requires IsNode(Chars(bytes)) && StartsAt(raw, i, bytes)
    ensures From(raw, i) == (bytes + From(raw, i + |bytes|).0, From(raw, i + |bytes|).1)
    decreases |bytes|
  {
    hide From;
    if bytes == [] {
      assert [] + From(raw, i).0 == From(raw, i).0;
    } else {
      FirstByte(raw, i, bytes);
      CharReads(raw, i);
      CharsRead(raw, i + 1, bytes[1..]);
      OneMore(bytes, From(raw, i + |bytes|).0);
    }
  }

  lemma FirstByte(raw: seq<Byte>, i: nat, bytes: seq<Byte>)
    requires bytes != [] && StartsAt(raw, i, bytes)
    ensures i < |raw| && raw[i] == bytes[0] && StartsAt(raw, i + 1, bytes[1..])
  {
    StartsAtBytes(raw, i, bytes);
    assert raw[i + 0] == bytes[0];
    SliceOfSlice(raw, i, i + |bytes|, 1, |bytes|);
  }

  lemma OneMore(bytes: seq<Byte>, rest: seq<Byte>)
    requires bytes != []
    ensures [bytes[0]] + (bytes[1..] + rest) == bytes + rest
  {
  }

  lemma CharReads(raw: seq<Byte>, i: nat)
    requires i < |raw| && raw[i] != LT && raw[i] != AMP
    ensures From(raw, i) == ([raw[i]] + From(raw, i + 1).0, From(raw, i + 1).1)
  {
    hide CDataPiece, MarkupPiece, Reference;
    assert PieceAt(raw, i) == Piece(1, [raw[i]], true);
  }

  /** A node that stands at `i` is read as what it stands for, and reading goes on behind it. */
  lemma NodeReads(raw: seq<Byte>, i: nat, n: Node)
    requires IsNode(n) && StartsAt(raw, i, Print(n))
    requires n.Ampersand? ==> !WritesReference(raw[i..])
    requires n.Unclosed? ==> i + |Print(n)| == |raw|
    ensures var rest := From(raw, i + |Print(n)|);
            From(raw, i) == (Meaning(n) + rest.0, rest.1 && !IsReference(n))
  {
    hide PieceAt, IsNode, WritesReference;
    match n {
      case Chars(bytes) => CharsRead(raw, i, bytes);
      case Section(content) => SectionReads(raw, i, content);
      case Remark(content) => RemarkReads(raw, i, content);
      case Instruction(content) => InstructionReads(raw, i, content);
      case Tag(content) => TagReads(raw, i, content);
      case Ampersand =>
        StartsAtBytes(raw, i, [AMP]);
        assert raw[i + 0] == AMP;
        AmpersandReads(raw, i);
      case Unclosed(bytes) =>
        assert raw[i..] == raw[i..i + |bytes|];
        UnclosedReads(raw, i, bytes);
      case _ => ReferencePiece(raw, i, n);
    }
  }

  lemma {:induction false} NodesRead(raw: seq<Byte>, i: nat, ns: seq<Node>)
    requires AreNodes(ns) && Stand(ns) && i <= |raw| && raw[i..] == PrintAll(ns)
    ensures From(raw, i) == (MeaningOf(ns), !HasReference(ns))
    decreases |ns|
  {
    hide IsNode, Print, Meaning, From, IsReference, WritesReference, Stand;
    if ns == [] {
      NothingLeft(raw, i);
    } else {
      var first := Print(ns[0]);
      Behind(raw, i, first, PrintAll(ns[1..]));
      FirstStands(ns);
      NodesRead(raw, i + |first|, ns[1..]);
      NodeReads(raw, i, ns[0]);
      ReferenceFirst(ns);
    }
  }

  lemma FirstStands(ns: seq<Node>)
    requires ns != [] && Stand(ns)
    ensures ns[0].Ampersand? ==> !WritesReference(PrintAll(ns))
    ensures ns[0].Unclosed? ==> PrintAll(ns) == Print(ns[0])
    ensures Stand(ns[1..])
  {
    hide Print, WritesReference;
    assert ns[0..] == ns;
    forall k | 0 <= k < |ns[1..]| ensures ns[1..][k..] == ns[k + 1..] && ns[1..][k] == ns[k + 1] {}
  }

  lemma NothingLeft(raw: seq<Byte>, i: nat)
    requires i >= |raw|
    ensures From(raw, i) == ([], true)
  {
  }

  lemma Behind(raw: seq<Byte>, i: nat, first: seq<Byte>, rest: seq<Byte>)
    requires i <= |raw| && raw[i..] == first + rest
    ensures StartsAt(raw, i, first) && i + |first| <= |raw| && raw[i + |first|..] == rest
  {
    assert raw[i..i + |first|] == raw[i..][..|first|];
    assert raw[i + |first|..] == raw[i..][|first|..];
  }

  lemma ReferenceFirst(ns: seq<Node>)
    requires ns != []
    ensures HasReference(ns) <==> IsReference(ns[0]) || HasReference(ns[1..])
  {
    if HasReference(ns[1..]) {
      var k :| 0 <= k < |ns[1..]| && IsReference(ns[1..][k]);
      assert IsReference(ns[k + 1]);
    }
    if HasReference(ns) && !IsReference(ns[0]) {
      var k :| 0 <= k < |ns| && IsReference(ns[k]);
      assert ns[1..][k - 1] == ns[k];
    }
  }

  /**
   A body written as nodes is delivered as what they stand for, and counts as aligned exactly when
   none of them is a reference.
   */
  lemma DeliversTheNodes(ns: seq<Node>)
    requires AreNodes(ns) && Stand(ns)
    ensures TextOf(PrintAll(ns)) == (OneForOne(MeaningOf(ns)), !HasReference(ns))
  {
    hide From;
    var raw := PrintAll(ns);
    assert raw[0..] == raw;
    NodesRead(raw, 0, ns);
  }

  // ----- text that is UTF-8 -----

  /** The parts of a node that are kept byte for byte are UTF-8. */
  predicate IsText(n: Node) {
    match n
    case Chars(bytes) => Valid(bytes)
    case Section(content) => Valid(content)
    case Unclosed(bytes) => StartsAt(bytes, 0, CDATA_OPEN) ==> Valid(bytes[9..])
    case _ => true
  }

  lemma BlankIsValid(bytes: seq<Byte>)
    ensures Valid(Blank(bytes))
  {
    hide Valid;
    AsciiIsValid(Blank(bytes));
  }

  lemma MeaningIsValid(n: Node)
    requires IsNode(n) && IsText(n)
    ensures Valid(Meaning(n))
  {
    hide Valid, Encode, Number, AllDigits, Find;
    match n {
      case Chars(_) =>
      case Section(content) =>
        BlankIsValid(CDATA_OPEN);
        BlankIsValid(CDATA_CLOSE);
        ValidAppends(Blank(CDATA_OPEN), content);
        ValidAppends(Blank(CDATA_OPEN) + content, Blank(CDATA_CLOSE));
      case Remark(_) => BlankIsValid(Print(n));
      case Instruction(_) => BlankIsValid(Print(n));
      case Tag(_) => BlankIsValid(Print(n));
      case Ampersand => AsciiIsValid([AMP]);
      case Unclosed(bytes) =>
        BlankIsValid(CDATA_OPEN);
        BlankIsValid(bytes);
        if StartsAt(bytes, 0, CDATA_OPEN) { ValidAppends(Blank(CDATA_OPEN), bytes[9..]); }
      case Entity(name) => EncodeIsValid(CharacterOf(name));
      case Numbered(digits, hex) => EncodeIsValid(Number(digits, if hex then 16 else 10));
    }
  }

  lemma {:induction false} MeaningsAreValid(ns: seq<Node>)
    requires AreNodes(ns) && forall k :: 0 <= k < |ns| ==> IsText(ns[k])
    ensures Valid(MeaningOf(ns))
    decreases |ns|
  {
    hide IsNode, IsText, Meaning, Valid;
    if ns == [] {
      AsciiIsValid([]);
    } else {
      MeaningIsValid(ns[0]);
      MeaningsAreValid(ns[1..]);
      ValidAppends(Meaning(ns[0]), MeaningOf(ns[1..]));
    }
  }

  /** When its text and sections are UTF-8, a body is delivered as exactly what its nodes stand for. */
  lemma DeliversTheText(ns: seq<Node>)
    requires AreNodes(ns) && Stand(ns) && forall k :: 0 <= k < |ns| ==> IsText(ns[k])
    ensures TextOf(PrintAll(ns)) == (MeaningOf(ns), !HasReference(ns))
  {
    hide IsNode, IsText, TextOf, OneForOne, Stand;
    DeliversTheNodes(ns);
    MeaningsAreValid(ns);
    OneForOneKeepsText(MeaningOf(ns));
  }
}
