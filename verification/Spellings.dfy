/** The byte strings of the other modules, as they are read. */
module Spellings {
  import opened Bytes
  import A = Attributes
  import C = Comments
  import E = ScriptEnd
  import F = Extents
  import I = Image4
  import N = XmlNodes
  import P = PageScan
  import Phar
  import R = References
  import T = HtmlTokenizer
  import X = XmlScript
  import XmlText

  lemma Markup()
    ensures E.OPEN_COMMENT == Spelled("<!--")
    ensures C.DASH_DASH_GT == Spelled("-->") && C.DASH_DASH_BANG_GT == Spelled("--!>")
    ensures X.CDATA_OPEN == Spelled("<![CDATA[") && X.CDATA_CLOSE == Spelled("]]>")
    ensures X.PI_OPEN == Spelled("<?") && X.PI_CLOSE == Spelled("?>")
    ensures [LT, SLASH] == Spelled("</") && [R.AMP, R.HASH, R.LOWER_X, R.UPPER_X, R.SEMICOLON] == Spelled("&#xX;")
    ensures [EQUALS, SPACE] == Spelled("= ") && [TAB, LF, CR] == Spelled("\t\n\r") && FF == 12
  {
  }

  lemma Elements()
    ensures T.SCRIPT == Spelled("script") && P.PLAINTEXT == Spelled("plaintext")
    ensures var raw := P.RAW_TEXT_ELEMENTS;
            && |raw| == 8 && raw[0] == Spelled("iframe") && raw[1] == Spelled("noembed")
            && raw[2] == Spelled("noframes") && raw[3] == Spelled("noscript") && raw[4] == Spelled("style")
            && raw[5] == Spelled("textarea") && raw[6] == Spelled("title") && raw[7] == Spelled("xmp")
  {
  }

  lemma Attributes()
    ensures A.TYPE == Spelled("type") && A.LANGUAGE == Spelled("language")
    ensures A.TEXT == Spelled("text/") && A.TEXT_JAVASCRIPT == Spelled("text/javascript")
    ensures A.MODULE == Spelled("module")
  {
    assert |A.TEXT_JAVASCRIPT| == |"text/javascript"| == 15;
    assert forall k :: 0 <= k < 5 ==> A.TEXT_JAVASCRIPT[k] == A.TEXT[k];
  }

  /** XML's five entities and what they stand for. */
  lemma Entities()
    ensures var names := N.ENTITIES;
            && |names| == 5 && names[0] == Spelled("lt") && names[1] == Spelled("gt") && names[2] == Spelled("amp")
            && names[3] == Spelled("quot") && names[4] == Spelled("apos")
    ensures N.CHARACTERS == ['<' as int, '>' as int, '&' as int, '"' as int, '\'' as int]
  {
  }

  /** The digits, and the letters of either case, as numbers read them. */
  lemma Digits(n: nat)
    requires n < 16
    ensures R.DigitValue(Spelled("0123456789abcdef")[n]) == n && R.DigitValue(Spelled("0123456789ABCDEF")[n]) == n
  {
  }

  const SMALL := "abcdefghijklmnopqrstuvwxyz"
  const CAPITALS := "ABCDEFGHIJKLMNOPQRSTUVWXYZ"

  /** Letters, and the small one of each; any other byte is none, and its own. */
  lemma Letters(b: Byte)
    ensures IsAlpha(b) <==> b as char in SMALL || b as char in CAPITALS
    ensures forall n :: 0 <= n < 26 ==> Lower(CAPITALS[n] as int) == SMALL[n] as int
    ensures b as char !in CAPITALS ==> Lower(b) == b
  {
    forall n: nat | n < 26 ensures SMALL[n] as int == 0x61 + n && CAPITALS[n] as int == 0x41 + n {}
    if 0x61 <= b <= 0x7A { assert SMALL[b - 0x61] == b as char; }
    if 0x41 <= b <= 0x5A { assert CAPITALS[b - 0x41] == b as char; }
  }

  lemma Containers()
    ensures I.IM4P == Spelled("IM4P") && I.TRCA == Spelled("trca") && I.VERSION_2 == [2, 0, 0, 0]
  {
  }

  lemma Limits()
    ensures Phar.MAX_MANIFEST_SIZE == 100 * 1024 * 1024 && Phar.MAX_DETECT_STUB == 1024 * 1024
    ensures I.MAX_SIZE == 16 * 1024 * 1024 && XmlText.LONGEST_REFERENCE == 16 && F.MAX_WALK_FACTOR == 2
  {
  }
}
