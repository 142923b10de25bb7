/** The legal XML characters: the `Char` production of section 2.2 of the
    XML 1.0 specification, and the host's UTF-16 scan (`XmlConvert.VerifyXmlChars`)
    that decides it on a .NET string; and the names an attribute may have,
    the `NCName` production of Namespaces in XML 1.0. */
module XmlChars {

  /** Section 2.2 of XML 1.0: Char ::= #x9 | #xA | #xD | [#x20-#xD7FF]
      | [#xE000-#xFFFD] | [#x10000-#x10FFFF]. */
  predicate IsXmlChar(c: char) {
    var n := c as int;
    n == 0x9 || n == 0xA || n == 0xD || 0x20 <= n <= 0xD7FF || 0xE000 <= n <= 0xFFFD || 0x10000 <= n <= 0x10FFFF
  }

  /** Every character of `s` is a legal XML character. */
  predicate IsXmlText(s: string) {
    forall i | 0 <= i < |s| :: IsXmlChar(s[i])
  }

  /** The UTF-16 code units of one character, as a .NET string stores it. */
  function Utf16Char(c: char): (u: seq<int>)
    ensures |u| == 1 || |u| == 2
    ensures |u| == 1 <==> c as int < 0x10000
    ensures |u| == 2 ==> 0xD800 <= u[0] <= 0xDBFF && 0xDC00 <= u[1] <= 0xDFFF
    ensures |u| == 1 ==> !(0xD800 <= u[0] <= 0xDFFF) && u[0] == c as int
  {
    var n := c as int;
    if n < 0x10000 then [n]
    else [0xD800 + (n - 0x10000) / 0x400, 0xDC00 + (n - 0x10000) % 0x400]
  }

  /** The UTF-16 code units of a string. */
  function Utf16(s: string): seq<int>
    decreases |s|
  {
    if s == [] then [] else Utf16Char(s[0]) + Utf16(s[1..])
  }

  /** A single UTF-16 code unit that is a legal XML character on its own. */
  predicate IsXmlCharUnit(u: int) {
    u == 0x9 || u == 0xA || u == 0xD || 0x20 <= u <= 0xD7FF || 0xE000 <= u <= 0xFFFD
  }

  /** The host's scan over UTF-16 code units: a legal single unit, or a high
      surrogate immediately followed by a low surrogate; anything else (a
      control character, U+FFFE, U+FFFF, a lone surrogate) is rejected. */
  function VerifyXmlChars(u: seq<int>): bool
    decreases |u|
  {
    if u == [] then true
    else if 0xD800 <= u[0] <= 0xDBFF then |u| >= 2 && 0xDC00 <= u[1] <= 0xDFFF && VerifyXmlChars(u[2..])
    else IsXmlCharUnit(u[0]) && VerifyXmlChars(u[1..])
  }

  /** The host's code-unit scan accepts a string exactly when every one of its
      characters is in the `Char` production. */
  lemma {:induction false} VerifyXmlCharsIsCharProduction(s: string)
    ensures VerifyXmlChars(Utf16(s)) <==> IsXmlText(s)
    decreases |s|
  {
    if s != [] {
      VerifyXmlCharsIsCharProduction(s[1..]);
      var u := Utf16(s);
      var head := Utf16Char(s[0]);
      assert u == head + Utf16(s[1..]);
      if |head| == 2 {
        assert u[2..] == Utf16(s[1..]);
      } else {
        assert u[1..] == Utf16(s[1..]);
      }
      assert IsXmlText(s) <==> IsXmlChar(s[0]) && IsXmlText(s[1..]) by {
        if IsXmlChar(s[0]) && IsXmlText(s[1..]) {
          forall i | 0 <= i < |s| ensures IsXmlChar(s[i]) {
            if i > 0 { assert s[i] == s[1..][i - 1]; }
          }
        }
        if IsXmlText(s) {
          forall i | 0 <= i < |s[1..]| ensures IsXmlChar(s[1..][i]) {
            assert s[1..][i] == s[i + 1];
          }
        }
      }
    }
  }

  /** Text is legal exactly when both of its parts are. */
  lemma XmlTextAppend(a: string, b: string)
    ensures IsXmlText(a + b) <==> IsXmlText(a) && IsXmlText(b)
  {
    if IsXmlText(a + b) {
      forall i | 0 <= i < |a| ensures IsXmlChar(a[i]) {
        assert (a + b)[i] == a[i];
      }
      forall i | 0 <= i < |b| ensures IsXmlChar(b[i]) {
        assert (a + b)[|a| + i] == b[i];
      }
    }
  }

  /** Section 2.3 of XML 1.0 (fifth edition): NameStartChar. */
  predicate IsNameStartChar(c: char) {
    var n := c as int;
    || c == ':' || 'A' <= c <= 'Z' || c == '_' || 'a' <= c <= 'z'
    || 0xC0 <= n <= 0xD6 || 0xD8 <= n <= 0xF6 || 0xF8 <= n <= 0x2FF || 0x370 <= n <= 0x37D
    || 0x37F <= n <= 0x1FFF || 0x200C <= n <= 0x200D || 0x2070 <= n <= 0x218F || 0x2C00 <= n <= 0x2FEF
    || 0x3001 <= n <= 0xD7FF || 0xF900 <= n <= 0xFDCF || 0xFDF0 <= n <= 0xFFFD || 0x10000 <= n <= 0xEFFFF
  }

  /** Section 2.3 of XML 1.0 (fifth edition): NameChar. */
  predicate IsNameChar(c: char) {
    var n := c as int;
    IsNameStartChar(c) || c == '-' || c == '.' || '0' <= c <= '9' || n == 0xB7 || 0x300 <= n <= 0x36F || 0x203F <= n <= 0x2040
  }

  /** Section 3 of Namespaces in XML 1.0: an `NCName` is an XML `Name`
      without a colon. */
  predicate IsNCName(s: string) {
    && |s| > 0 && IsNameStartChar(s[0])
    && (forall i | 0 <= i < |s| :: s[i] != ':')
    && (forall i | 1 <= i < |s| :: IsNameChar(s[i]))
  }

  /** An ASCII name made of letters only is an `NCName`. */
  lemma LettersAreNCName(s: string)
    requires |s| > 0 && forall i | 0 <= i < |s| :: 'A' <= s[i] <= 'Z' || 'a' <= s[i] <= 'z'
    ensures IsNCName(s)
  {
  }
}
