/**
  The subset of Python's `int(token, 0)` that request tokens use: an optional
  sign, then either a `0x`/`0X`, `0o`/`0O` or `0b`/`0B` prefix followed by
  digits of that base, or a decimal numeral, which may not start with `0`
  unless it is all zeros (`0`, `00`). Single underscores may sit between
  digits, and one directly after a prefix.
 */
module PyInt {
  import opened Wrappers
  import opened HexText

  /** The value of `c` as a digit in bases up to 36, or 36 when `c` is no digit. */
  function DigitValue(c: char): (d: nat)
    ensures d <= 36
    ensures IsUpperHexDigit(c) ==> d == HexDigitValue(c)
  {
    if '0' <= c <= '9' then c as int - '0' as int
    else if 'a' <= c <= 'z' then c as int - 'a' as int + 10
    else if 'A' <= c <= 'Z' then c as int - 'A' as int + 10
    else 36
  }

  /** Digits of `base` with single underscores between them: `7E`, `1_000`, but not `_1`, `1_` or `1__0`. */
  predicate IsGrouped(s: string, base: nat) {
    |s| > 0 && s[0] != '_' && s[|s| - 1] != '_'
    && (forall i :: 0 <= i < |s| ==> s[i] == '_' || DigitValue(s[i]) < base)
    && (forall i :: 0 <= i < |s| - 1 ==> s[i] == '_' ==> s[i + 1] != '_')
  }

  /** The digits of a grouped numeral, underscores dropped. */
  function Digits(s: string): (ds: string)
    ensures |ds| <= |s|
    ensures forall i :: 0 <= i < |ds| ==> ds[i] != '_'
  {
    if |s| == 0 then [] else (if s[0] == '_' then [] else [s[0]]) + Digits(s[1..])
  }

  /** The value of a digit string in `base`, most significant digit first. */
  function ValueOf(ds: string, base: nat): nat {
    if |ds| == 0 then 0 else ValueOf(ds[..|ds| - 1], base) * base + DigitValue(ds[|ds| - 1])
  }

  /** The base that a prefix letter after `0` selects, or 0 for none. */
  function PrefixBase(c: char): nat {
    if c == 'x' || c == 'X' then 16
    else if c == 'o' || c == 'O' then 8
    else if c == 'b' || c == 'B' then 2
    else 0
  }

  /** An unsigned base-0 literal. */
  function UnsignedValue(b: string): Option<nat> {
    if |b| >= 2 && b[0] == '0' && PrefixBase(b[1]) != 0 then
      var base := PrefixBase(b[1]);
      var rest := if |b| > 2 && b[2] == '_' then b[3..] else b[2..];
      if IsGrouped(rest, base) then Some(ValueOf(Digits(rest), base)) else None
    else if IsGrouped(b, 10) then
      if b[0] == '0' && ValueOf(Digits(b), 10) != 0 then None
      else Some(ValueOf(Digits(b), 10))
    else None
  }

  /** `int(tok, 0)`, or `None` where Python raises `ValueError`. */
  function IntLiteral(tok: string): Option<int> {
    if |tok| > 0 && (tok[0] == '+' || tok[0] == '-') then
      match UnsignedValue(tok[1..])
      case None => None
      case Some(v) => Some(if tok[0] == '-' then -(v as int) else v as int)
    else
      match UnsignedValue(tok)
      case None => None
      case Some(v) => Some(v)
  }

  // ---------------------------------------------------------------------
  // What a token means
  // ---------------------------------------------------------------------

  lemma {:induction false} DigitsPlain(s: string)
    requires forall i :: 0 <= i < |s| ==> s[i] != '_'
    ensures Digits(s) == s
  {
    if |s| > 0 {
      DigitsPlain(s[1..]);
      assert s == [s[0]] + s[1..];
    }
  }

  /** `0x` or `0X` followed by hexadecimal digits of either case reads as their base-16 value. */
  lemma HexDigitsValue(prefix: string, ds: string)
    requires prefix == "0x" || prefix == "0X"
    requires |ds| > 0 && forall i :: 0 <= i < |ds| ==> DigitValue(ds[i]) < 16
    ensures IntLiteral(prefix + ds) == Some(ValueOf(ds, 16))
  {
    var tok := prefix + ds;
    assert tok[2..] == ds;
    assert DigitValue('_') == 36;
    assert tok[0] == '0' && PrefixBase(tok[1]) == 16;
    assert IsGrouped(ds, 16);
    DigitsPlain(ds);
  }

  /** `0x` or `0X` followed by any two hexadecimal digits, upper or lower case, reads as `16 * d1 + d2`. */
  lemma HexTokenValue(prefix: string, d1: char, d2: char)
    requires prefix == "0x" || prefix == "0X"
    requires DigitValue(d1) < 16 && DigitValue(d2) < 16
    ensures IntLiteral(prefix + [d1, d2]) == Some(16 * DigitValue(d1) + DigitValue(d2))
  {
    var h := [d1, d2];
    HexDigitsValue(prefix, h);
    assert h[..1] == [d1];
    assert ValueOf([d1], 16) == DigitValue(d1) by {
      assert [d1][..0] == [];
    }
  }

  /** In particular the two upper-case digits `Hex2` renders for a byte read back as that byte. */
  lemma HexByteToken(b: byte, prefix: string)
    requires prefix == "0x" || prefix == "0X"
    ensures IntLiteral(prefix + Hex2(b)) == Some(b)
  {
    var h := Hex2(b);
    assert h == [h[0], h[1]];
    HexTokenValue(prefix, h[0], h[1]);
  }

  /** The canonical decimal numeral of `n`: no sign, no leading zero. */
  function DecimalText(n: nat): (s: string)
    ensures |s| > 0
    ensures forall i :: 0 <= i < |s| ==> '0' <= s[i] <= '9'
    ensures n > 0 ==> s[0] != '0'
  {
    if n < 10 then [('0' as int + n) as char] else DecimalText(n / 10) + [('0' as int + n % 10) as char]
  }

  lemma {:induction false} DecimalTextValue(n: nat)
    ensures ValueOf(DecimalText(n), 10) == n
  {
    var s := DecimalText(n);
    if n >= 10 {
      DecimalTextValue(n / 10);
      assert s[..|s| - 1] == DecimalText(n / 10);
    }
  }

  /** A bare decimal numeral without leading zeros reads as its decimal value (so `14` is fourteen). */
  lemma DecimalTokenValue(n: nat)
    ensures IntLiteral(DecimalText(n)) == Some(n)
  {
    var s := DecimalText(n);
    DigitsPlain(s);
    DecimalTextValue(n);
    if n == 0 {
      assert s == "0";
    }
  }

  /** A bare token of hexadecimal digits that holds a letter A-F and does not start with `0` is refused. */
  lemma BareHexRefused(tok: string)
    requires |tok| > 0 && tok[0] != '0'
    requires forall i :: 0 <= i < |tok| ==> '0' <= tok[i] <= '9' || 'A' <= tok[i] <= 'F' || 'a' <= tok[i] <= 'f'
    requires exists i :: 0 <= i < |tok| && ('A' <= tok[i] <= 'F' || 'a' <= tok[i] <= 'f')
    ensures IntLiteral(tok) == None
  {
    var i :| 0 <= i < |tok| && ('A' <= tok[i] <= 'F' || 'a' <= tok[i] <= 'f');
    assert DigitValue(tok[i]) >= 10;
  }

  /** A bare decimal numeral with a leading zero is refused unless it is all zeros. */
  lemma LeadingZeroRefused(tok: string)
    requires |tok| >= 2 && tok[0] == '0'
    requires forall i :: 0 <= i < |tok| ==> '0' <= tok[i] <= '9'
    requires exists i :: 0 <= i < |tok| && tok[i] != '0'
    ensures IntLiteral(tok) == None
  {
    assert PrefixBase(tok[1]) == 0;
    assert IsGrouped(tok, 10) by {
      forall k | 0 <= k < |tok|
        ensures DigitValue(tok[k]) < 10
      {
      }
    }
    DigitsPlain(tok);
    var i :| 0 <= i < |tok| && tok[i] != '0';
    ValueNonZero(tok, i);
    assert UnsignedValue(tok) == None;
  }

  lemma {:induction false} ValueNonZero(ds: string, i: nat)
    requires i < |ds| && DigitValue(ds[i]) != 0
    ensures ValueOf(ds, 10) != 0
  {
    if i < |ds| - 1 {
      ValueNonZero(ds[..|ds| - 1], i);
    }
  }

  /** Numerals of zeros read as zero. */
  lemma {:induction false} ZerosValue(ds: string)
    requires forall i :: 0 <= i < |ds| ==> ds[i] == '0'
    ensures ValueOf(ds, 10) == 0
  {
    if |ds| > 0 {
      ZerosValue(ds[..|ds| - 1]);
    }
  }

  /** `0x7E` and `0X7E` read as 126. */
  lemma HexExamples()
    ensures IntLiteral("0x7E") == Some(126) && IntLiteral("0X7E") == Some(126)
    ensures IntLiteral("0x7e") == Some(126)
  {
    HexTokenValue("0x", '7', 'E');
    HexTokenValue("0X", '7', 'E');
    HexTokenValue("0x", '7', 'e');
    assert "0x7E" == "0x" + ['7', 'E'];
    assert "0X7E" == "0X" + ['7', 'E'];
    assert "0x7e" == "0x" + ['7', 'e'];
  }

  /** `0x100` reads as 256, outside the byte range. */
  lemma WideHexExample()
    ensures IntLiteral("0x100") == Some(256)
  {
    var t := "0x100";
    assert t[2..] == "100";
    DigitsPlain("100");
    assert IsGrouped("100", 16);
    assert "100"[..2] == "10" && "10"[..1] == "1" && "1"[..0] == [];
    assert ValueOf("100", 16) == 256;
  }

  /** Bare `14` is fourteen and `256` is 256. */
  lemma DecimalExamples()
    ensures IntLiteral("14") == Some(14) && IntLiteral("256") == Some(256)
  {
    DecimalTokenValue(14);
    DecimalTokenValue(256);
    assert DecimalText(14) == "14";
    assert DecimalText(25) == "25";
    assert DecimalText(256) == "256";
  }

  /** `-1` is minus one; `0` and `00` are zero. */
  lemma SmallExamples()
    ensures IntLiteral("0") == Some(0) && IntLiteral("00") == Some(0)
    ensures IntLiteral("-1") == Some(-1)
  {
    DecimalTokenValue(0);
    DecimalTokenValue(1);
    assert DecimalText(0) == "0";
    assert DecimalText(1) == "1";
    assert "-1"[1..] == "1";
    DigitsPlain("00");
    ZerosValue("00");
    assert IsGrouped("00", 10);
  }

  /** Bare `7E` and `ZZ` and leading-zero `07` are refused. */
  lemma RefusedExamples()
    ensures IntLiteral("7E") == None && IntLiteral("07") == None && IntLiteral("ZZ") == None
  {
    assert "7E"[1] == 'E';
    BareHexRefused("7E");
    assert "07"[1] == '7';
    LeadingZeroRefused("07");
    assert DigitValue('Z') >= 10;
  }
}
