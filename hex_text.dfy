/**
  Rendering of bytes as two-digit uppercase hexadecimal text, the `{b:02X}`
  format both tools use, joined by a separator (", " in the two-phase tool,
  " " in the raw dump tool).
 */
module HexText {

  /** One element of a Python `bytes` value. */
  type byte = x: int | 0 <= x < 256

  predicate IsUpperHexDigit(c: char) {
    '0' <= c <= '9' || 'A' <= c <= 'F'
  }

  /** The numeric value of an uppercase hexadecimal digit. */
  function HexDigitValue(c: char): (n: int)
    requires IsUpperHexDigit(c)
    ensures 0 <= n < 16
  {
    if c <= '9' then c as int - '0' as int else c as int - 'A' as int + 10
  }

  /** The uppercase hexadecimal digit of a nibble. */
  function HexDigit(n: int): (c: char)
    requires 0 <= n < 16
    ensures IsUpperHexDigit(c) && HexDigitValue(c) == n
  {
    if n < 10 then ('0' as int + n) as char else ('A' as int + n - 10) as char
  }

  /** `f"{b:02X}"`: exactly two uppercase digits, leading zero kept, reading back as `b`. */
  function Hex2(b: byte): (s: string)
    ensures |s| == 2 && IsUpperHexDigit(s[0]) && IsUpperHexDigit(s[1])
    ensures HexDigitValue(s[0]) * 16 + HexDigitValue(s[1]) == b
  {
    [HexDigit(b / 16), HexDigit(b % 16)]
  }

  lemma Hex2Injective(x: byte, y: byte)
    requires Hex2(x) == Hex2(y)
    ensures x == y
  {
  }

  /** `sep.join(f"{b:02X}" for b in data)`. */
  function Join(data: seq<byte>, sep: string): (r: string)
    ensures |data| == 0 <==> r == []
    ensures |data| > 0 ==> |r| == |data| * (2 + |sep|) - |sep|
  {
    if |data| == 0 then ""
    else if |data| == 1 then Hex2(data[0])
    else Hex2(data[0]) + sep + Join(data[1..], sep)
  }

  /** Element `i` of the data occupies the `i`-th field of width `2 + |sep|`, followed by the separator. */
  lemma JoinAt(data: seq<byte>, sep: string, i: nat)
    requires i < |data|
    ensures i * (2 + |sep|) + 2 <= |Join(data, sep)|
    ensures Join(data, sep)[i * (2 + |sep|) .. i * (2 + |sep|) + 2] == Hex2(data[i])
    ensures i + 1 < |data| ==>
              i * (2 + |sep|) + 2 + |sep| <= |Join(data, sep)| &&
              Join(data, sep)[i * (2 + |sep|) + 2 .. i * (2 + |sep|) + 2 + |sep|] == sep
  {
    JoinField(data, sep, i);
    OffsetIs(i, 2 + |sep|);
  }

  /** The start of field `i` when every field is `w` wide. */
  function Offset(i: nat, w: nat): nat {
    if i == 0 then 0 else Offset(i - 1, w) + w
  }

  lemma {:induction false} OffsetIs(i: nat, w: nat)
    ensures Offset(i, w) == i * w
  {
    if i > 0 {
      OffsetIs(i - 1, w);
      MulStep(i, w);
    }
  }

  /** `JoinAt`, with the field start counted up rather than multiplied. */
  lemma {:induction false} JoinField(data: seq<byte>, sep: string, i: nat)
    requires i < |data|
    ensures Offset(i, 2 + |sep|) + 2 <= |Join(data, sep)|
    ensures Join(data, sep)[Offset(i, 2 + |sep|) .. Offset(i, 2 + |sep|) + 2] == Hex2(data[i])
    ensures i + 1 < |data| ==>
              Offset(i, 2 + |sep|) + 2 + |sep| <= |Join(data, sep)| &&
              Join(data, sep)[Offset(i, 2 + |sep|) + 2 .. Offset(i, 2 + |sep|) + 2 + |sep|] == sep
  {
    var w := 2 + |sep|;
    var r := Join(data, sep);
    if |data| == 1 {
      assert r == Hex2(data[0]);
    } else {
      var head := Hex2(data[0]) + sep;
      var tail := Join(data[1..], sep);
      assert r == head + tail;
      assert |head| == w;
      if i == 0 {
        SliceLeft(head, tail, 0, 2);
        SliceLeft(Hex2(data[0]), sep, 0, 2);
        SliceLeft(head, tail, 2, 2 + |sep|);
        SliceRight(Hex2(data[0]), sep, 0, |sep|);
      } else {
        JoinField(data[1..], sep, i - 1);
        assert data[1..][i - 1] == data[i];
        var o := Offset(i - 1, w);
        assert Offset(i, w) == w + o;
        SliceRight(head, tail, o, o + 2);
        if i + 1 < |data| {
          SliceRight(head, tail, o + 2, o + 2 + |sep|);
        }
      }
    }
  }

  lemma SliceLeft(p: string, t: string, a: nat, b: nat)
    requires a <= b <= |p|
    ensures (p + t)[a .. b] == p[a .. b]
  {
  }

  lemma SliceRight(p: string, t: string, a: nat, b: nat)
    requires a <= b <= |t|
    ensures (p + t)[|p| + a .. |p| + b] == t[a .. b]
  {
  }

  lemma MulStep(i: int, w: int)
    ensures i * w == (i - 1) * w + w
  {
  }

  /** The rendering determines the bytes: different byte strings never render alike. */
  lemma {:induction false} JoinInjective(a: seq<byte>, b: seq<byte>, sep: string)
    requires Join(a, sep) == Join(b, sep)
    ensures a == b
  {
    var r := Join(a, sep);
    if |a| == 0 || |b| == 0 {
    } else {
      assert r[..2] == Hex2(a[0]) by {
        if |a| > 1 { assert r == Hex2(a[0]) + sep + Join(a[1..], sep); }
      }
      assert r[..2] == Hex2(b[0]) by {
        if |b| > 1 { assert r == Hex2(b[0]) + sep + Join(b[1..], sep); }
      }
      Hex2Injective(a[0], b[0]);
      if |a| == 1 || |b| == 1 {
        assert |a| == 1 && |b| == 1;
        assert a == [a[0]] && b == [b[0]];
      } else {
        assert r[2 + |sep|..] == Join(a[1..], sep);
        assert r[2 + |sep|..] == Join(b[1..], sep);
        JoinInjective(a[1..], b[1..], sep);
        assert a == [a[0]] + a[1..] && b == [b[0]] + b[1..];
      }
    }
  }
}
