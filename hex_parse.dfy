/**
  `_parse_hex_sequence` of the two-phase tool: request text to bytes.
  The text is split on whitespace, commas and semicolons, and every token is
  read as a Python base-0 integer literal (`int(token, 0)`) that must lie in
  0..255.
 */
module HexParse {
  import opened Wrappers
  import opened HexText
  import opened PyInt

  // ---------------------------------------------------------------------
  // Tokenising: `text.replace(",", " ").replace(";", " ").split()`
  // ---------------------------------------------------------------------

  /** Python's `str.isspace()`, the characters `str.split()` splits on. */
  predicate IsPySpace(c: char) {
    var n := c as int;
    n == 32 || 9 <= n <= 13 || 28 <= n <= 31 || n == 0x85 || n == 0xA0 || n == 0x1680
    || 0x2000 <= n <= 0x200A || n == 0x2028 || n == 0x2029 || n == 0x202F
    || n == 0x205F || n == 0x3000
  }

  /** A character that ends a token of request text. */
  predicate IsSeparator(c: char) {
    c == ',' || c == ';' || IsPySpace(c)
  }

  /** The two `replace` calls: commas and semicolons become spaces. */
  function Normalize(s: string): (r: string)
    ensures |r| == |s|
    ensures forall i :: 0 <= i < |s| ==> (IsPySpace(r[i]) <==> IsSeparator(s[i]))
    ensures forall i :: 0 <= i < |s| && !IsSeparator(s[i]) ==> r[i] == s[i]
  {
    seq(|s|, i requires 0 <= i < |s| => if s[i] == ',' || s[i] == ';' then ' ' else s[i])
  }

  /** `str.split()` scanning `s` with the token `cur` collected so far. */
  function SplitFrom(s: string, cur: string): seq<string>
    decreases |s|
  {
    if |s| == 0 then (if cur == [] then [] else [cur])
    else if IsPySpace(s[0]) then
      (if cur == [] then SplitFrom(s[1..], []) else [cur] + SplitFrom(s[1..], []))
    else SplitFrom(s[1..], cur + [s[0]])
  }

  /** `str.split()` with no argument. */
  function Split(s: string): seq<string> {
    SplitFrom(s, [])
  }

  /** True of the pieces `str.split()` produces: non-empty runs without white space. */
  predicate IsWord(w: string) {
    w != [] && forall i :: 0 <= i < |w| ==> !IsPySpace(w[i])
  }

  /** The tokens of a request text. */
  function Tokens(text: string): seq<string> {
    Split(Normalize(text))
  }

  lemma {:induction false} SplitFromWords(s: string, cur: string)
    requires forall i :: 0 <= i < |cur| ==> !IsPySpace(cur[i])
    ensures forall k :: 0 <= k < |SplitFrom(s, cur)| ==> IsWord(SplitFrom(s, cur)[k])
    decreases |s|
  {
    if |s| == 0 {
    } else if IsPySpace(s[0]) {
      SplitFromWords(s[1..], []);
    } else {
      SplitFromWords(s[1..], cur + [s[0]]);
    }
  }

  /** Every piece of `str.split()` is a non-empty run of non-space characters. */
  lemma SplitWords(s: string)
    ensures forall k :: 0 <= k < |Split(s)| ==> IsWord(Split(s)[k])
  {
    SplitFromWords(s, []);
  }

  lemma {:induction false} SplitFromEmpty(s: string, cur: string)
    ensures SplitFrom(s, cur) == [] <==> cur == [] && forall i :: 0 <= i < |s| ==> IsPySpace(s[i])
    decreases |s|
  {
    if |s| == 0 {
    } else if IsPySpace(s[0]) {
      SplitFromEmpty(s[1..], []);
      if cur == [] {
        assert forall i :: 1 <= i < |s| ==> s[i] == s[1..][i - 1];
      }
    } else {
      SplitFromEmpty(s[1..], cur + [s[0]]);
    }
  }

  /** `str.split()` finds no piece exactly when the text is all white space. */
  lemma SplitEmptyIff(s: string)
    ensures Split(s) == [] <==> forall i :: 0 <= i < |s| ==> IsPySpace(s[i])
  {
    SplitFromEmpty(s, []);
  }

  /** Two texts with white space at the same places and the same other characters split alike. */
  lemma {:induction false} SplitFromSameMask(s: string, t: string, cur: string)
    requires |s| == |t|
    requires forall i :: 0 <= i < |s| ==> (IsPySpace(s[i]) <==> IsPySpace(t[i]))
    requires forall i :: 0 <= i < |s| && !IsPySpace(s[i]) ==> s[i] == t[i]
    ensures SplitFrom(s, cur) == SplitFrom(t, cur)
    decreases |s|
  {
    if |s| == 0 {
    } else {
      assert forall i :: 0 <= i < |s| - 1 ==> s[1..][i] == s[i + 1] && t[1..][i] == t[i + 1];
      if IsPySpace(s[0]) {
        SplitFromSameMask(s[1..], t[1..], []);
      } else {
        SplitFromSameMask(s[1..], t[1..], cur + [s[0]]);
      }
    }
  }

  /** Two consecutive white-space characters split like one. */
  lemma {:induction false} SplitFromCollapse(a: string, x: char, y: char, b: string, cur: string)
    requires IsPySpace(x) && IsPySpace(y)
    ensures SplitFrom(a + [x, y] + b, cur) == SplitFrom(a + [x] + b, cur)
    decreases |a|
  {
    if |a| == 0 {
      assert a + [x, y] + b == [x, y] + b;
      assert a + [x] + b == [x] + b;
      assert ([x, y] + b)[1..] == [y] + b;
      assert ([y] + b)[1..] == b;
      assert ([x] + b)[1..] == b;
    } else {
      assert (a + [x, y] + b)[1..] == a[1..] + [x, y] + b;
      assert (a + [x] + b)[1..] == a[1..] + [x] + b;
      if IsPySpace(a[0]) {
        SplitFromCollapse(a[1..], x, y, b, []);
      } else {
        SplitFromCollapse(a[1..], x, y, b, cur + [a[0]]);
      }
    }
  }

  /** A word followed by more text extends the token being collected. */
  lemma {:induction false} SplitFromWord(w: string, rest: string, cur: string)
    requires forall i :: 0 <= i < |w| ==> !IsPySpace(w[i])
    ensures SplitFrom(w + rest, cur) == SplitFrom(rest, cur + w)
    decreases |w|
  {
    if |w| == 0 {
      assert w + rest == rest;
      assert cur + w == cur;
    } else {
      assert (w + rest)[1..] == w[1..] + rest;
      SplitFromWord(w[1..], rest, cur + [w[0]]);
      assert cur + [w[0]] + w[1..] == cur + w;
    }
  }

  /** Words joined by single spaces: the inverse of `str.split()`. */
  function Unwords(ws: seq<string>): string {
    if |ws| == 0 then ""
    else if |ws| == 1 then ws[0]
    else ws[0] + " " + Unwords(ws[1..])
  }

  /** Splitting words joined by spaces gives the words back. */
  lemma {:induction false} SplitUnwords(ws: seq<string>)
    requires forall k :: 0 <= k < |ws| ==> IsWord(ws[k])
    ensures Split(Unwords(ws)) == ws
  {
    if |ws| == 0 {
    } else if |ws| == 1 {
      SplitFromWord(ws[0], "", []);
      assert ws[0] + "" == ws[0];
      assert [] + ws[0] == ws[0];
      assert SplitFrom("", ws[0]) == [ws[0]];
    } else {
      var rest := Unwords(ws[1..]);
      assert Unwords(ws) == ws[0] + (" " + rest);
      SplitFromWord(ws[0], " " + rest, []);
      assert (" " + rest)[1..] == rest;
      assert [] + ws[0] == ws[0];
      assert SplitFrom(" " + rest, ws[0]) == [ws[0]] + SplitFrom(rest, []);
      SplitUnwords(ws[1..]);
      assert ws == [ws[0]] + ws[1..];
    }
  }

  /** No tokens exactly when the text is made only of separators. */
  lemma TokensEmptyIff(text: string)
    ensures Tokens(text) == [] <==> forall i :: 0 <= i < |text| ==> IsSeparator(text[i])
  {
    SplitEmptyIff(Normalize(text));
  }

  /** Commas, semicolons and white space are interchangeable. */
  lemma TokensSameSeparators(s: string, t: string)
    requires |s| == |t|
    requires forall i :: 0 <= i < |s| ==> (IsSeparator(s[i]) <==> IsSeparator(t[i]))
    requires forall i :: 0 <= i < |s| && !IsSeparator(s[i]) ==> s[i] == t[i]
    ensures Tokens(s) == Tokens(t)
  {
    SplitFromSameMask(Normalize(s), Normalize(t), []);
  }

  /** A run of two separators acts as one (and so does any longer run, by repetition). */
  lemma TokensCollapse(a: string, x: char, y: char, b: string)
    requires IsSeparator(x) && IsSeparator(y)
    ensures Tokens(a + [x, y] + b) == Tokens(a + [x] + b)
  {
    var nx := Normalize([x])[0];
    var ny := Normalize([y])[0];
    assert Normalize(a + [x, y] + b) == Normalize(a) + [nx, ny] + Normalize(b);
    assert Normalize(a + [x] + b) == Normalize(a) + [nx] + Normalize(b);
    SplitFromCollapse(Normalize(a), nx, ny, Normalize(b), []);
  }

  // ---------------------------------------------------------------------
  // Tokens to bytes
  // ---------------------------------------------------------------------

  /** Why a request text has no bytes; `ValueError` in the source. */
  datatype ParseError =
    | EmptyText
    | NoTokens
    | NotAnInteger(token: string)
    | OutOfByteRange(value: int, token: string)

  /** A token that `int(token, 0)` reads as a value in 0..255. */
  predicate IsByteToken(tok: string) {
    IntLiteral(tok).Some? && 0 <= IntLiteral(tok).value <= 0xFF
  }

  /** The bytes of the tokens, or the error raised at the first token without one. */
  function ParseTokens(toks: seq<string>): Result<seq<byte>, ParseError> {
    if |toks| == 0 then Ok([])
    else
      match IntLiteral(toks[0])
      case None => Err(NotAnInteger(toks[0]))
      case Some(v) =>
        if !(0 <= v <= 0xFF) then Err(OutOfByteRange(v, toks[0]))
        else
          match ParseTokens(toks[1..])
          case Ok(rest) => Ok([v as byte] + rest)
          case Err(e) => Err(e)
  }

  /** What `_parse_hex_sequence` returns or raises for `text`. */
  function ParseSpec(text: string): Result<seq<byte>, ParseError> {
    if text == [] then Err(EmptyText)
    else if Tokens(text) == [] then Err(NoTokens)
    else ParseTokens(Tokens(text))
  }

  /** `vs` followed by the bytes of `r`, or the error of `r`. */
  function Prepend(vs: seq<byte>, r: Result<seq<byte>, ParseError>): Result<seq<byte>, ParseError> {
    match r
    case Ok(w) => Ok(vs + w)
    case Err(e) => Err(e)
  }

  /** `_parse_hex_sequence`: the token list and the value list are built by two loops that stop at the first error. */
  method ParseHexSequence(text: string) returns (r: Result<seq<byte>, ParseError>)
    ensures r == ParseSpec(text)
  {
    if |text| == 0 {
      return Err(EmptyText);
    }
    var parts := Split(Normalize(text));
    SplitWords(Normalize(text));
    var tokens: seq<string> := [];
    for i := 0 to |parts|
      invariant tokens == parts[..i]
    {
      if parts[i] != [] {
        tokens := tokens + [parts[i]];
      }
    }
    assert tokens == parts;
    if |tokens| == 0 {
      return Err(NoTokens);
    }
    var values: seq<byte> := [];
    PrependNothing(ParseTokens(tokens));
    assert tokens[0..] == tokens;
    for i := 0 to |tokens|
      invariant ParseTokens(tokens) == Prepend(values, ParseTokens(tokens[i..]))
    {
      ParseTokensStep(tokens, i);
      var value := IntLiteral(tokens[i]);
      if value.None? {
        return Err(NotAnInteger(tokens[i]));
      }
      if !(0 <= value.value <= 0xFF) {
        return Err(OutOfByteRange(value.value, tokens[i]));
      }
      PrependAppend(values, value.value, ParseTokens(tokens[i + 1..]));
      values := values + [value.value as byte];
    }
    assert tokens[|tokens|..] == [];
    assert values + [] == values;
    return Ok(values);
  }

  lemma PrependNothing(r: Result<seq<byte>, ParseError>)
    ensures Prepend([], r) == r
  {
    if r.Ok? {
      assert [] + r.value == r.value;
    }
  }

  lemma PrependAppend(vs: seq<byte>, v: byte, r: Result<seq<byte>, ParseError>)
    ensures Prepend(vs, Prepend([v], r)) == Prepend(vs + [v], r)
  {
    if r.Ok? {
      assert vs + ([v] + r.value) == vs + [v] + r.value;
    }
  }

  /** The parse of the tokens from `i` on, by the token at `i`. */
  lemma ParseTokensStep(toks: seq<string>, i: nat)
    requires i < |toks|
    ensures IntLiteral(toks[i]).None? ==> ParseTokens(toks[i..]) == Err(NotAnInteger(toks[i]))
    ensures IntLiteral(toks[i]).Some? && !IsByteToken(toks[i]) ==>
              ParseTokens(toks[i..]) == Err(OutOfByteRange(IntLiteral(toks[i]).value, toks[i]))
    ensures IsByteToken(toks[i]) ==>
              ParseTokens(toks[i..]) == Prepend([IntLiteral(toks[i]).value as byte], ParseTokens(toks[i + 1..]))
  {
    assert toks[i..][0] == toks[i] && toks[i..][1..] == toks[i + 1..];
  }

  /** The parse succeeds exactly when every token is a byte; then it yields one byte per token, in token order. */
  lemma {:induction false} ParseTokensOk(toks: seq<string>)
    ensures ParseTokens(toks).Ok? <==> forall i :: 0 <= i < |toks| ==> IsByteToken(toks[i])
    ensures ParseTokens(toks).Ok? ==>
              |ParseTokens(toks).value| == |toks| &&
              forall i :: 0 <= i < |toks| ==> ParseTokens(toks).value[i] == IntLiteral(toks[i]).value
  {
    if |toks| > 0 {
      ParseTokensOk(toks[1..]);
      assert forall i :: 1 <= i < |toks| ==> toks[i] == toks[1..][i - 1];
    }
  }

  /** A failed parse reports the first token that is not a byte, and why. */
  lemma {:induction false} ParseTokensFirstError(toks: seq<string>)
    requires ParseTokens(toks).Err?
    ensures exists i :: 0 <= i < |toks| && (forall j :: 0 <= j < i ==> IsByteToken(toks[j])) &&
              !IsByteToken(toks[i]) &&
              ParseTokens(toks).error ==
                (if IntLiteral(toks[i]).None? then NotAnInteger(toks[i])
                 else OutOfByteRange(IntLiteral(toks[i]).value, toks[i]))
  {
    if IsByteToken(toks[0]) {
      ParseTokensFirstError(toks[1..]);
      var i :| 0 <= i < |toks[1..]| && (forall j :: 0 <= j < i ==> IsByteToken(toks[1..][j])) &&
               !IsByteToken(toks[1..][i]) &&
               ParseTokens(toks[1..]).error ==
                 (if IntLiteral(toks[1..][i]).None? then NotAnInteger(toks[1..][i])
                  else OutOfByteRange(IntLiteral(toks[1..][i]).value, toks[1..][i]));
      assert forall j :: 1 <= j < i + 1 ==> toks[j] == toks[1..][j - 1];
      assert toks[i + 1] == toks[1..][i];
    }
  }

  /** The empty text is refused, and so is a text made only of separators. */
  lemma ParseNoTokens(text: string)
    ensures text == [] ==> ParseSpec(text) == Err(EmptyText)
    ensures ParseSpec(text) == Err(NoTokens) <==>
              text != [] && forall i :: 0 <= i < |text| ==> IsSeparator(text[i])
  {
    TokensEmptyIff(text);
    if text != [] && Tokens(text) != [] && ParseTokens(Tokens(text)).Err? {
      ParseTokensFirstError(Tokens(text));
    }
  }

  /** A text parses exactly when it has tokens and every token is a byte; each token then gives its byte, in order. */
  lemma ParseOk(text: string)
    ensures ParseSpec(text).Ok? <==>
              Tokens(text) != [] && forall i :: 0 <= i < |Tokens(text)| ==> IsByteToken(Tokens(text)[i])
    ensures ParseSpec(text).Ok? ==>
              |ParseSpec(text).value| == |Tokens(text)| &&
              forall i :: 0 <= i < |Tokens(text)| ==> ParseSpec(text).value[i] == IntLiteral(Tokens(text)[i]).value
  {
    ParseTokensOk(Tokens(text));
    if text == [] {
      assert Normalize(text) == [];
    }
  }

  /** Commas, semicolons and white space may replace one another without changing the result. */
  lemma ParseSameSeparators(s: string, t: string)
    requires |s| == |t|
    requires forall i :: 0 <= i < |s| ==> (IsSeparator(s[i]) <==> IsSeparator(t[i]))
    requires forall i :: 0 <= i < |s| && !IsSeparator(s[i]) ==> s[i] == t[i]
    ensures ParseSpec(s) == ParseSpec(t)
  {
    TokensSameSeparators(s, t);
  }

  /** A run of separators acts as one. */
  lemma ParseCollapse(a: string, x: char, y: char, b: string)
    requires IsSeparator(x) && IsSeparator(y)
    ensures ParseSpec(a + [x, y] + b) == ParseSpec(a + [x] + b)
  {
    TokensCollapse(a, x, y, b);
    assert (a + [x] + b)[|a|] == x;
  }

  /** The `0x`-prefixed form of each byte, joined by spaces. */
  function PrefixedHex(data: seq<byte>): seq<string>
    ensures |PrefixedHex(data)| == |data|
  {
    if |data| == 0 then [] else ["0x" + Hex2(data[0])] + PrefixedHex(data[1..])
  }

  /** Bytes written as `0x`-prefixed pairs separated by spaces parse back to the same bytes. */
  lemma {:induction false} PrefixedHexRoundTrip(data: seq<byte>)
    requires |data| > 0
    ensures ParseSpec(Unwords(PrefixedHex(data))) == Ok(data)
  {
    var ws := PrefixedHex(data);
    PrefixedHexWords(data);
    SplitUnwords(ws);
    NormalizeUnwords(ws);
    PrefixedHexParses(data);
    assert Tokens(Unwords(ws)) == ws;
    assert Unwords(ws) != [] by {
      assert |Unwords(ws)| >= |ws[0]|;
    }
  }

  lemma {:induction false} PrefixedHexWords(data: seq<byte>)
    ensures forall k :: 0 <= k < |data| ==> IsWord(PrefixedHex(data)[k]) && PrefixedHex(data)[k] == "0x" + Hex2(data[k])
  {
    if |data| > 0 {
      PrefixedHexWords(data[1..]);
      forall k | 0 <= k < |data|
        ensures IsWord(PrefixedHex(data)[k]) && PrefixedHex(data)[k] == "0x" + Hex2(data[k])
      {
        if k > 0 {
          assert PrefixedHex(data)[k] == PrefixedHex(data[1..])[k - 1];
        } else {
          var w := "0x" + Hex2(data[0]);
          assert forall i :: 0 <= i < |w| ==> IsUpperHexDigit(w[i]) || w[i] == 'x';
        }
      }
    }
  }

  lemma {:induction false} PrefixedHexParses(data: seq<byte>)
    ensures ParseTokens(PrefixedHex(data)) == Ok(data)
  {
    if |data| > 0 {
      HexByteToken(data[0], "0x");
      PrefixedHexParses(data[1..]);
      assert PrefixedHex(data)[1..] == PrefixedHex(data[1..]);
      assert data == [data[0]] + data[1..];
    }
  }

  /** Text without commas or semicolons is left as it is by the `replace` calls. */
  lemma NormalizeUnwords(ws: seq<string>)
    requires forall k :: 0 <= k < |ws| ==> forall i :: 0 <= i < |ws[k]| ==> ws[k][i] != ',' && ws[k][i] != ';'
    ensures Normalize(Unwords(ws)) == Unwords(ws)
  {
    UnwordsChars(ws);
  }

  lemma {:induction false} UnwordsChars(ws: seq<string>)
    requires forall k :: 0 <= k < |ws| ==> forall i :: 0 <= i < |ws[k]| ==> ws[k][i] != ',' && ws[k][i] != ';'
    ensures forall i :: 0 <= i < |Unwords(ws)| ==> Unwords(ws)[i] != ',' && Unwords(ws)[i] != ';'
  {
    if |ws| > 1 {
      UnwordsChars(ws[1..]);
      var rest := Unwords(ws[1..]);
      assert Unwords(ws) == ws[0] + " " + rest;
      forall i | 0 <= i < |Unwords(ws)|
        ensures Unwords(ws)[i] != ',' && Unwords(ws)[i] != ';'
      {
        if i < |ws[0]| {
        } else if i == |ws[0]| {
        } else {
          assert Unwords(ws)[i] == rest[i - |ws[0]| - 1];
        }
      }
    }
  }

  /** One token that is a word stands alone. */
  lemma SingleToken(tok: string)
    requires IsWord(tok)
    requires forall i :: 0 <= i < |tok| ==> tok[i] != ',' && tok[i] != ';'
    ensures Tokens(tok) == [tok]
  {
    assert Unwords([tok]) == tok;
    NormalizeUnwords([tok]);
    SplitUnwords([tok]);
  }

  /** A word with no comma or semicolon in it. */
  predicate PlainWord(w: string) {
    IsWord(w) && forall i :: 0 <= i < |w| ==> w[i] != ',' && w[i] != ';'
  }

  /** Four plain words joined by spaces split back into those words. */
  lemma FourWords(a: string, b: string, c: string, d: string)
    requires PlainWord(a) && PlainWord(b) && PlainWord(c) && PlainWord(d)
    ensures Unwords([a, b, c, d]) == a + " " + b + " " + c + " " + d
    ensures Tokens(Unwords([a, b, c, d])) == [a, b, c, d]
  {
    var ws := [a, b, c, d];
    assert ws[1..] == [b, c, d];
    assert [b, c, d][1..] == [c, d];
    assert [c, d][1..] == [d];
    assert Unwords([c, d]) == c + " " + d;
    assert Unwords([b, c, d]) == b + " " + (c + " " + d);
    forall k | 0 <= k < |ws|
      ensures IsWord(ws[k])
      ensures forall i :: 0 <= i < |ws[k]| ==> ws[k][i] != ',' && ws[k][i] != ';'
    {
    }
    NormalizeUnwords(ws);
    SplitUnwords(ws);
  }

  lemma WordsOfExample(ws: seq<string>)
    requires ws == ["7E", "14", "17", "00"] || ws == ["0x7E", "0x14", "0x17", "0x00"]
    ensures Unwords(ws) == ws[0] + " " + ws[1] + " " + ws[2] + " " + ws[3]
    ensures Tokens(Unwords(ws)) == ws
  {
    assert PlainWord(ws[0]) && PlainWord(ws[1]) && PlainWord(ws[2]) && PlainWord(ws[3]);
    assert ws == [ws[0], ws[1], ws[2], ws[3]];
    FourWords(ws[0], ws[1], ws[2], ws[3]);
  }

  /** The example of the tool's documentation, hexadecimal without prefixes, fails at its first token. */
  lemma UnprefixedExample()
    ensures ParseSpec("7E 14,17 00") == Err(NotAnInteger("7E"))
  {
    var ws := ["7E", "14", "17", "00"];
    WordsOfExample(ws);
    var t := "7E 14 17 00";
    assert Unwords(ws) == t;
    TokensSameSeparators("7E 14,17 00", t);
    RefusedExamples();
  }

  lemma PrefixedExampleWords(data: seq<byte>)
    requires data == [0x7E, 0x14, 0x17, 0x00]
    ensures PrefixedHex(data) == ["0x7E", "0x14", "0x17", "0x00"]
  {
    var ws := ["0x7E", "0x14", "0x17", "0x00"];
    assert Hex2(0x7E) == "7E" && Hex2(0x14) == "14" && Hex2(0x17) == "17" && Hex2(0x00) == "00";
    PrefixedHexWords(data);
    assert PrefixedHex(data)[0] == "0x" + Hex2(data[0]) == ws[0];
    assert PrefixedHex(data)[1] == "0x" + Hex2(data[1]) == ws[1];
    assert PrefixedHex(data)[2] == "0x" + Hex2(data[2]) == ws[2];
    assert PrefixedHex(data)[3] == "0x" + Hex2(data[3]) == ws[3];
  }

  /** The same bytes with `0x` prefixes parse as intended. */
  lemma PrefixedExample()
    ensures ParseSpec("0x7E,0x14,0x17,0x00") == Ok([0x7E, 0x14, 0x17, 0x00])
  {
    var data: seq<byte> := [0x7E, 0x14, 0x17, 0x00];
    var ws := ["0x7E", "0x14", "0x17", "0x00"];
    PrefixedExampleWords(data);
    PrefixedHexParses(data);
    PrefixedExampleTokens();
    PrefixedExampleMask();
    ParseViaTokens("0x7E,0x14,0x17,0x00", ws, data);
  }

  lemma PrefixedExampleTokens()
    ensures Tokens("0x7E 0x14 0x17 0x00") == ["0x7E", "0x14", "0x17", "0x00"]
  {
    var ws := ["0x7E", "0x14", "0x17", "0x00"];
    WordsOfExample(ws);
    assert Unwords(ws) == "0x7E 0x14 0x17 0x00";
  }

  lemma ParseViaTokens(text: string, ws: seq<string>, data: seq<byte>)
    requires text != [] && Tokens(text) == ws && ws != [] && ParseTokens(ws) == Ok(data)
    ensures ParseSpec(text) == Ok(data)
  {
  }

  lemma PrefixedExampleMask()
    ensures Tokens("0x7E,0x14,0x17,0x00") == Tokens("0x7E 0x14 0x17 0x00")
  {
    var s, t := "0x7E,0x14,0x17,0x00", "0x7E 0x14 0x17 0x00";
    forall i | 0 <= i < |s|
      ensures (IsSeparator(s[i]) <==> IsSeparator(t[i])) && (!IsSeparator(s[i]) ==> s[i] == t[i])
    {
    }
    TokensSameSeparators(s, t);
  }

  /** Separators alone are refused. */
  lemma SeparatorsExample()
    ensures ParseSpec(" , ; ") == Err(NoTokens)
  {
    var t := " , ; ";
    assert forall i :: 0 <= i < |t| ==> IsSeparator(t[i]);
    ParseNoTokens(t);
  }

  /** A value above 255 is refused. */
  lemma WideTextExample()
    ensures ParseSpec("0x100") == Err(OutOfByteRange(256, "0x100"))
  {
    var t := "0x100";
    WideHexExample();
    assert IsWord(t);
    SingleToken(t);
    assert Tokens(t) == [t];
    assert ParseTokens([t]) == Err(OutOfByteRange(256, t));
  }

  /** A negative value is refused. */
  lemma NegativeTextExample()
    ensures ParseSpec("-1") == Err(OutOfByteRange(-1, "-1"))
  {
    SmallExamples();
    SingleToken("-1");
  }

  /** A token that is no number is refused. */
  lemma NonNumberTextExample()
    ensures ParseSpec("ZZ") == Err(NotAnInteger("ZZ"))
  {
    RefusedExamples();
    SingleToken("ZZ");
  }
}
