/**
 Base 64 decoding as done by Go's `base64.StdEncoding.DecodeString`: the
 standard alphabet and `=` padding of section 4 of RFC 4648, with the two
 leniencies of Go's non-strict decoder written out explicitly:
 - carriage returns and line feeds anywhere in the input are skipped;
 - the unused low bits of the last sextet before the padding need not be zero.
 Characters are first classified into tokens (an alphabet digit, the pad, or
 anything else); quanta are then decoded over tokens. `Encode` is the
 canonical RFC 4648 encoder, which the decoder is proved inverse to.
 */
module Base64 {
  import opened Wrappers
  import opened Bytes

  type sextet = x: int | 0 <= x < 64

  const Pad: char := '='

  /** One input character as the decoder sees it. */
  datatype Token = Digit(v: sextet) | PadMark | Invalid

  /** The character that stands for `v` in the base 64 alphabet (Table 1 of RFC 4648). */
  function CharOf(v: sextet): (c: char)
    ensures c != Pad && c != '\n' && c != '\r'
  {
    if v < 26 then ('A' as int + v) as char
    else if v < 52 then ('a' as int + (v - 26)) as char
    else if v < 62 then ('0' as int + (v - 52)) as char
    else if v == 62 then '+'
    else '/'
  }

  /** How the decoder classifies a character: its alphabet value, the pad, or invalid. */
  function TokenOf(c: char): (t: Token)
    ensures c == '\n' || c == '\r' ==> t == Invalid
    ensures t == PadMark <==> c == Pad
  {
    if 'A' <= c <= 'Z' then Digit(c as int - 'A' as int)
    else if 'a' <= c <= 'z' then Digit(c as int - 'a' as int + 26)
    else if '0' <= c <= '9' then Digit(c as int - '0' as int + 52)
    else if c == '+' then Digit(62)
    else if c == '/' then Digit(63)
    else if c == Pad then PadMark
    else Invalid
  }

  /** The character the encoder writes for a (valid) token. */
  function CharOfToken(t: Token): (c: char)
    requires t != Invalid
    ensures c != '\n' && c != '\r'
  {
    if t == PadMark then Pad else CharOf(t.v)
  }

  /** Writing a token and reading it back gives the token. */
  lemma TokenOfCharOfToken(t: Token)
    requires t != Invalid
    ensures TokenOf(CharOfToken(t)) == t
  {
  }

  /** Reading a valid character and writing its token back gives the character. */
  lemma CharOfTokenOf(c: char)
    requires TokenOf(c) != Invalid
    ensures CharOfToken(TokenOf(c)) == c
  {
  }

  predicate IsNewline(c: char) {
    c == '\n' || c == '\r'
  }

  /** The input with every line break removed; Go's decoder ignores them wherever they occur. */
  function StripNewlines(s: string): (r: string)
    ensures |r| <= |s|
    ensures forall i :: 0 <= i < |r| ==> !IsNewline(r[i])
    ensures forall i :: 0 <= i < |r| ==> r[i] in s
    ensures (forall i :: 0 <= i < |s| ==> !IsNewline(s[i])) ==> r == s
  {
    if |s| == 0 then []
    else if IsNewline(s[0]) then StripNewlines(s[1..])
    else [s[0]] + StripNewlines(s[1..])
  }

  /** The tokens of a string, character by character. */
  function Tokens(s: string): (t: seq<Token>)
    ensures |t| == |s|
    ensures forall i :: 0 <= i < |s| ==> t[i] == TokenOf(s[i])
  {
    seq(|s|, i requires 0 <= i < |s| => TokenOf(s[i]))
  }

  predicate AllValid(t: seq<Token>) {
    forall i :: 0 <= i < |t| ==> t[i] != Invalid
  }

  /** The characters of a sequence of valid tokens. */
  function Render(t: seq<Token>): (s: string)
    requires AllValid(t)
    ensures |s| == |t|
    ensures forall i :: 0 <= i < |t| ==> s[i] == CharOfToken(t[i])
  {
    seq(|t|, i requires 0 <= i < |t| => CharOfToken(t[i]))
  }

  /** Reading back rendered tokens gives the tokens. */
  lemma TokensRender(t: seq<Token>)
    requires AllValid(t)
    ensures Tokens(Render(t)) == t
  {
    forall i | 0 <= i < |t| {
      TokenOfCharOfToken(t[i]);
    }
  }

  /** Rendering the tokens of a string with only valid characters gives the string. */
  lemma RenderTokens(s: string)
    requires AllValid(Tokens(s))
    ensures Render(Tokens(s)) == s
  {
    forall i | 0 <= i < |s| {
      CharOfTokenOf(s[i]);
    }
  }

  /** The three bytes carried by four sextets, most significant bits first. */
  function Byte0(c0: sextet, c1: sextet): byte { c0 * 4 + c1 / 16 }
  function Byte1(c1: sextet, c2: sextet): byte { (c1 % 16) * 16 + c2 / 4 }
  function Byte2(c2: sextet, c3: sextet): byte { (c2 % 4) * 64 + c3 }

  /** The four sextets that carry three bytes (missing bytes count as zero). */
  function Sextet0(b0: byte): sextet { b0 / 4 }
  function Sextet1(b0: byte, b1: byte): sextet { (b0 % 4) * 16 + b1 / 16 }
  function Sextet2(b1: byte, b2: byte): sextet { (b1 % 16) * 4 + b2 / 64 }
  function Sextet3(b2: byte): sextet { b2 % 64 }

  /** The three bytes of a quantum of four alphabet digits, or None. */
  function DecodeFull(a: Token, b: Token, c: Token, d: Token): (r: Option<seq<byte>>)
    ensures r.Some? <==> a.Digit? && b.Digit? && c.Digit? && d.Digit?
  {
    if a.Digit? && b.Digit? && c.Digit? && d.Digit? then
      Some([Byte0(a.v, b.v), Byte1(b.v, c.v), Byte2(c.v, d.v)])
    else None
  }

  /** The bytes of a final quantum `abc=`: one byte when `c` is the pad too
      (`ab==`), two bytes when `c` is a digit, None otherwise. */
  function DecodePadded(a: Token, b: Token, c: Token): (r: Option<seq<byte>>)
    ensures r.Some? <==> a.Digit? && b.Digit? && c != Invalid
  {
    if !(a.Digit? && b.Digit?) then None
    else if c == PadMark then Some([Byte0(a.v, b.v)])
    else if c.Digit? then Some([Byte0(a.v, b.v), Byte1(b.v, c.v)])
    else None
  }

  /** Decodes a sequence of four-token quanta. Only the last quantum may end
      in `=` (two bytes) or `==` (one byte); a pad anywhere else, an invalid
      character, or a trailing group shorter than four is an error. */
  function DecodeQuanta(t: seq<Token>): (r: Option<seq<byte>>)
    decreases |t|
  {
    if |t| == 0 then Some([])
    else if |t| < 4 then None
    else if |t| == 4 && t[3] == PadMark then DecodePadded(t[0], t[1], t[2])
    else
      var q :- DecodeFull(t[0], t[1], t[2], t[3]);
      var rest :- DecodeQuanta(t[4..]);
      Some(q + rest)
  }

  /** `base64.StdEncoding.DecodeString`: None stands for the error result. */
  function Decode(s: string): (r: Option<seq<byte>>)
    ensures r.Some? ==> |StripNewlines(s)| == 4 * ((|r.value| + 2) / 3)
    ensures r.Some? ==> forall i :: 0 <= i < |StripNewlines(s)| ==> TokenOf(StripNewlines(s)[i]) != Invalid
  {
    var t := Tokens(StripNewlines(s));
    DecodeLength(t);
    DecodeValid(t);
    DecodeQuanta(t)
  }

  /** The tokens of the canonical encoding: zero trailing bits, `=` padding. */
  function EncodeTokens(b: seq<byte>): (t: seq<Token>)
    ensures AllValid(t)
    decreases |b|
  {
    if |b| == 0 then []
    else if |b| == 1 then
      [Digit(Sextet0(b[0])), Digit(Sextet1(b[0], 0)), PadMark, PadMark]
    else if |b| == 2 then
      [Digit(Sextet0(b[0])), Digit(Sextet1(b[0], b[1])), Digit(Sextet2(b[1], 0)), PadMark]
    else FullQuantum(b[0], b[1], b[2]) + EncodeTokens(b[3..])
  }

  /** RFC 4648 section 4 encoding with padding (what a producer of the field writes). */
  function Encode(b: seq<byte>): (s: string)
    ensures |s| == 4 * ((|b| + 2) / 3)
    ensures forall i :: 0 <= i < |s| ==> !IsNewline(s[i])
  {
    EncodeLength(b);
    Render(EncodeTokens(b))
  }

  /** The encoding has four characters for every three bytes or part thereof. */
  lemma {:induction false} EncodeLength(b: seq<byte>)
    ensures |EncodeTokens(b)| == 4 * ((|b| + 2) / 3)
    decreases |b|
  {
    if |b| >= 3 {
      EncodeLength(b[3..]);
    }
  }

  /** Splitting bytes into sextets and joining them back is the identity. */
  lemma BytesOfSextets(b0: byte, b1: byte, b2: byte)
    ensures Byte0(Sextet0(b0), Sextet1(b0, b1)) == b0
    ensures Byte1(Sextet1(b0, b1), Sextet2(b1, b2)) == b1
    ensures Byte2(Sextet2(b1, b2), Sextet3(b2)) == b2
  {
  }

  /** Joining sextets into bytes and splitting them back is the identity; a
      sextet whose low bits are dropped comes back only when they were zero. */
  lemma SextetsOfBytes(c0: sextet, c1: sextet, c2: sextet, c3: sextet)
    ensures Sextet0(Byte0(c0, c1)) == c0
    ensures Sextet1(Byte0(c0, c1), Byte1(c1, c2)) == c1
    ensures Sextet2(Byte1(c1, c2), Byte2(c2, c3)) == c2
    ensures Sextet3(Byte2(c2, c3)) == c3
    ensures Sextet1(Byte0(c0, c1), 0) == c1 <==> c1 % 16 == 0
    ensures Sextet2(Byte1(c1, c2), 0) == c2 <==> c2 % 4 == 0
  {
  }

  /** A successful decode consumed whole quanta, and its length fixes the output length. */
  lemma {:induction false} DecodeLength(t: seq<Token>)
    ensures DecodeQuanta(t).Some? ==> |t| == 4 * ((|DecodeQuanta(t).value| + 2) / 3)
    decreases |t|
  {
    if |t| >= 4 && !(|t| == 4 && t[3] == PadMark) && DecodeQuanta(t).Some? {
      DecodeLength(t[4..]);
    }
  }

  /** A successful decode saw no invalid character. */
  lemma {:induction false} DecodeValid(t: seq<Token>)
    ensures DecodeQuanta(t).Some? ==> AllValid(t)
    decreases |t|
  {
    if |t| >= 4 && !(|t| == 4 && t[3] == PadMark) && DecodeQuanta(t).Some? {
      DecodeValid(t[4..]);
      assert forall i :: 4 <= i < |t| ==> t[i] == t[4..][i - 4];
    }
  }

  /** The quantum the encoder writes for three bytes. */
  function FullQuantum(b0: byte, b1: byte, b2: byte): seq<Token> {
    [Digit(Sextet0(b0)), Digit(Sextet1(b0, b1)), Digit(Sextet2(b1, b2)), Digit(Sextet3(b2))]
  }

  /** Decoding quanta of digits, stated on the sextets. */
  lemma DecodeDigits(c0: sextet, c1: sextet, c2: sextet, c3: sextet)
    ensures DecodeFull(Digit(c0), Digit(c1), Digit(c2), Digit(c3)) == Some([Byte0(c0, c1), Byte1(c1, c2), Byte2(c2, c3)])
    ensures DecodePadded(Digit(c0), Digit(c1), Digit(c2)) == Some([Byte0(c0, c1), Byte1(c1, c2)])
    ensures DecodePadded(Digit(c0), Digit(c1), PadMark) == Some([Byte0(c0, c1)])
  {
  }

  /** A full quantum written by the encoder decodes to the three bytes it carries. */
  lemma DecodeFullQuantum(b0: byte, b1: byte, b2: byte)
    ensures var q := FullQuantum(b0, b1, b2); DecodeFull(q[0], q[1], q[2], q[3]) == Some([b0, b1, b2])
  {
    DecodeDigits(Sextet0(b0), Sextet1(b0, b1), Sextet2(b1, b2), Sextet3(b2));
    BytesOfSextets(b0, b1, b2);
  }

  /** A final `==` quantum written by the encoder decodes to its one byte. */
  lemma DecodeEncodedOne(b: seq<byte>)
    requires |b| == 1
    ensures DecodeQuanta(EncodeTokens(b)) == Some(b)
  {
    EncodeTokensOne(b);
    DecodeOnePadded(Sextet0(b[0]), Sextet1(b[0], 0));
    BytesOfSextets(b[0], 0, 0);
    SplitOne(b);
  }

  /** A final `=` quantum written by the encoder decodes to its two bytes. */
  lemma DecodeEncodedTwo(b: seq<byte>)
    requires |b| == 2
    ensures DecodeQuanta(EncodeTokens(b)) == Some(b)
  {
    EncodeTokensTwo(b);
    DecodeTwoPadded(Sextet0(b[0]), Sextet1(b[0], b[1]), Sextet2(b[1], 0));
    BytesOfSextets(b[0], b[1], 0);
    SplitTwo(b);
  }

  lemma EncodeTokensOne(b: seq<byte>)
    requires |b| == 1
    ensures EncodeTokens(b) == [Digit(Sextet0(b[0])), Digit(Sextet1(b[0], 0)), PadMark, PadMark]
  {
  }

  lemma EncodeTokensTwo(b: seq<byte>)
    requires |b| == 2
    ensures EncodeTokens(b) == [Digit(Sextet0(b[0])), Digit(Sextet1(b[0], b[1])), Digit(Sextet2(b[1], 0)), PadMark]
  {
  }

  /** A final `==` quantum decodes to one byte whatever the low bits of its second digit. */
  lemma DecodeOnePadded(c0: sextet, c1: sextet)
    ensures DecodeQuanta([Digit(c0), Digit(c1), PadMark, PadMark]) == Some([Byte0(c0, c1)])
  {
    var t := [Digit(c0), Digit(c1), PadMark, PadMark];
    assert DecodeQuanta(t) == DecodePadded(t[0], t[1], t[2]);
    DecodeDigits(c0, c1, 0, 0);
  }

  /** A final `=` quantum decodes to two bytes whatever the low bits of its third digit. */
  lemma DecodeTwoPadded(c0: sextet, c1: sextet, c2: sextet)
    ensures DecodeQuanta([Digit(c0), Digit(c1), Digit(c2), PadMark]) == Some([Byte0(c0, c1), Byte1(c1, c2)])
  {
    var t := [Digit(c0), Digit(c1), Digit(c2), PadMark];
    assert DecodeQuanta(t) == DecodePadded(t[0], t[1], t[2]);
    DecodeDigits(c0, c1, c2, 0);
  }

  lemma SplitOne<T>(b: seq<T>)
    requires |b| == 1
    ensures b == [b[0]]
  {
  }

  lemma SplitTwo<T>(b: seq<T>)
    requires |b| == 2
    ensures b == [b[0], b[1]]
  {
  }

  /** A full quantum of digits followed by decodable quanta decodes to the
      quantum's bytes followed by theirs. */
  lemma DecodeQuantaAppend(q: seq<Token>, rest: seq<Token>, bytes: seq<byte>, r: seq<byte>)
    requires |q| == 4
    requires DecodeFull(q[0], q[1], q[2], q[3]) == Some(bytes)
    requires DecodeQuanta(rest) == Some(r)
    ensures DecodeQuanta(q + rest) == Some(bytes + r)
  {
    var t := q + rest;
    assert t[..4] == q && t[4..] == rest;
  }

  /** Decoding the encoding of three or more bytes: the first quantum gives
      the first three bytes, and decoding goes on with the rest. */
  lemma DecodeEncodedCons(b: seq<byte>)
    requires |b| >= 3
    requires DecodeQuanta(EncodeTokens(b[3..])) == Some(b[3..])
    ensures DecodeQuanta(EncodeTokens(b)) == Some(b)
  {
    EncodeTokensCons(b);
    DecodeFullQuantumThen(b, b[3..]);
    SplitThree(b);
  }

  lemma SplitThree<T>(b: seq<T>)
    requires |b| >= 3
    ensures b == [b[0], b[1], b[2]] + b[3..]
  {
  }

  /** The first full quantum of an encoding, followed by decodable quanta. */
  lemma DecodeFullQuantumThen(b: seq<byte>, r: seq<byte>)
    requires |b| >= 3
    requires DecodeQuanta(EncodeTokens(b[3..])) == Some(r)
    ensures DecodeQuanta(FullQuantum(b[0], b[1], b[2]) + EncodeTokens(b[3..])) == Some([b[0], b[1], b[2]] + r)
  {
    DecodeFullQuantum(b[0], b[1], b[2]);
    DecodeQuantaAppend(FullQuantum(b[0], b[1], b[2]), EncodeTokens(b[3..]), [b[0], b[1], b[2]], r);
  }

  /** The encoding of three or more bytes starts with the full quantum of the first three. */
  lemma EncodeTokensCons(b: seq<byte>)
    requires |b| >= 3
    ensures EncodeTokens(b) == FullQuantum(b[0], b[1], b[2]) + EncodeTokens(b[3..])
  {
  }

  /** Round trip on tokens: decoding the canonical encoding gives the bytes back. */
  lemma {:induction false} DecodeQuantaEncode(b: seq<byte>)
    ensures DecodeQuanta(EncodeTokens(b)) == Some(b)
    decreases |b|
  {
    if |b| == 1 {
      DecodeEncodedOne(b);
    } else if |b| == 2 {
      DecodeEncodedTwo(b);
    } else if |b| >= 3 {
      DecodeQuantaEncode(b[3..]);
      DecodeEncodedCons(b);
    }
  }

  /** Round trip: `Decode` gives back the bytes of any canonical encoding. */
  lemma DecodeEncode(b: seq<byte>)
    ensures Decode(Encode(b)) == Some(b)
  {
    TokensRender(EncodeTokens(b));
    DecodeQuantaEncode(b);
  }

  /** True when the bits that a final padded quantum leaves unused are zero:
      the extra condition Go's strict decoder would impose. */
  predicate ZeroTrailingBits(t: seq<Token>)
  {
    if |t| < 4 || t[|t| - 1] != PadMark then true
    else if t[|t| - 2] == PadMark then
      t[|t| - 3].Digit? && t[|t| - 3].v % 16 == 0
    else
      t[|t| - 2].Digit? && t[|t| - 2].v % 4 == 0
  }

  /** The other direction on tokens: a decodable sequence with zero trailing
      bits is the canonical encoding of what it decodes to. */
  lemma {:induction false} EncodeDecodeQuanta(t: seq<Token>)
    requires DecodeQuanta(t).Some?
    requires ZeroTrailingBits(t)
    ensures EncodeTokens(DecodeQuanta(t).value) == t
    decreases |t|
  {
    if |t| == 0 {
    } else if |t| == 4 && t[3] == PadMark {
      EncodeDecodeLast(t);
    } else {
      var rest := t[4..];
      DecodeQuantaFirst(t);
      ZeroTrailingBitsRest(t);
      EncodeDecodeQuanta(rest);
      EncodeFullThen(t[0].v, t[1].v, t[2].v, t[3].v, DecodeQuanta(rest).value);
      SplitFour(t);
    }
  }

  /** What a successful decode of a full first quantum says about it. */
  lemma DecodeQuantaFirst(t: seq<Token>)
    requires |t| > 4 || (|t| == 4 && t[3] != PadMark)
    requires DecodeQuanta(t).Some?
    ensures t[0].Digit? && t[1].Digit? && t[2].Digit? && t[3].Digit?
    ensures DecodeQuanta(t[4..]).Some?
    ensures DecodeQuanta(t).value
         == [Byte0(t[0].v, t[1].v), Byte1(t[1].v, t[2].v), Byte2(t[2].v, t[3].v)] + DecodeQuanta(t[4..]).value
  {
  }

  /** Dropping a full first quantum keeps the trailing bits condition. */
  lemma ZeroTrailingBitsRest(t: seq<Token>)
    requires |t| >= 4
    requires ZeroTrailingBits(t)
    ensures ZeroTrailingBits(t[4..])
  {
    var rest := t[4..];
    if |rest| >= 4 {
      assert rest[|rest| - 1] == t[|t| - 1];
      assert rest[|rest| - 2] == t[|t| - 2];
      assert rest[|rest| - 3] == t[|t| - 3];
    }
  }

  lemma SplitFour<T>(t: seq<T>)
    requires |t| >= 4
    ensures t == [t[0], t[1], t[2], t[3]] + t[4..]
  {
  }

  /** Re-encoding the bytes of a full quantum of digits gives that quantum back. */
  lemma EncodeFullThen(c0: sextet, c1: sextet, c2: sextet, c3: sextet, r: seq<byte>)
    ensures EncodeTokens([Byte0(c0, c1), Byte1(c1, c2), Byte2(c2, c3)] + r)
         == [Digit(c0), Digit(c1), Digit(c2), Digit(c3)] + EncodeTokens(r)
  {
    var b: seq<byte> := [Byte0(c0, c1), Byte1(c1, c2), Byte2(c2, c3)] + r;
    assert b[3..] == r;
    EncodeTokensCons(b);
    SextetsOfBytes(c0, c1, c2, c3);
  }

  /** A final padded quantum with zero trailing bits re-encodes to itself. */
  lemma EncodeDecodeLast(t: seq<Token>)
    requires |t| == 4 && t[3] == PadMark
    requires DecodeQuanta(t).Some?
    requires ZeroTrailingBits(t)
    ensures EncodeTokens(DecodeQuanta(t).value) == t
  {
    assert t == [t[0], t[1], t[2], t[3]];
    var c0, c1 := t[0].v, t[1].v;
    if t[2] == PadMark {
      DecodeDigits(c0, c1, 0, 0);
      SextetsOfBytes(c0, c1, 0, 0);
    } else {
      DecodeDigits(c0, c1, t[2].v, 0);
      SextetsOfBytes(c0, c1, t[2].v, 0);
    }
  }

  /** The other direction of the round trip: a string without line breaks that
      decodes and has zero trailing bits is the encoding of what it decodes to. */
  lemma EncodeDecode(s: string)
    requires forall i :: 0 <= i < |s| ==> !IsNewline(s[i])
    requires Decode(s).Some?
    requires ZeroTrailingBits(Tokens(s))
    ensures Encode(Decode(s).value) == s
  {
    var t := Tokens(s);
    DecodeValid(t);
    EncodeDecodeQuanta(t);
    RenderTokens(s);
  }

  /** Removing line breaks ignores a line break anywhere in the input. */
  lemma {:induction false} StripNewlinesSkips(a: string, c: char, b: string)
    requires IsNewline(c)
    ensures StripNewlines(a + [c] + b) == StripNewlines(a + b)
    decreases |a|
  {
    var s := a + [c] + b;
    if |a| == 0 {
      assert s[0] == c && s[1..] == b && a + b == b;
    } else {
      assert s[0] == a[0] && s[1..] == a[1..] + [c] + b;
      assert (a + b)[0] == a[0] && (a + b)[1..] == a[1..] + b;
      StripNewlinesSkips(a[1..], c, b);
    }
  }

  /** Go's decoder skips line breaks: a carriage return or line feed anywhere
      in the input leaves the result unchanged. */
  lemma DecodeSkipsNewline(a: string, c: char, b: string)
    requires IsNewline(c)
    ensures Decode(a + [c] + b) == Decode(a + b)
  {
    StripNewlinesSkips(a, c, b);
  }

  /** Without line breaks, decoding is decoding the tokens of the input. */
  lemma DecodeWithoutNewlines(s: string)
    requires forall i :: 0 <= i < |s| ==> !IsNewline(s[i])
    ensures Decode(s) == DecodeQuanta(Tokens(s))
  {
  }

  /** Rendered tokens hold no line break, so they decode as tokens. */
  lemma DecodeRender(t: seq<Token>)
    requires AllValid(t)
    ensures Decode(Render(t)) == DecodeQuanta(t)
  {
    TokensRender(t);
    DecodeWithoutNewlines(Render(t));
  }

  /** `c` with its low bits below `k` cleared: the part of a sextet that a
      final padded quantum actually decodes. */
  function ClearLowBits(c: sextet, k: nat): (r: sextet)
    requires k == 4 || k == 16
    ensures r % k == 0 && r / k == c / k
    ensures r == c <==> c % k == 0
  {
    c - c % k
  }

  /** The final quantum `xy==` with digits `c0` and `c1`. */
  function OneByteQuantum(c0: sextet, c1: sextet): (t: seq<Token>)
    ensures AllValid(t)
  {
    [Digit(c0), Digit(c1), PadMark, PadMark]
  }

  /** The final quantum `xyz=` with digits `c0`, `c1` and `c2`. */
  function TwoByteQuantum(c0: sextet, c1: sextet, c2: sextet): (t: seq<Token>)
    ensures AllValid(t)
  {
    [Digit(c0), Digit(c1), Digit(c2), PadMark]
  }

  /** Every token is an alphabet digit: there is no pad. */
  predicate AllDigits(t: seq<Token>) {
    forall i :: 0 <= i < |t| ==> t[i].Digit?
  }

  /** Two final padded quanta that decode to the same bytes can be swapped
      after any prefix without changing the result. */
  lemma {:induction false} DecodeQuantaSameLast(p: seq<Token>, q: seq<Token>, q': seq<Token>)
    requires |q| == 4 && q[3] == PadMark
    requires |q'| == 4 && q'[3] == PadMark
    requires DecodePadded(q[0], q[1], q[2]) == DecodePadded(q'[0], q'[1], q'[2])
    ensures DecodeQuanta(p + q) == DecodeQuanta(p + q')
    decreases |p|
  {
    var t, t' := p + q, p + q';
    if |p| == 0 {
      assert t == q && t' == q';
    } else if |p| < 4 {
      assert DecodeQuanta(t[4..]).None? && DecodeQuanta(t'[4..]).None?;
    } else {
      assert t[..4] == p[..4] == t'[..4];
      assert t[4..] == p[4..] + q && t'[4..] == p[4..] + q';
      DecodeQuantaSameLast(p[4..], q, q');
    }
  }

  /** Full quanta of digits followed by a final padded quantum decode to the
      bytes of the full quanta followed by the bytes of the final one. */
  lemma {:induction false} DecodeQuantaThenLast(p: seq<Token>, q: seq<Token>, last: seq<byte>)
    requires DecodeQuanta(p).Some? && AllDigits(p)
    requires |q| == 4 && q[3] == PadMark
    requires DecodePadded(q[0], q[1], q[2]) == Some(last)
    ensures DecodeQuanta(p + q) == Some(DecodeQuanta(p).value + last)
    decreases |p|
  {
    var t := p + q;
    if |p| == 0 {
      assert t == q && DecodeQuanta(q) == DecodePadded(q[0], q[1], q[2]);
      assert DecodeQuanta(p).value + last == last;
    } else {
      assert p[3].Digit?;
      var rest := p[4..];
      assert AllDigits(rest) by {
        forall i | 0 <= i < |rest| ensures rest[i].Digit? {
          assert rest[i] == p[i + 4];
        }
      }
      DecodeQuantaFirst(p);
      DecodeQuantaThenLast(rest, q, last);
      var first := [Byte0(p[0].v, p[1].v), Byte1(p[1].v, p[2].v), Byte2(p[2].v, p[3].v)];
      assert p[..4] + (rest + q) == t;
      DecodeQuantaAppend(p[..4], rest + q, first, DecodeQuanta(rest).value + last);
      assert first + (DecodeQuanta(rest).value + last) == (first + DecodeQuanta(rest).value) + last;
    }
  }

  /** Rendering is character by character, so it distributes over concatenation. */
  lemma RenderConcat(p: seq<Token>, q: seq<Token>)
    requires AllValid(p) && AllValid(q)
    ensures AllValid(p + q) && Render(p + q) == Render(p) + Render(q)
  {
  }

  /** A final padded quantum after a valid prefix: another final quantum with
      the same bytes gives the same result, and after full quanta of digits
      the final quantum adds its bytes. */
  lemma DecodeLast(p: seq<Token>, q: seq<Token>, q': seq<Token>, last: seq<byte>)
    requires AllValid(p) && AllValid(q) && AllValid(q')
    requires |q| == 4 && q[3] == PadMark
    requires |q'| == 4 && q'[3] == PadMark
    requires DecodePadded(q[0], q[1], q[2]) == Some(last) == DecodePadded(q'[0], q'[1], q'[2])
    ensures Decode(Render(p) + Render(q)) == Decode(Render(p) + Render(q'))
    ensures Decode(Render(p)).Some? && AllDigits(p) ==>
              Decode(Render(p) + Render(q)) == Some(Decode(Render(p)).value + last)
  {
    RenderConcat(p, q);
    RenderConcat(p, q');
    DecodeRender(p);
    DecodeRender(p + q);
    DecodeRender(p + q');
    DecodeQuantaSameLast(p, q, q');
    if DecodeQuanta(p).Some? && AllDigits(p) {
      DecodeQuantaThenLast(p, q, last);
    }
  }

  /** Only the final quantum decides the trailing bits condition. */
  lemma ZeroTrailingBitsLast(p: seq<Token>, q: seq<Token>)
    requires |q| == 4
    ensures ZeroTrailingBits(p + q) == ZeroTrailingBits(q)
  {
    var t := p + q;
    assert t[|t| - 1] == q[3] && t[|t| - 2] == q[2] && t[|t| - 3] == q[1];
  }

  /** What a final `xy==` quantum decodes to, alone and as a last quantum. */
  lemma OneByteQuantumBytes(c0: sextet, c1: sextet)
    ensures var q := OneByteQuantum(c0, c1);
      DecodePadded(q[0], q[1], q[2]) == Some([Byte0(c0, c1)])
      && Decode(Render(q)) == Some([Byte0(c0, c1)])
      && (ZeroTrailingBits(q) <==> c1 % 16 == 0)
  {
    DecodeRender(OneByteQuantum(c0, c1));
    DecodeOnePadded(c0, c1);
  }

  /** The one byte of `xy==` uses only the top two bits of `y`. */
  lemma Byte0IgnoresLowBits(c0: sextet, c1: sextet)
    ensures Byte0(c0, ClearLowBits(c1, 16)) == Byte0(c0, c1)
  {
  }

  /** Go's decoder ignores non-zero trailing bits in a final `xy==` quantum.
      After any valid prefix, clearing the low four bits of `y` leaves the
      result unchanged; after full quanta of digits the quantum adds the one
      byte its top bits carry; and the strict condition fails exactly when
      those low bits are set. */
  lemma DecodeIgnoresTrailingBits(p: seq<Token>, c0: sextet, c1: sextet)
    requires AllValid(p)
    ensures Decode(Render(OneByteQuantum(c0, c1))) == Some([Byte0(c0, c1)])
    ensures Decode(Render(p) + Render(OneByteQuantum(c0, c1)))
         == Decode(Render(p) + Render(OneByteQuantum(c0, ClearLowBits(c1, 16))))
    ensures Decode(Render(p)).Some? && AllDigits(p) ==>
              Decode(Render(p) + Render(OneByteQuantum(c0, c1))) == Some(Decode(Render(p)).value + [Byte0(c0, c1)])
    ensures ZeroTrailingBits(p + OneByteQuantum(c0, c1)) <==> c1 % 16 == 0
  {
    var cleared: sextet := ClearLowBits(c1, 16);
    var q, q' := OneByteQuantum(c0, c1), OneByteQuantum(c0, cleared);
    var last := [Byte0(c0, c1)];
    OneByteQuantumBytes(c0, c1);
    ZeroTrailingBitsLast(p, q);
    assert Decode(Render(p) + Render(q)) == Decode(Render(p) + Render(q'))
        && (Decode(Render(p)).Some? && AllDigits(p) ==> Decode(Render(p) + Render(q)) == Some(Decode(Render(p)).value + last)) by {
      OneByteQuantumBytes(c0, cleared);
      Byte0IgnoresLowBits(c0, c1);
      DecodeLast(p, q, q', last);
    }
  }

  /** What a final `xyz=` quantum decodes to, alone and as a last quantum. */
  lemma TwoByteQuantumBytes(c0: sextet, c1: sextet, c2: sextet)
    ensures var q := TwoByteQuantum(c0, c1, c2);
      DecodePadded(q[0], q[1], q[2]) == Some([Byte0(c0, c1), Byte1(c1, c2)])
      && Decode(Render(q)) == Some([Byte0(c0, c1), Byte1(c1, c2)])
      && (ZeroTrailingBits(q) <==> c2 % 4 == 0)
  {
    DecodeRender(TwoByteQuantum(c0, c1, c2));
    DecodeTwoPadded(c0, c1, c2);
  }

  /** The second byte uses only the top four bits of the third sextet. */
  lemma Byte1IgnoresLowBits(c1: sextet, c2: sextet)
    ensures Byte1(c1, ClearLowBits(c2, 4)) == Byte1(c1, c2)
  {
  }

  /** The same for a final `xyz=` quantum: the low two bits of `z` are ignored. */
  lemma DecodeIgnoresTrailingBitsTwo(p: seq<Token>, c0: sextet, c1: sextet, c2: sextet)
    requires AllValid(p)
    ensures Decode(Render(TwoByteQuantum(c0, c1, c2))) == Some([Byte0(c0, c1), Byte1(c1, c2)])
    ensures Decode(Render(p) + Render(TwoByteQuantum(c0, c1, c2)))
         == Decode(Render(p) + Render(TwoByteQuantum(c0, c1, ClearLowBits(c2, 4))))
    ensures Decode(Render(p)).Some? && AllDigits(p) ==>
              Decode(Render(p) + Render(TwoByteQuantum(c0, c1, c2)))
              == Some(Decode(Render(p)).value + [Byte0(c0, c1), Byte1(c1, c2)])
    ensures ZeroTrailingBits(p + TwoByteQuantum(c0, c1, c2)) <==> c2 % 4 == 0
  {
    var cleared: sextet := ClearLowBits(c2, 4);
    var q, q' := TwoByteQuantum(c0, c1, c2), TwoByteQuantum(c0, c1, cleared);
    var last := [Byte0(c0, c1), Byte1(c1, c2)];
    TwoByteQuantumBytes(c0, c1, c2);
    ZeroTrailingBitsLast(p, q);
    assert Decode(Render(p) + Render(q)) == Decode(Render(p) + Render(q'))
        && (Decode(Render(p)).Some? && AllDigits(p) ==> Decode(Render(p) + Render(q)) == Some(Decode(Render(p)).value + last)) by {
      TwoByteQuantumBytes(c0, c1, cleared);
      Byte1IgnoresLowBits(c1, c2);
      DecodeLast(p, q, q', last);
    }
  }

  /** The encoding of the two bytes 0x04 0x1A. */
  lemma EncodeExample()
    ensures Encode([4, 26]) == "BBo="
  {
    var b: seq<byte> := [4, 26];
    var t := EncodeTokens(b);
    assert t == [Digit(1), Digit(1), Digit(40), PadMark];
    assert CharOf(1) == 'B' && CharOf(40) == 'o';
    assert Render(t) == "BBo=";
  }
}
