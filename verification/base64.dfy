/** Base64 with the standard alphabet and `=` padding, section 4 of RFC 4648.
    The encoder is `base64.b64encode`; the decoder is strict: it accepts only
    what the encoder can produce (alphabet characters, `=` padding only at the
    end of the last quantum, zero pad bits), so the two are exact inverses. */
module Base64 {
  import opened Wrappers
  import opened Ascii

  const Pad := '='

  /** A 6-bit group, the index of one alphabet symbol. */
  type sextet = v: int | 0 <= v < 64

  /** The alphabet of Table 1 of RFC 4648: `A-Z`, `a-z`, `0-9`, `+`, `/`. */
  predicate IsSymbol(c: char) {
    'A' <= c <= 'Z' || 'a' <= c <= 'z' || '0' <= c <= '9' || c == '+' || c == '/'
  }

  /** The character that encodes a 6-bit group. */
  function Symbol(v: sextet): (c: char)
    ensures IsSymbol(c)
  {
    if v < 26 then ('A' as int + v) as char
    else if v < 52 then ('a' as int + (v - 26)) as char
    else if v < 62 then ('0' as int + (v - 52)) as char
    else if v == 62 then '+'
    else '/'
  }

  /** The 6-bit group an alphabet character encodes. */
  function Value(c: char): (v: sextet)
    requires IsSymbol(c)
    ensures Symbol(v) == c
  {
    if 'A' <= c <= 'Z' then c as int - 'A' as int
    else if 'a' <= c <= 'z' then c as int - 'a' as int + 26
    else if '0' <= c <= '9' then c as int - '0' as int + 52
    else if c == '+' then 62
    else 63
  }

  lemma ValueOfSymbol(v: sextet)
    ensures Value(Symbol(v)) == v
  {
  }

  /** The four symbols of one full 24-bit group `a b c`. */
  function EncodeGroup(a: byte, b: byte, c: byte): (s: string)
    ensures |s| == 4
  {
    [Symbol(a / 4), Symbol(a % 4 * 16 + b / 16), Symbol(b % 16 * 4 + c / 64), Symbol(c % 64)]
  }

  /** The end of an encoding: nothing for no bytes, else the group filled
      with zero bits, cut after the symbols that carry data and padded with
      `=` back to four characters. */
  function EncodeFinal(data: seq<byte>): (s: string)
    requires |data| < 3
    ensures |s| == if |data| == 0 then 0 else 4
  {
    if |data| == 0 then []
    else if |data| == 1 then EncodeGroup(data[0], 0, 0)[..2] + [Pad, Pad]
    else EncodeGroup(data[0], data[1], 0)[..3] + [Pad]
  }

  /** `base64.b64encode(data)`: full groups of three bytes, then the final
      one or two bytes, if any. */
  function Encode(data: seq<byte>): (s: string)
    ensures |s| == 4 * ((|data| + 2) / 3)
    decreases |data|
  {
    if |data| < 3 then EncodeFinal(data)
    else EncodeGroup(data[0], data[1], data[2]) + Encode(data[3..])
  }

  /** How many `=` end the encoding of `n` bytes. */
  function PadCount(n: nat): (p: nat)
    ensures p <= 2
    ensures p == 0 <==> n % 3 == 0
  {
    (3 - n % 3) % 3
  }

  /** Every character of an encoding is an alphabet symbol, except the final
      one or two, which are `=` exactly when the input length is not a
      multiple of three. */
  lemma {:induction false} EncodeAlphabet(data: seq<byte>)
    ensures Alphabetic(Encode(data), PadCount(|data|))
    decreases |data|
  {
    if |data| < 3 {
      FinalAlphabet(data);
    } else {
      EncodeAlphabet(data[3..]);
      assert PadCount(|data|) == PadCount(|data[3..]|);
      AlphabeticCons(EncodeGroup(data[0], data[1], data[2]), Encode(data[3..]), PadCount(|data|));
    }
  }

  lemma FinalAlphabet(data: seq<byte>)
    requires |data| < 3
    ensures Alphabetic(EncodeFinal(data), PadCount(|data|))
  {
    var s := EncodeFinal(data);
    if |data| == 1 {
      assert s == [Symbol(data[0] / 4), Symbol(data[0] % 4 * 16), Pad, Pad];
    } else if |data| == 2 {
      assert s[..3] == EncodeGroup(data[0], data[1], 0)[..3];
    }
  }

  /** `s` is alphabet symbols followed by exactly `pad` padding characters. */
  predicate Alphabetic(s: string, pad: nat) {
    && pad <= |s|
    && (forall i :: 0 <= i < |s| - pad ==> IsSymbol(s[i]))
    && (forall i :: |s| - pad <= i < |s| ==> s[i] == Pad)
  }

  lemma AlphabeticCons(g: string, rest: string, pad: nat)
    requires forall i :: 0 <= i < |g| ==> IsSymbol(g[i])
    requires Alphabetic(rest, pad)
    ensures Alphabetic(g + rest, pad)
  {
    var s := g + rest;
    forall i | 0 <= i < |s| - pad
      ensures IsSymbol(s[i])
    {
      if i >= |g| { assert s[i] == rest[i - |g|]; }
    }
    forall i | |s| - pad <= i < |s|
      ensures s[i] == Pad
    {
      assert s[i] == rest[i - |g|];
    }
  }

  /** The three bytes of four alphabet symbols without padding. */
  function DecodeGroup(q: string): (r: Option<seq<byte>>)
    requires |q| == 4
    ensures r.Some? ==> |r.value| == 3
  {
    if IsSymbol(q[0]) && IsSymbol(q[1]) && IsSymbol(q[2]) && IsSymbol(q[3]) then
      var v0, v1, v2, v3 := Value(q[0]), Value(q[1]), Value(q[2]), Value(q[3]);
      Some([v0 * 4 + v1 / 16, v1 % 16 * 16 + v2 / 4, v2 % 4 * 64 + v3])
    else
      None
  }

  /** The last quantum: three bytes, or two bytes before one `=`, or one byte
      before two `=`; the bits a padded quantum leaves unused must be zero. */
  function DecodeFinal(q: string): (r: Option<seq<byte>>)
    requires |q| == 4
    ensures r.Some? ==> 1 <= |r.value| <= 3
  {
    if q[3] != Pad then DecodeGroup(q)
    else if q[2] != Pad then
      if IsSymbol(q[0]) && IsSymbol(q[1]) && IsSymbol(q[2]) && Value(q[2]) % 4 == 0 then
        var v0, v1, v2 := Value(q[0]), Value(q[1]), Value(q[2]);
        Some([v0 * 4 + v1 / 16, v1 % 16 * 16 + v2 / 4])
      else None
    else if IsSymbol(q[0]) && IsSymbol(q[1]) && Value(q[1]) % 16 == 0 then
      Some([Value(q[0]) * 4 + Value(q[1]) / 16])
    else None
  }

  /** Strict decoding: the length must be a multiple of four, every quantum
      but the last must be four alphabet symbols, and the last may carry
      padding as `DecodeFinal` allows. */
  function Decode(s: string): (r: Option<seq<byte>>)
    ensures r.Some? ==> |s| % 4 == 0
    decreases |s|
  {
    if |s| == 0 then Some([])
    else if |s| < 4 then None
    else if |s| == 4 then DecodeFinal(s)
    else
      match DecodeGroup(s[..4])
      case None => None
      case Some(head) =>
        match Decode(s[4..])
        case None => None
        case Some(tail) => Some(head + tail)
  }

  /** The bit arithmetic behind a group: splitting 24 bits into four 6-bit
      groups and joining them again is the identity. */
  lemma GroupArithmetic(a: byte, b: byte, c: byte)
    ensures (a / 4) * 4 + (a % 4 * 16 + b / 16) / 16 == a
    ensures (a % 4 * 16 + b / 16) % 16 * 16 + (b % 16 * 4 + c / 64) / 4 == b
    ensures (b % 16 * 4 + c / 64) % 4 * 64 + c % 64 == c
  {
    assert (a % 4 * 16 + b / 16) / 16 == a % 4;
    assert (a % 4 * 16 + b / 16) % 16 == b / 16;
    assert (b % 16 * 4 + c / 64) / 4 == b % 16;
    assert (b % 16 * 4 + c / 64) % 4 == c / 64;
  }

  /** One full group survives encoding and decoding. */
  lemma GroupRoundTrip(a: byte, b: byte, c: byte)
    ensures DecodeGroup(EncodeGroup(a, b, c)) == Some([a, b, c])
  {
    var s := EncodeGroup(a, b, c);
    var v0: int, v1: int, v2: int, v3: int := Value(s[0]), Value(s[1]), Value(s[2]), Value(s[3]);
    assert v0 == a / 4 && v1 == a % 4 * 16 + b / 16 && v2 == b % 16 * 4 + c / 64 && v3 == c % 64 by {
      ValueOfSymbol(a / 4);
      ValueOfSymbol(a % 4 * 16 + b / 16);
      ValueOfSymbol(b % 16 * 4 + c / 64);
      ValueOfSymbol(c % 64);
    }
    assert v0 * 4 + v1 / 16 == a && v1 % 16 * 16 + v2 / 4 == b && v2 % 4 * 64 + v3 == c by {
      GroupArithmetic(a, b, c);
    }
  }

  /** A final quantum holding one byte survives encoding and decoding. */
  lemma OneByteRoundTrip(a: byte)
    ensures DecodeFinal(EncodeFinal([a])) == Some([a])
  {
    var s := EncodeFinal([a]);
    assert s == [Symbol(a / 4), Symbol(a % 4 * 16), Pad, Pad];
    assert Value(s[0]) == a / 4 && Value(s[1]) == a % 4 * 16 by {
      ValueOfSymbol(a / 4);
      ValueOfSymbol(a % 4 * 16);
    }
    assert Value(s[0]) * 4 + Value(s[1]) / 16 == a by {
      GroupArithmetic(a, 0, 0);
    }
  }

  /** A final quantum holding two bytes survives encoding and decoding. */
  lemma TwoByteRoundTrip(a: byte, b: byte)
    ensures DecodeFinal(EncodeFinal([a, b])) == Some([a, b])
  {
    var s := EncodeFinal([a, b]);
    assert s == [Symbol(a / 4), Symbol(a % 4 * 16 + b / 16), Symbol(b % 16 * 4), Pad];
    var v0: int, v1: int, v2: int := Value(s[0]), Value(s[1]), Value(s[2]);
    assert v0 == a / 4 && v1 == a % 4 * 16 + b / 16 && v2 == b % 16 * 4 by {
      ValueOfSymbol(a / 4);
      ValueOfSymbol(a % 4 * 16 + b / 16);
      ValueOfSymbol(b % 16 * 4);
    }
    assert v0 * 4 + v1 / 16 == a && v1 % 16 * 16 + v2 / 4 == b by {
      GroupArithmetic(a, b, 0);
    }
    assert v2 % 4 == 0;
  }

  /** A full unpadded quantum in front of more text decodes on its own. */
  lemma DecodeCons(g: string, rest: string)
    requires |g| == 4 && |rest| > 0 && DecodeGroup(g).Some?
    ensures Decode(g + rest) ==
      if Decode(rest).Some? then Some(DecodeGroup(g).value + Decode(rest).value) else None
  {
    var s := g + rest;
    assert s[..4] == g && s[4..] == rest;
  }

  lemma ShortBytes(data: seq<byte>)
    requires 0 < |data| <= 3
    ensures |data| == 1 ==> data == [data[0]]
    ensures |data| == 2 ==> data == [data[0], data[1]]
    ensures |data| == 3 ==> data == [data[0], data[1], data[2]]
  {
  }

  lemma SplitFirstGroup(data: seq<byte>)
    requires |data| >= 3
    ensures data == [data[0], data[1], data[2]] + data[3..]
  {
  }

  /** A full group followed by more bytes: decoding peels the group off. */
  lemma DecodeEncodeStep(data: seq<byte>)
    requires |data| > 3 && Decode(Encode(data[3..])) == Some(data[3..])
    ensures Decode(Encode(data)) == Some(data)
  {
    var g := EncodeGroup(data[0], data[1], data[2]);
    assert Encode(data) == g + Encode(data[3..]);
    GroupRoundTrip(data[0], data[1], data[2]);
    DecodeCons(g, Encode(data[3..]));
    SplitFirstGroup(data);
  }

  /** A single full group survives encoding and decoding. */
  lemma ThreeByteRoundTrip(data: seq<byte>)
    requires |data| == 3
    ensures Decode(Encode(data)) == Some(data)
  {
    var q := EncodeGroup(data[0], data[1], data[2]);
    assert Encode(data) == q by {
      EncodeCons(data, []);
      assert data + [] == data;
    }
    assert Decode(q) == Some([data[0], data[1], data[2]]) by {
      GroupRoundTrip(data[0], data[1], data[2]);
      DecodeSingle(q);
    }
    ShortBytes(data);
  }

  /** Four symbols without padding decode as one full group. */
  lemma DecodeSingle(q: string)
    requires |q| == 4 && IsSymbol(q[3])
    ensures Decode(q) == DecodeGroup(q)
  {
  }

  /** Fewer than three bytes encode as the final quantum alone. */
  lemma EncodeShort(data: seq<byte>)
    requires |data| < 3
    ensures Encode(data) == EncodeFinal(data)
  {
  }

  /** Four characters decode as the final quantum. */
  lemma DecodeLast(q: string)
    requires |q| == 4
    ensures Decode(q) == DecodeFinal(q)
  {
  }

  /** The last one or two bytes survive encoding and decoding. */
  lemma FinalRoundTrip(data: seq<byte>)
    requires 0 < |data| < 3
    ensures Decode(Encode(data)) == Some(data)
  {
    var q := EncodeFinal(data);
    EncodeShort(data);
    DecodeLast(q);
    assert DecodeFinal(q) == Some(data) by {
      ShortBytes(data);
      if |data| == 1 {
        OneByteRoundTrip(data[0]);
      } else {
        TwoByteRoundTrip(data[0], data[1]);
      }
    }
  }

  /** Decoding inverts encoding. */
  lemma {:induction false} DecodeEncode(data: seq<byte>)
    ensures Decode(Encode(data)) == Some(data)
    decreases |data|
  {
    if 0 < |data| < 3 {
      FinalRoundTrip(data);
    } else if |data| == 3 {
      ThreeByteRoundTrip(data);
    } else if |data| > 3 {
      DecodeEncode(data[3..]);
      DecodeEncodeStep(data);
    }
  }

  /** Whatever the strict decoder accepts is exactly the encoding of its
      result: no two texts decode to the same bytes. */
  lemma {:induction false} EncodeDecode(s: string)
    requires Decode(s).Some?
    ensures Encode(Decode(s).value) == s
    decreases |s|
  {
    if |s| == 4 {
      FinalInverse(s);
    } else if |s| > 4 {
      EncodeDecode(s[4..]);
      EncodeDecodeStep(s);
    }
  }

  /** A full quantum in front of decodable text: re-encoding the decoded
      group and the decoded rest restores both. */
  lemma EncodeDecodeStep(s: string)
    requires |s| > 4 && Decode(s).Some?
    requires Encode(Decode(s[4..]).value) == s[4..]
    ensures Encode(Decode(s).value) == s
  {
    var head := DecodeGroup(s[..4]).value;
    var tail := Decode(s[4..]).value;
    GroupInverse(s[..4]);
    assert Decode(s).value == head + tail;
    EncodeCons(head, tail);
    assert s == s[..4] + s[4..];
  }

  /** Encoding a full group in front of more bytes. */
  lemma EncodeCons(head: seq<byte>, tail: seq<byte>)
    requires |head| == 3
    ensures Encode(head + tail) == EncodeGroup(head[0], head[1], head[2]) + Encode(tail)
  {
    assert (head + tail)[3..] == tail;
  }

  lemma GroupInverse(q: string)
    requires |q| == 4 && DecodeGroup(q).Some?
    ensures var d := DecodeGroup(q).value; EncodeGroup(d[0], d[1], d[2]) == q
  {
    var v0, v1, v2, v3 := Value(q[0]), Value(q[1]), Value(q[2]), Value(q[3]);
    var d := DecodeGroup(q).value;
    assert d[0] / 4 == v0 && d[0] % 4 * 16 + d[1] / 16 == v1;
    assert d[1] % 16 * 4 + d[2] / 64 == v2 && d[2] % 64 == v3;
  }

  /** The last quantum the decoder accepts is the encoding of what it yields. */
  lemma FinalInverse(q: string)
    requires |q| == 4 && DecodeFinal(q).Some?
    ensures Encode(DecodeFinal(q).value) == q
  {
    var d := DecodeFinal(q).value;
    if q[3] != Pad {
      GroupInverse(q);
      EncodeCons(d, []);
      assert d + [] == d;
    } else if q[2] != Pad {
      var v0, v1, v2 := Value(q[0]), Value(q[1]), Value(q[2]);
      assert d[0] / 4 == v0 && d[0] % 4 * 16 + d[1] / 16 == v1;
      assert d[1] % 16 * 4 == v2;
    } else {
      var v0, v1 := Value(q[0]), Value(q[1]);
      assert d[0] / 4 == v0 && d[0] % 4 * 16 == v1;
    }
  }

  /** The strict decoder accepts a text exactly when it is an encoding. */
  lemma DecodeIffEncoding(s: string, data: seq<byte>)
    ensures Decode(s) == Some(data) <==> Encode(data) == s
  {
    if Decode(s) == Some(data) {
      EncodeDecode(s);
    }
    if Encode(data) == s {
      DecodeEncode(data);
    }
  }

  /** Every character is an alphabet symbol or the padding character. */
  predicate InAlphabet(s: string) {
    forall i :: 0 <= i < |s| ==> IsSymbol(s[i]) || s[i] == Pad
  }

  /** The encoder emits nothing but alphabet symbols and padding. */
  lemma EncodeInAlphabet(data: seq<byte>)
    ensures InAlphabet(Encode(data))
  {
    EncodeAlphabet(data);
  }
}
