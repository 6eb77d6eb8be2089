/**
 * The reversible credential transform: Base 64 Encoding as defined in
 * section 4 of RFC 4648, over byte strings, with '=' padding.
 *
 * Every 3 input bytes (one 24-bit group) become 4 characters of the
 * 64-character alphabet; a final group of 1 or 2 bytes becomes 2 or 3
 * characters followed by "==" or "=" (RFC 4648, section 4, cases (2) and (3)).
 */
module Base64 {
  import opened Common

  const PAD: char := '='

  /** The characters of the base 64 alphabet (Table 1 of RFC 4648). */
  predicate IsAlphabetChar(c: char) {
    ('A' <= c <= 'Z') || ('a' <= c <= 'z') || ('0' <= c <= '9') || c == '+' || c == '/'
  }

  /** The character that Table 1 assigns to the 6-bit value `v`. */
  function CharOf(v: int): (c: char)
    requires 0 <= v < 64
    ensures IsAlphabetChar(c)
  {
    if v < 26 then ('A' as int + v) as char
    else if v < 52 then ('a' as int + (v - 26)) as char
    else if v < 62 then ('0' as int + (v - 52)) as char
    else if v == 62 then '+'
    else '/'
  }

  /** The 6-bit value of an alphabet character: the inverse of Table 1. */
  function ValueOf(c: char): (v: int)
    requires IsAlphabetChar(c)
    ensures 0 <= v < 64 && CharOf(v) == c
  {
    if 'A' <= c <= 'Z' then c as int - 'A' as int
    else if 'a' <= c <= 'z' then c as int - 'a' as int + 26
    else if '0' <= c <= '9' then c as int - '0' as int + 52
    else if c == '+' then 62
    else 63
  }

  lemma ValueOfCharOf(v: int)
    requires 0 <= v < 64
    ensures ValueOf(CharOf(v)) == v
  {
  }

  /** A full 24-bit group: four 6-bit values, most significant first. */
  function EncodeGroup(b0: byte, b1: byte, b2: byte): string {
    [CharOf(b0 / 4), CharOf(b0 % 4 * 16 + b1 / 16), CharOf(b1 % 16 * 4 + b2 / 64), CharOf(b2 % 64)]
  }

  /** A final group of 8 bits: two characters and two pad characters. */
  function EncodeLastOne(b0: byte): string {
    [CharOf(b0 / 4), CharOf(b0 % 4 * 16), PAD, PAD]
  }

  /** A final group of 16 bits: three characters and one pad character. */
  function EncodeLastTwo(b0: byte, b1: byte): string {
    [CharOf(b0 / 4), CharOf(b0 % 4 * 16 + b1 / 16), CharOf(b1 % 16 * 4), PAD]
  }

  /** The number of pad characters at the end of the encoding of `n` bytes. */
  function Padding(n: nat): nat {
    (3 - n % 3) % 3
  }

  /** The Base 64 encoding of `data`; its length is 4 * ceil(|data| / 3). */
  function Encode(data: Bytes): (s: string)
    ensures |s| == 4 * ((|data| + 2) / 3)
    decreases |data|
  {
    if |data| == 0 then []
    else if |data| == 1 then EncodeLastOne(data[0])
    else if |data| == 2 then EncodeLastTwo(data[0], data[1])
    else EncodeGroup(data[0], data[1], data[2]) + Encode(data[3..])
  }

  /** Decodes four alphabet characters (no padding) into three bytes. */
  function DecodeGroup(s: string): Option<Bytes>
    requires |s| == 4
  {
    if IsAlphabetChar(s[0]) && IsAlphabetChar(s[1]) && IsAlphabetChar(s[2]) && IsAlphabetChar(s[3]) then
      var v0, v1, v2, v3 := ValueOf(s[0]), ValueOf(s[1]), ValueOf(s[2]), ValueOf(s[3]);
      Some([v0 * 4 + v1 / 16, v1 % 16 * 16 + v2 / 4, v2 % 4 * 64 + v3])
    else
      None
  }

  /**
   * Decodes the last four characters, which may end in "==" or "=".
   * The bits that only pad the final group must be zero (RFC 4648, section 3.5).
   */
  function DecodeLast(s: string): Option<Bytes>
    requires |s| == 4
  {
    if s[2] == PAD && s[3] == PAD then
      if IsAlphabetChar(s[0]) && IsAlphabetChar(s[1]) && ValueOf(s[1]) % 16 == 0 then
        Some([ValueOf(s[0]) * 4 + ValueOf(s[1]) / 16])
      else
        None
    else if s[3] == PAD then
      if IsAlphabetChar(s[0]) && IsAlphabetChar(s[1]) && IsAlphabetChar(s[2]) && ValueOf(s[2]) % 4 == 0 then
        var v0, v1, v2 := ValueOf(s[0]), ValueOf(s[1]), ValueOf(s[2]);
        Some([v0 * 4 + v1 / 16, v1 % 16 * 16 + v2 / 4])
      else
        None
    else
      DecodeGroup(s)
  }

  /**
   * Strict decoding: `None` for any string that is not the encoding of
   * some byte string (wrong length, a character outside the alphabet,
   * padding anywhere but at the end, non-zero pad bits).
   */
  function Decode(s: string): (r: Option<Bytes>)
    ensures r.Some? ==> |s| % 4 == 0 && |r.value| <= 3 * (|s| / 4)
    decreases |s|
  {
    if |s| == 0 then Some([])
    else if |s| < 4 then None
    else if |s| == 4 then DecodeLast(s)
    else
      match DecodeGroup(s[..4])
      case None => None
      case Some(head) =>
        match Decode(s[4..])
        case None => None
        case Some(tail) => Some(head + tail)
  }

  /** Splitting `hi * 4 + lo` back into its two parts. */
  lemma Join4(hi: int, lo: int)
    requires 0 <= hi && 0 <= lo < 4
    ensures (hi * 4 + lo) / 4 == hi && (hi * 4 + lo) % 4 == lo
  {
  }

  /** Splitting `hi * 16 + lo` back into its two parts. */
  lemma Join16(hi: int, lo: int)
    requires 0 <= hi && 0 <= lo < 16
    ensures (hi * 16 + lo) / 16 == hi && (hi * 16 + lo) % 16 == lo
  {
  }

  /** Splitting `hi * 64 + lo` back into its two parts. */
  lemma Join64(hi: int, lo: int)
    requires 0 <= hi && 0 <= lo < 64
    ensures (hi * 64 + lo) / 64 == hi && (hi * 64 + lo) % 64 == lo
  {
  }

  lemma DecodeEncodeGroup(b0: byte, b1: byte, b2: byte)
    ensures DecodeGroup(EncodeGroup(b0, b1, b2)) == Some([b0, b1, b2])
  {
    var v0, v1, v2, v3 := b0 / 4, b0 % 4 * 16 + b1 / 16, b1 % 16 * 4 + b2 / 64, b2 % 64;
    var s := EncodeGroup(b0, b1, b2);
    assert s == [CharOf(v0), CharOf(v1), CharOf(v2), CharOf(v3)];
    ValueOfCharOf(v0);
    ValueOfCharOf(v1);
    ValueOfCharOf(v2);
    ValueOfCharOf(v3);
    Join16(b0 % 4, b1 / 16);
    Join4(b1 % 16, b2 / 64);
    assert v0 * 4 + v1 / 16 == b0;
    assert v1 % 16 * 16 + v2 / 4 == b1;
    assert v2 % 4 * 64 + v3 == b2;
  }

  lemma DecodeEncodeLastOne(b0: byte)
    ensures Decode(EncodeLastOne(b0)) == Some([b0])
  {
    var v0, v1 := b0 / 4, b0 % 4 * 16;
    var s := EncodeLastOne(b0);
    assert s == [CharOf(v0), CharOf(v1), PAD, PAD];
    ValueOfCharOf(v0);
    ValueOfCharOf(v1);
    Join16(b0 % 4, 0);
    assert v0 * 4 + v1 / 16 == b0;
    assert Decode(s) == DecodeLast(s);
  }

  lemma DecodeEncodeLastTwo(b0: byte, b1: byte)
    ensures Decode(EncodeLastTwo(b0, b1)) == Some([b0, b1])
  {
    var v0, v1, v2 := b0 / 4, b0 % 4 * 16 + b1 / 16, b1 % 16 * 4;
    var s := EncodeLastTwo(b0, b1);
    assert s == [CharOf(v0), CharOf(v1), CharOf(v2), PAD];
    ValueOfCharOf(v0);
    ValueOfCharOf(v1);
    ValueOfCharOf(v2);
    Join16(b0 % 4, b1 / 16);
    Join4(b1 % 16, 0);
    assert v0 * 4 + v1 / 16 == b0;
    assert v1 % 16 * 16 + v2 / 4 == b1;
    assert Decode(s) == DecodeLast(s);
  }

  lemma DecodeEncodeLastGroup(b0: byte, b1: byte, b2: byte)
    ensures Decode(EncodeGroup(b0, b1, b2)) == Some([b0, b1, b2])
  {
    var s := EncodeGroup(b0, b1, b2);
    assert IsAlphabetChar(s[3]) && s[3] != PAD;
    DecodeEncodeGroup(b0, b1, b2);
    assert Decode(s) == DecodeLast(s);
  }

  /** How Decode treats a string longer than one group. */
  lemma DecodeLonger(s: string, data: Bytes)
    requires |s| > 4 && |data| > 3
    requires DecodeGroup(s[..4]) == Some(data[..3]) && Decode(s[4..]) == Some(data[3..])
    ensures Decode(s) == Some(data)
  {
    assert data == data[..3] + data[3..];
  }

  /** The first group of a long encoding, and what follows it. */
  lemma EncodeLonger(data: Bytes)
    requires |data| > 3
    ensures |Encode(data)| > 4
    ensures DecodeGroup(Encode(data)[..4]) == Some(data[..3])
    ensures Encode(data)[4..] == Encode(data[3..])
  {
    var head := EncodeGroup(data[0], data[1], data[2]);
    assert Encode(data) == head + Encode(data[3..]);
    assert Encode(data)[..4] == head;
    DecodeEncodeGroup(data[0], data[1], data[2]);
    assert data[..3] == [data[0], data[1], data[2]];
  }

  lemma DecodeEncodeOneByte(data: Bytes)
    requires |data| == 1
    ensures Decode(Encode(data)) == Some(data)
  {
    assert Encode(data) == EncodeLastOne(data[0]);
    DecodeEncodeLastOne(data[0]);
    assert data == [data[0]];
  }

  lemma DecodeEncodeTwoBytes(data: Bytes)
    requires |data| == 2
    ensures Decode(Encode(data)) == Some(data)
  {
    assert Encode(data) == EncodeLastTwo(data[0], data[1]);
    DecodeEncodeLastTwo(data[0], data[1]);
    assert data == [data[0], data[1]];
  }

  lemma DecodeEncodeThreeBytes(data: Bytes)
    requires |data| == 3
    ensures Decode(Encode(data)) == Some(data)
  {
    var g := EncodeGroup(data[0], data[1], data[2]);
    assert Encode(data) == g + Encode(data[3..]);
    assert Encode(data[3..]) == [];
    assert Encode(data) == g;
    DecodeEncodeLastGroup(data[0], data[1], data[2]);
    assert data == [data[0], data[1], data[2]];
  }

  lemma DecodeEncodeLonger(data: Bytes)
    requires |data| > 3 && Decode(Encode(data[3..])) == Some(data[3..])
    ensures Decode(Encode(data)) == Some(data)
  {
    EncodeLonger(data);
    DecodeLonger(Encode(data), data);
  }

  /** Decoding undoes encoding. */
  lemma {:induction false} DecodeEncode(data: Bytes)
    ensures Decode(Encode(data)) == Some(data)
    decreases |data|
  {
    if |data| == 1 {
      DecodeEncodeOneByte(data);
    } else if |data| == 2 {
      DecodeEncodeTwoBytes(data);
    } else if |data| == 3 {
      DecodeEncodeThreeBytes(data);
    } else if |data| > 3 {
      DecodeEncode(data[3..]);
      DecodeEncodeLonger(data);
    }
  }

  lemma EncodeDecodeGroup(s: string, b: Bytes)
    requires |s| == 4 && DecodeGroup(s) == Some(b)
    ensures |b| == 3 && EncodeGroup(b[0], b[1], b[2]) == s
  {
    var v0, v1, v2, v3 := ValueOf(s[0]), ValueOf(s[1]), ValueOf(s[2]), ValueOf(s[3]);
    assert b == [v0 * 4 + v1 / 16, v1 % 16 * 16 + v2 / 4, v2 % 4 * 64 + v3];
    Join4(v0, v1 / 16);
    Join16(v1 % 16, v2 / 4);
    Join64(v2 % 4, v3);
    assert b[0] / 4 * 4 + b[0] % 4 == b[0];
    assert b[0] % 4 * 16 + b[1] / 16 == v1;
    assert b[1] % 16 * 4 + b[2] / 64 == v2;
    assert EncodeGroup(b[0], b[1], b[2]) == [CharOf(v0), CharOf(v1), CharOf(v2), CharOf(v3)];
  }

  lemma EncodeDecodeLastOne(s: string, b: Bytes)
    requires |s| == 4 && s[2] == PAD && s[3] == PAD && DecodeLast(s) == Some(b)
    ensures |b| == 1 && Encode(b) == s
  {
    var v0, v1 := ValueOf(s[0]), ValueOf(s[1]);
    assert b == [v0 * 4 + v1 / 16];
    Join4(v0, v1 / 16);
    assert b[0] % 4 * 16 == v1;
    assert Encode(b) == EncodeLastOne(b[0]) == [CharOf(v0), CharOf(v1), PAD, PAD];
  }

  lemma EncodeDecodeLastTwo(s: string, b: Bytes)
    requires |s| == 4 && s[2] != PAD && s[3] == PAD && DecodeLast(s) == Some(b)
    ensures |b| == 2 && Encode(b) == s
  {
    var v0, v1, v2 := ValueOf(s[0]), ValueOf(s[1]), ValueOf(s[2]);
    assert b == [v0 * 4 + v1 / 16, v1 % 16 * 16 + v2 / 4];
    Join4(v0, v1 / 16);
    Join16(v1 % 16, v2 / 4);
    assert b[0] % 4 * 16 + b[1] / 16 == v1;
    assert b[1] % 16 * 4 == v2;
    assert Encode(b) == EncodeLastTwo(b[0], b[1]) == [CharOf(v0), CharOf(v1), CharOf(v2), PAD];
  }

  lemma EncodeDecodeLastGroup(s: string, b: Bytes)
    requires |s| == 4 && s[3] != PAD && DecodeLast(s) == Some(b)
    ensures |b| == 3 && Encode(b) == s
  {
    assert DecodeGroup(s) == Some(b);
    EncodeDecodeGroup(s, b);
    assert b[3..] == [];
    assert Encode(b) == EncodeGroup(b[0], b[1], b[2]);
  }

  lemma EncodeDecodeLast(s: string, b: Bytes)
    requires |s| == 4 && DecodeLast(s) == Some(b)
    ensures 0 < |b| <= 3 && Encode(b) == s
  {
    if s[2] == PAD && s[3] == PAD {
      EncodeDecodeLastOne(s, b);
    } else if s[3] == PAD {
      EncodeDecodeLastTwo(s, b);
    } else {
      EncodeDecodeLastGroup(s, b);
    }
  }

  /** Encoding undoes decoding: a string decodes only if it is an encoding. */
  lemma {:induction false} EncodeDecode(s: string, data: Bytes)
    requires Decode(s) == Some(data)
    ensures Encode(data) == s
    decreases |s|
  {
    if |s| == 0 {
    } else if |s| == 4 {
      EncodeDecodeLast(s, data);
    } else {
      var head := DecodeGroup(s[..4]).value;
      var tail := Decode(s[4..]).value;
      assert data == head + tail;
      EncodeDecodeGroup(s[..4], head);
      EncodeDecode(s[4..], tail);
      assert |Encode(tail)| > 0;
      assert data[..3] == head && data[3..] == tail;
      assert Encode(data) == EncodeGroup(head[0], head[1], head[2]) + Encode(tail);
      assert s == s[..4] + s[4..];
    }
  }

  /** A string decodes to `data` exactly when it is the encoding of `data`. */
  lemma DecodeIff(s: string, data: Bytes)
    ensures Decode(s) == Some(data) <==> s == Encode(data)
  {
    if Decode(s) == Some(data) {
      EncodeDecode(s, data);
    }
    if s == Encode(data) {
      DecodeEncode(data);
    }
  }

  /** Different byte strings have different encodings. */
  lemma EncodeInjective(a: Bytes, b: Bytes)
    requires Encode(a) == Encode(b)
    ensures a == b
  {
    DecodeEncode(a);
    DecodeEncode(b);
  }

  /** `s` is alphabet characters followed by exactly `pad` pad characters. */
  predicate AlphabetThenPad(s: string, pad: nat) {
    && pad <= |s|
    && (forall i :: 0 <= i < |s| - pad ==> IsAlphabetChar(s[i]))
    && (forall i :: |s| - pad <= i < |s| ==> s[i] == PAD)
  }

  /** The first group of a longer input, and the padding the rest still needs. */
  lemma EncodeStep(data: Bytes)
    requires |data| > 3
    ensures Encode(data) == EncodeGroup(data[0], data[1], data[2]) + Encode(data[3..])
    ensures Padding(|data|) == Padding(|data[3..]|)
  {
    PaddingStep(|data| - 3);
  }

  lemma PaddingStep(n: nat)
    ensures Padding(n + 3) == Padding(n)
  {
  }

  /** A full group is four alphabet characters. */
  lemma GroupAlphabet(b0: byte, b1: byte, b2: byte)
    ensures AlphabetThenPad(EncodeGroup(b0, b1, b2), 0)
  {
    var g := EncodeGroup(b0, b1, b2);
    forall i | 0 <= i < 4
      ensures IsAlphabetChar(g[i])
    {
    }
  }

  /** An all-alphabet prefix keeps the shape of what follows it. */
  lemma AlphabetThenPadConcat(head: string, rest: string, pad: nat)
    requires AlphabetThenPad(head, 0) && AlphabetThenPad(rest, pad)
    ensures AlphabetThenPad(head + rest, pad)
  {
    var s := head + rest;
    forall i | 0 <= i < |s| - pad
      ensures IsAlphabetChar(s[i])
    {
      if i >= |head| {
        assert s[i] == rest[i - |head|];
      } else {
        assert s[i] == head[i];
      }
    }
    forall i | |s| - pad <= i < |s|
      ensures s[i] == PAD
    {
      assert s[i] == rest[i - |head|];
    }
  }

  /** One byte: two alphabet characters, then "==". */
  lemma EncodeAlphabetOne(data: Bytes)
    requires |data| == 1
    ensures AlphabetThenPad(Encode(data), Padding(|data|))
  {
    var e := Encode(data);
    assert IsAlphabetChar(e[0]) && IsAlphabetChar(e[1]) && e[2] == PAD && e[3] == PAD;
  }

  /** Two bytes: three alphabet characters, then "=". */
  lemma EncodeAlphabetTwo(data: Bytes)
    requires |data| == 2
    ensures AlphabetThenPad(Encode(data), Padding(|data|))
  {
    var e := Encode(data);
    assert IsAlphabetChar(e[0]) && IsAlphabetChar(e[1]) && IsAlphabetChar(e[2]) && e[3] == PAD;
  }

  /** Three bytes: four alphabet characters. */
  lemma EncodeAlphabetThree(data: Bytes)
    requires |data| == 3
    ensures AlphabetThenPad(Encode(data), Padding(|data|))
  {
    var g := EncodeGroup(data[0], data[1], data[2]);
    assert Encode(data) == g + Encode(data[3..]);
    assert Encode(data[3..]) == [];
    assert Encode(data) == g;
    GroupAlphabet(data[0], data[1], data[2]);
  }

  /** The encoding uses only the alphabet, then Padding(|data|) pad characters. */
  lemma {:induction false} EncodeAlphabet(data: Bytes)
    ensures AlphabetThenPad(Encode(data), Padding(|data|))
    decreases |data|
  {
    if |data| == 1 {
      EncodeAlphabetOne(data);
    } else if |data| == 2 {
      EncodeAlphabetTwo(data);
    } else if |data| == 3 {
      EncodeAlphabetThree(data);
    } else if |data| > 3 {
      var head := EncodeGroup(data[0], data[1], data[2]);
      EncodeStep(data);
      EncodeAlphabet(data[3..]);
      GroupAlphabet(data[0], data[1], data[2]);
      AlphabetThenPadConcat(head, Encode(data[3..]), Padding(|data|));
    }
  }
}
