/** The parts of the SCALE codec the event decoder relies on: reading raw bytes
    off a cursor and the compact integer encoding.

    A compact integer stores its mode in the two low bits of its first byte:
    0 — the value is the upper six bits of that one byte (values below 2^6);
    1 — two little-endian bytes, value in the upper 14 bits (below 2^14);
    2 — four little-endian bytes, value in the upper 30 bits (below 2^30);
    3 — the upper six bits hold `k - 4`, and `k` little-endian bytes follow.
    Decoding is canonical: an encoding that uses a longer mode or more bytes
    than its value needs, or a value too wide for the target integer, is
    rejected. */
module Scale {
  import opened Base
  import opened LittleEndian

  /** The ways the codec itself can refuse its input. */
  datatype CodecError =
    | UnexpectedEof   // the input ended before the value did
    | OutOfRange      // a compact integer in a wrong mode, non-minimal, or too wide
    | InvalidBool     // a boolean byte other than 0 or 1
    | InvalidUtf8     // string bytes that are not well-formed UTF-8
    | InvalidPhase    // a phase tag other than 0, 1 or 2

  /** Take `n` bytes off the front of the cursor. */
  function ReadBytes(input: Bytes, n: nat): (r: Result<(Bytes, Bytes), CodecError>)
    ensures r.Ok? <==> n <= |input|
    ensures r.Ok? ==> |r.value.0| == n && r.value.0 + r.value.1 == input
    ensures r.Err? ==> r.error == UnexpectedEof
  {
    if |input| < n then Err(UnexpectedEof) else Ok((input[..n], input[n..]))
  }

  predicate IsContinuation(b: Byte) {
    0x80 <= b <= 0xBF
  }

  /** Length of the well-formed UTF-8 scalar at the front of `s` (Unicode's
      table of well-formed byte sequences), or 0 if it is ill-formed: no
      overlong forms, no surrogates, nothing above U+10FFFF. */
  function ScalarLength(s: Bytes): (n: nat)
    requires |s| > 0
    ensures n <= 4 && n <= |s|
  {
    var b := s[0];
    if b <= 0x7F then 1
    else if 0xC2 <= b <= 0xDF then
      if |s| >= 2 && IsContinuation(s[1]) then 2 else 0
    else if 0xE0 <= b <= 0xEF then
      var lo := if b == 0xE0 then 0xA0 else 0x80;
      var hi := if b == 0xED then 0x9F else 0xBF;
      if |s| >= 3 && lo <= s[1] <= hi && IsContinuation(s[2]) then 3 else 0
    else if 0xF0 <= b <= 0xF4 then
      var lo := if b == 0xF0 then 0x90 else 0x80;
      var hi := if b == 0xF4 then 0x8F else 0xBF;
      if |s| >= 4 && lo <= s[1] <= hi && IsContinuation(s[2]) && IsContinuation(s[3]) then 4 else 0
    else 0
  }

  /** The bytes form a sequence of well-formed UTF-8 scalars. */
  predicate WellFormedUtf8(s: Bytes)
    decreases |s|
  {
    |s| == 0 || (ScalarLength(s) > 0 && WellFormedUtf8(s[ScalarLength(s)..]))
  }

  /** Byte widths of the unsigned integers that have a compact form (u8 … u128). */
  predicate IsCompactWidth(wb: nat) {
    wb == 1 || wb == 2 || wb == 4 || wb == 8 || wb == 16
  }

  /** The fewest bytes that hold `n`. */
  function BytesNeeded(n: nat): (k: nat)
    ensures n < Pow256(k)
    ensures k == 0 || Pow256(k - 1) <= n
  {
    if n == 0 then 0 else 1 + BytesNeeded(n / 256)
  }

  function Max(a: nat, b: nat): nat {
    if a < b then b else a
  }

  /** 2^128: the compact encoding covers the unsigned integers below it. */
  const U128Limit: nat := 0x1_0000_0000_0000_0000_0000_0000_0000_0000

  /** The compact encoding of a value below 2^128, always in the shortest mode. */
  function EncodeCompact(n: nat): (b: Bytes)
    requires n < U128Limit
    ensures 1 <= |b| <= 17
  {
    if n < 0x40 then [n * 4]
    else if n < 0x4000 then (Pow256Values(); ToLE(n * 4 + 1, 2))
    else if n < 0x4000_0000 then (Pow256Values(); ToLE(n * 4 + 2, 4))
    else
      Pow256Sixteen();
      BytesNeededLeast(n, 16);
      EncodeBig(n, Max(4, BytesNeeded(n)))
  }

  /** The big-integer mode: a prefix byte carrying `k - 4`, then `k` value bytes. */
  function EncodeBig(n: nat, k: nat): (b: Bytes)
    requires 4 <= k <= 16
    ensures |b| == 1 + k
  {
    var prefix: Byte := (k - 4) * 4 + 3;
    [prefix] + ToLE(n, k)
  }

  /** Whether `v`, read in the big-integer mode from `k` bytes, needed all of them. */
  predicate MinimalBigInt(k: nat, v: nat) {
    if k == 4 then v >= 0x4000_0000 else k > 4 && v >= Pow256(k - 1)
  }

  /** Decode a compact integer for an unsigned target `wb` bytes wide. */
  function DecodeCompact(wb: nat, input: Bytes): (r: Result<(nat, Bytes), CodecError>)
    requires IsCompactWidth(wb)
    ensures r.Ok? ==> r.value.0 < Pow256(wb) && |r.value.1| < |input|
  {
    if |input| == 0 then Err(UnexpectedEof)
    else
      var prefix := input[0];
      if prefix % 4 == 0 then
        Pow256Values();
        Ok((prefix / 4, input[1..]))
      else if prefix % 4 == 1 then
        if |input| < 2 then Err(UnexpectedEof)
        else
          var v := FromLE(input[..2]) / 4;
          if 0x40 <= v && v < Pow256(wb) then Ok((v, input[2..])) else Err(OutOfRange)
      else if prefix % 4 == 2 then
        if wb < 2 then Err(OutOfRange)
        else if |input| < 4 then Err(UnexpectedEof)
        else
          var v := FromLE(input[..4]) / 4;
          if 0x4000 <= v && v < Pow256(wb) then Ok((v, input[4..])) else Err(OutOfRange)
      else
        var k := prefix / 4 + 4;
        if wb < k then Err(OutOfRange)
        else if |input| < 1 + k then Err(UnexpectedEof)
        else
          var v := FromLE(input[1..1 + k]);
          Pow256Monotone(k, wb);
          if MinimalBigInt(k, v) then Ok((v, input[1 + k..])) else Err(OutOfRange)
  }

  lemma Pow256Values()
    ensures Pow256(0) == 1 && Pow256(1) == 0x100 && Pow256(2) == 0x1_0000
    ensures Pow256(3) == 0x100_0000 && Pow256(4) == 0x1_0000_0000
  {
  }

  lemma Pow256Sixteen()
    ensures Pow256(16) == U128Limit
  {
    Pow256Values();
    assert Pow256(8) == 0x1_0000_0000_0000_0000;
  }

  /** Every width up to sixteen bytes stays within the compact range. */
  lemma WidthBound(k: nat)
    requires k <= 16
    ensures Pow256(k) <= U128Limit
  {
    Pow256Monotone(k, 16);
    Pow256Sixteen();
  }

  lemma {:induction false} Pow256Monotone(a: nat, b: nat)
    requires a <= b
    ensures Pow256(a) <= Pow256(b)
    ensures a < b ==> 256 * Pow256(a) <= Pow256(b)
    decreases b
  {
    if a < b {
      Pow256Monotone(a, b - 1);
    }
  }

  /** `BytesNeeded` is the least width that holds `n`. */
  lemma {:induction false} BytesNeededLeast(n: nat, j: nat)
    requires n < Pow256(j)
    ensures BytesNeeded(n) <= j
  {
    if n > 0 {
      assert j > 0;
      assert n / 256 < Pow256(j - 1);
      BytesNeededLeast(n / 256, j - 1);
    }
  }

  lemma BytesNeededExact(n: nat, k: nat)
    requires k > 0 && Pow256(k - 1) <= n < Pow256(k)
    ensures BytesNeeded(n) == k
  {
    BytesNeededLeast(n, k);
    var j := BytesNeeded(n);
    if j < k {
      Pow256Monotone(j, k - 1);
    }
  }

  /* ---- How the decoder reads each mode ---- */

  lemma DecodeSmallAt(wb: nat, input: Bytes)
    requires IsCompactWidth(wb) && 1 <= |input| && input[0] % 4 == 0
    ensures DecodeCompact(wb, input) == Ok((input[0] / 4, input[1..]))
  {
  }

  lemma DecodeTwoAt(wb: nat, input: Bytes)
    requires IsCompactWidth(wb) && 2 <= |input| && input[0] % 4 == 1
    ensures var v := FromLE(input[..2]) / 4;
      DecodeCompact(wb, input) == if 0x40 <= v < Pow256(wb) then Ok((v, input[2..])) else Err(OutOfRange)
  {
  }

  lemma DecodeFourAt(wb: nat, input: Bytes)
    requires IsCompactWidth(wb) && 2 <= wb && 4 <= |input| && input[0] % 4 == 2
    ensures var v := FromLE(input[..4]) / 4;
      DecodeCompact(wb, input) == if 0x4000 <= v < Pow256(wb) then Ok((v, input[4..])) else Err(OutOfRange)
  {
  }

  lemma DecodeBigAt(wb: nat, input: Bytes)
    requires IsCompactWidth(wb) && |input| > 0 && input[0] % 4 == 3
    requires input[0] / 4 + 4 <= wb && input[0] / 4 + 5 <= |input|
    ensures var k := input[0] / 4 + 4;
      var v := FromLE(input[1..1 + k]);
      DecodeCompact(wb, input) == if MinimalBigInt(k, v) then Ok((v, input[1 + k..])) else Err(OutOfRange)
  {
  }

  /** A successful decode in each mode had the bytes that mode needs. */
  lemma DecodedLength(wb: nat, input: Bytes)
    requires IsCompactWidth(wb) && DecodeCompact(wb, input).Ok?
    ensures |input| >= 1
    ensures input[0] % 4 == 1 ==> |input| >= 2
    ensures input[0] % 4 == 2 ==> wb >= 2 && |input| >= 4
    ensures input[0] % 4 == 3 ==> input[0] / 4 + 4 <= wb && input[0] / 4 + 5 <= |input|
  {
  }

  /* ---- What the encoder writes in each mode ---- */

  lemma TwoBytesLayout(n: nat, rest: Bytes)
    requires 0x40 <= n < 0x4000
    ensures var input := ToLE(n * 4 + 1, 2) + rest;
      input[0] % 4 == 1 && FromLE(input[..2]) / 4 == n && input[2..] == rest
  {
    Pow256Values();
    var e := ToLE(n * 4 + 1, 2);
    var input := e + rest;
    FirstByte(n * 4 + 1, 2);
    FromToLE(n * 4 + 1, 2);
    assert input[..2] == e;
    assert input[2..] == rest;
  }

  lemma FourBytesLayout(n: nat, rest: Bytes)
    requires 0x4000 <= n < 0x4000_0000
    ensures var input := ToLE(n * 4 + 2, 4) + rest;
      input[0] % 4 == 2 && FromLE(input[..4]) / 4 == n && input[4..] == rest
  {
    Pow256Values();
    var e := ToLE(n * 4 + 2, 4);
    var input := e + rest;
    FirstByte(n * 4 + 2, 4);
    FromToLE(n * 4 + 2, 4);
    assert input[..4] == e;
    assert input[4..] == rest;
  }

  lemma BigLayout(n: nat, k: nat, rest: Bytes)
    requires 4 <= k <= 16 && n < Pow256(k)
    ensures var input := EncodeBig(n, k) + rest;
      input[0] % 4 == 3 && input[0] / 4 + 4 == k
      && FromLE(input[1..1 + k]) == n && input[1 + k..] == rest
  {
    var input := EncodeBig(n, k) + rest;
    var prefix := (k - 4) * 4 + 3;
    assert input[0] == prefix;
    assert prefix % 4 == 3 && prefix / 4 == k - 4;
    assert input[1..1 + k] == ToLE(n, k);
    assert input[1 + k..] == rest;
    FromToLE(n, k);
  }

  /** Which mode the encoder picks for `n`. */
  lemma EncodeModes(n: nat)
    requires n < U128Limit
    ensures n < 0x40 ==> EncodeCompact(n) == [n * 4]
    ensures 0x40 <= n < 0x4000 ==> EncodeCompact(n) == ToLE(n * 4 + 1, 2)
    ensures 0x4000 <= n < 0x4000_0000 ==> EncodeCompact(n) == ToLE(n * 4 + 2, 4)
    ensures 0x4000_0000 <= n ==>
      4 <= Max(4, BytesNeeded(n)) <= 16 && EncodeCompact(n) == EncodeBig(n, Max(4, BytesNeeded(n)))
  {
    Pow256Sixteen();
    BytesNeededLeast(n, 16);
  }

  /* ---- Round trip ---- */

  lemma RoundTripSmall(wb: nat, n: nat, rest: Bytes)
    requires IsCompactWidth(wb) && n < 0x40
    ensures DecodeCompact(wb, EncodeCompact(n) + rest) == Ok((n, rest))
  {
    Pow256Values();
    EncodeModes(n);
    var input := EncodeCompact(n) + rest;
    assert input[0] == n * 4 && input[1..] == rest;
    DecodeSmallAt(wb, input);
  }

  lemma RoundTripTwoBytes(wb: nat, n: nat, rest: Bytes)
    requires IsCompactWidth(wb) && 0x40 <= n < 0x4000 && n < Pow256(wb)
    ensures DecodeCompact(wb, EncodeCompact(n) + rest) == Ok((n, rest))
  {
    Pow256Values();
    EncodeModes(n);
    TwoBytesLayout(n, rest);
    DecodeTwoAt(wb, EncodeCompact(n) + rest);
  }

  lemma RoundTripFourBytes(wb: nat, n: nat, rest: Bytes)
    requires IsCompactWidth(wb) && 0x4000 <= n < 0x4000_0000 && n < Pow256(wb)
    ensures DecodeCompact(wb, EncodeCompact(n) + rest) == Ok((n, rest))
  {
    Pow256Values();
    EncodeModes(n);
    FourBytesLayout(n, rest);
    DecodeFourAt(wb, EncodeCompact(n) + rest);
  }

  /** `k` is the byte count the encoder uses in the big-integer mode. */
  lemma BigWidth(n: nat, wb: nat)
    requires IsCompactWidth(wb) && 0x4000_0000 <= n < Pow256(wb)
    ensures 4 <= Max(4, BytesNeeded(n)) <= wb
    ensures MinimalBigInt(Max(4, BytesNeeded(n)), n) && n < Pow256(Max(4, BytesNeeded(n)))
  {
    Pow256Values();
    BytesNeededLeast(n, wb);
    Pow256Monotone(BytesNeeded(n), Max(4, BytesNeeded(n)));
  }

  lemma RoundTripBig(wb: nat, n: nat, rest: Bytes)
    requires IsCompactWidth(wb) && 0x4000_0000 <= n < Pow256(wb)
    ensures n < U128Limit
    ensures DecodeCompact(wb, EncodeCompact(n) + rest) == Ok((n, rest))
  {
    WidthBound(wb);
    BigWidth(n, wb);
    EncodeModes(n);
    var k := Max(4, BytesNeeded(n));
    BigLayout(n, k, rest);
    DecodeBigAt(wb, EncodeCompact(n) + rest);
  }

  /** Compact round trip: a value that fits the target width decodes from its
      encoding, leaving whatever followed it untouched. */
  lemma CompactRoundTrip(wb: nat, n: nat, rest: Bytes)
    requires IsCompactWidth(wb) && n < Pow256(wb)
    ensures n < U128Limit
    ensures DecodeCompact(wb, EncodeCompact(n) + rest) == Ok((n, rest))
  {
    WidthBound(wb);
    if n < 0x40 {
      RoundTripSmall(wb, n, rest);
    } else if n < 0x4000 {
      RoundTripTwoBytes(wb, n, rest);
    } else if n < 0x4000_0000 {
      RoundTripFourBytes(wb, n, rest);
    } else {
      RoundTripBig(wb, n, rest);
    }
  }

  /* ---- Canonicity ---- */

  lemma CanonicalSmall(wb: nat, input: Bytes)
    requires IsCompactWidth(wb) && |input| > 0 && input[0] % 4 == 0
    ensures input[0] / 4 < 0x40
    ensures input == EncodeCompact(input[0] / 4) + input[1..]
  {
    Pow256Values();
    EncodeModes(input[0] / 4);
  }

  lemma CanonicalTwoBytes(wb: nat, input: Bytes)
    requires IsCompactWidth(wb) && 2 <= |input| && input[0] % 4 == 1
    requires 0x40 <= FromLE(input[..2]) / 4
    ensures var n := FromLE(input[..2]) / 4;
      n < 0x4000 && input == EncodeCompact(n) + input[2..]
  {
    Pow256Values();
    var b := input[..2];
    var n := FromLE(b) / 4;
    LowBits(b);
    assert FromLE(b) == n * 4 + 1;
    ToFromLE(b);
    EncodeModes(n);
    assert input == b + input[2..];
  }

  lemma CanonicalFourBytes(wb: nat, input: Bytes)
    requires IsCompactWidth(wb) && 4 <= |input| && input[0] % 4 == 2
    requires 0x4000 <= FromLE(input[..4]) / 4
    ensures var n := FromLE(input[..4]) / 4;
      n < 0x4000_0000 && input == EncodeCompact(n) + input[4..]
  {
    Pow256Values();
    var b := input[..4];
    var n := FromLE(b) / 4;
    LowBits(b);
    assert FromLE(b) == n * 4 + 2;
    ToFromLE(b);
    EncodeModes(n);
    assert input == b + input[4..];
  }

  /** A big-integer value that passed the minimality check has the byte count the
      encoder would choose for it. */
  lemma BigWidthExact(k: nat, n: nat)
    requires 4 <= k <= 16 && n < Pow256(k) && MinimalBigInt(k, n)
    ensures 0x4000_0000 <= n < U128Limit
    ensures Max(4, BytesNeeded(n)) == k
  {
    Pow256Values();
    WidthBound(k);
    if k == 4 {
      BytesNeededLeast(n, 4);
    } else {
      Pow256Monotone(4, k - 1);
      BytesNeededExact(n, k);
    }
  }

  lemma CanonicalBig(input: Bytes)
    requires |input| > 0 && input[0] % 4 == 3
    requires input[0] / 4 + 4 <= 16 && input[0] / 4 + 5 <= |input|
    requires MinimalBigInt(input[0] / 4 + 4, FromLE(input[1..input[0] / 4 + 5]))
    ensures var n := FromLE(input[1..input[0] / 4 + 5]);
      n < U128Limit && input == EncodeCompact(n) + input[input[0] / 4 + 5..]
  {
    var k := input[0] / 4 + 4;
    var b := input[1..1 + k];
    var n := FromLE(b);
    BigWidthExact(k, n);
    EncodeModes(n);
    ToFromLE(b);
    var prefix: Byte := (k - 4) * 4 + 3;
    assert input[0] == prefix;
    assert input == [prefix] + b + input[1 + k..];
  }

  /** Compact canonicity: whatever the decoder accepts is exactly the encoding of
      the value it returns, so re-encoding reproduces the consumed bytes. */
  lemma CompactCanonical(wb: nat, input: Bytes)
    requires IsCompactWidth(wb)
    requires DecodeCompact(wb, input).Ok?
    ensures var (n, rest) := DecodeCompact(wb, input).value;
      n < U128Limit && input == EncodeCompact(n) + rest
  {
    DecodedLength(wb, input);
    var prefix := input[0];
    if prefix % 4 == 0 {
      DecodeSmallAt(wb, input);
      CanonicalSmall(wb, input);
    } else if prefix % 4 == 1 {
      DecodeTwoAt(wb, input);
      CanonicalTwoBytes(wb, input);
    } else if prefix % 4 == 2 {
      DecodeFourAt(wb, input);
      CanonicalFourBytes(wb, input);
    } else {
      DecodeBigAt(wb, input);
      CanonicalBig(input);
    }
  }

  lemma ErrStableTwoBytes(wb: nat, s: Bytes, t: Bytes)
    requires IsCompactWidth(wb) && |s| >= 2 && s[0] % 4 == 1
    requires DecodeCompact(wb, s).Err?
    ensures DecodeCompact(wb, s + t) == DecodeCompact(wb, s)
  {
    assert (s + t)[..2] == s[..2];
  }

  lemma ErrStableFourBytes(wb: nat, s: Bytes, t: Bytes)
    requires IsCompactWidth(wb) && |s| > 0 && s[0] % 4 == 2 && (wb < 2 || |s| >= 4)
    requires DecodeCompact(wb, s).Err?
    ensures DecodeCompact(wb, s + t) == DecodeCompact(wb, s)
  {
    if wb >= 2 {
      assert (s + t)[..4] == s[..4];
    }
  }

  lemma ErrStableBig(wb: nat, s: Bytes, t: Bytes)
    requires IsCompactWidth(wb) && |s| > 0 && s[0] % 4 == 3
    requires wb < s[0] / 4 + 4 || s[0] / 4 + 5 <= |s|
    requires DecodeCompact(wb, s).Err?
    ensures DecodeCompact(wb, s + t) == DecodeCompact(wb, s)
  {
    var k := s[0] / 4 + 4;
    if k <= wb {
      assert (s + t)[1..1 + k] == s[1..1 + k];
      DecodeBigAt(wb, s);
      DecodeBigAt(wb, s + t);
    }
  }

  /** A refusal other than running out of input is decided by the bytes already
      seen: more input does not change it. */
  lemma CompactErrStable(wb: nat, s: Bytes, t: Bytes)
    requires IsCompactWidth(wb)
    requires DecodeCompact(wb, s).Err? && DecodeCompact(wb, s).error != UnexpectedEof
    ensures DecodeCompact(wb, s + t) == DecodeCompact(wb, s)
  {
    assert (s + t)[0] == s[0];
    if s[0] % 4 == 1 {
      ErrStableTwoBytes(wb, s, t);
    } else if s[0] % 4 == 2 {
      ErrStableFourBytes(wb, s, t);
    } else if s[0] % 4 == 3 {
      ErrStableBig(wb, s, t);
    }
  }

  /** A successful compact decode does not look past the bytes it consumed, and a
      refusal other than running out of input is decided by the bytes already seen. */
  lemma CompactExtends(wb: nat, s: Bytes, t: Bytes)
    requires IsCompactWidth(wb)
    ensures var a, b := DecodeCompact(wb, s), DecodeCompact(wb, s + t);
      (a.Ok? ==> b == Ok((a.value.0, a.value.1 + t)))
      && (a.Err? && a.error != UnexpectedEof ==> b == a)
  {
    var a := DecodeCompact(wb, s);
    if a.Ok? {
      CompactCanonical(wb, s);
      var (n, rest) := a.value;
      assert s + t == EncodeCompact(n) + (rest + t);
      CompactRoundTrip(wb, n, rest + t);
    } else if a.error != UnexpectedEof {
      CompactErrStable(wb, s, t);
    }
  }
}
