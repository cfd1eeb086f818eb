/** Unsigned LEB128, as in section 5.2.2 ("Integers") of the WebAssembly Core
    Specification 1.0: little-endian groups of seven bits, one group per byte,
    the top bit 0x80 of a byte saying that another byte follows. */
module Leb128 {
  import opened Bytes

  /** The continuation bit 0x80 of a byte is set. */
  predicate More(b: byte) {
    b >= 0x80
  }

  /** The seven value bits of a byte, `b & 0x7F`. */
  function Payload(b: byte): (v: nat)
    ensures v < 128
  {
    (b % 0x80) as nat
  }

  /** On a byte, `More` and `Payload` are the source's bit tests:
      `b & 0x80 == 0x80` and `b & 0x7F`. */
  lemma BitsOfByte(x: bv8)
    ensures More(x as int as byte) <==> x & 0x80 == 0x80
    ensures Payload(x as int as byte) == (x & 0x7F) as int
  {
  }

  /** The decoder wasm.py:34 calls: byte i contributes its seven value bits
      times 128^i. Every byte handed to it is used, whatever its continuation
      bit, and no input is rejected. */
  function Decode(w: seq<byte>): nat {
    if w == [] then 0 else Payload(w[0]) + 128 * Decode(w[1..])
  }

  /** The value fits in the seven value bits of each byte: it is below
      128^|w|. */
  lemma {:induction false} DecodeBound(w: seq<byte>)
    ensures Decode(w) < Pow(128, |w|)
  {
    if w != [] {
      DecodeBound(w[1..]);
    }
  }

  /** One whole encoded integer: the continuation bit is set on every byte but
      the last, and clear on the last. */
  predicate Complete(w: seq<byte>) {
    |w| >= 1 && if |w| == 1 then !More(w[0]) else More(w[0]) && Complete(w[1..])
  }

  /** A minimal encoding: a whole integer whose last byte is no redundant
      zero group. */
  predicate Canonical(w: seq<byte>) {
    Complete(w) && (|w| > 1 ==> w[|w| - 1] != 0)
  }

  /** The minimal unsigned LEB128 encoding of `n`, the reference against which
      the decoder and the size scan are checked. */
  function Encode(n: nat): (w: seq<byte>)
    ensures Canonical(w)
  {
    if n < 128 then
      [n as byte]
    else
      var rest := Encode(n / 128);
      var w := [(n % 128 + 0x80) as byte] + rest;
      assert w[1..] == rest;
      assert w[|w| - 1] == rest[|rest| - 1];
      w
  }

  /** The size scan of wasm.py:102-108 started at position `p`: it reads one
      byte at a time and counts up to and including the first byte whose
      continuation bit is clear. A read past the end yields 0, whose bit is
      clear, so the scan always stops, after at most one byte past the end. */
  function Size(s: seq<byte>, p: nat): (r: nat)
    ensures r >= 1
    ensures p < |s| ==> r <= |s| - p + 1
    ensures p >= |s| ==> r == 1
    decreases |s| - p
  {
    if More(At(s, p)) then 1 + Size(s, p + 1) else 1
  }

  /** The scan's result is the 1-based index, counted from `p`, of the first
      byte whose continuation bit is clear. */
  lemma {:induction false} SizeIsFirstClear(s: seq<byte>, p: nat)
    ensures forall j :: p <= j < p + Size(s, p) - 1 ==> More(At(s, j))
    ensures !More(At(s, p + Size(s, p) - 1))
    decreases |s| - p
  {
    if More(At(s, p)) {
      SizeIsFirstClear(s, p + 1);
    }
  }

  /** Where the stream holds that many bytes, the scan measures one whole
      encoded integer. */
  lemma {:induction false} SizeMeasuresComplete(s: seq<byte>, p: nat)
    requires p + Size(s, p) <= |s|
    ensures Complete(s[p..p + Size(s, p)])
    decreases |s| - p
  {
    var w := s[p..p + Size(s, p)];
    assert w[0] == At(s, p);
    if More(At(s, p)) {
      SizeMeasuresComplete(s, p + 1);
      assert w[1..] == s[p + 1..p + 1 + Size(s, p + 1)];
    }
  }

  /** Conversely, the scan started on a whole encoded integer stops at its
      last byte, whatever precedes and follows it. */
  lemma {:induction false} SizeOfComplete(s: seq<byte>, a: nat, w: seq<byte>)
    requires Occurs(s, a, w) && Complete(w)
    ensures Size(s, a) == |w|
    decreases |w|
  {
    assert At(s, a) == w[0];
    if |w| > 1 {
      assert w == [w[0]] + w[1..];
      OccursSplit(s, a, [w[0]], w[1..]);
      SizeOfComplete(s, a + 1, w[1..]);
    }
  }

  /** Decoding undoes encoding. */
  lemma {:induction false} DecodeEncode(n: nat)
    ensures Decode(Encode(n)) == n
  {
    if n >= 128 {
      var w := Encode(n);
      assert w[1..] == Encode(n / 128);
      DecodeEncode(n / 128);
    }
  }

  /** The rest of a canonical encoding after its first byte is canonical. */
  lemma CanonicalRest(w: seq<byte>)
    requires Canonical(w) && |w| > 1
    ensures Canonical(w[1..]) && More(w[0])
  {
    assert w[1..][|w[1..]| - 1] == w[|w| - 1];
  }

  /** A canonical encoding longer than one byte has a value of at least 128. */
  lemma {:induction false} DecodeCanonicalPositive(w: seq<byte>)
    requires Canonical(w) && |w| > 1
    ensures Decode(w) >= 128
    decreases |w|
  {
    var rest := w[1..];
    CanonicalRest(w);
    if |rest| > 1 {
      DecodeCanonicalPositive(rest);
    } else {
      assert rest[1..] == [];
    }
  }

  lemma SplitGroup(a: nat, q: nat)
    requires a < 128
    ensures (a + 128 * q) % 128 == a && (a + 128 * q) / 128 == q
  {
  }

  /** One step of the round trip: a byte with the continuation bit ahead
      of the encoding of a positive integer. */
  lemma EncodeDecodeStep(b: byte, rest: seq<byte>)
    requires More(b) && Decode(rest) >= 1 && Encode(Decode(rest)) == rest
    ensures Encode(Decode([b] + rest)) == [b] + rest
  {
    var w := [b] + rest;
    assert w[1..] == rest;
    var n := Decode(w);
    assert n == Payload(b) + 128 * Decode(rest);
    SplitGroup(Payload(b), Decode(rest));
    assert n >= 128;
    assert b as int == Payload(b) + 0x80;
    assert Encode(n) == [(n % 128 + 0x80) as byte] + Encode(n / 128);
  }

  /** Encoding undoes decoding on canonical encodings: the round trip through
      the integer reproduces the minimal encoding. */
  lemma {:induction false} EncodeDecode(w: seq<byte>)
    requires Canonical(w)
    ensures Encode(Decode(w)) == w
    decreases |w|
  {
    var rest := w[1..];
    if |w| == 1 {
      assert rest == [];
    } else {
      CanonicalRest(w);
      EncodeDecode(rest);
      if |rest| > 1 {
        DecodeCanonicalPositive(rest);
      } else {
        assert rest[1..] == [];
      }
      assert w == [w[0]] + rest;
      EncodeDecodeStep(w[0], rest);
    }
  }

  /** The scan measures `Encode(n)` exactly, wherever it lies in the stream. */
  lemma SizeOfEncoding(s: seq<byte>, a: nat, n: nat)
    requires Occurs(s, a, Encode(n))
    ensures Size(s, a) == |Encode(n)|
  {
    SizeOfComplete(s, a, Encode(n));
  }

  /** A three-byte example: 0xE5 0x8E 0x26 is 624485. */
  lemma DecodeExample()
    ensures Decode([0xE5, 0x8E, 0x26]) == 624485
    ensures Size([0xE5, 0x8E, 0x26], 0) == 3
    ensures Encode(624485) == [0xE5, 0x8E, 0x26]
  {
    var w: seq<byte> := [0xE5, 0x8E, 0x26];
    assert w[1..] == [0x8E, 0x26] && w[1..][1..] == [0x26];
    assert [0x26 as byte][1..] == [];
  }
}
