/** What each value provider of binalyzer_wasm/wasm.py computes, as functions
    of the stream's bytes and the field's resolved address, with the
    properties those results have. The providers themselves, which compute the
    same numbers by seeking and reading a shared stream, are in module
    Providers. */
module Wasm {
  import opened Bytes
  import opened Leb128

  datatype Option<T> = None | Some(value: T)

  /** The failures a provider reports: an unknown limits flag, and any attempt
      to write a derived value back. */
  datatype Error = InvalidEncoding | Unsupported

  datatype Result<T> = Ok(value: T) | Err(error: Error)

  // ---------------------------------------------------------------------------
  // LEB128 value and size providers (wasm.py:21-53)

  /** The integer the unsigned provider returns for a field at `a`: the bytes
      the size scan measures there, handed to the decoder. */
  function UnsignedValue(s: seq<byte>, a: nat): nat {
    Decode(Window(s, a, Size(s, a)))
  }

  lemma {:induction false} PowMonotone(b: nat, e: nat, f: nat)
    requires b >= 1 && e <= f
    ensures Pow(b, e) <= Pow(b, f)
    decreases f
  {
    if e < f {
      PowMonotone(b, e, f - 1);
      MulAtLeast(b, Pow(b, f - 1));
    }
  }

  lemma MulAtLeast(b: nat, q: nat)
    requires b >= 1
    ensures b * q >= q
  {
  }

  /** The value fits in the seven value bits of each byte measured: it is
      below 128^size. */
  lemma UnsignedValueBound(s: seq<byte>, a: nat)
    ensures UnsignedValue(s, a) < Pow(128, Size(s, a))
  {
    DecodeBound(Window(s, a, Size(s, a)));
    PowMonotone(128, |Window(s, a, Size(s, a))|, Size(s, a));
  }

  /** The size provider's result is the byte count the value provider decodes
      at the same address, whenever the stream holds that many bytes there,
      and those bytes form one whole encoded integer. */
  lemma MeasuredBytesAreDecoded(s: seq<byte>, a: nat)
    requires a + Size(s, a) <= |s|
    ensures Window(s, a, Size(s, a)) == s[a..a + Size(s, a)]
    ensures Complete(Window(s, a, Size(s, a)))
  {
    SizeMeasuresComplete(s, a);
  }

  /** A field holding the encoding of `n` reads back as `n`, and the size
      provider gives the length of that encoding, wherever it lies. */
  lemma UnsignedValueOfEncoding(s: seq<byte>, a: nat, n: nat)
    requires Occurs(s, a, Encode(n))
    ensures Size(s, a) == |Encode(n)|
    ensures UnsignedValue(s, a) == n
  {
    SizeOfEncoding(s, a, n);
    WindowOfOccurs(s, a, Encode(n));
    DecodeEncode(n);
  }

  /** The three-byte example 0xE5 0x8E 0x26, whatever surrounds it. */
  lemma UnsignedValueExample(x: seq<byte>, y: seq<byte>)
    ensures Size(x + [0xE5, 0x8E, 0x26] + y, |x|) == 3
    ensures UnsignedValue(x + [0xE5, 0x8E, 0x26] + y, |x|) == 624485
  {
    DecodeExample();
    OccursIn(x, [0xE5, 0x8E, 0x26], y);
    UnsignedValueOfEncoding(x + [0xE5, 0x8E, 0x26] + y, |x|, 624485);
  }

  // ---------------------------------------------------------------------------
  // Limits size provider (wasm.py:56-78)

  /** The byte length of a limits field at `a` (section 5.3.4, "Limits"): a
      flag byte, then one LEB128 integer for flag 0 or two for flag 1, the
      second measured from where the first ended. Any other flag is an error.
      A flag read past the end counts as 0. */
  function LimitsSize(s: seq<byte>, a: nat): (r: Result<nat>)
    ensures r.Ok? <==> At(s, a) == 0x00 || At(s, a) == 0x01
    ensures r.Err? ==> r.error == InvalidEncoding
    ensures r.Ok? ==> r.value >= 2
    ensures r.Ok? && At(s, a) == 0x01 ==> r.value >= 3
  {
    var flag := At(s, a);
    var first := ReadEnd(s, a, 1);
    if flag == 0x00 then
      Ok(1 + Size(s, first))
    else if flag == 0x01 then
      var second := ReadEnd(s, first, Size(s, first));
      Ok(1 + Size(s, first) + Size(s, second))
    else
      Err(InvalidEncoding)
  }

  /** A limits value: a minimum and an optional maximum. */
  datatype Limits = Limits(min: nat, max: Option<nat>)

  /** Its encoding per section 5.3.4: flag 0 and the minimum, or flag 1, the
      minimum and the maximum. */
  function EncodeLimits(l: Limits): seq<byte> {
    match l.max
    case None => [0x00] + Encode(l.min)
    case Some(m) => [0x01] + Encode(l.min) + Encode(m)
  }

  /** The limits provider measures an encoded limits field exactly,
      wherever it lies. */
  lemma LimitsSizeOfEncoding(s: seq<byte>, a: nat, l: Limits)
    requires Occurs(s, a, EncodeLimits(l))
    ensures LimitsSize(s, a) == Ok(|EncodeLimits(l)|)
  {
    var lo := Encode(l.min);
    if l.max.None? {
      assert EncodeLimits(l) == [0x00] + lo;
      MinParts(s, a, lo);
      LimitsOfOneSize(s, a, |lo|);
    } else {
      var hi := Encode(l.max.value);
      assert EncodeLimits(l) == [0x01] + (lo + hi);
      MinMaxParts(s, a, lo, hi);
      LimitsOfTwoSizes(s, a, |lo|, |hi|);
    }
  }

  /** Flag 0 and one whole integer: the flag, then the integer's length. */
  lemma MinParts(s: seq<byte>, a: nat, lo: seq<byte>)
    requires Occurs(s, a, [0x00] + lo) && Complete(lo)
    ensures a + 1 + |lo| <= |s| && At(s, a) == 0x00 && Size(s, a + 1) == |lo|
  {
    assert s[a] == ([0x00] + lo)[0];
    OccursSplit(s, a, [0x00], lo);
    SizeOfComplete(s, a + 1, lo);
  }

  /** Flag 1 and two whole integers: the flag, then both lengths. */
  lemma MinMaxParts(s: seq<byte>, a: nat, lo: seq<byte>, hi: seq<byte>)
    requires Occurs(s, a, [0x01] + (lo + hi)) && Complete(lo) && Complete(hi)
    ensures a + 1 + |lo| + |hi| <= |s| && At(s, a) == 0x01
    ensures Size(s, a + 1) == |lo| && Size(s, a + 1 + |lo|) == |hi|
  {
    assert s[a] == ([0x01] + (lo + hi))[0];
    OccursSplit(s, a, [0x01], lo + hi);
    PairSizes(s, a + 1, lo, hi);
  }

  /** Two whole integers back to back are measured one after the other. */
  lemma PairSizes(s: seq<byte>, b: nat, lo: seq<byte>, hi: seq<byte>)
    requires Occurs(s, b, lo + hi) && Complete(lo) && Complete(hi)
    ensures Size(s, b) == |lo| && Size(s, b + |lo|) == |hi|
  {
    OccursSplit(s, b, lo, hi);
    SizeOfComplete(s, b + |lo|, hi);
    SizeOfComplete(s, b, lo);
  }

  /** Once flag 0 is read and the integer after it measured, the limits size
      is that integer's length plus the flag byte. */
  lemma LimitsOfOneSize(s: seq<byte>, a: nat, n: nat)
    requires a + 1 + n <= |s| && At(s, a) == 0x00 && Size(s, a + 1) == n
    ensures LimitsSize(s, a) == Ok(1 + n)
  {
    assert ReadEnd(s, a, 1) == a + 1;
  }

  /** Once flag 1 is read and the two integers after it measured, the second
      from where the first ends, the limits size is their sum plus the flag. */
  lemma LimitsOfTwoSizes(s: seq<byte>, a: nat, n1: nat, n2: nat)
    requires a + 1 + n1 + n2 <= |s| && At(s, a) == 0x01
    requires Size(s, a + 1) == n1 && Size(s, a + 1 + n1) == n2
    ensures LimitsSize(s, a) == Ok(1 + n1 + n2)
  {
    assert ReadEnd(s, a, 1) == a + 1;
    assert ReadEnd(s, a + 1, n1) == a + 1 + n1;
  }

  /** Flag 0, flag 1 and an unknown flag, on concrete bytes. */
  lemma LimitsSizeExamples()
    ensures LimitsSize([0x00, 0x00], 0) == Ok(2)
    ensures LimitsSize([0x01, 0x05, 0x07], 0) == Ok(3)
    ensures LimitsSize([0x01, 0x80, 0x01, 0x07], 0) == Ok(4)
    ensures LimitsSize([0x02, 0x00], 0) == Err(InvalidEncoding)
    ensures LimitsSize([], 0) == Ok(2)
  {
  }

  // ---------------------------------------------------------------------------
  // Expression size provider (wasm.py:81-99)

  /** The `end` opcode that closes an expression (section 5.4.6). */
  const End: byte := 0x0B

  /** An `end` byte lies at or after `a`. Without one the scan never stops. */
  predicate Terminated(s: seq<byte>, a: nat) {
    exists k :: a <= k < |s| && s[k] == End
  }

  /** The byte length of an expression at `a`: everything up to and including
      the first `end` byte at or after `a`. The scan is flat: a nested block's
      own `end` stops it. */
  function ExpressionSize(s: seq<byte>, a: nat): (r: nat)
    requires Terminated(s, a)
    ensures r >= 1 && a + r <= |s|
    ensures s[a + r - 1] == End
    ensures forall j :: a <= j < a + r - 1 ==> s[j] != End
    decreases |s| - a
  {
    if s[a] == End then 1
    else
      assert Terminated(s, a + 1) by {
        var k :| a <= k < |s| && s[k] == End;
        assert a + 1 <= k;
      }
      1 + ExpressionSize(s, a + 1)
  }

  /** A scan that stops at an `end` byte with none before it has measured
      the expression. */
  lemma ExpressionSizeIsFirstEnd(s: seq<byte>, a: nat, n: nat)
    requires n >= 1 && a + n <= |s| && s[a + n - 1] == End
    requires forall j :: a <= j < a + n - 1 ==> s[j] != End
    ensures Terminated(s, a) && ExpressionSize(s, a) == n
  {
  }

  /** An expression whose body holds no `end` byte is measured as that body
      plus its terminator, wherever it lies. */
  lemma ExpressionSizeOfBody(s: seq<byte>, a: nat, body: seq<byte>)
    requires End !in body && Occurs(s, a, body + [End])
    ensures Terminated(s, a)
    ensures ExpressionSize(s, a) == |body| + 1
  {
    var k := a + |body|;
    assert s[k] == (body + [End])[|body|];
    var r := ExpressionSize(s, a);
    forall j | a <= j < k
      ensures s[j] != End
    {
      assert s[j] == (body + [End])[j - a];
    }
  }

  /** `i32.const 1; end` is three bytes; a block nested in an expression ends
      the flat scan at the block's own `end`. */
  lemma ExpressionSizeExamples()
    ensures Terminated([0x41, 0x01, 0x0B], 0) && ExpressionSize([0x41, 0x01, 0x0B], 0) == 3
    ensures Terminated([0x02, 0x40, 0x0B, 0x0B], 0) && ExpressionSize([0x02, 0x40, 0x0B, 0x0B], 0) == 3
  {
    assert [0x41 as byte, 0x01, 0x0B][2] == End;
    assert [0x02 as byte, 0x40, 0x0B, 0x0B][2] == End;
  }

  // ---------------------------------------------------------------------------
  // Packet record counter (wasm.py:111-132)

  /** The payload length of the record at `addr`: four little-endian bytes at
      `addr + 12`, fewer if the stream ends first. */
  function PacketLength(s: seq<byte>, addr: nat): nat {
    FromBytesLE(Window(s, addr + 12, 4))
  }

  /** The number of records counted from `addr`: a record counts when its
      length field starts inside the stream, and the next one starts 16 bytes
      plus the payload length further on. Each record counted accounts for at
      least 16 bytes, of which at least 13 lie inside the stream. */
  function PacketCount(s: seq<byte>, addr: nat): (r: nat)
    ensures r > 0 <==> addr + 12 < |s|
    ensures r > 0 ==> 16 * r <= |s| - addr + 3
    decreases |s| - addr
  {
    if addr + 12 < |s| then 1 + PacketCount(s, addr + 16 + PacketLength(s, addr)) else 0
  }

  /** Where the counting loop leaves the cursor, given the cursor at `addr`:
      just past the last length field read, or unchanged if none was read. */
  function PacketCursor(s: seq<byte>, addr: nat, cursor: nat): nat
    decreases |s| - addr
  {
    if addr + 12 < |s| then PacketCursor(s, addr + 16 + PacketLength(s, addr), ReadEnd(s, addr + 12, 4))
    else cursor
  }

  /** One step of the counting loop: a record whose length field starts
      inside the stream is counted, and the cursor is left past that field. */
  lemma PacketStep(s: seq<byte>, addr: nat, cursor: nat)
    requires addr + 12 < |s|
    ensures PacketCount(s, addr) == 1 + PacketCount(s, addr + 16 + PacketLength(s, addr))
    ensures PacketCursor(s, addr, cursor)
         == PacketCursor(s, addr + 16 + PacketLength(s, addr), ReadEnd(s, addr + 12, 4))
  {
  }

  /** A captured packet: a 12-byte header ahead of the length field, and the
      payload that follows it. */
  datatype Packet = Packet(header: seq<byte>, payload: seq<byte>)

  predicate WellFormed(p: Packet) {
    |p.header| == 12 && |p.payload| < Pow(256, 4)
  }

  function PacketBytes(p: Packet): (b: seq<byte>)
    ensures |b| == |p.header| + 4 + |p.payload|
  {
    p.header + ToBytesLE(|p.payload|, 4) + p.payload
  }

  /** The bytes of a sequence of packets laid out one after another. */
  function Capture(ps: seq<Packet>): seq<byte> {
    if ps == [] then [] else PacketBytes(ps[0]) + Capture(ps[1..])
  }

  /** The length field of a well-formed packet is its payload length. */
  lemma PacketLengthOf(s: seq<byte>, a: nat, p: Packet)
    requires WellFormed(p) && Occurs(s, a, PacketBytes(p))
    ensures PacketLength(s, a) == |p.payload|
  {
    var len := ToBytesLE(|p.payload|, 4);
    OccursSplit(s, a, p.header + len, p.payload);
    OccursSplit(s, a, p.header, len);
    WindowOfOccurs(s, a + 12, len);
    FromToBytesLE(|p.payload|, 4);
  }

  /** The packets of a capture lie one after the other. */
  lemma CaptureSplit(s: seq<byte>, a: nat, ps: seq<Packet>)
    requires ps != [] && Occurs(s, a, Capture(ps))
    ensures Occurs(s, a, PacketBytes(ps[0]))
    ensures Occurs(s, a + |PacketBytes(ps[0])|, Capture(ps[1..]))
  {
    OccursSplit(s, a, PacketBytes(ps[0]), Capture(ps[1..]));
  }

  /** The first packet of a capture: its length field reads back as its
      payload length, and the rest of the capture follows it. */
  lemma CaptureStep(s: seq<byte>, a: nat, ps: seq<Packet>)
    requires ps != [] && WellFormed(ps[0]) && Occurs(s, a, Capture(ps))
    ensures PacketLength(s, a) == |ps[0].payload|
    ensures |Capture(ps)| == 16 + |ps[0].payload| + |Capture(ps[1..])|
    ensures Occurs(s, a + 16 + |ps[0].payload|, Capture(ps[1..]))
  {
    CaptureSplit(s, a, ps);
    PacketLengthOf(s, a, ps[0]);
  }

  /** A stream of well-formed packets followed by at most 12 stray bytes
      counts exactly its packets. */
  lemma {:induction false} PacketCountOfCapture(s: seq<byte>, a: nat, ps: seq<Packet>)
    requires forall i :: 0 <= i < |ps| ==> WellFormed(ps[i])
    requires Occurs(s, a, Capture(ps)) && |s| <= a + |Capture(ps)| + 12
    ensures PacketCount(s, a) == |ps|
    decreases |ps|
  {
    if ps != [] {
      CaptureStep(s, a, ps);
      PacketStep(s, a, 0);
      PacketCountOfCapture(s, a + 16 + |ps[0].payload|, ps[1..]);
    }
  }

  /** A fragment of 13 bytes or more after the last whole record is counted
      as one more record: the test is on where its length field starts. */
  lemma PacketCountOfFragment()
    ensures PacketCount(seq(13, i => 0 as byte), 0) == 1
  {
    var s := seq(13, i => 0 as byte);
    assert PacketLength(s, 0) == 0 by {
      assert Window(s, 12, 4) == [0];
      assert FromBytesLE([0]) == 0 + 256 * FromBytesLE([]);
    }
  }

  // ---------------------------------------------------------------------------
  // Generic repetition counter (wasm.py:135-156)

  /** The resolved absolute address and size of a record template. */
  datatype Extent = Extent(address: nat, size: nat)

  /** How the host lays out a clone of the record template whose offset is
      set to the given scan position. */
  type Layout = nat -> Extent

  function EndOf(e: Extent): nat {
    e.address + e.size
  }

  /** The scan from `pos` reaches the end of the data within `fuel` records.
      This is exactly when the counting loop started at `pos` stops, after at
      most `fuel` rounds. */
  predicate Stops(layout: Layout, total: nat, pos: nat, fuel: nat)
    decreases fuel
  {
    pos >= total || (fuel > 0 && Stops(layout, total, EndOf(layout(pos)), fuel - 1))
  }

  /** The number of records counted from scan position `pos` in a stream of
      `total` bytes: one for each position before the end, the next position
      being the end of the record placed there. `fuel` only bounds the
      recursion; the count does not depend on it (`RepetitionCountFuel`). */
  function RepetitionCount(layout: Layout, total: nat, pos: nat, ghost fuel: nat): (r: nat)
    requires Stops(layout, total, pos, fuel)
    ensures pos >= total ==> r == 0
    ensures pos < total ==> 1 <= r <= fuel
    decreases fuel
  {
    if pos >= total then 0 else 1 + RepetitionCount(layout, total, EndOf(layout(pos)), fuel - 1)
  }

  /** The count is the number of rounds the loop makes: the scan stops
      within that many records, and within no fewer. */
  lemma {:induction false} RepetitionCountIsRounds(layout: Layout, total: nat, pos: nat, fuel: nat)
    requires Stops(layout, total, pos, fuel)
    ensures Stops(layout, total, pos, RepetitionCount(layout, total, pos, fuel))
    ensures forall g: nat :: Stops(layout, total, pos, g) ==> RepetitionCount(layout, total, pos, fuel) <= g
    decreases fuel
  {
    if pos < total {
      var next := EndOf(layout(pos));
      RepetitionCountIsRounds(layout, total, next, fuel - 1);
      forall g: nat | Stops(layout, total, pos, g)
        ensures RepetitionCount(layout, total, pos, fuel) <= g
      {
        assert g > 0 && Stops(layout, total, next, g - 1);
      }
    }
  }

  /** Any fuel that lets the scan stop gives the same count. */
  lemma RepetitionCountFuel(layout: Layout, total: nat, pos: nat, f: nat, g: nat)
    requires Stops(layout, total, pos, f) && Stops(layout, total, pos, g)
    ensures RepetitionCount(layout, total, pos, f) == RepetitionCount(layout, total, pos, g)
  {
    RepetitionCountIsRounds(layout, total, pos, f);
    RepetitionCountIsRounds(layout, total, pos, g);
  }

  /** More fuel never stops a scan that stopped with less. */
  lemma {:induction false} StopsMonotone(layout: Layout, total: nat, pos: nat, f: nat, g: nat)
    requires f <= g && Stops(layout, total, pos, f)
    ensures Stops(layout, total, pos, g)
    decreases f
  {
    if pos < total {
      StopsMonotone(layout, total, EndOf(layout(pos)), f - 1, g - 1);
    }
  }

  /** Every record placed inside the stream ends past where it was placed. */
  predicate Advances(layout: Layout, total: nat) {
    forall p: nat :: p < total ==> EndOf(layout(p)) > p
  }

  /** A layout that always advances stops every scan, within one record per
      remaining byte. */
  lemma {:induction false} AdvancesStops(layout: Layout, total: nat, pos: nat)
    requires Advances(layout, total)
    ensures Stops(layout, total, pos, total - Min(pos, total))
    decreases total - pos
  {
    if pos < total {
      var next := EndOf(layout(pos));
      AdvancesStops(layout, total, next);
      StopsMonotone(layout, total, next, total - Min(next, total), total - pos - 1);
    }
  }

  /** A layout whose records are empty before position 5 and one byte long
      from there on. */
  function StallBelowFive(p: nat): Extent {
    if p < 5 then Extent(p, 0) else Extent(p, 1)
  }

  /** A layout that stalls only before the scan's start: the scan from
      position 5 of 10 bytes stops and counts 5 records, although the layout
      does not advance everywhere. */
  lemma StallOffPath()
    ensures !Advances(StallBelowFive, 10)
    ensures Stops(StallBelowFive, 10, 5, 5) && RepetitionCount(StallBelowFive, 10, 5, 5) == 5
  {
    assert EndOf(StallBelowFive(0)) == 0;
    assert Stops(StallBelowFive, 10, 10, 0);
    assert Stops(StallBelowFive, 10, 9, 1);
    assert Stops(StallBelowFive, 10, 8, 2);
    assert Stops(StallBelowFive, 10, 7, 3);
    assert Stops(StallBelowFive, 10, 6, 4);
    assert Stops(StallBelowFive, 10, 5, 5);
  }

  /** Records of constant size `w` placed where the scan stands. */
  function Stride(w: nat): Layout {
    (p: nat) => Extent(p, w)
  }

  lemma DivUnique(y: int, w: int, q: int, r: int)
    requires w > 0 && 0 <= r < w && y == q * w + r
    ensures y / w == q
  {
    var k := y / w - q;
    assert k * w == r - y % w by {
      assert y == (y / w) * w + y % w;
      assert k * w == (y / w) * w - q * w;
    }
  }

  /** ⌈d/w⌉ is one more than ⌈(d − w)/w⌉, or one when d ≤ w. */
  lemma CeilStep(d: nat, w: nat)
    requires d > 0 && w > 0
    ensures (d + w - 1) / w == if d <= w then 1 else 1 + (d - w + w - 1) / w
  {
    if d <= w {
      DivUnique(d + w - 1, w, 1, d - 1);
    } else {
      var q, r := (d - 1) / w, (d - 1) % w;
      DivUnique(d - 1, w, q, r);
      DivUnique(d + w - 1, w, q + 1, r);
    }
  }

  /** The number of records of size `w` that start in [pos, total): ⌈(total − pos)/w⌉. */
  function Ceil(w: nat, total: nat, pos: nat): nat
    requires w > 0
  {
    if pos >= total then 0 else (total - pos + w - 1) / w
  }

  /** With a constant stride the scan stops after ⌈(total − pos)/w⌉ records,
      and that is the count: a final partial record is counted. */
  lemma {:induction false} RepetitionCountOfStride(w: nat, total: nat, pos: nat)
    requires w > 0
    ensures Stops(Stride(w), total, pos, Ceil(w, total, pos))
    ensures RepetitionCount(Stride(w), total, pos, Ceil(w, total, pos)) == Ceil(w, total, pos)
    decreases total - pos
  {
    if pos < total {
      RepetitionCountOfStride(w, total, pos + w);
      CeilStep(total - pos, w);
      assert EndOf(Stride(w)(pos)) == pos + w;
    }
  }

  /** When the stream holds exactly `k` records of constant size after `pos`,
      the scan stops after `k` records and counts `k`. */
  lemma {:induction false} RepetitionCountOfWholeRecords(w: nat, k: nat, pos: nat)
    requires w > 0
    ensures Stops(Stride(w), pos + k * w, pos, k)
    ensures RepetitionCount(Stride(w), pos + k * w, pos, k) == k
    decreases k
  {
    if k > 0 {
      assert pos + k * w == (pos + w) + (k - 1) * w;
      assert EndOf(Stride(w)(pos)) == pos + w;
      RepetitionCountOfWholeRecords(w, k - 1, pos + w);
    }
  }

  /** A layout that places a length-prefixed packet record wherever the scan
      stands, as the host resolves the packet template. */
  ghost predicate ResolvesPackets(layout: Layout, s: seq<byte>) {
    forall p: nat :: layout(p) == Extent(p, 16 + PacketLength(s, p))
  }

  /** Such a layout exists, and every record it places moves the scan on. */
  function PacketLayout(s: seq<byte>): (layout: Layout)
    ensures ResolvesPackets(layout, s)
    ensures Advances(layout, |s|)
  {
    (p: nat) => Extent(p, 16 + PacketLength(s, p))
  }

  /** The generic counter, given the packet layout, counts a stream that ends
      with whole packets: the scan stops after one record per packet. */
  lemma {:induction false} RepetitionCountOfCapture(layout: Layout, s: seq<byte>, a: nat, ps: seq<Packet>)
    requires ResolvesPackets(layout, s)
    requires forall i :: 0 <= i < |ps| ==> WellFormed(ps[i])
    requires Occurs(s, a, Capture(ps)) && |s| == a + |Capture(ps)|
    ensures Stops(layout, |s|, a, |ps|)
    ensures RepetitionCount(layout, |s|, a, |ps|) == |ps|
    decreases |ps|
  {
    if ps != [] {
      CaptureStep(s, a, ps);
      var next := a + 16 + |ps[0].payload|;
      assert EndOf(layout(a)) == next;
      RepetitionCountOfCapture(layout, s, next, ps[1..]);
    }
  }

  /** On a stream that ends with whole packets, the generic counter over the
      packet layout and the packet counter agree. */
  lemma CountersAgree(layout: Layout, s: seq<byte>, a: nat, ps: seq<Packet>)
    requires ResolvesPackets(layout, s)
    requires forall i :: 0 <= i < |ps| ==> WellFormed(ps[i])
    requires Occurs(s, a, Capture(ps)) && |s| == a + |Capture(ps)|
    ensures Stops(layout, |s|, a, |ps|)
    ensures RepetitionCount(layout, |s|, a, |ps|) == PacketCount(s, a)
  {
    RepetitionCountOfCapture(layout, s, a, ps);
    PacketCountOfCapture(s, a, ps);
  }

  /** The packet layout meets that hypothesis: counting whole packets with
      it agrees with the packet counter. */
  lemma PacketLayoutCountsPackets(s: seq<byte>, a: nat, ps: seq<Packet>)
    requires forall i :: 0 <= i < |ps| ==> WellFormed(ps[i])
    requires Occurs(s, a, Capture(ps)) && |s| == a + |Capture(ps)|
    ensures Stops(PacketLayout(s), |s|, a, |ps|)
    ensures RepetitionCount(PacketLayout(s), |s|, a, |ps|) == PacketCount(s, a) == |ps|
  {
    CountersAgree(PacketLayout(s), s, a, ps);
    PacketCountOfCapture(s, a, ps);
  }
}
