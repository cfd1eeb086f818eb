/** Bytes of a binary file and what the reads of a Python file-like object
    return from them: a read stops at the end of the data, a read that starts
    at or past the end yields no bytes, and `int.from_bytes(b, "little")`
    turns the bytes read into a number (0 for no bytes at all). */
module Bytes {

  /** A byte, as Python's `bytes` yields it: an integer from 0 to 255. */
  newtype byte = x: int | 0 <= x < 256

  function Min(a: nat, b: nat): nat {
    if a <= b then a else b
  }

  function Pow(b: nat, e: nat): (r: nat)
    ensures b >= 1 ==> r >= 1
  {
    if e == 0 then 1 else b * Pow(b, e - 1)
  }

  /** The cursor position after `read(n)` from position `p` over the data `s`. */
  function ReadEnd(s: seq<byte>, p: nat, n: nat): (q: nat)
    ensures p <= q <= p + n
    ensures p < |s| ==> q <= |s|
    ensures q < p + n ==> q == |s| || p >= |s|
  {
    if p < |s| then Min(p + n, |s|) else p
  }

  /** The bytes that `read(n)` returns from position `p` over the data `s`:
      the ones between the cursor and where the read leaves it. */
  function Window(s: seq<byte>, p: nat, n: nat): (w: seq<byte>)
    ensures |w| == ReadEnd(s, p, n) - p
    ensures forall i :: 0 <= i < |w| ==> w[i] == s[p + i]
  {
    if p < |s| then s[p..ReadEnd(s, p, n)] else []
  }

  /** Two reads in a row leave the cursor where one read of both lengths
      would. */
  lemma ReadEndThen(s: seq<byte>, p: nat, m: nat, n: nat)
    ensures ReadEnd(s, ReadEnd(s, p, m), n) == ReadEnd(s, p, m + n)
  {
  }

  /** The bytes `w` lie in `s` from position `a` on. */
  predicate Occurs(s: seq<byte>, a: nat, w: seq<byte>) {
    a + |w| <= |s| && forall i :: 0 <= i < |w| ==> s[a + i] == w[i]
  }

  /** A run of bytes occurs in any stream built around it. */
  lemma OccursIn(x: seq<byte>, w: seq<byte>, y: seq<byte>)
    ensures Occurs(x + w + y, |x|, w)
  {
  }

  /** Where two runs occur back to back, each occurs in its place. */
  lemma OccursSplit(s: seq<byte>, a: nat, u: seq<byte>, v: seq<byte>)
    requires Occurs(s, a, u + v)
    ensures Occurs(s, a, u) && Occurs(s, a + |u|, v)
  {
    forall i | 0 <= i < |u|
      ensures s[a + i] == u[i]
    {
      assert (u + v)[i] == u[i];
    }
    forall i | 0 <= i < |v|
      ensures s[a + |u| + i] == v[i]
    {
      assert (u + v)[|u| + i] == v[i];
    }
  }

  /** A read of the length of a run that occurs at the cursor returns it. */
  lemma WindowOfOccurs(s: seq<byte>, a: nat, w: seq<byte>)
    requires Occurs(s, a, w)
    ensures Window(s, a, |w|) == w
  {
  }

  /** The value `int.from_bytes(read(1), "little")` yields at position `i`:
      the byte there, or 0 when the read finds no byte. */
  function At(s: seq<byte>, i: nat): byte {
    if i < |s| then s[i] else 0
  }

  /** `int.from_bytes(w, "little")`: the first byte is the least significant. */
  function FromBytesLE(w: seq<byte>): nat {
    if w == [] then 0 else w[0] as nat + 256 * FromBytesLE(w[1..])
  }

  /** `int.from_bytes` of `k` bytes is below 256^k. */
  lemma {:induction false} FromBytesLEBound(w: seq<byte>)
    ensures FromBytesLE(w) < Pow(256, |w|)
  {
    if w != [] {
      FromBytesLEBound(w[1..]);
    }
  }

  /** `n.to_bytes(width, "little")` for an `n` that fits in `width` bytes. */
  function ToBytesLE(n: nat, width: nat): (w: seq<byte>)
    ensures |w| == width
  {
    if width == 0 then [] else [(n % 256) as byte] + ToBytesLE(n / 256, width - 1)
  }

  /** Reading back what was written little-endian gives the number written. */
  lemma {:induction false} FromToBytesLE(n: nat, width: nat)
    requires n < Pow(256, width)
    ensures FromBytesLE(ToBytesLE(n, width)) == n
  {
    if width > 0 {
      var w := ToBytesLE(n, width);
      assert w[1..] == ToBytesLE(n / 256, width - 1);
      assert n / 256 < Pow(256, width - 1) by {
        assert n < 256 * Pow(256, width - 1);
      }
      FromToBytesLE(n / 256, width - 1);
    }
  }

  /** A one-byte read converted with `int.from_bytes` is the byte at the
      cursor, or 0 past the end; the read moves the cursor by one byte
      exactly when there is a byte to read. */
  lemma OneByteRead(s: seq<byte>, p: nat)
    ensures FromBytesLE(Window(s, p, 1)) == At(s, p) as nat
    ensures ReadEnd(s, p, 1) == if p < |s| then p + 1 else p
  {
    var w := Window(s, p, 1);
    if p < |s| {
      assert w == [s[p]];
      assert w[1..] == [];
    }
  }
}
