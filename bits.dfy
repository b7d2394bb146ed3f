/** Big-endian bit strings: the `w`-bit image of a number, the number a bit
    string denotes, and fixed-width chunks (octets, 16-bit groups) laid end
    to end as in an IP address. */
module Bits {

  function Pow2(w: nat): (p: nat)
    ensures p >= 1
  {
    if w == 0 then 1 else 2 * Pow2(w - 1)
  }

  /** The lowest `w` bits of `v`, most significant first. */
  function BitsOf(v: nat, w: nat): (b: seq<bool>)
    ensures |b| == w
  {
    if w == 0 then [] else BitsOf(v / 2, w - 1) + [v % 2 == 1]
  }

  /** The number a bit string denotes, most significant bit first. */
  function ValueOf(b: seq<bool>): nat
  {
    if b == [] then 0 else ValueOf(b[..|b| - 1]) * 2 + (if b[|b| - 1] then 1 else 0)
  }

  lemma {:induction false} ValueBound(b: seq<bool>)
    ensures ValueOf(b) < Pow2(|b|)
  {
    if b != [] {
      ValueBound(b[..|b| - 1]);
    }
  }

  lemma {:induction false} ValueOfBits(v: nat, w: nat)
    requires v < Pow2(w)
    ensures ValueOf(BitsOf(v, w)) == v
  {
    if w > 0 {
      ValueOfBits(v / 2, w - 1);
      var b := BitsOf(v, w);
      assert b[..|b| - 1] == BitsOf(v / 2, w - 1);
    }
  }

  lemma {:induction false} BitsOfValue(b: seq<bool>)
    ensures BitsOf(ValueOf(b), |b|) == b
  {
    if b != [] {
      var init := b[..|b| - 1];
      BitsOfValue(init);
      var v := ValueOf(b);
      assert v / 2 == ValueOf(init);
      assert b == init + [b[|b| - 1]];
    }
  }

  /** A number below 2^(w-1) has its top bit of `w` clear. */
  lemma {:induction false} TopBitClear(v: nat, w: nat)
    requires 1 <= w && v < Pow2(w - 1)
    ensures !BitsOf(v, w)[0]
  {
    if w > 1 {
      TopBitClear(v / 2, w - 1);
      assert BitsOf(v, w)[0] == BitsOf(v / 2, w - 1)[0];
    }
  }

  predicate Below(vals: seq<nat>, bound: nat)
  {
    forall k :: 0 <= k < |vals| ==> vals[k] < bound
  }

  /** The `w`-bit images of `vals`, one after another. */
  function Chunks(vals: seq<nat>, w: nat): (b: seq<bool>)
    ensures |b| == |vals| * w
  {
    if vals == [] then [] else BitsOf(vals[0], w) + Chunks(vals[1..], w)
  }

  /** The first bit of a run of chunks is the first bit of the first one. */
  lemma ChunksFirstBit(vals: seq<nat>, w: nat)
    requires |vals| >= 1 && w >= 1
    ensures Chunks(vals, w)[0] == BitsOf(vals[0], w)[0]
  {
  }

  /** The `n` numbers denoted by consecutive `w`-bit slices of `b`. */
  function ChunkValues(b: seq<bool>, w: nat, n: nat): (vals: seq<nat>)
    requires |b| == n * w
    ensures |vals| == n && Below(vals, Pow2(w))
  {
    if n == 0 then []
    else
      ValueBound(b[..w]);
      var vals := [ValueOf(b[..w])] + ChunkValues(b[w..], w, n - 1);
      assert forall k :: 1 <= k < n ==> vals[k] == ChunkValues(b[w..], w, n - 1)[k - 1];
      vals
  }

  lemma {:induction false} ChunkValuesOfChunks(vals: seq<nat>, w: nat)
    requires Below(vals, Pow2(w))
    ensures ChunkValues(Chunks(vals, w), w, |vals|) == vals
  {
    if vals != [] {
      var b := Chunks(vals, w);
      assert b[..w] == BitsOf(vals[0], w);
      assert b[w..] == Chunks(vals[1..], w);
      ValueOfBits(vals[0], w);
      ChunkValuesOfChunks(vals[1..], w);
    }
  }

  lemma {:induction false} ChunksOfChunkValues(b: seq<bool>, w: nat, n: nat)
    requires |b| == n * w
    ensures Chunks(ChunkValues(b, w, n), w) == b
  {
    if n > 0 {
      BitsOfValue(b[..w]);
      ChunksOfChunkValues(b[w..], w, n - 1);
      assert b == b[..w] + b[w..];
    }
  }
}
