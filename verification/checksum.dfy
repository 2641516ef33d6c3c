/** The checksum engine (fru.c `calc_cs`): a one-byte sum of a region, and the
    two's-complement byte that makes a region sum to zero. */
module Checksum {
  import opened FruTypes

  /** Plain (unbounded) sum of the bytes of `s`. */
  function Sum(s: seq<Byte>): nat {
    if s == [] then 0 else Sum(s[..|s| - 1]) + s[|s| - 1]
  }

  /** `calc_cs(buf, size)`: the sum of the first `size` bytes, kept in a
      `uint8_t`. `size` is itself a byte, so callers passing a larger count
      have it truncated by `Trunc8` first. */
  function CalcCs(buf: seq<Byte>, size: Byte): Byte
    requires size <= |buf|
  {
    Sum(buf[..size]) % 256
  }

  /** `256 - cs` stored into a `uint8_t`: the byte whose addition brings a sum
      of `cs` (mod 256) back to zero. */
  function Negate(cs: Byte): (r: Byte)
    ensures (cs + r) % 256 == 0
  {
    (256 - cs) % 256
  }

  /** A region is valid when its bytes sum to zero modulo 256. */
  predicate SumsToZero(s: seq<Byte>) {
    Sum(s) % 256 == 0
  }

  /** The C loop itself: a `uint8_t` accumulator that wraps at every step
      computes the same byte as the unbounded sum reduced once. */
  method CalcCsLoop(buf: seq<Byte>, size: Byte) returns (cs: Byte)
    requires size <= |buf|
    ensures cs == Sum(buf[..size]) % 256
  {
    cs := 0;
    var i := 0;
    while i < size
      invariant i <= size
      invariant cs == Sum(buf[..i]) % 256
    {
      SumStep(buf, i);
      AddModLeft(Sum(buf[..i]), buf[i]);
      cs := (cs + buf[i]) % 256;
      i := i + 1;
    }
  }

  /** Extending a prefix by one byte adds that byte to its sum. */
  lemma SumStep(s: seq<Byte>, i: nat)
    requires i < |s|
    ensures Sum(s[..i + 1]) == Sum(s[..i]) + s[i]
  {
    assert s[..i + 1][..i] == s[..i];
  }

  /** Reducing the first addend before the sum changes no residue. */
  lemma AddModLeft(x: nat, y: nat)
    ensures (x % 256 + y) % 256 == (x + y) % 256
  {
    var q := x / 256;
    assert x + y == (x % 256 + y) + 256 * q;
  }

  /** A checksum byte computed from the reduced sum closes the unreduced one. */
  lemma NegateCloses(n: nat, c: Byte)
    requires c == Negate(n % 256)
    ensures (n + c) % 256 == 0
  {
    AddModLeft(n, c);
  }

  lemma {:induction false} SumAppend(a: seq<Byte>, b: seq<Byte>)
    ensures Sum(a + b) == Sum(a) + Sum(b)
    decreases |b|
  {
    if b == [] {
      assert a + b == a;
    } else {
      var b' := b[..|b| - 1];
      assert (a + b)[..|a + b| - 1] == a + b';
      SumAppend(a, b');
    }
  }

  /** Appending the negated checksum of a region makes the extended region
      valid: how every checksum byte in the format is produced. */
  lemma {:induction false} NegatedChecksumCloses(s: seq<Byte>)
    ensures SumsToZero(s + [Negate(Sum(s) % 256)])
  {
    var c := Negate(Sum(s) % 256);
    SumAppend(s, [c]);
    assert [c][..0] == [];
    assert Sum([c]) == c;
  }
}
