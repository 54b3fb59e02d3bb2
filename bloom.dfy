/**
 * The 128-bit single-hash Bloom filter (src/bloom.rs).
 *
 * A `u128` is represented by the set of positions of its one bits, all
 * below 128: `|` is union, `(x & m) == m` is the subset test, and a value
 * with a single bit at position `i` is `{i}`. An element enters the filter
 * through its 64-bit hash (`Bloom::hash` is AHasher, a deterministic
 * function this model does not look inside: every operation takes the hash
 * value itself).
 */
module BloomFilter {

  /** The number of bits of the filter. */
  const Width: nat := 128

  /** A `u64` hash value. */
  type Hash = h: nat | h < 0x1_0000_0000_0000_0000

  /** A `u128`, as the positions of its one bits. */
  type Bits = set<nat>

  /** Every position is a bit of a `u128`. */
  predicate Fits(x: Bits) {
    forall i :: i in x ==> i < Width
  }

  /** `Bloom::mask`: one bit, at position `hash % 128` (src/bloom.rs:29-31). */
  function Mask(h: Hash): (m: Bits)
    ensures Fits(m)
  {
    {h % Width}
  }

  /** `Bloom::contains` on raw bits: every bit of `m` is set in `bits` (src/bloom.rs:37-40). */
  predicate Covers(bits: Bits, m: Bits) {
    m <= bits
  }

  /** A mask has exactly one bit set, and it is bit `h % 128`. */
  lemma MaskSingleBit(h: Hash, i: nat)
    ensures |Mask(h)| == 1
    ensures i in Mask(h) <==> i == h % Width
  {
  }

  /** Covering is OR-absorption: `bits | m == bits` exactly when `bits` covers `m`. */
  lemma CoversIsAbsorption(bits: Bits, m: Bits)
    ensures Covers(bits, m) <==> bits + m == bits
  {
    if bits + m == bits {
      assert forall i :: i in m ==> i in bits + m;
    }
  }

  /** The filter built from a list of element hashes: the OR of their masks. */
  function BloomOf(hs: seq<Hash>): (bits: Bits)
    ensures Fits(bits)
  {
    if hs == [] then {} else BloomOf(hs[..|hs| - 1]) + Mask(hs[|hs| - 1])
  }

  /** No false negatives: every inserted element is reported present. */
  lemma {:induction false} BloomOfCovers(hs: seq<Hash>, h: Hash)
    requires h in hs
    ensures Covers(BloomOf(hs), Mask(h))
  {
    var last := hs[|hs| - 1];
    if h != last {
      BloomOfCovers(hs[..|hs| - 1], h);
    }
  }

  /** A bit is set in the filter exactly when some inserted hash selects it. */
  lemma {:induction false} BloomOfBits(hs: seq<Hash>, i: nat)
    ensures i in BloomOf(hs) <==> exists k :: 0 <= k < |hs| && hs[k] % Width == i
  {
    if hs != [] {
      var n := |hs|;
      BloomOfBits(hs[..n - 1], i);
      if i in BloomOf(hs[..n - 1]) {
        var k :| 0 <= k < n - 1 && hs[..n - 1][k] % Width == i;
        assert hs[k] % Width == i;
      }
      if exists k :: 0 <= k < n && hs[k] % Width == i {
        var k :| 0 <= k < n && hs[k] % Width == i;
        if k < n - 1 {
          assert hs[..n - 1][k] % Width == i;
        }
      }
    }
  }

  /** A filter built from a superset of elements contains one built from a subset. */
  lemma {:induction false} SupersetCovers(small: seq<Hash>, large: seq<Hash>)
    requires forall h :: h in small ==> h in large
    ensures Covers(BloomOf(large), BloomOf(small))
  {
    if small != [] {
      var init := small[..|small| - 1];
      SupersetCovers(init, large);
      BloomOfCovers(large, small[|small| - 1]);
    }
  }

  /** The filter itself: the `u128` field that `set` updates in place. */
  class Bloom {
    var bits: Bits

    /** The field is a `u128`: no bit at position 128 or above. */
    ghost predicate Valid()
      reads this
    {
      Fits(bits)
    }

    /** `Bloom::default()`: the empty filter. */
    constructor ()
      ensures Valid() && bits == {}
    {
      bits := {};
    }

    /** src/bloom.rs:33-35. */
    method Set(h: Hash)
      requires Valid()
      modifies this
      ensures Valid()
      ensures bits == old(bits) + Mask(h)
      ensures Covers(bits, Mask(h))
      ensures forall m :: Covers(old(bits), m) ==> Covers(bits, m)
    {
      bits := bits + Mask(h);
    }

    /** src/bloom.rs:37-40: `(self.0 & mask) == mask`. */
    predicate Contains(m: Bits)
      reads this
      ensures Contains(m) <==> bits * m == m
    {
      Covers(bits, m)
    }

    /** `ToMask for Bloom`: the raw bits (src/bloom.rs:15-19). */
    function ToMask(): Bits
      reads this
    {
      bits
    }
  }

  /** The source's own test: a filter of 1, 2 and 3 contains a filter of 1 and 2 (src/bloom.rs:84-97). */
  lemma ExampleSubset(h1: Hash, h2: Hash, h3: Hash)
    ensures Covers(BloomOf([h1, h2, h3]), BloomOf([h1, h2]))
  {
    SupersetCovers([h1, h2], [h1, h2, h3]);
  }

  /**
   * The other half of that test: the smaller filter does not contain the
   * larger one, provided the third element's bit differs from the other two.
   */
  lemma ExampleNotSuperset(h1: Hash, h2: Hash, h3: Hash)
    requires h3 % Width != h1 % Width && h3 % Width != h2 % Width
    ensures !Covers(BloomOf([h1, h2]), BloomOf([h1, h2, h3]))
  {
    BloomOfCovers([h1, h2, h3], h3);
    BloomOfBits([h1, h2], h3 % Width);
  }
}
