/**
 * The bit set the indexing code is written against (`crate::bitset::BitSet`),
 * reduced to the operations that code uses: construction from a raw word or
 * from four member indices, intersection, the emptiness test and the raw
 * value. Bit `i` of the 32-bit word is set exactly when `i` is a member.
 */
module BitSets {

  datatype BitSet = BitSet(bits: bv32) {

    /** Whether `i` is a member. */
    predicate Contains(i: nat)
      requires i < 32
    {
      bits & (1 << i) != 0
    }

    /** The number of members below `n`. */
    function CountBelow(n: nat): nat
      requires n <= 32
    {
      if n == 0 then 0 else CountBelow(n - 1) + (if Contains(n - 1) then 1 else 0)
    }

    /** Every member of this set is a member of `other`. */
    predicate SubsetOf(other: BitSet)
    {
      bits & !other.bits == 0
    }

    /** The members the two sets have in common. */
    function Intersect(other: BitSet): (r: BitSet)
      ensures r.SubsetOf(this) && r.SubsetOf(other)
    {
      BitSet(bits & other.bits)
    }

    /** Every common subset of the two sets is a subset of their intersection. */
    lemma IntersectIsGreatest(other: BitSet, s: BitSet)
      requires s.SubsetOf(this) && s.SubsetOf(other)
      ensures s.SubsetOf(Intersect(other))
    {
    }

    /** Intersecting with a subset gives that subset. */
    lemma IntersectWithSubset(other: BitSet)
      requires other.SubsetOf(this)
      ensures Intersect(other) == other
    {
    }

    /** The raw machine word. */
    function AsU32(): bv32
    {
      bits
    }

    /** Whether the set has no member. */
    predicate Empty()
    {
      bits == 0
    }
  }

  /** The set {a, b, c, d}. */
  function FromFourBits(a: nat, b: nat, c: nat, d: nat): BitSet
    requires a < 32 && b < 32 && c < 32 && d < 32
  {
    BitSet((1 << a) | (1 << b) | (1 << c) | (1 << d))
  }
}
