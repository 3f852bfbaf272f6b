/** The filesystem flag bitset of fs_manager.h: the FS_FLAG_* enumeration and its bit macros. */
module FsFlags {

  /** The enumeration members, in declaration order. */
  datatype FsFlag = Unlock | NoEcc | Autoplace | WriteOob | OobSize | Pad | MarkBad | NoSkipBad

  /** The value of `FS_FLAG_<N>`: the member's position in the enumeration. */
  function Index(f: FsFlag): (i: nat)
    ensures i < 8
  {
    match f
    case Unlock => 0
    case NoEcc => 1
    case Autoplace => 2
    case WriteOob => 3
    case OobSize => 4
    case Pad => 5
    case MarkBad => 6
    case NoSkipBad => 7
  }

  /** `FS_FLAG_BITS(N)`: exactly one bit set (BitsIsShift: the one at the member's position). */
  function Bits(f: FsFlag): (b: bv32)
    ensures b != 0 && b & (b - 1) == 0
  {
    match f
    case Unlock => 0x01
    case NoEcc => 0x02
    case Autoplace => 0x04
    case WriteOob => 0x08
    case OobSize => 0x10
    case Pad => 0x20
    case MarkBad => 0x40
    case NoSkipBad => 0x80
  }

  /** `FS_FLAG_BITS(N)` is `1 << FS_FLAG_N`. */
  lemma BitsIsShift(f: FsFlag)
    ensures Bits(f) == (1 as bv32) << Index(f)
  {
    match f
    case Unlock =>
    case NoEcc =>
    case Autoplace =>
    case WriteOob =>
    case OobSize =>
    case Pad =>
    case MarkBad =>
    case NoSkipBad =>
  }

  /** `FS_FLAG_IS_SET(fs, N)` on the flag word. */
  predicate IsSet(flag: bv32, f: FsFlag)
  {
    flag & Bits(f) != 0
  }

  /** The value `FS_FLAG_SET(fs, N)` stores into the flag word. */
  function Set(flag: bv32, f: FsFlag): (r: bv32)
    ensures IsSet(r, f)
  {
    flag | Bits(f)
  }

  /** Bit `i` of a word. */
  function BitAt(flag: bv32, i: nat): bv32
    requires i < 32
  {
    (flag >> i) & 1
  }

  /** Distinct members map to distinct, non-overlapping bits. */
  lemma BitsDisjoint(f: FsFlag, g: FsFlag)
    requires f != g
    ensures Bits(f) & Bits(g) == 0
    ensures Bits(f) != Bits(g)
  {
    BitsIsShift(f);
    BitsIsShift(g);
    IndexInjective(f, g);
    ShiftsDisjoint(Index(f), Index(g));
  }

  /** Setting flag N leaves `FS_FLAG_IS_SET` of every other member as it was. */
  lemma SetKeepsOtherFlags(flag: bv32, f: FsFlag, g: FsFlag)
    requires g != f
    ensures IsSet(Set(flag, f), g) == IsSet(flag, g)
  {
    BitsDisjoint(f, g);
    OrDisjointMask(flag, Bits(f), Bits(g));
  }

  lemma OrDisjointMask(x: bv32, b: bv32, m: bv32)
    requires b & m == 0
    ensures (x | b) & m == x & m
  {
  }

  lemma IndexInjective(f: FsFlag, g: FsFlag)
    ensures Index(f) == Index(g) ==> f == g
  {
  }

  lemma ShiftsDisjoint(i: nat, j: nat)
    requires i < 8 && j < 8 && i != j
    ensures ((1 as bv32) << i) & ((1 as bv32) << j) == 0
  {
  }

  /** `FS_FLAG_IS_SET(fs, N)` depends on bit N of the flag word and on nothing else. */
  lemma IsSetIsBit(flag: bv32, f: FsFlag)
    ensures IsSet(flag, f) <==> BitAt(flag, Index(f)) == 1
  {
    match f
    case Unlock =>
    case NoEcc =>
    case Autoplace =>
    case WriteOob =>
    case OobSize =>
    case Pad =>
    case MarkBad =>
    case NoSkipBad =>
  }

  /** Two words that agree on bit N agree on `FS_FLAG_IS_SET(_, N)`. */
  lemma IsSetDependsOnlyOnBit(x: bv32, y: bv32, f: FsFlag)
    requires BitAt(x, Index(f)) == BitAt(y, Index(f))
    ensures IsSet(x, f) == IsSet(y, f)
  {
    IsSetIsBit(x, f);
    IsSetIsBit(y, f);
  }

  /** Setting a flag that is already set changes nothing. */
  lemma SetWhenSetIsNoop(flag: bv32, f: FsFlag)
    ensures IsSet(flag, f) ==> Set(flag, f) == flag
  {
    var b := Bits(f);
    assert b != 0 && b & (b - 1) == 0;
    OneBitOr(flag, b);
  }

  /** For a one-bit word `b`, `x | b == x` exactly when `x & b` is nonzero. */
  lemma OneBitOr(x: bv32, b: bv32)
    requires b != 0 && b & (b - 1) == 0
    ensures x & b != 0 ==> x | b == x
  {
    if x & b != 0 {
      SingleBitIn(x, b);
      OrContained(x, b);
    }
  }

  /** Setting the same flag twice equals setting it once. */
  lemma SetTwice(flag: bv32, f: FsFlag)
    ensures Set(Set(flag, f), f) == Set(flag, f)
  {
    OrTwice(flag, Bits(f));
  }

  lemma OrContained(x: bv32, b: bv32)
    requires x & b == b
    ensures x | b == x
  {
  }

  lemma OrTwice(x: bv32, b: bv32)
    ensures (x | b) | b == x | b
  {
  }

  /** For a one-bit word `b`, a nonzero `x & b` means `x` already holds `b`. */
  lemma SingleBitIn(x: bv32, b: bv32)
    requires b != 0 && b & (b - 1) == 0 && x & b != 0
    ensures x & b == b
  {
  }

  /** Every bit other than bit N is unchanged by setting N. */
  lemma SetKeepsOtherBits(flag: bv32, f: FsFlag)
    ensures Set(flag, f) & !Bits(f) == flag & !Bits(f)
  {
  }

  /** A filesystem descriptor, reduced to the field the flag macros update. */
  class Filesystem {
    const name: string
    var flag: bv32

    constructor (name: string)
      ensures this.name == name && flag == 0
    {
      this.name := name;
      flag := 0;
    }

    /** `FS_FLAG_SET(fs, N)`: `fs->flag |= FS_FLAG_BITS(N)`. */
    method SetFlag(f: FsFlag)
      modifies this
      ensures flag == Set(old(flag), f)
      ensures IsSet(flag, f)
      ensures forall g :: g != f ==> IsSet(flag, g) == IsSet(old(flag), g)
    {
      forall g | g != f
        ensures IsSet(Set(flag, f), g) == IsSet(flag, g)
      {
        SetKeepsOtherFlags(flag, f, g);
      }
      flag := flag | Bits(f);
    }
  }
}
