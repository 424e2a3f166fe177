/**
 * The arena of code/arena.h: a reservation of `size` bytes from which
 * arena_allocate_bytes hands out blocks, committing pages on demand.
 *
 * Offsets are U64, so sums and differences wrap around modulo 2^64;
 * the model writes the wrap-around and the bitwise AND out on integers.
 * mmap and mprotect are operating-system calls: whether they succeed is
 * a parameter, and the range passed to mprotect is returned as a
 * commit request.  Blocks are offsets into the reservation.
 */
module Arenas {
  import opened Basics

  const Modulus: int := 0x1_0000_0000_0000_0000

  newtype U64 = x: int | 0 <= x < 0x1_0000_0000_0000_0000

  /** The U64 that an integer result wraps to. */
  function Wrap(x: int): (r: U64)
    ensures r as int == x % Modulus
  {
    (x % Modulus) as U64
  }

  /** U64 addition and subtraction, wrapping around. */
  function Add(a: U64, b: U64): U64 {
    Wrap(a as int + b as int)
  }

  function Sub(a: U64, b: U64): U64 {
    Wrap(a as int - b as int)
  }

  /** Bitwise AND of two naturals, one bit at a time from the lowest. */
  function And(a: nat, b: nat): (r: nat)
    ensures r <= a && r <= b
  {
    if a == 0 || b == 0 then 0 else 2 * And(a / 2, b / 2) + (a % 2) * (b % 2)
  }

  function Pow2(k: nat): (r: nat)
    ensures r >= 1
  {
    if k == 0 then 1 else 2 * Pow2(k - 1)
  }

  /** Masking with 2^k - 1 keeps the k low bits: the remainder modulo 2^k. */
  lemma {:induction false} AndLowBits(x: nat, k: nat)
    ensures And(x, Pow2(k) - 1) == x % Pow2(k)
  {
    var p := Pow2(k);
    if k == 0 {
      assert p == 1 && And(x, 0) == 0;
      ModUnique(x, 1, x, 0);
    } else if x == 0 {
      ModUnique(0, p, 0, 0);
    } else {
      var m := Pow2(k - 1);
      assert p == 2 * m;
      AndOddMask(x, m);
      AndLowBits(x / 2, k - 1);
      RemainderOfHalf(x, m);
      calc {
        And(x, p - 1);
        2 * And(x / 2, m - 1) + x % 2;
        2 * ((x / 2) % m) + x % 2;
        x % p;
      }
    }
  }

  /** One step of And against an odd mask 2m - 1: the low bit of x is kept. */
  lemma AndOddMask(x: nat, m: nat)
    requires x > 0 && m >= 1
    ensures And(x, 2 * m - 1) == 2 * And(x / 2, m - 1) + x % 2
  {
    var mask := 2 * m - 1;
    assert mask / 2 == m - 1 && mask % 2 == 1;
    assert (x % 2) * (mask % 2) == x % 2;
  }

  /** Dividing by 2 * m splits into halving, a remainder modulo m, and the low bit. */
  lemma RemainderOfHalf(x: nat, m: nat)
    requires m >= 1
    ensures x % (2 * m) == 2 * ((x / 2) % m) + x % 2
  {
    var q, r := (x / 2) / m, (x / 2) % m;
    assert x / 2 == m * q + r;
    assert x == 2 * (x / 2) + x % 2;
    assert 2 * (m * q) == (2 * m) * q;
    ModUnique(x, 2 * m, q, 2 * r + x % 2);
  }

  /** A remainder is the unique r with x == d * q + r and 0 <= r < d. */
  lemma ModUnique(x: int, d: nat, q: int, r: int)
    requires d >= 1 && x == d * q + r && 0 <= r < d
    ensures x % d == r
  {
    var q', r' := x / d, x % d;
    var t := q' - q;
    assert d * q' == d * q + d * t;
    assert r - r' == d * t;
    if t > 0 {
      MulAtLeast(d, t);
    } else if t < 0 {
      MulAtLeast(d, -t);
    }
  }
  lemma MulAtLeast(d: nat, t: int)
    requires t >= 1
    ensures d * t >= d && d * -t == -(d * t)
  {
  }

  lemma {:induction false} Pow2Add(a: nat, b: nat)
    ensures Pow2(a + b) == Pow2(a) * Pow2(b)
    decreases b
  {
    if b > 0 {
      Pow2Add(a, b - 1);
      assert Pow2(a + b) == 2 * Pow2(a + b - 1);
      assert Pow2(a) * Pow2(b) == Pow2(a) * (2 * Pow2(b - 1)) == 2 * (Pow2(a) * Pow2(b - 1));
    }
  }
  /** The granularity align rounds commit lengths with. */
  const PageSize: U64 := 4096

  /**
   * align: (offset + alignment - 1) masked with alignment - 1, in U64
   * arithmetic.  The result is below any non-zero alignment, and an
   * alignment of 0 masks with all ones and gives offset - 1.
   */
  function Align(offset: U64, alignment: U64): (r: U64)
    ensures alignment != 0 ==> r < alignment
  {
    And(Wrap(offset as int + alignment as int - 1) as int, Wrap(alignment as int - 1) as int) as U64
  }

  /**
   * For an alignment 2^k, align is the remainder of offset + alignment - 1
   * modulo the alignment (which is offset - 1 modulo it): a position
   * inside one alignment unit, not offset rounded up to a multiple.
   */
  lemma AlignIsRemainder(offset: U64, k: nat)
    requires k < 64
    ensures Pow2(k) < Modulus
    ensures Align(offset, Pow2(k) as U64) as int == Add(offset, (Pow2(k) - 1) as U64) as int % Pow2(k)
  {
    Pow2Below(k);
    var a := Pow2(k);
    SmallWraps(a - 1);
    AndLowBits(Add(offset, (a - 1) as U64) as int, k);
  }

  /** Wrap leaves a value that already fits alone. */
  lemma SmallWraps(x: int)
    requires 0 <= x < Modulus
    ensures Wrap(x) as int == x
  {
    ModUnique(x, Modulus, 0, x);
  }

  lemma {:induction false} Pow2Below(k: nat)
    requires k < 64
    ensures Pow2(k) < Modulus
    decreases 64 - k
  {
    if k < 63 {
      Pow2Below(k + 1);
    } else {
      Pow2At64();
    }
  }

  /** 2^64 is the U64 modulus, reached by squaring 2 six times. */
  lemma Pow2At64()
    ensures Pow2(64) == Modulus
  {
    var k: nat := 1;
    assert Pow2(k) == 2;
    Pow2Square(k, 2);
    Pow2Square(2 * k, 4);
    Pow2Square(4 * k, 16);
    Pow2Square(8 * k, 256);
    Pow2Square(16 * k, 0x1_0000);
    Pow2Square(32 * k, 0x1_0000_0000);
  }

  /** Squaring a power of two doubles its exponent. */
  lemma Pow2Square(k: nat, v: nat)
    requires Pow2(k) == v
    ensures Pow2(2 * k) == v * v
  {
    Pow2Add(k, k);
  }

  /** An alignment of 0 masks with all ones: align gives offset - 1, wrapping 0 to the largest U64. */
  lemma AlignByZero(offset: U64)
    ensures Align(offset, 0) as int == Wrap(offset as int - 1) as int
  {
    Pow2At64();
    assert Wrap(-1) as int == Pow2(64) - 1 by {
      ModUnique(-1, Modulus, -1, Modulus - 1);
    }
    var x := Wrap(offset as int - 1) as int;
    AndLowBits(x, 64);
    ModUnique(x, Modulus, 0, x);
  }

  /** An alignment of 1 sends every offset to 0; align(5, 4) is 0 and align(8, 4) is 3. */
  lemma AlignDoesNotRoundUp(offset: U64)
    ensures Align(offset, 1) == 0
    ensures Align(5, 4) == 0 && Align(8, 4) == 3
  {
    AlignIsRemainder(5, 2);
    AlignIsRemainder(8, 2);
  }

  /** The range passed to mprotect. */
  datatype Commit = Commit(start: U64, length: U64)

  /** sizeof and _Alignof of a type, as arena_allocate passes them on. */
  datatype Layout = Layout(size: U64, alignment: U64)

  class Arena {
    var size: U64
    var used: U64
    var committed: U64

    /** An Arena as its owner declares it, before arena_initialize fills it in. */
    constructor ()
    {
    }

    /**
     * arena_initialize: reserve size bytes (mapped says whether mmap
     * succeeded) and record an empty arena.  A failed reservation is
     * fatal and writes no field.
     */
    method Initialize(size: U64, mapped: bool) returns (ok: bool)
      modifies this
      ensures ok == mapped
      ensures ok ==> this.size == size && used == 0 && committed == 0
      ensures !ok ==> unchanged(this)
    {
      if !mapped {
        return false;
      }
      this.size := size;
      used := 0;
      committed := 0;
      ok := true;
    }

    /**
     * arena_allocate_bytes: the block starts at align(size, alignment),
     * an offset computed from the reservation size, not from used.  The
     * end of the block past size is fatal; an end past committed asks for
     * a commit starting at committed, and a failed commit is fatal.  No
     * field of the arena is written.
     */
    method AllocateBytes(bytes: U64, alignment: U64, protected: bool)
      returns (commit: Option<Commit>, block: Outcome<U64>)
      ensures var start := Align(size, alignment);
        var end := Add(start, bytes);
        && (end > size ==> commit == None && block == Fatal)
        && (end <= size && end > committed ==>
              commit == Some(Commit(committed, Align(Sub(end, committed), PageSize)))
              && block == if protected then Ok(start) else Fatal)
        && (end <= size && end <= committed ==> commit == None && block == Ok(start))
    {
      var alignedSize := Align(size, alignment);
      var newSize := Add(alignedSize, bytes);
      if newSize > size {
        return None, Fatal;
      }
      commit := None;
      if newSize > committed {
        var difference := Align(Sub(newSize, committed), PageSize);
        commit := Some(Commit(committed, difference));
        if !protected {
          return commit, Fatal;
        }
      }
      block := Ok(alignedSize);
    }

    /** The arena_allocate macro: a block sized and aligned for one value of the given layout. */
    method Allocate(layout: Layout, protected: bool) returns (commit: Option<Commit>, block: Outcome<U64>)
      ensures var start := Align(size, layout.alignment);
        var end := Add(start, layout.size);
        && (end > size ==> commit == None && block == Fatal)
        && (end <= size && end > committed ==>
              commit == Some(Commit(committed, Align(Sub(end, committed), PageSize)))
              && block == if protected then Ok(start) else Fatal)
        && (end <= size && end <= committed ==> commit == None && block == Ok(start))
    {
      commit, block := AllocateBytes(layout.size, layout.alignment, protected);
    }
  }

  /**
   * Two allocations of the same alignment return the same block: since
   * nothing advances used, every block of that alignment begins at the
   * same offset and they all overlap.
   */
  method AllocateTwice(arena: Arena, first: U64, second: U64, alignment: U64)
    returns (a: Outcome<U64>, b: Outcome<U64>)
    ensures a.Ok? && b.Ok? ==> a.value == b.value == Align(arena.size, alignment)
  {
    var _, x := arena.AllocateBytes(first, alignment, true);
    var _, y := arena.AllocateBytes(second, alignment, true);
    a, b := x, y;
  }

  /**
   * The bound check compares a wrapped end offset: in an 8-byte arena a
   * request for 2^64 - 1 bytes at alignment 2 starts at offset 1, ends
   * at 0 after wrapping, and is granted without any commit.
   */
  method WrappedRequestPassesCheck(arena: Arena) returns (commit: Option<Commit>, block: Outcome<U64>)
    requires arena.size == 8
    ensures commit == None && block == Ok(1)
  {
    assert Pow2(1) == 2;
    AlignIsRemainder(8, 1);
    SmallWraps(9);
    ModUnique(9, 2, 4, 1);
    ModUnique(Modulus, Modulus, 1, 0);
    commit, block := arena.AllocateBytes((Modulus - 1) as U64, 2, false);
  }

  /**
   * The commit request is always shorter than a page, because align
   * masks the length: a block ending 8192 bytes past committed asks for
   * 4095 bytes only.
   */
  lemma CommitIsShorterThanAPage(committed: U64, end: U64)
    ensures Align(Sub(end, committed), PageSize) < PageSize
    ensures Align(Sub(8192, 0), PageSize) == 4095
  {
    assert Pow2(12) == 4096;
    AlignIsRemainder(8192, 12);
    SmallWraps(8192);
    SmallWraps(8192 + 4095);
    ModUnique(8192 + 4095, 4096, 2, 4095);
  }
}
