/**
 * The tagged words of src/nxt_lvlhsh.c:46-93: an address, a count and a kind bit in one machine word.
 * Words are natural numbers here; MasksAreArithmetic shows that the source's masks are these remainders.
 */
module LevelHashWord {

  /** What the allocator promises for a 128-byte block. */
  predicate Aligned(p: nat) { p % 128 == 0 }

  predicate IsBucket(w: nat) { w % 2 == 1 }

  function LevelAddress(w: nat): nat { w - w % 64 }

  function LevelEntriesField(w: nat): nat {
    assert w % 2 == w % 32 % 2 by { Residue(w); }
    w % 32 - w % 2
  }

  lemma Residue(w: nat)
    ensures w % 2 == w % 32 % 2
  {
    Remainder2Of(w % 32);
    Bit(w, 16 * (w / 32) + w % 32 / 2, w % 32 % 2);
  }

  lemma Remainder2Of(r: nat)
    ensures r == 2 * (r / 2) + r % 2
  {
  }

  lemma Bit(w: nat, q: nat, r: nat)
    requires w == 2 * q + r && r < 2
    ensures w % 2 == r
  {
  }

  function BucketAddress(w: nat): nat { w - w % 128 }

  function BucketEntries(w: nat): nat { w % 128 / 2 }

  function StoreBucket(p: nat): nat { p - p % 4 + 3 }

  function CountInc(w: int): int { w + 2 }

  function CountDec(w: int): int { w - 2 }

  /** With mask 15 for a level of 16 slots and mask 127 for a bucket of 128 bytes. */
  lemma MasksAreArithmetic(w: bv64)
    ensures w & (!15 << 2) == w - w % 64
    ensures w & (15 << 1) == w % 32 - w % 2
    ensures w & !127 == w - w % 128
    ensures (w & 127) >> 1 == w % 128 / 2
    ensures w | 2 | 1 == w - w % 4 + 3
    ensures w & 1 == w % 2
  {
    Mod64(w);
    Mod32(w);
    Mod128(w);
    Mod4(w);
  }

  lemma Mod64(w: bv64)
    ensures w & (!15 << 2) == w - w % 64
  {
    assert w % 64 == w & 63;
  }

  lemma Mod32(w: bv64)
    ensures w & (15 << 1) == w % 32 - w % 2 && w & 1 == w % 2
  {
    assert w % 32 == w & 31;
    assert w % 2 == w & 1;
  }

  lemma Mod128(w: bv64)
    ensures w & !127 == w - w % 128 && (w & 127) >> 1 == w % 128 / 2
  {
    assert w % 128 == w & 127;
  }

  lemma Mod4(w: bv64)
    ensures w | 2 | 1 == w - w % 4 + 3
  {
    assert w % 4 == w & 3;
  }

  /** The words of a level and of a bucket at address p with n used slots or entries. */
  function LevelWord(p: nat, n: nat): nat { p + 2 * n }

  function BucketWord(p: nat, n: nat): nat { p + 2 * n + 1 }

  /** A level word gives back its address and kind for every count up to a full level, whose field reads 0. */
  lemma LevelDecodes(p: nat, n: nat)
    requires Aligned(p) && n <= 16
    ensures LevelAddress(LevelWord(p, n)) == p && !IsBucket(LevelWord(p, n))
    ensures LevelEntriesField(LevelWord(p, n)) == if n < 16 then 2 * n else 0
  {
    var w, q := LevelWord(p, n), p / 128;
    Multiples(p);
    Remainder64(w, 2 * q, 2 * n);
    Remainder2(w, 64 * q + n);
    if n < 16 {
      Remainder32(w, 4 * q, 2 * n);
    } else {
      Remainder32(w, 4 * q + 1, 0);
    }
  }

  lemma Multiples(p: nat)
    requires Aligned(p)
    ensures var q := p / 128;
      p == 128 * q && p == 64 * (2 * q) && p == 32 * (4 * q) && p == 4 * (32 * q) && p == 2 * (64 * q)
  {
  }

  lemma Remainder2(w: nat, q: nat)
    requires w == 2 * q
    ensures w % 2 == 0
  {
  }

  lemma Remainder64(w: nat, q: nat, r: nat)
    requires w == 64 * q + r && r < 64
    ensures w % 64 == r
  {
  }

  lemma Remainder32(w: nat, q: nat, r: nat)
    requires w == 32 * q + r && r < 32
    ensures w % 32 == r
  {
  }

  /** A bucket word gives back its address, kind and exact count. */
  lemma BucketDecodes(p: nat, n: nat)
    requires Aligned(p) && n <= 15
    ensures BucketAddress(BucketWord(p, n)) == p && IsBucket(BucketWord(p, n)) && BucketEntries(BucketWord(p, n)) == n
    ensures StoreBucket(p) == BucketWord(p, 1)
  {
    Remainder128(BucketWord(p, n), p / 128, 2 * n + 1);
    Multiples(p);
    Remainder4(p, 32 * (p / 128));
  }

  /** Every word that is ever made of an address and a count gives both back. */
  ghost predicate Decodes(p: nat) {
    && (forall n: nat :: n <= 16 ==>
         LevelAddress(LevelWord(p, n)) == p && !IsBucket(LevelWord(p, n))
         && LevelEntriesField(LevelWord(p, n)) == if n < 16 then 2 * n else 0)
    && (forall n: nat :: n <= 15 ==>
         BucketAddress(BucketWord(p, n)) == p && IsBucket(BucketWord(p, n)) && BucketEntries(BucketWord(p, n)) == n)
  }

  lemma AlignedDecodes(p: nat)
    requires Aligned(p)
    ensures Decodes(p)
  {
    hide Aligned, LevelAddress, LevelEntriesField, BucketAddress, BucketEntries, IsBucket, LevelWord, BucketWord;
    forall n: nat | n <= 16
      ensures LevelAddress(LevelWord(p, n)) == p && !IsBucket(LevelWord(p, n))
      ensures LevelEntriesField(LevelWord(p, n)) == if n < 16 then 2 * n else 0
    {
      LevelDecodes(p, n);
    }
    forall n: nat | n <= 15
      ensures BucketAddress(BucketWord(p, n)) == p && IsBucket(BucketWord(p, n)) && BucketEntries(BucketWord(p, n)) == n
    {
      BucketDecodes(p, n);
    }
  }

  lemma Remainder128(w: nat, q: nat, r: nat)
    requires w == 128 * q + r && r < 128
    ensures w % 128 == r
  {
  }

  lemma Remainder4(p: nat, q: nat)
    requires p == 4 * q
    ensures p % 4 == 0
  {
  }

  datatype Change = Inc | Dec

  /** The word after a run of increments and decrements, and the count it stands for. */
  function Counted(w: nat, run: seq<Change>): int
    decreases |run|
  {
    if run == [] then w
    else
      var v := Counted(w, run[..|run| - 1]);
      if run[|run| - 1].Inc? then CountInc(v) else CountDec(v)
  }

  function Tally(n: nat, run: seq<Change>): int
    decreases |run|
  {
    if run == [] then n
    else Tally(n, run[..|run| - 1]) + if run[|run| - 1].Inc? then 1 else -1
  }

  /** However a level's count went up and down, an aligned address, the kind and the emptiness test stay exact. */
  lemma {:induction false} RunDecodes(p: nat, n: nat, run: seq<Change>)
    requires Aligned(p) && n <= 16 && 0 <= Tally(n, run) <= 16
    ensures Counted(LevelWord(p, n), run) == LevelWord(p, Tally(n, run))
    ensures LevelAddress(Counted(LevelWord(p, n), run)) == p && !IsBucket(Counted(LevelWord(p, n), run))
    ensures LevelEntriesField(Counted(LevelWord(p, n), run)) == 0 <==> Tally(n, run) == 0 || Tally(n, run) == 16
  {
    RunCounts(LevelWord(p, n), n, run);
    LevelDecodes(p, Tally(n, run));
  }

  lemma {:induction false} RunCounts(w: nat, n: nat, run: seq<Change>)
    ensures Counted(w, run) - 2 * Tally(n, run) == w - 2 * n
    decreases |run|
  {
    if run != [] {
      RunCounts(w, n, run[..|run| - 1]);
    }
  }

  /** Deleting from a level of n slots: the field is 0 after the decrement exactly when no slot is left. */
  lemma DecrementIsExact(p: nat, n: nat)
    requires Aligned(p) && 0 < n <= 16
    ensures LevelEntriesField(CountDec(LevelWord(p, n))) == 0 <==> n == 1
    ensures LevelAddress(CountDec(LevelWord(p, n))) == p
  {
    assert CountDec(LevelWord(p, n)) == LevelWord(p, n - 1);
    LevelDecodes(p, n - 1);
  }

  /** The words of a level decode exactly for the addresses that keep the six low bits free. */
  lemma LevelAlignmentNeeded(p: nat)
    ensures (forall n :: 0 <= n <= 16 ==> LevelAddress(LevelWord(p, n)) == p) <==> p % 64 == 0
  {
    assert LevelWord(p, 0) == p;
    if p % 64 == 0 {
      forall n | 0 <= n <= 16
        ensures LevelAddress(LevelWord(p, n)) == p
      {
        Remainder64(LevelWord(p, n), p / 64, 2 * n);
      }
    } else {
      assert LevelAddress(LevelWord(p, 0)) != p;
    }
  }
}
