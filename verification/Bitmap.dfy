/** The inode bitmap of kernel_space_module/sjfs.c: bits low-first in a byte, the search for a free inode number,
    and marking, both as documented and as written. */
module Bitmap {
  import opened Store

  // ----- one byte

  predicate TestBit(b: bv8, j: nat)
    requires j < 8
  {
    (b >> j) & 1 == 1
  }

  function SetBit(b: bv8, j: nat): bv8
    requires j < 8
  {
    b | ((1 as bv8) << j)
  }

  function ClearBit(b: bv8, j: nat): bv8
    requires j < 8
  {
    b & !((1 as bv8) << j)
  }

  lemma BitIndex(j: nat)
    requires j < 8
    ensures j == 0 || j == 1 || j == 2 || j == 3 || j == 4 || j == 5 || j == 6 || j == 7
  {
  }

  lemma SetBitTests(b: bv8, j: nat, k: nat)
    requires j < 8 && k < 8
    ensures TestBit(SetBit(b, j), k) == (j == k || TestBit(b, k))
  {
    BitIndex(j);
    BitIndex(k);
  }

  lemma ClearBitTests(b: bv8, j: nat, k: nat)
    requires j < 8 && k < 8
    ensures TestBit(ClearBit(b, j), k) == (j != k && TestBit(b, k))
  {
    BitIndex(j);
    BitIndex(k);
  }

  lemma ClearUndoesSet(b: bv8, j: nat)
    requires j < 8 && !TestBit(b, j)
    ensures ClearBit(SetBit(b, j), j) == b
  {
    BitIndex(j);
  }

  /** Two to the j. */
  function Weight(j: nat): bv8
    requires j < 8
  {
    if j == 0 then 1 else if j == 1 then 2 else if j == 2 then 4 else if j == 3 then 8
    else if j == 4 then 16 else if j == 5 then 32 else if j == 6 then 64 else 128
  }

  /** Bit j is the one of value two to the j, counted from the low end. */
  lemma BitOrder(b: bv8, j: nat)
    requires j < 8
    ensures TestBit(b, j) <==> b & Weight(j) != 0
  {
    BitIndex(j);
  }

  lemma SetBitOrder(b: bv8, j: nat)
    requires j < 8
    ensures SetBit(b, j) == b | Weight(j)
  {
    BitIndex(j);
  }

  lemma ClearBitOrder(b: bv8, j: nat)
    requires j < 8
    ensures ClearBit(b, j) == b & (255 - Weight(j))
  {
    BitIndex(j);
  }

  // ----- a bitmap

  predicate Used(m: Bytes, n: nat)
    requires n < 8 * |m|
  {
    TestBit(m[n / 8], n % 8)
  }

  function Bits(m: Bytes): set<nat> {
    set n: nat | 0 <= n < 8 * |m| && Used(m, n)
  }

  function Mark(m: Bytes, n: nat): Bytes
    requires n < 8 * |m|
  {
    m[n / 8 := SetBit(m[n / 8], n % 8)]
  }

  function Unmark(m: Bytes, n: nat): Bytes
    requires n < 8 * |m|
  {
    m[n / 8 := ClearBit(m[n / 8], n % 8)]
  }

  lemma MarkUsed(m: Bytes, n: nat, k: nat)
    requires n < 8 * |m| && k < 8 * |m|
    ensures Used(Mark(m, n), k) == (k == n || Used(m, k))
    ensures Used(Unmark(m, n), k) == (k != n && Used(m, k))
  {
    SetBitTests(m[n / 8], n % 8, k % 8);
    ClearBitTests(m[n / 8], n % 8, k % 8);
  }

  lemma MarkBits(m: Bytes, n: nat)
    requires n < 8 * |m|
    ensures Bits(Mark(m, n)) == Bits(m) + {n}
    ensures Bits(Unmark(m, n)) == Bits(m) - {n}
  {
    forall k: nat | k < 8 * |m|
      ensures Used(Mark(m, n), k) == (k == n || Used(m, k)) && Used(Unmark(m, n), k) == (k != n && Used(m, k))
    {
      MarkUsed(m, n, k);
    }
  }

  /** Number 8 * i + j is bit j of byte i, and marking or unmarking it changes that byte and that bit of it. */
  lemma NumbersInBytes(m: Bytes, i: nat, j: nat)
    requires i < |m| && j < 8
    ensures Used(m, 8 * i + j) <==> m[i] & Weight(j) != 0
    ensures Mark(m, 8 * i + j) == m[i := m[i] | Weight(j)]
    ensures Unmark(m, 8 * i + j) == m[i := m[i] & (255 - Weight(j))]
  {
    ByteAndBit(m, i, j);
    BitOrder(m[i], j);
    SetBitOrder(m[i], j);
    ClearBitOrder(m[i], j);
  }

  lemma ByteAndBit(m: Bytes, i: nat, j: nat)
    requires i < |m| && j < 8
    ensures Used(m, 8 * i + j) == TestBit(m[i], j)
    ensures Mark(m, 8 * i + j) == m[i := SetBit(m[i], j)] && Unmark(m, 8 * i + j) == m[i := ClearBit(m[i], j)]
  {
    assert (8 * i + j) / 8 == i && (8 * i + j) % 8 == j;
  }

  // ----- the search

  /** n is the lowest clear bit at or above lo. */
  predicate LowestFree(m: Bytes, lo: nat, n: nat) {
    lo <= n < 8 * |m| && !Used(m, n) && forall k :: lo <= k < n ==> Used(m, k)
  }

  predicate AllUsed(m: Bytes, lo: nat, hi: nat)
    requires hi <= 8 * |m|
  {
    forall k :: lo <= k < hi ==> Used(m, k)
  }

  /** Where the search effectively starts. Number 0 doubles as "nothing found", so a clear bit 0 is not taken, and
      it also hides the rest of its byte. */
  function SearchStart(m: Bytes): nat
    requires |m| > 0
  {
    if Used(m, 0) then 0 else 8
  }

  /** What the documented search returns, with 0 for none. */
  ghost predicate IsFreeNumber(m: Bytes, n: nat)
    requires |m| > 0
  {
    if n == 0 then AllUsed(m, SearchStart(m), 8 * |m|) else LowestFree(m, SearchStart(m), n)
  }

  function Lowest(m: Bytes, lo: nat): (n: nat)
    ensures n == 0 || lo <= n < 8 * |m|
    decreases 8 * |m| - lo
  {
    if lo >= 8 * |m| then 0 else if !Used(m, lo) then lo else Lowest(m, lo + 1)
  }

  function FreeNumber(m: Bytes): (n: nat)
    requires |m| > 0
    ensures n < 8 * |m|
  {
    Lowest(m, SearchStart(m))
  }

  lemma {:induction false} LowestMeans(m: Bytes, lo: nat)
    ensures var n := Lowest(m, lo);
            if n == 0 then (lo == 0 && |m| > 0 && !Used(m, 0)) || AllUsed(m, lo, 8 * |m|) else LowestFree(m, lo, n)
    decreases 8 * |m| - lo
  {
    if lo < 8 * |m| && Used(m, lo) {
      LowestMeans(m, lo + 1);
    }
  }

  /** The search function is the one function that meets its specification. */
  lemma FreeNumberExact(m: Bytes, n: nat)
    requires |m| > 0
    ensures IsFreeNumber(m, n) <==> n == FreeNumber(m)
  {
    LowestMeans(m, SearchStart(m));
    var r := FreeNumber(m);
    assert IsFreeNumber(m, r);
    assert IsFreeNumber(m, n) && n != 0 ==> !Used(m, n);
    assert r != 0 ==> !Used(m, r);
  }

  /** With the root bit set the search gives the lowest clear bit, never 0, and fails exactly when all are set. */
  lemma SearchWithRoot(m: Bytes)
    requires |m| > 0 && Used(m, 0)
    ensures FreeNumber(m) != 0 ==> LowestFree(m, 0, FreeNumber(m))
    ensures FreeNumber(m) == 0 <==> AllUsed(m, 0, 8 * |m|)
  {
    FreeNumberExact(m, FreeNumber(m));
  }

  /** The nested search loop with the guard its comment asks for: over the whole bitmap, until something is found. */
  method FindFree(cache: array<bv8>) returns (inodeNumber: nat)
    requires cache.Length > 0
    ensures inodeNumber == FreeNumber(cache[..])
  {
    ghost var m := cache[..];
    inodeNumber := 0;
    var i := 0;
    while i < cache.Length && inodeNumber == 0
      invariant 0 <= i <= cache.Length
      invariant inodeNumber == 0 ==> forall k :: SearchStart(m) <= k < 8 * i ==> Used(m, k)
      invariant inodeNumber != 0 ==> LowestFree(m, SearchStart(m), inodeNumber)
    {
      var j := 0;
      while j < 8
        invariant 0 <= j <= 8
        invariant forall k :: 8 * i <= k < 8 * i + j ==> Used(m, k)
        invariant inodeNumber == 0
      {
        assert m[(8 * i + j) / 8] == cache[i] && (8 * i + j) % 8 == j;
        if !TestBit(cache[i], j) {
          inodeNumber := 8 * i + j;
          break;
        }
        j := j + 1;
      }
      i := i + 1;
    }
    FreeNumberExact(m, inodeNumber);
  }

  // ----- the search as written

  datatype Outcome = Found(n: nat) | NoSpace | PastTheEnd

  /** sizeof applied to the integer constant, not the constant. */
  const SIZEOF_INT := 4

  /** The guard as written: four bytes, and then on for as long as something HAS been found. PastTheEnd is a read
      beyond the cache, where the C program's behaviour is undefined. */
  method FindFreeAsWritten(cache: array<bv8>) returns (r: Outcome)
    requires cache.Length >= SIZEOF_INT
    ensures !r.Found?
    ensures r.NoSpace? <==> AllUsed(cache[..], 8, 32) && (Used(cache[..], 0) ==> AllUsed(cache[..], 0, 8))
  {
    ghost var m := cache[..];
    var i, inodeNumber := 0, 0;
    while i < SIZEOF_INT || inodeNumber > 0
      invariant 0 <= i <= cache.Length && 0 <= inodeNumber
      invariant i > SIZEOF_INT ==> inodeNumber > 0
      invariant inodeNumber > 0 <==>
                || (i > 0 && Used(m, 0) && !AllUsed(m, 0, 8))
                || !AllUsed(m, 8, if i < SIZEOF_INT then 8 * i else 32)
      decreases cache.Length - i
    {
      if i == cache.Length {
        return PastTheEnd;
      }
      var j := 0;
      ghost var before := inodeNumber;
      while j < 8
        invariant 0 <= j <= 8
        invariant forall k :: 8 * i <= k < 8 * i + j ==> Used(m, k)
        invariant inodeNumber == before
      {
        assert m[(8 * i + j) / 8] == cache[i] && (8 * i + j) % 8 == j;
        if !TestBit(cache[i], j) {
          assert !Used(m, 8 * i + j);
          inodeNumber := 8 * i + j;
          break;
        }
        j := j + 1;
      }
      i := i + 1;
    }
    return NoSpace;
  }

  // ----- marking as written

  /** The byte the code computes for an inode number, against n / 8 in the search. */
  function ByteAsWritten(n: nat): nat { n - n % 8 }

  function MarkAsWritten(m: Bytes, n: nat): Option<Bytes> {
    var byte := ByteAsWritten(n);
    if byte < |m| then Some(m[byte := SetBit(m[byte], n % 8)]) else None
  }

  function UnmarkAsWritten(m: Bytes, n: nat): Option<Bytes> {
    var byte := ByteAsWritten(n);
    if byte < |m| then Some(m[byte := ClearBit(m[byte], n % 8)]) else None
  }

  /** Create and unlink as written use one cell per number, and different cells for different numbers, so unlink
      undoes create; but that cell is the one the search looks at only for numbers below 8. */
  lemma CellsAsWritten(m: Bytes, n: nat, k: nat)
    ensures n != k ==> ByteAsWritten(n) != ByteAsWritten(k) || n % 8 != k % 8
    ensures ByteAsWritten(n) == n / 8 <==> n < 8
    ensures |m| % 8 == 0 ==> (MarkAsWritten(m, n).Some? <==> n < |m|)
    ensures MarkAsWritten(m, n).Some? && !TestBit(m[ByteAsWritten(n)], n % 8) ==>
              UnmarkAsWritten(MarkAsWritten(m, n).value, n) == Some(m)
  {
    if MarkAsWritten(m, n).Some? && !TestBit(m[ByteAsWritten(n)], n % 8) {
      var byte := ByteAsWritten(n);
      ClearUndoesSet(m[byte], n % 8);
      assert m[byte := SetBit(m[byte], n % 8)][byte := m[byte]] == m;
    }
  }

  /** As written, marking sets and unmarking clears bit n % 8 of byte n - n % 8, and no other bit of any byte. */
  lemma MarkAsWrittenBits(m: Bytes, n: nat, i: nat, j: nat)
    requires n - n % 8 < |m| && i < |m| && j < 8
    ensures MarkAsWritten(m, n).Some? && |MarkAsWritten(m, n).value| == |m|
    ensures UnmarkAsWritten(m, n).Some? && |UnmarkAsWritten(m, n).value| == |m|
    ensures TestBit(MarkAsWritten(m, n).value[i], j) <==> (i == n - n % 8 && j == n % 8) || TestBit(m[i], j)
    ensures TestBit(UnmarkAsWritten(m, n).value[i], j) <==> !(i == n - n % 8 && j == n % 8) && TestBit(m[i], j)
  {
    var byte, bit := n - n % 8, n % 8;
    if i == byte {
      SetBitTests(m[byte], bit, j);
      ClearBitTests(m[byte], bit, j);
      assert MarkAsWritten(m, n).value[i] == SetBit(m[byte], bit);
      assert UnmarkAsWritten(m, n).value[i] == ClearBit(m[byte], bit);
    } else {
      assert MarkAsWritten(m, n).value[i] == m[i] && UnmarkAsWritten(m, n).value[i] == m[i];
    }
  }

  /** The documented search over a bitmap marked as written: the number just handed out is handed out again at
      once, exactly when it is 8 or more. */
  lemma MarkAsWrittenReuses(m: Bytes)
    requires |m| > 0 && FreeNumber(m) != 0 && MarkAsWritten(m, FreeNumber(m)).Some?
    ensures FreeNumber(MarkAsWritten(m, FreeNumber(m)).value) == FreeNumber(m) <==> FreeNumber(m) >= 8
  {
    var n := FreeNumber(m);
    var m' := MarkAsWritten(m, n).value;
    var byte := ByteAsWritten(n);
    FreeNumberExact(m, n);
    if n >= 8 {
      forall k: nat | k <= n ensures Used(m', k) == Used(m, k) {
        assert k / 8 < byte;
      }
      assert Used(m', 0) == Used(m, 0);
      FreeNumberExact(m', n);
    } else {
      SetBitTests(m[byte], n % 8, n % 8);
      assert Used(m', n);
      FreeNumberExact(m', FreeNumber(m'));
    }
  }

  // ----- the root check of mount

  /** Mount accepts on the top bit of byte 0, which the search calls inode 7, not on the root's bit 0. */
  predicate RootCheckAsWritten(m: Bytes)
    requires |m| > 0
  {
    m[0] >> 7 != 0
  }

  lemma RootCheckTestsInodeSeven(m: Bytes)
    requires |m| > 0
    ensures RootCheckAsWritten(m) <==> Used(m, 7)
    ensures Bits(m) == {0} ==> !RootCheckAsWritten(m)
  {
    if Bits(m) == {0} {
      assert 7 !in Bits(m);
    }
  }
}
