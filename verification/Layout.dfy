/** The disk layout of include/blocks.h and the inode load and store of kernel_space_module/sjfs.c.
    S is the inode size, B the block size; the code computes with whatever sizeof gives, so both are parameters. */
module Layout {
  import opened Store
  import opened Blocks
  import opened Wire
  import Arith

  function Start(n: nat, S: nat, B: nat): nat
    requires B > 0
  {
    (n * S) % B
  }

  function InodeBlock(n: nat, S: nat): nat { 2 + (n * S) / BLOCK_SIZE }

  function Offset(n: nat, S: nat): nat { Start(n, S, BLOCK_SIZE) }

  /** With a block made of q slots, slot n of the table is slot n % q of block n / q. */
  lemma StartInUnits(n: nat, S: nat, q: nat, B: nat)
    requires S > 0 && B > 0 && B == q * S
    ensures q > 0
    ensures Start(n, S, B) == (n % q) * S && (n * S) / B == n / q
    ensures Start(n, S, B) + S <= B
  {
    var a, r := n / q, n % q;
    Arith.InGroups(n, q, S);
    Arith.MulGap(r, q, S);
    assert (r + 1) * S == r * S + S;
    assert (a + 1) * B == a * B + B;
    Arith.QuotientIs(n * S, B, a);
  }

  /** Every slot lies inside one block if and only if the inode size divides the block size. */
  lemma NoStraddle(S: nat, B: nat)
    requires S > 0 && B > 0
    ensures (forall n: nat :: Start(n, S, B) + S <= B) <==> B % S == 0
  {
    var q := B / S;
    assert B == q * S + B % S;
    if B % S == 0 {
      forall n: nat ensures Start(n, S, B) + S <= B {
        StartInUnits(n, S, q, B);
      }
    } else if S <= B {
      assert Start(q, S, B) == q * S by { Arith.QuotientIs(q * S, B, 0); }
      assert Start(q, S, B) + S > B;
    } else {
      assert Start(0, S, B) == 0;
    }
  }

  lemma TableBound(n: nat, S: nat)
    requires n < INODES_PER_BITMAP
    ensures S <= BLOCK_SIZE ==> InodeBlock(n, S) < DATA_BITMAP_OFFSET
    ensures S > BLOCK_SIZE && n == INODES_PER_BITMAP - 1 ==> InodeBlock(n, S) >= DATA_BITMAP_OFFSET
  {
    if S <= BLOCK_SIZE {
      Arith.MulMono(n, 8191, S, BLOCK_SIZE);
    } else {
      Arith.MulMono(n, n, 1025, S);
    }
  }

  /** Block and offset of an inode are the one place n * S bytes into a table that starts with block 2. */
  lemma PlaceExact(n: nat, S: nat, block: nat, off: nat)
    ensures block == InodeBlock(n, S) && off == Offset(n, S) <==>
            block >= 2 && off < 1024 && (block - 2) * 1024 + off == n * S
  {
  }

  /** For every inode number one bitmap block can name, the inode table stays clear of the superblock, the inode
      bitmap and the data bitmaps at the offset the mount code computes, if and only if an inode fits a block. */
  lemma RegionsDisjoint(S: nat)
    requires S > 0
    ensures (forall n: nat :: n < INODES_PER_BITMAP ==> 2 <= InodeBlock(n, S) < DATA_BITMAP_OFFSET) <==> S <= BLOCK_SIZE
  {
    forall n: nat | n < INODES_PER_BITMAP ensures S <= BLOCK_SIZE ==> InodeBlock(n, S) < DATA_BITMAP_OFFSET {
      TableBound(n, S);
    }
    TableBound(INODES_PER_BITMAP - 1, S);
  }

  /** The documented picture puts the data bitmaps right behind the inode table; the mount code's offset is that
      place only for inodes of a whole block. */
  lemma DocumentedOffset(S: nat)
    ensures InodeBlock(INODES_PER_BITMAP, S) == DATA_BITMAP_OFFSET <==> S == BLOCK_SIZE
  {
  }

  /** No data-bitmap address survives the five-byte message: it arrives as some three-digit address. */
  lemma DataBitmapReadsGoElsewhere(address: nat)
    requires address >= DATA_BITMAP_OFFSET
    ensures WireAddress(address) != address && 100 <= WireAddress(address) < 1000
  {
    FaithfulRange(0, address);
  }

  lemma HighestCutAddress()
    ensures WireAddress(9990) == 999
  {
    DecodeEncode(0, 9990);
    assert |Decimal(9990)| == 4 by {
      assert Decimal(9990) == Decimal(999) + [0] && Decimal(999) == Decimal(99) + [9];
    }
    SmallPowers();
  }

  /** All data-bitmap reads fetch a block of the inode table instead if and only if the table reaches up to the
      three-digit addresses, which takes inodes of 125 bytes. */
  lemma DataBitmapReadsHitTheInodeTable(S: nat)
    ensures (forall address :: address >= DATA_BITMAP_OFFSET ==> 2 <= WireAddress(address) < InodeBlock(INODES_PER_BITMAP, S))
            <==> S >= 125
  {
    forall address | address >= DATA_BITMAP_OFFSET ensures 100 <= WireAddress(address) < 1000 {
      DataBitmapReadsGoElsewhere(address);
    }
    HighestCutAddress();
    assert InodeBlock(INODES_PER_BITMAP, S) == 2 + 8 * S;
  }

  // ----- the declared inode

  function AlignUp(n: nat, w: nat): nat
    requires w > 0
  {
    (n + w - 1) / w * w
  }

  /** The size of inode_t for longs of w bytes: three shorts, 19 longs, one byte and 25 more, with or without the
      alignment of the longs. */
  function DeclaredInode(w: nat, aligned: bool): nat
    requires w > 0
  {
    if aligned then AlignUp(AlignUp(AlignUp(6, w) + 4 * w + 1, w) + 15 * w + 25, w) else 32 + 19 * w
  }

  /** The comment says 64 bytes. The declared fields make it 108, 116, 184 or 200, so some inode that a bitmap block
      can name does straddle two blocks. */
  lemma DeclaredInodeStraddles(w: nat, aligned: bool)
    requires w == 4 || w == 8
    ensures DeclaredInode(w, aligned) == if w == 4 then (if aligned then 116 else 108) else (if aligned then 200 else 184)
    ensures exists n: nat :: n < INODES_PER_BITMAP && Start(n, DeclaredInode(w, aligned), BLOCK_SIZE) + DeclaredInode(w, aligned) > BLOCK_SIZE
  {
    var S := DeclaredInode(w, aligned);
    var n := BLOCK_SIZE / S;
    assert Start(n, S, BLOCK_SIZE) + S > BLOCK_SIZE;
  }

  // ----- inode slots

  function Load(d: Disk, n: nat, S: nat): Bytes
    requires S > 0 && BLOCK_SIZE % S == 0
  {
    SlotFits(n, S);
    BlockAt(d, InodeBlock(n, S))[Offset(n, S)..Offset(n, S) + S]
  }

  /** The block with bytes from off on replaced: the memcpy into the block buffer. */
  function Splice(b: Block, off: nat, v: Bytes): (r: Block)
    requires off + |v| <= BLOCK_SIZE
    ensures forall k :: 0 <= k < BLOCK_SIZE ==> r[k] == if off <= k < off + |v| then v[k - off] else b[k]
  {
    b[..off] + v + b[off + |v|..]
  }

  function Save(d: Disk, n: nat, S: nat, v: Bytes): Disk
    requires S > 0 && BLOCK_SIZE % S == 0 && |v| == S
  {
    SlotFits(n, S);
    d[InodeBlock(n, S) := Splice(BlockAt(d, InodeBlock(n, S)), Offset(n, S), v)]
  }

  lemma SlotFits(n: nat, S: nat)
    requires S > 0 && BLOCK_SIZE % S == 0
    ensures Offset(n, S) + S <= BLOCK_SIZE
  {
    NoStraddle(S, BLOCK_SIZE);
  }

  /** Different inodes have different slots, also within one block. */
  lemma SlotsApart(n: nat, m: nat, S: nat)
    requires n != m && InodeBlock(n, S) == InodeBlock(m, S)
    ensures Offset(n, S) + S <= Offset(m, S) || Offset(m, S) + S <= Offset(n, S)
  {
    PlaceExact(n, S, InodeBlock(n, S), Offset(n, S));
    PlaceExact(m, S, InodeBlock(m, S), Offset(m, S));
    OffsetsApart(n, m, S);
  }

  lemma OffsetsApart(x: nat, y: nat, S: nat)
    requires x != y
    ensures x * S + S <= y * S || y * S + S <= x * S
  {
    Arith.MulGap(x, y, S);
    Arith.MulGap(y, x, S);
    assert (x + 1) * S == x * S + S && (y + 1) * S == y * S + S;
  }

  /** Store then load gives the stored bytes back, and no other inode changes. */
  lemma SlotRoundTrip(d: Disk, n: nat, m: nat, S: nat, v: Bytes)
    requires S > 0 && BLOCK_SIZE % S == 0 && |v| == S
    ensures Load(Save(d, n, S, v), m, S) == if m == n then v else Load(d, m, S)
    ensures forall b :: b != InodeBlock(n, S) ==> BlockAt(Save(d, n, S, v), b) == BlockAt(d, b)
  {
    SlotFits(n, S);
    SlotFits(m, S);
    if m != n && InodeBlock(n, S) == InodeBlock(m, S) {
      SlotsApart(n, m, S);
    }
  }

  /** The byte at position p of the inode table, which starts with block 2. */
  function TableByte(d: Disk, p: nat): bv8 {
    BlockAt(d, 2 + p / 1024)[p % 1024]
  }

  /** The table of d' is that of d with the bytes from position at on replaced by v. */
  ghost predicate Placed(d: Disk, d': Disk, at: nat, v: Bytes) {
    forall p: nat :: TableByte(d', p) == if at <= p < at + |v| then v[p - at] else TableByte(d, p)
  }

  /** Inode n is the S bytes of the table from n * S on. */
  lemma LoadBytes(d: Disk, n: nat, S: nat)
    requires S > 0 && BLOCK_SIZE % S == 0
    ensures |Load(d, n, S)| == S
    ensures forall k :: 0 <= k < S ==> Load(d, n, S)[k] == BlockAt(d, 2 + (n * S + k) / 1024)[(n * S + k) % 1024]
  {
    SlotFits(n, S);
    forall k | 0 <= k < S ensures Load(d, n, S)[k] == BlockAt(d, 2 + (n * S + k) / 1024)[(n * S + k) % 1024] {
      LoadByte(d, n, S, k);
    }
  }

  lemma LoadByte(d: Disk, n: nat, S: nat, k: nat)
    requires S > 0 && BLOCK_SIZE % S == 0 && k < S
    ensures |Load(d, n, S)| == S && Load(d, n, S)[k] == TableByte(d, n * S + k)
  {
    SlotFits(n, S);
    InSlot(n * S, k, S);
  }

  lemma InSlot(start: nat, k: nat, S: nat)
    requires start % 1024 + S <= 1024 && k < S
    ensures (start + k) / 1024 == start / 1024 && (start + k) % 1024 == start % 1024 + k
  {
  }

  /** Saving inode n changes these bytes of the table and no others, and no block before the table. */
  lemma SaveBytes(d: Disk, n: nat, S: nat, v: Bytes)
    requires S > 0 && BLOCK_SIZE % S == 0 && |v| == S
    ensures Placed(d, Save(d, n, S, v), n * S, v)
    ensures BlockAt(Save(d, n, S, v), 0) == BlockAt(d, 0) && BlockAt(Save(d, n, S, v), 1) == BlockAt(d, 1)
  {
    forall p: nat
      ensures TableByte(Save(d, n, S, v), p) == if n * S <= p < n * S + S then v[p - n * S] else TableByte(d, p)
    {
      SaveByte(d, n, S, v, p);
    }
  }

  lemma SaveByte(d: Disk, n: nat, S: nat, v: Bytes, p: nat)
    requires S > 0 && BLOCK_SIZE % S == 0 && |v| == S
    ensures TableByte(Save(d, n, S, v), p) == if n * S <= p < n * S + S then v[p - n * S] else TableByte(d, p)
  {
    SlotFits(n, S);
    if n * S <= p < n * S + S {
      InSlot(n * S, p - n * S, S);
    }
  }

  // ----- the offsets as written

  function LoadOffsetAsWritten(n: nat, S: nat): nat { n * S }

  function StoreOffsetAsWritten(n: nat): nat { n % BLOCK_SIZE }

  /** None when the copy would leave the block buffer. */
  function LoadAsWritten(d: Disk, n: nat, S: nat): Option<Bytes> {
    var off := LoadOffsetAsWritten(n, S);
    if off + S <= BLOCK_SIZE then Some(BlockAt(d, InodeBlock(n, S))[off..off + S]) else None
  }

  function SaveAsWritten(d: Disk, n: nat, S: nat, v: Bytes): Option<Disk>
    requires |v| == S
  {
    var off := StoreOffsetAsWritten(n);
    if off + S <= BLOCK_SIZE then Some(d[InodeBlock(n, S) := Splice(BlockAt(d, InodeBlock(n, S)), off, v)]) else None
  }

  /** As written, the store stays inside its buffer exactly if the number modulo 1024 leaves room for an inode, and
      puts the inode there, in the block the documented place is in; nothing else changes. */
  lemma SaveAsWrittenBytes(d: Disk, n: nat, S: nat, v: Bytes, b: nat, off: nat)
    requires |v| == S && off < 1024
    ensures SaveAsWritten(d, n, S, v).Some? <==> n % 1024 + S <= 1024
    ensures SaveAsWritten(d, n, S, v).Some? ==>
              BlockAt(SaveAsWritten(d, n, S, v).value, b)[off] ==
              if b == 2 + n * S / 1024 && n % 1024 <= off < n % 1024 + S then v[off - n % 1024] else BlockAt(d, b)[off]
  {
  }

  /** As written, the load stays inside its buffer exactly if the inode ends within 1024 bytes of the table's start, and
      then reads it from block 2. */
  lemma LoadAsWrittenBytes(d: Disk, n: nat, S: nat)
    requires S > 0
    ensures LoadAsWritten(d, n, S).Some? <==> n * S + S <= 1024
    ensures LoadAsWritten(d, n, S).Some? ==>
              |LoadAsWritten(d, n, S).value| == S &&
              forall k :: 0 <= k < S ==> LoadAsWritten(d, n, S).value[k] == BlockAt(d, 2)[n * S + k]
  {
  }

  /** As written, the load stays inside its buffer exactly for the inodes whose slot lies within the first table
      block, and there it is the documented load. */
  lemma LoadAsWrittenInBounds(n: nat, S: nat)
    requires S > 0
    ensures LoadOffsetAsWritten(n, S) + S <= BLOCK_SIZE <==> InodeBlock(n, S) == 2 && Offset(n, S) + S <= BLOCK_SIZE
    ensures InodeBlock(n, S) == 2 ==> LoadOffsetAsWritten(n, S) == Offset(n, S)
    ensures BLOCK_SIZE % S == 0 ==> (LoadOffsetAsWritten(n, S) + S <= BLOCK_SIZE <==> InodeBlock(n, S) == 2)
  {
    if BLOCK_SIZE % S == 0 {
      SlotFits(n, S);
    }
  }

  /** As written, store and load offsets name the same place only for inode 0. */
  lemma OffsetsAsWritten(n: nat, S: nat)
    requires S > 1
    ensures LoadOffsetAsWritten(n, S) == StoreOffsetAsWritten(n) <==> n == 0
  {
    if n > 0 {
      assert n * S >= n * 2;
    }
  }

  /** For an inode other than 0 the last byte loaded lies beyond everything that was stored. */
  lemma LoadMissesStore(b: Block, n: nat, S: nat, v: Bytes)
    requires S > 1 && |v| == S && n > 0 && n * S + S <= BLOCK_SIZE
    ensures n < BLOCK_SIZE && n + S <= BLOCK_SIZE
    ensures Splice(b, n, v)[n * S + S - 1] == b[n * S + S - 1]
  {
    assert n * S >= n * 2;
  }

  predicate ComesBack(d: Disk, n: nat, S: nat, v: Bytes)
    requires |v| == S
  {
    SaveAsWritten(d, n, S, v).Some? && LoadAsWritten(SaveAsWritten(d, n, S, v).value, n, S) == Some(v)
  }

  ghost predicate RoundTripsAsWritten(n: nat, S: nat) {
    forall d: Disk, v: Bytes :: |v| == S ==> ComesBack(d, n, S, v)
  }

  /** An inode of ones, stored on an empty disk, does not come back. */
  lemma OnesDoNotComeBack(n: nat, S: nat, v: Bytes)
    requires S > 1 && (n > 0 || S > BLOCK_SIZE) && v == seq(S, _ => 1)
    ensures !ComesBack(map[], n, S, v)
  {
    if n * S + S <= BLOCK_SIZE {
      var b := InodeBlock(n, S);
      LoadMissesStore(Zeros(BLOCK_SIZE), n, S, v);
      var stored := Splice(Zeros(BLOCK_SIZE), n, v);
      assert SaveAsWritten(map[], n, S, v) == Some(map[b := stored]);
      var off := LoadOffsetAsWritten(n, S);
      assert stored[off..off + S][S - 1] == 0 && v[S - 1] == 1;
    }
  }

  lemma InodeZeroComesBack(d: Disk, S: nat, v: Bytes)
    requires |v| == S <= BLOCK_SIZE
    ensures ComesBack(d, 0, S, v)
  {
    assert Splice(BlockAt(d, 2), 0, v)[0..S] == v;
  }

  /** As-written store and load round-trip all bytes on all disks only for inode 0, and that if it fits a block. */
  lemma RoundTripAsWritten(n: nat, S: nat)
    requires S > 1
    ensures RoundTripsAsWritten(n, S) <==> n == 0 && S <= BLOCK_SIZE
  {
    if n > 0 || S > BLOCK_SIZE {
      var v: Bytes := seq(S, _ => 1);
      OnesDoNotComeBack(n, S, v);
    } else {
      forall d: Disk, v: Bytes | |v| == S ensures ComesBack(d, n, S, v) {
        InodeZeroComesBack(d, S, v);
      }
    }
  }
}
