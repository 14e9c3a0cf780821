/** The kernel module's in-memory state and its operations on it, in place. */
module FileSystem {
  import opened Store
  import opened Blocks
  import opened Layout
  import opened Bitmap
  import opened Inodes

  const ENOSPC := 28

  /** One mounted file system. cache is inodes_bitmaps_cache; disk is what sits behind sjfs_read_block and a
      sjfs_write_block that does what its comment says. */
  class Mount {
    const slot: nat
    const cache: array<bv8>
    var disk: Disk
    var files: map<Name, nat>
    ghost const initial: Disk
    ghost var log: seq<Write>

    ghost predicate Valid()
      reads this, cache
    {
      SlotSize(slot) && cache.Length == BLOCK_SIZE && Agreement(Abs())
    }

    ghost function Abs(): Fs
      reads this, cache
      requires cache.Length == BLOCK_SIZE
    {
      Fs(slot, cache[..], disk, files, initial, log)
    }

    constructor (S: nat, d: Disk)
      requires SlotSize(S)
      ensures Valid() && fresh(cache)
      ensures Abs() == Mounted(S, d)
      ensures slot == S && disk == d && files == map[] && log == [] && cache[..] == BlockAt(d, 1)
    {
      var block := BlockAt(d, 1);
      slot, disk, files := S, d, map[];
      initial, log := d, [];
      cache := new bv8[BLOCK_SIZE](k requires 0 <= k < BLOCK_SIZE => block[k]);
      new;
      assert cache[..] == block;
      assert files.Values == {};
    }

    /** Read the block of the inode, overwrite the slot in the buffer, write the block; without a buffer, return.
        On the disk the bytes from n * slot on of the table become the inode, and nothing else changes. */
    method SetDiskInode(n: nat, inode: Bytes, hasBuffer: bool)
      requires SlotSize(slot) && |inode| == slot
      modifies this`disk, this`log
      ensures log == old(log) + (if hasBuffer then [SlotWrite(n, inode)] else [])
      ensures disk == if hasBuffer then Save(old(disk), n, slot, inode) else old(disk)
      ensures Placed(old(disk), disk, n * slot, if hasBuffer then inode else [])
      ensures BlockAt(disk, 0) == old(BlockAt(disk, 0)) && BlockAt(disk, 1) == old(BlockAt(disk, 1))
    {
      if !hasBuffer {
        assert log + [] == log;
        return;
      }
      SlotFits(n, slot);
      SaveBytes(disk, n, slot, inode);
      var blockNumber := InodeBlock(n, slot);
      var buffer := BlockAt(disk, blockNumber);
      buffer := Splice(buffer, Offset(n, slot), inode);
      disk := disk[blockNumber := buffer];
      log := log + [SlotWrite(n, inode)];
    }

    /** Create: find a number, write the inode, set the bit in the cache, write the cache through. The VFS calls it
        only for a name that is not there. */
    method Create(name: Name, inode: Bytes, hasInode: bool, hasBuffer: bool) returns (error: int)
      requires Valid() && name !in files && |inode| == slot
      modifies this, cache
      ensures Valid()
      ensures hasInode ==> Abs() == Step(old(Abs()), Inodes.Create(name, inode, hasBuffer))
      ensures !hasInode ==> Abs() == old(Abs())
      ensures error == 0 <==> hasInode && FreeNumber(old(cache[..])) != 0
      ensures error != 0 ==> error == -28 && Abs() == old(Abs())
      ensures error == 0 ==> CreatedIn(old(Abs()), Abs(), name, FreeNumber(old(cache[..])), inode, hasBuffer)
    {
      error := -ENOSPC;
      if !hasInode {
        return;
      }
      ghost var before := Abs();
      ghost var op := Inodes.Create(name, inode, hasBuffer);
      AgreementStep(before, op);
      var n := FindFree(cache);
      if n == 0 {
        assert log + [] == log;
        return;
      }
      SetDiskInode(n, inode, hasBuffer);
      cache[n / 8] := SetBit(cache[n / 8], n % 8);
      assert cache[..] == Mark(before.cache, n);
      disk := disk[1 := cache[..]];
      log := log + [BitmapWrite(cache[..], Created(n, inode, hasBuffer))];
      files := files[name := n];
      error := 0;
      CreateStep(before, op);
    }

    /** Unlink: clear the bit in the cache, write the cache through. The VFS calls it only for a name it has. */
    method Unlink(name: Name)
      requires Valid() && name in files
      modifies this, cache
      ensures Valid()
      ensures Abs() == Step(old(Abs()), Inodes.Unlink(name))
      ensures files == old(files) - {name} && Bits(cache[..]) == old(Bits(cache[..])) - {old(files[name])}
      ensures BlockAt(disk, 1) == cache[..] && forall b :: b != 1 ==> BlockAt(disk, b) == old(BlockAt(disk, b))
      ensures log == old(log) + [BitmapWrite(cache[..], Unlinked(old(files[name])))]
    {
      ghost var before := Abs();
      UnlinkStep(before, name);
      AgreementStep(before, Inodes.Unlink(name));
      var n := files[name];
      assert n in files.Values;
      assert n in Bits(before.cache);
      cache[n / 8] := ClearBit(cache[n / 8], n % 8);
      assert cache[..] == Unmark(before.cache, n);
      disk := disk[1 := cache[..]];
      log := log + [BitmapWrite(cache[..], Unlinked(n))];
      files := files - {name};
    }
  }

  /** The mount loop that fills the data-bitmap cache, over a read routine that returns the block it was asked for:
      bit b of the cache is bit b % 8 of byte (b / 8) % 1024 of block 8194 + b / 8192. */
  method LoadDataBitmaps(readBlock: nat -> Block, count: nat) returns (cache: array<bv8>)
    ensures cache.Length == 1024 * count
    ensures forall b: nat :: b < 8 * cache.Length ==>
              b / 8 < cache.Length &&
              TestBit(cache[b / 8], b % 8) ==
              TestBit(readBlock(8194 + b / 8192)[(b / 8) % 1024], b % 8)
  {
    cache := new bv8[BLOCK_SIZE * count];
    var i := DATA_BITMAP_OFFSET;
    while i < DATA_BITMAP_OFFSET + count
      invariant DATA_BITMAP_OFFSET <= i <= DATA_BITMAP_OFFSET + count
      invariant forall k :: 0 <= k < (i - DATA_BITMAP_OFFSET) * BLOCK_SIZE ==>
                  cache[k] == readBlock(DATA_BITMAP_OFFSET + k / BLOCK_SIZE)[k % BLOCK_SIZE]
    {
      var block := readBlock(i);
      var base := (i - DATA_BITMAP_OFFSET) * BLOCK_SIZE;
      forall k | 0 <= k < BLOCK_SIZE {
        cache[base + k] := block[k];
      }
      assert forall k :: base <= k < base + BLOCK_SIZE ==>
          k / BLOCK_SIZE == i - DATA_BITMAP_OFFSET && k % BLOCK_SIZE == k - base && cache[k] == block[k - base];
      i := i + 1;
    }
  }
}
