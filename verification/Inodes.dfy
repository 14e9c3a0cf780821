/** Creating and unlinking files over the inode bitmap, its write-through cache and the inode table
    (kernel_space_module/sjfs.c), as a state machine that logs every block write. */
module Inodes {
  import opened Store
  import opened Blocks
  import opened Layout
  import opened Bitmap
  import Arith

  type Name = string

  /** Why the bitmap block was written; hasSlot: the create had a buffer to write the slot with. */
  datatype Cause = Created(ino: nat, inode: Bytes, hasSlot: bool) | Unlinked(ino: nat)

  datatype Write = SlotWrite(ino: nat, inode: Bytes) | BitmapWrite(bitmap: Block, cause: Cause)

  /** The inode size is a size every slot of which lies in one block. */
  predicate SlotSize(S: nat) { S > 0 && BLOCK_SIZE % S == 0 }

  predicate FitsSlot(S: nat, w: Write) { w.SlotWrite? ==> |w.inode| == S }

  function Commit(d: Disk, S: nat, w: Write): Disk
    requires SlotSize(S) && FitsSlot(S, w)
  {
    match w
    case SlotWrite(n, v) => Save(d, n, S, v)
    case BitmapWrite(b, _) => d[1 := b]
  }

  predicate AllFit(S: nat, log: seq<Write>) {
    forall k :: 0 <= k < |log| ==> FitsSlot(S, log[k])
  }

  /** The disk after a log of block writes; cutting the log is a crash. */
  function DiskAfter(d: Disk, S: nat, log: seq<Write>): Disk
    requires SlotSize(S) && AllFit(S, log)
  {
    if log == [] then d
    else Commit(DiskAfter(d, S, log[..|log| - 1]), S, log[|log| - 1])
  }

  function DiskBits(d: Disk): set<nat> { Bits(BlockAt(d, 1)) }

  // ----- the file system

  /** cache is inodes_bitmaps_cache, files the names the directory cache holds; initial and log are history. */
  datatype Fs = Fs(slot: nat, cache: Block, disk: Disk, files: map<Name, nat>, initial: Disk, log: seq<Write>)

  /** hasBuffer: the allocation inside sjfs_set_disk_inode succeeded; when it does not, that function returns
      without writing and create goes on. */
  datatype Op = Create(name: Name, inode: Bytes, hasBuffer: bool) | Unlink(name: Name)

  predicate Fits(fs: Fs, op: Op) { op.Create? ==> |op.inode| == fs.slot }

  function Mounted(S: nat, d: Disk): Fs {
    Fs(S, BlockAt(d, 1), d, map[], d, [])
  }

  /** The block writes of one operation, in order. A name the directory already has never reaches create, one it
      has not never reaches unlink. */
  function Writes(fs: Fs, op: Op): seq<Write> {
    match op
    case Create(name, inode, hasBuffer) =>
      var n := FreeNumber(fs.cache);
      if name in fs.files || n == 0 then []
      else (if hasBuffer then [SlotWrite(n, inode)] else []) + [BitmapWrite(Mark(fs.cache, n), Created(n, inode, hasBuffer))]
    case Unlink(name) =>
      if name !in fs.files || fs.files[name] >= INODES_PER_BITMAP then []
      else [BitmapWrite(Unmark(fs.cache, fs.files[name]), Unlinked(fs.files[name]))]
  }

  function NewFiles(fs: Fs, op: Op): map<Name, nat> {
    if Writes(fs, op) == [] then fs.files
    else match op
      case Create(name, _, _) => fs.files[name := FreeNumber(fs.cache)]
      case Unlink(name) => fs.files - {name}
  }

  function NewCache(fs: Fs, op: Op): Block {
    var ws := Writes(fs, op);
    if ws == [] then fs.cache else ws[|ws| - 1].bitmap
  }

  function Step(fs: Fs, op: Op): Fs
    requires SlotSize(fs.slot) && Fits(fs, op)
  {
    var ws := Writes(fs, op);
    Fs(fs.slot, NewCache(fs, op), DiskAfter(fs.disk, fs.slot, ws), NewFiles(fs, op), fs.initial, fs.log + ws)
  }

  predicate AllOpsFit(fs: Fs, ops: seq<Op>) {
    forall k :: 0 <= k < |ops| ==> Fits(fs, ops[k])
  }

  function Run(fs: Fs, ops: seq<Op>): Fs
    requires SlotSize(fs.slot) && AllOpsFit(fs, ops)
    decreases |ops|
  {
    if ops == [] then fs else Run(Step(fs, ops[0]), ops[1..])
  }

  // ----- three-way agreement

  ghost predicate Injective(files: map<Name, nat>) {
    forall a, b :: a in files && b in files && files[a] == files[b] ==> a == b
  }

  /** In memory: the numbers in use are those the disk had at mount and, apart from them, one for each file; no two
      files share one, and no file has number 0. */
  ghost predicate Live(fs: Fs) {
    && Bits(fs.cache) == DiskBits(fs.initial) + fs.files.Values
    && DiskBits(fs.initial) !! fs.files.Values
    && 0 !in fs.files.Values
    && Injective(fs.files)
  }

  /** Memory and disk agree on the numbers in use. */
  ghost predicate Agreement(fs: Fs) {
    BlockAt(fs.disk, 1) == fs.cache && Live(fs)
  }

  lemma FreeIsFree(m: Block)
    requires FreeNumber(m) != 0
    ensures FreeNumber(m) < INODES_PER_BITMAP && FreeNumber(m) !in Bits(m)
  {
    FreeNumberExact(m, FreeNumber(m));
  }

  lemma BitmapSurvivesSlots(d: Disk, n: nat, S: nat, v: Bytes)
    requires SlotSize(S) && |v| == S
    ensures BlockAt(Save(d, n, S, v), 1) == BlockAt(d, 1)
  {
    SlotRoundTrip(d, n, n, S, v);
  }

  lemma LastBitmap(d: Disk, S: nat, log: seq<Write>)
    requires SlotSize(S) && AllFit(S, log) && log != [] && log[|log| - 1].BitmapWrite?
    ensures BlockAt(DiskAfter(d, S, log), 1) == log[|log| - 1].bitmap
  {
  }

  lemma WritesShape(fs: Fs, op: Op)
    requires Fits(fs, op)
    ensures AllFit(fs.slot, Writes(fs, op))
    ensures var ws := Writes(fs, op); ws != [] ==> ws[|ws| - 1].BitmapWrite? && NewCache(fs, op) == ws[|ws| - 1].bitmap
  {
  }

  /** One operation's effect on the disk: its slot write first, its bitmap write last. */
  lemma WritesCommitted(fs: Fs, op: Op)
    requires SlotSize(fs.slot) && Fits(fs, op)
    ensures AllFit(fs.slot, Writes(fs, op))
    ensures BlockAt(fs.disk, 1) == fs.cache ==> BlockAt(Step(fs, op).disk, 1) == NewCache(fs, op)
  {
    WritesShape(fs, op);
    var ws := Writes(fs, op);
    if ws != [] {
      LastBitmap(fs.disk, fs.slot, ws);
    }
  }

  lemma InsertValues(files: map<Name, nat>, name: Name, n: nat)
    requires name !in files
    ensures files[name := n].Values == files.Values + {n}
  {
    var files' := files[name := n];
    assert files'[name] == n;
    forall v | v in files.Values ensures v in files'.Values {
      var a :| a in files && files[a] == v;
      assert files'[a] == v;
    }
  }

  lemma RemoveValues(files: map<Name, nat>, name: Name)
    requires name in files && Injective(files)
    ensures (files - {name}).Values == files.Values - {files[name]}
  {
    var files' := files - {name};
    forall v | v in files.Values && v != files[name] ensures v in files'.Values {
      var a :| a in files && files[a] == v;
      assert files'[a] == v;
    }
    forall v | v in files'.Values ensures v in files.Values && v != files[name] {
      var a :| a in files' && files'[a] == v;
      assert a in files && a != name;
    }
  }

  lemma LiveCreate(fs: Fs, fs': Fs, name: Name, n: nat)
    requires Live(fs) && name !in fs.files && n != 0 && n !in Bits(fs.cache)
    requires fs'.initial == fs.initial && fs'.files == fs.files[name := n]
    requires Bits(fs'.cache) == Bits(fs.cache) + {n}
    ensures Live(fs')
  {
    InsertValues(fs.files, name, n);
    forall a | a in fs.files ensures fs.files[a] != n { assert fs.files[a] in fs.files.Values; }
  }

  lemma LiveUnlink(fs: Fs, fs': Fs, name: Name)
    requires Live(fs) && name in fs.files
    requires fs'.initial == fs.initial && fs'.files == fs.files - {name}
    requires Bits(fs'.cache) == Bits(fs.cache) - {fs.files[name]}
    ensures Live(fs')
  {
    RemoveValues(fs.files, name);
    assert fs.files[name] in fs.files.Values;
  }

  lemma LiveStep(fs: Fs, op: Op, fs': Fs)
    requires Live(fs) && fs'.initial == fs.initial && fs'.cache == NewCache(fs, op) && fs'.files == NewFiles(fs, op)
    ensures Live(fs')
  {
    if Writes(fs, op) != [] {
      match op
      case Create(name, _, _) =>
        var n := FreeNumber(fs.cache);
        FreeIsFree(fs.cache);
        MarkBits(fs.cache, n);
        LiveCreate(fs, fs', name, n);
      case Unlink(name) =>
        MarkBits(fs.cache, fs.files[name]);
        LiveUnlink(fs, fs', name);
    }
  }

  lemma AgreementStep(fs: Fs, op: Op)
    requires SlotSize(fs.slot) && Fits(fs, op) && Agreement(fs)
    ensures Agreement(Step(fs, op))
  {
    WritesCommitted(fs, op);
    LiveStep(fs, op, Step(fs, op));
  }

  /** From any mounted disk, after any history of creates and unlinks, buffer failures included: cache, disk and
      directory agree, and no two live files share a number. */
  lemma {:induction false} AgreementKept(fs: Fs, ops: seq<Op>)
    requires SlotSize(fs.slot) && AllOpsFit(fs, ops) && Agreement(fs)
    ensures Agreement(Run(fs, ops))
    decreases |ops|
  {
    if ops != [] {
      assert Fits(fs, ops[0]);
      AgreementStep(fs, ops[0]);
      AgreementKept(Step(fs, ops[0]), ops[1..]);
    }
  }

  lemma MountedAgrees(S: nat, d: Disk, ops: seq<Op>)
    requires SlotSize(S) && AllOpsFit(Mounted(S, d), ops)
    ensures Agreement(Run(Mounted(S, d), ops))
  {
    assert Mounted(S, d).files.Values == {};
    AgreementKept(Mounted(S, d), ops);
  }

  // ----- what each operation writes

  /** A create that succeeded: the name has the number, the bit is set in memory and in block 1, the inode's bytes are
      in the table if there was a buffer, nothing else on the disk has changed, and the slot was written first. */
  ghost predicate CreatedIn(fs: Fs, fs': Fs, name: Name, n: nat, inode: Bytes, hasBuffer: bool)
    requires |inode| == fs.slot
  {
    && fs'.files == fs.files[name := n]
    && Bits(fs'.cache) == Bits(fs.cache) + {n} && BlockAt(fs'.disk, 1) == fs'.cache
    && BlockAt(fs'.disk, 0) == BlockAt(fs.disk, 0)
    && Placed(fs.disk, fs'.disk, n * fs.slot, if hasBuffer then inode else [])
    && fs'.log == fs.log + (if hasBuffer then [SlotWrite(n, inode)] else []) + [BitmapWrite(fs'.cache, Created(n, inode, hasBuffer))]
  }

  lemma TableSurvivesBitmap(d: Disk, b: Block)
    ensures BlockAt(d[1 := b], 0) == BlockAt(d, 0) && BlockAt(d[1 := b], 1) == b
    ensures forall p: nat :: TableByte(d[1 := b], p) == TableByte(d, p)
  {
  }

  /** The disk after the two writes of a create. */
  lemma CreateEffect(fs: Fs, op: Op)
    requires SlotSize(fs.slot) && Fits(fs, op) && op.Create? && op.name !in fs.files && FreeNumber(fs.cache) != 0
    ensures var n := FreeNumber(fs.cache);
            var d := if op.hasBuffer then Save(fs.disk, n, fs.slot, op.inode) else fs.disk;
            Step(fs, op).disk == d[1 := Mark(fs.cache, n)]
  {
    var n := FreeNumber(fs.cache);
    var w := BitmapWrite(Mark(fs.cache, n), Created(n, op.inode, op.hasBuffer));
    if op.hasBuffer {
      var first := SlotWrite(n, op.inode);
      assert Writes(fs, op) == [first] + [w];
      DiskAfterConcat(fs.disk, fs.slot, [first], [w]);
      DiskAfterOne(fs.disk, fs.slot, first);
      DiskAfterOne(Save(fs.disk, n, fs.slot, op.inode), fs.slot, w);
    } else {
      assert Writes(fs, op) == [w];
      DiskAfterOne(fs.disk, fs.slot, w);
    }
  }

  lemma CreateStep(fs: Fs, op: Op)
    requires SlotSize(fs.slot) && Fits(fs, op) && op.Create? && op.name !in fs.files && FreeNumber(fs.cache) != 0
    ensures CreatedIn(fs, Step(fs, op), op.name, FreeNumber(fs.cache), op.inode, op.hasBuffer)
    ensures var n := FreeNumber(fs.cache);
            var d := if op.hasBuffer then Save(fs.disk, n, fs.slot, op.inode) else fs.disk;
            Step(fs, op).disk == d[1 := Mark(fs.cache, n)] && Step(fs, op).cache == Mark(fs.cache, n)
  {
    CreateEffect(fs, op);
    MarkBits(fs.cache, FreeNumber(fs.cache));
    CreatedBytes(fs.disk, FreeNumber(fs.cache), fs.slot, op.inode, op.hasBuffer, Mark(fs.cache, FreeNumber(fs.cache)));
  }

  lemma CreatedBytes(d: Disk, n: nat, S: nat, v: Bytes, hasBuffer: bool, b: Block)
    requires SlotSize(S) && |v| == S
    ensures var d' := (if hasBuffer then Save(d, n, S, v) else d)[1 := b];
            && BlockAt(d', 1) == b && BlockAt(d', 0) == BlockAt(d, 0)
            && Placed(d, d', n * S, if hasBuffer then v else [])
  {
    if hasBuffer {
      SaveBytes(d, n, S, v);
      TableSurvivesBitmap(Save(d, n, S, v), b);
    } else {
      TableSurvivesBitmap(d, b);
    }
  }

  /** An unlink writes block 1 and nothing else, once. */
  lemma UnlinkStep(fs: Fs, name: Name)
    requires SlotSize(fs.slot) && Agreement(fs) && name in fs.files
    ensures var n, fs' := fs.files[name], Step(fs, Unlink(name));
            && fs'.files == fs.files - {name} && Bits(fs'.cache) == Bits(fs.cache) - {n}
            && BlockAt(fs'.disk, 1) == fs'.cache && (forall b :: b != 1 ==> BlockAt(fs'.disk, b) == BlockAt(fs.disk, b))
            && fs'.log == fs.log + [BitmapWrite(fs'.cache, Unlinked(n))]
            && n < INODES_PER_BITMAP && fs'.cache == Unmark(fs.cache, n) && fs'.disk == fs.disk[1 := fs'.cache]
  {
    var n := fs.files[name];
    LiveIsMarked(fs, name);
    MarkBits(fs.cache, n);
    DiskAfterOne(fs.disk, fs.slot, BitmapWrite(Unmark(fs.cache, n), Unlinked(n)));
  }

  /** A create of a name that exists or without a free number, and an unlink of a name that does not, do nothing. */
  lemma RefusedStep(fs: Fs, op: Op)
    requires SlotSize(fs.slot) && Fits(fs, op)
    requires if op.Create? then op.name in fs.files || FreeNumber(fs.cache) == 0 else op.name !in fs.files
    ensures Step(fs, op) == fs
  {
    assert fs.log + [] == fs.log;
  }

  // ----- the block write as written

  /** The same step over the shipped sjfs_write_block, which takes the lock, gives it back and sends nothing. */
  function StepAsWritten(fs: Fs, op: Op): Fs {
    fs.(cache := NewCache(fs, op), files := NewFiles(fs, op))
  }

  function RunAsWritten(fs: Fs, ops: seq<Op>): Fs
    decreases |ops|
  {
    if ops == [] then fs else RunAsWritten(StepAsWritten(fs, ops[0]), ops[1..])
  }

  lemma {:induction false} LiveKeptAsWritten(fs: Fs, ops: seq<Op>)
    requires Live(fs)
    ensures var t := RunAsWritten(fs, ops); Live(t) && t.disk == fs.disk && t.initial == fs.initial
    decreases |ops|
  {
    if ops != [] {
      LiveStep(fs, ops[0], StepAsWritten(fs, ops[0]));
      LiveKeptAsWritten(StepAsWritten(fs, ops[0]), ops[1..]);
    }
  }

  /** As written, after any history the disk is the mounted one, and the cache agrees with it exactly if no file is
      left; for any inode size. */
  lemma StubNeverWrites(S: nat, d: Disk, ops: seq<Op>)
    ensures var t := RunAsWritten(Mounted(S, d), ops);
            t.disk == d && (Bits(t.cache) == DiskBits(t.disk) <==> t.files == map[])
  {
    assert Mounted(S, d).files.Values == {};
    LiveKeptAsWritten(Mounted(S, d), ops);
    var t := RunAsWritten(Mounted(S, d), ops);
    if t.files != map[] {
      var name :| name in t.files;
      assert t.files[name] in t.files.Values;
    } else {
      assert t.files.Values == {};
    }
  }

  /** In memory nothing tells the two apart: cache and directory are those of the documented write. */
  lemma {:induction false} StubLooksTheSame(fs: Fs, stub: Fs, ops: seq<Op>)
    requires SlotSize(fs.slot) && AllOpsFit(fs, ops) && stub.cache == fs.cache && stub.files == fs.files
    ensures RunAsWritten(stub, ops).cache == Run(fs, ops).cache && RunAsWritten(stub, ops).files == Run(fs, ops).files
    decreases |ops|
  {
    if ops != [] {
      assert Fits(fs, ops[0]);
      StubLooksTheSame(Step(fs, ops[0]), StepAsWritten(stub, ops[0]), ops[1..]);
    }
  }

  // ----- population

  lemma MarkedPopulation(m: Block, n: nat)
    requires n < INODES_PER_BITMAP
    ensures n !in Bits(m) ==> |Bits(Mark(m, n))| == |Bits(m)| + 1
    ensures n in Bits(m) ==> |Bits(Unmark(m, n))| == |Bits(m)| - 1
  {
    MarkBits(m, n);
  }

  /** Population: one more per successful create, one fewer per successful unlink, else unchanged; a create of a
      new name fails exactly when the search finds nothing. */
  lemma Population(fs: Fs, op: Op)
    requires SlotSize(fs.slot) && Fits(fs, op) && Agreement(fs)
    ensures |DiskBits(Step(fs, op).disk)| == |DiskBits(fs.disk)| +
            match op
            case Create(name, _, _) => if name !in fs.files && FreeNumber(fs.cache) != 0 then 1 else 0
            case Unlink(name) => if name in fs.files then -1 else 0
  {
    WritesCommitted(fs, op);
    assert DiskBits(Step(fs, op).disk) == Bits(NewCache(fs, op)) && DiskBits(fs.disk) == Bits(fs.cache);
    match op
    case Create(name, _, _) =>
      if FreeNumber(fs.cache) != 0 {
        FreeIsFree(fs.cache);
        MarkedPopulation(fs.cache, FreeNumber(fs.cache));
      }
    case Unlink(name) =>
      if name in fs.files {
        LiveIsMarked(fs, name);
        MarkedPopulation(fs.cache, fs.files[name]);
      }
  }

  lemma LiveIsMarked(fs: Fs, name: Name)
    requires Agreement(fs) && name in fs.files
    ensures fs.files[name] in Bits(fs.cache) && 0 < fs.files[name] < INODES_PER_BITMAP
  {
    assert fs.files[name] in fs.files.Values;
  }

  // ----- crash consistency

  /** The last create or unlink in this log that was about n. */
  function Setter(log: seq<Write>, n: nat): Option<Cause> {
    if log == [] then None
    else
      var last := log[|log| - 1];
      if last.BitmapWrite? && last.cause.ino == n then Some(last.cause) else Setter(log[..|log| - 1], n)
  }

  /** live and slot are the set bits and the slot of n on a disk, live0 and slot0 those of the mounted disk. */
  predicate BackedBy(live: set<nat>, live0: set<nat>, slot: Bytes, slot0: Bytes, setter: Option<Cause>, n: nat) {
    match setter
    case None => (n in live <==> n in live0) && (n in live ==> slot == slot0)
    case Some(Unlinked(_)) => n !in live
    case Some(Created(_, inode, hasSlot)) => n in live && (hasSlot ==> slot == inode)
  }

  ghost predicate Backed(initial: Disk, d: Disk, S: nat, setter: Option<Cause>, n: nat)
    requires SlotSize(S)
  {
    BackedBy(DiskBits(d), DiskBits(initial), Load(d, n, S), Load(initial, n, S), setter, n)
  }

  /** Every bit set on this disk except the root's is backed: its slot holds the inode of the very create that set
      the bit, if that one had a buffer to write it with, or the bit and the slot are still those of the mounted
      disk. Conversely a set-and-kept bit shows, and a cleared one does not. */
  ghost predicate Durable(initial: Disk, S: nat, log: seq<Write>)
    requires SlotSize(S) && AllFit(S, log)
  {
    forall n :: 0 < n < INODES_PER_BITMAP ==> Backed(initial, DiskAfter(initial, S, log), S, Setter(log, n), n)
  }

  /** The discipline of the write order: a slot is written while its bit is clear, its bit is set by the very next
      write, and every bitmap write changes just the bit it is about. */
  ghost predicate Admits(d: Disk, before: seq<Write>, w: Write) {
    match w
    case SlotWrite(n, _) => n !in DiskBits(d)
    case BitmapWrite(b, Created(n, inode, hasSlot)) =>
      && (hasSlot ==> before != [] && before[|before| - 1] == SlotWrite(n, inode))
      && Bits(b) == DiskBits(d) + {n}
    case BitmapWrite(b, Unlinked(n)) => Bits(b) == DiskBits(d) - {n}
  }

  ghost predicate Orderly(initial: Disk, S: nat, log: seq<Write>)
    requires SlotSize(S)
  {
    AllFit(S, log) &&
    (log == [] ||
      var before := log[..|log| - 1];
      Orderly(initial, S, before) && Admits(DiskAfter(initial, S, before), before, log[|log| - 1]))
  }

  lemma OrderlyAppend(initial: Disk, S: nat, log: seq<Write>, w: Write)
    requires SlotSize(S) && Orderly(initial, S, log) && FitsSlot(S, w) && Admits(DiskAfter(initial, S, log), log, w)
    ensures Orderly(initial, S, log + [w])
    ensures DiskAfter(initial, S, log + [w]) == Commit(DiskAfter(initial, S, log), S, w)
  {
    assert (log + [w])[..|log|] == log;
  }

  lemma SlotsSurviveBitmap(d: Disk, b: Block, n: nat, S: nat)
    requires SlotSize(S)
    ensures Load(d[1 := b], n, S) == Load(d, n, S)
  {
  }

  /** A bitmap write about m, seen from n. */
  lemma BackedAfterBitmap(live: set<nat>, live': set<nat>, live0: set<nat>, slot: Bytes, slot0: Bytes,
                          before: Option<Cause>, cause: Cause, n: nat)
    requires BackedBy(live, live0, slot, slot0, before, n)
    requires live' == if cause.Created? then live + {cause.ino} else live - {cause.ino}
    requires cause.ino == n && cause.Created? && cause.hasSlot ==> slot == cause.inode
    ensures BackedBy(live', live0, slot, slot0, if cause.ino == n then Some(cause) else before, n)
  {
  }

  /** A slot write about m, whose bit is clear, seen from n. */
  lemma BackedAfterSlot(live: set<nat>, live0: set<nat>, slot: Bytes, slot': Bytes, slot0: Bytes,
                        setter: Option<Cause>, m: nat, n: nat)
    requires BackedBy(live, live0, slot, slot0, setter, n)
    requires m !in live && (n != m ==> slot' == slot)
    ensures BackedBy(live, live0, slot', slot0, setter, n)
  {
  }

  lemma SetterStep(log: seq<Write>, w: Write, n: nat)
    ensures Setter(log + [w], n) ==
            if w.BitmapWrite? && w.cause.ino == n then Some(w.cause) else Setter(log, n)
  {
    assert (log + [w])[..|log|] == log;
  }

  lemma SlotWriteBacks(initial: Disk, d: Disk, S: nat, setter: Option<Cause>, m: nat, v: Bytes, n: nat)
    requires SlotSize(S) && |v| == S && m !in DiskBits(d) && Backed(initial, d, S, setter, n)
    ensures Backed(initial, Save(d, m, S, v), S, setter, n)
  {
    BitmapSurvivesSlots(d, m, S, v);
    SlotRoundTrip(d, m, n, S, v);
    BackedAfterSlot(DiskBits(d), DiskBits(initial), Load(d, n, S), Load(Save(d, m, S, v), n, S), Load(initial, n, S), setter, m, n);
  }

  lemma BitmapWriteBacks(initial: Disk, d: Disk, S: nat, setter: Option<Cause>, b: Block, cause: Cause, n: nat)
    requires SlotSize(S) && Backed(initial, d, S, setter, n)
    requires Bits(b) == if cause.Created? then DiskBits(d) + {cause.ino} else DiskBits(d) - {cause.ino}
    requires cause.ino == n && cause.Created? && cause.hasSlot ==> Load(d, n, S) == cause.inode
    ensures Backed(initial, d[1 := b], S, if cause.ino == n then Some(cause) else setter, n)
  {
    SlotsSurviveBitmap(d, b, n, S);
    BackedAfterBitmap(DiskBits(d), Bits(b), DiskBits(initial), Load(d, n, S), Load(initial, n, S), setter, cause, n);
  }

  lemma BackedStep(initial: Disk, S: nat, log: seq<Write>, w: Write, n: nat)
    requires SlotSize(S) && Orderly(initial, S, log) && FitsSlot(S, w) && 0 < n < INODES_PER_BITMAP
    requires Admits(DiskAfter(initial, S, log), log, w)
    requires Backed(initial, DiskAfter(initial, S, log), S, Setter(log, n), n)
    ensures Backed(initial, Commit(DiskAfter(initial, S, log), S, w), S, Setter(log + [w], n), n)
  {
    SetterStep(log, w, n);
    match w
    case SlotWrite(m, v) => SlotWriteBacks(initial, DiskAfter(initial, S, log), S, Setter(log, n), m, v, n);
    case BitmapWrite(b, cause) =>
      if cause.Created? && cause.hasSlot {
        JustWritten(initial, S, log, cause.ino, cause.inode);
      }
      BitmapWriteBacks(initial, DiskAfter(initial, S, log), S, Setter(log, n), b, cause, n);
  }

  lemma JustWritten(initial: Disk, S: nat, log: seq<Write>, n: nat, v: Bytes)
    requires SlotSize(S) && AllFit(S, log) && log != [] && log[|log| - 1] == SlotWrite(n, v)
    ensures |v| == S && Load(DiskAfter(initial, S, log), n, S) == v
  {
    assert FitsSlot(S, log[|log| - 1]);
    SlotRoundTrip(DiskAfter(initial, S, log[..|log| - 1]), n, n, S, v);
  }

  lemma OrderlyLast(initial: Disk, S: nat, log: seq<Write>)
    requires SlotSize(S) && Orderly(initial, S, log) && log != []
    ensures var before, last := log[..|log| - 1], log[|log| - 1];
            && Orderly(initial, S, before) && FitsSlot(S, last) && Admits(DiskAfter(initial, S, before), before, last)
            && DiskAfter(initial, S, log) == Commit(DiskAfter(initial, S, before), S, last)
  {
  }

  lemma {:induction false} OrderlyBacks(initial: Disk, S: nat, log: seq<Write>, n: nat)
    requires SlotSize(S) && Orderly(initial, S, log) && 0 < n < INODES_PER_BITMAP
    ensures Backed(initial, DiskAfter(initial, S, log), S, Setter(log, n), n)
    decreases |log|
  {
    if log != [] {
      var before, last := log[..|log| - 1], log[|log| - 1];
      assert before + [last] == log;
      OrderlyLast(initial, S, log);
      OrderlyBacks(initial, S, before, n);
      BackedStep(initial, S, before, last, n);
    } else {
      assert Setter(log, n) == None && DiskAfter(initial, S, log) == initial;
    }
  }

  /** An orderly log leaves a durable disk. */
  lemma OrderlyIsDurable(initial: Disk, S: nat, log: seq<Write>)
    requires SlotSize(S) && Orderly(initial, S, log)
    ensures Durable(initial, S, log)
  {
    forall n | 0 < n < INODES_PER_BITMAP ensures Backed(initial, DiskAfter(initial, S, log), S, Setter(log, n), n) {
      OrderlyBacks(initial, S, log, n);
    }
  }

  lemma {:induction false} DiskAfterConcat(d: Disk, S: nat, log: seq<Write>, more: seq<Write>)
    requires SlotSize(S) && AllFit(S, log) && AllFit(S, more)
    ensures AllFit(S, log + more)
    ensures DiskAfter(d, S, log + more) == DiskAfter(DiskAfter(d, S, log), S, more)
    decreases |more|
  {
    if more == [] {
      assert log + more == log;
    } else {
      var k := |more| - 1;
      DiskAfterConcat(d, S, log, more[..k]);
      assert (log + more)[..|log| + k] == log + more[..k];
    }
  }

  lemma DiskAfterOne(d: Disk, S: nat, w: Write)
    requires SlotSize(S) && FitsSlot(S, w)
    ensures DiskAfter(d, S, [w]) == Commit(d, S, w)
  {
    assert [w][..0] == [];
  }

  ghost predicate Chronicle(fs: Fs) {
    && SlotSize(fs.slot) && Agreement(fs)
    && Orderly(fs.initial, fs.slot, fs.log)
    && fs.disk == DiskAfter(fs.initial, fs.slot, fs.log)
  }

  lemma OrderlyCreate(fs: Fs, b: Block, n: nat, v: Bytes)
    requires Chronicle(fs) && |v| == fs.slot && n !in DiskBits(fs.disk) && Bits(b) == DiskBits(fs.disk) + {n}
    ensures Orderly(fs.initial, fs.slot, fs.log + [SlotWrite(n, v), BitmapWrite(b, Created(n, v, true))])
  {
    var first, second := SlotWrite(n, v), BitmapWrite(b, Created(n, v, true));
    OrderlyAppend(fs.initial, fs.slot, fs.log, first);
    BitmapSurvivesSlots(fs.disk, n, fs.slot, v);
    OrderlyAppend(fs.initial, fs.slot, fs.log + [first], second);
    assert fs.log + [first] + [second] == fs.log + [first, second];
  }

  lemma OrderlyStep(fs: Fs, op: Op)
    requires Chronicle(fs) && Fits(fs, op)
    ensures Orderly(fs.initial, fs.slot, fs.log + Writes(fs, op))
  {
    var ws := Writes(fs, op);
    if ws == [] {
      assert fs.log + ws == fs.log;
    } else if op.Create? {
      OrderlyCreateOp(fs, op);
    } else {
      var n := fs.files[op.name];
      MarkBits(fs.cache, n);
      OrderlyAppend(fs.initial, fs.slot, fs.log, BitmapWrite(Unmark(fs.cache, n), Unlinked(n)));
    }
  }

  lemma OrderlyCreateOp(fs: Fs, op: Op)
    requires Chronicle(fs) && Fits(fs, op) && op.Create? && Writes(fs, op) != []
    ensures Orderly(fs.initial, fs.slot, fs.log + Writes(fs, op))
  {
    var n := FreeNumber(fs.cache);
    var b := Mark(fs.cache, n);
    FreeIsFree(fs.cache);
    MarkBits(fs.cache, n);
    assert DiskBits(fs.disk) == Bits(fs.cache);
    if op.hasBuffer {
      assert Writes(fs, op) == [SlotWrite(n, op.inode), BitmapWrite(b, Created(n, op.inode, true))];
      OrderlyCreate(fs, b, n, op.inode);
    } else {
      assert Writes(fs, op) == [BitmapWrite(b, Created(n, op.inode, false))];
      OrderlyAppend(fs.initial, fs.slot, fs.log, BitmapWrite(b, Created(n, op.inode, false)));
    }
  }

  lemma ChronicleStep(fs: Fs, op: Op)
    requires Chronicle(fs) && Fits(fs, op)
    ensures Chronicle(Step(fs, op))
  {
    AgreementStep(fs, op);
    WritesCommitted(fs, op);
    OrderlyStep(fs, op);
    DiskAfterConcat(fs.initial, fs.slot, fs.log, Writes(fs, op));
  }

  lemma {:induction false} ChronicleKept(fs: Fs, ops: seq<Op>)
    requires Chronicle(fs) && AllOpsFit(fs, ops)
    ensures Chronicle(Run(fs, ops)) && Run(fs, ops).initial == fs.initial && Run(fs, ops).slot == fs.slot
    decreases |ops|
  {
    if ops != [] {
      assert Fits(fs, ops[0]);
      ChronicleStep(fs, ops[0]);
      ChronicleKept(Step(fs, ops[0]), ops[1..]);
    }
  }

  lemma {:induction false} OrderlyPrefix(initial: Disk, S: nat, log: seq<Write>, k: nat)
    requires SlotSize(S) && Orderly(initial, S, log) && k <= |log|
    ensures Orderly(initial, S, log[..k])
    decreases |log|
  {
    if k == |log| {
      assert log[..k] == log;
    } else {
      OrderlyPrefix(initial, S, log[..|log| - 1], k);
      assert log[..|log| - 1][..k] == log[..k];
    }
  }

  // ----- what no history touches

  /** Slot writes are for numbers a create can give out. */
  predicate InTable(log: seq<Write>) {
    forall k :: 0 <= k < |log| && log[k].SlotWrite? ==> 0 < log[k].ino < INODES_PER_BITMAP
  }

  lemma InTableStep(fs: Fs, op: Op)
    requires SlotSize(fs.slot) && Fits(fs, op) && InTable(fs.log)
    ensures InTable(Step(fs, op).log)
  {
    if FreeNumber(fs.cache) != 0 {
      FreeIsFree(fs.cache);
    }
    assert InTable(Writes(fs, op));
  }

  lemma {:induction false} InTableKept(fs: Fs, ops: seq<Op>)
    requires Chronicle(fs) && AllOpsFit(fs, ops) && InTable(fs.log)
    ensures InTable(Run(fs, ops).log)
    decreases |ops|
  {
    if ops != [] {
      assert Fits(fs, ops[0]);
      InTableStep(fs, ops[0]);
      ChronicleStep(fs, ops[0]);
      InTableKept(Step(fs, ops[0]), ops[1..]);
    }
  }

  /** Byte off of block b is outside block 1 and outside the slots 1 to 8191. */
  predicate Outside(S: nat, b: nat, off: nat) {
    b != 1 && off < 1024 && (b >= 2 ==> !(S <= (b - 2) * 1024 + off < 8192 * S))
  }

  lemma OutsideSlot(d: Disk, S: nat, n: nat, v: Bytes, b: nat, off: nat)
    requires SlotSize(S) && |v| == S && 0 < n < INODES_PER_BITMAP && Outside(S, b, off)
    ensures BlockAt(Save(d, n, S, v), b)[off] == BlockAt(d, b)[off]
  {
    SaveBytes(d, n, S, v);
    if b >= 2 {
      var p := (b - 2) * 1024 + off;
      assert 2 + p / 1024 == b && p % 1024 == off;
      Arith.MulMono(1, n, S, S);
      Arith.MulMono(n + 1, 8192, S, S);
      assert (n + 1) * S == n * S + S;
      assert TableByte(Save(d, n, S, v), p) == TableByte(d, p);
    }
  }

  lemma {:induction false} OutsideLog(d: Disk, S: nat, log: seq<Write>, b: nat, off: nat)
    requires SlotSize(S) && AllFit(S, log) && InTable(log) && Outside(S, b, off)
    ensures BlockAt(DiskAfter(d, S, log), b)[off] == BlockAt(d, b)[off]
    decreases |log|
  {
    if log != [] {
      var before, last := log[..|log| - 1], log[|log| - 1];
      OutsideLog(d, S, before, b, off);
      if last.SlotWrite? {
        assert FitsSlot(S, last);
        OutsideSlot(DiskAfter(d, S, before), S, last.ino, last.inode, b, off);
      }
    }
  }

  /** The disk is what its log of block writes makes of the mounted one. */
  lemma LogIsTheDisk(S: nat, d: Disk, ops: seq<Op>)
    requires SlotSize(S) && AllOpsFit(Mounted(S, d), ops)
    ensures var t := Run(Mounted(S, d), ops); AllFit(S, t.log) && InTable(t.log) && t.disk == DiskAfter(d, S, t.log)
  {
    var fs := Mounted(S, d);
    assert fs.files.Values == {};
    ChronicleKept(fs, ops);
    InTableKept(fs, ops);
  }

  /** Cut any history after any block write: on the disk nothing has changed outside block 1 and the table bytes of
      the numbers 1 to 8191. So the root's slot, the superblock and everything behind the table are as mounted. */
  lemma NothingElseChanges(S: nat, d: Disk, ops: seq<Op>, k: nat, b: nat, off: nat)
    requires SlotSize(S) && AllOpsFit(Mounted(S, d), ops) && k <= |Run(Mounted(S, d), ops).log|
    requires Outside(S, b, off)
    ensures AllFit(S, Run(Mounted(S, d), ops).log[..k])
    ensures BlockAt(DiskAfter(d, S, Run(Mounted(S, d), ops).log[..k]), b)[off] == BlockAt(d, b)[off]
  {
    var log := Run(Mounted(S, d), ops).log;
    LogIsTheDisk(S, d, ops);
    assert AllFit(S, log[..k]) && InTable(log[..k]);
    OutsideLog(d, S, log[..k], b, off);
  }

  /** Crash consistency: cut any history of creates and unlinks over any mounted disk after any block write, and
      the disk is durable: every non-root bit whose create had its buffer names a slot that create wrote. */
  lemma CrashConsistent(S: nat, d: Disk, ops: seq<Op>, k: nat)
    requires SlotSize(S) && AllOpsFit(Mounted(S, d), ops)
    requires k <= |Run(Mounted(S, d), ops).log|
    ensures AllFit(S, Run(Mounted(S, d), ops).log[..k])
    ensures Durable(d, S, Run(Mounted(S, d), ops).log[..k])
  {
    var fs := Mounted(S, d);
    assert fs.files.Values == {};
    ChronicleKept(fs, ops);
    OrderlyPrefix(d, S, Run(fs, ops).log, k);
    OrderlyIsDurable(d, S, Run(fs, ops).log[..k]);
  }

  /** Writing just the bitmap block for n leaves every other number as backed as it was. */
  lemma OthersStayBacked(fs: Fs, w: Write, n: nat, m: nat)
    requires Chronicle(fs) && 0 < m < INODES_PER_BITMAP && w.BitmapWrite? && w.cause.Created? && w.cause.ino == n
    requires Bits(w.bitmap) == DiskBits(fs.disk) + {n}
    ensures Load(fs.disk[1 := w.bitmap], m, fs.slot) == Load(fs.disk, m, fs.slot)
    ensures m != n ==> Backed(fs.initial, fs.disk[1 := w.bitmap], fs.slot, Setter(fs.log + [w], m), m)
  {
    SlotsSurviveBitmap(fs.disk, w.bitmap, m, fs.slot);
    OrderlyBacks(fs.initial, fs.slot, fs.log, m);
    SetterStep(fs.log, w, m);
    if m != n {
      BitmapWriteBacks(fs.initial, fs.disk, fs.slot, Setter(fs.log, m), w.bitmap, w.cause, m);
    }
  }

  /** The order is what does it. Swap the two writes of a create and cut between them: the disk is durable exactly
      if the slot held the right bytes by chance. */
  lemma BitWithoutSlot(fs: Fs, n: nat, v: Bytes)
    requires Chronicle(fs) && |v| == fs.slot && 0 < n < INODES_PER_BITMAP && n !in Bits(fs.cache)
    ensures var log := fs.log + [BitmapWrite(Mark(fs.cache, n), Created(n, v, true))];
            AllFit(fs.slot, log) && (Durable(fs.initial, fs.slot, log) <==> Load(fs.disk, n, fs.slot) == v)
  {
    var w := BitmapWrite(Mark(fs.cache, n), Created(n, v, true));
    var log := fs.log + [w];
    MarkBits(fs.cache, n);
    DiskAfterConcat(fs.initial, fs.slot, fs.log, [w]);
    var d := fs.disk[1 := w.bitmap];
    DiskAfterOne(fs.disk, fs.slot, w);
    forall m | 0 < m < INODES_PER_BITMAP
      ensures m != n ==> Backed(fs.initial, d, fs.slot, Setter(log, m), m)
      ensures Load(d, m, fs.slot) == Load(fs.disk, m, fs.slot)
    {
      OthersStayBacked(fs, w, n, m);
    }
    assert Backed(fs.initial, d, fs.slot, Setter(log, n), n) <==> Load(fs.disk, n, fs.slot) == v;
  }

  /** A create without its slot buffer sets the bit over whatever the slot held: that bit is backed exactly if these
      were the right bytes by chance, and everything else stays durable. */
  lemma UnbufferedCreate(fs: Fs, name: Name, v: Bytes)
    requires Chronicle(fs) && |v| == fs.slot && name !in fs.files && FreeNumber(fs.cache) != 0
    ensures var fs' := Step(fs, Create(name, v, false));
            var n := FreeNumber(fs.cache);
            && AllFit(fs.slot, fs'.log) && Durable(fs.initial, fs.slot, fs'.log)
            && n !in DiskBits(fs.disk) && n in DiskBits(fs'.disk)
            && (Load(fs'.disk, n, fs.slot) == v <==> Load(fs.disk, n, fs.slot) == v)
  {
    var op := Create(name, v, false);
    var n := FreeNumber(fs.cache);
    var w := BitmapWrite(Mark(fs.cache, n), Created(n, v, false));
    ChronicleStep(fs, op);
    OrderlyIsDurable(fs.initial, fs.slot, Step(fs, op).log);
    FreeIsFree(fs.cache);
    MarkBits(fs.cache, n);
    assert Writes(fs, op) == [w];
    DiskAfterOne(fs.disk, fs.slot, w);
    SlotsSurviveBitmap(fs.disk, w.bitmap, n, fs.slot);
  }
}
