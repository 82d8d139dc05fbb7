/** Whole runs of read, write and delete: every legal run of the driver is a run of the abstract map. */
module Runs {
  import opened Bytes
  import opened Layout
  import opened Chains
  import opened Store
  import opened Invariant
  import opened Safety
  import opened Refinement
  import opened Counting

  // ----- the abstract operations -----

  /** The key of the first entry of a table: its own name without an extension. */
  predicate IsSelf(a: Abstract, r: Request)
    requires r.parent in a.names
  {
    r.name == a.names[r.parent] && r.ext == NO_EXT
  }

  function AbsReadCode(a: Abstract, r: Request): int
    requires r.parent in a.names
  {
    if IsSelf(a, r) then 1
    else if KeyIn(r) !in a.items then 3
    else match a.items[KeyIn(r)]
      case Directory(_) => 1
      case File(bytes) => if r.size < |bytes| then 2 else 0
  }

  ghost function AbsWriteCode(a: Abstract, r: Request): int
    requires r.parent in a.names
  {
    if IsSelf(a, r) || KeyIn(r) in a.items then 1
    else if Used(a.items) + Blocks(r.size) + 3 > CLUSTER_MAP_SIZE then -1
    else 0
  }

  ghost function AbsDeleteCode(a: Abstract, r: Request): int
    requires r.parent in a.names
  {
    if IsSelf(a, r) then 2
    else if KeyIn(r) !in a.items then 1
    else match a.items[KeyIn(r)]
      case Directory(c) => if KeysIn(a, c) != {} then 2 else 0
      case File(_) => 0
  }

  datatype Op = Read(r: Request) | Write(r: Request, data: seq<byte>) | Delete(r: Request)

  datatype Out = Out(code: int, data: seq<byte>)

  /**
   What a caller has to respect, all of it visible in the map: a live directory, a key that is
   not blank, room for a write that would go through, no delete of the empty root itself.
   */
  ghost predicate Legal(a: Abstract, op: Op)
  {
    op.r.parent in a.names && !BlankKey(op.r) &&
    match op
    case Read(_) => true
    case Write(r, data) =>
      r.size < 0x8000_0000 && |data| >= ClusterCount(r.size) * CLUSTER_SIZE &&
      (AbsWriteCode(a, r) == 0 ==>
         |KeysIn(a, r.parent)| < ENTRIES - 1 && Used(a.items) + 3 < CLUSTER_MAP_SIZE)
    case Delete(r) => !(IsSelf(a, r) && r.parent == ROOT && KeysIn(a, ROOT) == {})
  }

  /** One step of the map. A new directory gets some cluster number that no directory has. */
  ghost predicate AbsNext(a: Abstract, op: Op, a': Abstract, out: Out)
    requires Legal(a, op)
  {
    match op
    case Read(r) =>
      a' == a && out.code == AbsReadCode(a, r) &&
      (out.code == 0 ==> a.items[KeyIn(r)].bytes <= out.data)
    case Write(r, data) =>
      out.code == AbsWriteCode(a, r) &&
      (out.code != 0 ==> a' == a) &&
      (out.code == 0 && r.size != 0 ==> a' == AfterWrite(a, r, File(data[..r.size]))) &&
      (out.code == 0 && r.size == 0 ==>
         exists c :: ROOT < c < CLUSTER_MAP_SIZE && c !in a.names && a' == AfterWrite(a, r, Directory(c)))
    case Delete(r) =>
      out.code == AbsDeleteCode(a, r) &&
      (out.code != 0 ==> a' == a) &&
      (out.code == 0 ==> a' == AfterDelete(a, KeyIn(r)))
  }

  // ----- the concrete step -----

  function StepOut(fs: Fs, op: Op): Out
  {
    match op
    case Read(r) => Out(ReadCode(fs, r), if ReadCode(fs, r) == 0 then ReadData(fs, r) else [])
    case Write(r, _) => Out(WriteCode(fs, r), [])
    case Delete(r) => Out(DeleteCode(fs, r), [])
  }

  function StepFs(fs: Fs, op: Op): Fs
    requires op.Write? ==> |op.data| >= ClusterCount(op.r.size) * CLUSTER_SIZE
  {
    match op
    case Read(_) => fs
    case Write(r, data) => Store.Write(fs, r, data)
    case Delete(r) => Store.Delete(fs, r)
  }

  /** The store is in order and stands for the map. */
  ghost predicate StandsFor(fs: Fs, a: Abstract)
  {
    exists g :: Inv(fs, g) && Represents(fs, g, a)
  }

  // ----- lookups -----

  /** What a lookup in a live directory finds, told by the map. */
  lemma LookupFromMap(fs: Fs, g: Shape, a: Abstract, r: Request)
    requires Inv(fs, g) && Represents(fs, g, a) && r.parent in g.depth
    requires !BlankKey(r)
    ensures r.parent in a.names && Slot(fs, r.parent, 0).IsDir()
    ensures IsSelf(a, r) <==> DeletedSlot(fs, r) == 0
    ensures DeletedSlot(fs, r) == ENTRIES <==> !IsSelf(a, r) && KeyIn(r) !in a.items
    ensures 0 < DeletedSlot(fs, r) < ENTRIES ==>
              KeyIn(r) in a.items && a.items[KeyIn(r)] == ItemOf(fs, Slot(fs, r.parent, DeletedSlot(fs, r)))
  {
    hide DecodeTable, FatInv, TreeInv, DiskInv, Find, ItemOf, HasHead, Listed;
    OwnEntry(fs, g, r.parent);
    if 0 < DeletedSlot(fs, r) < ENTRIES {
      FoundIsListed(fs, g, a, r);
    }
    KeyHasSlot(fs, g, a, r);
  }

  lemma OwnEntry(fs: Fs, g: Shape, d: nat)
    requires TreeInv(fs, g) && d in g.depth
    ensures d < CLUSTER_MAP_SIZE && Slot(fs, d, 0).IsDir() && Slot(fs, d, 0).ext == NO_EXT
  {
    assert DirOk(fs, g, d);
  }

  lemma FoundIsListed(fs: Fs, g: Shape, a: Abstract, r: Request)
    requires TreeInv(fs, g) && Represents(fs, g, a) && r.parent in g.depth && !BlankKey(r)
    requires 0 < DeletedSlot(fs, r) < ENTRIES
    ensures KeyIn(r) in a.items && a.items[KeyIn(r)] == ItemOf(fs, Slot(fs, r.parent, DeletedSlot(fs, r)))
  {
    hide DecodeTable, TreeInv, Find, ItemOf, HasHead, SlotOk;
    FoundIsLive(fs, g, r);
    assert Listed(fs, g, a, Slot(fs, r.parent, DeletedSlot(fs, r)).Cluster());
  }

  /** A key of the map is found by some entry past the first. */
  lemma KeyHasSlot(fs: Fs, g: Shape, a: Abstract, r: Request)
    requires TreeInv(fs, g) && Represents(fs, g, a)
    ensures KeyIn(r) in a.items ==> DeletedSlot(fs, r) < ENTRIES
  {
    hide DecodeTable, TreeInv, ItemOf, Listed;
    if KeyIn(r) in a.items {
      assert HasHead(fs, g, KeyIn(r));
      var h :| h in g.home && g.home[h].dir < CLUSTER_MAP_SIZE && g.home[h].slot < ENTRIES &&
          KeyOf(fs, g, h) == KeyIn(r);
      assert Slot(fs, r.parent, g.home[h].slot).Matches(r.name, r.ext);
    }
  }

  // ----- result codes -----

  lemma ReadAgrees(fs: Fs, g: Shape, a: Abstract, r: Request)
    requires Inv(fs, g) && Represents(fs, g, a) && Legal(a, Read(r))
    ensures ReadCode(fs, r) == AbsReadCode(a, r)
    ensures ReadCode(fs, r) == 0 ==> a.items[KeyIn(r)].bytes <= ReadData(fs, r)
  {
    hide DecodeTable, FatInv, DiskInv, ChainOf, Stored, SlotOk, DistinctKeys, TreeInv, Find, HasHead;
    var i := DeletedSlot(fs, r);
    LookupFromMap(fs, g, a, r);
    if 0 < i < ENTRIES {
      FoundIsLive(fs, g, r);
      ChainIsBlocks(fs, g, Slot(fs, r.parent, i).Cluster());
    }
    hide Represents;
  }

  lemma WriteAgrees(fs: Fs, g: Shape, a: Abstract, r: Request, data: seq<byte>)
    requires Inv(fs, g) && Represents(fs, g, a) && Legal(a, Op.Write(r, data))
    ensures WriteCode(fs, r) == AbsWriteCode(a, r)
    ensures WriteCode(fs, r) == 0 ==> WriteReady(fs, g, r, data)
  {
    hide DecodeTable, FatInv, DiskInv, ChainOf, Stored, SlotOk, DistinctKeys, TreeInv, Find, HasHead, FreeUpTo,
         KeysIn, Used, FreeSlot, ClusterCount;
    LookupFromMap(fs, g, a, r);
    FreeFromMap(fs, g, a);
    RoomFromMap(fs, g, a, r.parent);
    CountIsBlocks(r.size);
    hide Represents;
  }

  lemma DeleteAgrees(fs: Fs, g: Shape, a: Abstract, r: Request)
    requires Inv(fs, g) && Represents(fs, g, a) && Legal(a, Op.Delete(r))
    ensures DeleteCode(fs, r) == AbsDeleteCode(a, r)
    ensures DeleteCode(fs, r) == 0 ==> DeleteReady(fs, g, r)
  {
    hide DecodeTable, FatInv, DiskInv, ChainOf, Stored, SlotOk, DistinctKeys, TreeInv, Find, HasHead, HasLiveChild,
         KeysIn;
    var i := DeletedSlot(fs, r);
    LookupFromMap(fs, g, a, r);
    if i == 0 {
      SelfIsParentOfSomething(fs, g, a, r);
    } else if i < ENTRIES {
      FoundIsLive(fs, g, r);
      var e := Slot(fs, r.parent, i);
      if e.IsDir() {
        KeysAreSlots(fs, g, a, e.Cluster());
      }
    }
    hide Represents;
  }

  /** The first entry of a directory names a directory with an entry in use, the empty root aside. */
  lemma SelfIsParentOfSomething(fs: Fs, g: Shape, a: Abstract, r: Request)
    requires Inv(fs, g) && Represents(fs, g, a) && Legal(a, Op.Delete(r)) && DeletedSlot(fs, r) == 0
    ensures Slot(fs, r.parent, 0).IsDir() && Slot(fs, r.parent, 0).Cluster() < CLUSTER_MAP_SIZE
    ensures HasLiveChild(Tab(fs, Slot(fs, r.parent, 0).Cluster()))
  {
    LookupFromMap(fs, g, a, r);
    hide DecodeTable, FatInv, DiskInv, ChainOf, Stored, SlotOk, DistinctKeys, Find, HasHead, KeysIn;
    assert DirOk(fs, g, r.parent);
    if r.parent == ROOT {
      KeysAreSlots(fs, g, a, ROOT);
    } else {
      assert HomeOk(fs, g, r.parent);
      assert Slot(fs, g.home[r.parent].dir, g.home[r.parent].slot).Live();
    }
  }

  // ----- runs -----

  /** One legal step of the driver is one step of the map, and leaves the store in order. */
  lemma StepRefines(fs: Fs, a: Abstract, op: Op) returns (a': Abstract)
    requires StandsFor(fs, a) && Legal(a, op)
    ensures AbsNext(a, op, a', StepOut(fs, op)) && StandsFor(StepFs(fs, op), a')
  {
    hide Inv, Represents, KeysIn, Used, ReadCode, WriteCode, DeleteCode, ReadData, Written, Deleted, TakenCells,
         FirstFree, WriteReady, DeleteReady, WrittenShape, DeletedShape, ClusterCount, AfterWrite, AfterDelete;
    var g :| Inv(fs, g) && Represents(fs, g, a);
    a' := a;
    match op
    case Read(r) =>
      ReadAgrees(fs, g, a, r);
    case Write(r, data) =>
      WriteAgrees(fs, g, a, r, data);
      if WriteCode(fs, r) == 0 {
        WriteKeepsInv(fs, g, r, data);
        WriteRepresents(fs, g, a, r, data);
        WrittenItem(fs, g, r, data);
        a' := AfterWrite(a, r, NewItem(fs, r, data));
      }
    case Delete(r) =>
      DeleteAgrees(fs, g, a, r);
      if DeleteCode(fs, r) == 0 {
        DeleteIsDropStep(fs, g, r);
        DeleteRepresents(fs, g, a, r);
        a' := AfterDelete(a, KeyIn(r));
      }
  }

  /** Along the operations, as long as they are legal, the driver answers as the map does. */
  ghost predicate Simulates(fs: Fs, a: Abstract, ops: seq<Op>)
    decreases ops
  {
    StandsFor(fs, a) &&
    (ops != [] && Legal(a, ops[0]) ==>
       exists a' :: AbsNext(a, ops[0], a', StepOut(fs, ops[0])) && Simulates(StepFs(fs, ops[0]), a', ops[1..]))
  }

  lemma {:induction false} RunRefines(fs: Fs, a: Abstract, ops: seq<Op>)
    requires StandsFor(fs, a)
    ensures Simulates(fs, a, ops)
    decreases ops
  {
    if ops != [] && Legal(a, ops[0]) {
      var a' := StepRefines(fs, a, ops[0]);
      RunRefines(StepFs(fs, ops[0]), a', ops[1..]);
    }
  }

  /** The empty map, with the root directory only. */
  function EmptyMap(rootName: Name): Abstract
  {
    Abstract(map[], map[ROOT := rootName])
  }

  /** Every run from a freshly formatted disk, whatever the disk held before. */
  lemma FormattedRunRefines(disk: Disk, rootName: Name, ops: seq<Op>)
    ensures Simulates(Format(disk, rootName), EmptyMap(rootName), ops)
  {
    hide Inv, Format, Represents, EmptyMap;
    FormatEstablishesInv(disk, rootName);
    FormattedIsEmpty(disk, rootName);
    RunRefines(Format(disk, rootName), EmptyMap(rootName), ops);
  }

  lemma FormattedIsEmpty(disk: Disk, rootName: Name)
    ensures Represents(Format(disk, rootName), NEW_SHAPE, EmptyMap(rootName))
  {
    hide DecodeTable, EncodeTable, EncodeFat, FsSignature;
    TableRoundTrip(NewTable(rootName, ROOT));
    assert Tab(Format(disk, rootName), ROOT) == NewTable(rootName, ROOT);
    assert Slot(Format(disk, rootName), ROOT, 0).name == rootName;
  }

  /** A store in order survives a reboot: the boot step gives it back as it is. */
  lemma RebootKeepsMap(fs: Fs, a: Abstract, rootName: Name)
    requires StandsFor(fs, a)
    ensures Boot(fs.disk, rootName) == fs && StandsFor(Boot(fs.disk, rootName), a)
  {
    var g :| Inv(fs, g) && Represents(fs, g, a);
    BootRestores(fs, g, rootName);
  }

  /** Write and then delete: the map comes back as well. */
  lemma WriteThenDeleteKeepsMap(fs: Fs, g: Shape, a: Abstract, r: Request, data: seq<byte>)
    requires WriteReady(fs, g, r, data) && Represents(fs, g, a)
    ensures DeleteCode(Written(fs, r, data), r) == 0
    ensures StandsFor(Deleted(Written(fs, r, data), r), a)
  {
    hide Inv, Represents, ReadCode, WriteCode, DeleteCode, Written, Deleted, TakenCells, FirstFree, WriteReady,
         WrittenShape, DeletedShape, ClusterCount, FreeSlot;
    SlotOfFittingWrite(fs, g, r, data);
    var fs1, a1 := Written(fs, r, data), AfterWrite(a, r, NewItem(fs, r, data));
    WriteRepresents(fs, g, a, r, data);
    WrittenCanBeDeleted(fs, g, r, data);
    WrittenIsFound(fs, g, r, data);
    var g1 := WrittenShape(fs, g, r);
    DeleteRepresents(fs1, g1, a1, r);
    DeleteKeepsInv(fs1, g1, r);
    assert AfterDelete(a1, KeyIn(r)) == a;
  }

  lemma SlotOfFittingWrite(fs: Fs, g: Shape, r: Request, data: seq<byte>)
    requires WriteReady(fs, g, r, data)
    ensures FreeSlot(Tab(fs, r.parent), 1) != 0 && r.parent in g.depth && WriteCode(fs, r) == 0
    ensures |data| >= ClusterCount(r.size) * CLUSTER_SIZE
  {
  }

  // ----- the codes, one by one -----

  /**
   What the three calls answer for a key, by what the map has under it. A write asks for as many free
   cells as the size fills; a directory can go when no key is in it.
   */
  lemma CodesFromMap(fs: Fs, g: Shape, a: Abstract, r: Request)
    requires Inv(fs, g) && Represents(fs, g, a) && r.parent in a.names && !(r.name == NO_NAME && r.ext == NO_EXT)
    requires !(r.name == a.names[r.parent] && r.ext == NO_EXT)
    ensures Key(r.parent, r.name, r.ext) !in a.items ==>
              ReadCode(fs, r) == 3 && DeleteCode(fs, r) == 1 &&
              (r.size < 0x8000_0000 ==>
                 WriteCode(fs, r) ==
                 if |set c: nat | 2 <= c < 512 && fs.fat[c] == 0| >= (r.size + 2047) / 2048 then 0 else -1)
    ensures forall bytes :: Key(r.parent, r.name, r.ext) in a.items &&
                            a.items[Key(r.parent, r.name, r.ext)] == File(bytes) ==>
              ReadCode(fs, r) == (if r.size >= |bytes| then 0 else 2) && DeleteCode(fs, r) == 0 &&
              WriteCode(fs, r) == 1
    ensures forall c :: Key(r.parent, r.name, r.ext) in a.items &&
                        a.items[Key(r.parent, r.name, r.ext)] == Directory(c) ==>
              ReadCode(fs, r) == 1 && WriteCode(fs, r) == 1 &&
              DeleteCode(fs, r) == if exists k :: k in a.items && k.dir == c then 2 else 0
  {
    hide Inv, Represents, ReadCode, WriteCode, DeleteCode;
    ReadAgrees(fs, g, a, r);
    DeleteAgrees(fs, g, a, r);
    WriteCodeFromMap(fs, g, a, r);
    forall c ensures KeysIn(a, c) == {} <==> !(exists k :: k in a.items && k.dir == c)
    {
      if KeysIn(a, c) == {} {
        assert forall k :: k in a.items && k.dir == c ==> k in KeysIn(a, c);
      }
    }
  }

  lemma WriteCodeFromMap(fs: Fs, g: Shape, a: Abstract, r: Request)
    requires Inv(fs, g) && Represents(fs, g, a) && r.parent in a.names && !BlankKey(r) && !IsSelf(a, r)
    ensures KeyIn(r) in a.items ==> WriteCode(fs, r) == 1
    ensures KeyIn(r) !in a.items && r.size < 0x8000_0000 ==>
              WriteCode(fs, r) ==
              if |set c: nat | 2 <= c < 512 && fs.fat[c] == 0| >= (r.size + 2047) / 2048 then 0 else -1
  {
    hide Inv, FreeUpTo, ClusterCount, Find, Listed, HasHead;
    LookupFromMap(fs, g, a, r);
    FreeSetSize(fs.fat);
    if r.size < 0x8000_0000 { CountIsBlocks(r.size); }
  }

  lemma FreeSetSize(f: Fat)
    ensures |FreeUpTo(f, ROOT, CLUSTER_MAP_SIZE)| == |set c: nat | 2 <= c < 512 && f[c] == 0|
  {
    FreeSize(f);
    assert Cells(FreeUpTo(f, ROOT, CLUSTER_MAP_SIZE)) == set c: nat | 2 <= c < 512 && f[c] == 0;
  }

  /** The key of a directory's own first entry: a directory for all three, in use by the entries below it. */
  lemma OwnKeyCodes(fs: Fs, g: Shape, a: Abstract, r: Request)
    requires Inv(fs, g) && Represents(fs, g, a) && r.parent in a.names && !(r.name == NO_NAME && r.ext == NO_EXT)
    requires r.name == a.names[r.parent] && r.ext == NO_EXT
    ensures ReadCode(fs, r) == 1 && WriteCode(fs, r) == 1
    ensures r.parent != 2 || (exists k :: k in a.items && k.dir == 2) ==> DeleteCode(fs, r) == 2
  {
    hide Inv, HasHead, Listed, ReadCode, DeleteCode, Find;
    ReadAgrees(fs, g, a, r);
    LookupFromMap(fs, g, a, r);
    assert forall k :: k in a.items && k.dir == 2 ==> k in KeysIn(a, ROOT);
    if r.parent != 2 || exists k :: k in a.items && k.dir == 2 {
      DeleteAgrees(fs, g, a, r);
    }
  }

  // ----- what a later read sees -----

  /**
   After a write that fits, its own key reads back: the data from its first byte on, a buffer that is
   too small and a new directory being told apart. Every other key answers as before.
   */
  lemma ReadAfterWrite(fs: Fs, g: Shape, a: Abstract, w: Request, data: seq<byte>, q: Request)
    requires WriteReady(fs, g, w, data) && Represents(fs, g, a)
    ensures q.parent == w.parent && q.name == w.name && q.ext == w.ext ==>
              if w.size == 0 then ReadCode(Written(fs, w, data), q) == 1
              else if q.size < w.size then ReadCode(Written(fs, w, data), q) == 2
              else ReadCode(Written(fs, w, data), q) == 0 && w.size <= |data| &&
                   data[..w.size] <= ReadData(Written(fs, w, data), q)
    ensures q.parent in g.depth && !(q.name == NO_NAME && q.ext == NO_EXT) &&
            !(q.parent == w.parent && q.name == w.name && q.ext == w.ext) ==>
              ReadCode(Written(fs, w, data), q) == ReadCode(fs, q) &&
              (ReadCode(fs, q) == 0 ==>
                 KeyIn(q) in a.items && a.items[KeyIn(q)].File? && q.size >= |a.items[KeyIn(q)].bytes| &&
                 a.items[KeyIn(q)].bytes <= ReadData(fs, q) &&
                 a.items[KeyIn(q)].bytes <= ReadData(Written(fs, w, data), q))
  {
    hide Inv, Represents, ReadCode, WriteCode, ReadData, Written, TakenCells, FirstFree, WrittenShape, ClusterCount,
         FreeSlot, WriteReady;
    SlotOfFittingWrite(fs, g, w, data);
    WriteReadyFacts(fs, g, a, w, data);
    WriteKeepsInv(fs, g, w, data);
    WriteRepresents(fs, g, a, w, data);
    WrittenItem(fs, g, w, data);
    var fs', g', a' := Written(fs, w, data), WrittenShape(fs, g, w), AfterWrite(a, w, NewItem(fs, w, data));
    if q.parent in g.depth && !BlankKey(q) {
      ReadAgrees(fs', g', a', q);
      if KeyIn(q) != KeyIn(w) {
        ReadAgrees(fs, g, a, q);
      }
    }
  }

  /** The bytes of a new file are those of the data, whatever map the store stands for. */
  lemma WrittenFileIsRead(fs: Fs, g: Shape, w: Request, data: seq<byte>)
    requires WriteReady(fs, g, w, data) && w.size != 0
    ensures WriteCode(fs, w) == 0 && |data| >= ClusterCount(w.size) * CLUSTER_SIZE && w.size <= |data|
    ensures ReadCode(Written(fs, w, data), w) == 0 && data[..w.size] <= ReadData(Written(fs, w, data), w)
  {
    hide Inv, WriteCode, Written, TakenCells, FirstFree, FreeUpTo, ClusterCount, FreeSlot, Find, NewEntry, Stored,
         WriteReady, DecodeTable;
    SlotOfFittingWrite(fs, g, w, data);
    WrittenIsFound(fs, g, w, data);
    WrittenItem(fs, g, w, data);
    NewEntryFacts(w, FirstFree(fs.fat));
    WriteStarts(fs, w);
  }

  lemma WriteStarts(fs: Fs, w: Request)
    ensures WriteCode(fs, w) == 0 ==> Tab(fs, w.parent)[0].IsDir()
  {
  }

  lemma WriteReadyFacts(fs: Fs, g: Shape, a: Abstract, w: Request, data: seq<byte>)
    requires WriteReady(fs, g, w, data) && Represents(fs, g, a)
    ensures Inv(fs, g) && w.parent in g.depth && !BlankKey(w) && a.names.Keys == g.depth.Keys
  {
    hide FatInv, TreeInv, DiskInv, WriteCode, FreeSlot, FreeUpTo, ClusterCount, Listed, HasHead, Slot;
    WrittenKeyIsNew(fs, g, w);
  }

  /** After a delete its key is gone, and every other key of the directories that are left answers as before. */
  lemma ReadAfterDelete(fs: Fs, g: Shape, a: Abstract, r: Request, q: Request)
    requires DeleteReady(fs, g, r) && Represents(fs, g, a) && KeyIn(r) in a.items
    requires q.parent in a.names && a.items[KeyIn(r)] != Directory(q.parent)
    requires !(q.name == NO_NAME && q.ext == NO_EXT)
    ensures DeleteCode(fs, r) == 0
    ensures q.parent == r.parent && q.name == r.name && q.ext == r.ext ==>
              ReadCode(Deleted(fs, r), q) == 3
    ensures !(q.parent == r.parent && q.name == r.name && q.ext == r.ext) ==>
              ReadCode(Deleted(fs, r), q) == ReadCode(fs, q) &&
              (ReadCode(fs, q) == 0 ==>
                 KeyIn(q) in a.items && a.items[KeyIn(q)].File? && q.size >= |a.items[KeyIn(q)].bytes| &&
                 a.items[KeyIn(q)].bytes <= ReadData(fs, q) &&
                 a.items[KeyIn(q)].bytes <= ReadData(Deleted(fs, r), q))
  {
    hide Inv, Represents, ReadCode, DeleteCode, ReadData, Deleted, DeletedShape, DeletedSlot;
    DeleteReadyFacts(fs, g, r);
    LookupFromMap(fs, g, a, r);
    DeleteRepresents(fs, g, a, r);
    DeleteKeepsInv(fs, g, r);
    ReadAgrees(Deleted(fs, r), DeletedShape(fs, g, r), AfterDelete(a, KeyIn(r)), q);
    ReadAgrees(fs, g, a, q);
  }

  lemma DeleteReadyFacts(fs: Fs, g: Shape, r: Request)
    requires DeleteReady(fs, g, r)
    ensures Inv(fs, g) && DeleteRuns(fs, g, r) && DeletedSlot(fs, r) != 0 && DeletedSlot(fs, r) < ENTRIES
    ensures DeleteCode(fs, r) == 0
  {
    hide Inv, Find, HasLiveChild;
  }
}
