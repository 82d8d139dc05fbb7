/**
 The driver of src/fat32.c: a disk, the cached allocation table and the directory buffer, changed
 in place by the loops of the source. Each call is proved to be one step of Store.
 */
module Driver {
  import opened Bytes
  import opened Layout
  import opened Chains
  import opened Store
  import opened Invariant
  import opened Safety

  class FatDriver {
    const disk: array<Cluster>
    const fat: array<u32>
    var dirTable: Table
    ghost var shape: Shape

    ghost predicate Sized()
      reads this
    {
      disk.Length == CLUSTER_MAP_SIZE && fat.Length == CLUSTER_MAP_SIZE
    }

    /** Disk and cached table as one value. */
    ghost function State(): Fs
      requires Sized()
      reads this, disk, fat
    {
      Fs(disk[..], fat[..])
    }

    /** The driver after boot, between calls. */
    ghost predicate Valid()
      reads this, disk, fat
    {
      Sized() && Inv(State(), shape)
    }

    /** A machine with the given disk; the driver state starts zeroed. */
    constructor (image: Disk)
      ensures Sized() && fresh(disk) && fresh(fat)
      ensures State().disk == image
    {
      disk := new Cluster[CLUSTER_MAP_SIZE](i requires 0 <= i < CLUSTER_MAP_SIZE => image[i]);
      fat := new u32[CLUSTER_MAP_SIZE](i => 0);
      dirTable := seq(ENTRIES, i => BLANK_ENTRY);
      shape := Shape(map[], map[], map[]);
    }

    // ----- create and boot -----

    method CreateFat32(rootName: Name)
      requires Sized()
      modifies this`shape, disk, fat
      ensures Valid() && State() == Format(old(disk[..]), rootName) && shape == NEW_SHAPE
    {
      ghost var image := disk[..];
      disk[0] := SignedCluster(disk[0]);
      fat[0] := CLUSTER_0_VALUE;
      fat[1] := CLUSTER_1_VALUE;
      fat[ROOT] := END_OF_FILE;
      for i := 3 to CLUSTER_MAP_SIZE
        invariant fat[0] == CLUSTER_0_VALUE && fat[1] == CLUSTER_1_VALUE && fat[ROOT] == END_OF_FILE
        invariant forall c :: 3 <= c < i ==> fat[c] == EMPTY
        invariant disk[..] == Put(image, 0, SignedCluster(image[0]))
      {
        fat[i] := EMPTY;
      }
      assert fat[..] == FreshFat();
      disk[FAT_CLUSTER] := EncodeFat(fat[..]);
      disk[ROOT] := EncodeTable(NewTable(rootName, ROOT));
      shape := NEW_SHAPE;
      FormatEstablishesInv(image, rootName);
    }

    /** known is the shape of the store on a disk that has been formatted before. */
    method InitializeFilesystem(rootName: Name, ghost known: Shape)
      requires Sized()
      modifies this`shape, disk, fat
      ensures State() == Boot(old(disk[..]), rootName)
      ensures !Signed(old(disk[0])) || Inv(Boot(old(disk[..]), rootName), known) ==> Valid()
    {
      hide Inv, FsSignature, EncodeFat, EncodeTable, DecodeFat;
      ghost var image := disk[..];
      shape := known;
      if !Signed(disk[0]) {
        CreateFat32(rootName);
      } else {
        var table := DecodeFat(disk[FAT_CLUSTER]);
        for i := 0 to CLUSTER_MAP_SIZE
          invariant fat[..i] == table[..i]
          invariant disk[..] == image && shape == known
        {
          fat[i] := table[i];
        }
        assert fat[..] == table;
        assert State() == Boot(image, rootName);
      }
    }

    // ----- lookups -----

    /** The lookup loop that read, write and delete share. */
    method FindEntry(name: Name, ext: Ext) returns (i: nat)
      ensures i == Find(dirTable, name, ext, 0)
    {
      i := 0;
      while i < ENTRIES
        invariant i <= ENTRIES
        invariant Find(dirTable, name, ext, 0) == Find(dirTable, name, ext, i)
      {
        var nameOrder := MemCmp(dirTable[i].name, name);
        var extOrder := MemCmp(dirTable[i].ext, ext);
        if nameOrder == 0 && extOrder == 0 {
          return;
        }
        i := i + 1;
      }
    }

    method ReadDirectory(r: Request) returns (code: int)
      requires Valid() && GoodParent(State(), shape, r.parent)
      modifies this`dirTable
      ensures code == ReadDirectoryCode(State(), r)
      ensures dirTable == if code == 0 then Tab(State(), DirectoryFound(State(), r)) else Tab(State(), r.parent)
    {
      hide Inv, DecodeTable, Find;
      dirTable := DecodeTable(disk[r.parent]);
      if dirTable[0].attribute != ATTR_SUBDIRECTORY {
        return -1;
      }
      var i := FindEntry(r.name, r.ext);
      if i == ENTRIES {
        return 2;
      }
      if dirTable[i].attribute != ATTR_SUBDIRECTORY {
        return 1;
      }
      FoundInTable(State(), shape, r);
      dirTable := DecodeTable(disk[dirTable[i].Cluster()]);
      return 0;
    }

    /** read. The blank key finds an unused entry, whose old chain need not be one any more. */
    method Read(r: Request) returns (code: int, buffer: seq<byte>)
      requires Valid() && GoodParent(State(), shape, r.parent)
      requires BlankKey(r) && ReadCode(State(), r) == 0 ==> FindsChain(State(), r)
      modifies this`dirTable
      ensures code == ReadCode(State(), r)
      ensures buffer == if code == 0 then ReadData(State(), r) else []
      ensures dirTable == Tab(State(), r.parent)
    {
      hide Inv, DecodeTable, Find, Stored;
      buffer := [];
      dirTable := DecodeTable(disk[r.parent]);
      if dirTable[0].attribute != ATTR_SUBDIRECTORY {
        return -1, [];
      }
      var i := FindEntry(r.name, r.ext);
      if i == ENTRIES {
        return 3, [];
      }
      if dirTable[i].attribute == ATTR_SUBDIRECTORY {
        return 1, [];
      }
      if r.size < dirTable[i].filesize {
        return 2, [];
      }
      buffer := ReadChain(dirTable[i], r, i);
      return 0, buffer;
    }

    /** The do-while loop of read: it ends because the chain of a live entry does. */
    method ReadChain(e: Entry, ghost r: Request, ghost i: nat) returns (buffer: seq<byte>)
      requires Valid() && r.parent in shape.depth && (BlankKey(r) ==> FindsChain(State(), r))
      requires i == DeletedSlot(State(), r) < ENTRIES && e == Slot(State(), r.parent, i) && !e.IsDir()
      ensures buffer == Stored(State(), e)
    {
      hide DecodeTable, Inv, ChainOf, Find, IsChain, Slot;
      ghost var fs := State();
      ghost var ch := ChainOf(fs.fat, e.Cluster());
      FileChain(fs, shape, r);
      ChainNext(fs.fat, ch, 0);
      buffer := [];
      var cluster := e.Cluster();
      ghost var k := 0;
      while true
        invariant 0 <= k < |ch| && cluster == ch[k] && ROOT <= cluster < CLUSTER_MAP_SIZE
        invariant forall i :: 0 <= i < |ch| ==> ch[i] < CLUSTER_MAP_SIZE
        invariant buffer == ContentsUpTo(fs.disk, ch, k)
        decreases |ch| - k
      {
        ChainNext(fs.fat, ch, k);
        buffer := buffer + disk[cluster];
        cluster := fat[cluster];
        k := k + 1;
        if cluster == END_OF_FILE {
          break;
        }
        ChainNext(fs.fat, ch, k);
      }
    }

    /** The child loop looks from the second entry on, at the name and the "dir" extension. */
    method MoveToChildDirectory(r: Request) returns (c: nat)
      requires Sized()
      ensures c == ChildOf(State(), r.parent, r.name)
    {
      var directory := DecodeTable(disk[r.parent]);
      ghost var fs := State();
      for i := 1 to ENTRIES
        invariant Find(directory, r.name, DIR_EXT, 1) == Find(directory, r.name, DIR_EXT, i)
      {
        var nameOrder := MemCmp(directory[i].name, r.name);
        var extOrder := MemCmp(directory[i].ext, DIR_EXT);
        if extOrder == 0 && nameOrder == 0 {
          return directory[i].Cluster();
        }
      }
      return 0;
    }

    /** For a live directory: the directory that holds its entry, one level up; the root for itself. */
    method MoveToParentDirectory(r: Request) returns (c: nat)
      requires Sized()
      ensures c == ParentOf(State(), r.parent)
      ensures Valid() && r.parent in shape.depth ==> IsParent(State(), shape, r.parent, c)
    {
      c := DecodeTable(disk[r.parent])[0].Cluster();
      hide Inv, DecodeTable;
      ParentIsHome(State(), shape, r.parent);
    }

    // ----- write -----

    method CountFree() returns (n: nat)
      requires Sized()
      ensures n == |FreeUpTo(fat[..], ROOT, CLUSTER_MAP_SIZE)|
    {
      n := 0;
      for i := ROOT to CLUSTER_MAP_SIZE
        invariant n == |FreeUpTo(fat[..], ROOT, i)|
      {
        if fat[i] == EMPTY {
          n := n + 1;
        }
      }
    }

    method FindFree() returns (first: ClusterNo)
      requires Sized()
      ensures first == FirstFree(fat[..])
    {
      ghost var f: Fat := fat[..];
      first := 0;
      for i := ROOT to CLUSTER_MAP_SIZE
        invariant FreeUpTo(f, ROOT, i) == [] && first == 0
      {
        if fat[i] == EMPTY {
          FreePrefix(f, ROOT, i + 1, CLUSTER_MAP_SIZE);
          assert FreeUpTo(f, ROOT, i + 1) == [i];
          return i;
        }
      }
    }

    method GatherFree() returns (cells: seq<nat>)
      requires Sized()
      ensures cells == FreeUpTo(fat[..], 0, CLUSTER_MAP_SIZE)
    {
      cells := [];
      for i := 0 to CLUSTER_MAP_SIZE
        invariant cells == FreeUpTo(fat[..], 0, i)
      {
        if fat[i] == EMPTY {
          cells := cells + [i];
        }
      }
    }

    method FindFreeSlot() returns (slot: nat)
      ensures slot == FreeSlot(dirTable, 1)
    {
      slot := 0;
      for i := 1 to ENTRIES
        invariant FreeSlot(dirTable, 1) == FreeSlot(dirTable, i) && slot == 0
      {
        if dirTable[i].user != UATTR_NOT_EMPTY {
          return i;
        }
      }
    }

    /** The loop that links the cells of a new file and stores its data in them. */
    method LinkAndStore(cells: seq<nat>, data: seq<byte>)
      requires Sized()
      requires forall i :: 0 <= i < |cells| ==> cells[i] < CLUSTER_MAP_SIZE
      requires |data| >= |cells| * CLUSTER_SIZE
      modifies disk, fat
      ensures disk[..] == StoreUpTo(old(disk[..]), cells, data, |cells|)
      ensures fat[..] == LinkUpTo(old(fat[..]), cells, |cells|)
    {
      ghost var image, table := disk[..], fat[..];
      for i := 0 to |cells|
        invariant disk[..] == StoreUpTo(image, cells, data, i)
        invariant fat[..] == LinkUpTo(table, cells, i)
      {
        if i == |cells| - 1 {
          fat[cells[i]] := END_OF_FILE;
        } else {
          fat[cells[i]] := cells[i + 1];
        }
        disk[cells[i]] := data[i * CLUSTER_SIZE..(i + 1) * CLUSTER_SIZE];
      }
    }

    /** The part of write that puts the new directory or the file content in place. */
    method Allocate(r: Request, data: seq<byte>, first: ClusterNo)
      requires Sized() && WriteCode(State(), r) == 0 && |data| >= ClusterCount(r.size) * CLUSTER_SIZE
      requires first == FirstFree(fat[..])
      modifies disk, fat
      ensures State() == Allocated(old(State()), r, data)
    {
      hide FreeUpTo, DecodeTable, EncodeTable, Find, ClusterCount, NewTable;
      if r.size == 0 {
        fat[first] := END_OF_FILE;
        disk[first] := EncodeTable(NewTable(r.name, r.parent));
      } else {
        var cells := GatherFree();
        FreeScansAtLeast(fat[..], CLUSTER_MAP_SIZE);
        var n := ClusterCount(r.size);
        LinkAndStore(cells[..n], data);
      }
    }

    /** The end of write: the entry goes into the buffer, buffer and cached table go to the disk. */
    method EnterAndFlush(r: Request, first: ClusterNo)
      requires Sized()
      modifies this`dirTable, disk
      ensures dirTable == old(dirTable)[FreeSlot(old(dirTable), 1) := NewEntry(r, first)]
      ensures State() == Flush(old(State()), r.parent, dirTable)
    {
      hide DecodeTable, EncodeTable, EncodeFat, FreeSlot, NewEntry;
      var slot := FindFreeSlot();
      dirTable := dirTable[slot := NewEntry(r, first)];
      disk[r.parent] := EncodeTable(dirTable);
      disk[FAT_CLUSTER] := EncodeFat(fat[..]);
    }

    /**
     write, with data padded to whole clusters. The new state is the step of Store in every case;
     a call that fits leaves a valid driver.
     */
    method Write(r: Request, data: seq<byte>) returns (code: int)
      requires Valid() && GoodParent(State(), shape, r.parent)
      requires |data| >= ClusterCount(r.size) * CLUSTER_SIZE
      modifies this`dirTable, this`shape, disk, fat
      ensures code == old(WriteCode(State(), r))
      ensures State() == Store.Write(old(State()), r, data)
      ensures old(WriteCode(State(), r) == 0 ==> WriteFits(State(), r)) ==> Valid()
      ensures code == 0 ==> dirTable == Tab(old(State()), r.parent)
                [FreeSlot(Tab(old(State()), r.parent), 1) := NewEntry(r, FirstFree(old(fat[..])))]
      ensures code != 0 ==> dirTable == Tab(State(), r.parent)
      ensures shape == ShapeAfterWrite(old(State()), old(shape), r)
    {
      hide Inv, FreeUpTo, EncodeTable, EncodeFat, Find, ClusterCount, NewTable, DecodeTable, FreeSlot, LinkUpTo,
           StoreUpTo, NewEntry, FirstFree, Flush, Allocated;
      ghost var fs := State();
      dirTable := DecodeTable(disk[r.parent]);
      if dirTable[0].attribute != ATTR_SUBDIRECTORY {
        return -1;
      }
      var i := FindEntry(r.name, r.ext);
      if i < ENTRIES {
        return 1;
      }
      var count := ClusterCount(r.size);
      var available := CountFree();
      if available < count {
        return -1;
      }
      var first := FindFree();
      Allocate(r, data, first);
      EnterAndFlush(r, first);
      WriteGhost(fs, shape, r, data);
      if WriteFits(fs, r) {
        shape := WrittenShape(fs, shape, r);
      }
      return 0;
    }

    // ----- delete -----

    method HasEntries(c: ClusterNo) returns (b: bool)
      requires Sized()
      ensures b == HasLiveChild(Tab(State(), c))
    {
      var table := DecodeTable(disk[c]);
      hide DecodeTable;
      for i := 1 to ENTRIES
        invariant forall j :: 1 <= j < i ==> !table[j].Live()
      {
        if table[i].user == UATTR_NOT_EMPTY {
          return true;
        }
      }
      return false;
    }

    /** The do-while loop of delete over the chain of an entry. */
    method FreeChain(head: ClusterNo)
      requires Sized() && IsChain(fat[..], ChainOf(fat[..], head)) && ChainOf(fat[..], head)[0] == head
      modifies fat
      ensures fat[..] == Clear(old(fat[..]), ChainOf(old(fat[..]), head))
    {
      ghost var f: Fat := fat[..];
      ghost var ch := ChainOf(f, head);
      hide ChainOf, IsChain, Clear;
      ChainNext(f, ch, 0);
      assert fat[..] == Clear(f, ch[..0]) by { assert ch[..0] == []; }
      var cluster := head;
      ghost var k := 0;
      while true
        invariant 0 <= k < |ch| && cluster == ch[k] && cluster < CLUSTER_MAP_SIZE
        invariant fat[..] == Clear(f, ch[..k])
        decreases |ch| - k
      {
        ChainNext(f, ch, k);
        ClearNext(f, ch, k);
        assert fat[cluster] == fat[..][cluster];
        var next := fat[cluster];
        fat[cluster] := EMPTY;
        k := k + 1;
        cluster := next;
        if cluster == END_OF_FILE {
          break;
        }
        ChainNext(f, ch, k);
      }
      assert ch[..k] == ch;
    }

    /** The end of delete: the entry is blanked, its chain freed, both tables go to the disk. */
    method DropAndFlush(r: Request, i: nat)
      requires Sized() && DeleteCode(State(), r) == 0
      requires i == DeletedSlot(State(), r) && dirTable == Tab(State(), r.parent)
      requires var c := Slot(State(), r.parent, i).Cluster();
               c < CLUSTER_MAP_SIZE && IsChain(fat[..], ChainOf(fat[..], c)) && ChainOf(fat[..], c)[0] == c
      modifies this`dirTable, disk, fat
      ensures State() == Deleted(old(State()), r)
      ensures dirTable == old(dirTable)[i := Removed(old(dirTable)[i])]
    {
      hide EncodeTable, EncodeFat, Find, DecodeTable, ChainOf, IsChain, HasLiveChild, Clear, Removed;
      var entry := dirTable[i];
      dirTable := dirTable[i := Removed(entry)];
      FreeChain(entry.Cluster());
      disk[r.parent] := EncodeTable(dirTable);
      disk[FAT_CLUSTER] := EncodeFat(fat[..]);
    }

    /** delete. The new state is the step of Store; past the first entry the driver stays valid. */
    method Delete(r: Request) returns (code: int)
      requires Valid() && GoodParent(State(), shape, r.parent)
      requires BlankKey(r) && DeleteCode(State(), r) == 0 ==> FindsChain(State(), r)
      modifies this`dirTable, this`shape, disk, fat
      ensures code == old(DeleteCode(State(), r))
      ensures State() == Store.Delete(old(State()), r)
      ensures !(code == 0 && (old(DeletedSlot(State(), r)) == 0 || BlankKey(r))) ==> Valid()
      ensures dirTable == if code != 0 then Tab(State(), r.parent)
                          else old(Tab(State(), r.parent)[DeletedSlot(State(), r) :=
                                   Removed(Slot(State(), r.parent, DeletedSlot(State(), r)))])
      ensures code != 0 ==> shape == old(shape)
    {
      hide Inv, EncodeTable, EncodeFat, Find, DecodeTable, ChainOf, IsChain, HasLiveChild, Clear, Removed, Deleted,
           DeletedShape;
      ghost var fs := State();
      dirTable := DecodeTable(disk[r.parent]);
      if dirTable[0].attribute != ATTR_SUBDIRECTORY {
        return -1;
      }
      var i := FindEntry(r.name, r.ext);
      if i == ENTRIES {
        return 1;
      }
      var entry := dirTable[i];
      FoundInTable(fs, shape, r);
      if entry.attribute == ATTR_SUBDIRECTORY {
        var occupied := HasEntries(entry.Cluster());
        if occupied {
          return 2;
        }
      }
      DeletedHeadHasChain(fs, shape, r);
      DropAndFlush(r, i);
      if DeletedSlot(fs, r) != 0 && !BlankKey(r) {
        DeleteKeepsInv(fs, shape, r);
        shape := DeletedShape(fs, shape, r);
      }
      return 0;
    }
  }

  /** The cluster of the entry that a lookup finds heads a chain. */
  ghost predicate FindsChain(fs: Fs, r: Request)
  {
    DeletedSlot(fs, r) < ENTRIES &&
    var c := Slot(fs, r.parent, DeletedSlot(fs, r)).Cluster();
    IsChain(fs.fat, ChainOf(fs.fat, c)) && ChainOf(fs.fat, c)[0] == c
  }

  /** Whatever entry a lookup finds in a live directory, in use or not, its cluster is one of the table. */
  lemma FoundInTable(fs: Fs, g: Shape, r: Request)
    requires Inv(fs, g) && r.parent in g.depth && DeletedSlot(fs, r) < ENTRIES
    ensures Slot(fs, r.parent, DeletedSlot(fs, r)).Cluster() < CLUSTER_MAP_SIZE
  {
    hide DecodeTable, FatInv, DiskInv, ChainOf, DistinctKeys, Find, HomeOk;
    DirInTable(fs, g, r.parent);
    if DeletedSlot(fs, r) == 0 {
      assert DirOk(fs, g, r.parent);
      DirInTable(fs, g, Slot(fs, r.parent, 0).Cluster());
    } else {
      assert SlotOk(fs, g, r.parent, DeletedSlot(fs, r));
    }
  }

  /** The entry in use that a lookup finds in a live directory heads a chain. */
  lemma DeletedHeadHasChain(fs: Fs, g: Shape, r: Request)
    requires Inv(fs, g) && r.parent in g.depth && (BlankKey(r) ==> FindsChain(fs, r))
    requires DeletedSlot(fs, r) < ENTRIES
    ensures var c := Slot(fs, r.parent, DeletedSlot(fs, r)).Cluster();
            ROOT <= c < CLUSTER_MAP_SIZE && IsChain(fs.fat, ChainOf(fs.fat, c)) && ChainOf(fs.fat, c)[0] == c
  {
    hide DecodeTable, DiskInv, ChainOf, IsChain, SlotOk, DistinctKeys, Find;
    if BlankKey(r) {
      FirstOfChain(fs.fat, ChainOf(fs.fat, Slot(fs, r.parent, DeletedSlot(fs, r)).Cluster()));
    } else {
      if DeletedSlot(fs, r) == 0 {
        assert DirOk(fs, g, r.parent);
        DirInTable(fs, g, Slot(fs, r.parent, 0).Cluster());
      } else {
        FoundIsLive(fs, g, r);
      }
      HeadIsOwned(fs.fat, g, Slot(fs, r.parent, DeletedSlot(fs, r)).Cluster());
      assert ChainOk(fs.fat, g, Slot(fs, r.parent, DeletedSlot(fs, r)).Cluster());
    }
  }

  lemma FirstOfChain(f: Fat, ch: seq<nat>)
    requires IsChain(f, ch)
    ensures ROOT <= ch[0] < CLUSTER_MAP_SIZE
  {
  }

  /** The ghost bookkeeping of a write: grown when the call stored something that fits. */
  ghost function ShapeAfterWrite(fs: Fs, g: Shape, r: Request): Shape
  {
    if WriteCode(fs, r) == 0 && WriteFits(fs, r) && r.parent in g.depth && TakenCells(fs, r) != []
    then WrittenShape(fs, g, r) else g
  }

  lemma WriteGhost(fs: Fs, g: Shape, r: Request, data: seq<byte>)
    requires Inv(fs, g) && GoodParent(fs, g, r.parent) && WriteCode(fs, r) == 0
    requires |data| >= ClusterCount(r.size) * CLUSTER_SIZE
    ensures WriteFits(fs, r) ==>
              (r.parent in g.depth && TakenCells(fs, r) != [] && Inv(Written(fs, r, data), WrittenShape(fs, g, r)))
  {
    hide Inv, FreeUpTo, ClusterCount, Written, WrittenShape, TakenCells, FreeSlot, Find;
    if WriteFits(fs, r) {
      WriteKeepsInv(fs, g, r, data);
    }
  }

  // ----- what the lookups of a directory answer -----

  function ChildOf(fs: Fs, d: ClusterNo, name: Name): u32
  {
    var i := Find(Tab(fs, d), name, DIR_EXT, 1);
    if i == ENTRIES then 0 else Tab(fs, d)[i].Cluster()
  }

  function ParentOf(fs: Fs, d: ClusterNo): u32 { Slot(fs, d, 0).Cluster() }

  /** c is the directory in which the entry of d stands. */
  ghost predicate IsParent(fs: Fs, g: Shape, d: nat, c: nat)
  {
    d in g.depth && c in g.depth && c < CLUSTER_MAP_SIZE &&
    if d == ROOT then c == ROOT
    else
      g.depth[c] + 1 == g.depth[d] &&
      exists i :: 1 <= i < ENTRIES && Slot(fs, c, i).Live() && Slot(fs, c, i).IsDir() && Slot(fs, c, i).Cluster() == d
  }

  lemma ParentIsHome(fs: Fs, g: Shape, d: ClusterNo)
    ensures Inv(fs, g) && d in g.depth ==> IsParent(fs, g, d, ParentOf(fs, d))
  {
    hide DecodeTable, FatInv, DiskInv, SlotOk, DistinctKeys;
    if Inv(fs, g) && d in g.depth {
      assert DirOk(fs, g, d);
      DirInTable(fs, g, ParentOf(fs, d));
      if d != ROOT {
        assert HomeOk(fs, g, d);
        assert Slot(fs, g.home[d].dir, g.home[d].slot).Live();
      }
      hide TreeInv;
    }
  }

  function ReadDirectoryCode(fs: Fs, r: Request): int
  {
    var t := Tab(fs, r.parent);
    var i := Find(t, r.name, r.ext, 0);
    if !t[0].IsDir() then -1 else if i == ENTRIES then 2 else if !t[i].IsDir() then 1 else 0
  }

  function DirectoryFound(fs: Fs, r: Request): ClusterNo
  {
    var t := Tab(fs, r.parent);
    var i := Find(t, r.name, r.ext, 0);
    if i < ENTRIES && t[i].Cluster() < CLUSTER_MAP_SIZE then t[i].Cluster() else 0
  }

  /**
   A lookup with read_directory in a live directory, by a key that is not blank: the codes, and the
   directory found. It is the child with that name; under its own first entry a directory has its parent.
   */
  lemma DirectoryLookup(fs: Fs, g: Shape, r: Request)
    requires Inv(fs, g) && r.parent in g.depth && !(r.name == NO_NAME && r.ext == NO_EXT)
    ensures ReadDirectoryCode(fs, r) == 2 <==>
            forall i :: 0 <= i < 64 ==> !(Slot(fs, r.parent, i).name == r.name && Slot(fs, r.parent, i).ext == r.ext)
    ensures ReadDirectoryCode(fs, r) == 1 <==>
            exists i :: 1 <= i < 64 && Slot(fs, r.parent, i).user == 0xAA && Slot(fs, r.parent, i).name == r.name &&
                        Slot(fs, r.parent, i).ext == r.ext && Slot(fs, r.parent, i).attribute != 0x10
    ensures ReadDirectoryCode(fs, r) == 0 <==>
            exists i :: 0 <= i < 64 && Slot(fs, r.parent, i).user == 0xAA && Slot(fs, r.parent, i).name == r.name &&
                        Slot(fs, r.parent, i).ext == r.ext && Slot(fs, r.parent, i).attribute == 0x10
    ensures ReadDirectoryCode(fs, r) == 0 ==>
              DirectoryFound(fs, r) in g.depth &&
              if r.name == Slot(fs, r.parent, 0).name && r.ext == NO_EXT
              then IsParent(fs, g, r.parent, DirectoryFound(fs, r))
              else IsParent(fs, g, DirectoryFound(fs, r), r.parent) && Slot(fs, DirectoryFound(fs, r), 0).name == r.name
  {
    hide DecodeTable, FatInv, DiskInv, Find, ChainOf, DirOk, SlotOk, HomeOk, DistinctKeys, IsParent;
    LookupEntry(fs, g, r);
    var i := DeletedSlot(fs, r);
    if i < ENTRIES {
      forall j | 0 <= j < 64 && Slot(fs, r.parent, j).user == 0xAA && Slot(fs, r.parent, j).Matches(r.name, r.ext)
        ensures j == i
      {
        assert i < j ==> DistinctKeys(Tab(fs, r.parent), i, j);
        OnlyOne(Tab(fs, r.parent), i, j);
      }
    }
  }

  lemma OnlyOne(t: Table, i: nat, j: nat)
    requires i < ENTRIES && j < ENTRIES && (i < j ==> DistinctKeys(t, i, j)) && t[i].Live() && t[j].Live()
    requires t[i].name == t[j].name && t[i].ext == t[j].ext && i <= j
    ensures i == j
  {
  }

  /** What the lookup finds, if anything: the first entry, or a live one with a live directory or file behind it. */
  lemma LookupEntry(fs: Fs, g: Shape, r: Request)
    requires Inv(fs, g) && r.parent in g.depth && !BlankKey(r)
    ensures Slot(fs, r.parent, 0).IsDir() && Slot(fs, r.parent, 0).ext == NO_EXT
    ensures DeletedSlot(fs, r) < ENTRIES ==> Slot(fs, r.parent, DeletedSlot(fs, r)).Live()
    ensures DeletedSlot(fs, r) == 0 ==>
              DirectoryFound(fs, r) in g.depth && IsParent(fs, g, r.parent, DirectoryFound(fs, r))
    ensures 0 < DeletedSlot(fs, r) < ENTRIES && Slot(fs, r.parent, DeletedSlot(fs, r)).IsDir() ==>
              DirectoryFound(fs, r) in g.depth && Slot(fs, DirectoryFound(fs, r), 0).name == r.name &&
              IsParent(fs, g, DirectoryFound(fs, r), r.parent)
  {
    hide DecodeTable, FatInv, DiskInv, Find, ChainOf, SlotOk, HomeOk, DistinctKeys, IsParent;
    assert DirOk(fs, g, r.parent);
    ParentIsHome(fs, g, r.parent);
    var i := DeletedSlot(fs, r);
    if 0 < i < ENTRIES {
      FoundIsLive(fs, g, r);
      var c := Slot(fs, r.parent, i).Cluster();
      if c in g.depth {
        assert DirOk(fs, g, c);
        ParentIsHome(fs, g, c);
      }
    } else if i == 0 {
      ParentInDepth(fs, g, r.parent);
    }
  }

  lemma ParentInDepth(fs: Fs, g: Shape, d: ClusterNo)
    requires IsParent(fs, g, d, ParentOf(fs, d))
    ensures ParentOf(fs, d) in g.depth && ParentOf(fs, d) < CLUSTER_MAP_SIZE
  {
  }

  lemma ChainInTable(f: Fat, ch: seq<nat>)
    requires IsChain(f, ch)
    ensures ch != [] && forall i :: 0 <= i < |ch| ==> ch[i] < CLUSTER_MAP_SIZE
  {
  }

  /** A file entry in use that is found in a live directory heads a chain. */
  lemma FileChain(fs: Fs, g: Shape, r: Request)
    requires Inv(fs, g) && r.parent in g.depth && (BlankKey(r) ==> FindsChain(fs, r))
    requires DeletedSlot(fs, r) < ENTRIES && !Slot(fs, r.parent, DeletedSlot(fs, r)).IsDir()
    ensures FindsChain(fs, r)
    ensures var ch := ChainOf(fs.fat, Slot(fs, r.parent, DeletedSlot(fs, r)).Cluster());
            ch != [] && forall i :: 0 <= i < |ch| ==> ch[i] < CLUSTER_MAP_SIZE
  {
    hide DecodeTable, DiskInv, ChainOf, IsChain, SlotOk, DistinctKeys, Find;
    if !BlankKey(r) {
      assert DirOk(fs, g, r.parent);
      FoundIsLive(fs, g, r);
      assert ChainOk(fs.fat, g, Slot(fs, r.parent, DeletedSlot(fs, r)).Cluster());
    }
    ChainInTable(fs.fat, ChainOf(fs.fat, Slot(fs, r.parent, DeletedSlot(fs, r)).Cluster()));
  }
}
