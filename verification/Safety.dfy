/**
 When the steps of the store keep the invariant: for write and delete exactly when a condition
 holds that the caller can check before the call.
 */
module Safety {
  import opened Bytes
  import opened Layout
  import opened Chains
  import opened Store
  import opened Invariant

  // ----- cluster counts -----

  /** Below 2^31 the signed division asks for exactly the clusters that hold the data. */
  lemma CountIsBlocks(size: u32)
    requires size < 0x8000_0000
    ensures ClusterCount(size) == Blocks(size)
  {
  }

  /** From 2^31 on it asks for at most one cluster or for more than any table has. */
  lemma CountOfHugeSize(size: u32)
    requires size >= 0x8000_0000
    ensures ClusterCount(size) <= 1 || ClusterCount(size) > CLUSTER_MAP_SIZE
    ensures Blocks(size) > CLUSTER_MAP_SIZE
    ensures var a := 0x1_0000_0000 - size;
            ClusterCount(size) == (0 - a / 2048 + if a % 2048 != 0 then 1 else 0) % 0x1_0000_0000
  {
    var a := 0x1_0000_0000 - size;
    assert CeilDiv(ToInt32(size), CLUSTER_SIZE) == -(a / CLUSTER_SIZE) + if a % CLUSTER_SIZE != 0 then 1 else 0;
  }

  // ----- storing data -----

  lemma {:induction false} StoreFrame(disk: Disk, cells: seq<nat>, data: seq<byte>, k: nat, c: nat)
    requires k <= |cells| && forall i :: 0 <= i < |cells| ==> cells[i] < CLUSTER_MAP_SIZE
    requires k * CLUSTER_SIZE <= |data| && c < CLUSTER_MAP_SIZE && c !in cells
    ensures StoreUpTo(disk, cells, data, k)[c] == disk[c]
  {
    if k > 0 { StoreFrame(disk, cells, data, k - 1, c); }
  }

  lemma {:induction false} StoreAt(disk: Disk, cells: seq<nat>, data: seq<byte>, k: nat, j: nat)
    requires j < k <= |cells| && Allocatable(cells) && k * CLUSTER_SIZE <= |data|
    ensures StoreUpTo(disk, cells, data, k)[cells[j]] == data[j * CLUSTER_SIZE..(j + 1) * CLUSTER_SIZE]
  {
    if j < k - 1 {
      StoreAt(disk, cells, data, k - 1, j);
      assert cells[j] != cells[k - 1];
    }
  }

  lemma {:induction false} ContentsFrame(disk: Disk, disk': Disk, ch: seq<nat>, k: nat)
    requires k <= |ch| && forall i :: 0 <= i < |ch| ==> ch[i] < CLUSTER_MAP_SIZE
    requires forall i :: 0 <= i < |ch| ==> disk'[ch[i]] == disk[ch[i]]
    ensures ContentsUpTo(disk', ch, k) == ContentsUpTo(disk, ch, k)
  {
    if k > 0 { ContentsFrame(disk, disk', ch, k - 1); }
  }

  /** What was stored over some cells is what reading them in order gives back. */
  lemma {:induction false} ContentsOfStored(disk': Disk, cells: seq<nat>, data: seq<byte>, k: nat)
    requires k <= |cells| && Allocatable(cells) && |cells| * CLUSTER_SIZE <= |data|
    requires forall j :: 0 <= j < |cells| ==>
               disk'[cells[j]] == data[j * CLUSTER_SIZE..(j + 1) * CLUSTER_SIZE]
    ensures ContentsUpTo(disk', cells, k) == data[..k * CLUSTER_SIZE]
  {
    if k > 0 {
      ContentsOfStored(disk', cells, data, k - 1);
      assert disk'[cells[k - 1]] == data[(k - 1) * CLUSTER_SIZE..k * CLUSTER_SIZE];
    }
  }

  // ----- write -----

  /** The cells that a successful write takes. */
  function TakenCells(fs: Fs, r: Request): seq<nat>
    requires WriteCode(fs, r) == 0
  {
    if r.size == 0 then [FirstFree(fs.fat)] else FileCells(fs.fat, ClusterCount(r.size))
  }

  /** The guard of a write: a slot for the entry, a cluster even for a directory, a size in int32. */
  predicate WriteFits(fs: Fs, r: Request)
  {
    r.size < 0x8000_0000 && FreeSlot(Tab(fs, r.parent), 1) != 0 &&
    FreeUpTo(fs.fat, ROOT, CLUSTER_MAP_SIZE) != []
  }

  /** The first k free cells can make a chain. */
  lemma FreeAreAllocatable(f: Fat, k: nat)
    requires k <= |FreeUpTo(f, ROOT, CLUSTER_MAP_SIZE)|
    ensures Allocatable(FreeUpTo(f, ROOT, CLUSTER_MAP_SIZE)[..k])
    ensures forall c :: c in FreeUpTo(f, ROOT, CLUSTER_MAP_SIZE)[..k] ==> c < CLUSTER_MAP_SIZE && f[c] == EMPTY
  {
    hide FreeUpTo;
  }

  /** The call starts well, passes the checks of the source, and is not a directory without a cluster. */
  ghost predicate WriteRuns(fs: Fs, g: Shape, r: Request, data: seq<byte>)
  {
    Inv(fs, g) && r.parent in g.depth && WriteCode(fs, r) == 0 &&
    |data| >= ClusterCount(r.size) * CLUSTER_SIZE &&
    (r.size == 0 ==> FreeUpTo(fs.fat, ROOT, CLUSTER_MAP_SIZE) != [])
  }

  /** The cells taken are the first free ones, whichever of the two scans looks for them. */
  lemma TakenAreFree(fs: Fs, g: Shape, r: Request, data: seq<byte>)
    requires WriteRuns(fs, g, r, data)
    ensures TakenCells(fs, r) <= FreeUpTo(fs.fat, ROOT, CLUSTER_MAP_SIZE)
    ensures TakenCells(fs, r) != [] ==> TakenCells(fs, r)[0] == FirstFree(fs.fat)
    ensures Allocatable(TakenCells(fs, r))
    ensures forall c :: c in TakenCells(fs, r) ==> c < CLUSTER_MAP_SIZE && fs.fat[c] == EMPTY
  {
    hide TreeInv, DiskInv, FreeUpTo, ClusterCount, Find, Tab, Allocatable, ChainOk, OwnerOk, ChainOf;
    assert fs.fat[0] != EMPTY && fs.fat[1] != EMPTY;
    hide FatInv;
    FreeScansAgree(fs.fat, CLUSTER_MAP_SIZE);
    var free := FreeUpTo(fs.fat, ROOT, CLUSTER_MAP_SIZE);
    assert TakenCells(fs, r) == free[..|TakenCells(fs, r)|];
    FreeAreAllocatable(fs.fat, |TakenCells(fs, r)|);
  }

  lemma LinkTaken(fs: Fs, g: Shape, r: Request, data: seq<byte>)
    requires WriteRuns(fs, g, r, data)
    ensures Allocated(fs, r, data).fat == LinkUpTo(fs.fat, TakenCells(fs, r), |TakenCells(fs, r)|)
    ensures forall c :: 0 <= c < CLUSTER_MAP_SIZE && c !in TakenCells(fs, r) ==>
              Allocated(fs, r, data).disk[c] == fs.disk[c]
    ensures r.size == 0 ==>
              Allocated(fs, r, data).disk[FirstFree(fs.fat)] == EncodeTable(NewTable(r.name, r.parent))
  {
    hide FreeUpTo, EncodeTable, NewTable, FatInv, TreeInv, DiskInv, Tab, Find;
    TakenAreFree(fs, g, r, data);
    var cells := TakenCells(fs, r);
    if r.size == 0 {
      assert LinkUpTo(fs.fat, cells, 1) == LinkUpTo(fs.fat, cells, 0)[cells[0] := END_OF_FILE];
    } else {
      forall c | 0 <= c < CLUSTER_MAP_SIZE && c !in cells
        ensures Allocated(fs, r, data).disk[c] == fs.disk[c]
      {
        StoreFrame(fs.disk, cells, data, |cells|, c);
      }
    }
  }

  lemma FlushTabs(fs: Fs, p: ClusterNo, t: Table)
    requires p != FAT_CLUSTER && p != 0 && Signed(fs.disk[0])
    ensures Tab(Flush(fs, p, t), p) == t && DiskInv(Flush(fs, p, t))
    ensures forall d :: 0 <= d < CLUSTER_MAP_SIZE && d != p && d != FAT_CLUSTER ==>
              Flush(fs, p, t).disk[d] == fs.disk[d]
  {
    TableRoundTrip(t);
  }

  /** The key of a new entry is new to its table, and it is not the key of a blank entry. */
  lemma WrittenKeyIsNew(fs: Fs, g: Shape, r: Request)
    requires TreeInv(fs, g) && r.parent in g.depth && WriteCode(fs, r) == 0
    requires FreeSlot(Tab(fs, r.parent), 1) != 0
    ensures forall j :: 0 <= j < ENTRIES ==> !Slot(fs, r.parent, j).Matches(r.name, r.ext)
    ensures !BlankKey(r)
  {
    var s := FreeSlot(Tab(fs, r.parent), 1);
    hide DecodeTable, FreeUpTo, FreeSlot;
    assert SlotOk(fs, g, r.parent, s);
    hide TreeInv;
    assert !Tab(fs, r.parent)[s].Matches(r.name, r.ext);
  }

  /** The clusters of the directories are in use, so no write of file data goes over one. */
  lemma DirsAreUsed(fs: Fs, g: Shape, d: nat)
    requires FatInv(fs.fat, g) && TreeInv(fs, g) && d in g.depth
    ensures ROOT <= d < CLUSTER_MAP_SIZE && fs.fat[d] != EMPTY
  {
    DirInTable(fs, g, d);
    HeadIsOwned(fs.fat, g, d);
  }

  ghost predicate WriteReady(fs: Fs, g: Shape, r: Request, data: seq<byte>)
  {
    WriteRuns(fs, g, r, data) && WriteFits(fs, r)
  }

  lemma WrittenTabs(fs: Fs, g: Shape, r: Request, data: seq<byte>)
    requires WriteRuns(fs, g, r, data)
    ensures var fs', t := Written(fs, r, data), Tab(fs, r.parent);
            DiskInv(fs') &&
            Tab(fs', r.parent) == t[FreeSlot(t, 1) := NewEntry(r, FirstFree(fs.fat))] &&
            (forall d :: d in g.depth && d != r.parent && d < CLUSTER_MAP_SIZE ==> Tab(fs', d) == Tab(fs, d)) &&
            (r.size == 0 ==> Tab(fs', FirstFree(fs.fat)) == NewTable(r.name, r.parent))
    ensures forall c :: 0 <= c < CLUSTER_MAP_SIZE && c !in TakenCells(fs, r) && c != r.parent && c != FAT_CLUSTER ==>
              Written(fs, r, data).disk[c] == fs.disk[c]
  {
    hide FreeUpTo, DecodeTable, EncodeTable, EncodeFat, FatInv, TreeInv, FreeSlot, Allocated, FirstFree, Find,
         ClusterCount, NewTable, NewEntry, LinkUpTo;
    var cells, p, t := TakenCells(fs, r), r.parent, Tab(fs, r.parent);
    var fs1 := Allocated(fs, r, data);
    TakenAreFree(fs, g, r, data);
    LinkTaken(fs, g, r, data);
    forall d | d in g.depth
      ensures ROOT <= d < CLUSTER_MAP_SIZE && d !in cells
    {
      DirsAreUsed(fs, g, d);
    }
    FlushTabs(fs1, p, t[FreeSlot(t, 1) := NewEntry(r, FirstFree(fs.fat))]);
    if r.size == 0 {
      TableRoundTrip(NewTable(r.name, p));
    }
  }

  lemma TakenCount(fs: Fs, r: Request)
    requires WriteCode(fs, r) == 0 && r.size < 0x8000_0000
    ensures |TakenCells(fs, r)| == if r.size == 0 then 1 else Blocks(r.size)
  {
    CountIsBlocks(r.size);
  }

  lemma NewEntryFacts(r: Request, first: ClusterNo)
    ensures var e := NewEntry(r, first);
            e.Live() && e.Cluster() == first && e.name == r.name && e.ext == r.ext &&
            e.filesize == r.size && (e.IsDir() <==> r.size == 0)
  {
  }

  /** A successful write that fits adds one entry over fresh cells and changes nothing else. */
  lemma WrittenAdds(fs: Fs, g: Shape, r: Request, data: seq<byte>)
    requires WriteReady(fs, g, r, data)
    ensures Added(fs, Written(fs, r, data), g, TakenCells(fs, r), r.parent,
                  FreeSlot(Tab(fs, r.parent), 1), NewEntry(r, FirstFree(fs.fat)))
  {
    hide FreeUpTo, DecodeTable, EncodeTable, FatInv, TreeInv, FreeSlot, Allocated, FirstFree, TakenCells, Find,
         ClusterCount, DiskInv, LinkUpTo, NewTable, NewEntry, Allocatable, Tab;
    TakenAreFree(fs, g, r, data);
    LinkTaken(fs, g, r, data);
    WrittenKeyIsNew(fs, g, r);
    WrittenTabs(fs, g, r, data);
    TakenCount(fs, r);
    assert TakenCells(fs, r) != [];
    DirInTable(fs, g, r.parent);
    NewEntryFacts(r, FirstFree(fs.fat));
    hide WriteCode;
  }

  /** A write that fits keeps the invariant, with the shape that its entry calls for. */
  ghost function WrittenShape(fs: Fs, g: Shape, r: Request): Shape
    requires WriteCode(fs, r) == 0 && TakenCells(fs, r) != [] && r.parent in g.depth
  {
    AddedShape(g, TakenCells(fs, r), r.parent, FreeSlot(Tab(fs, r.parent), 1), NewEntry(r, FirstFree(fs.fat)))
  }

  lemma WriteKeepsInv(fs: Fs, g: Shape, r: Request, data: seq<byte>)
    requires WriteReady(fs, g, r, data)
    ensures TakenCells(fs, r) != [] && Inv(Written(fs, r, data), WrittenShape(fs, g, r))
  {
    hide FreeUpTo, DecodeTable, EncodeTable, FatInv, TreeInv, FreeSlot, Allocated, FirstFree, TakenCells, Find, Tab,
         Slot, ClusterCount, Written, DiskInv, LinkUpTo, NewTable;
    WrittenAdds(fs, g, r, data);
    AddKeepsInv(fs, Written(fs, r, data), g, TakenCells(fs, r), r.parent,
                FreeSlot(Tab(fs, r.parent), 1), NewEntry(r, FirstFree(fs.fat)));
  }

  /** The caller names a live directory, or a cluster that the driver rejects as one. */
  ghost predicate GoodParent(fs: Fs, g: Shape, p: ClusterNo)
  {
    p in g.depth || !Slot(fs, p, 0).IsDir()
  }

  ghost predicate LiveSlotsKept(fs: Fs, fs': Fs, g: Shape)
  {
    forall d, i :: d in g.depth && 1 <= i < ENTRIES && d < CLUSTER_MAP_SIZE && Slot(fs, d, i).Live() ==>
      Slot(fs', d, i) == Slot(fs, d, i)
  }

  /** Every directory is found again, whatever shape a later state is given. */
  lemma {:induction false} StillDir(fs: Fs, fs': Fs, g: Shape, g': Shape, d: nat)
    requires TreeInv(fs, g) && LiveSlotsKept(fs, fs', g) && d in g.depth
    ensures TreeInv(fs', g') ==> d in g'.depth
    decreases g.depth[d]
  {
    hide Slot;
    assert DirOk(fs, g, d);
    if d != ROOT && TreeInv(fs', g') {
      assert HomeOk(fs, g, d);
      assert DirOk(fs, g, g.home[d].dir);
      StillDir(fs, fs', g, g', g.home[d].dir);
      assert SlotOk(fs', g', g.home[d].dir, g.home[d].slot);
    }
  }

  lemma {:induction false} FollowBound(f: Fat, c: nat, fuel: nat)
    ensures |Follow(f, c, fuel)| <= fuel
    decreases fuel
  {
    if fuel > 0 && c < CLUSTER_MAP_SIZE && f[c] != END_OF_FILE { FollowBound(f, f[c], fuel - 1); }
  }

  /** A directory made when no cluster is free lands on cluster 0 and on the reserved cell 0. */
  lemma NoClusterBreaks(fs: Fs, r: Request, data: seq<byte>, g': Shape)
    requires WriteCode(fs, r) == 0 && r.size == 0 && FreeUpTo(fs.fat, ROOT, CLUSTER_MAP_SIZE) == []
    ensures !Inv(Write(fs, r, data), g')
  {
    hide FreeUpTo, Tab, Find, FreeSlot, TreeInv, DiskInv, NewTable, NewEntry, EncodeTable, ChainOf, ChainOk, OwnerOk;
    assert Write(fs, r, data).fat[0] == END_OF_FILE;
  }

  lemma WrittenKeepsLiveSlots(fs: Fs, g: Shape, r: Request, data: seq<byte>)
    requires WriteRuns(fs, g, r, data)
    ensures LiveSlotsKept(fs, Written(fs, r, data), g)
  {
    hide FreeUpTo, DecodeTable, FatInv, TreeInv, DiskInv, Find, Written, NewEntry, TakenCells, FirstFree;
    WrittenTabs(fs, g, r, data);
  }

  /** What the misfits have in common: the entry is in its slot, and every old directory is one still. */
  lemma MisfitLands(fs: Fs, g: Shape, r: Request, data: seq<byte>, g': Shape)
    requires WriteRuns(fs, g, r, data)
    ensures Slot(Written(fs, r, data), r.parent, FreeSlot(Tab(fs, r.parent), 1)) == NewEntry(r, FirstFree(fs.fat))
    ensures TreeInv(Written(fs, r, data), g') ==> r.parent in g'.depth
    ensures ROOT <= r.parent < CLUSTER_MAP_SIZE
  {
    hide FatInv, TreeInv, DiskInv, DecodeTable, Find, Written, NewEntry, TakenCells, FirstFree, FreeUpTo, FreeSlot,
         ClusterCount, WriteCode;
    DirInTable(fs, g, r.parent);
    WrittenTabs(fs, g, r, data);
    WrittenKeepsLiveSlots(fs, g, r, data);
    StillDir(fs, Written(fs, r, data), g, g', r.parent);
  }

  /** A file written to a full directory takes the place of the directory's own first entry. */
  lemma FullFileBreaks(fs: Fs, g: Shape, r: Request, data: seq<byte>, g': Shape)
    requires WriteRuns(fs, g, r, data) && FreeSlot(Tab(fs, r.parent), 1) == 0 && r.size != 0
    ensures !Inv(Written(fs, r, data), g')
  {
    hide FatInv, DiskInv, DecodeTable, Find, Written, NewEntry, FirstFree, FreeUpTo, FreeSlot, ClusterCount,
         WriteCode, SlotOk, HomeOk, DistinctKeys, Slot;
    MisfitLands(fs, g, r, data, g');
    NewEntryFacts(r, FirstFree(fs.fat));
    assert TreeInv(Written(fs, r, data), g') ==> DirOk(Written(fs, r, data), g', r.parent);
  }

  /**
   A directory made in a full one takes that place too: its parent link then leads down, to a table
   without children.
   */
  lemma FullDirBreaks(fs: Fs, g: Shape, r: Request, data: seq<byte>, g': Shape)
    requires WriteRuns(fs, g, r, data) && FreeSlot(Tab(fs, r.parent), 1) == 0 && r.size == 0
    ensures !Inv(Written(fs, r, data), g')
  {
    hide FatInv, DiskInv, DecodeTable, Find, Written, NewEntry, FirstFree, FreeUpTo, FreeSlot, ClusterCount,
         WriteCode, SlotOk, DistinctKeys;
    var fs', c := Written(fs, r, data), FirstFree(fs.fat);
    MisfitLands(fs, g, r, data, g');
    NewEntryFacts(r, c);
    NewDirIsEmpty(fs, g, r, data);
    assert TreeInv(fs', g') ==> DirOk(fs', g', r.parent);
    assert TreeInv(fs', g') && r.parent != ROOT ==> HomeOk(fs', g', r.parent);
  }

  lemma NewDirIsEmpty(fs: Fs, g: Shape, r: Request, data: seq<byte>)
    requires WriteRuns(fs, g, r, data) && r.size == 0
    ensures ROOT < FirstFree(fs.fat) < CLUSTER_MAP_SIZE
    ensures forall i :: 1 <= i < ENTRIES ==> !Slot(Written(fs, r, data), FirstFree(fs.fat), i).Live()
  {
    hide FatInv, TreeInv, DiskInv, DecodeTable, Find, Written, NewEntry, TakenCells, FreeUpTo, FreeSlot, ClusterCount,
         WriteCode;
    HeadIsOwned(fs.fat, g, ROOT);
    WrittenTabs(fs, g, r, data);
    forall i | 1 <= i < ENTRIES
      ensures !Slot(Written(fs, r, data), FirstFree(fs.fat), i).Live()
    {
      assert NewTable(r.name, r.parent)[i] == BLANK_ENTRY;
    }
  }

  /** An oversized file has no chain of the length that its size asks for. */
  lemma HugeBreaks(fs: Fs, g: Shape, r: Request, data: seq<byte>, g': Shape)
    requires WriteRuns(fs, g, r, data) && FreeSlot(Tab(fs, r.parent), 1) != 0 && r.size >= 0x8000_0000
    ensures !Inv(Written(fs, r, data), g')
  {
    hide FatInv, DiskInv, DecodeTable, Find, Written, NewEntry, FirstFree, FreeUpTo, FreeSlot, ClusterCount,
         WriteCode, DirOk, HomeOk, DistinctKeys, Slot, Follow, Blocks;
    var fs', c := Written(fs, r, data), FirstFree(fs.fat);
    MisfitLands(fs, g, r, data, g');
    NewEntryFacts(r, c);
    CountOfHugeSize(r.size);
    FollowBound(fs'.fat, c, CLUSTER_MAP_SIZE);
    assert TreeInv(fs', g') ==> SlotOk(fs', g', r.parent, FreeSlot(Tab(fs, r.parent), 1));
  }

  lemma SizeIsHuge(fs: Fs, g: Shape, r: Request, data: seq<byte>)
    requires WriteRuns(fs, g, r, data) && !WriteFits(fs, r) && FreeSlot(Tab(fs, r.parent), 1) != 0
    ensures r.size >= 0x8000_0000
  {
    hide Inv, FreeSlot, Tab, FreeUpTo, Find;
    if r.size < 0x8000_0000 { CountIsBlocks(r.size); }
  }

  /** A write that goes through and does not fit leaves no store in order. */
  lemma MisfitBreaks(fs: Fs, g: Shape, r: Request, data: seq<byte>, g': Shape)
    requires WriteRuns(fs, g, r, data) && !WriteFits(fs, r)
    ensures !Inv(Written(fs, r, data), g')
  {
    hide Inv, Written, FreeUpTo, FreeSlot, ClusterCount, WriteCode;
    if FreeSlot(Tab(fs, r.parent), 1) != 0 {
      SizeIsHuge(fs, g, r, data);
      HugeBreaks(fs, g, r, data, g');
    } else if r.size == 0 {
      FullDirBreaks(fs, g, r, data, g');
    } else {
      FullFileBreaks(fs, g, r, data, g');
    }
  }

  /** A write keeps the invariant exactly when it is rejected or fits. */
  lemma WriteSafeIff(fs: Fs, g: Shape, r: Request, data: seq<byte>)
    requires Inv(fs, g) && GoodParent(fs, g, r.parent)
    requires |data| >= ClusterCount(r.size) * CLUSTER_SIZE
    ensures Sound(Write(fs, r, data)) <==> (WriteCode(fs, r) == 0 ==> WriteFits(fs, r))
  {
    hide FatInv, TreeInv, DiskInv, DecodeTable, Find, FreeSlot, FreeUpTo, Written, ClusterCount;
    if WriteCode(fs, r) != 0 {
      assert Inv(Write(fs, r, data), g);
    } else if r.size == 0 && FreeUpTo(fs.fat, ROOT, CLUSTER_MAP_SIZE) == [] {
      forall g' ensures !Inv(Write(fs, r, data), g') { NoClusterBreaks(fs, r, data, g'); }
    } else if !WriteFits(fs, r) {
      forall g' ensures !Inv(Write(fs, r, data), g') { MisfitBreaks(fs, g, r, data, g'); }
    } else {
      WriteKeepsInv(fs, g, r, data);
      assert Inv(Write(fs, r, data), WrittenShape(fs, g, r));
    }
  }

  // ----- delete -----

  ghost predicate DeleteRuns(fs: Fs, g: Shape, r: Request)
  {
    Inv(fs, g) && r.parent in g.depth && DeleteCode(fs, r) == 0
  }

  /** The key of every entry that is not in use. */
  predicate BlankKey(r: Request) { r.name == NO_NAME && r.ext == NO_EXT }

  /** The slot and the chain head of the entry that a delete takes. */
  function DeletedSlot(fs: Fs, r: Request): nat
  {
    Find(Tab(fs, r.parent), r.name, r.ext, 0)
  }

  /** A lookup that ends past the first entry ends at an entry in use, entered in the shape. */
  lemma FoundIsLive(fs: Fs, g: Shape, r: Request)
    requires TreeInv(fs, g) && r.parent in g.depth && !BlankKey(r)
    requires 0 < DeletedSlot(fs, r) < ENTRIES
    ensures var i := DeletedSlot(fs, r); var e := Slot(fs, r.parent, i);
            e.Live() && e.Matches(r.name, r.ext) && SlotOk(fs, g, r.parent, i) &&
            e.Cluster() in g.home && g.home[e.Cluster()] == Place(r.parent, i) &&
            e.Cluster() != ROOT && HomeOk(fs, g, e.Cluster())
    ensures Slot(fs, r.parent, DeletedSlot(fs, r)).IsDir() <==>
            Slot(fs, r.parent, DeletedSlot(fs, r)).Cluster() in g.depth
  {
    hide DecodeTable, DirOk, DistinctKeys, ChainOf;
    DirInTable(fs, g, r.parent);
    var i := DeletedSlot(fs, r);
    assert SlotOk(fs, g, r.parent, i);
    assert HomeOk(fs, g, Slot(fs, r.parent, i).Cluster());
    if Slot(fs, r.parent, i).Cluster() in g.depth {
      DirInTable(fs, g, Slot(fs, r.parent, i).Cluster());
    }
    hide TreeInv;
  }

  lemma DeletedTabs(fs: Fs, g: Shape, r: Request)
    requires DeleteRuns(fs, g, r)
    ensures var fs', t, i := Deleted(fs, r), Tab(fs, r.parent), DeletedSlot(fs, r);
            DiskInv(fs') && Tab(fs', r.parent) == t[i := Removed(t[i])] &&
            (forall d :: d in g.depth && d != r.parent && d < CLUSTER_MAP_SIZE ==> Tab(fs', d) == Tab(fs, d))
    ensures forall c :: 0 <= c < CLUSTER_MAP_SIZE && c != r.parent && c != FAT_CLUSTER ==>
              Deleted(fs, r).disk[c] == fs.disk[c]
  {
    hide DecodeTable, EncodeTable, FatInv, TreeInv, Find, ChainOf, HasLiveChild, Removed, EncodeFat;
    var t, i := Tab(fs, r.parent), DeletedSlot(fs, r);
    forall d | d in g.depth
      ensures ROOT <= d < CLUSTER_MAP_SIZE
    {
      DirInTable(fs, g, d);
    }
    FlushTabs(fs.(fat := Clear(fs.fat, ChainOf(fs.fat, t[i].Cluster()))), r.parent, t[i := Removed(t[i])]);
  }

  /** The first entry of a table can be deleted only from an empty root. */
  lemma FirstEntryIsRoot(fs: Fs, g: Shape, r: Request)
    requires DeleteRuns(fs, g, r) && DeletedSlot(fs, r) == 0
    ensures r.parent == ROOT && !HasLiveChild(Tab(fs, ROOT))
  {
    hide DecodeTable, FatInv, DiskInv, DistinctKeys, ChainOf;
    assert DirOk(fs, g, r.parent);
    assert Slot(fs, r.parent, 0).IsDir();
    if r.parent != ROOT {
      ParentHasChild(fs, g, r.parent);
    }
  }

  /** The directory that a directory's first entry names has at least this child. */
  lemma ParentHasChild(fs: Fs, g: Shape, d: nat)
    requires TreeInv(fs, g) && d in g.depth && d != ROOT
    ensures d < CLUSTER_MAP_SIZE && Slot(fs, d, 0).Cluster() < CLUSTER_MAP_SIZE
    ensures HasLiveChild(Tab(fs, Slot(fs, d, 0).Cluster()))
  {
    hide DecodeTable;
    assert DirOk(fs, g, d);
    assert HomeOk(fs, g, d);
    assert Slot(fs, g.home[d].dir, g.home[d].slot).Live();
  }

  /** A successful delete past the first entry blanks one entry, frees its chain, nothing else. */
  lemma DeletedDrops(fs: Fs, g: Shape, r: Request)
    requires DeleteRuns(fs, g, r) && DeletedSlot(fs, r) != 0 && !BlankKey(r)
    ensures Dropped(fs, Deleted(fs, r), g, Slot(fs, r.parent, DeletedSlot(fs, r)).Cluster())
  {
    FoundIsLive(fs, g, r);
    DeletedTabs(fs, g, r);
    hide DecodeTable, EncodeTable, FatInv, TreeInv, DiskInv, Find, ChainOf, HasLiveChild, SlotOk;
    var h := Slot(fs, r.parent, DeletedSlot(fs, r)).Cluster();
    if h in g.depth {
      DirsAreUsed(fs, g, h);
    }
  }

  ghost function DeletedShape(fs: Fs, g: Shape, r: Request): Shape
    requires DeletedSlot(fs, r) < ENTRIES
  {
    DroppedShape(fs, g, Slot(fs, r.parent, DeletedSlot(fs, r)).Cluster())
  }

  lemma DeleteKeepsInv(fs: Fs, g: Shape, r: Request)
    requires DeleteRuns(fs, g, r) && DeletedSlot(fs, r) != 0 && !BlankKey(r)
    ensures Inv(Deleted(fs, r), DeletedShape(fs, g, r))
  {
    hide DecodeTable, FatInv, TreeInv, DiskInv, Find, Deleted, Dropped, HasLiveChild, ChainOf;
    DeletedDrops(fs, g, r);
    DropKeepsInv(fs, Deleted(fs, r), g, Slot(fs, r.parent, DeletedSlot(fs, r)).Cluster());
  }

  /** Deleting the first entry of the root takes away the mark that makes it a directory in use. */
  lemma FirstEntryBreaks(fs: Fs, g: Shape, r: Request, g': Shape)
    requires DeleteRuns(fs, g, r) && DeletedSlot(fs, r) == 0
    ensures !Inv(Deleted(fs, r), g')
  {
    FirstEntryIsRoot(fs, g, r);
    DeletedTabs(fs, g, r);
    hide DecodeTable, FatInv, DiskInv, Find, Deleted, ChainOf, HasLiveChild;
    assert !Slot(Deleted(fs, r), ROOT, 0).Live();
    assert TreeInv(Deleted(fs, r), g') ==> DirOk(Deleted(fs, r), g', ROOT);
  }

  // ----- delete of the key of unused entries -----

  /** Some cells have been freed, everything else is as it was. */
  ghost predicate Emptied(f: Fat, f': Fat)
  {
    forall c :: 0 <= c < CLUSTER_MAP_SIZE ==> f'[c] == f[c] || f'[c] == EMPTY
  }

  /** A chain that starts with the same cells reaches every cell of the old one before a freed one. */
  lemma {:induction false} SamePrefix(f: Fat, f': Fat, ch: seq<nat>, ch': seq<nat>, k: nat)
    requires IsChain(f, ch) && IsChain(f', ch') && Emptied(f, f') && ch[0] == ch'[0] && k < |ch|
    ensures k < |ch'| && ch'[k] == ch[k] && f'[ch[k]] == f[ch[k]]
    decreases k
  {
    if k > 0 {
      SamePrefix(f, f', ch, ch', k - 1);
      ChainNext(f, ch, k - 1);
      ChainNext(f', ch', k - 1);
    }
    ChainNext(f, ch, k);
    ChainNext(f', ch', k);
    hide IsChain;
  }

  /** No head owns a chain with a cell taken out of it. */
  lemma FreedCellBreaks(f: Fat, f': Fat, g: Shape, g': Shape, c: nat)
    requires FatInv(f, g) && Emptied(f, f') && ROOT <= c < CLUSTER_MAP_SIZE && f[c] != EMPTY && f'[c] == EMPTY
    ensures c in g.owner && g.owner[c] in Heads(g)
    ensures FatInv(f', g') ==> g.owner[c] !in Heads(g')
  {
    hide IsChain, ChainOf;
    assert OwnerOk(f, g, c);
    var h := g.owner[c];
    assert ChainOk(f, g, h);
    var k :| 0 <= k < |ChainOf(f, h)| && ChainOf(f, h)[k] == c;
    if FatInv(f', g') && h in Heads(g') {
      assert ChainOk(f', g', h);
      NonEmpty(f, f', g, g', h);
      SamePrefix(f, f', ChainOf(f, h), ChainOf(f', h), k);
    }
  }

  lemma NonEmpty(f: Fat, f': Fat, g: Shape, g': Shape, h: nat)
    requires ChainOk(f, g, h) && ChainOk(f', g', h)
    ensures ChainOf(f, h) != [] && ChainOf(f', h) != [] && ChainOf(f, h)[0] == ChainOf(f', h)[0]
  {
    hide ChainOf;
  }

  lemma {:induction false} HeadsRemain(fs: Fs, fs': Fs, g: Shape, g': Shape, h: nat)
    requires TreeInv(fs, g) && LiveSlotsKept(fs, fs', g) && h in Heads(g)
    ensures TreeInv(fs', g') ==> h in Heads(g')
  {
    hide Slot, LiveSlotsKept;
    if h != ROOT {
      assert HomeOk(fs, g, h);
      StillDir(fs, fs', g, g', g.home[h].dir);
      KeptSlot(fs, fs', g, h);
      if TreeInv(fs', g') {
        assert SlotOk(fs', g', g.home[h].dir, g.home[h].slot);
      }
    }
  }

  lemma KeptSlot(fs: Fs, fs': Fs, g: Shape, h: nat)
    requires LiveSlotsKept(fs, fs', g) && h in g.home && HomeOk(fs, g, h)
    ensures Slot(fs', g.home[h].dir, g.home[h].slot) == EntryOf(fs, g, h)
  {
  }

  /** The stale chain of an unused entry: its first cells leave the table or belong to somebody else. */
  lemma StaleChain(f: Fat, g: Shape, c: nat)
    requires FatInv(f, g) && c < CLUSTER_MAP_SIZE
    ensures c in ChainOf(f, c)
    ensures f[c] == EMPTY ==> 0 in ChainOf(f, c)
  {
    hide ChainOk, OwnerOk;
    var last := CLUSTER_MAP_SIZE - 1;
    assert Follow(f, c, CLUSTER_MAP_SIZE) == if f[c] == END_OF_FILE then [c] else [c] + Follow(f, f[c], last);
    if f[c] == EMPTY {
      assert Follow(f, 0, last)[0] == 0;
      assert ChainOf(f, c)[1] == 0;
    }
  }

  /** Deleting the key of unused entries frees what the first of them last had, and breaks the store. */
  lemma BlankKeyBreaks(fs: Fs, g: Shape, r: Request, g': Shape)
    requires DeleteRuns(fs, g, r) && BlankKey(r) && DeletedSlot(fs, r) != 0
    ensures !Inv(Deleted(fs, r), g')
  {
    hide DecodeTable, FatInv, TreeInv, DiskInv, Find, Deleted, ChainOf, HasLiveChild, Clear, Slot, LiveSlotsKept;
    var fs', i := Deleted(fs, r), DeletedSlot(fs, r);
    var c := Slot(fs, r.parent, i).Cluster();
    BlankIsUnused(fs, g, r);
    DeletedFat(fs, r);
    assert fs'.fat == Clear(fs.fat, ChainOf(fs.fat, c)) by { SlotIs(fs, r); }
    StaleChain(fs.fat, g, c);
    if 0 in ChainOf(fs.fat, c) || c == 1 {
      ReservedBreaks(fs'.fat, g');
    } else {
      BlankKeepsSlots(fs, g, r);
      FreedCellBreaks(fs.fat, fs'.fat, g, g', c);
      HeadsRemain(fs, fs', g, g', g.owner[c]);
    }
  }

  lemma SlotIs(fs: Fs, r: Request)
    requires DeletedSlot(fs, r) < ENTRIES
    ensures Slot(fs, r.parent, DeletedSlot(fs, r)) == Tab(fs, r.parent)[DeletedSlot(fs, r)]
  {
  }

  lemma ReservedBreaks(f: Fat, g: Shape)
    requires f[0] == EMPTY || f[1] == EMPTY
    ensures !FatInv(f, g)
  {
  }

  lemma BlankIsUnused(fs: Fs, g: Shape, r: Request)
    requires DeleteRuns(fs, g, r) && BlankKey(r) && DeletedSlot(fs, r) != 0
    ensures DeletedSlot(fs, r) < ENTRIES && !Slot(fs, r.parent, DeletedSlot(fs, r)).Live()
    ensures Slot(fs, r.parent, DeletedSlot(fs, r)).Cluster() < CLUSTER_MAP_SIZE
  {
    hide DecodeTable, FatInv, DiskInv, ChainOf, HasLiveChild, DirOk, DistinctKeys;
    DirInTable(fs, g, r.parent);
    assert SlotOk(fs, g, r.parent, DeletedSlot(fs, r));
  }

  lemma BlankKeepsSlots(fs: Fs, g: Shape, r: Request)
    requires DeleteRuns(fs, g, r) && BlankKey(r) && DeletedSlot(fs, r) != 0
    ensures LiveSlotsKept(fs, Deleted(fs, r), g)
  {
    hide DecodeTable, FatInv, DiskInv, TreeInv, Find, Deleted, HasLiveChild;
    BlankIsUnused(fs, g, r);
    DeletedTabs(fs, g, r);
  }

  // ----- exactly when a delete is safe -----

  /**
   A delete keeps the invariant exactly when it does not go through with the first entry or with the
   blank key of unused entries.
   */
  lemma DeleteSafeIff(fs: Fs, g: Shape, r: Request)
    requires Inv(fs, g) && GoodParent(fs, g, r.parent)
    ensures Sound(Delete(fs, r)) <==> (DeleteCode(fs, r) == 0 ==> DeletedSlot(fs, r) != 0 && !BlankKey(r))
    ensures DeleteCode(fs, r) == 0 && DeletedSlot(fs, r) == 0 ==>
              r.parent == ROOT && !HasLiveChild(Tab(fs, ROOT))
  {
    hide FatInv, TreeInv, DiskInv, DecodeTable, Find, Deleted, HasLiveChild;
    if DeleteCode(fs, r) != 0 {
      assert Inv(Delete(fs, r), g);
    } else if DeletedSlot(fs, r) == 0 {
      FirstEntryIsRoot(fs, g, r);
      forall g' ensures !Inv(Delete(fs, r), g') { FirstEntryBreaks(fs, g, r, g'); }
    } else if BlankKey(r) {
      forall g' ensures !Inv(Delete(fs, r), g') { BlankKeyBreaks(fs, g, r, g'); }
    } else {
      DeleteKeepsInv(fs, g, r);
      assert Inv(Delete(fs, r), DeletedShape(fs, g, r));
    }
  }

  // ----- format and boot -----

  /** The shape of an empty store: only the root. */
  const NEW_SHAPE := Shape(map[], map[ROOT := ROOT], map[ROOT := 0])

  /** Formatting any disk whatever gives a store that satisfies the invariant. */
  lemma FormatEstablishesInv(disk: Disk, rootName: Name)
    ensures Inv(Format(disk, rootName), NEW_SHAPE)
  {
    hide DecodeTable, EncodeTable, FsSignature, Follow, ChainOf, EncodeFat, TreeInv;
    var fs, g := Format(disk, rootName), NEW_SHAPE;
    TableRoundTrip(NewTable(rootName, ROOT));
    assert Signed(fs.disk[0]) by { assert SignedCluster(disk[0])[..BLOCK_SIZE] == FsSignature(); }
    assert Tab(fs, ROOT) == NewTable(rootName, ROOT);
    ChainOfChain(fs.fat, [ROOT]);
    hide Format;
    NewRootIsTree(fs, rootName);
    assert FatInv(fs.fat, g);
  }

  lemma NewRootIsTree(fs: Fs, rootName: Name)
    requires Tab(fs, ROOT) == NewTable(rootName, ROOT)
    ensures TreeInv(fs, NEW_SHAPE)
  {
    hide Tab, NewTable, LinkEntry, BLANK_ENTRY, SlotOk, DistinctKeys;
    BlankFacts();
    NewLinkEntry(rootName, ROOT);
    forall i, j | 0 <= i < j < ENTRIES
      ensures DistinctKeys(Tab(fs, ROOT), i, j)
    {
      DeadIsDistinct(Tab(fs, ROOT), i, j);
    }
    forall i | 1 <= i < ENTRIES
      ensures SlotOk(fs, NEW_SHAPE, ROOT, i)
    {
      BlankSlotOk(fs, NEW_SHAPE, ROOT, i);
    }
    assert DirOk(fs, NEW_SHAPE, ROOT);
  }

  lemma DeadIsDistinct(t: Table, i: nat, j: nat)
    requires i < j < ENTRIES && !t[j].Live()
    ensures DistinctKeys(t, i, j)
  {
  }

  /** A boot after any history takes the load branch and finds the same store. */
  lemma BootRestores(fs: Fs, g: Shape, rootName: Name)
    requires Inv(fs, g)
    ensures Boot(fs.disk, rootName) == fs
  {
    FatRoundTrip(fs.fat);
  }

  // ----- write and then delete -----

  lemma FindAfterInsert(t: Table, s: nat, e: Entry)
    requires s < ENTRIES && Find(t, e.name, e.ext, 0) == ENTRIES
    ensures Find(t[s := e], e.name, e.ext, 0) == s
  {
    var t' := t[s := e];
    assert forall j :: 0 <= j < s ==> t'[j] == t[j];
    assert t'[s].Matches(e.name, e.ext);
    hide Find;
  }

  /** The entry that a write has made is the one that a lookup of its key finds. */
  lemma WrittenIsFound(fs: Fs, g: Shape, r: Request, data: seq<byte>)
    requires WriteReady(fs, g, r, data)
    ensures DeletedSlot(Written(fs, r, data), r) == FreeSlot(Tab(fs, r.parent), 1)
    ensures Tab(Written(fs, r, data), r.parent)[FreeSlot(Tab(fs, r.parent), 1)] == NewEntry(r, FirstFree(fs.fat))
    ensures Tab(Written(fs, r, data), r.parent)[0] == Tab(fs, r.parent)[0]
  {
    hide DecodeTable, FatInv, TreeInv, DiskInv, Written, NewEntry, TakenCells, FirstFree, FreeUpTo, ClusterCount,
         FreeSlot, Find, Tab;
    WrittenTabs(fs, g, r, data);
    NewEntryFacts(r, FirstFree(fs.fat));
    FindAfterInsert(Tab(fs, r.parent), FreeSlot(Tab(fs, r.parent), 1), NewEntry(r, FirstFree(fs.fat)));
  }

  lemma NewTableIsChildless(name: Name, parent: ClusterNo)
    ensures !HasLiveChild(NewTable(name, parent))
  {
  }

  lemma WrittenCanBeDeleted(fs: Fs, g: Shape, r: Request, data: seq<byte>)
    requires WriteReady(fs, g, r, data)
    ensures TakenCells(fs, r) != [] && DeleteRuns(Written(fs, r, data), WrittenShape(fs, g, r), r) && !BlankKey(r)
  {
    hide DecodeTable, FatInv, TreeInv, DiskInv, Written, NewEntry, TakenCells, FirstFree, FreeUpTo, ClusterCount,
         FreeSlot, Find, NewTable, HasLiveChild;
    var fs1 := Written(fs, r, data);
    WriteKeepsInv(fs, g, r, data);
    WrittenTabs(fs, g, r, data);
    WrittenIsFound(fs, g, r, data);
    WrittenKeyIsNew(fs, g, r);
    NewEntryFacts(r, FirstFree(fs.fat));
    NewTableIsChildless(r.name, r.parent);
    assert Tab(fs1, r.parent)[0].IsDir();
    hide Tab, WriteCode, Inv;
  }

  /** The chain of the new entry is the cells that the write took. */
  lemma WrittenChain(fs: Fs, g: Shape, r: Request, data: seq<byte>)
    requires WriteReady(fs, g, r, data)
    ensures ChainOf(Written(fs, r, data).fat, FirstFree(fs.fat)) == TakenCells(fs, r)
    ensures TakenCells(fs, r) != [] && FirstFree(fs.fat) !in Heads(g)
    ensures Clear(Written(fs, r, data).fat, TakenCells(fs, r)) == fs.fat
    ensures ChainsKept(fs.fat, Written(fs, r, data).fat, Heads(g))
  {
    hide DecodeTable, FatInv, TreeInv, DiskInv, Written, NewEntry, TakenCells, FirstFree, FreeUpTo, ClusterCount,
         FreeSlot, Find, Tab, NewTable, ChainOf, LinkUpTo, Allocatable, Clear, ChainsKept;
    WrittenAdds(fs, g, r, data);
    NewEntryFacts(r, FirstFree(fs.fat));
    AddKeepsInv(fs, Written(fs, r, data), g, TakenCells(fs, r), r.parent,
                FreeSlot(Tab(fs, r.parent), 1), NewEntry(r, FirstFree(fs.fat)));
    ClearUndoesLink(fs.fat, TakenCells(fs, r));
  }

  /**
   A write followed by a delete of the same key succeeds and gives back the allocation table,
   cell for cell, and every directory table but for the stale rest of one unused entry.
   */
  lemma DeleteUndoesWrite(fs: Fs, g: Shape, r: Request, data: seq<byte>)
    requires WriteReady(fs, g, r, data)
    ensures var fs1 := Written(fs, r, data); var s := FreeSlot(Tab(fs, r.parent), 1);
            DeleteCode(fs1, r) == 0 &&
            Deleted(fs1, r).fat == fs.fat &&
            Tab(Deleted(fs1, r), r.parent) ==
              Tab(fs, r.parent)[s := Removed(NewEntry(r, FirstFree(fs.fat)))] &&
            forall d :: d in g.depth && d != r.parent && d < CLUSTER_MAP_SIZE ==>
              Tab(Deleted(fs1, r), d) == Tab(fs, d)
  {
    hide DecodeTable, FatInv, TreeInv, DiskInv, Written, NewEntry, FreeUpTo, ClusterCount, FreeSlot, ChainOf,
         LinkUpTo, NewTable, HasLiveChild, Find, Allocatable, FirstFree, TakenCells, ChainsKept, Clear, Tab,
         DeleteCode, Deleted, WrittenShape;
    var fs1, s, e := Written(fs, r, data), FreeSlot(Tab(fs, r.parent), 1), NewEntry(r, FirstFree(fs.fat));
    WrittenCanBeDeleted(fs, g, r, data);
    WrittenChain(fs, g, r, data);
    NewEntryFacts(r, FirstFree(fs.fat));
    WrittenTabs(fs, g, r, data);
    WrittenIsFound(fs, g, r, data);
    DeletedTabs(fs1, WrittenShape(fs, g, r), r);
    DeletedFat(fs1, r);
    WrittenShapeDepth(fs, g, r);
    assert Tab(fs, r.parent)[s := e][s := Removed(e)] == Tab(fs, r.parent)[s := Removed(e)];
  }

  lemma DeletedFat(fs: Fs, r: Request)
    requires DeleteCode(fs, r) == 0
    ensures DeletedSlot(fs, r) < ENTRIES
    ensures Deleted(fs, r).fat == Clear(fs.fat, ChainOf(fs.fat, Tab(fs, r.parent)[DeletedSlot(fs, r)].Cluster()))
  {
  }

  lemma WrittenShapeDepth(fs: Fs, g: Shape, r: Request)
    requires WriteCode(fs, r) == 0 && TakenCells(fs, r) != [] && r.parent in g.depth
    ensures forall d :: d in g.depth ==> d in WrittenShape(fs, g, r).depth
  {
  }
}
