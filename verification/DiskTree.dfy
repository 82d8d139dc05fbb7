/** The tree that the directories of a store in order spell out on the disk. */
module DiskTree {
  import opened Bytes
  import opened Layout
  import opened Chains
  import opened Store
  import opened Invariant
  import opened Safety
  import opened Trees

  // ----- the naming convention of the shell -----

  /** Directories, and only they, are entered with the extension "dir". */
  ghost predicate NamedByKind(fs: Fs, d: nat, i: nat)
    requires d < CLUSTER_MAP_SIZE && i < ENTRIES
  {
    Slot(fs, d, i).Live() ==> (Slot(fs, d, i).ext == DIR_EXT <==> Slot(fs, d, i).IsDir())
  }

  ghost predicate Conventional(fs: Fs, g: Shape)
  {
    forall d, i :: d in g.depth && d < CLUSTER_MAP_SIZE && 1 <= i < ENTRIES ==> NamedByKind(fs, d, i)
  }

  /** Formatting starts with the convention, and requests that follow it keep it. */
  lemma FormatIsConventional(disk: Disk, rootName: Name)
    ensures Conventional(Format(disk, rootName), NEW_SHAPE)
  {
    var t := NewTable(rootName, ROOT);
    TableRoundTrip(t);
    assert Tab(Format(disk, rootName), ROOT) == t;
    hide DecodeTable, EncodeTable, EncodeFat, Format;
  }

  /** A write adds at most one directory: the new one. */
  lemma WrittenDepth(fs: Fs, g: Shape, r: Request, data: seq<byte>)
    requires WriteReady(fs, g, r, data)
    ensures TakenCells(fs, r) != []
    ensures forall d :: d in WrittenShape(fs, g, r).depth ==> d in g.depth || (d == FirstFree(fs.fat) && r.size == 0)
    ensures forall d :: d in g.depth ==> d in WrittenShape(fs, g, r).depth
  {
    hide FatInv, TreeInv, DiskInv, NewEntry, TakenCells, FirstFree, FreeUpTo, ClusterCount, WriteCode, FreeSlot,
         ChainOf;
    NewEntryFacts(r, FirstFree(fs.fat));
    TakenAreFree(fs, g, r, data);
    WrittenChain(fs, g, r, data);
  }

  lemma WriteKeepsConvention(fs: Fs, g: Shape, r: Request, data: seq<byte>)
    requires WriteReady(fs, g, r, data) && Conventional(fs, g) && (r.ext == DIR_EXT <==> r.size == 0)
    ensures TakenCells(fs, r) != [] && Conventional(Written(fs, r, data), WrittenShape(fs, g, r))
  {
    hide DecodeTable, FatInv, TreeInv, DiskInv, Written, NewEntry, TakenCells, FirstFree, FreeUpTo, ClusterCount,
         Find, ChainOf, WriteCode, FreeSlot, NewTable, Tab, WrittenShape;
    WrittenTabs(fs, g, r, data);
    WriteKeepsInv(fs, g, r, data);
    WrittenDepth(fs, g, r, data);
    NewEntryFacts(r, FirstFree(fs.fat));
    var fs' := Written(fs, r, data);
    forall d, i | d in WrittenShape(fs, g, r).depth && d < CLUSTER_MAP_SIZE && 1 <= i < ENTRIES
      ensures NamedByKind(fs', d, i)
    {
      if d in g.depth {
        assert NamedByKind(fs, d, i);
      } else {
        assert NewTable(r.name, r.parent)[i] == BLANK_ENTRY;
      }
    }
  }

  lemma DeleteKeepsConvention(fs: Fs, g: Shape, r: Request)
    requires DeleteRuns(fs, g, r) && DeletedSlot(fs, r) != 0 && Conventional(fs, g)
    ensures Conventional(Deleted(fs, r), DeletedShape(fs, g, r))
  {
    hide DecodeTable, FatInv, TreeInv, DiskInv, Deleted, Find, ChainOf, Tab;
    DeletedTabs(fs, g, r);
    forall d, i | d in DeletedShape(fs, g, r).depth && d < CLUSTER_MAP_SIZE && 1 <= i < ENTRIES
      ensures NamedByKind(Deleted(fs, r), d, i)
    {
      assert NamedByKind(fs, d, i);
    }
  }

  // ----- the tree -----

  ghost function MaxDepth(depth: map<nat, nat>): (b: nat)
    ensures forall d :: d in depth ==> depth[d] <= b
  {
    if depth == map[] then 0
    else
      var d :| d in depth;
      var rest := depth - {d};
      var b := Max(depth[d], MaxDepth(rest));
      assert forall c :: c in depth ==> c == d || (c in rest && rest[c] == depth[c]);
      b
  }

  ghost predicate InOrder(fs: Fs, g: Shape)
  {
    Inv(fs, g) && Conventional(fs, g)
  }

  predicate IsBlank(e: Entry) { e.name == NO_NAME && e.ext == NO_EXT }

  /** An entry with the extension "dir" leads one level down, to a directory of the shape. */
  lemma ChildIsDeeper(fs: Fs, g: Shape, d: nat, i: nat)
    requires InOrder(fs, g) && d in g.depth && 1 <= i < ENTRIES
    ensures ROOT <= d < CLUSTER_MAP_SIZE
    ensures IsBlank(Slot(fs, d, i)) <==> !Slot(fs, d, i).Live()
    ensures !IsBlank(Slot(fs, d, i)) && Slot(fs, d, i).ext == DIR_EXT ==>
              Slot(fs, d, i).Cluster() in g.depth && g.depth[Slot(fs, d, i).Cluster()] == g.depth[d] + 1
  {
    hide DecodeTable, FatInv, DiskInv, ChainOf, DistinctKeys;
    DirInTable(fs, g, d);
    assert SlotOk(fs, g, d, i);
    assert NamedByKind(fs, d, i);
    var e := Slot(fs, d, i);
    if e.Live() && e.IsDir() {
      assert HomeOk(fs, g, e.Cluster());
      assert DirOk(fs, g, e.Cluster());
    }
    hide TreeInv, Conventional;
  }

  /** The nodes of the entries of d between slot 1 and slot n. */
  ghost function Kids(fs: Fs, g: Shape, d: nat, n: nat): seq<Node>
    requires InOrder(fs, g) && d in g.depth && n <= ENTRIES
    decreases MaxDepth(g.depth) - g.depth[d], n, 1
  {
    if n <= 1 then []
    else
      ChildIsDeeper(fs, g, d, n - 1);
      Kids(fs, g, d, n - 1) + if IsBlank(Slot(fs, d, n - 1)) then [] else [NodeAt(fs, g, d, n - 1)]
  }

  ghost function NodeAt(fs: Fs, g: Shape, d: nat, i: nat): Node
    requires InOrder(fs, g) && d in g.depth && 1 <= i < ENTRIES && d < CLUSTER_MAP_SIZE && !IsBlank(Slot(fs, d, i))
    decreases MaxDepth(g.depth) - g.depth[d], i, 0
  {
    var e := Slot(fs, d, i);
    ChildIsDeeper(fs, g, d, i);
    if e.ext == DIR_EXT then DirNode(e.name, Kids(fs, g, e.Cluster(), ENTRIES))
    else FileNode(e.name, e.ext, Stored(fs, e))
  }

  /** The tree below a directory. */
  ghost function TreeOf(fs: Fs, g: Shape, d: nat): seq<Node>
    requires InOrder(fs, g) && d in g.depth
  {
    Kids(fs, g, d, ENTRIES)
  }

  lemma KidsStep(fs: Fs, g: Shape, d: nat, i: nat)
    requires InOrder(fs, g) && d in g.depth && i < ENTRIES
    ensures d < CLUSTER_MAP_SIZE
    ensures Kids(fs, g, d, i + 1) ==
            if i == 0 || IsBlank(Slot(fs, d, i)) then Kids(fs, g, d, i) else Kids(fs, g, d, i) + [NodeAt(fs, g, d, i)]
  {
    hide Inv, Conventional, NodeAt, Slot;
    if i > 0 {
      ChildIsDeeper(fs, g, d, i);
    } else {
      assert d < CLUSTER_MAP_SIZE by { DirBound(fs, g, d); }
    }
  }

  /**
   The tree is the entries in use past the first, in their order: a directory with the tree below its
   cluster, a file with its extension and what its chain stores.
   */
  lemma TreeIsEntries(fs: Fs, g: Shape, d: nat) returns (slots: seq<nat>)
    requires InOrder(fs, g) && d in g.depth
    ensures d < CLUSTER_MAP_SIZE && |slots| == |TreeOf(fs, g, d)|
    ensures forall j, k :: 0 <= j < k < |slots| ==> slots[j] < slots[k]
    ensures forall i :: i in slots <==> 1 <= i < 64 && Slot(fs, d, i).user == 0xAA
    ensures forall k :: 0 <= k < |slots| ==>
              slots[k] in slots && IsNodeOf(fs, g, TreeOf(fs, g, d)[k], Slot(fs, d, slots[k]))
  {
    slots := KidsAreEntries(fs, g, d, ENTRIES);
  }

  /** The node shows the entry. */
  ghost predicate IsNodeOf(fs: Fs, g: Shape, node: Node, e: Entry)
    requires InOrder(fs, g)
  {
    if e.attribute == 0x10 then
      node.DirNode? && node.name == e.name && e.Cluster() in g.depth && node.kids == TreeOf(fs, g, e.Cluster())
    else node.FileNode? && node.name == e.name && node.ext == e.ext && node.content == Stored(fs, e)
  }

  lemma {:induction false} KidsAreEntries(fs: Fs, g: Shape, d: nat, n: nat) returns (slots: seq<nat>)
    requires InOrder(fs, g) && d in g.depth && n <= ENTRIES
    ensures d < CLUSTER_MAP_SIZE && |slots| == |Kids(fs, g, d, n)|
    ensures forall j, k :: 0 <= j < k < |slots| ==> slots[j] < slots[k]
    ensures forall i :: i in slots <==> 1 <= i < n && Slot(fs, d, i).user == 0xAA
    ensures forall k :: 0 <= k < |slots| ==>
              slots[k] in slots && IsNodeOf(fs, g, Kids(fs, g, d, n)[k], Slot(fs, d, slots[k]))
    decreases n
  {
    hide Inv, Conventional, Kids, NodeAt, IsNodeOf, Slot, IsBlank;
    DirBound(fs, g, d);
    slots := [];
    if n == 0 {
      KidsAtStart(fs, g, d);
    } else {
      slots := KidsAreEntries(fs, g, d, n - 1);
      KidsStep(fs, g, d, n - 1);
      if n > 1 {
        NodeShowsEntry(fs, g, d, n - 1);
        if !IsBlank(Slot(fs, d, n - 1)) {
          slots := slots + [n - 1];
        }
      }
    }
  }

  lemma KidsAtStart(fs: Fs, g: Shape, d: nat)
    requires InOrder(fs, g) && d in g.depth
    ensures Kids(fs, g, d, 0) == []
  {
  }

  lemma NodeShowsEntry(fs: Fs, g: Shape, d: nat, i: nat)
    requires InOrder(fs, g) && d in g.depth && 1 <= i < ENTRIES
    ensures d < CLUSTER_MAP_SIZE && (IsBlank(Slot(fs, d, i)) <==> Slot(fs, d, i).user != 0xAA)
    ensures !IsBlank(Slot(fs, d, i)) ==> IsNodeOf(fs, g, NodeAt(fs, g, d, i), Slot(fs, d, i))
  {
    hide Inv, Kids, Stored, Tab;
    ChildIsDeeper(fs, g, d, i);
    assert NamedByKind(fs, d, i);
    hide Conventional;
  }

  lemma DirBound(fs: Fs, g: Shape, d: nat)
    requires InOrder(fs, g) && d in g.depth
    ensures ROOT <= d < CLUSTER_MAP_SIZE
  {
    DirInTable(fs, g, d);
  }

  /** The first entry of a table is neither a directory nor a file to any of the walks. */
  lemma FirstEntryIsSkipped(fs: Fs, g: Shape, d: nat)
    requires InOrder(fs, g) && d in g.depth
    ensures d < CLUSTER_MAP_SIZE && Slot(fs, d, 0).ext == NO_EXT
    ensures Compare(NO_EXT, DIR_EXT) == -1
  {
    hide DecodeTable, FatInv, DiskInv, ChainOf, DistinctKeys, SlotOk;
    assert DirOk(fs, g, d);
  }

  /** A lookup of the key of a live entry finds that entry. */
  lemma OwnKeyIsFound(fs: Fs, g: Shape, d: nat, i: nat)
    requires TreeInv(fs, g) && d in g.depth && 1 <= i < ENTRIES && d < CLUSTER_MAP_SIZE
    requires Slot(fs, d, i).Live() && Slot(fs, d, i).ext != NO_EXT
    ensures Find(Tab(fs, d), Slot(fs, d, i).name, Slot(fs, d, i).ext, 0) == i
    ensures Slot(fs, d, 0).IsDir()
  {
    var e := Slot(fs, d, i);
    var j := Find(Tab(fs, d), e.name, e.ext, 0);
    assert DirOk(fs, g, d);
    hide DecodeTable, Find, HomeOk, ChainOf;
    assert Slot(fs, d, j).Matches(e.name, e.ext);
    assert SlotOk(fs, g, d, j);
    assert j < i ==> DistinctKeys(Tab(fs, d), j, i);
    hide TreeInv, DirOk, SlotOk;
  }

  /** A file entry is the one that a read of its own key finds, and the read goes through. */
  lemma OwnKeyIsRead(fs: Fs, g: Shape, d: nat, i: nat)
    requires InOrder(fs, g) && d in g.depth && 1 <= i < ENTRIES && d < CLUSTER_MAP_SIZE
    requires !IsBlank(Slot(fs, d, i)) && Slot(fs, d, i).ext == TXT_EXT
    ensures var e := Slot(fs, d, i); var r := Request(e.name, e.ext, d, e.filesize);
            GoodParent(fs, g, d) && ReadCode(fs, r) == 0 && ReadData(fs, r) == Stored(fs, e)
  {
    hide DecodeTable, FatInv, DiskInv, TreeInv, ChainOf, Stored, Find, HomeOk;
    ChildIsDeeper(fs, g, d, i);
    OwnKeyIsFound(fs, g, d, i);
    assert NamedByKind(fs, d, i);
    hide Conventional;
  }
}
