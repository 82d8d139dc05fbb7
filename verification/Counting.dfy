/**
 Conservation of clusters: free cells, the chains of all entries and the three reserved cells
 make up the table. Capacity and fullness can so be read off the abstract map.
 */
module Counting {
  import opened Bytes
  import opened Layout
  import opened Chains
  import opened Store
  import opened Invariant
  import opened Safety
  import opened Refinement

  // ----- chains and cells -----

  ghost function SumLengths(f: Fat, heads: set<nat>): nat
  {
    if heads == {} then 0 else var h :| h in heads; |ChainOf(f, h)| + SumLengths(f, heads - {h})
  }

  lemma {:induction false} SumRemove(f: Fat, heads: set<nat>, x: nat)
    requires x in heads
    ensures SumLengths(f, heads) == |ChainOf(f, x)| + SumLengths(f, heads - {x})
  {
    hide ChainOf;
    var h :| h in heads && SumLengths(f, heads) == |ChainOf(f, h)| + SumLengths(f, heads - {h});
    if h != x {
      SumRemove(f, heads - {h}, x);
      SumRemove(f, heads - {x}, h);
      assert heads - {h} - {x} == heads - {x} - {h};
    }
  }

  /** The cells owned by the given heads. */
  ghost function OwnedBy(g: Shape, heads: set<nat>): set<nat>
  {
    set c | c in g.owner && g.owner[c] in heads
  }

  lemma {:induction false} OwnedCount(f: Fat, g: Shape, heads: set<nat>)
    requires FatInv(f, g) && heads <= Heads(g)
    ensures |OwnedBy(g, heads)| == SumLengths(f, heads)
  {
    hide ChainOf, FatInv, Heads;
    if heads == {} {
      assert OwnedBy(g, heads) == {} && SumLengths(f, {}) == 0;
    } else {
      var h :| h in heads;
      OwnedCount(f, g, heads - {h});
      SumRemove(f, heads, h);
      OwnedByOne(f, g, h);
      OwnedSplit(g, heads, h);
    }
  }

  lemma OwnedSplit(g: Shape, heads: set<nat>, h: nat)
    requires h in heads
    ensures |OwnedBy(g, heads)| == |OwnedBy(g, heads - {h})| + |OwnedBy(g, {h})|
  {
    assert OwnedBy(g, heads) == OwnedBy(g, heads - {h}) + OwnedBy(g, {h});
    assert OwnedBy(g, heads - {h}) !! OwnedBy(g, {h});
  }

  lemma OwnedByOne(f: Fat, g: Shape, h: nat)
    requires FatInv(f, g) && h in Heads(g)
    ensures |OwnedBy(g, {h})| == |ChainOf(f, h)|
  {
    hide ChainOf;
    assert ChainOk(f, g, h);
    forall c | c in OwnedBy(g, {h}) ensures c in ChainOf(f, h) { assert OwnerOk(f, g, c); }
    assert OwnedBy(g, {h}) == Cells(ChainOf(f, h));
    DistinctSize(ChainOf(f, h));
  }

  lemma ThreeParts(a: set<nat>, b: set<nat>, c: set<nat>)
    requires a !! b && a !! c && b !! c
    ensures |a + b + c| == |a| + |b| + |c|
  {
    assert |(a + b) + c| == |a + b| + |c|;
  }

  /** Every cell is reserved, owned or free, and only one of these. */
  lemma CellsPartition(f: Fat, g: Shape)
    requires FatInv(f, g)
    ensures var used, free := OwnedBy(g, Heads(g)), Cells(FreeUpTo(f, ROOT, CLUSTER_MAP_SIZE));
            {0, 1} !! used && {0, 1} !! free && used !! free &&
            forall c: nat :: c in {0, 1} + used + free <==> c < CLUSTER_MAP_SIZE
  {
    hide ChainOf, FreeUpTo, ChainOk;
    var used, free := OwnedBy(g, Heads(g)), Cells(FreeUpTo(f, ROOT, CLUSTER_MAP_SIZE));
    forall c | c in used
      ensures ROOT <= c < CLUSTER_MAP_SIZE && f[c] != EMPTY
    {
      assert OwnerOk(f, g, c);
    }
    forall c: nat | ROOT <= c < CLUSTER_MAP_SIZE && f[c] != EMPTY
      ensures c in used
    {
      assert OwnerOk(f, g, c);
    }
    hide FatInv, OwnedBy;
  }

  /** Free cells, the chains of all entries, and cells 0, 1 and the root: nothing leaks. */
  lemma CellsAreConserved(fs: Fs, g: Shape)
    requires Inv(fs, g)
    ensures |FreeUpTo(fs.fat, ROOT, CLUSTER_MAP_SIZE)| + SumLengths(fs.fat, g.home.Keys) + 3 == CLUSTER_MAP_SIZE
  {
    hide TreeInv, DiskInv, ChainOf, FreeUpTo, FatInv, Heads, OwnedBy, Cells, SumLengths;
    var free := Cells(FreeUpTo(fs.fat, ROOT, CLUSTER_MAP_SIZE));
    FreeSize(fs.fat);
    SumWithRoot(fs, g);
    OwnedCount(fs.fat, g, Heads(g));
    CellsPartition(fs.fat, g);
    ThreeParts({0, 1}, OwnedBy(g, Heads(g)), free);
    SameSize({0, 1} + OwnedBy(g, Heads(g)) + free);
  }

  lemma FreeSize(f: Fat)
    ensures |Cells(FreeUpTo(f, ROOT, CLUSTER_MAP_SIZE))| == |FreeUpTo(f, ROOT, CLUSTER_MAP_SIZE)|
  {
    hide FreeUpTo, Cells;
    DistinctSize(FreeUpTo(f, ROOT, CLUSTER_MAP_SIZE));
  }

  lemma SumWithRoot(fs: Fs, g: Shape)
    requires FatInv(fs.fat, g) && TreeInv(fs, g)
    ensures SumLengths(fs.fat, Heads(g)) == 1 + SumLengths(fs.fat, g.home.Keys)
  {
    hide TreeInv, ChainOf, SumLengths, ChainOk, OwnerOk;
    RootHasNoHome(fs, g);
    assert Heads(g) - {ROOT} == g.home.Keys;
    SumRemove(fs.fat, Heads(g), ROOT);
  }

  lemma RootHasNoHome(fs: Fs, g: Shape)
    requires TreeInv(fs, g)
    ensures ROOT !in g.home
  {
    forall h | h in g.home ensures h != ROOT { assert HomeOk(fs, g, h); }
  }

  lemma SameSize(s: set<nat>)
    requires forall c: nat :: c in s <==> c < CLUSTER_MAP_SIZE
    ensures |s| == CLUSTER_MAP_SIZE
  {
    var ids: seq<nat> := seq(CLUSTER_MAP_SIZE, i => i);
    DistinctSize(ids);
    forall c: nat ensures c in s <==> c in Cells(ids)
    {
      if c < CLUSTER_MAP_SIZE { assert ids[c] == c; }
    }
    assert s == Cells(ids);
  }

  // ----- items -----

  function BlocksOf(item: Item): nat
  {
    match item
    case File(bytes) => Blocks(|bytes|)
    case Directory(_) => 1
  }

  /** The clusters that the items of the map take up. */
  ghost function Used(items: map<Key, Item>): nat
  {
    if items == map[] then 0 else var k :| k in items; BlocksOf(items[k]) + Used(items - {k})
  }

  lemma {:induction false} UsedRemove(items: map<Key, Item>, x: Key)
    requires x in items
    ensures Used(items) == BlocksOf(items[x]) + Used(items - {x})
  {
    hide BlocksOf;
    var k :| k in items && Used(items) == BlocksOf(items[k]) + Used(items - {k});
    if k != x {
      UsedRemove(items - {k}, x);
      UsedRemove(items - {x}, k);
      assert items - {k} - {x} == items - {x} - {k};
    }
  }

  lemma UsedAdd(items: map<Key, Item>, k: Key, item: Item)
    requires k !in items
    ensures Used(items[k := item]) == Used(items) + BlocksOf(item)
  {
    hide Used, BlocksOf;
    UsedRemove(items[k := item], k);
    assert items[k := item] - {k} == items;
  }

  lemma ChainIsBlocks(fs: Fs, g: Shape, h: nat)
    requires Inv(fs, g) && h in g.home
    ensures HomeOk(fs, g, h)
    ensures |ChainOf(fs.fat, h)| == BlocksOf(ItemOf(fs, EntryOf(fs, g, h)))
    ensures var e := EntryOf(fs, g, h); !e.IsDir() ==> |ItemOf(fs, e).bytes| == e.filesize
  {
    hide FatInv, DecodeTable, ChainOf, DirOk, ContentsUpTo;
    assert HomeOk(fs, g, h);
    DirInTable(fs, g, g.home[h].dir);
    assert SlotOk(fs, g, g.home[h].dir, g.home[h].slot);
  }

  /** Heads and items are counted the same, one head for each key. */
  lemma {:induction false} UsedIsSum(fs: Fs, g: Shape, a: Abstract, heads: set<nat>, items: map<Key, Item>)
    requires Inv(fs, g) && Represents(fs, g, a) && heads <= g.home.Keys
    requires forall h :: h in heads ==>
               (Listed(fs, g, a, h) && KeyOf(fs, g, h) in items &&
                items[KeyOf(fs, g, h)] == a.items[KeyOf(fs, g, h)])
    requires forall k :: k in items ==>
               exists h ::
                 h in heads && g.home[h].dir < CLUSTER_MAP_SIZE && g.home[h].slot < ENTRIES && KeyOf(fs, g, h) == k
    ensures Used(items) == SumLengths(fs.fat, heads)
    decreases heads
  {
    hide ChainOf, DecodeTable, FatInv, TreeInv, DiskInv, Slot, ItemOf, BlocksOf, HasHead, Represents;
    if heads == {} {
      assert items == map[];
    } else {
      var h :| h in heads;
      var k := KeyOf(fs, g, h);
      forall o | o in heads - {h} ensures KeyOf(fs, g, o) != k { KeysAreInjective(fs, g, h, o); }
      UsedIsSum(fs, g, a, heads - {h}, items - {k});
      UsedRemove(items, k);
      SumRemove(fs.fat, heads, h);
      ChainIsBlocks(fs, g, h);
    }
  }

  /** The number of free clusters, from the map alone. */
  lemma FreeFromMap(fs: Fs, g: Shape, a: Abstract)
    requires Inv(fs, g) && Represents(fs, g, a)
    ensures |FreeUpTo(fs.fat, ROOT, CLUSTER_MAP_SIZE)| + Used(a.items) + 3 == CLUSTER_MAP_SIZE
  {
    hide ChainOf, DecodeTable, FatInv, TreeInv, DiskInv, Slot, ItemOf, BlocksOf, FreeUpTo;
    CellsAreConserved(fs, g);
    forall k | k in a.items
      ensures exists h ::
                h in g.home.Keys && g.home[h].dir < CLUSTER_MAP_SIZE && g.home[h].slot < ENTRIES && KeyOf(fs, g, h) == k
    {
      assert HasHead(fs, g, k);
    }
    UsedIsSum(fs, g, a, g.home.Keys, a.items);
  }

  // ----- entries of one directory -----

  ghost function KeysIn(a: Abstract, d: nat): set<Key>
  {
    set k | k in a.items && k.dir == d
  }

  ghost function LiveSlots(t: Table): set<nat>
  {
    set i: nat | i < ENTRIES && 1 <= i && t[i].Live()
  }

  lemma {:induction false} SlotsMatchKeys(t: Table, d: nat, slots: set<nat>, keys: set<Key>)
    requires forall i :: i in slots ==> i < ENTRIES && Key(d, t[i].name, t[i].ext) in keys
    requires forall k :: k in keys ==> exists i :: i in slots && Key(d, t[i].name, t[i].ext) == k
    requires forall i, j :: i in slots && j in slots && i != j ==>
               Key(d, t[i].name, t[i].ext) != Key(d, t[j].name, t[j].ext)
    ensures |slots| == |keys|
    decreases slots
  {
    if slots == {} {
      assert keys == {};
    } else {
      var i :| i in slots;
      var k := Key(d, t[i].name, t[i].ext);
      SlotsMatchKeys(t, d, slots - {i}, keys - {k});
    }
  }

  lemma LiveSlotHasKey(fs: Fs, g: Shape, a: Abstract, d: nat, i: nat)
    requires TreeInv(fs, g) && Represents(fs, g, a) && d in g.depth && 1 <= i < ENTRIES
    ensures d < CLUSTER_MAP_SIZE
    ensures Slot(fs, d, i).Live() ==> Key(d, Slot(fs, d, i).name, Slot(fs, d, i).ext) in KeysIn(a, d)
  {
    hide ChainOf, DecodeTable, ItemOf, DirOk, DistinctKeys;
    assert SlotOk(fs, g, d, i);
    hide TreeInv;
    if Slot(fs, d, i).Live() {
      assert Listed(fs, g, a, Slot(fs, d, i).Cluster());
    }
  }

  lemma KeyHasLiveSlot(fs: Fs, g: Shape, a: Abstract, d: nat, k: Key) returns (i: nat)
    requires TreeInv(fs, g) && Represents(fs, g, a) && d in g.depth && k in KeysIn(a, d)
    ensures d < CLUSTER_MAP_SIZE && 1 <= i < ENTRIES
    ensures Slot(fs, d, i).Live() && Slot(fs, d, i).Matches(k.name, k.ext)
  {
    hide ChainOf, DecodeTable, ItemOf, DirOk, DistinctKeys, SlotOk, Listed;
    assert HasHead(fs, g, k);
    var h :| h in g.home && g.home[h].dir < CLUSTER_MAP_SIZE && g.home[h].slot < ENTRIES && KeyOf(fs, g, h) == k;
    assert HomeOk(fs, g, h);
    i := g.home[h].slot;
  }

  lemma KeysAreSlots(fs: Fs, g: Shape, a: Abstract, d: nat)
    requires Inv(fs, g) && Represents(fs, g, a) && d in g.depth
    ensures d < CLUSTER_MAP_SIZE && |LiveSlots(Tab(fs, d))| == |KeysIn(a, d)|
    ensures HasLiveChild(Tab(fs, d)) <==> KeysIn(a, d) != {}
  {
    hide ChainOf, DecodeTable, FatInv, DiskInv, ItemOf, KeysIn, Represents, DirOk, SlotOk, HomeOk;
    DirInTable(fs, g, d);
    var t := Tab(fs, d);
    forall i, j | 0 <= i < j < ENTRIES && t[i].Live() && t[j].Live()
      ensures Key(d, t[i].name, t[i].ext) != Key(d, t[j].name, t[j].ext)
    {
      assert DistinctKeys(Tab(fs, d), i, j);
    }
    hide TreeInv, Tab;
    forall i | i in LiveSlots(t)
      ensures Key(d, t[i].name, t[i].ext) in KeysIn(a, d)
    {
      LiveSlotHasKey(fs, g, a, d, i);
    }
    forall k | k in KeysIn(a, d)
      ensures k.dir == d && exists i :: i in LiveSlots(t) && Key(d, t[i].name, t[i].ext) == k
    {
      KeyDir(a, d, k);
      var i := KeyHasLiveSlot(fs, g, a, d, k);
      assert i in LiveSlots(t);
    }
    SlotsMatchKeys(t, d, LiveSlots(t), KeysIn(a, d));
    ChildIffLiveSlot(t);
  }

  lemma KeyDir(a: Abstract, d: nat, k: Key)
    requires k in KeysIn(a, d)
    ensures k.dir == d
  {
  }

  lemma ChildIffLiveSlot(t: Table)
    ensures HasLiveChild(t) <==> |LiveSlots(t)| != 0
  {
    if HasLiveChild(t) {
      var i :| 1 <= i < ENTRIES && t[i].Live();
      assert i in LiveSlots(t);
    }
    if |LiveSlots(t)| != 0 {
      var i :| i in LiveSlots(t);
    }
  }

  lemma ProperSize<T>(a: set<T>, b: set<T>, x: T)
    requires a <= b && x in b && x !in a
    ensures |a| < |b|
  {
    SubsetSize(a, b - {x});
  }

  /** A directory has a free slot exactly when it has fewer than 63 items. */
  lemma RoomFromMap(fs: Fs, g: Shape, a: Abstract, d: nat)
    requires Inv(fs, g) && Represents(fs, g, a) && d in g.depth
    ensures d < CLUSTER_MAP_SIZE && (FreeSlot(Tab(fs, d), 1) != 0 <==> |KeysIn(a, d)| < ENTRIES - 1)
  {
    hide ChainOf, DecodeTable, FatInv, DiskInv, TreeInv, Represents, FreeSlot, Tab;
    KeysAreSlots(fs, g, a, d);
    var t := Tab(fs, d);
    var all: seq<nat> := seq(ENTRIES - 1, i => i + 1);
    DistinctSize(all);
    forall i: nat ensures i in Cells(all) <==> 1 <= i < ENTRIES
    {
      if 1 <= i < ENTRIES { assert all[i - 1] == i; }
    }
    assert LiveSlots(t) <= Cells(all);
    SubsetSize(LiveSlots(t), Cells(all));
    if FreeSlot(t, 1) == 0 {
      assert LiveSlots(t) == Cells(all);
    } else {
      ProperSize(LiveSlots(t), Cells(all), FreeSlot(t, 1));
    }
  }
}
