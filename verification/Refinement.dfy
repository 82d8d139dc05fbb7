/**
 The store as a user sees it: a map from (directory, name, extension) to files and directories.
 Every legal run of reads, writes and deletes is a run of this map.
 */
module Refinement {
  import opened Bytes
  import opened Layout
  import opened Chains
  import opened Store
  import opened Invariant
  import opened Safety

  datatype Key = Key(dir: nat, name: Name, ext: Ext)

  datatype Item = File(bytes: seq<byte>) | Directory(cluster: nat)

  /** The items of all directories, and for each directory the name it carries itself. */
  datatype Abstract = Abstract(items: map<Key, Item>, names: map<nat, Name>)

  function Prefix(s: seq<byte>, n: nat): seq<byte> { if n <= |s| then s[..n] else s }

  /** What an entry stands for. */
  function ItemOf(fs: Fs, e: Entry): Item
  {
    if e.IsDir() then Directory(e.Cluster()) else File(Prefix(Stored(fs, e), e.filesize))
  }

  function KeyOf(fs: Fs, g: Shape, h: nat): Key
    requires h in g.home && g.home[h].dir < CLUSTER_MAP_SIZE && g.home[h].slot < ENTRIES
  {
    Key(g.home[h].dir, EntryOf(fs, g, h).name, EntryOf(fs, g, h).ext)
  }

  ghost predicate Listed(fs: Fs, g: Shape, a: Abstract, h: nat)
    requires h in g.home
  {
    g.home[h].dir < CLUSTER_MAP_SIZE && g.home[h].slot < ENTRIES &&
    KeyOf(fs, g, h) in a.items && a.items[KeyOf(fs, g, h)] == ItemOf(fs, EntryOf(fs, g, h))
  }

  ghost predicate HasHead(fs: Fs, g: Shape, k: Key)
  {
    exists h :: h in g.home && g.home[h].dir < CLUSTER_MAP_SIZE && g.home[h].slot < ENTRIES && KeyOf(fs, g, h) == k
  }

  ghost predicate Represents(fs: Fs, g: Shape, a: Abstract)
  {
    a.names.Keys == g.depth.Keys &&
    (forall d :: d in g.depth ==> d < CLUSTER_MAP_SIZE && a.names[d] == Slot(fs, d, 0).name) &&
    (forall h :: h in g.home ==> Listed(fs, g, a, h)) &&
    (forall k :: k in a.items ==> HasHead(fs, g, k))
  }

  // ----- different heads carry different keys -----

  lemma KeysAreInjective(fs: Fs, g: Shape, h: nat, o: nat)
    requires TreeInv(fs, g) && h in g.home && o in g.home
    ensures HomeOk(fs, g, h) && HomeOk(fs, g, o)
    ensures KeyOf(fs, g, h) == KeyOf(fs, g, o) ==> h == o
  {
    hide DecodeTable, SlotOk, DirOk;
    assert HomeOk(fs, g, h) && HomeOk(fs, g, o);
    var i, j := g.home[h].slot, g.home[o].slot;
    if g.home[h].dir == g.home[o].dir {
      if i < j {
        assert DistinctKeys(Tab(fs, g.home[h].dir), i, j);
      } else if j < i {
        assert DistinctKeys(Tab(fs, g.home[h].dir), j, i);
      }
    }
  }

  // ----- file contents under the two kinds of step -----

  /** The chain of a file holds no directory and none of the first two clusters. */
  lemma FileCellsApart(fs: Fs, g: Shape, h: nat, d: nat, c: nat)
    requires FatInv(fs.fat, g) && TreeInv(fs, g) && h in g.home && h !in g.depth && d in g.depth
    requires c in ChainOf(fs.fat, h)
    ensures c != d && ROOT <= c < CLUSTER_MAP_SIZE && fs.fat[c] != EMPTY
  {
    hide ChainOf, DecodeTable, IsChain;
    DirInTable(fs, g, d);
    HeadIsOwned(fs.fat, g, d);
    assert ChainOk(fs.fat, g, h);
    assert OwnerOk(fs.fat, g, c);
  }

  /** A file reads the same when its entry, its chain and the clusters of its chain are the same. */
  lemma StoredFrame(fs: Fs, fs': Fs, e: Entry)
    requires ChainOf(fs'.fat, e.Cluster()) == ChainOf(fs.fat, e.Cluster())
    requires forall c :: c in ChainOf(fs.fat, e.Cluster()) && c < CLUSTER_MAP_SIZE ==> fs'.disk[c] == fs.disk[c]
    ensures Stored(fs', e) == Stored(fs, e)
  {
    FollowInTable(fs.fat, e.Cluster(), CLUSTER_MAP_SIZE);
    var ch := ChainOf(fs.fat, e.Cluster());
    ContentsFrame(fs.disk, fs'.disk, ch, |ch|);
  }

  /** An entry stands for the same thing when its chain is kept and used clusters other than p are. */
  lemma ItemFrame(fs: Fs, fs': Fs, g: Shape, p: nat, h: nat)
    requires FatInv(fs.fat, g) && TreeInv(fs, g) && h in g.home && p in g.depth
    requires ChainOf(fs'.fat, h) == ChainOf(fs.fat, h)
    requires forall c :: ROOT <= c < CLUSTER_MAP_SIZE && c != p && fs.fat[c] != EMPTY ==> fs'.disk[c] == fs.disk[c]
    ensures HomeOk(fs, g, h)
    ensures ItemOf(fs', EntryOf(fs, g, h)) == ItemOf(fs, EntryOf(fs, g, h))
  {
    hide DecodeTable, ChainOf, Stored, DirOk;
    assert HomeOk(fs, g, h);
    var e := EntryOf(fs, g, h);
    DirInTable(fs, g, g.home[h].dir);
    assert SlotOk(fs, g, g.home[h].dir, g.home[h].slot);
    if !e.IsDir() {
      forall c | c in ChainOf(fs.fat, h) && c < CLUSTER_MAP_SIZE
        ensures fs'.disk[c] == fs.disk[c]
      {
        FileCellsApart(fs, g, h, p, c);
      }
      StoredFrame(fs, fs', e);
    }
  }

  // ----- what a write does to the items -----

  lemma UsedDiskKept(fs: Fs, g: Shape, r: Request, data: seq<byte>)
    requires WriteReady(fs, g, r, data)
    ensures forall c :: ROOT <= c < CLUSTER_MAP_SIZE && c != r.parent && fs.fat[c] != EMPTY ==>
              Written(fs, r, data).disk[c] == fs.disk[c]
  {
    hide DecodeTable, Written, NewEntry, TakenCells, FirstFree, FreeUpTo, ClusterCount, FreeSlot, Find, Tab, FatInv,
         TreeInv, DiskInv, WriteCode;
    WrittenTabs(fs, g, r, data);
    TakenAreFree(fs, g, r, data);
  }

  /** The clusters of a new file hold the data, one after the other. */
  lemma WrittenClusters(fs: Fs, g: Shape, r: Request, data: seq<byte>)
    requires WriteReady(fs, g, r, data) && r.size != 0
    ensures |TakenCells(fs, r)| * CLUSTER_SIZE <= |data|
    ensures forall j :: 0 <= j < |TakenCells(fs, r)| ==>
              TakenCells(fs, r)[j] < CLUSTER_MAP_SIZE &&
              Written(fs, r, data).disk[TakenCells(fs, r)[j]] == data[j * CLUSTER_SIZE..(j + 1) * CLUSTER_SIZE]
  {
    hide DecodeTable, EncodeTable, EncodeFat, FatInv, TreeInv, DiskInv, FreeUpTo, ClusterCount, TakenCells, FirstFree,
         NewEntry, WriteCode, FreeSlot, Written, StoreUpTo;
    var cells := TakenCells(fs, r);
    TakenAreFree(fs, g, r, data);
    DirsAreUsed(fs, g, r.parent);
    WrittenDiskAt(fs, r, data, 0);
    forall j | 0 <= j < |cells|
      ensures Written(fs, r, data).disk[cells[j]] == data[j * CLUSTER_SIZE..(j + 1) * CLUSTER_SIZE]
    {
      StoreAt(fs.disk, cells, data, |cells|, j);
      assert cells[j] in cells;
      WrittenDiskAt(fs, r, data, cells[j]);
    }
  }

  /** Away from the two flushed clusters, the disk after a file write is the disk with the data stored. */
  lemma WrittenDiskAt(fs: Fs, r: Request, data: seq<byte>, c: nat)
    requires WriteCode(fs, r) == 0 && r.size != 0 && |data| >= ClusterCount(r.size) * CLUSTER_SIZE
    requires c < CLUSTER_MAP_SIZE && c != r.parent && c != FAT_CLUSTER
    ensures |TakenCells(fs, r)| == ClusterCount(r.size)
    ensures Written(fs, r, data).disk[c] == StoreUpTo(fs.disk, TakenCells(fs, r), data, |TakenCells(fs, r)|)[c]
  {
    hide DecodeTable, EncodeTable, EncodeFat, FreeUpTo, ClusterCount, StoreUpTo, LinkUpTo;
  }

  /** What the new entry stands for: the directory, or the first size bytes of the data. */
  function NewItem(fs: Fs, r: Request, data: seq<byte>): Item
  {
    if r.size == 0 then Directory(FirstFree(fs.fat)) else File(Prefix(data, r.size))
  }

  lemma WrittenItem(fs: Fs, g: Shape, r: Request, data: seq<byte>)
    requires WriteReady(fs, g, r, data)
    ensures ItemOf(Written(fs, r, data), NewEntry(r, FirstFree(fs.fat))) == NewItem(fs, r, data)
    ensures r.size != 0 ==> |data| >= r.size
  {
    hide DecodeTable, FatInv, TreeInv, DiskInv, FreeUpTo, ClusterCount, TakenCells, FirstFree, NewEntry, WriteCode,
         FreeSlot, Written, ChainOf, ContentsUpTo;
    NewEntryFacts(r, FirstFree(fs.fat));
    if r.size != 0 {
      TakenCount(fs, r);
      TakenAreFree(fs, g, r, data);
      WrittenChain(fs, g, r, data);
      WrittenClusters(fs, g, r, data);
      var cells := TakenCells(fs, r);
      ContentsOfStored(Written(fs, r, data).disk, cells, data, |cells|);
    }
  }

  function KeyIn(r: Request): Key { Key(r.parent, r.name, r.ext) }

  function AfterWrite(a: Abstract, r: Request, item: Item): Abstract
  {
    Abstract(a.items[KeyIn(r) := item],
             if item.Directory? then a.names[item.cluster := r.name] else a.names)
  }

  /** The step that the invariant proofs of an addition speak about. */
  lemma WriteIsAddStep(fs: Fs, g: Shape, r: Request, data: seq<byte>)
    requires WriteReady(fs, g, r, data)
    ensures TakenCells(fs, r) != [] && TakenCells(fs, r)[0] == FirstFree(fs.fat)
    ensures Inv(Written(fs, r, data), WrittenShape(fs, g, r))
    ensures AddStep(fs, Written(fs, r, data), g, WrittenShape(fs, g, r), TakenCells(fs, r), r.parent,
                    FreeSlot(Tab(fs, r.parent), 1), NewEntry(r, FirstFree(fs.fat)))
  {
    hide DecodeTable, FatInv, TreeInv, DiskInv, FreeUpTo, ClusterCount, TakenCells, FirstFree, NewEntry, WriteCode,
         FreeSlot, Written, ChainOf, Added, Tab, AddedShape;
    WriteKeepsInv(fs, g, r, data);
    WrittenAdds(fs, g, r, data);
    WrittenChain(fs, g, r, data);
    TakenAreFree(fs, g, r, data);
    DirInTable(fs, g, r.parent);
  }

  lemma WriteListsOld(fs: Fs, g: Shape, a: Abstract, r: Request, data: seq<byte>, h: nat)
    requires WriteReady(fs, g, r, data) && Represents(fs, g, a) && h in g.home
    ensures TakenCells(fs, r) != [] && h in WrittenShape(fs, g, r).home
    ensures Listed(Written(fs, r, data), WrittenShape(fs, g, r), AfterWrite(a, r, NewItem(fs, r, data)), h)
    ensures WrittenShape(fs, g, r).home[h] == g.home[h]
    ensures KeyOf(Written(fs, r, data), WrittenShape(fs, g, r), h) == KeyOf(fs, g, h)
  {
    hide DecodeTable, FatInv, TreeInv, DiskInv, FreeUpTo, ClusterCount, TakenCells, FirstFree, NewEntry, NewItem,
         ItemOf, WriteCode, FreeSlot, Written, ChainOf, HomeOk, WrittenShape, Tab, Slot;
    WriteIsAddStep(fs, g, r, data);
    var fs', g' := Written(fs, r, data), WrittenShape(fs, g, r);
    var s, e := FreeSlot(Tab(fs, r.parent), 1), NewEntry(r, FirstFree(fs.fat));
    UsedDiskKept(fs, g, r, data);
    AddedEntry(fs, fs', g, g', TakenCells(fs, r), r.parent, s, e, h);
    assert ChainOf(fs'.fat, h) == ChainOf(fs.fat, h);
    hide AddStep;
    ItemFrame(fs, fs', g, r.parent, h);
    assert Listed(fs, g, a, h);
    hide Represents;
    WrittenKey(fs, g, r, data);
    KeysAreInjective(fs', g', h, FirstFree(fs.fat));
    FreshHead(fs, g, r, data);
  }

  lemma FreshHead(fs: Fs, g: Shape, r: Request, data: seq<byte>)
    requires WriteReady(fs, g, r, data)
    ensures FirstFree(fs.fat) !in g.home && FirstFree(fs.fat) !in g.depth
    ensures ROOT < FirstFree(fs.fat) < CLUSTER_MAP_SIZE
  {
    hide DecodeTable, FatInv, DiskInv, FreeUpTo, ClusterCount, TakenCells, FirstFree, WriteCode, ChainOf;
    WrittenChain(fs, g, r, data);
    TakenAreFree(fs, g, r, data);
    assert ROOT <= TakenCells(fs, r)[0];
    if FirstFree(fs.fat) in g.depth { DirInTable(fs, g, FirstFree(fs.fat)); }
  }

  lemma WrittenKey(fs: Fs, g: Shape, r: Request, data: seq<byte>)
    requires WriteReady(fs, g, r, data)
    ensures TakenCells(fs, r) != [] && TakenCells(fs, r)[0] == FirstFree(fs.fat)
    ensures var g' := WrittenShape(fs, g, r);
            FirstFree(fs.fat) in g'.home && g'.home[FirstFree(fs.fat)].slot < ENTRIES &&
            KeyOf(Written(fs, r, data), g', FirstFree(fs.fat)) == KeyIn(r) &&
            EntryOf(Written(fs, r, data), g', FirstFree(fs.fat)) == NewEntry(r, FirstFree(fs.fat))
  {
    hide DecodeTable, FatInv, TreeInv, DiskInv, FreeUpTo, ClusterCount, TakenCells, FirstFree, NewEntry, WriteCode,
         FreeSlot, Written, ChainOf;
    NewEntryFacts(r, FirstFree(fs.fat));
    WrittenTabs(fs, g, r, data);
    WrittenChain(fs, g, r, data);
    TakenAreFree(fs, g, r, data);
  }

  /** A successful write that fits is one new item under its key, and nothing else. */
  lemma WriteRepresents(fs: Fs, g: Shape, a: Abstract, r: Request, data: seq<byte>)
    requires WriteReady(fs, g, r, data) && Represents(fs, g, a)
    ensures TakenCells(fs, r) != []
    ensures Represents(Written(fs, r, data), WrittenShape(fs, g, r), AfterWrite(a, r, NewItem(fs, r, data)))
    ensures KeyIn(r) !in a.items && !(r.name == a.names[r.parent] && r.ext == NO_EXT)
    ensures r.size == 0 ==> FirstFree(fs.fat) !in a.names && ROOT < FirstFree(fs.fat) < CLUSTER_MAP_SIZE
  {
    hide DecodeTable, FatInv, TreeInv, DiskInv, FreeUpTo, ClusterCount, TakenCells, FirstFree, NewEntry, ItemOf,
         WriteCode, FreeSlot, Written, ChainOf, HomeOk, Tab, Slot, Listed, Allocatable, NewItem, WrittenShape;
    WriteIsAddStep(fs, g, r, data);
    NewHead(fs, g, r, data);
    var fs', g', a' := Written(fs, r, data), WrittenShape(fs, g, r), AfterWrite(a, r, NewItem(fs, r, data));
    WrittenKey(fs, g, r, data);
    WrittenItem(fs, g, r, data);
    NewEntryFacts(r, FirstFree(fs.fat));
    hide AddStep;
    forall h | h in g'.home
      ensures Listed(fs', g', a', h)
    {
      if h in g.home {
        WriteListsOld(fs, g, a, r, data, h);
      } else {
        NewHeadListed(fs, g, a, r, data);
      }
    }
    forall k | k in a'.items
      ensures HasHead(fs', g', k)
    {
      if k != KeyIn(r) {
        assert HasHead(fs, g, k);
        var h :| h in g.home && g.home[h].dir < CLUSTER_MAP_SIZE && g.home[h].slot < ENTRIES && KeyOf(fs, g, h) == k;
        WriteListsOld(fs, g, a, r, data, h);
      }
    }
    WrittenNames(fs, g, a, r, data);
    WrittenKeyIsAbsent(fs, g, a, r, data);
  }

  lemma NewHead(fs: Fs, g: Shape, r: Request, data: seq<byte>)
    requires WriteReady(fs, g, r, data)
    ensures TakenCells(fs, r) != [] && WrittenShape(fs, g, r).home.Keys == g.home.Keys + {FirstFree(fs.fat)}
  {
    hide DecodeTable, FatInv, TreeInv, DiskInv, FreeUpTo, ClusterCount, TakenCells, FirstFree, NewEntry, WriteCode,
         FreeSlot, Written, ChainOf, Tab, AddStep;
    WriteIsAddStep(fs, g, r, data);
  }

  lemma NewHeadListed(fs: Fs, g: Shape, a: Abstract, r: Request, data: seq<byte>)
    requires WriteReady(fs, g, r, data)
    ensures TakenCells(fs, r) != [] && FirstFree(fs.fat) in WrittenShape(fs, g, r).home
    ensures Listed(Written(fs, r, data), WrittenShape(fs, g, r), AfterWrite(a, r, NewItem(fs, r, data)),
            FirstFree(fs.fat))
  {
    hide DecodeTable, FatInv, TreeInv, DiskInv, FreeUpTo, ClusterCount, TakenCells, FirstFree, NewEntry, ItemOf,
         WriteCode, FreeSlot, Written, ChainOf, HomeOk, Tab, Slot, NewItem;
    WrittenKey(fs, g, r, data);
    WrittenItem(fs, g, r, data);
  }

  lemma WrittenNames(fs: Fs, g: Shape, a: Abstract, r: Request, data: seq<byte>)
    requires WriteReady(fs, g, r, data) && Represents(fs, g, a)
    ensures TakenCells(fs, r) != []
    ensures AfterWrite(a, r, NewItem(fs, r, data)).names.Keys == WrittenShape(fs, g, r).depth.Keys
    ensures forall d :: d in WrittenShape(fs, g, r).depth ==>
              (d < CLUSTER_MAP_SIZE &&
               AfterWrite(a, r, NewItem(fs, r, data)).names[d] == Slot(Written(fs, r, data), d, 0).name)
  {
    hide DecodeTable, FatInv, TreeInv, DiskInv, FreeUpTo, ClusterCount, FirstFree, NewEntry, TakenCells, WriteCode,
         Written, ChainOf, HomeOk, Listed, HasHead, Find;
    WrittenTabs(fs, g, r, data);
    WriteIsAddStep(fs, g, r, data);
    NewEntryFacts(r, FirstFree(fs.fat));
    FreshHead(fs, g, r, data);
    hide AddStep, FreeSlot;
    assert r.size == 0 ==> NewTable(r.name, r.parent)[0].name == r.name;
  }

  /** A key that the lookup of write misses is no key of the map. */
  lemma WrittenKeyIsAbsent(fs: Fs, g: Shape, a: Abstract, r: Request, data: seq<byte>)
    requires WriteReady(fs, g, r, data) && Represents(fs, g, a)
    ensures KeyIn(r) !in a.items && !(r.name == a.names[r.parent] && r.ext == NO_EXT)
    ensures r.size == 0 ==> FirstFree(fs.fat) !in a.names && ROOT < FirstFree(fs.fat) < CLUSTER_MAP_SIZE
  {
    hide DecodeTable, FatInv, DiskInv, FreeUpTo, ClusterCount, FirstFree, TakenCells, WriteCode, ChainOf, Find, Listed;
    WrittenKeyIsNew(fs, g, r);
    TakenAreFree(fs, g, r, data);
    FreshHead(fs, g, r, data);
    assert DirOk(fs, g, r.parent);
    assert KeyIn(r) in a.items ==> HasHead(fs, g, KeyIn(r));
    hide TreeInv;
    forall k | HasHead(fs, g, k) && k.dir == r.parent
      ensures exists i: nat :: i < ENTRIES && Slot(fs, r.parent, i).Matches(k.name, k.ext)
    {
      var h :| h in g.home && g.home[h].dir < CLUSTER_MAP_SIZE && g.home[h].slot < ENTRIES && KeyOf(fs, g, h) == k;
      assert Slot(fs, r.parent, g.home[h].slot).Matches(k.name, k.ext);
    }
  }

  // ----- what a delete does to the items -----

  function AfterDelete(a: Abstract, k: Key): Abstract
    requires k in a.items
  {
    Abstract(a.items - {k}, if a.items[k].Directory? then a.names - {a.items[k].cluster} else a.names)
  }

  ghost predicate DeleteReady(fs: Fs, g: Shape, r: Request)
  {
    DeleteRuns(fs, g, r) && DeletedSlot(fs, r) != 0 && !BlankKey(r)
  }

  function DeletedHead(fs: Fs, r: Request): nat
    requires DeletedSlot(fs, r) < ENTRIES
  {
    Slot(fs, r.parent, DeletedSlot(fs, r)).Cluster()
  }

  lemma DeleteIsDropStep(fs: Fs, g: Shape, r: Request)
    requires DeleteReady(fs, g, r)
    ensures var h := DeletedHead(fs, r);
            h in g.home && HomeOk(fs, g, h) && KeyOf(fs, g, h) == KeyIn(r) &&
            EntryOf(fs, g, h) == Slot(fs, r.parent, DeletedSlot(fs, r)) &&
            (EntryOf(fs, g, h).IsDir() <==> h in g.depth) &&
            Inv(Deleted(fs, r), DeletedShape(fs, g, r)) &&
            DropStep(fs, Deleted(fs, r), g, DeletedShape(fs, g, r), h)
  {
    hide DecodeTable, FatInv, TreeInv, DiskInv, Find, Deleted, Dropped, HasLiveChild, ChainOf, SlotOk;
    FoundIsLive(fs, g, r);
    DeletedDrops(fs, g, r);
    DropKeepsInv(fs, Deleted(fs, r), g, DeletedHead(fs, r));
  }

  lemma DeleteListsOld(fs: Fs, g: Shape, a: Abstract, r: Request, o: nat)
    requires DeleteReady(fs, g, r) && Represents(fs, g, a) && KeyIn(r) in a.items
    requires o in DeletedShape(fs, g, r).home
    ensures o in g.home && o != DeletedHead(fs, r) && DeletedShape(fs, g, r).home[o] == g.home[o]
    ensures Listed(Deleted(fs, r), DeletedShape(fs, g, r), AfterDelete(a, KeyIn(r)), o)
    ensures HomeOk(fs, g, o) && KeyOf(Deleted(fs, r), DeletedShape(fs, g, r), o) == KeyOf(fs, g, o) != KeyIn(r)
  {
    hide DecodeTable, FatInv, TreeInv, DiskInv, Find, Deleted, Dropped, HasLiveChild, ChainOf, SlotOk, Slot, ItemOf,
         DeletedHead, HomeOk, WriteCode;
    DeleteIsDropStep(fs, g, r);
    var fs', g', h := Deleted(fs, r), DeletedShape(fs, g, r), DeletedHead(fs, r);
    DroppedEntry(fs, fs', g, g', h, o);
    assert ChainOf(fs'.fat, o) == ChainOf(fs.fat, o);
    DeletedTabs(fs, g, r);
    ItemFrame(fs, fs', g, r.parent, o);
    assert Listed(fs, g, a, o);
    KeysAreInjective(fs, g, o, h);
  }

  lemma DeletedItem(fs: Fs, g: Shape, a: Abstract, r: Request)
    requires DeleteReady(fs, g, r) && Represents(fs, g, a)
    ensures KeyIn(r) in a.items
    ensures a.items[KeyIn(r)] == ItemOf(fs, Slot(fs, r.parent, DeletedSlot(fs, r)))
  {
    hide DecodeTable, FatInv, TreeInv, DiskInv, Find, Deleted, Dropped, HasLiveChild, ChainOf, SlotOk, Slot, ItemOf,
         DropStep, HomeOk, DeletedShape;
    DeleteIsDropStep(fs, g, r);
    assert Listed(fs, g, a, DeletedHead(fs, r));
  }

  lemma DeletedNames(fs: Fs, g: Shape, a: Abstract, r: Request)
    requires DeleteReady(fs, g, r) && Represents(fs, g, a) && KeyIn(r) in a.items
    ensures AfterDelete(a, KeyIn(r)).names.Keys == DeletedShape(fs, g, r).depth.Keys
    ensures forall d :: d in DeletedShape(fs, g, r).depth ==>
              (d < CLUSTER_MAP_SIZE &&
               AfterDelete(a, KeyIn(r)).names[d] == Slot(Deleted(fs, r), d, 0).name)
  {
    hide DecodeTable, FatInv, TreeInv, DiskInv, Find, Deleted, Dropped, HasLiveChild, ChainOf, SlotOk, Listed,
         HasHead, HomeOk;
    DeletedItem(fs, g, a, r);
    DeleteIsDropStep(fs, g, r);
    DeletedTabs(fs, g, r);
    hide DropStep;
  }

  /** A successful delete past the first entry removes one item, and nothing else. */
  lemma DeleteRepresents(fs: Fs, g: Shape, a: Abstract, r: Request)
    requires DeleteReady(fs, g, r) && Represents(fs, g, a)
    ensures KeyIn(r) in a.items
    ensures Represents(Deleted(fs, r), DeletedShape(fs, g, r), AfterDelete(a, KeyIn(r)))
  {
    hide DecodeTable, FatInv, TreeInv, DiskInv, Find, Deleted, Dropped, HasLiveChild, ChainOf, SlotOk, Slot, ItemOf,
         DropStep, HomeOk, DeletedHead, Listed;
    DeletedItem(fs, g, a, r);
    var fs', g', a' := Deleted(fs, r), DeletedShape(fs, g, r), AfterDelete(a, KeyIn(r));
    forall o | o in g'.home
      ensures Listed(fs', g', a', o)
    {
      DeleteListsOld(fs, g, a, r, o);
    }
    forall k | k in a'.items
      ensures HasHead(fs', g', k)
    {
      assert HasHead(fs, g, k);
      var o :| o in g.home && g.home[o].dir < CLUSTER_MAP_SIZE && g.home[o].slot < ENTRIES && KeyOf(fs, g, o) == k;
      DeleteIsDropStep(fs, g, r);
      DeletedHome(fs, g, r, o);
      DeleteListsOld(fs, g, a, r, o);
    }
    DeletedNames(fs, g, a, r);
  }

  lemma DeletedHome(fs: Fs, g: Shape, r: Request, o: nat)
    requires DeletedSlot(fs, r) < ENTRIES
    ensures o in g.home && o != DeletedHead(fs, r) ==> o in DeletedShape(fs, g, r).home
  {
  }
}
