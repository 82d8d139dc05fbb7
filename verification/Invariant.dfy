/**
 The global invariant of the store: chains that are acyclic, disjoint and leak nothing, over
 directories that form a tree. Shape is the ghost witness: where each chain head is entered,
 which head owns each used cell, and how deep each directory lies.
 */
module Invariant {
  import opened Bytes
  import opened Layout
  import opened Chains
  import opened Store

  datatype Place = Place(dir: nat, slot: nat)

  datatype Shape = Shape(home: map<nat, Place>, owner: map<nat, nat>, depth: map<nat, nat>)

  ghost function Heads(g: Shape): set<nat> { g.home.Keys + {ROOT} }

  /** The entry that a chain head is entered under. */
  function EntryOf(fs: Fs, g: Shape, h: nat): Entry
    requires h in g.home && g.home[h].dir < CLUSTER_MAP_SIZE && g.home[h].slot < ENTRIES
  {
    Slot(fs, g.home[h].dir, g.home[h].slot)
  }

  // ----- the allocation table -----

  ghost predicate ChainOk(f: Fat, g: Shape, h: nat)
  {
    var ch := ChainOf(f, h);
    IsChain(f, ch) && ch[0] == h && forall c :: c in ch ==> c in g.owner && g.owner[c] == h
  }

  ghost predicate OwnerOk(f: Fat, g: Shape, c: nat)
  {
    ROOT <= c < CLUSTER_MAP_SIZE && (f[c] != EMPTY <==> c in g.owner) &&
    (c in g.owner ==> g.owner[c] in Heads(g) && c in ChainOf(f, g.owner[c]))
  }

  ghost predicate FatInv(f: Fat, g: Shape)
  {
    f[0] == CLUSTER_0_VALUE && f[1] == CLUSTER_1_VALUE && ChainOf(f, ROOT) == [ROOT] &&
    (forall h :: h in Heads(g) ==> ChainOk(f, g, h)) &&
    (forall c :: c in g.owner || ROOT <= c < CLUSTER_MAP_SIZE ==> OwnerOk(f, g, c))
  }

  // ----- the directory tree -----

  ghost predicate DirOk(fs: Fs, g: Shape, d: nat)
    requires d in g.depth
  {
    ROOT <= d < CLUSTER_MAP_SIZE &&
    var self := Slot(fs, d, 0);
    self.IsDir() && self.Live() && self.ext == NO_EXT &&
    if d == ROOT then self.Cluster() == ROOT && g.depth[d] == 0
    else
      d in g.home && self.Cluster() == g.home[d].dir && g.home[d].dir in g.depth &&
      g.home[d].dir < CLUSTER_MAP_SIZE && g.home[d].slot < ENTRIES &&
      g.depth[d] == g.depth[g.home[d].dir] + 1 &&
      EntryOf(fs, g, d).IsDir() && self.name == EntryOf(fs, g, d).name
  }

  ghost predicate SlotOk(fs: Fs, g: Shape, d: nat, i: nat)
    requires d < CLUSTER_MAP_SIZE && i < ENTRIES
  {
    var e := Slot(fs, d, i);
    e.Cluster() < CLUSTER_MAP_SIZE &&
    if !e.Live() then e.Matches(NO_NAME, NO_EXT)
    else
      !e.Matches(NO_NAME, NO_EXT) &&
      e.Cluster() in g.home && g.home[e.Cluster()] == Place(d, i) &&
      if e.IsDir() then
        e.Cluster() in g.depth && e.filesize == 0 && |ChainOf(fs.fat, e.Cluster())| == 1
      else
        e.Cluster() !in g.depth && e.filesize > 0 &&
        |ChainOf(fs.fat, e.Cluster())| == Blocks(e.filesize)
  }

  ghost predicate HomeOk(fs: Fs, g: Shape, h: nat)
    requires h in g.home
  {
    h != ROOT && g.home[h].dir in g.depth && g.home[h].dir < CLUSTER_MAP_SIZE &&
    1 <= g.home[h].slot < ENTRIES &&
    EntryOf(fs, g, h).Live() && EntryOf(fs, g, h).Cluster() == h
  }

  /** Two entries in use never carry the same name and extension. */
  ghost predicate DistinctKeys(t: Table, i: nat, j: nat)
    requires i < ENTRIES && j < ENTRIES
  {
    t[i].Live() && t[j].Live() ==> !t[i].Matches(t[j].name, t[j].ext)
  }

  ghost predicate TreeInv(fs: Fs, g: Shape)
  {
    ROOT in g.depth &&
    (forall d :: d in g.depth ==> DirOk(fs, g, d)) &&
    (forall h :: h in g.home ==> HomeOk(fs, g, h)) &&
    (forall d, i :: d in g.depth && 1 <= i < ENTRIES ==> SlotOk(fs, g, d, i)) &&
    (forall d, i, j :: d in g.depth && 0 <= i < j < ENTRIES ==> DistinctKeys(Tab(fs, d), i, j))
  }

  /** The boot signature is in place and cluster 1 is the cached table. */
  ghost predicate DiskInv(fs: Fs)
  {
    Signed(fs.disk[0]) && fs.disk[FAT_CLUSTER] == EncodeFat(fs.fat)
  }

  ghost predicate Inv(fs: Fs, g: Shape)
  {
    DiskInv(fs) && FatInv(fs.fat, g) && TreeInv(fs, g)
  }

  ghost predicate Sound(fs: Fs)
  {
    exists g :: Inv(fs, g)
  }

  // ----- adding one entry -----

  /** fs' is fs with the chain cells allocated and entry e for it in slot s of directory p. */
  ghost predicate Added(fs: Fs, fs': Fs, g: Shape, cells: seq<nat>, p: nat, s: nat, e: Entry)
  {
    DiskInv(fs') &&
    p in g.depth && p < CLUSTER_MAP_SIZE && 1 <= s < ENTRIES && !Slot(fs, p, s).Live() &&
    cells != [] && Allocatable(cells) && (forall c :: c in cells ==> fs.fat[c] == EMPTY) &&
    fs'.fat == LinkUpTo(fs.fat, cells, |cells|) &&
    e.Live() && e.Cluster() == cells[0] && !e.Matches(NO_NAME, NO_EXT) &&
    (forall j :: 0 <= j < ENTRIES ==> !Slot(fs, p, j).Matches(e.name, e.ext)) &&
    Tab(fs', p) == Tab(fs, p)[s := e] &&
    (forall d :: d in g.depth && d != p && d < CLUSTER_MAP_SIZE ==> Tab(fs', d) == Tab(fs, d)) &&
    if e.IsDir() then |cells| == 1 && e.filesize == 0 && Tab(fs', cells[0]) == NewTable(e.name, p)
    else e.filesize > 0 && |cells| == Blocks(e.filesize)
  }

  ghost function AddedShape(g: Shape, cells: seq<nat>, p: nat, s: nat, e: Entry): Shape
    requires cells != [] && p in g.depth
  {
    Shape(g.home[cells[0] := Place(p, s)],
          g.owner + (map c | c in cells :: cells[0]),
          if e.IsDir() then g.depth[cells[0] := g.depth[p] + 1] else g.depth)
  }

  // ----- the allocation table when cells are linked -----

  lemma HeadIsOwned(f: Fat, g: Shape, h: nat)
    requires FatInv(f, g) && h in Heads(g)
    ensures ROOT <= h < CLUSTER_MAP_SIZE && h in g.owner && g.owner[h] == h && f[h] != EMPTY
  {
    assert ChainOk(f, g, h);
    assert ChainOf(f, h)[0] in ChainOf(f, h);
    assert OwnerOk(f, g, h);
  }

  /** The cells of a chain are in use, so free cells can change under it. */
  lemma UsedChainFrame(f: Fat, f': Fat, g: Shape, h: nat)
    requires FatInv(f, g) && h in Heads(g)
    requires forall c :: ROOT <= c < CLUSTER_MAP_SIZE && f[c] != EMPTY && f'[c] != f[c] ==> g.owner[c] != h
    ensures IsChain(f', ChainOf(f, h)) && ChainOf(f', h) == ChainOf(f, h)
  {
    assert ChainOk(f, g, h);
    var ch := ChainOf(f, h);
    forall c | c in ch
      ensures f'[c] == f[c]
    {
      assert OwnerOk(f, g, c);
    }
    ChainFrame(f, f', ch);
  }

  ghost predicate LinkStep(f: Fat, f': Fat, g: Shape, g': Shape, cells: seq<nat>)
  {
    cells != [] && Allocatable(cells) && (forall c :: c in cells ==> f[c] == EMPTY) &&
    f' == LinkUpTo(f, cells, |cells|) &&
    Heads(g') == Heads(g) + {cells[0]} &&
    g'.owner == g.owner + (map c | c in cells :: cells[0])
  }

  lemma LinkedOldHead(f: Fat, f': Fat, g: Shape, g': Shape, cells: seq<nat>, h: nat)
    requires FatInv(f, g) && LinkStep(f, f', g, g', cells) && h in Heads(g)
    ensures ChainOf(f', h) == ChainOf(f, h) && ChainOk(f', g', h)
  {
    hide LinkUpTo, Follow, FreeUpTo;
    LinkMakesChain(f, cells);
    UsedChainFrame(f, f', g, h);
    assert ChainOk(f, g, h);
    forall c | c in ChainOf(f, h)
      ensures c !in cells
    {
      assert OwnerOk(f, g, c);
    }
  }

  lemma LinkedCell(f: Fat, f': Fat, g: Shape, g': Shape, cells: seq<nat>, c: nat)
    requires FatInv(f, g) && LinkStep(f, f', g, g', cells) && (c in g'.owner || ROOT <= c < CLUSTER_MAP_SIZE)
    ensures OwnerOk(f', g', c)
  {
    hide LinkUpTo, Follow, FreeUpTo, ChainOk;
    LinkMakesChain(f, cells);
    if c in cells {
      var k :| 0 <= k < |cells| && cells[k] == c;
      assert if k + 1 < |cells| then f'[cells[k]] == cells[k + 1] else c == cells[|cells| - 1];
    } else {
      assert OwnerOk(f, g, c);
      if c in g.owner {
        LinkedOldHead(f, f', g, g', cells, g.owner[c]);
      }
    }
  }

  lemma LinkKeepsFat(f: Fat, f': Fat, g: Shape, g': Shape, cells: seq<nat>)
    requires FatInv(f, g) && LinkStep(f, f', g, g', cells)
    ensures FatInv(f', g')
    ensures forall h :: h in Heads(g) ==> ChainOf(f', h) == ChainOf(f, h)
    ensures ChainOf(f', cells[0]) == cells && cells[0] !in Heads(g)
  {
    hide LinkUpTo, Follow, FreeUpTo, ChainOk, OwnerOk, IsChain, ChainOf, Allocatable;
    LinkMakesChain(f, cells);
    forall h | h in Heads(g) ensures h < CLUSTER_MAP_SIZE && f[h] != EMPTY { HeadIsOwned(f, g, h); }
    assert f[cells[0]] == EMPTY;
    forall h | h in Heads(g)
      ensures ChainOf(f', h) == ChainOf(f, h) && ChainOk(f', g', h)
    {
      LinkedOldHead(f, f', g, g', cells, h);
    }
    LinkedNewHead(f, f', g, g', cells);
    forall c | c in g'.owner || ROOT <= c < CLUSTER_MAP_SIZE
      ensures OwnerOk(f', g', c)
    {
      LinkedCell(f, f', g, g', cells, c);
    }
  }

  lemma LinkedNewHead(f: Fat, f': Fat, g: Shape, g': Shape, cells: seq<nat>)
    requires LinkStep(f, f', g, g', cells)
    ensures ChainOk(f', g', cells[0])
  {
    LinkMakesChain(f, cells);
  }

  // ----- the allocation table when a chain is freed -----

  ghost predicate ClearStep(f: Fat, f': Fat, g: Shape, g': Shape, h: nat)
  {
    h in Heads(g) && h != ROOT && f' == Clear(f, ChainOf(f, h)) &&
    Heads(g') == Heads(g) - {h} &&
    g'.owner == g.owner - Cells(ChainOf(f, h))
  }

  lemma ClearedOtherHead(f: Fat, f': Fat, g: Shape, g': Shape, h: nat, o: nat)
    requires FatInv(f, g) && ClearStep(f, f', g, g', h) && o in Heads(g')
    ensures ChainOf(f', o) == ChainOf(f, o) && ChainOk(f', g', o)
  {
    hide Follow, ChainOf, IsChain;
    assert ChainOk(f, g, h) && ChainOk(f, g, o);
    UsedChainFrame(f, f', g, o);
  }

  lemma ClearKeepsFat(f: Fat, f': Fat, g: Shape, g': Shape, h: nat)
    requires FatInv(f, g) && ClearStep(f, f', g, g', h)
    ensures FatInv(f', g')
    ensures forall o :: o in Heads(g') ==> ChainOf(f', o) == ChainOf(f, o)
  {
    hide Follow, ChainOf, IsChain;
    assert ChainOk(f, g, h);
    forall o | o in Heads(g')
      ensures ChainOf(f', o) == ChainOf(f, o) && ChainOk(f', g', o)
    {
      ClearedOtherHead(f, f', g, g', h, o);
    }
    forall c | c in g'.owner || ROOT <= c < CLUSTER_MAP_SIZE
      ensures OwnerOk(f', g', c)
    {
      assert OwnerOk(f, g, c);
      if c in g.owner && c !in ChainOf(f, h) {
        assert ChainOk(f, g, g.owner[c]);
      }
    }
  }

  // ----- the tree when an entry is added -----

  /** What the tree part of the proof needs to know about the two allocation tables. */
  ghost predicate ChainsKept(f: Fat, f': Fat, heads: set<nat>)
  {
    forall h :: h in heads ==> ChainOf(f', h) == ChainOf(f, h)
  }

  ghost predicate AddStep(fs: Fs, fs': Fs, g: Shape, g': Shape, cells: seq<nat>, p: nat, s: nat, e: Entry)
  {
    Added(fs, fs', g, cells, p, s, e) && g' == AddedShape(g, cells, p, s, e) &&
    cells[0] !in Heads(g) && cells[0] != p &&
    ChainOf(fs'.fat, cells[0]) == cells && ChainsKept(fs.fat, fs'.fat, Heads(g))
  }

  lemma DirInTable(fs: Fs, g: Shape, d: nat)
    requires TreeInv(fs, g) && d in g.depth
    ensures ROOT <= d < CLUSTER_MAP_SIZE && d in Heads(g)
  {
    assert DirOk(fs, g, d);
  }

  lemma AddedSlot(fs: Fs, fs': Fs, g: Shape, g': Shape, cells: seq<nat>, p: nat, s: nat, e: Entry, d: nat, i: nat)
    requires TreeInv(fs, g) && AddStep(fs, fs', g, g', cells, p, s, e)
    requires d in g'.depth && 1 <= i < ENTRIES
    ensures d < CLUSTER_MAP_SIZE && SlotOk(fs', g', d, i)
  {
    hide SlotOk, AddStep, DirOk, DistinctKeys, HomeOk;
    AddedDepth(fs, fs', g, g', cells, p, s, e, d);
    if d !in g.depth {
      BlankSlot(fs, fs', g, g', cells, p, s, e, i);
    } else if d == p && i == s {
      NewSlot(fs, fs', g, g', cells, p, s, e);
    } else {
      OldSlot(fs, fs', g, g', cells, p, s, e, d, i);
    }
  }

  lemma AddedDepth(fs: Fs, fs': Fs, g: Shape, g': Shape, cells: seq<nat>, p: nat, s: nat, e: Entry, d: nat)
    requires AddStep(fs, fs', g, g', cells, p, s, e) && d in g'.depth
    ensures cells != [] && p in g.depth && (d in g.depth || (e.IsDir() && d == cells[0]))
  {
    hide ChainOf, DecodeTable, LinkUpTo, DiskInv, Allocatable, ChainsKept, Tab;
  }

  /** All slots of a new directory but the first are blank. */
  lemma BlankSlot(fs: Fs, fs': Fs, g: Shape, g': Shape, cells: seq<nat>, p: nat, s: nat, e: Entry, i: nat)
    requires AddStep(fs, fs', g, g', cells, p, s, e) && e.IsDir() && 1 <= i < ENTRIES
    ensures cells[0] < CLUSTER_MAP_SIZE && SlotOk(fs', g', cells[0], i)
  {
    hide ChainOf, DecodeTable, LinkUpTo, DiskInv, ChainsKept, Blocks, NewTable;
    assert Tab(fs', cells[0])[i] == NewTable(e.name, p)[i];
    BlankSlotOk(fs', g', cells[0], i);
  }

  lemma BlankSlotOk(fs: Fs, g: Shape, d: nat, i: nat)
    requires d < CLUSTER_MAP_SIZE && i < ENTRIES && Tab(fs, d)[i] == BLANK_ENTRY
    ensures SlotOk(fs, g, d, i)
  {
    hide ChainOf, DecodeTable, Blocks, Tab;
    BlankFacts();
    hide BLANK_ENTRY;
  }

  lemma NewSlot(fs: Fs, fs': Fs, g: Shape, g': Shape, cells: seq<nat>, p: nat, s: nat, e: Entry)
    requires TreeInv(fs, g) && AddStep(fs, fs', g, g', cells, p, s, e)
    ensures p < CLUSTER_MAP_SIZE && s < ENTRIES && SlotOk(fs', g', p, s)
  {
    hide ChainOf, DecodeTable, LinkUpTo, DiskInv, ChainsKept, Blocks, NewTable, DirOk, HomeOk, DistinctKeys;
    forall c | c in g.depth ensures c in Heads(g) { DirInTable(fs, g, c); }
    hide TreeInv;
    assert Slot(fs', p, s) == e;
    hide Slot;
  }

  lemma OldSlot(fs: Fs, fs': Fs, g: Shape, g': Shape, cells: seq<nat>, p: nat, s: nat, e: Entry, d: nat, i: nat)
    requires TreeInv(fs, g) && AddStep(fs, fs', g, g', cells, p, s, e) && d in g.depth
    requires 1 <= i < ENTRIES && !(d == p && i == s)
    ensures d < CLUSTER_MAP_SIZE && SlotOk(fs', g', d, i)
  {
    hide ChainOf, DecodeTable, LinkUpTo, DiskInv, Blocks, NewTable, DirOk, HomeOk, DistinctKeys, Allocatable;
    DirInTable(fs, g, d);
    assert SlotOk(fs, g, d, i);
    forall c | c in g.depth ensures c in Heads(g) { DirInTable(fs, g, c); }
    hide TreeInv;
    assert Slot(fs', d, i) == Slot(fs, d, i);
    hide Slot;
  }

  lemma AddedEntry(fs: Fs, fs': Fs, g: Shape, g': Shape, cells: seq<nat>, p: nat, s: nat, e: Entry, o: nat)
    requires TreeInv(fs, g) && AddStep(fs, fs', g, g', cells, p, s, e) && o in g.home
    ensures HomeOk(fs, g, o) && g.home[o].dir in g'.depth && g'.home[o] == g.home[o]
    ensures g'.depth[g.home[o].dir] == g.depth[g.home[o].dir]
    ensures EntryOf(fs', g', o) == EntryOf(fs, g, o)
  {
    hide ChainOf, DecodeTable, LinkUpTo, DiskInv;
    assert HomeOk(fs, g, o);
    DirInTable(fs, g, g.home[o].dir);
    hide TreeInv;
    assert g.home[o] != Place(p, s);
  }

  lemma AddedDir(fs: Fs, fs': Fs, g: Shape, g': Shape, cells: seq<nat>, p: nat, s: nat, e: Entry, d: nat)
    requires TreeInv(fs, g) && AddStep(fs, fs', g, g', cells, p, s, e) && d in g'.depth
    ensures DirOk(fs', g', d)
  {
    hide ChainOf, DecodeTable, LinkUpTo, DiskInv, LinkEntry, ChainsKept, Blocks, SlotOk, DistinctKeys;
    DirInTable(fs, g, p);
    if d in g.depth {
      DirInTable(fs, g, d);
      assert DirOk(fs, g, d);
      assert Slot(fs', d, 0) == Slot(fs, d, 0);
      hide TreeInv, Slot;
      if d != ROOT {
        AddedEntry(fs, fs', g, g', cells, p, s, e, d);
      }
      hide Added;
    } else {
      hide TreeInv;
      AddedSelf(fs, fs', g, g', cells, p, s, e);
    }
  }

  /** The directory that the step itself adds. */
  lemma AddedSelf(fs: Fs, fs': Fs, g: Shape, g': Shape, cells: seq<nat>, p: nat, s: nat, e: Entry)
    requires AddStep(fs, fs', g, g', cells, p, s, e) && e.IsDir() && ROOT <= p && cells[0] != ROOT
    ensures cells[0] in g'.depth && DirOk(fs', g', cells[0])
  {
    hide ChainOf, DecodeTable, LinkUpTo, DiskInv, LinkEntry, ChainsKept, Blocks;
    var d := cells[0];
    assert Slot(fs', d, 0) == LinkEntry(e.name, p);
    assert EntryOf(fs', g', d) == e;
    NewLinkEntry(e.name, p);
  }

  lemma NewLinkEntry(name: Name, p: ClusterNo)
    ensures var e := LinkEntry(name, p); e.IsDir() && e.Live() && e.ext == NO_EXT && e.name == name && e.Cluster() == p
  {
  }

  lemma AddedHome(fs: Fs, fs': Fs, g: Shape, g': Shape, cells: seq<nat>, p: nat, s: nat, e: Entry, h: nat)
    requires TreeInv(fs, g) && AddStep(fs, fs', g, g', cells, p, s, e) && h in g'.home
    ensures HomeOk(fs', g', h)
  {
    hide ChainOf, DecodeTable, LinkUpTo, DiskInv;
    if h in g.home {
      AddedEntry(fs, fs', g, g', cells, p, s, e, h);
    }
    hide TreeInv;
  }

  lemma AddedKeys(fs: Fs, fs': Fs, g: Shape, g': Shape, cells: seq<nat>, p: nat, s: nat, e: Entry, d: nat, i: nat,
                  j: nat)
    requires TreeInv(fs, g) && AddStep(fs, fs', g, g', cells, p, s, e)
    requires d in g'.depth && d < CLUSTER_MAP_SIZE && 0 <= i < j < ENTRIES
    ensures DistinctKeys(Tab(fs', d), i, j)
  {
    hide ChainOf, DecodeTable, LinkUpTo, DiskInv;
    if d in g.depth {
      assert DistinctKeys(Tab(fs, d), i, j);
      assert !Slot(fs, p, i).Matches(e.name, e.ext) && !Slot(fs, p, j).Matches(e.name, e.ext);
    }
  }

  /** Allocating a chain and entering it keeps the whole invariant. */
  lemma AddKeepsInv(fs: Fs, fs': Fs, g: Shape, cells: seq<nat>, p: nat, s: nat, e: Entry)
    requires Inv(fs, g) && Added(fs, fs', g, cells, p, s, e)
    ensures Inv(fs', AddedShape(g, cells, p, s, e))
    ensures ChainOf(fs'.fat, cells[0]) == cells && cells[0] !in Heads(g)
    ensures ChainsKept(fs.fat, fs'.fat, Heads(g))
  {
    hide ChainOf, Tab, LinkUpTo, DiskInv, ChainOk, OwnerOk, NewTable, SlotOk, HomeOk, DistinctKeys;
    var g' := AddedShape(g, cells, p, s, e);
    assert Heads(g') == Heads(g) + {cells[0]};
    LinkKeepsFat(fs.fat, fs'.fat, g, g', cells);
    assert p in Heads(g) by { assert DirOk(fs, g, p); }
    forall d | d in g'.depth
      ensures DirOk(fs', g', d)
    {
      AddedDir(fs, fs', g, g', cells, p, s, e, d);
    }
    forall h | h in g'.home
      ensures HomeOk(fs', g', h)
    {
      AddedHome(fs, fs', g, g', cells, p, s, e, h);
    }
    forall d, i | d in g'.depth && 1 <= i < ENTRIES
      ensures SlotOk(fs', g', d, i)
    {
      AddedSlot(fs, fs', g, g', cells, p, s, e, d, i);
    }
    forall d, i, j | d in g'.depth && 0 <= i < j < ENTRIES
      ensures DistinctKeys(Tab(fs', d), i, j)
    {
      assert DirOk(fs', g', d);
      AddedKeys(fs, fs', g, g', cells, p, s, e, d, i, j);
    }
  }

  // ----- the tree when an entry is removed -----

  /** fs' is fs with the entry of head h blanked and its chain freed. */
  ghost predicate Dropped(fs: Fs, fs': Fs, g: Shape, h: nat)
  {
    DiskInv(fs') && h in g.home && HomeOk(fs, g, h) &&
    fs'.fat == Clear(fs.fat, ChainOf(fs.fat, h)) &&
    (var at := g.home[h];
     Tab(fs', at.dir) == Tab(fs, at.dir)[at.slot := Removed(EntryOf(fs, g, h))] &&
     forall d :: d in g.depth && d != at.dir && d < CLUSTER_MAP_SIZE ==> Tab(fs', d) == Tab(fs, d)) &&
    (h in g.depth ==> h < CLUSTER_MAP_SIZE && !HasLiveChild(Tab(fs, h)))
  }

  ghost function DroppedShape(fs: Fs, g: Shape, h: nat): Shape
  {
    Shape(g.home - {h}, g.owner - Cells(ChainOf(fs.fat, h)), g.depth - {h})
  }

  ghost predicate DropStep(fs: Fs, fs': Fs, g: Shape, g': Shape, h: nat)
  {
    Dropped(fs, fs', g, h) && g' == DroppedShape(fs, g, h) && ChainsKept(fs.fat, fs'.fat, Heads(g'))
  }

  /** No directory or entry hangs below a head that is about to go. */
  lemma NothingBelow(fs: Fs, fs': Fs, g: Shape, h: nat, o: nat)
    requires TreeInv(fs, g) && Dropped(fs, fs', g, h) && o in g.home
    ensures g.home[o].dir != h
  {
    assert HomeOk(fs, g, o);
    assert Slot(fs, g.home[o].dir, g.home[o].slot).Live();
  }

  lemma DroppedEntry(fs: Fs, fs': Fs, g: Shape, g': Shape, h: nat, o: nat)
    requires TreeInv(fs, g) && DropStep(fs, fs', g, g', h) && o in g'.home
    ensures o in g.home && HomeOk(fs, g, o) && g.home[o].dir in g'.depth && g'.home[o] == g.home[o]
    ensures EntryOf(fs', g', o) == EntryOf(fs, g, o)
  {
    hide ChainOf, DecodeTable, Clear, DiskInv, ChainsKept, SlotOk, DistinctKeys, DirOk, Removed;
    assert HomeOk(fs, g, o);
    NothingBelow(fs, fs', g, h, o);
    hide TreeInv, HasLiveChild;
    assert g.home[o] != g.home[h];
  }

  lemma DroppedSlot(fs: Fs, fs': Fs, g: Shape, g': Shape, h: nat, d: nat, i: nat)
    requires TreeInv(fs, g) && DropStep(fs, fs', g, g', h) && d in g'.depth && 1 <= i < ENTRIES
    ensures d < CLUSTER_MAP_SIZE && SlotOk(fs', g', d, i)
  {
    hide ChainOf, DecodeTable, Clear, DiskInv, DirOk;
    DirInTable(fs, g, d);
    assert SlotOk(fs, g, d, i);
    hide TreeInv, HasLiveChild;
  }

  lemma DroppedDir(fs: Fs, fs': Fs, g: Shape, g': Shape, h: nat, d: nat)
    requires TreeInv(fs, g) && DropStep(fs, fs', g, g', h) && d in g'.depth
    ensures DirOk(fs', g', d)
  {
    hide ChainOf, DecodeTable, Clear, DiskInv, HasLiveChild, ChainsKept, SlotOk, DistinctKeys, Removed;
    DirInTable(fs, g, d);
    assert DirOk(fs, g, d);
    assert Slot(fs', d, 0) == Slot(fs, d, 0);
    hide TreeInv, Slot;
    if d != ROOT {
      DroppedEntry(fs, fs', g, g', h, d);
    }
    hide Dropped;
  }

  lemma DroppedHome(fs: Fs, fs': Fs, g: Shape, g': Shape, h: nat, o: nat)
    requires TreeInv(fs, g) && DropStep(fs, fs', g, g', h) && o in g'.home
    ensures HomeOk(fs', g', o)
  {
    hide Slot;
    DroppedEntry(fs, fs', g, g', h, o);
    hide TreeInv, Dropped;
  }

  lemma DroppedKeys(fs: Fs, fs': Fs, g: Shape, g': Shape, h: nat, d: nat, i: nat, j: nat)
    requires TreeInv(fs, g) && DropStep(fs, fs', g, g', h)
    requires d in g'.depth && d < CLUSTER_MAP_SIZE && 0 <= i < j < ENTRIES
    ensures DistinctKeys(Tab(fs', d), i, j)
  {
    hide ChainOf, DecodeTable, Clear, DiskInv;
    assert DistinctKeys(Tab(fs, d), i, j);
  }

  lemma DropKeepsTree(fs: Fs, fs': Fs, g: Shape, g': Shape, h: nat)
    requires TreeInv(fs, g) && DropStep(fs, fs', g, g', h)
    ensures TreeInv(fs', g')
  {
    hide DropStep, DirOk, HomeOk, SlotOk, DistinctKeys;
    forall d | d in g'.depth
      ensures d < CLUSTER_MAP_SIZE && DirOk(fs', g', d)
    {
      DroppedDir(fs, fs', g, g', h, d);
      DirInDisk(fs', g', d);
    }
    forall o | o in g'.home
      ensures HomeOk(fs', g', o)
    {
      DroppedHome(fs, fs', g, g', h, o);
    }
    forall d, i | d in g'.depth && 1 <= i < ENTRIES
      ensures SlotOk(fs', g', d, i)
    {
      DroppedSlot(fs, fs', g, g', h, d, i);
    }
    forall d, i, j | d in g'.depth && 0 <= i < j < ENTRIES
      ensures DistinctKeys(Tab(fs', d), i, j)
    {
      DroppedKeys(fs, fs', g, g', h, d, i, j);
    }
    RootStays(fs, fs', g, g', h);
  }

  lemma DirInDisk(fs: Fs, g: Shape, d: nat)
    requires d in g.depth && DirOk(fs, g, d)
    ensures d < CLUSTER_MAP_SIZE
  {
  }

  lemma RootStays(fs: Fs, fs': Fs, g: Shape, g': Shape, h: nat)
    requires TreeInv(fs, g) && DropStep(fs, fs', g, g', h)
    ensures ROOT in g'.depth
  {
  }

  /** Blanking an entry and freeing its chain keeps the whole invariant. */
  lemma DropKeepsInv(fs: Fs, fs': Fs, g: Shape, h: nat)
    requires Inv(fs, g) && Dropped(fs, fs', g, h)
    ensures Inv(fs', DroppedShape(fs, g, h))
    ensures ChainsKept(fs.fat, fs'.fat, Heads(DroppedShape(fs, g, h)))
  {
    hide ChainOf, Tab, Clear, FatInv, TreeInv, HasLiveChild, Removed, IsChain;
    var g' := DroppedShape(fs, g, h);
    assert Heads(g') == Heads(g) - {h};
    ClearKeepsFat(fs.fat, fs'.fat, g, g', h);
    DropKeepsTree(fs, fs', g, g', h);
  }
}
