/**
 Stores that runs from a freshly formatted disk really reach: all of them are in order, convention
 included, and on some of them single calls break the store.
 */
module Histories {
  import opened Bytes
  import opened Layout
  import opened Chains
  import opened Store
  import opened Invariant
  import opened Safety
  import opened Refinement
  import opened Counting
  import opened Runs
  import opened DiskTree

  // ----- runs of conventional calls -----

  /** Writes bring their data padded, and use the extension "dir" exactly for directories. */
  predicate Usual(op: Op)
  {
    op.Write? ==>
      |op.data| >= ClusterCount(op.r.size) * CLUSTER_SIZE && (op.r.ext == DIR_EXT <==> op.r.size == 0)
  }

  predicate AllUsual(ops: seq<Op>)
  {
    forall i :: 0 <= i < |ops| ==> Usual(ops[i])
  }

  /** The map after one call on a store that it stands for. */
  ghost function NextMap(fs: Fs, a: Abstract, op: Op): Abstract
  {
    match op
    case Read(_) => a
    case Write(r, data) => if WriteCode(fs, r) == 0 then AfterWrite(a, r, NewItem(fs, r, data)) else a
    case Delete(r) => if DeleteCode(fs, r) == 0 && KeyIn(r) in a.items then AfterDelete(a, KeyIn(r)) else a
  }

  function After(fs: Fs, ops: seq<Op>): Fs
    requires AllUsual(ops)
    decreases |ops|
  {
    if ops == [] then fs else StepFs(After(fs, ops[..|ops| - 1]), ops[|ops| - 1])
  }

  ghost function MapAfter(fs: Fs, a: Abstract, ops: seq<Op>): Abstract
    requires AllUsual(ops)
    decreases |ops|
  {
    if ops == [] then a
    else NextMap(After(fs, ops[..|ops| - 1]), MapAfter(fs, a, ops[..|ops| - 1]), ops[|ops| - 1])
  }

  /** Each call is legal for the map that the calls before it have made. */
  ghost predicate AllLegal(fs: Fs, a: Abstract, ops: seq<Op>)
    requires AllUsual(ops)
    decreases |ops|
  {
    ops == [] ||
    (AllLegal(fs, a, ops[..|ops| - 1]) && Legal(MapAfter(fs, a, ops[..|ops| - 1]), ops[|ops| - 1]))
  }

  /** In order, convention included, and standing for the map. */
  ghost predicate InOrderFor(fs: Fs, g: Shape, a: Abstract)
  {
    InOrder(fs, g) && Represents(fs, g, a)
  }

  /** One legal and usual call keeps order, convention and map together. */
  lemma StepInOrder(fs: Fs, g: Shape, a: Abstract, op: Op) returns (g': Shape)
    requires InOrderFor(fs, g, a) && Legal(a, op) && Usual(op)
    ensures InOrderFor(StepFs(fs, op), g', NextMap(fs, a, op))
    ensures AbsNext(a, op, NextMap(fs, a, op), StepOut(fs, op))
  {
    hide Inv, Conventional, Represents, KeysIn, Used, ReadCode, WriteCode, DeleteCode, ReadData, Written, Deleted,
         TakenCells, FirstFree, WriteReady, DeleteReady, WrittenShape, DeletedShape, ClusterCount, AfterWrite,
         AfterDelete;
    g' := g;
    match op
    case Read(r) =>
      ReadAgrees(fs, g, a, r);
    case Write(r, data) =>
      WriteAgrees(fs, g, a, r, data);
      if WriteCode(fs, r) == 0 {
        WriteKeepsInv(fs, g, r, data);
        WriteKeepsConvention(fs, g, r, data);
        WriteRepresents(fs, g, a, r, data);
        ReadyParent(fs, g, r, data);
        g' := WrittenShape(fs, g, r);
      }
    case Delete(r) =>
      DeleteAgrees(fs, g, a, r);
      if DeleteCode(fs, r) == 0 {
        DeleteIsDropStep(fs, g, r);
        DeleteRepresents(fs, g, a, r);
        DeletedIsUsual(fs, g, r);
        g' := DeletedShape(fs, g, r);
      }
  }

  lemma ReadyParent(fs: Fs, g: Shape, r: Request, data: seq<byte>)
    requires WriteReady(fs, g, r, data) && TakenCells(fs, r) != []
    ensures r.parent in g.depth && WriteCode(fs, r) == 0
    ensures Written(fs, r, data) == Store.Write(fs, r, data)
    ensures r.size != 0 ==> |data| >= r.size
  {
    hide Inv, Written, TakenCells, FreeUpTo, FreeSlot, Find;
    WrittenItem(fs, g, r, data);
  }

  lemma DeletedIsUsual(fs: Fs, g: Shape, r: Request)
    requires DeleteReady(fs, g, r) && Conventional(fs, g)
    ensures Conventional(Deleted(fs, r), DeletedShape(fs, g, r))
  {
    hide Inv, Conventional, Deleted, DeletedShape;
    DeleteKeepsConvention(fs, g, r);
  }

  lemma {:induction false} RunInOrder(fs: Fs, g: Shape, a: Abstract, ops: seq<Op>) returns (g': Shape)
    requires InOrderFor(fs, g, a) && AllUsual(ops) && AllLegal(fs, a, ops)
    ensures InOrderFor(After(fs, ops), g', MapAfter(fs, a, ops))
    decreases |ops|
  {
    hide InOrderFor, Legal, NextMap, StepFs, Usual;
    if ops == [] {
      g' := g;
    } else {
      var before, last := ops[..|ops| - 1], ops[|ops| - 1];
      var g1 := RunInOrder(fs, g, a, before);
      g' := StepInOrder(After(fs, before), g1, MapAfter(fs, a, before), last);
    }
  }

  /**
   Every run of legal and usual calls from a freshly formatted disk ends in a store in order, which
   is what the walks and the shell ask for, and the store stands for the map of the run.
   */
  lemma FormattedRunInOrder(disk: Disk, rootName: Name, ops: seq<Op>) returns (g: Shape)
    requires AllUsual(ops) && AllLegal(Format(disk, rootName), EmptyMap(rootName), ops)
    ensures InOrderFor(After(Format(disk, rootName), ops), g, MapAfter(Format(disk, rootName), EmptyMap(rootName), ops))
  {
    hide Inv, Format, Represents, EmptyMap, Conventional, AllLegal;
    FormatEstablishesInv(disk, rootName);
    FormatIsConventional(disk, rootName);
    FormattedIsEmpty(disk, rootName);
    g := RunInOrder(Format(disk, rootName), NEW_SHAPE, EmptyMap(rootName), ops);
  }

  /** One call more at the end of a run. */
  lemma RunOneMore(fs: Fs, a: Abstract, ops: seq<Op>, op: Op)
    requires AllUsual(ops) && Usual(op) && AllLegal(fs, a, ops)
    ensures AllUsual(ops + [op])
    ensures After(fs, ops + [op]) == StepFs(After(fs, ops), op)
    ensures MapAfter(fs, a, ops + [op]) == NextMap(After(fs, ops), MapAfter(fs, a, ops), op)
    ensures AllLegal(fs, a, ops + [op]) <==> Legal(MapAfter(fs, a, ops), op)
  {
    hide Legal, NextMap, StepFs, Usual;
    assert (ops + [op])[..|ops|] == ops && (ops + [op])[|ops|] == op;
  }

  // ----- calls that break a fresh store -----

  /** A request whose key the map does not know is found nowhere, and its code depends on the room alone. */
  lemma NewKeyCode(fs: Fs, g: Shape, a: Abstract, r: Request)
    requires Inv(fs, g) && Represents(fs, g, a) && r.parent in g.depth && !BlankKey(r)
    requires r.parent in a.names ==> !IsSelf(a, r)
    requires KeyIn(r) !in a.items
    ensures WriteCode(fs, r) == if CLUSTER_MAP_SIZE - 3 - Used(a.items) < ClusterCount(r.size) then -1 else 0
    ensures FreeUpTo(fs.fat, ROOT, CLUSTER_MAP_SIZE) == [] <==> Used(a.items) == CLUSTER_MAP_SIZE - 3
  {
    hide Inv, Represents, Find, FreeUpTo, ClusterCount, Used, Tab;
    LookupFromMap(fs, g, a, r);
    FreeFromMap(fs, g, a);
    SlotZero(fs, r.parent);
  }

  lemma SlotZero(fs: Fs, d: ClusterNo)
    ensures Slot(fs, d, 0) == Tab(fs, d)[0]
  {
  }

  lemma Formatted(disk: Disk, rootName: Name)
    ensures Inv(Format(disk, rootName), NEW_SHAPE) && Represents(Format(disk, rootName), NEW_SHAPE, EmptyMap(rootName))
    ensures Used(EmptyMap(rootName).items) == 0 && KeysIn(EmptyMap(rootName), ROOT) == {}
  {
    hide Inv, Represents, Format;
    FormatEstablishesInv(disk, rootName);
    FormattedIsEmpty(disk, rootName);
  }

  /** Deleting the fresh root by its own name goes through and takes the mark of a directory off it. */
  lemma RootDeleteBreaks(disk: Disk, rootName: Name)
    ensures var fs, r := Format(disk, rootName), Request(rootName, NO_EXT, ROOT, 0);
            DeleteCode(fs, r) == 0 && !Sound(Store.Delete(fs, r))
  {
    var fs, r := Format(disk, rootName), Request(rootName, NO_EXT, ROOT, 0);
    FreshRoot(disk, rootName);
    Formatted(disk, rootName);
    hide Inv, Format, HasLiveChild, Represents;
    assert DeletedSlot(fs, r) == 0;
    DeleteSafeIff(fs, NEW_SHAPE, r);
  }

  lemma FreshTable(disk: Disk, rootName: Name)
    ensures Tab(Format(disk, rootName), ROOT) == NewTable(rootName, ROOT)
  {
    hide DecodeTable, EncodeTable, EncodeFat, FsSignature, NewTable;
    TableRoundTrip(NewTable(rootName, ROOT));
  }

  lemma FreshRoot(disk: Disk, rootName: Name)
    ensures !HasLiveChild(Tab(Format(disk, rootName), ROOT))
    ensures var e := Tab(Format(disk, rootName), ROOT)[0];
            e.IsDir() && e.Cluster() == ROOT && e.Matches(rootName, NO_EXT)
    ensures Tab(Format(disk, rootName), ROOT)[1] == BLANK_ENTRY
  {
    hide Format, NewTable, HasLiveChild, LinkEntry, Tab, BLANK_ENTRY;
    FreshTable(disk, rootName);
    NewLinkEntry(rootName, ROOT);
    NewTableIsChildless(rootName, ROOT);
  }

  /** So does deleting the blank key: the first unused slot is taken for a file that starts in cluster 0. */
  lemma BlankDeleteBreaks(disk: Disk, rootName: Name)
    requires rootName != NO_NAME
    ensures var fs, r := Format(disk, rootName), Request(NO_NAME, NO_EXT, ROOT, 0);
            DeleteCode(fs, r) == 0 && !Sound(Store.Delete(fs, r))
  {
    hide Inv, Format, HasLiveChild, Represents, Tab, BLANK_ENTRY, NO_NAME, NO_EXT, Find;
    var fs, r := Format(disk, rootName), Request(NO_NAME, NO_EXT, ROOT, 0);
    FreshRoot(disk, rootName);
    Formatted(disk, rootName);
    BlankFacts();
    FoundSecond(Tab(fs, ROOT), NO_NAME, NO_EXT);
    DeleteSafeIff(fs, NEW_SHAPE, r);
  }

  lemma FoundSecond(t: Table, name: Name, ext: Ext)
    requires !t[0].Matches(name, ext) && t[1].Matches(name, ext)
    ensures Find(t, name, ext, 0) == 1
  {
  }

  /** A size next to 2^32 counts as one cluster, and the entry promises four gigabytes. */
  lemma HugeWriteBreaks(disk: Disk, rootName: Name, data: seq<byte>)
    requires |data| >= CLUSTER_SIZE
    ensures var fs, r := Format(disk, rootName), Request(NthName(0), TXT_EXT, ROOT, 0xFFFF_FFFF);
            ClusterCount(r.size) == 1 && WriteCode(fs, r) == 0 && !Sound(Store.Write(fs, r, data))
  {
    hide Inv, Format, Represents, Used;
    var fs, r := Format(disk, rootName), Request(NthName(0), TXT_EXT, ROOT, 0xFFFF_FFFF);
    assert ClusterCount(r.size) == 1;
    Formatted(disk, rootName);
    NthNames();
    NewKeyCode(fs, NEW_SHAPE, EmptyMap(rootName), r);
    WriteSafeIff(fs, NEW_SHAPE, r, data);
  }

  function NthName(n: nat): Name { [if n < 255 then n + 1 else 0, 0, 0, 0, 0, 0, 0, 0] }

  lemma NthNames()
    ensures forall n: nat :: n < 255 ==> NthName(n) != NO_NAME
    ensures forall m: nat, n: nat :: m < n < 255 ==> NthName(m) != NthName(n)
    ensures TXT_EXT != NO_EXT && TXT_EXT != DIR_EXT && DIR_EXT != NO_EXT
  {
    assert forall n: nat :: n < 255 ==> NthName(n)[0] == n + 1;
    assert TXT_EXT[0] == 116 && DIR_EXT[0] == 100;
  }

  // ----- a disk without a free cluster -----

  const ALL_FREE := 509

  /** One file that takes every free cluster of a fresh disk. */
  function BigFile(data: seq<byte>): Op
  {
    Op.Write(Request(NthName(0), TXT_EXT, ROOT, ALL_FREE * CLUSTER_SIZE), data)
  }

  lemma BigFileIsLegal(rootName: Name, data: seq<byte>)
    requires |data| == ALL_FREE * CLUSTER_SIZE
    ensures Usual(BigFile(data)) && Legal(EmptyMap(rootName), BigFile(data))
    ensures AbsWriteCode(EmptyMap(rootName), BigFile(data).r) == 0 && Blocks(BigFile(data).r.size) == ALL_FREE
    ensures KeysIn(EmptyMap(rootName), ROOT) == {} && Used(EmptyMap(rootName).items) == 0
  {
    NthNames();
    CountIsBlocks(ALL_FREE * CLUSTER_SIZE);
    assert Blocks(ALL_FREE * CLUSTER_SIZE) == ALL_FREE;
    hide NthName, ClusterCount, Blocks;
    assert KeysIn(EmptyMap(rootName), ROOT) == {};
  }

  /** Once such a file is stored no cluster is left. */
  lemma NothingLeft(disk: Disk, rootName: Name, data: seq<byte>) returns (g: Shape)
    requires |data| == ALL_FREE * CLUSTER_SIZE
    ensures Usual(BigFile(data)) && Legal(EmptyMap(rootName), BigFile(data))
    ensures var op := BigFile(data);
            var fs0, a0 := Format(disk, rootName), EmptyMap(rootName);
            InOrderFor(StepFs(fs0, op), g, NextMap(fs0, a0, op)) && Used(NextMap(fs0, a0, op).items) == ALL_FREE &&
            NextMap(fs0, a0, op).items.Keys == {KeyIn(op.r)} && NextMap(fs0, a0, op).names == a0.names
  {
    hide Inv, Format, Represents, Used, Conventional, Usual, Legal, AbsWriteCode, Blocks, StepFs;
    var fs0, a, op := Format(disk, rootName), EmptyMap(rootName), BigFile(data);
    BigFileIsLegal(rootName, data);
    Formatted(disk, rootName);
    FormatIsConventional(disk, rootName);
    g := StepInOrder(fs0, NEW_SHAPE, a, op);
    assert WriteCode(fs0, op.r) == 0;
    assert Prefix(data, op.r.size) == data;
    hide StepFs, WriteCode;
    UsedAdd(a.items, KeyIn(op.r), File(data));
  }

  /** After it, a new directory is written over cluster 0. */
  lemma NoClusterDirectoryBreaks(disk: Disk, rootName: Name, data: seq<byte>)
    requires |data| == ALL_FREE * CLUSTER_SIZE
    ensures Usual(BigFile(data)) && Legal(EmptyMap(rootName), BigFile(data)) && ClusterCount(0) == 0
    ensures var fs, r := StepFs(Format(disk, rootName), BigFile(data)), Request(NthName(1), DIR_EXT, ROOT, 0);
            WriteCode(fs, r) == 0 && !Sound(Store.Write(fs, r, []))
  {
    hide Inv, Format, Represents, Used, Conventional, Usual, Legal, StepFs, NextMap, EmptyMap;
    var g := NothingLeft(disk, rootName, data);
    var fs, r := StepFs(Format(disk, rootName), BigFile(data)), Request(NthName(1), DIR_EXT, ROOT, 0);
    CountIsBlocks(0);
    NthNames();
    hide NthName;
    RootLives(fs, g);
    NewKeyCode(fs, g, NextMap(Format(disk, rootName), EmptyMap(rootName), BigFile(data)), r);
    WriteSafeIff(fs, g, r, []);
  }

  lemma RootLives(fs: Fs, g: Shape)
    requires Inv(fs, g)
    ensures ROOT in g.depth
  {
  }

  // ----- a full directory -----

  const FILES := 63

  function FileOp(n: nat, content: Cluster): Op
  {
    Op.Write(Request(NthName(n), TXT_EXT, ROOT, 1), content)
  }

  /** The writes of the first n files. */
  function Fill(n: nat, content: Cluster): (ops: seq<Op>)
    requires n <= FILES
    ensures AllUsual(ops)
  {
    if n == 0 then [] else OneByte(n - 1, content); Fill(n - 1, content) + [FileOp(n - 1, content)]
  }

  lemma OneByte(n: nat, content: Cluster)
    ensures Usual(FileOp(n, content)) && ClusterCount(1) == 1
  {
    NthNames();
    CountIsBlocks(1);
  }

  ghost function FillKeys(n: nat): (keys: set<Key>)
    requires n <= 255
    ensures forall k :: k in keys <==>
              k.dir == ROOT && k.ext == TXT_EXT && exists i: nat :: i < n && k.name == NthName(i)
    ensures |keys| == n
  {
    NthNames();
    if n == 0 then {} else FillKeys(n - 1) + {Key(ROOT, NthName(n - 1), TXT_EXT)}
  }

  /** After the first n writes the root has exactly these n files, of one cluster each. */
  lemma {:induction false} Filled(disk: Disk, rootName: Name, n: nat, content: Cluster) returns (g: Shape)
    requires n <= FILES
    ensures AllLegal(Format(disk, rootName), EmptyMap(rootName), Fill(n, content))
    ensures HasFiles(After(Format(disk, rootName), Fill(n, content)), g,
                     MapAfter(Format(disk, rootName), EmptyMap(rootName), Fill(n, content)), n)
  {
    var fs0, a0 := Format(disk, rootName), EmptyMap(rootName);
    hide Format, HasFiles, EmptyMap, Legal, StepFs, NextMap, FileOp;
    if n == 0 {
      NoFiles(disk, rootName);
      g := NEW_SHAPE;
    } else {
      var g1 := Filled(disk, rootName, n - 1, content);
      var ops, op := Fill(n - 1, content), FileOp(n - 1, content);
      OneByte(n - 1, content);
      assert Fill(n, content) == ops + [op];
      hide AllLegal, After, MapAfter, Fill;
      RunOneMore(fs0, a0, ops, op);
      g := FileAdded(After(fs0, ops), g1, MapAfter(fs0, a0, ops), n - 1, content);
    }
  }

  ghost predicate HasFiles(fs: Fs, g: Shape, a: Abstract, n: nat)
    requires n <= 255
  {
    InOrderFor(fs, g, a) && a.items.Keys == FillKeys(n) && a.names.Keys == {ROOT} && Used(a.items) == n
  }

  lemma NoFiles(disk: Disk, rootName: Name)
    ensures HasFiles(Format(disk, rootName), NEW_SHAPE, EmptyMap(rootName), 0)
  {
    hide Format, Inv, Conventional, Represents;
    Formatted(disk, rootName);
    FormatIsConventional(disk, rootName);
  }

  /** One file more under the next name. */
  lemma FileAdded(fs: Fs, g: Shape, a: Abstract, n: nat, content: Cluster) returns (g': Shape)
    requires n < FILES && HasFiles(fs, g, a, n)
    ensures Usual(FileOp(n, content)) && Legal(a, FileOp(n, content))
    ensures HasFiles(StepFs(fs, FileOp(n, content)), g', NextMap(fs, a, FileOp(n, content)), n + 1)
  {
    hide InOrder, Represents, StepFs, Used, Legal, Blocks, Usual, NextMap, AbsWriteCode, AfterWrite, KeysIn;
    var op := FileOp(n, content);
    OneByte(n, content);
    FileIsLegal(fs, g, a, n, content);
    g' := StepInOrder(fs, g, a, op);
    FileCounts(fs, a, n, content);
  }

  lemma FileIsLegal(fs: Fs, g: Shape, a: Abstract, n: nat, content: Cluster)
    requires n < FILES && HasFiles(fs, g, a, n)
    ensures Legal(a, FileOp(n, content)) && AbsWriteCode(a, FileOp(n, content).r) == 0
    ensures KeyIn(FileOp(n, content).r) !in a.items
  {
    hide InOrderFor, Used, ClusterCount, FillKeys, NthName, KeysIn;
    NthIsNew(n);
    FilesAreKeys(a, n);
    OneByte(n, content);
    NthNames();
  }

  lemma FilesAreKeys(a: Abstract, n: nat)
    requires n <= FILES && a.items.Keys == FillKeys(n)
    ensures KeysIn(a, ROOT) == FillKeys(n) && |KeysIn(a, ROOT)| == n
  {
    hide NthName;
    assert KeysIn(a, ROOT) == FillKeys(n);
  }

  lemma NthIsNew(n: nat)
    requires n < FILES
    ensures Key(ROOT, NthName(n), TXT_EXT) !in FillKeys(n) && forall k :: k in FillKeys(n) ==> k.dir == ROOT
  {
    NthNames();
    hide NthName;
  }

  lemma FileCounts(fs: Fs, a: Abstract, n: nat, content: Cluster)
    requires n < FILES && a.items.Keys == FillKeys(n) && Used(a.items) == n && WriteCode(fs, FileOp(n, content).r) == 0
    requires KeyIn(FileOp(n, content).r) !in a.items
    ensures var a' := NextMap(fs, a, FileOp(n, content));
            a'.items.Keys == FillKeys(n + 1) && a'.names == a.names && Used(a'.items) == n + 1
  {
    hide WriteCode, Used, FillKeys, NthName;
    FillOneMore(n);
    OneMoreItem(a.items, KeyIn(FileOp(n, content).r), content);
  }

  lemma FillOneMore(n: nat)
    requires n < FILES
    ensures FillKeys(n + 1) == FillKeys(n) + {Key(ROOT, NthName(n), TXT_EXT)}
  {
  }

  lemma OneMoreItem(items: map<Key, Item>, k: Key, content: Cluster)
    requires k !in items
    ensures var items' := items[k := File(Prefix(content, 1))];
            items'.Keys == items.Keys + {k} && Used(items') == Used(items) + 1
  {
    UsedAdd(items, k, File(Prefix(content, 1)));
    hide Used;
  }

  /** With 63 files in the root, one more takes the place of the root's own first entry. */
  lemma FullDirectoryBreaks(disk: Disk, rootName: Name, content: Cluster)
    ensures var fs0, ops := Format(disk, rootName), Fill(FILES, content);
            AllLegal(fs0, EmptyMap(rootName), ops) &&
            var fs, r := After(fs0, ops), FileOp(FILES, content).r;
            ClusterCount(r.size) == 1 && WriteCode(fs, r) == 0 && !Sound(Store.Write(fs, r, content))
  {
    hide Format, AllLegal, After, MapAfter, FillKeys, Inv, Represents, Used, Conventional, Fill, EmptyMap;
    var fs0, ops, r := Format(disk, rootName), Fill(FILES, content), FileOp(FILES, content).r;
    var g := Filled(disk, rootName, FILES, content);
    var fs, a := After(fs0, ops), MapAfter(fs0, EmptyMap(rootName), ops);
    OneByte(FILES, content);
    NthNames();
    hide NthName;
    RootLives(fs, g);
    NewKeyCode(fs, g, a, r);
    FilesAreKeys(a, FILES);
    RoomFromMap(fs, g, a, ROOT);
    WriteSafeIff(fs, g, r, content);
  }
}
