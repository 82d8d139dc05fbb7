/**
 The file store of src/fat32.c as pure steps on disk and cached allocation table. The class in
 Driver.dfy runs these steps with the loops of the source.
 */
module Store {
  import opened Bytes
  import opened Layout
  import opened Chains

  /** A cluster number that the table knows. */
  type ClusterNo = c: nat | c < CLUSTER_MAP_SIZE

  /** What outlives a call: the disk, and the cached table of the driver state. */
  datatype Fs = Fs(disk: Disk, fat: Fat)

  datatype Request = Request(name: Name, ext: Ext, parent: ClusterNo, size: u32)

  function Tab(fs: Fs, c: ClusterNo): Table { DecodeTable(fs.disk[c]) }

  function Slot(fs: Fs, c: nat, i: nat): Entry
    requires c < CLUSTER_MAP_SIZE && i < ENTRIES
  {
    Tab(fs, c)[i]
  }

  // ----- lookups in one table -----

  /** The first entry from i on that carries the key, ENTRIES when there is none. */
  function Find(t: Table, name: Name, ext: Ext, i: nat): (r: nat)
    requires i <= ENTRIES
    ensures i <= r <= ENTRIES
    ensures r < ENTRIES ==> t[r].Matches(name, ext)
    ensures forall j :: i <= j < r ==> !t[j].Matches(name, ext)
    decreases ENTRIES - i
  {
    if i == ENTRIES || t[i].Matches(name, ext) then i else Find(t, name, ext, i + 1)
  }

  /** The first entry from i on that is not in use, 0 when there is none. */
  function FreeSlot(t: Table, i: nat): (r: nat)
    requires 1 <= i <= ENTRIES
    ensures r == 0 || i <= r < ENTRIES
    ensures r != 0 ==> !t[r].Live()
    ensures forall j :: i <= j < ENTRIES && (r == 0 || j < r) ==> t[j].Live()
    decreases ENTRIES - i
  {
    if i == ENTRIES then 0 else if !t[i].Live() then i else FreeSlot(t, i + 1)
  }

  predicate HasLiveChild(t: Table)
  {
    exists i :: 1 <= i < ENTRIES && t[i].Live()
  }

  // ----- signed 32-bit division -----

  function ToInt32(x: u32): int { if x < 0x8000_0000 then x else x - 0x1_0000_0000 }

  function ToU32(x: int): u32 { x % 0x1_0000_0000 }

  /** C division: the quotient is cut off towards zero. */
  function TruncDiv(a: int, b: int): int
    requires b > 0
  {
    if a >= 0 then a / b else -(-a / b)
  }

  function CeilDiv(a: int, b: int): int
    requires b > 0
  {
    TruncDiv(a, b) + if a % b != 0 then 1 else 0
  }

  /** The number of clusters that write asks for. */
  function ClusterCount(size: u32): u32 { ToU32(CeilDiv(ToInt32(size), CLUSTER_SIZE)) }

  /** The number of clusters that hold size bytes. */
  function Blocks(size: nat): nat { (size + (CLUSTER_SIZE - 1)) / CLUSTER_SIZE }

  // ----- tables and entries that the driver builds -----

  function LinkEntry(name: Name, parent: ClusterNo): Entry
  {
    BLANK_ENTRY.(name := name, attribute := ATTR_SUBDIRECTORY, user := UATTR_NOT_EMPTY,
                 clusterLow := parent, clusterHigh := 0)
  }

  /** init_directory_table on a zeroed table: the first entry names the directory and its parent. */
  function NewTable(name: Name, parent: ClusterNo): (t: Table)
    ensures t[0] == LinkEntry(name, parent)
    ensures forall i :: 1 <= i < ENTRIES ==> t[i] == BLANK_ENTRY
  {
    [LinkEntry(name, parent)] + seq(ENTRIES - 1, _ => BLANK_ENTRY)
  }

  function NewEntry(r: Request, first: ClusterNo): Entry
  {
    BLANK_ENTRY.(name := r.name, ext := r.ext, user := UATTR_NOT_EMPTY, filesize := r.size,
                 clusterLow := first, clusterHigh := 0,
                 attribute := if r.size == 0 then ATTR_SUBDIRECTORY else 0)
  }

  function Removed(e: Entry): Entry { e.(user := 0, name := NO_NAME, ext := NO_EXT) }

  // ----- create and boot -----

  predicate Signed(c: Cluster) { c[..BLOCK_SIZE] == FsSignature() }

  function SignedCluster(c: Cluster): Cluster { FsSignature() + c[BLOCK_SIZE..] }

  function FreshFat(): Fat
  {
    [CLUSTER_0_VALUE, CLUSTER_1_VALUE, END_OF_FILE] + seq(CLUSTER_MAP_SIZE - 3, _ => EMPTY)
  }

  /**
   create_fat32. The name "root" is copied as eight bytes out of a five-byte literal; the three
   bytes behind it are a parameter.
   */
  function Format(disk: Disk, rootName: Name): Fs
  {
    var signed := Put(disk, 0, SignedCluster(disk[0]));
    var mapped := Put(signed, FAT_CLUSTER, EncodeFat(FreshFat()));
    Fs(Put(mapped, ROOT, EncodeTable(NewTable(rootName, ROOT))), FreshFat())
  }

  /** initialize_filesystem_fat32. */
  function Boot(disk: Disk, rootName: Name): Fs
  {
    if Signed(disk[0]) then Fs(disk, DecodeFat(disk[FAT_CLUSTER])) else Format(disk, rootName)
  }

  // ----- read -----

  function ReadCode(fs: Fs, r: Request): int
  {
    var t := Tab(fs, r.parent);
    var i := Find(t, r.name, r.ext, 0);
    if !t[0].IsDir() then -1
    else if i == ENTRIES then 3
    else if t[i].IsDir() then 1
    else if r.size < t[i].filesize then 2
    else 0
  }

  /** The first k clusters of a chain, one after the other. */
  function ContentsUpTo(disk: Disk, ch: seq<nat>, k: nat): (s: seq<byte>)
    requires k <= |ch| && forall i :: 0 <= i < |ch| ==> ch[i] < CLUSTER_MAP_SIZE
    ensures |s| == k * CLUSTER_SIZE
  {
    if k == 0 then [] else ContentsUpTo(disk, ch, k - 1) + disk[ch[k - 1]]
  }

  lemma {:induction false} FollowInTable(f: Fat, c: nat, fuel: nat)
    ensures forall i :: 0 <= i < |Follow(f, c, fuel)| ==> Follow(f, c, fuel)[i] < CLUSTER_MAP_SIZE
    decreases fuel
  {
    if fuel > 0 && c < CLUSTER_MAP_SIZE && f[c] != END_OF_FILE {
      FollowInTable(f, f[c], fuel - 1);
    }
  }

  /** Everything stored in the chain of an entry, padding included. */
  function Stored(fs: Fs, e: Entry): seq<byte>
  {
    var ch := ChainOf(fs.fat, e.Cluster());
    FollowInTable(fs.fat, e.Cluster(), CLUSTER_MAP_SIZE);
    ContentsUpTo(fs.disk, ch, |ch|)
  }

  /** The bytes that a successful read puts into the buffer. */
  function ReadData(fs: Fs, r: Request): seq<byte>
    requires ReadCode(fs, r) == 0
  {
    Stored(fs, Tab(fs, r.parent)[Find(Tab(fs, r.parent), r.name, r.ext, 0)])
  }

  // ----- write -----

  function WriteCode(fs: Fs, r: Request): int
  {
    var t := Tab(fs, r.parent);
    if !t[0].IsDir() then -1
    else if Find(t, r.name, r.ext, 0) < ENTRIES then 1
    else if |FreeUpTo(fs.fat, ROOT, CLUSTER_MAP_SIZE)| < ClusterCount(r.size) then -1
    else 0
  }

  /** The first free cluster, 0 when there is none. */
  function FirstFree(f: Fat): ClusterNo
  {
    var free := FreeUpTo(f, ROOT, CLUSTER_MAP_SIZE);
    if free == [] then 0 else free[0]
  }

  function StoreUpTo(disk: Disk, cells: seq<nat>, data: seq<byte>, k: nat): Disk
    requires k <= |cells| && forall i :: 0 <= i < |cells| ==> cells[i] < CLUSTER_MAP_SIZE
    requires k * CLUSTER_SIZE <= |data|
  {
    if k == 0 then disk
    else Put(StoreUpTo(disk, cells, data, k - 1), cells[k - 1],
             data[(k - 1) * CLUSTER_SIZE..k * CLUSTER_SIZE])
  }

  /** The cells that the chain of a new file gets. */
  function FileCells(f: Fat, n: nat): (s: seq<nat>)
    requires n <= |FreeUpTo(f, ROOT, CLUSTER_MAP_SIZE)|
    ensures forall i :: 0 <= i < |s| ==> s[i] < CLUSTER_MAP_SIZE
    ensures |s| == n
  {
    FreeScansAtLeast(f, CLUSTER_MAP_SIZE);
    FreeUpTo(f, 0, CLUSTER_MAP_SIZE)[..n]
  }

  lemma {:induction false} FreeScansAtLeast(f: Fat, hi: nat)
    requires hi <= CLUSTER_MAP_SIZE
    ensures |FreeUpTo(f, ROOT, hi)| <= |FreeUpTo(f, 0, hi)|
  {
    if ROOT < hi { FreeScansAtLeast(f, hi - 1); }
  }

  /** The state after the new directory or the file content is in place, before the entry is. */
  function Allocated(fs: Fs, r: Request, data: seq<byte>): Fs
    requires WriteCode(fs, r) == 0 && |data| >= ClusterCount(r.size) * CLUSTER_SIZE
  {
    if r.size == 0 then
      var first := FirstFree(fs.fat);
      Fs(Put(fs.disk, first, EncodeTable(NewTable(r.name, r.parent))), fs.fat[first := END_OF_FILE])
    else
      var n := ClusterCount(r.size);
      var cells := FileCells(fs.fat, n);
      Fs(StoreUpTo(fs.disk, cells, data, n), LinkUpTo(fs.fat, cells, n))
  }

  /** The table of one directory and the allocation table go back to the disk. */
  function Flush(fs: Fs, dir: ClusterNo, t: Table): Fs
  {
    fs.(disk := Put(Put(fs.disk, dir, EncodeTable(t)), FAT_CLUSTER, EncodeFat(fs.fat)))
  }

  function Written(fs: Fs, r: Request, data: seq<byte>): Fs
    requires WriteCode(fs, r) == 0 && |data| >= ClusterCount(r.size) * CLUSTER_SIZE
  {
    var t := Tab(fs, r.parent);
    Flush(Allocated(fs, r, data), r.parent, t[FreeSlot(t, 1) := NewEntry(r, FirstFree(fs.fat))])
  }

  function Write(fs: Fs, r: Request, data: seq<byte>): Fs
    requires |data| >= ClusterCount(r.size) * CLUSTER_SIZE || WriteCode(fs, r) != 0
  {
    if WriteCode(fs, r) == 0 then Written(fs, r, data) else fs
  }

  // ----- delete -----

  function DeleteCode(fs: Fs, r: Request): int
  {
    var t := Tab(fs, r.parent);
    var i := Find(t, r.name, r.ext, 0);
    if !t[0].IsDir() then -1
    else if i == ENTRIES then 1
    else if t[i].IsDir() && t[i].Cluster() < CLUSTER_MAP_SIZE && HasLiveChild(Tab(fs, t[i].Cluster())) then 2
    else 0
  }

  function Deleted(fs: Fs, r: Request): Fs
    requires DeleteCode(fs, r) == 0
  {
    var t := Tab(fs, r.parent);
    var i := Find(t, r.name, r.ext, 0);
    Flush(fs.(fat := Clear(fs.fat, ChainOf(fs.fat, t[i].Cluster()))), r.parent, t[i := Removed(t[i])])
  }

  function Delete(fs: Fs, r: Request): Fs
  {
    if DeleteCode(fs, r) == 0 then Deleted(fs, r) else fs
  }
}
