/**
 The bytes on the disk, by their offsets: entries and allocation table as src/header/filesystem/fat32.h
 packs them, a freshly formatted disk, and the directory after a write and after a delete.
 */
module DiskBytes {
  import opened Bytes
  import opened Layout
  import opened Chains
  import opened Store
  import opened Invariant
  import opened Safety
  import Driver

  // ----- offsets -----

  /** The 32 bytes of one entry. */
  predicate EntryBytes(b: seq<byte>, e: Entry)
    requires |b| == 32
  {
    b[..8] == e.name && b[8..11] == e.ext && b[11] == e.attribute && b[12] == e.user && b[13..20] == e.created &&
    b[20] as int + 256 * b[21] as int == e.clusterHigh && b[22..26] == e.modified &&
    b[26] as int + 256 * b[27] as int == e.clusterLow &&
    b[28] as int + 256 * b[29] as int + 0x1_0000 * b[30] as int + 0x100_0000 * b[31] as int == e.filesize
  }

  lemma EncodedEntry(e: Entry)
    ensures EntryBytes(EncodeEntry(e), e)
  {
    var b := EncodeEntry(e);
    Le32Bytes(e.filesize);
    assert b[..8] == e.name && b[8..11] == e.ext && b[13..20] == e.created && b[22..26] == e.modified;
    assert b[20..22] == Le16(e.clusterHigh) && b[26..28] == Le16(e.clusterLow) && b[28..32] == Le32(e.filesize);
    assert b[20] == b[20..22][0] && b[21] == b[20..22][1] && b[26] == b[26..28][0] && b[27] == b[26..28][1];
    assert b[28] == b[28..32][0] && b[29] == b[28..32][1] && b[30] == b[28..32][2] && b[31] == b[28..32][3];
  }

  lemma Le32Bytes(x: u32)
    ensures |Le32(x)| == 4
    ensures var b := Le32(x); b[0] as int + 256 * b[1] as int + 0x1_0000 * b[2] as int + 0x100_0000 * b[3] as int == x
  {
  }

  /** Entry i of a directory is at 32 * i of its cluster. */
  lemma EntryInCluster(t: Table, i: nat)
    requires i < 64
    ensures EntryBytes(EncodeTable(t)[32 * i..32 * i + 32], t[i])
  {
    EntryBytesAt(t, i);
    EncodedEntry(t[i]);
    hide EncodeTable, EntryBytes;
  }

  /** Cell i of the allocation table is at 4 * i of its cluster, the low byte first. */
  lemma CellInCluster(f: Fat, i: nat)
    requires i < 512
    ensures var b := EncodeFat(f);
            b[4 * i] as int + 256 * b[4 * i + 1] as int + 0x1_0000 * b[4 * i + 2] as int +
            0x100_0000 * b[4 * i + 3] as int == f[i]
  {
    FatBytesAt(f, i);
    Le32Bytes(f[i]);
    var c, b := EncodeFat(f), EncodeFat(f)[4 * i..4 * i + 4];
    hide EncodeFat, Le32;
    assert b[0] == c[4 * i] && b[1] == c[4 * i + 1] && b[2] == c[4 * i + 2] && b[3] == c[4 * i + 3];
  }

  // ----- a formatted disk -----

  /** Cells 0 and 1 hold their marks, the root ends its chain, and all others are free. */
  lemma FormattedCells(disk: Disk, rootName: Name)
    ensures Format(disk, rootName).disk[1] == EncodeFat(Format(disk, rootName).fat)
    ensures var f := Format(disk, rootName).fat;
            f[0] == 0x0FFF_FFF0 && f[1] == 0x0FFF_FFFF && f[2] == 0x0FFF_FFFF && forall c :: 3 <= c < 512 ==> f[c] == 0
  {
    hide EncodeFat, EncodeTable, FsSignature, NewTable;
  }

  /** The first block is the signature, with "Ok" at its end; the rest of cluster 0 and clusters 3 to 511 stay. */
  lemma FormattedSector(disk: Disk, rootName: Name)
    ensures SignatureIn(Format(disk, rootName).disk[0])
    ensures forall i :: 512 <= i < 2048 ==> Format(disk, rootName).disk[0][i] == disk[0][i]
    ensures forall c :: 3 <= c < 512 ==> Format(disk, rootName).disk[c] == disk[c]
  {
    hide EncodeFat, EncodeTable, FreshFat, NewTable;
    var b := SignedCluster(disk[0]);
    assert Format(disk, rootName).disk[0] == b;
    assert b[..512] == FsSignature();
    assert forall i :: 512 <= i < 2048 ==> b[i] == disk[0][512..][i - 512];
    SignedIff(b);
    hide Format, SignedCluster, FsSignature, SignatureIn;
  }

  /** The whole signature, byte by byte. */
  predicate SignatureIn(b: Cluster)
  {
    b[510] == 79 && b[511] == 107 && (forall i :: 80 <= i < 510 ==> b[i] == 0) &&
    forall i :: 0 <= i < 80 ==>
      b[i] as int ==
      "Course          Designed by     Lab Sister ITB  Made with <3    -----------2024\n"[i] as int % 256
  }

  lemma SignedIff(b: Cluster)
    ensures Signed(b) <==> SignatureIn(b)
  {
    assert |SIGNATURE_TEXT| == 80;
    assert forall i :: 0 <= i < 512 ==> FsSignature()[i] == SignatureByte(i);
    hide FsSignature;
    if SignatureIn(b) {
      forall i | 0 <= i < 512 ensures b[..512][i] == FsSignature()[i] {}
    } else if Signed(b) {
      forall i | 0 <= i < 512 ensures b[i] == SignatureByte(i) { assert b[i] == b[..512][i]; }
    }
  }

  /** Boot reads the table when the whole signature is there, and formats the disk when a byte of it is not. */
  lemma BootBranches(disk: Disk, rootName: Name)
    ensures !SignatureIn(disk[0]) ==> Boot(disk, rootName) == Format(disk, rootName)
    ensures SignatureIn(disk[0]) ==>
              Boot(disk, rootName).disk == disk &&
              forall i :: 0 <= i < 512 ==>
                Boot(disk, rootName).fat[i] ==
                disk[1][4 * i] as int + 256 * disk[1][4 * i + 1] as int + 0x1_0000 * disk[1][4 * i + 2] as int +
                0x100_0000 * disk[1][4 * i + 3] as int
  {
    SignedIff(disk[0]);
    hide SignatureIn, Signed, Format;
    forall i | 0 <= i < 512
      ensures DecodeFat(disk[1])[i] ==
              disk[1][4 * i] as int + 256 * disk[1][4 * i + 1] as int + 0x1_0000 * disk[1][4 * i + 2] as int +
              0x100_0000 * disk[1][4 * i + 3] as int
    {
      FourBytes(disk[1], i);
    }
  }

  lemma FourBytes(c: Cluster, i: nat)
    requires i < 512
    ensures DecodeFat(c)[i] ==
            c[4 * i] as int + 256 * c[4 * i + 1] as int + 0x1_0000 * c[4 * i + 2] as int +
            0x100_0000 * c[4 * i + 3] as int
  {
    var b := c[4 * i..4 * i + 4];
    assert b[..2][0] == c[4 * i] && b[..2][1] == c[4 * i + 1] && b[2..][0] == c[4 * i + 2] && b[2..][1] == c[4 * i + 3];
    assert DecodeFat(c)[i] == FromLe32(b);
    hide DecodeFat;
  }

  /** A parent whose first entry has not the attribute of a directory is refused by all four calls. */
  lemma NotADirectory(fs: Fs, r: Request)
    requires fs.disk[r.parent][11] != 0x10
    ensures ReadCode(fs, r) == WriteCode(fs, r) == DeleteCode(fs, r) == Driver.ReadDirectoryCode(fs, r) == -1
  {
    var c := fs.disk[r.parent];
    EntryOfCluster(c, 0);
    BytesOf(c[32 * 0..32 * 0 + 32], DecodeTable(c)[0]);
    hide Find, FreeUpTo, ClusterCount, HasLiveChild, DecodeTable, EntryBytes;
    assert c[32 * 0..32 * 0 + 32][11] == c[11];
  }

  /** The root is a directory in use that names itself as its parent, with nothing else in it. */
  lemma FormattedRoot(disk: Disk, rootName: Name)
    ensures var b := Format(disk, rootName).disk[2];
            b[..8] == rootName && b[8..11] == [0, 0, 0] && b[11] == 0x10 && b[12] == 0xAA &&
            b[20] as int + 256 * b[21] as int == 0 && b[26] as int + 256 * b[27] as int == 2 &&
            forall k :: 32 <= k < 2048 ==> b[k] == 0
  {
    var t := NewTable(rootName, ROOT);
    var b := EncodeTable(t);
    FirstEntryBytes(rootName);
    forall k | 32 <= k < 2048 ensures b[k] == 0 { RestIsZero(rootName, k); }
    hide EncodeFat, EncodeTable, FsSignature, FreshFat, EntryBytes, NewTable, BLANK_ENTRY;
  }

  lemma RestIsZero(rootName: Name, k: nat)
    requires 32 <= k < 2048
    ensures EncodeTable(NewTable(rootName, ROOT))[k] == 0
  {
    hide EncodeTable, BLANK_ENTRY, LinkEntry, EntryBytes;
    var t, i := NewTable(rootName, ROOT), k / 32;
    var b := EncodeTable(t);
    EntryInCluster(t, i);
    hide NewTable;
    BlankBytes(b[32 * i..32 * i + 32]);
    assert b[32 * i..32 * i + 32][k - 32 * i] == b[k];
  }

  lemma FirstEntryBytes(rootName: Name)
    ensures var b := EncodeTable(NewTable(rootName, ROOT));
            b[..8] == rootName && b[8..11] == [0, 0, 0] && b[11] == 0x10 && b[12] == 0xAA &&
            b[20] as int + 256 * b[21] as int == 0 && b[26] as int + 256 * b[27] as int == 2
  {
    var t := NewTable(rootName, ROOT);
    var b, e := EncodeTable(t), LinkEntry(rootName, ROOT);
    assert e.name == rootName && e.ext == [0, 0, 0] && e.attribute == 0x10 && e.user == 0xAA;
    assert e.clusterHigh == 0 && e.clusterLow == 2;
    EntryInCluster(t, 0);
    assert t[0] == e;
    hide EncodeTable, NewTable, LinkEntry, BLANK_ENTRY;
    var c := b[0..32];
    assert b[..8] == c[..8] && b[8..11] == c[8..11] && b[11] == c[11] && b[12] == c[12];
    assert b[20] == c[20] && b[21] == c[21] && b[26] == c[26] && b[27] == c[27];
  }

  /** A zeroed entry is 32 zero bytes. */
  lemma BlankBytes(b: seq<byte>)
    requires |b| == 32 && EntryBytes(b, BLANK_ENTRY)
    ensures forall i :: 0 <= i < 32 ==> b[i] == 0
  {
    assert b[..8] == [0, 0, 0, 0, 0, 0, 0, 0] && b[8..11] == [0, 0, 0];
    assert b[13..20] == [0, 0, 0, 0, 0, 0, 0] && b[22..26] == [0, 0, 0, 0];
    assert b[11] == 0 && b[12] == 0 && b[20] == 0 && b[21] == 0 && b[26] == 0 && b[27] == 0;
    assert b[28] == 0 && b[29] == 0 && b[30] == 0 && b[31] == 0;
    hide EntryBytes, BLANK_ENTRY;
    forall i | 0 <= i < 32 ensures b[i] == 0
    {
      assert i < 8 ==> b[i] == b[..8][i];
      assert 8 <= i < 11 ==> b[i] == b[8..11][i - 8];
      assert 13 <= i < 20 ==> b[i] == b[13..20][i - 13];
      assert 22 <= i < 26 ==> b[i] == b[22..26][i - 22];
    }
  }

  // ----- the directory after a write or a delete -----

  /** One entry replaced: the other bytes of the cluster stay. */
  lemma OtherBytesStay(c: Cluster, s: nat, e: Entry, k: nat)
    requires s < 64 && k < 2048 && k / 32 != s
    ensures EncodeTable(DecodeTable(c)[s := e])[k] == c[k]
  {
    var i := k / 32;
    var b := c[32 * i..32 * i + 32];
    EntryBytesRoundTrip(b);
    hide EncodeEntry, DecodeEntry;
    assert DecodeTable(c)[s := e][i] == DecodeEntry(b);
    assert b[k % 32] == c[k];
  }

  /** What a byte of the cluster says of its entry. */
  lemma EntryOfCluster(c: Cluster, i: nat)
    requires i < 64
    ensures EntryBytes(c[32 * i..32 * i + 32], DecodeTable(c)[i])
  {
    var b := c[32 * i..32 * i + 32];
    EntryBytesRoundTrip(b);
    EncodedEntry(DecodeEntry(b));
    hide EntryBytes, EncodeEntry, DecodeEntry;
  }

  /**
   A write enters the request in the first entry past the own one that is not in use, with the first free
   cell as its cluster, and leaves the other bytes of the directory as they are.
   */
  lemma WrittenBytes(fs: Fs, r: Request, data: seq<byte>) returns (s: nat)
    requires WriteCode(fs, r) == 0 && |data| >= ClusterCount(r.size) * CLUSTER_SIZE
    requires WriteFits(fs, r) && r.parent != FAT_CLUSTER
    ensures 1 <= s < 64 && fs.disk[r.parent][32 * s + 12] != 0xAA
    ensures forall j :: 1 <= j < s ==> fs.disk[r.parent][32 * j + 12] == 0xAA
    ensures var b := Written(fs, r, data).disk[r.parent][32 * s..32 * s + 32];
            b[..8] == r.name && b[8..11] == r.ext && b[11] == (if r.size == 0 then 0x10 else 0) && b[12] == 0xAA &&
            b[20] == 0 && b[21] == 0 &&
            b[28] as int + 256 * b[29] as int + 0x1_0000 * b[30] as int + 0x100_0000 * b[31] as int == r.size
    ensures var b := Written(fs, r, data).disk[r.parent][32 * s..32 * s + 32];
            var first := b[26] as int + 256 * b[27] as int;
            2 <= first < 512 && fs.fat[first] == 0 && forall c :: 2 <= c < first ==> fs.fat[c] != 0
    ensures forall k :: 0 <= k < 2048 && k / 32 != s ==>
              Written(fs, r, data).disk[r.parent][k] == fs.disk[r.parent][k]
  {
    hide WriteCode, FreeSlot, FreeUpTo, ClusterCount, Allocated, EncodeTable, DecodeTable, EncodeFat, NewEntry,
         FirstFree, EntryBytes, Written;
    var c, first := fs.disk[r.parent], FirstFree(fs.fat);
    s := FreeSlot(DecodeTable(c), 1);
    WrittenCluster(fs, r, data);
    FirstFreeIs(fs.fat);
    EntryInCluster(DecodeTable(c)[s := NewEntry(r, first)], s);
    NewEntryIs(r, first);
    forall j | 1 <= j <= s ensures fs.disk[r.parent][32 * j + 12] == 0xAA <==> DecodeTable(c)[j].Live()
    {
      EntryOfCluster(c, j);
      UserByte(c, j, DecodeTable(c)[j]);
    }
    forall j | 1 <= j < s ensures fs.disk[r.parent][32 * j + 12] == 0xAA
    {
      assert DecodeTable(c)[j].Live();
    }
    forall k | 0 <= k < 2048 && k / 32 != s ensures Written(fs, r, data).disk[r.parent][k] == c[k]
    {
      OtherBytesStay(c, s, NewEntry(r, first), k);
    }
    BytesOf(Written(fs, r, data).disk[r.parent][32 * s..32 * s + 32], NewEntry(r, first));
  }

  lemma FirstFreeIs(f: Fat)
    requires FreeUpTo(f, ROOT, CLUSTER_MAP_SIZE) != []
    ensures 2 <= FirstFree(f) < 512 && f[FirstFree(f)] == 0 && forall c :: 2 <= c < FirstFree(f) ==> f[c] != 0
  {
    var free := FreeUpTo(f, ROOT, CLUSTER_MAP_SIZE);
    assert forall i :: 0 <= i < |free| ==> free[0] <= free[i];
    assert forall c :: 2 <= c < free[0] ==> c !in free;
  }

  lemma UserByte(c: Cluster, j: nat, e: Entry)
    requires j < 64 && EntryBytes(c[32 * j..32 * j + 32], e)
    ensures c[32 * j + 12] == e.user
  {
  }

  lemma BytesOf(b: seq<byte>, e: Entry)
    requires |b| == 32 && EntryBytes(b, e)
    ensures b[..8] == e.name && b[8..11] == e.ext && b[11] == e.attribute && b[12] == e.user
    ensures b[20] as int + 256 * b[21] as int == e.clusterHigh && b[26] as int + 256 * b[27] as int == e.clusterLow
    ensures b[28] as int + 256 * b[29] as int + 0x1_0000 * b[30] as int + 0x100_0000 * b[31] as int == e.filesize
  {
  }

  lemma NewEntryIs(r: Request, first: ClusterNo)
    ensures var e := NewEntry(r, first);
            e.name == r.name && e.ext == r.ext && e.user == 0xAA && e.clusterLow == first && e.clusterHigh == 0 &&
            e.filesize == r.size && e.attribute == if r.size == 0 then 0x10 else 0
  {
  }

  lemma WrittenCluster(fs: Fs, r: Request, data: seq<byte>)
    requires WriteCode(fs, r) == 0 && |data| >= ClusterCount(r.size) * CLUSTER_SIZE && r.parent != FAT_CLUSTER
    ensures var t := Tab(fs, r.parent);
            Written(fs, r, data).disk[r.parent] == EncodeTable(t[FreeSlot(t, 1) := NewEntry(r, FirstFree(fs.fat))])
  {
    hide WriteCode, FreeSlot, FreeUpTo, ClusterCount, Allocated, EncodeTable, DecodeTable, EncodeFat, NewEntry,
         FirstFree;
  }

  /** A delete blanks name, extension and the mark of use of the entry it finds, and no other byte of the directory. */
  lemma DeletedBytes(fs: Fs, r: Request) returns (s: nat)
    requires DeleteCode(fs, r) == 0 && r.parent != FAT_CLUSTER
    ensures s < 64
    ensures var b := fs.disk[r.parent][32 * s..32 * s + 32]; b[..8] == r.name && b[8..11] == r.ext
    ensures forall k :: 0 <= k < 2048 ==>
              Deleted(fs, r).disk[r.parent][k] ==
              if 32 * s <= k < 32 * s + 11 || k == 32 * s + 12 then 0 else fs.disk[r.parent][k]
  {
    hide EncodeTable, DecodeTable, EntryBytes, Removed, EncodeEntry, DeleteCode, Deleted, Find;
    var c, t := fs.disk[r.parent], Tab(fs, r.parent);
    s := Find(t, r.name, r.ext, 0);
    DeletedCluster(fs, r);
    EntryOfCluster(c, s);
    BytesOf(c[32 * s..32 * s + 32], t[s]);
    EntryBytesAt(t[s := Removed(t[s])], s);
    var c' := EncodeTable(t[s := Removed(t[s])]);
    RemovedBytes(t[s]);
    OwnBytes(c, s);
    forall k | 0 <= k < 2048
      ensures c'[k] == if 32 * s <= k < 32 * s + 11 || k == 32 * s + 12 then 0 else c[k]
    {
      if k / 32 != s {
        OtherBytesStay(c, s, Removed(t[s]), k);
      } else {
        assert c'[32 * s..32 * s + 32][k - 32 * s] == c'[k] && c[32 * s..32 * s + 32][k - 32 * s] == c[k];
      }
    }
  }

  lemma DeletedCluster(fs: Fs, r: Request)
    requires DeleteCode(fs, r) == 0 && r.parent != FAT_CLUSTER
    ensures var t := Tab(fs, r.parent); var i := Find(t, r.name, r.ext, 0);
            i < 64 && Deleted(fs, r).disk[r.parent] == EncodeTable(t[i := Removed(t[i])])
  {
    hide EncodeTable, DecodeTable, EncodeFat, HasLiveChild, ChainOf, Removed, Find;
  }

  lemma OwnBytes(c: Cluster, i: nat)
    requires i < 64
    ensures EncodeEntry(DecodeTable(c)[i]) == c[32 * i..32 * i + 32]
  {
    EntryBytesRoundTrip(c[32 * i..32 * i + 32]);
    hide EncodeEntry, DecodeEntry;
  }

  lemma RemovedBytes(e: Entry)
    ensures forall k :: 0 <= k < 32 ==> EncodeEntry(Removed(e))[k] == if k < 11 || k == 12 then 0 else EncodeEntry(e)[k]
  {
    var rest := e.created + Le16(e.clusterHigh) + e.modified + Le16(e.clusterLow) + Le32(e.filesize);
    hide Le16, Le32;
    assert EncodeEntry(e) == e.name + e.ext + [e.attribute, e.user] + rest;
    assert EncodeEntry(Removed(e)) == NO_NAME + NO_EXT + [e.attribute, 0] + rest;
  }
}
