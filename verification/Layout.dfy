/**
 On-disk layout of src/header/filesystem/fat32.h: the 32-byte packed directory entry, the
 directory table and the file allocation table, each filling one cluster.
 */
module Layout {
  import opened Bytes

  const BLOCK_SIZE := 512
  const CLUSTER_SIZE := 2048
  const ENTRY_SIZE := 32
  const ENTRIES := 64
  const CLUSTER_MAP_SIZE := 512

  const CLUSTER_0_VALUE: u32 := 0x0FFF_FFF0
  const CLUSTER_1_VALUE: u32 := 0x0FFF_FFFF
  const END_OF_FILE: u32 := 0x0FFF_FFFF
  const EMPTY: u32 := 0
  const FAT_CLUSTER := 1
  const ROOT := 2

  const ATTR_SUBDIRECTORY: byte := 0x10
  const UATTR_NOT_EMPTY: byte := 0xAA

  type u16 = x: int | 0 <= x < 0x1_0000
  type u32 = x: int | 0 <= x < 0x1_0000_0000

  type Name = s: seq<byte> | |s| == 8 witness [0, 0, 0, 0, 0, 0, 0, 0]
  type Ext = s: seq<byte> | |s| == 3 witness [0, 0, 0]
  type Seven = s: seq<byte> | |s| == 7 witness [0, 0, 0, 0, 0, 0, 0]
  type Four = s: seq<byte> | |s| == 4 witness [0, 0, 0, 0]

  const NO_NAME: Name := [0, 0, 0, 0, 0, 0, 0, 0]
  const NO_EXT: Ext := [0, 0, 0]
  const DIR_EXT: Ext := [100, 105, 114]
  const TXT_EXT: Ext := [116, 120, 116]

  /**
   One directory entry. created and modified hold the undelete flag and the time stamps, which
   the file system stores and never looks at.
   */
  datatype Entry = Entry(
    name: Name,
    ext: Ext,
    attribute: byte,
    user: byte,
    created: Seven,
    clusterHigh: u16,
    modified: Four,
    clusterLow: u16,
    filesize: u32)
  {
    /** Both halves of the cluster number put together. */
    function Cluster(): u32 { clusterLow + 0x1_0000 * clusterHigh }

    predicate Live() { user == UATTR_NOT_EMPTY }

    predicate IsDir() { attribute == ATTR_SUBDIRECTORY }

    /** The driver looks entries up by name and extension alone. */
    predicate Matches(n: Name, x: Ext) { name == n && ext == x }
  }

  const BLANK_ENTRY := Entry(NO_NAME, NO_EXT, 0, 0, [0, 0, 0, 0, 0, 0, 0], 0, [0, 0, 0, 0], 0, 0)

  lemma BlankIsDead()
    ensures !BLANK_ENTRY.Live() && !BLANK_ENTRY.IsDir()
  {
  }

  lemma BlankHasNoCluster()
    ensures BLANK_ENTRY.Cluster() == 0
  {
    assert BLANK_ENTRY.clusterLow == 0 && BLANK_ENTRY.clusterHigh == 0;
    hide BLANK_ENTRY;
  }

  lemma BlankHasNoKey()
    ensures BLANK_ENTRY.Matches(NO_NAME, NO_EXT)
  {
  }

  /** A zeroed entry: unused, a file by its attribute, found under the blank key, starting in cluster 0. */
  lemma BlankFacts()
    ensures BLANK_ENTRY.Cluster() == 0 && !BLANK_ENTRY.Live() && BLANK_ENTRY.Matches(NO_NAME, NO_EXT)
    ensures !BLANK_ENTRY.IsDir()
  {
    hide BLANK_ENTRY, NO_NAME, NO_EXT;
    BlankIsDead();
    BlankHasNoCluster();
    BlankHasNoKey();
  }

  type Cluster = s: seq<byte> | |s| == CLUSTER_SIZE witness seq(2048, _ => 0)
  const ZERO_CLUSTER: Cluster := seq(2048, _ => 0)
  type Table = t: seq<Entry> | |t| == ENTRIES witness seq(64, _ => BLANK_ENTRY)
  type Fat = f: seq<u32> | |f| == CLUSTER_MAP_SIZE witness seq(512, _ => 0)
  type Disk = d: seq<Cluster> | |d| == CLUSTER_MAP_SIZE witness seq<Cluster>(512, _ => ZERO_CLUSTER)

  // ----- little-endian numbers -----

  function Le16(x: u16): seq<byte> { [x % 256, x / 256] }

  function Le32(x: u32): seq<byte> { Le16(x % 0x1_0000) + Le16(x / 0x1_0000) }

  function FromLe16(b: seq<byte>): u16
    requires |b| == 2
  {
    b[0] as int + 256 * b[1] as int
  }

  function FromLe32(b: seq<byte>): u32
    requires |b| == 4
  {
    FromLe16(b[..2]) + 0x1_0000 * FromLe16(b[2..])
  }

  lemma Le32RoundTrip(x: u32)
    ensures |Le32(x)| == 4 && FromLe32(Le32(x)) == x
  {
    assert Le32(x)[..2] == Le16(x % 0x1_0000) && Le32(x)[2..] == Le16(x / 0x1_0000);
  }

  lemma Le16BytesRoundTrip(b: seq<byte>)
    requires |b| == 2
    ensures Le16(FromLe16(b)) == b
  {
  }

  lemma Le32BytesRoundTrip(b: seq<byte>)
    requires |b| == 4
    ensures Le32(FromLe32(b)) == b
  {
    Le16BytesRoundTrip(b[..2]);
    Le16BytesRoundTrip(b[2..]);
    var x, low, high := FromLe32(b), FromLe16(b[..2]), FromLe16(b[2..]);
    hide FromLe16, Le16;
    assert x % 0x1_0000 == low && x / 0x1_0000 == high;
  }

  // ----- entries -----

  function EncodeEntry(e: Entry): (b: seq<byte>)
    ensures |b| == ENTRY_SIZE
  {
    e.name + e.ext + [e.attribute, e.user] + e.created + Le16(e.clusterHigh) +
    e.modified + Le16(e.clusterLow) + Le32(e.filesize)
  }

  function DecodeEntry(b: seq<byte>): Entry
    requires |b| == ENTRY_SIZE
  {
    Entry(b[..8], b[8..11], b[11], b[12], b[13..20], FromLe16(b[20..22]), b[22..26],
          FromLe16(b[26..28]), FromLe32(b[28..32]))
  }

  lemma EntryRoundTrip(e: Entry)
    ensures DecodeEntry(EncodeEntry(e)) == e
  {
    var b := EncodeEntry(e);
    Le32RoundTrip(e.filesize);
    assert b[..8] == e.name;
    assert b[8..11] == e.ext;
    assert b[13..20] == e.created;
    assert b[20..22] == Le16(e.clusterHigh);
    assert b[22..26] == e.modified;
    assert b[26..28] == Le16(e.clusterLow);
    assert b[28..32] == Le32(e.filesize);
  }

  /** Every 32 bytes are some entry: the packed structure has no padding. */
  lemma EntryBytesRoundTrip(b: seq<byte>)
    requires |b| == ENTRY_SIZE
    ensures EncodeEntry(DecodeEntry(b)) == b
  {
    Le16BytesRoundTrip(b[20..22]);
    Le16BytesRoundTrip(b[26..28]);
    Le32BytesRoundTrip(b[28..32]);
    hide Le16, Le32, FromLe16, FromLe32;
    assert b == b[..8] + b[8..11] + [b[11], b[12]] + b[13..20] + b[20..22] + b[22..26] + b[26..28] + b[28..32];
  }

  // ----- whole clusters -----

  function EncodeTable(t: Table): Cluster
  {
    seq(CLUSTER_SIZE, i requires 0 <= i < CLUSTER_SIZE => EncodeEntry(t[i / ENTRY_SIZE])[i % ENTRY_SIZE])
  }

  function DecodeTable(c: Cluster): Table
  {
    seq(ENTRIES, i requires 0 <= i < ENTRIES => DecodeEntry(c[ENTRY_SIZE * i..ENTRY_SIZE * i + ENTRY_SIZE]))
  }

  lemma EntryBytesAt(t: Table, i: nat)
    requires i < ENTRIES
    ensures EncodeTable(t)[ENTRY_SIZE * i..ENTRY_SIZE * i + ENTRY_SIZE] == EncodeEntry(t[i])
  {
    hide EncodeEntry;
    var from := ENTRY_SIZE * i;
    forall k | 0 <= k < ENTRY_SIZE
      ensures EncodeTable(t)[from..from + ENTRY_SIZE][k] == EncodeEntry(t[i])[k]
    {
      assert (from + k) / ENTRY_SIZE == i && (from + k) % ENTRY_SIZE == k;
      assert EncodeTable(t)[from..from + ENTRY_SIZE][k] == EncodeTable(t)[from + k];
    }
  }

  lemma TableRoundTrip(t: Table)
    ensures DecodeTable(EncodeTable(t)) == t
  {
    hide EncodeEntry, DecodeEntry, EncodeTable;
    forall i | 0 <= i < ENTRIES
      ensures DecodeTable(EncodeTable(t))[i] == t[i]
    {
      EntryBytesAt(t, i);
      EntryRoundTrip(t[i]);
    }
  }

  function EncodeFat(f: Fat): Cluster
  {
    seq(CLUSTER_SIZE, i requires 0 <= i < CLUSTER_SIZE => Le32(f[i / 4])[i % 4])
  }

  function DecodeFat(c: Cluster): Fat
  {
    seq(CLUSTER_MAP_SIZE, i requires 0 <= i < CLUSTER_MAP_SIZE => FromLe32(c[4 * i..4 * i + 4]))
  }

  lemma FatBytesAt(f: Fat, i: nat)
    requires i < CLUSTER_MAP_SIZE
    ensures EncodeFat(f)[4 * i..4 * i + 4] == Le32(f[i])
  {
    hide Le32;
    var from := 4 * i;
    Le32RoundTrip(f[i]);
    forall k | 0 <= k < 4
      ensures EncodeFat(f)[from..from + 4][k] == Le32(f[i])[k]
    {
      assert (from + k) / 4 == i && (from + k) % 4 == k;
      assert EncodeFat(f)[from..from + 4][k] == EncodeFat(f)[from + k];
    }
  }

  lemma FatRoundTrip(f: Fat)
    ensures DecodeFat(EncodeFat(f)) == f
  {
    hide Le32, FromLe32, EncodeFat;
    forall i | 0 <= i < CLUSTER_MAP_SIZE
      ensures DecodeFat(EncodeFat(f))[i] == f[i]
    {
      FatBytesAt(f, i);
      Le32RoundTrip(f[i]);
    }
  }

  // ----- boot sector -----

  const SIGNATURE_TEXT :=
    "Course          Designed by     Lab Sister ITB  Made with <3    -----------2024\n"

  function SignatureByte(i: nat): byte
  {
    if i < |SIGNATURE_TEXT| then SIGNATURE_TEXT[i] as int % 256
    else if i == BLOCK_SIZE - 2 then 79
    else if i == BLOCK_SIZE - 1 then 107
    else 0
  }

  /** fs_signature: the text, zeros, and "Ok" in the last two bytes. */
  function FsSignature(): (b: seq<byte>)
    ensures |b| == BLOCK_SIZE
  {
    seq(BLOCK_SIZE, i requires 0 <= i < BLOCK_SIZE => SignatureByte(i))
  }

  /** One cluster of the disk replaced. */
  function Put(disk: Disk, c: nat, b: Cluster): (d: Disk)
    requires c < CLUSTER_MAP_SIZE
    ensures d == disk[c := b]
  {
    disk[c := b]
  }
}
