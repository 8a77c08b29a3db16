/** On-disk layout: the 32-byte directory entry, the 64-slot directory table and the 512-word FAT. */
module Layout {
  import opened Bytes

  const BLOCK_SIZE: nat := 512
  const CLUSTER_BLOCK_COUNT: nat := 4
  const CLUSTER_SIZE: nat := 2048
  const CLUSTER_MAP_SIZE: nat := 512
  const ENTRY_SIZE: nat := 32
  const TABLE_SLOTS: nat := 64

  const CLUSTER_0_VALUE: u32 := 0x0FFF_FFF0
  const CLUSTER_1_VALUE: u32 := 0x0FFF_FFFF
  const END_OF_FILE: u32 := 0x0FFF_FFFF
  const FAT_CLUSTER: nat := 1
  const ROOT_CLUSTER: nat := 2

  const ATTR_SUBDIRECTORY: byte := 0x10
  const UATTR_NOT_EMPTY: byte := 0xAA

  type Name = s: seq<byte> | |s| == 8 witness [0, 0, 0, 0, 0, 0, 0, 0]
  type Ext = s: seq<byte> | |s| == 3 witness [0, 0, 0]
  type Cluster = s: seq<byte> | |s| == 2048 witness seq(2048, _ => 0)
  type Fat = s: seq<u32> | |s| == 512 witness seq(512, _ => 0)
  type Table = s: seq<Entry> | |s| == 64 witness seq(64, _ => EMPTY_ENTRY)

  datatype Entry = Entry(
    name: Name, ext: Ext, attribute: byte, userAttribute: byte,
    undelete: byte, createTime: u16, createDate: u16, accessDate: u16, clusterHigh: u16,
    modifiedTime: u16, modifiedDate: u16, clusterLow: u16, filesize: u32)
  {
    predicate Live() { userAttribute == UATTR_NOT_EMPTY }
  }

  const EMPTY_ENTRY: Entry := Entry([0, 0, 0, 0, 0, 0, 0, 0], [0, 0, 0], 0, 0, 0, 0, 0, 0, 0, 0, 0, 0, 0)

  function EncodeEntry(e: Entry): (b: seq<byte>)
    ensures |b| == 32
  {
    e.name + e.ext + [e.attribute, e.userAttribute, e.undelete]
    + EncodeU16(e.createTime) + EncodeU16(e.createDate) + EncodeU16(e.accessDate) + EncodeU16(e.clusterHigh)
    + EncodeU16(e.modifiedTime) + EncodeU16(e.modifiedDate) + EncodeU16(e.clusterLow) + EncodeU32(e.filesize)
  }

  function DecodeEntry(b: seq<byte>): Entry
    requires |b| == 32
  {
    Entry(b[0..8], b[8..11], b[11], b[12], b[13],
          DecodeU16(b[14..16]), DecodeU16(b[16..18]), DecodeU16(b[18..20]), DecodeU16(b[20..22]),
          DecodeU16(b[22..24]), DecodeU16(b[24..26]), DecodeU16(b[26..28]), DecodeU32(b[28..32]))
  }

  lemma EntryFields(e: Entry)
    ensures var b := EncodeEntry(e);
            && b[0..8] == e.name && b[8..11] == e.ext && b[11..14] == [e.attribute, e.userAttribute, e.undelete]
            && b[14..16] == EncodeU16(e.createTime) && b[16..18] == EncodeU16(e.createDate)
            && b[18..20] == EncodeU16(e.accessDate) && b[20..22] == EncodeU16(e.clusterHigh)
            && b[22..24] == EncodeU16(e.modifiedTime) && b[24..26] == EncodeU16(e.modifiedDate)
            && b[26..28] == EncodeU16(e.clusterLow) && b[28..32] == EncodeU32(e.filesize)
  {
    hide EncodeU16, EncodeU32;
  }

  lemma DecodeEncodeEntry(e: Entry)
    ensures DecodeEntry(EncodeEntry(e)) == e
  {
    hide EncodeEntry, EncodeU16, EncodeU32, DecodeU16, DecodeU32;
    EntryFields(e);
    var b := EncodeEntry(e);
    assert b[11] == b[11..14][0] && b[12] == b[11..14][1] && b[13] == b[11..14][2];
    U16RoundTrip(e.createTime, [0, 0]);
    U16RoundTrip(e.createDate, [0, 0]);
    U16RoundTrip(e.accessDate, [0, 0]);
    U16RoundTrip(e.clusterHigh, [0, 0]);
    U16RoundTrip(e.modifiedTime, [0, 0]);
    U16RoundTrip(e.modifiedDate, [0, 0]);
    U16RoundTrip(e.clusterLow, [0, 0]);
    U32RoundTrip(e.filesize, [0, 0, 0, 0]);
  }

  lemma EncodeDecodeEntry(b: seq<byte>)
    requires |b| == 32
    ensures EncodeEntry(DecodeEntry(b)) == b
  {
    hide EncodeU16, EncodeU32, DecodeU16, DecodeU32;
    U16RoundTrip(0, b[14..16]);
    U16RoundTrip(0, b[16..18]);
    U16RoundTrip(0, b[18..20]);
    U16RoundTrip(0, b[20..22]);
    U16RoundTrip(0, b[22..24]);
    U16RoundTrip(0, b[24..26]);
    U16RoundTrip(0, b[26..28]);
    U32RoundTrip(0, b[28..32]);
  }

  // A directory cluster is its entries' images one after the other; both directions work by halves.

  function EncodeEntries(t: seq<Entry>): (b: seq<byte>)
    ensures |b| == 32 * |t|
    decreases |t|
  {
    if |t| == 0 then [] else if |t| == 1 then EncodeEntry(t[0])
    else EncodeEntries(t[..|t| / 2]) + EncodeEntries(t[|t| / 2..])
  }

  function DecodeEntries(b: seq<byte>): (t: seq<Entry>)
    requires |b| % 32 == 0
    ensures |t| == |b| / 32
    decreases |b|
  {
    if |b| == 0 then [] else if |b| == 32 then [DecodeEntry(b)]
    else DecodeEntries(b[..|b| / 64 * 32]) + DecodeEntries(b[|b| / 64 * 32..])
  }

  function EncodeTable(t: Table): Cluster { EncodeEntries(t) }

  function DecodeTable(b: Cluster): Table { DecodeEntries(b) }

  lemma EncodeEntriesStep(t: seq<Entry>)
    ensures |t| == 0 ==> EncodeEntries(t) == []
    ensures |t| == 1 ==> EncodeEntries(t) == EncodeEntry(t[0])
    ensures |t| > 1 ==> EncodeEntries(t) == EncodeEntries(t[..|t| / 2]) + EncodeEntries(t[|t| / 2..])
  {
  }

  lemma DecodeEntriesStep(b: seq<byte>)
    requires |b| % 32 == 0
    ensures |b| == 0 ==> DecodeEntries(b) == []
    ensures |b| == 32 ==> DecodeEntries(b) == [DecodeEntry(b)]
    ensures |b| > 32 ==> DecodeEntries(b) == DecodeEntries(b[..|b| / 64 * 32]) + DecodeEntries(b[|b| / 64 * 32..])
  {
  }

  lemma {:induction false} DecodeEncodeEntries(t: seq<Entry>)
    ensures DecodeEntries(EncodeEntries(t)) == t
    decreases |t|
  {
    hide EncodeEntries, DecodeEntries, EncodeEntry, DecodeEntry;
    var b, h := EncodeEntries(t), |t| / 2;
    EncodeEntriesStep(t);
    DecodeEntriesStep(b);
    if |t| == 1 {
      DecodeEncodeEntry(t[0]);
    } else if |t| > 1 {
      assert |b| / 64 * 32 == 32 * h;
      assert b[..32 * h] == EncodeEntries(t[..h]) && b[32 * h..] == EncodeEntries(t[h..]);
      DecodeEncodeEntries(t[..h]);
      DecodeEncodeEntries(t[h..]);
      assert t == t[..h] + t[h..];
    }
  }

  lemma {:induction false} EncodeDecodeEntries(b: seq<byte>)
    requires |b| % 32 == 0
    ensures EncodeEntries(DecodeEntries(b)) == b
    decreases |b|
  {
    hide EncodeEntries, DecodeEntries, EncodeEntry, DecodeEntry;
    var t, h := DecodeEntries(b), |b| / 64 * 32;
    DecodeEntriesStep(b);
    EncodeEntriesStep(t);
    if |b| == 32 {
      EncodeDecodeEntry(b);
    } else if |b| > 32 {
      assert |t| / 2 == h / 32;
      assert t[..|t| / 2] == DecodeEntries(b[..h]) && t[|t| / 2..] == DecodeEntries(b[h..]);
      EncodeDecodeEntries(b[..h]);
      EncodeDecodeEntries(b[h..]);
      assert b == b[..h] + b[h..];
    }
  }

  /** A directory table survives the trip to disk, and a cluster the trip through the table view. */
  lemma TableRoundTrip(t: Table, b: Cluster)
    ensures DecodeTable(EncodeTable(t)) == t
    ensures EncodeTable(DecodeTable(b)) == b
  {
    DecodeEncodeEntries(t);
    EncodeDecodeEntries(b);
  }

  function EncodeWords(w: seq<u32>): (b: seq<byte>)
    ensures |b| == 4 * |w|
    decreases |w|
  {
    if |w| == 0 then [] else if |w| == 1 then EncodeU32(w[0])
    else EncodeWords(w[..|w| / 2]) + EncodeWords(w[|w| / 2..])
  }

  function DecodeWords(b: seq<byte>): (w: seq<u32>)
    requires |b| % 4 == 0
    ensures |w| == |b| / 4
    decreases |b|
  {
    if |b| == 0 then [] else if |b| == 4 then [DecodeU32(b)]
    else DecodeWords(b[..|b| / 8 * 4]) + DecodeWords(b[|b| / 8 * 4..])
  }

  function EncodeFat(f: Fat): Cluster { EncodeWords(f) }

  function DecodeFat(b: Cluster): Fat { DecodeWords(b) }

  lemma EncodeWordsStep(w: seq<u32>)
    ensures |w| == 0 ==> EncodeWords(w) == []
    ensures |w| == 1 ==> EncodeWords(w) == EncodeU32(w[0])
    ensures |w| > 1 ==> EncodeWords(w) == EncodeWords(w[..|w| / 2]) + EncodeWords(w[|w| / 2..])
  {
  }

  lemma DecodeWordsStep(b: seq<byte>)
    requires |b| % 4 == 0
    ensures |b| == 0 ==> DecodeWords(b) == []
    ensures |b| == 4 ==> DecodeWords(b) == [DecodeU32(b)]
    ensures |b| > 4 ==> DecodeWords(b) == DecodeWords(b[..|b| / 8 * 4]) + DecodeWords(b[|b| / 8 * 4..])
  {
  }

  lemma {:induction false} DecodeEncodeWords(w: seq<u32>)
    ensures DecodeWords(EncodeWords(w)) == w
    decreases |w|
  {
    hide EncodeWords, DecodeWords, EncodeU32, DecodeU32;
    var b, h := EncodeWords(w), |w| / 2;
    EncodeWordsStep(w);
    DecodeWordsStep(b);
    if |w| == 1 {
      U32RoundTrip(w[0], [0, 0, 0, 0]);
    } else if |w| > 1 {
      assert |b| / 8 * 4 == 4 * h;
      assert b[..4 * h] == EncodeWords(w[..h]) && b[4 * h..] == EncodeWords(w[h..]);
      DecodeEncodeWords(w[..h]);
      DecodeEncodeWords(w[h..]);
      assert w == w[..h] + w[h..];
    }
  }

  lemma {:induction false} EncodeDecodeWords(b: seq<byte>)
    requires |b| % 4 == 0
    ensures EncodeWords(DecodeWords(b)) == b
    decreases |b|
  {
    hide EncodeWords, DecodeWords, EncodeU32, DecodeU32;
    var w, h := DecodeWords(b), |b| / 8 * 4;
    DecodeWordsStep(b);
    EncodeWordsStep(w);
    if |b| == 4 {
      U32RoundTrip(0, b);
    } else if |b| > 4 {
      assert |w| / 2 == h / 4;
      assert w[..|w| / 2] == DecodeWords(b[..h]) && w[|w| / 2..] == DecodeWords(b[h..]);
      EncodeDecodeWords(b[..h]);
      EncodeDecodeWords(b[h..]);
      assert b == b[..h] + b[h..];
    }
  }

  /** The same for the file allocation table. */
  lemma FatRoundTrip(f: Fat, b: Cluster)
    ensures DecodeFat(EncodeFat(f)) == f
    ensures EncodeFat(DecodeFat(b)) == b
  {
    DecodeEncodeWords(f);
    EncodeDecodeWords(b);
  }

  /** The table `init_directory_table` builds in a zeroed buffer. */
  function InitTable(t: Table, name: Name, cluster: u32): (r: Table)
    ensures r[1..] == t[1..]
    ensures r[0].name == name && r[0].Live() && r[0].attribute == ATTR_SUBDIRECTORY
    ensures r[0].clusterLow + 0x1_0000 * r[0].clusterHigh == cluster
  {
    t[0 := t[0].(clusterHigh := cluster / 0x1_0000, clusterLow := cluster % 0x1_0000, name := name,
                 attribute := ATTR_SUBDIRECTORY, userAttribute := UATTR_NOT_EMPTY)]
  }

  function EmptyTable(): (t: Table)
    ensures forall i :: 0 <= i < 64 ==> t[i] == EMPTY_ENTRY
  {
    seq(64, _ => EMPTY_ENTRY)
  }
}
