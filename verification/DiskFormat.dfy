/** The bytes on the disk: where every field lies, what formatting writes, and what a call changes. */
module DiskFormat {
  import opened Bytes
  import opened Layout
  import opened Chains
  import opened Volume
  import opened Tree
  import opened TreeEdits
  import opened Safety
  import opened WriteProof
  import opened DeleteProof
  import opened RoundTrips

  // ---------------------------------------------------------------- fields

  lemma Slices(b: seq<byte>, h: nat, at: nat, n: nat)
    requires h <= |b| && at + n <= |b|
    ensures at + n <= h ==> b[..h][at..at + n] == b[at..at + n]
    ensures h <= at ==> b[h..][at - h..at - h + n] == b[at..at + n]
  {
  }

  lemma EntrySplit(b: seq<byte>, i: nat)
    requires |b| % 32 == 0 && |b| > 32 && 32 * i < |b|
    ensures var k := |b| / 64;
            && 0 < k && 32 * k < |b|
            && DecodeEntries(b)[i] == if i < k then DecodeEntries(b[..32 * k])[i] else DecodeEntries(b[32 * k..])[i - k]
  {
    hide DecodeEntries;
    DecodeEntriesStep(b);
  }

  /** Entry `i` is decoded from the 32 bytes at 32 * i. */
  lemma {:induction false} EntryAt(b: seq<byte>, i: nat)
    requires |b| % 32 == 0 && 32 * i < |b|
    ensures DecodeEntries(b)[i] == DecodeEntry(b[32 * i..32 * i + 32])
    decreases |b|
  {
    hide DecodeEntry, DecodeEntries;
    if |b| == 32 {
      DecodeEntriesStep(b);
      assert b[0..32] == b;
    } else {
      EntrySplit(b, i);
      var k := |b| / 64;
      Slices(b, 32 * k, 32 * i, 32);
      if i < k {
        EntryAt(b[..32 * k], i);
      } else {
        EntryAt(b[32 * k..], i - k);
      }
    }
  }

  lemma EntryImage(b: seq<byte>, i: nat)
    requires |b| % 32 == 0 && 32 * i < |b|
    ensures DecodeEntries(b)[i] == DecodeEntry(b[32 * i..32 * i + 32])
    ensures b[32 * i..32 * i + 32] == EncodeEntry(DecodeEntries(b)[i])
  {
    hide DecodeEntry, DecodeEntries, EncodeEntry;
    EntryAt(b, i);
    EncodeDecodeEntry(b[32 * i..32 * i + 32]);
  }

  lemma WordSplit(b: seq<byte>, c: nat)
    requires |b| % 4 == 0 && |b| > 4 && 4 * c < |b|
    ensures var k := |b| / 8;
            && 0 < k && 4 * k < |b|
            && DecodeWords(b)[c] == if c < k then DecodeWords(b[..4 * k])[c] else DecodeWords(b[4 * k..])[c - k]
  {
    hide DecodeWords;
    DecodeWordsStep(b);
  }

  lemma {:induction false} WordAt(b: seq<byte>, c: nat)
    requires |b| % 4 == 0 && 4 * c < |b|
    ensures DecodeWords(b)[c] == DecodeU32(b[4 * c..4 * c + 4])
    decreases |b|
  {
    hide DecodeU32, DecodeWords;
    if |b| == 4 {
      DecodeWordsStep(b);
      assert b[0..4] == b;
    } else {
      WordSplit(b, c);
      var k := |b| / 8;
      Slices(b, 4 * k, 4 * c, 4);
      if c < k {
        WordAt(b[..4 * k], c);
      } else {
        WordAt(b[4 * k..], c - k);
      }
    }
  }

  /** A number of two or four bytes at `at`, low byte first. */
  function Two(b: Cluster, at: nat): int
    requires at + 2 <= 2048
  {
    b[at] as int + 0x100 * b[at + 1] as int
  }

  function Four(b: Cluster, at: nat): int
    requires at + 4 <= 2048
  {
    Two(b, at) + 0x1_0000 * Two(b, at + 2)
  }

  /** Slot `i` of a directory cluster: every field at its offset, numbers with the low byte first. */
  lemma SlotOnDisk(b: Cluster, i: nat)
    requires i < 64
    ensures var e, o := DecodeTable(b)[i], 32 * i;
            && e.name == b[o..o + 8] && e.ext == b[o + 8..o + 11] && e.attribute == b[o + 11]
            && (e.Live() <==> b[o + 12] == 0xAA) && e.userAttribute == b[o + 12] && e.undelete == b[o + 13]
            && e.createTime == Two(b, o + 14) && e.createDate == Two(b, o + 16) && e.accessDate == Two(b, o + 18)
            && e.clusterHigh == Two(b, o + 20) && e.modifiedTime == Two(b, o + 22)
            && e.modifiedDate == Two(b, o + 24) && e.clusterLow == Two(b, o + 26) && e.filesize == Four(b, o + 28)
  {
    hide DecodeEntries, EncodeEntry;
    EntryImage(b, i);
    var o := 32 * i;
    var s := b[o..o + 32];
    assert forall k :: 0 <= k < 32 ==> s[k] == b[o + k];
    assert s[0..8] == b[o..o + 8] && s[8..11] == b[o + 8..o + 11];
  }

  /** Entry `c` of the FAT: a 32-bit number with the low byte first. */
  lemma FatOnDisk(b: Cluster, c: nat)
    requires c < 512
    ensures DecodeFat(b)[c] == Four(b, 4 * c)
  {
    hide DecodeWords;
    WordAt(b, c);
  }

  /** Byte `k` of an entry's image. */
  function EntryByte(e: Entry, k: nat): int
    requires k < 32
  {
    if k < 8 then e.name[k] else if k < 11 then e.ext[k - 8] else if k == 11 then e.attribute
    else if k == 12 then e.userAttribute else if k == 13 then e.undelete
    else if k < 16 then NumberByte(e.createTime, k - 14) else if k < 18 then NumberByte(e.createDate, k - 16)
    else if k < 20 then NumberByte(e.accessDate, k - 18) else if k < 22 then NumberByte(e.clusterHigh, k - 20)
    else if k < 24 then NumberByte(e.modifiedTime, k - 22) else if k < 26 then NumberByte(e.modifiedDate, k - 24)
    else if k < 28 then NumberByte(e.clusterLow, k - 26) else NumberByte(e.filesize, k - 28)
  }

  /** Byte `k` of a number, counted from the low end. */
  function NumberByte(x: nat, k: nat): int
  {
    x / (if k == 0 then 1 else if k == 1 then 0x100 else if k == 2 then 0x1_0000 else 0x100_0000) % 0x100
  }

  lemma PairByte(b: seq<byte>, x: u16, at: nat, k: nat)
    requires at + 2 <= |b| && b[at..at + 2] == EncodeU16(x) && at <= k < at + 2
    ensures b[k] == NumberByte(x, k - at)
  {
    assert b[k] == b[at..at + 2][k - at];
  }

  lemma EntryBytes(e: Entry, k: nat)
    requires k < 32
    ensures EncodeEntry(e)[k] == EntryByte(e, k)
  {
    hide EncodeEntry, EncodeU16, EncodeU32, NumberByte;
    EntryFields(e);
    var b := EncodeEntry(e);
    if k < 8 { assert b[k] == b[0..8][k]; }
    else if k < 11 { assert b[k] == b[8..11][k - 8]; }
    else if k < 14 { assert b[k] == b[11..14][k - 11]; }
    else if k < 16 { PairByte(b, e.createTime, 14, k); }
    else if k < 18 { PairByte(b, e.createDate, 16, k); }
    else if k < 20 { PairByte(b, e.accessDate, 18, k); }
    else if k < 22 { PairByte(b, e.clusterHigh, 20, k); }
    else if k < 24 { PairByte(b, e.modifiedTime, 22, k); }
    else if k < 26 { PairByte(b, e.modifiedDate, 24, k); }
    else if k < 28 { PairByte(b, e.clusterLow, 26, k); }
    else {
      assert b[k] == b[28..32][k - 28];
      U32Bytes(e.filesize, k - 28);
    }
  }

  lemma U32Bytes(x: u32, k: nat)
    requires k < 4
    ensures EncodeU32(x)[k] == NumberByte(x, k)
  {
  }

  /** Two clusters whose tables differ in slot `i` differ in its 32 bytes only. */
  lemma TableImage(before: Cluster, after: Cluster, i: nat, e: Entry)
    requires i < 64 && DecodeTable(after) == DecodeTable(before)[i := e]
    ensures forall k :: 0 <= k < 2048 ==>
              after[k] == if 32 * i <= k < 32 * i + 32 then EntryByte(e, k - 32 * i) else before[k]
  {
    hide DecodeEntries, EncodeEntry, EntryByte;
    forall k | 0 <= k < 2048
      ensures after[k] == if 32 * i <= k < 32 * i + 32 then EntryByte(e, k - 32 * i) else before[k]
    {
      var j := k / 32;
      EntryImage(after, j);
      EntryImage(before, j);
      assert after[k] == after[32 * j..32 * j + 32][k - 32 * j] && before[k] == before[32 * j..32 * j + 32][k - 32 * j];
      EntryBytes(DecodeTable(after)[j], k - 32 * j);
    }
  }

  lemma ZeroEntry(k: nat)
    requires k < 32
    ensures EntryByte(EMPTY_ENTRY, k) == 0
  {
  }

  // ---------------------------------------------------------------- formatting

  /** The boot block: 80 characters of text, zeros, and "Ok". */
  function BootByte(i: nat): int
  {
    if i < 16 then "Course          "[i] as int
    else if i < 32 then "Designed by     "[i - 16] as int
    else if i < 48 then "Lab Sister ITB  "[i - 32] as int
    else if i < 64 then "Made with <3    "[i - 48] as int
    else if i < 80 then "-----------2024\n"[i - 64] as int
    else if i == 510 then 'O' as int else if i == 511 then 'k' as int else 0
  }

  lemma Title0(i: nat)
    requires i < 16
    ensures SignatureByte(i) == "Course          "[i] as int
  {
  }

  lemma Title1(i: nat)
    requires 16 <= i < 32
    ensures SignatureByte(i) == "Designed by     "[i - 16] as int
  {
  }

  lemma Title2(i: nat)
    requires 32 <= i < 48
    ensures SignatureByte(i) == "Lab Sister ITB  "[i - 32] as int
  {
  }

  lemma Title3(i: nat)
    requires 48 <= i < 64
    ensures SignatureByte(i) == "Made with <3    "[i - 48] as int
  {
  }

  lemma Title4(i: nat)
    requires 64 <= i < 80
    ensures SignatureByte(i) == "-----------2024\n"[i - 64] as int
  {
  }

  lemma AfterTitle(i: nat)
    requires 80 <= i < 512
    ensures SignatureByte(i) == if i == 510 then 'O' as int else if i == 511 then 'k' as int else 0
  {
  }

  lemma BootBlock(i: nat)
    requires i < 512
    ensures Signature()[i] == BootByte(i)
  {
    hide SignatureByte;
    if i < 16 { Title0(i); }
    else if i < 32 { Title1(i); }
    else if i < 48 { Title2(i); }
    else if i < 64 { Title3(i); }
    else if i < 80 { Title4(i); }
    else { AfterTitle(i); }
  }

  /** A disk counts as formatted exactly when its first block is the boot block, byte for byte. */
  lemma SignedIff(disk: Disk)
    ensures Signed(disk) <==> forall i :: 0 <= i < 512 ==> disk[0][i] == BootByte(i)
  {
    hide BootByte, Signature;
    forall i | 0 <= i < 512 ensures Signature()[i] == BootByte(i) {
      BootBlock(i);
    }
    assert forall i :: 0 <= i < 512 ==> disk[0][i] == disk[0][..512][i];
  }

  /** The root's cluster: its name, the directory attribute, the mark of a live entry, and its own number. */
  function RootByte(k: nat): int
  {
    if k < 4 then "ROOT"[k] as int else if k == 11 then 0x10 else if k == 12 then 0xAA else if k == 26 then 2 else 0
  }

  lemma EmptyImage(b: Cluster, e: Entry)
    requires DecodeTable(b) == EmptyTable()[0 := e]
    ensures forall k :: 0 <= k < 2048 ==> b[k] == if k < 32 then EntryByte(e, k) else 0
  {
    hide DecodeEntries, EncodeEntry, EntryByte;
    forall k | 0 <= k < 2048 ensures b[k] == if k < 32 then EntryByte(e, k) else 0 {
      var j := k / 32;
      EntryImage(b, j);
      assert b[k] == b[32 * j..32 * j + 32][k - 32 * j];
      EntryBytes(DecodeTable(b)[j], k - 32 * j);
      ZeroEntry(k - 32 * j);
    }
  }

  lemma RootEntry(k: nat)
    requires k < 32
    ensures EntryByte(InitTable(EmptyTable(), RootName(), 2)[0], k) == RootByte(k)
  {
    assert forall j :: 0 <= j < 8 ==> RootName()[j] == if j < 4 then "ROOT"[j] as int else 0;
  }

  lemma FatWordBytes(b: Cluster, c: nat, x: u32)
    requires c < 512 && DecodeFat(b)[c] == x
    ensures forall k :: 0 <= k < 4 ==> b[4 * c + k] == NumberByte(x, k)
  {
    hide DecodeWords;
    FatOnDisk(b, c);
    U32Split(b[4 * c], b[4 * c + 1], b[4 * c + 2], b[4 * c + 3]);
  }

  /**
   * Formatting, byte by byte and for any cached table: the boot block, the three reserved FAT entries in
   * front of the other entries as they were cached, the root's cluster, and everything else untouched.
   */
  lemma FormattedImage(s: Fs)
    ensures var t := Format(s);
            && |t.disk| == |s.disk| && (forall c :: 3 <= c < |t.disk| ==> t.disk[c] == s.disk[c])
            && (forall i :: 0 <= i < 512 ==> t.disk[0][i] == BootByte(i)) && t.disk[0][512..] == s.disk[0][512..]
            && t.disk[1][..12] == [0xF0, 0xFF, 0xFF, 0x0F, 0xFF, 0xFF, 0xFF, 0x0F, 0xFF, 0xFF, 0xFF, 0x0F]
            && t.fat == DecodeFat(t.disk[1]) && (forall c :: 3 <= c < 512 ==> t.fat[c] == s.fat[c])
            && (forall k :: 0 <= k < 2048 ==> t.disk[2][k] == RootByte(k))
  {
    hide DecodeTable, EncodeTable, DecodeFat, EncodeFat, Signature, InitTable, BootByte, EntryByte, RootByte;
    var t := Format(s);
    forall i | 0 <= i < 512 ensures t.disk[0][i] == BootByte(i) {
      BootBlock(i);
    }
    FatRoundTrip(t.fat, s.disk[0]);
    assert t.disk[0] == Signature() + s.disk[0][512..];
    forall k | 0 <= k < 12 ensures t.disk[1][k] == NumberByte(t.fat[k / 4], k % 4) {
      FatWordBytes(t.disk[1], k / 4, t.fat[k / 4]);
    }
    var root := InitTable(EmptyTable(), RootName(), 2);
    TableRoundTrip(root, s.disk[0]);
    RootTableShape();
    EmptyImage(t.disk[2], root[0]);
    forall k | 0 <= k < 2048 ensures t.disk[2][k] == RootByte(k) {
      if k < 32 { RootEntry(k); } else { RootElsewhere(k); }
    }
  }

  lemma RootTableShape()
    ensures var root := InitTable(EmptyTable(), RootName(), 2); root == EmptyTable()[0 := root[0]]
  {
  }

  lemma RootElsewhere(k: nat)
    requires k >= 32
    ensures RootByte(k) == 0
  {
  }

  // ---------------------------------------------------------------- what a call changes

  /**
   * `delete` on the disk: in the parent's cluster two bytes of one slot, the mark of a live entry and the
   * undelete flag; the table's cluster; and nothing else.
   */
  lemma DeletedOnDisk(s: Fs, r: Request)
    requires Removes(s, r)
    ensures DeleteFits(s, r)
    ensures var u, o := After(s, Delete(s, r)).disk, 32 * Target(s, r).value;
            && |u| == |s.disk| && (forall c :: 0 <= c < |u| && c != r.parent && c != 1 ==> u[c] == s.disk[c])
            && (forall k :: 0 <= k < 2048 ==>
                  u[r.parent][k] == if k == o + 12 then 0 else if k == o + 13 then 1 else s.disk[r.parent][k])
  {
    hide DecodeTable, EncodeTable, DecodeFat, EncodeFat, Signature, Inv, Dirs, Delete, DeleteFits, FirstHit, Zeroed,
         Freed, EntryByte;
    DeleteLog(s, r);
    ParentInRange(s, r);
    var h := Victim(s, r);
    var e, u := At(s.disk, h), After(s, Delete(s, r)).disk;
    SlotFacts(s, h, Dead(e));
    TableImage(s.disk[r.parent], u[r.parent], h.slot, Dead(e));
    TableImage(s.disk[r.parent], s.disk[r.parent], h.slot, e);
    forall k | 0 <= k < 32
      ensures EntryByte(Dead(e), k) == if k == 12 then 0 else if k == 13 then 1 else EntryByte(e, k)
    {
      DeadByte(e, k);
    }
  }

  lemma DeadByte(e: Entry, k: nat)
    requires k < 32
    ensures EntryByte(Dead(e), k) == if k == 12 then 0 else if k == 13 then 1 else EntryByte(e, k)
  {
  }

  lemma {:induction false} FileLogElsewhere(disk: Disk, fat: Fat, cs: seq<nat>, b: seq<byte>, i: nat, c: nat)
    requires i <= |cs| == Links(|b|) && Clusters(cs) && c < |disk| && c != 1 && c !in cs
    ensures Replay(disk, FileLog(fat, cs, b, i))[c] == disk[c]
  {
    hide EncodeFat, Block, Linked, FileLog, Replay;
    if i == 0 {
      LoopStart(fat, disk, cs, b);
    } else {
      FileLogElsewhere(disk, fat, cs, b, i - 1, c);
      FileLogStep(fat, disk, cs, b, i - 1);
    }
  }

  /** Byte `k` of a new file's slot: what the call writes, and in between the bytes it leaves. */
  function FileByte(r: Request, head: nat, size: nat, before: int, k: nat): int
    requires k < 32
  {
    if k < 8 then r.name[k] else if k < 11 then r.ext[k - 8] else if k == 11 then 0 else if k == 12 then 0xAA
    else if k < 26 then before else if k < 28 then NumberByte(head, k - 26) else NumberByte(size, k - 28)
  }

  lemma NewFileByte(e: Entry, r: Request, head: u16, k: nat)
    requires k < 32
    ensures EntryByte(FileEntry(e, r.name, r.ext, head, r.size), k)
         == FileByte(r, head, (e.filesize + r.size) % 0x1_0000_0000, EntryByte(e, k), k)
  {
  }

  /**
   * A file write on the disk: one slot of the parent's cluster, of which 13 bytes stay as they were, the
   * table's cluster, the clusters taken, and nothing else.
   */
  lemma StoredOnDisk(s: Fs, r: Request)
    requires StoresFile(s, r)
    ensures WriteFits(s, r) && Taken(s, r) != []
    ensures var u, o := After(s, Write(s, r)).disk, 32 * Slot(s, r);
            && |u| == |s.disk|
            && (forall c :: 0 <= c < |u| && c != r.parent && c != 1 && c !in Taken(s, r) ==> u[c] == s.disk[c])
            && (forall k :: 0 <= k < 2048 ==>
                  u[r.parent][k] == if o <= k < o + 32 then
                                      FileByte(r, Taken(s, r)[0], Recorded(s, r), s.disk[r.parent][k], k - o)
                                    else s.disk[r.parent][k])
  {
    hide DecodeTable, EncodeTable, DecodeFat, EncodeFat, Safe, Dirs, Free, FileLog, Linked, Replay, Write, WriteFits,
         NewFile, Staged, Taken, Slot, Duplicate, EntryByte, FileByte, Links;
    ParentAfterStore(s, r);
    NewFileFields(s, r);
    var t, k := After(s, Write(s, r)), Slot(s, r);
    var before := s.disk[r.parent];
    TableImage(before, t.disk[r.parent], k, NewFile(s, r));
    TableImage(before, before, k, Tab(s.disk, r.parent)[k]);
    forall j | 0 <= j < 32
      ensures EntryByte(NewFile(s, r), j) == FileByte(r, Taken(s, r)[0], Recorded(s, r), before[32 * k + j], j)
    {
      NewFileIs(s, r);
      NewFileByte(Tab(s.disk, r.parent)[k], r, Taken(s, r)[0], j);
    }
    forall c | 0 <= c < |t.disk| && c != r.parent && c != 1 && c !in Taken(s, r) ensures t.disk[c] == s.disk[c] {
      StoredElsewhere(s, r, c);
    }
  }

  lemma NewFileIs(s: Fs, r: Request)
    requires StoresFile(s, r)
    ensures Taken(s, r) != []
    ensures NewFile(s, r)
         == FileEntry(Tab(s.disk, r.parent)[Slot(s, r)], r.name, r.ext, Taken(s, r)[0], r.size)
    ensures Recorded(s, r) == (Tab(s.disk, r.parent)[Slot(s, r)].filesize + r.size) % 0x1_0000_0000
  {
    hide DecodeTable, Free, Safe, Links, Dirs, FirstDead;
    LinksIsCeiling(r.size);
  }

  lemma StoredElsewhere(s: Fs, r: Request, c: nat)
    requires StoresFile(s, r) && c < |s.disk| && c != r.parent && c != 1 && c !in Taken(s, r)
    ensures WriteFits(s, r) && After(s, Write(s, r)).disk[c] == s.disk[c]
  {
    hide DecodeTable, EncodeTable, DecodeFat, EncodeFat, Safe, Dirs, Free, FileLog, Linked, Replay, Write, WriteFits,
         NewFile, Taken, Slot, Duplicate, Block;
    FinalFile(s, r);
    FileLogElsewhere(s.disk, s.fat, Taken(s, r), r.buf[..r.size], |Taken(s, r)|, c);
  }

  /** Byte `k` of the entry of a new directory at cluster `c`: nothing but name, attribute, mark and cluster. */
  function DirectoryByte(name: Name, c: nat, k: nat): int
    requires k < 32
  {
    if k < 8 then name[k] else if k == 11 then 0x10 else if k == 12 then 0xAA
    else if 26 <= k < 28 then NumberByte(c, k - 26) else 0
  }

  lemma NewDirectoryByte(name: Name, c: nat, k: nat)
    requires k < 32 && c < 512
    ensures EntryByte(InitTable(EmptyTable(), name, c)[0], k) == DirectoryByte(name, c, k)
  {
  }

  lemma MadeElsewhere(s: Fs, r: Request, c: nat)
    requires StoresDirectory(s, r) && c < |s.disk| && c != r.parent && c != 1
    ensures WriteFits(s, r)
    ensures After(s, Write(s, r)).disk[c] == if c == Free(s.fat, 0)[0] then EncodeTable(NewTable(s, r)) else s.disk[c]
  {
    hide DecodeTable, EncodeTable, DecodeFat, EncodeFat, Safe, Dirs, Free, NewTable, Write, WriteFits;
    MakeFits(s, r);
    FinalDirectory(s, r);
    var f := FatWrite(Prepared(s, r).fat);
    ThreeWrites(s.disk, f, TableWrite(Free(s.fat, 0)[0], NewTable(s, r)), f);
  }

  /**
   * Making a directory on the disk: the same 32 bytes in one slot of the parent's cluster and at the start
   * of the new one, which is zero behind them; the table's cluster; and nothing else.
   */
  lemma MadeOnDisk(s: Fs, r: Request)
    requires StoresDirectory(s, r)
    ensures WriteFits(s, r) && Free(s.fat, 0)[0] < |s.disk|
    ensures var u, o, n := After(s, Write(s, r)).disk, 32 * Slot(s, r), Free(s.fat, 0)[0];
            && |u| == |s.disk| && n != r.parent
            && (forall c :: 0 <= c < |u| && c != r.parent && c != 1 && c != n ==> u[c] == s.disk[c])
            && (forall k :: 0 <= k < 2048 ==>
                  u[r.parent][k] == if o <= k < o + 32 then DirectoryByte(r.name, n, k - o) else s.disk[r.parent][k])
            && (forall k :: 0 <= k < 2048 ==> u[n][k] == if k < 32 then DirectoryByte(r.name, n, k) else 0)
  {
    hide DecodeTable, EncodeTable, DecodeFat, EncodeFat, Safe, Dirs, Free, Write, WriteFits, NewTable, Slot, EntryByte,
         DirectoryByte, Replay;
    MakeFits(s, r);
    ParentAfterMake(s, r);
    SlotIsInside(s, r);
    var u, n := After(s, Write(s, r)).disk, Free(s.fat, 0)[0];
    forall c | 0 <= c < |u| && c != r.parent && c != 1
      ensures u[c] == if c == n then EncodeTable(NewTable(s, r)) else s.disk[c]
    {
      MadeElsewhere(s, r, c);
    }
    TableRoundTrip(NewTable(s, r), s.disk[0]);
    NewTableIs(s, r);
    EmptyImage(u[n], NewTable(s, r)[0]);
    TableImage(s.disk[r.parent], u[r.parent], Slot(s, r), NewTable(s, r)[0]);
    forall k | 0 <= k < 32 ensures EntryByte(NewTable(s, r)[0], k) == DirectoryByte(r.name, n, k) {
      NewDirectoryByte(r.name, n, k);
    }
  }

  lemma NewTableIs(s: Fs, r: Request)
    requires Free(s.fat, 0) != [] && Free(s.fat, 0)[0] < 512
    ensures NewTable(s, r) == InitTable(EmptyTable(), r.name, Free(s.fat, 0)[0])
    ensures NewTable(s, r) == EmptyTable()[0 := NewTable(s, r)[0]]
  {
    hide Free;
  }
}
