/** `write`: what it adds to the tree, and what a power cut in the middle of it can do. */
module WriteProof {
  import opened Bytes
  import opened Layout
  import opened Chains
  import opened Volume
  import opened Tree
  import opened TreeEdits
  import opened Safety

  /** The slot `write` fills. */
  function Slot(s: Fs, r: Request): nat
    requires r.parent < 512
  {
    FirstDead(Tab(s.disk, r.parent), 0)
  }

  /** The slot a file write is about to reuse carries no size from a deleted file. */
  predicate FreshSlot(s: Fs, r: Request)
    requires r.parent < 512
  {
    Slot(s, r) < 64 && Tab(s.disk, r.parent)[Slot(s, r)].filesize == 0
  }

  /** The size a file write records: what the slot carried plus the size of the file, modulo 2^32. */
  function Recorded(s: Fs, r: Request): u32
    requires r.parent < 512 && Slot(s, r) < 64
  {
    (Tab(s.disk, r.parent)[Slot(s, r)].filesize + r.size) % 0x1_0000_0000
  }

  /** The recorded size stands for as many clusters as the file takes. */
  predicate KeepsCount(s: Fs, r: Request)
    requires r.parent < 512
  {
    Slot(s, r) < 64 && Links(Recorded(s, r)) == Links(r.size)
  }

  predicate Duplicate(s: Fs, r: Request)
    requires r.parent < 512
  {
    FirstNamed(Tab(s.disk, r.parent), r.name, r.ext, 0).Some?
  }

  /** A call that stores a file in an existing directory. */
  ghost predicate StoresFile(s: Fs, r: Request)
  {
    && Safe(s) && r.parent in Dirs(s.disk) && r.parent < 512 && 0 < r.size <= |r.buf|
    && |Free(s.fat, 0)| > Links(r.size) && Slot(s, r) < 64 && !Duplicate(s, r)
  }

  /** A call that makes a directory in an existing directory. */
  ghost predicate StoresDirectory(s: Fs, r: Request)
  {
    && Safe(s) && r.parent in Dirs(s.disk) && r.parent < 512 && r.size == 0
    && Free(s.fat, 0) != [] && Slot(s, r) < 64
  }

  lemma SlotIsInside(s: Fs, r: Request)
    requires Safe(s) && r.parent in Dirs(s.disk)
    ensures 2 <= r.parent < 512 && s.fat[r.parent] == END_OF_FILE && 1 <= Slot(s, r)
  {
    hide DecodeTable, EncodeTable, DecodeFat, EncodeFat, Signature;
    assert SelfEntry(Tab(s.disk, r.parent)[0], r.parent);
  }

  // ---------------------------------------------------------------- storing a file

  /** The clusters a file write takes: the first `Links(size)` free ones, in increasing order. */
  function Taken(s: Fs, r: Request): (cs: seq<nat>)
    requires |Free(s.fat, 0)| >= Links(r.size)
    ensures |cs| == Links(r.size)
    ensures Clusters(cs)
  {
    Free(s.fat, 0)[..Links(r.size)]
  }

  lemma TakenFacts(s: Fs, r: Request)
    requires Forward(s.fat) && |Free(s.fat, 0)| >= Links(r.size)
    ensures var cs := Taken(s, r);
            && Clusters(cs) && Distinct(cs)
            && (forall k :: 0 <= k < |cs| ==> 3 <= cs[k] < 512 && s.fat[cs[k]] == 0)
            && (forall j, k :: 0 <= j < k < |cs| ==> cs[j] < cs[k])
  {
    FreeFacts(s.fat, 0);
  }

  lemma LinkedExtends(fat: Fat, cs: seq<nat>, i: nat)
    requires Forward(fat) && i <= |cs| && Clusters(cs)
    requires forall k :: 0 <= k < |cs| ==> 3 <= cs[k] < 512 && fat[cs[k]] == 0
    requires forall j, k :: 0 <= j < k < |cs| ==> cs[j] < cs[k]
    ensures Extends(fat, Linked(fat, cs, i))
    ensures forall c :: 0 <= c < 512 && Linked(fat, cs, i)[c] != 0 ==> c in cs || fat[c] != 0
  {
    LinkedForward(fat, cs, i);
    LinkedAt(fat, cs, i);
  }

  lemma {:induction false} FileLogQuiet(s: Fs, cs: seq<nat>, b: seq<byte>, i: nat)
    requires Forward(s.fat) && i <= |cs| == Links(|b|) && Clusters(cs) && Distinct(cs)
    requires forall k :: 0 <= k < |cs| ==> 3 <= cs[k] < 512 && s.fat[cs[k]] == 0
    requires forall j, k :: 0 <= j < k < |cs| ==> cs[j] < cs[k]
    ensures |FileLog(s.fat, cs, b, i)| == 2 * i
    ensures forall k :: 0 <= k < 2 * i ==> QuietWrite(s, FileLog(s.fat, cs, b, i)[k])
  {
    hide DecodeFat, EncodeFat, Block, Linked, Extends;
    if i > 0 {
      FileLogQuiet(s, cs, b, i - 1);
      LinkedExtends(s.fat, cs, i);
      FatRoundTrip(Linked(s.fat, cs, i), s.disk[0]);
      var data, table := DiskWrite(cs[i - 1], Block(b, i - 1)), FatWrite(Linked(s.fat, cs, i));
      assert QuietWrite(s, data) && QuietWrite(s, table);
    }
  }

  /** After `i` rounds the blocks are in their clusters and the table on disk links them. */
  lemma {:induction false} FileLogStores(s: Fs, cs: seq<nat>, b: seq<byte>, i: nat)
    requires Coherent(s) && i <= |cs| == Links(|b|) && Clusters(cs) && Distinct(cs)
    requires forall k :: 0 <= k < |cs| ==> 3 <= cs[k] < 512
    ensures var d := Replay(s.disk, FileLog(s.fat, cs, b, i));
            DecodeFat(d[FAT_CLUSTER]) == Linked(s.fat, cs, i) && forall k :: 0 <= k < i ==> d[cs[k]] == Block(b, k)
  {
    hide DecodeFat, EncodeFat, Block, Linked, FileLog, Replay;
    if i == 0 {
      LoopStart(s.fat, s.disk, cs, b);
    } else {
      FileLogStores(s, cs, b, i - 1);
      FileLogStep(s.fat, s.disk, cs, b, i - 1);
      FatRoundTrip(Linked(s.fat, cs, i), s.disk[0]);
    }
  }

  /** The volume just before the entry of a new file is published. */
  function Staged(s: Fs, r: Request): Fs
    requires 0 < r.size <= |r.buf| && |Free(s.fat, 0)| >= Links(r.size)
  {
    var cs := Taken(s, r);
    Fs(Linked(s.fat, cs, |cs|), Replay(s.disk, FileLog(s.fat, cs, r.buf[..r.size], |cs|)))
  }

  lemma StoreFits(s: Fs, r: Request)
    requires StoresFile(s, r)
    ensures WriteFits(s, r) && Write(s, r) == MakeFile(s, r, s.fat)
    ensures 2 <= r.parent && 1 <= Slot(s, r)
  {
    hide DecodeTable, EncodeTable, DecodeFat, EncodeFat, Signature, MakeFile, Safe, Free, Dirs;
    SlotIsInside(s, r);
    SafeFacts(s);
  }

  /** Staging a file is invisible: same tree, same directories, same entries in use. */
  lemma StagedIsQuiet(s: Fs, r: Request)
    requires StoresFile(s, r)
    ensures var log := FileLog(s.fat, Taken(s, r), r.buf[..r.size], |Taken(s, r)|);
            && (forall k :: 0 <= k < |log| ==> QuietWrite(s, log[k]))
            && QuietDisk(s, Replay(s.disk, log))
            && Staged(s, r).fat == DecodeFat(Staged(s, r).disk[FAT_CLUSTER])
  {
    hide DecodeTable, EncodeTable, DecodeFat, EncodeFat, Signature, Block, MakeFile;
    StoreFits(s, r);
    TakenFacts(s, r);
    var cs, b := Taken(s, r), r.buf[..r.size];
    FileLogQuiet(s, cs, b, |cs|);
    QuietReplay(s, FileLog(s.fat, cs, b, |cs|));
    FileLogStores(s, cs, b, |cs|);
  }

  function NewFile(s: Fs, r: Request): Entry
    requires r.parent < 512 && Slot(s, r) < 64 && |Free(s.fat, 0)| >= Links(r.size) && r.size > 0
  {
    LinksIsCeiling(r.size);
    FileEntry(Tab(s.disk, r.parent)[Slot(s, r)], r.name, r.ext, Taken(s, r)[0], r.size)
  }

  /** The recorded size is the requested one exactly when the reused slot carried none. */
  lemma SizeOfFresh(before: u32, size: u32)
    requires size > 0
    ensures (before + size) % 0x1_0000_0000 == size <==> before == 0
  {
  }

  lemma FreshKeepsCount(s: Fs, r: Request)
    requires r.parent < 512 && 0 < r.size && FreshSlot(s, r)
    ensures KeepsCount(s, r) && Recorded(s, r) == r.size
  {
    hide DecodeTable, FirstDead, Links;
    SizeOfFresh(Tab(s.disk, r.parent)[Slot(s, r)].filesize, r.size);
  }

  lemma NewFileFields(s: Fs, r: Request)
    requires StoresFile(s, r)
    ensures var e := NewFile(s, r);
            && e.filesize == Recorded(s, r) && e.attribute == 0 && e.Live() && e.name == r.name && e.ext == r.ext
            && |Taken(s, r)| == Links(r.size) > 0 && e.clusterLow == Taken(s, r)[0]
  {
    hide DecodeTable, Free, Safe, Links, Dirs, FirstDead;
    LinksIsCeiling(r.size);
  }

  /** The new chain: head in the entry, exactly the taken clusters. */
  lemma StagedChain(s: Fs, r: Request)
    requires StoresFile(s, r)
    ensures var t, e := Staged(s, r), NewFile(s, r);
            ChainOk(t.fat, e.clusterLow, Links(r.size)) && Walk(t.fat, e.clusterLow, Links(r.size)) == Taken(s, r)
  {
    hide Links, NewFile, FileLog, Free, Linked, Walk, ChainOk, Replay, Taken, Safe, Dirs, DecodeTable, Slot, Recorded;
    NewFileFields(s, r);
    SafeFacts(s);
    TakenFacts(s, r);
    var cs := Taken(s, r);
    LinkedIsChain(s.fat, cs);
  }

  /** The bytes a reader finds: the padded buffer, cut at the recorded size. */
  function StoredBytes(s: Fs, r: Request): seq<byte>
    requires r.parent < 512 && r.size <= |r.buf| && KeepsCount(s, r)
  {
    LinksIsCeiling(Recorded(s, r));
    Padded(r.buf[..r.size])[..Recorded(s, r)]
  }

  /** These are the bytes of the buffer exactly when the slot is fresh. */
  lemma FreshBytes(s: Fs, r: Request)
    requires r.parent < 512 && 0 < r.size <= |r.buf|
    ensures FreshSlot(s, r) ==> KeepsCount(s, r)
    ensures KeepsCount(s, r) ==> (StoredBytes(s, r) == r.buf[..r.size] <==> FreshSlot(s, r))
  {
    hide DecodeTable, FirstDead, Links;
    if FreshSlot(s, r) {
      FreshKeepsCount(s, r);
    } else if KeepsCount(s, r) {
      SizeOfFresh(Tab(s.disk, r.parent)[Slot(s, r)].filesize, r.size);
      assert Recorded(s, r) != r.size;
      LinksIsCeiling(Recorded(s, r));
      assert |StoredBytes(s, r)| == Recorded(s, r);
    }
  }

  /** The new chain holds the padded buffer. */
  lemma StagedGather(s: Fs, r: Request)
    requires StoresFile(s, r)
    ensures Gather(Staged(s, r).disk, Taken(s, r)) == Padded(r.buf[..r.size])
  {
    hide DecodeTable, EncodeTable, DecodeFat, EncodeFat, Signature, Block, MakeFile, Free, Walk, Linked, Inv, Dirs;
    SafeFacts(s);
    TakenFacts(s, r);
    var t, cs, b := Staged(s, r), Taken(s, r), r.buf[..r.size];
    FileLogStores(s, cs, b, |cs|);
    GatherBlocks(t.disk, cs, b, 0);
    assert cs[0..] == cs && Padded(b)[2048 * 0..] == Padded(b);
  }

  lemma StagedNode(s: Fs, r: Request)
    requires StoresFile(s, r) && KeepsCount(s, r)
    ensures NodeOf(Staged(s, r), NewFile(s, r)) == FileNode(r.name, r.ext, StoredBytes(s, r))
  {
    hide DecodeTable, Safe, Dirs, Free, FirstDead, Links, Padded, Gather, Staged, NewFile, Taken, Walk, ChainOk, Slot,
         Recorded;
    NewFileFields(s, r);
    StagedChain(s, r);
    StagedGather(s, r);
    LinksIsCeiling(Recorded(s, r));
  }

  lemma StagedSafe(s: Fs, r: Request)
    requires StoresFile(s, r)
    ensures var t, dirs := Staged(s, r), Dirs(s.disk);
            && Safe(t) && Dirs(t.disk) == dirs && View(t) == View(s)
            && t.disk[r.parent] == s.disk[r.parent]
            && (forall l :: LiveAt(t.disk, dirs, l) <==> LiveAt(s.disk, dirs, l))
            && (forall l :: LiveAt(s.disk, dirs, l) ==> At(t.disk, l) == At(s.disk, l))
            && (forall c :: Used(t, dirs, c) <==> Used(s, dirs, c))
  {
    hide DecodeTable, EncodeTable, DecodeFat, EncodeFat, Block, Safe, Dirs, Free, Linked, FileLog, Replay, Extends,
         Nodes, LiveAt, Used, Slot;
    StagedIsQuiet(s, r);
    SlotIsInside(s, r);
    QuietState(s, Staged(s, r).disk);
  }

  /** No slot of the parent has the new file's name and extension: the duplicate check looks at all of them. */
  lemma NoClash(s: Fs, r: Request, j: nat)
    requires StoresFile(s, r) && j < 64
    ensures !Clash(NewFile(s, r), Tab(s.disk, r.parent)[j])
  {
    hide DecodeTable, DecodeFat, Free, Dirs, Nodes, Safe, Links, Taken, FirstNamed;
    NewFileFields(s, r);
  }

  lemma StagedReady(s: Fs, r: Request)
    requires StoresFile(s, r) && KeepsCount(s, r)
    ensures Ready(Staged(s, r), Dirs(s.disk), Loc(r.parent, Slot(s, r)), NewFile(s, r))
  {
    hide DecodeTable, EncodeTable, DecodeFat, EncodeFat, Block, MakeFile, NodeOf, Free, FileLog, Linked, Safe, Dirs,
         Walk, Replay, Used, View, Nodes, NewFile, Taken, Staged, ChainOk;
    var t, e, dirs, h := Staged(s, r), NewFile(s, r), Dirs(s.disk), Loc(r.parent, Slot(s, r));
    SlotIsInside(s, r);
    StagedSafe(s, r);
    StagedChain(s, r);
    NewFileFields(s, r);
    SafeFacts(s);
    TakenFacts(s, r);
    forall c: nat | c in Own(t.fat, e) ensures !Used(t, dirs, c) {
      FreeIsUnused(s, c);
    }
    forall j | 0 <= j < 64 && j != h.slot ensures !Clash(e, Tab(t.disk, h.dir)[j]) {
      NoClash(s, r, j);
    }
  }

  lemma FinalFile(s: Fs, r: Request)
    requires StoresFile(s, r)
    ensures WriteFits(s, r)
    ensures After(s, Write(s, r)) == WithSlot(Staged(s, r), Loc(r.parent, Slot(s, r)), NewFile(s, r))
    ensures Coherent(After(s, Write(s, r))) && Signed(After(s, Write(s, r)).disk)
  {
    hide DecodeTable, EncodeTable, DecodeFat, EncodeFat, Signature, Block, NodeOf, Free, Linked, FileLog, Dirs,
         Replay, Inv;
    StoreFits(s, r);
    StagedSafe(s, r);
    var log := FileLog(s.fat, Taken(s, r), r.buf[..r.size], |Taken(s, r)|);
    var w := TableWrite(r.parent, Tab(s.disk, r.parent)[Slot(s, r) := NewFile(s, r)]);
    assert Write(s, r).log == log + [w];
    ReplayAppend(s.disk, log, w);
  }

  /**
   * A file write whose recorded size stands for the right number of clusters adds exactly one node,
   * with the stored bytes, and keeps the volume safe.
   */
  lemma StoreFile(s: Fs, r: Request)
    requires StoresFile(s, r) && KeepsCount(s, r)
    ensures WriteFits(s, r)
    ensures var t := After(s, Write(s, r));
            && Write(s, r).code == 0 && Safe(t) && Dirs(t.disk) == Dirs(s.disk)
            && View(t) == View(s)[Loc(r.parent, Slot(s, r)) := FileNode(r.name, r.ext, StoredBytes(s, r))]
            && Tab(t.disk, r.parent) == Tab(s.disk, r.parent)[Slot(s, r) := NewFile(s, r)]
  {
    hide DecodeTable, EncodeTable, DecodeFat, EncodeFat, Signature, Block, NodeOf, Nodes, Free, Dirs, Replay, Inv,
         WriteFits, Ready, Linked, FileLog, Links, StoredBytes;
    var q, e, dirs, h := Staged(s, r), NewFile(s, r), Dirs(s.disk), Loc(r.parent, Slot(s, r));
    StoreFits(s, r);
    NewFileFields(s, r);
    StagedReady(s, r);
    StagedSafe(s, r);
    FinalFile(s, r);
    StagedNode(s, r);
    SlotIsInside(s, r);
    SlotFacts(q, h, e);
    Publish(q, dirs, h, e);
    SafeFrom(After(s, Write(s, r)), dirs);
  }

  /** A file write leaks no cluster. */
  lemma StoreFileNoLeak(s: Fs, r: Request)
    requires StoresFile(s, r) && KeepsCount(s, r) && Exact(s)
    ensures WriteFits(s, r) && Exact(After(s, Write(s, r)))
  {
    hide DecodeTable, EncodeTable, DecodeFat, EncodeFat, Signature, Block, NodeOf, Nodes, Free, Dirs, Replay, Inv,
         WriteFits, Ready, Linked, FileLog, Links, Walk, View, StoredBytes;
    var q, e, dirs, h, cs := Staged(s, r), NewFile(s, r), Dirs(s.disk), Loc(r.parent, Slot(s, r)), Taken(s, r);
    StoreFits(s, r);
    NewFileFields(s, r);
    StagedReady(s, r);
    StagedSafe(s, r);
    FinalFile(s, r);
    StagedChain(s, r);
    StoreFile(s, r);
    Publish(q, dirs, h, e);
    SafeFacts(s);
    TakenFacts(s, r);
    LinkedExtends(s.fat, cs, |cs|);
    assert forall c: nat :: c in cs ==> c in Own(q.fat, e);
  }

  // ---------------------------------------------------------------- what a stale slot does

  /** A chain has one length only. */
  lemma {:induction false} ChainLength(fat: Fat, c: nat, n: nat, m: nat)
    requires ChainOk(fat, c, n) && ChainOk(fat, c, m)
    ensures n == m
    decreases n
  {
    if n > 1 && m > 1 {
      ChainLength(fat, fat[c], n - 1, m - 1);
    }
  }

  /** Walking a chain stays inside the table exactly as far as the chain goes. */
  lemma {:induction false} WalkPastEnd(fat: Fat, c: nat, n: nat, m: nat)
    requires ChainOk(fat, c, n)
    ensures InBounds(fat, c, m) <==> m <= n
    decreases n
  {
    if n > 1 && m > 0 {
      WalkPastEnd(fat, fat[c], n - 1, m - 1);
    }
  }

  /** A file write publishes a live entry in a directory, whatever size it records. */
  lemma StoredIsLive(s: Fs, r: Request)
    requires StoresFile(s, r)
    ensures WriteFits(s, r)
    ensures var t, h := After(s, Write(s, r)), Loc(r.parent, Slot(s, r));
            && LiveAt(t.disk, Dirs(t.disk), h) && At(t.disk, h) == NewFile(s, r) && t.fat == Staged(s, r).fat
            && Signed(t.disk) && Coherent(t)
  {
    hide DecodeTable, EncodeTable, DecodeFat, EncodeFat, Signature, Free, Linked, FileLog, Replay, Write, WriteFits,
         Inv, NewFile, Taken, Staged;
    FinalFile(s, r);
    StagedSafe(s, r);
    NewFileFields(s, r);
    SlotIsInside(s, r);
    var q, e, h := Staged(s, r), NewFile(s, r), Loc(r.parent, Slot(s, r));
    SlotFacts(q, h, e);
    var p := PathTo(q.disk, r.parent);
    PublishPath(q, h, e, p);
  }

  /** A file write keeps the volume safe exactly when the recorded size stands for the clusters the file took. */
  lemma StoreSafeIff(s: Fs, r: Request)
    requires StoresFile(s, r)
    ensures WriteFits(s, r)
    ensures Safe(After(s, Write(s, r))) <==> KeepsCount(s, r)
    ensures Exact(s) ==> (Exact(After(s, Write(s, r))) <==> KeepsCount(s, r))
  {
    hide DecodeTable, EncodeTable, DecodeFat, EncodeFat, Signature, Free, Linked, FileLog, Replay, Write, WriteFits,
         Links, NewFile, Taken, Staged, Walk, ChainOk, Dirs, Slot, Recorded, NoLeak, View;
    StoredIsLive(s, r);
    if KeepsCount(s, r) {
      StoreFile(s, r);
      if Exact(s) { StoreFileNoLeak(s, r); }
    } else if Safe(After(s, Write(s, r))) {
      var t, e := After(s, Write(s, r)), NewFile(s, r);
      NewFileFields(s, r);
      StagedChain(s, r);
      assert EntryOk(t, Dirs(t.disk), e);
      ChainLength(t.fat, e.clusterLow, Links(r.size), Links(e.filesize));
    }
  }

  // ---------------------------------------------------------------- making a directory

  function NewTable(s: Fs, r: Request): Table
    requires Free(s.fat, 0) != []
  {
    InitTable(EmptyTable(), r.name, Free(s.fat, 0)[0])
  }

  lemma MakeFits(s: Fs, r: Request)
    requires StoresDirectory(s, r)
    ensures WriteFits(s, r) && Write(s, r) == MakeDirectory(s, r, s.fat)
    ensures 2 <= r.parent && 1 <= Slot(s, r)
    ensures 3 <= Free(s.fat, 0)[0] < 512 && s.fat[Free(s.fat, 0)[0]] == 0
  {
    hide DecodeTable, EncodeTable, DecodeFat, EncodeFat, Signature, MakeDirectory, Safe, Free, Dirs;
    SlotIsInside(s, r);
    SafeFacts(s);
    FreeFacts(s.fat, 0);
  }

  /** The volume with the new directory's cluster taken and written, but not yet published. */
  function Prepared(s: Fs, r: Request): Fs
    requires Free(s.fat, 0) != []
  {
    var c := Free(s.fat, 0)[0];
    var fat := s.fat[c := END_OF_FILE];
    Fs(fat, Replay(s.disk, [FatWrite(fat), TableWrite(c, NewTable(s, r))]))
  }

  lemma PreparedDisk(s: Fs, r: Request)
    requires StoresDirectory(s, r)
    ensures var c, t := Free(s.fat, 0)[0], Prepared(s, r);
            && Coherent(t) && Extends(s.fat, t.fat) && Tab(t.disk, c) == NewTable(s, r)
            && QuietWrite(s, FatWrite(t.fat)) && QuietWrite(s, TableWrite(c, NewTable(s, r)))
  {
    hide DecodeTable, EncodeTable, DecodeFat, EncodeFat, NewTable, Free, Safe, Dirs, Replay;
    MakeFits(s, r);
    SafeFacts(s);
    var c := Free(s.fat, 0)[0];
    var fat := s.fat[c := END_OF_FILE];
    ThreeWrites(s.disk, FatWrite(fat), TableWrite(c, NewTable(s, r)), FatWrite(fat));
    FatRoundTrip(fat, s.disk[0]);
    TableRoundTrip(NewTable(s, r), s.disk[0]);
  }

  lemma NewTableFacts(s: Fs, r: Request)
    requires Free(s.fat, 0) != [] && 3 <= Free(s.fat, 0)[0] < 512
    ensures var c, t := Free(s.fat, 0)[0], NewTable(s, r);
            EmptyDirectory(t) && SelfEntry(t[0], c) && t[0].name == r.name && t[0].filesize == 0
  {
    var t := NewTable(s, r);
    assert t[1..] == EmptyTable()[1..];
    forall i | 1 <= i < 64 ensures !t[i].Live() {
      assert t[i] == t[1..][i - 1];
    }
  }

  lemma PreparedSafe(s: Fs, r: Request)
    requires StoresDirectory(s, r)
    ensures var t, dirs := Prepared(s, r), Dirs(s.disk);
            && Safe(t) && Dirs(t.disk) == dirs && View(t) == View(s)
            && t.disk[r.parent] == s.disk[r.parent]
            && (forall l :: LiveAt(t.disk, dirs, l) <==> LiveAt(s.disk, dirs, l))
            && (forall l :: LiveAt(s.disk, dirs, l) ==> At(t.disk, l) == At(s.disk, l))
            && (forall c :: Used(t, dirs, c) <==> Used(s, dirs, c))
  {
    hide DecodeTable, EncodeTable, DecodeFat, EncodeFat, NewTable, Free, Safe, Dirs, Replay, Extends, Nodes, LiveAt,
         Used;
    MakeFits(s, r);
    PreparedDisk(s, r);
    SafeFacts(s);
    SlotIsInside(s, r);
    var t, c := Prepared(s, r), Free(s.fat, 0)[0];
    QuietReplay(s, [FatWrite(t.fat), TableWrite(c, NewTable(s, r))]);
    QuietState(s, t.disk);
  }

  lemma PreparedReady(s: Fs, r: Request)
    requires StoresDirectory(s, r)
    ensures Ready(Prepared(s, r), Dirs(s.disk), Loc(r.parent, Slot(s, r)), NewTable(s, r)[0])
  {
    hide DecodeTable, EncodeTable, DecodeFat, EncodeFat, NewTable, Free, Safe, Dirs, Replay, Extends, Nodes, LiveAt,
         Used, View;
    MakeFits(s, r);
    PreparedSafe(s, r);
    PreparedDisk(s, r);
    NewTableFacts(s, r);
    FreeIsUnused(s, Free(s.fat, 0)[0]);
  }

  lemma FinalDirectory(s: Fs, r: Request)
    requires StoresDirectory(s, r)
    ensures WriteFits(s, r)
    ensures After(s, Write(s, r)) == WithSlot(Prepared(s, r), Loc(r.parent, Slot(s, r)), NewTable(s, r)[0])
    ensures Coherent(After(s, Write(s, r))) && Signed(After(s, Write(s, r)).disk)
  {
    hide DecodeTable, EncodeTable, DecodeFat, EncodeFat, Signature, NewTable, Nodes, Free, Dirs, Replay, Inv;
    MakeFits(s, r);
    PreparedSafe(s, r);
    var t, c := Prepared(s, r), Free(s.fat, 0)[0];
    var log := [FatWrite(t.fat), TableWrite(c, NewTable(s, r))];
    var w := TableWrite(r.parent, Tab(s.disk, r.parent)[Slot(s, r) := NewTable(s, r)[0]]);
    assert Write(s, r).log == log + [w] by { MakeDirectoryLog(s, r); }
    ReplayAppend(s.disk, log, w);
  }

  lemma MakeDirectoryLog(s: Fs, r: Request)
    requires r.parent < 512 && Free(s.fat, 0) != [] && Slot(s, r) < 64
    ensures MakeDirectory(s, r, s.fat).log ==
            [FatWrite(Prepared(s, r).fat), TableWrite(Free(s.fat, 0)[0], NewTable(s, r)),
             TableWrite(r.parent, Tab(s.disk, r.parent)[Slot(s, r) := NewTable(s, r)[0]])]
  {
    hide DecodeTable, EncodeTable, DecodeFat, EncodeFat, Free, Replay, InitTable, FirstDead, FatWrite, TableWrite,
         EmptyTable;
  }

  /** Making a directory adds exactly one node and one directory cluster, the first free one. */
  lemma StoreDirectory(s: Fs, r: Request)
    requires StoresDirectory(s, r)
    ensures WriteFits(s, r)
    ensures var t, c := After(s, Write(s, r)), Free(s.fat, 0)[0];
            && Write(s, r).code == 0 && Safe(t) && c !in Dirs(s.disk) && Dirs(t.disk) == Dirs(s.disk) + {c}
            && View(t) == View(s)[Loc(r.parent, Slot(s, r)) := DirNode(r.name, c)]
            && Tab(t.disk, c) == NewTable(s, r)
  {
    hide DecodeTable, EncodeTable, DecodeFat, EncodeFat, Signature, NewTable, Nodes, Free, Dirs, Replay, Inv,
         WriteFits, Ready;
    MakeFits(s, r);
    PreparedSafe(s, r);
    PreparedDisk(s, r);
    PreparedReady(s, r);
    FinalDirectory(s, r);
    NewTableFacts(s, r);
    FreeIsUnused(s, Free(s.fat, 0)[0]);
    var q, dirs, e := Prepared(s, r), Dirs(s.disk), NewTable(s, r)[0];
    var h, c := Loc(r.parent, Slot(s, r)), Free(s.fat, 0)[0];
    Publish(q, dirs, h, e);
    assert c !in dirs;
    assert r.parent in dirs;
    SlotFacts(q, h, e);
    SafeFrom(After(s, Write(s, r)), dirs + {c});
  }

  lemma StoreDirectoryNoLeak(s: Fs, r: Request)
    requires StoresDirectory(s, r) && Exact(s)
    ensures WriteFits(s, r) && Exact(After(s, Write(s, r)))
  {
    hide DecodeTable, EncodeTable, DecodeFat, EncodeFat, Signature, NewTable, Nodes, Free, Dirs, Replay, Inv,
         WriteFits, Ready;
    MakeFits(s, r);
    PreparedSafe(s, r);
    PreparedReady(s, r);
    StoreDirectory(s, r);
    FinalDirectory(s, r);
    NewTableFacts(s, r);
    var q, dirs, e := Prepared(s, r), Dirs(s.disk), NewTable(s, r)[0];
    var h, c := Loc(r.parent, Slot(s, r)), Free(s.fat, 0)[0];
    Publish(q, dirs, h, e);
    assert c in Own(q.fat, e);
    forall x | 3 <= x < 512 && q.fat[x] != 0 && x != c ensures Used(q, dirs, x) {
      assert s.fat[x] != 0;
    }
  }
}
