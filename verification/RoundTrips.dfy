/** What a call leaves behind for the next one: write then read, write then delete, mkdir then lookup. */
module RoundTrips {
  import opened Wrappers
  import opened Bytes
  import opened Layout
  import opened Chains
  import opened Volume
  import opened Tree
  import opened TreeEdits
  import opened Safety
  import opened WriteProof
  import opened DeleteProof

  predicate SameName(q: Request, r: Request)
  {
    q.parent == r.parent && q.name == r.name && q.ext == r.ext
  }

  lemma StagedFat(s: Fs, r: Request)
    requires StoresFile(s, r)
    ensures Staged(s, r).fat == Linked(s.fat, Taken(s, r), |Taken(s, r)|)
  {
    hide DecodeTable, DecodeFat, Safe, Dirs, Free, FileLog, Linked, Replay;
  }

  lemma StagedParent(s: Fs, r: Request)
    requires StoresFile(s, r)
    ensures Tab(Staged(s, r).disk, r.parent) == Tab(s.disk, r.parent)
  {
    hide DecodeTable, Safe, Dirs, Free, Staged, Slot, LiveAt, Used, View, Duplicate;
    StagedSafe(s, r);
  }

  /** The parent table after a file write: only the chosen slot is different. */
  lemma ParentAfterStore(s: Fs, r: Request)
    requires StoresFile(s, r)
    ensures WriteFits(s, r) && r.parent >= 2 && 1 <= Slot(s, r)
    ensures Tab(After(s, Write(s, r)).disk, r.parent) == Tab(s.disk, r.parent)[Slot(s, r) := NewFile(s, r)]
    ensures After(s, Write(s, r)).fat == Linked(s.fat, Taken(s, r), |Taken(s, r)|)
  {
    hide DecodeTable, EncodeTable, DecodeFat, EncodeFat, Safe, Dirs, Free, FileLog, Linked, Replay, Write, WriteFits,
         NewFile, Staged, Taken, Slot, Duplicate;
    StoreFits(s, r);
    FinalFile(s, r);
    StagedParent(s, r);
    StagedFat(s, r);
    SlotFacts(Staged(s, r), Loc(r.parent, Slot(s, r)), NewFile(s, r));
  }

  lemma ElsewhereAfterStore(s: Fs, r: Request, c: nat)
    requires StoresFile(s, r) && c < 512 && c != r.parent
    ensures WriteFits(s, r) && After(s, Write(s, r)).disk[c] == Staged(s, r).disk[c]
  {
    hide DecodeTable, EncodeTable, DecodeFat, EncodeFat, Safe, Dirs, Free, FileLog, Linked, Replay, Write, WriteFits,
         NewFile, Staged, Taken, Slot, Duplicate;
    StoreFits(s, r);
    FinalFile(s, r);
    SlotFacts(Staged(s, r), Loc(r.parent, Slot(s, r)), NewFile(s, r));
  }

  /** The new entry is the first one with its name, live or not. */
  lemma NewFileIsFirst(s: Fs, r: Request)
    requires StoresFile(s, r)
    ensures FirstNamed(Tab(s.disk, r.parent)[Slot(s, r) := NewFile(s, r)], r.name, r.ext, 0) == Some(Slot(s, r))
  {
    hide DecodeTable, Safe, Dirs, Free, FirstNamed, FirstDead, Taken;
    var t, k := Tab(s.disk, r.parent), Slot(s, r);
    var u: Table := t[k := NewFile(s, r)];
    var f := FirstNamed(u, r.name, r.ext, 0);
    assert u[k].name == r.name && u[k].ext == r.ext;
    assert forall i :: 0 <= i < 64 && i != k ==> u[i] == t[i];
  }

  /**
   * `read` after a file write into any slot: the recorded size decides whether the buffer is accepted and
   * how many of the file's clusters are copied, and the clusters hold the padded buffer.
   */
  lemma ReadAfterWrite(s: Fs, r: Request, q: Request)
    requires StoresFile(s, r) && SameName(q, r)
    ensures WriteFits(s, r)
    ensures var t, n := After(s, Write(s, r)), LinkCount(Recorded(s, r));
            && Read(t, q).code == (if q.size >= Recorded(s, r) then 0 else -1)
            && (q.size >= Recorded(s, r) ==>
                  && ReadFits(t, q)
                  && Read(t, q).clusters == Taken(s, r)[..if n <= Links(r.size) then n else Links(r.size)])
            && Gather(t.disk, Taken(s, r)) == Padded(r.buf[..r.size])
  {
    hide DecodeTable, EncodeTable, DecodeFat, EncodeFat, Signature, Safe, Dirs, Free, FileLog, Linked, Replay, Write,
         WriteFits, NewFile, Taken, Walk, ReadWalk, ChainOk, Links, FirstNamed, Recorded, Slot, Duplicate, Staged,
         Padded;
    ParentAfterStore(s, r);
    NewFileIsFirst(s, r);
    NewFileFields(s, r);
    StagedChain(s, r);
    StagedFat(s, r);
    SafeFacts(s);
    TakenFacts(s, r);
    GatherAfterStore(s, r);
    var t, e := After(s, Write(s, r)), NewFile(s, r);
    ChainReadCut(t.fat, e.clusterLow, Links(r.size), LinkCount(e.filesize));
  }

  /** Into a fresh slot: `read` returns the same bytes, followed by zeros up to the cluster boundary. */
  lemma WriteThenRead(s: Fs, r: Request, q: Request)
    requires StoresFile(s, r) && FreshSlot(s, r) && SameName(q, r) && q.size >= r.size
    ensures WriteFits(s, r)
    ensures var t := After(s, Write(s, r));
            && ReadFits(t, q) && Read(t, q) == ReadOutcome(0, Taken(s, r))
            && Gather(t.disk, Taken(s, r)) == Padded(r.buf[..r.size])
  {
    hide DecodeTable, EncodeTable, DecodeFat, EncodeFat, Signature, Safe, Dirs, Free, FileLog, Linked, Replay, Write,
         WriteFits, Taken, Walk, ReadWalk, Links, FirstNamed, Recorded, Slot, Duplicate, Read, Padded;
    FreshKeepsCount(s, r);
    ReadAfterWrite(s, r, q);
    SafeFacts(s);
    TakenFacts(s, r);
    var cs := Taken(s, r);
    AtMost512(cs);
    assert LinkCount(Recorded(s, r)) == |cs| && cs[..|cs|] == cs;
    var read := Read(After(s, Write(s, r)), q);
    assert read.code == 0 && read.clusters == cs;
  }

  lemma {:induction false} AtMost512(cs: seq<nat>)
    requires Clusters(cs) && forall j, k :: 0 <= j < k < |cs| ==> cs[j] < cs[k]
    ensures |cs| <= 512 && (cs != [] ==> |cs| <= cs[|cs| - 1] + 1)
  {
    if |cs| > 1 {
      AtMost512(cs[..|cs| - 1]);
      assert cs[|cs| - 2] < cs[|cs| - 1];
    }
  }

  lemma GatherAfterStore(s: Fs, r: Request)
    requires StoresFile(s, r)
    ensures WriteFits(s, r) && Gather(After(s, Write(s, r)).disk, Taken(s, r)) == Padded(r.buf[..r.size])
  {
    hide DecodeTable, EncodeTable, DecodeFat, EncodeFat, Signature, Dirs, Free, FileLog, Linked, Replay, Write,
         WriteFits, NewFile, Block, Inv;
    ParentAfterStore(s, r);
    SlotIsInside(s, r);
    SafeFacts(s);
    TakenFacts(s, r);
    var t, cs, b := After(s, Write(s, r)), Taken(s, r), r.buf[..r.size];
    FileLogStores(s, cs, b, |cs|);
    forall k | 0 <= k < |cs| ensures cs[k] < |t.disk| && t.disk[cs[k]] == Block(b, k) {
      ElsewhereAfterStore(s, r, cs[k]);
    }
    GatherBlocks(t.disk, cs, b, 0);
    assert cs[0..] == cs && Padded(b)[2048 * 0..] == Padded(b);
  }

  /** `read` accepts exactly the buffers that hold the written size if and only if the slot was fresh. */
  lemma RoundTripNeedsFreshSlot(s: Fs, r: Request, q: Request)
    requires StoresFile(s, r) && SameName(q, r)
    ensures WriteFits(s, r)
    ensures var t := After(s, Write(s, r));
            (forall n: u32 :: Read(t, q.(size := n)).code == 0 <==> n >= r.size) <==> FreshSlot(s, r)
  {
    hide DecodeTable, EncodeTable, DecodeFat, EncodeFat, Signature, Safe, Dirs, Free, FileLog, Linked, Replay, Write,
         WriteFits, Taken, Walk, ReadWalk, Links, FirstNamed, FirstDead, Read;
    StoreFits(s, r);
    var t, full := After(s, Write(s, r)), Recorded(s, r);
    forall n: u32 ensures Read(t, q.(size := n)).code == 0 <==> n >= full {
      ReadAfterWrite(s, r, q.(size := n));
    }
    SizeOfFresh(Tab(s.disk, r.parent)[Slot(s, r)].filesize, r.size);
    if !FreshSlot(s, r) {
      var n := if full < r.size then full else r.size;
      assert (Read(t, q.(size := n)).code == 0) != (n >= r.size);
    }
  }

  // ---------------------------------------------------------------- write, then delete

  /** An entry whose name ends within its 11 name bytes matches its own name. */
  lemma MatchesItself(e: Entry)
    requires StrLen(NameBytes(e)) <= 11
    ensures PrefixMatch(e, e.name, e.ext)
  {
    var n := StrLen(NameBytes(e));
    assert NameBytes(e)[..n] == (e.name + e.ext)[..n];
  }

  /** An entry's own name settles on its slot exactly when no earlier slot is a hit. */
  lemma FirstHitIs(t: Table, k: nat, name: Name, ext: Ext)
    requires 1 <= k < 64 && Hit(t[k], name, ext)
    ensures FirstHit(t, name, ext, 1) == Some(k) <==> forall i :: 1 <= i < k ==> !Hit(t[i], name, ext)
  {
    hide FirstHit, Hit;
  }

  lemma FileHitsItself(e: Entry)
    requires e.Live() && e.attribute == 0
    ensures StrLen(NameBytes(e)) <= 11 && Hit(e, e.name, e.ext)
  {
    assert NameBytes(e)[11] == 0;
    MatchesItself(e);
  }

  /** After a file write, `delete` of its name settles on it exactly when no earlier slot is a hit. */
  lemma TargetAfterStore(s: Fs, r: Request)
    requires StoresFile(s, r)
    ensures WriteFits(s, r) && 1 <= Slot(s, r)
    ensures Target(After(s, Write(s, r)), r) == Some(Slot(s, r)) <==>
              forall i :: 1 <= i < Slot(s, r) ==> !Hit(Tab(s.disk, r.parent)[i], r.name, r.ext)
  {
    hide DecodeTable, EncodeTable, Safe, Dirs, Free, Linked, Write, WriteFits, NewFile, Taken, Hit, Links;
    ParentAfterStore(s, r);
    NewFileFields(s, r);
    var u := Tab(After(s, Write(s, r)).disk, r.parent);
    assert forall i :: 1 <= i < Slot(s, r) ==> u[i] == Tab(s.disk, r.parent)[i];
    FileHitsItself(NewFile(s, r));
    FirstHitIs(u, Slot(s, r), r.name, r.ext);
  }

  // ---------------------------------------------------------------- what a delete leaves behind

  /** A deleted file leaves its name and its size behind in a dead slot. */
  lemma DeletedEntryStays(s: Fs, r: Request)
    requires Removes(s, r) && At(s.disk, Victim(s, r)).attribute == 0
    ensures DeleteFits(s, r)
    ensures Tab(After(s, Delete(s, r)).disk, r.parent)
         == Tab(s.disk, r.parent)[Target(s, r).value := Dead(At(s.disk, Victim(s, r)))]
  {
    hide DecodeTable, EncodeTable, DecodeFat, EncodeFat, Signature, Inv, Dirs, Delete, DeleteFits, FirstHit, Zeroed,
         Freed;
    DeleteLog(s, r);
    ParentInRange(s, r);
    SlotFacts(s, Victim(s, r), Dead(At(s.disk, Victim(s, r))));
  }

  /**
   * Dead entries still match: after a file is deleted, `read` of its name does not report "not found",
   * and a file write of its name is refused as a duplicate.
   */
  lemma DeletedNameStillMatches(s: Fs, r: Request, q: Request)
    requires Removes(s, r) && At(s.disk, Victim(s, r)).attribute == 0
    requires q.parent == r.parent && q.name == At(s.disk, Victim(s, r)).name && q.ext == At(s.disk, Victim(s, r)).ext
    ensures DeleteFits(s, r)
    ensures var t := After(s, Delete(s, r));
            && Read(t, q).code != 2 && Duplicate(t, q)
            && (WriteFits(t, q) && t.fat[q.parent] != 0 && q.size != 0 ==> Write(t, q).code == 1)
  {
    hide DecodeTable, EncodeTable, DecodeFat, EncodeFat, Signature, Inv, Dirs, Delete, DeleteFits, FirstHit, Zeroed,
         Freed, FirstNamed, WriteFits, Free, MakeFile, MakeDirectory;
    DeletedEntryStays(s, r);
    DeleteRemovesOne(s, r);
    SafeFacts(After(s, Delete(s, r)));
    var t := After(s, Delete(s, r));
    assert Tab(t.disk, q.parent)[Target(s, r).value].name == q.name;
    if WriteFits(t, q) && t.fat[q.parent] != 0 && q.size != 0 {
      DuplicateIsRefused(t, q);
    }
  }

  lemma StaleWalk(fat: Fat, c: nat, n: nat)
    requires c < 512 && fat[c] == 0 && fat[0] == CLUSTER_0_VALUE && n > 0
    ensures Clusters(ReadWalk(fat, c, n)) <==> n <= 2
  {
    hide ReadWalk;
    ReadWalkStep(fat, c, n);
    if n >= 2 {
      ReadWalkStep(fat, 0, n - 1);
      ReadWalkFirst(fat, 0xFFF0, n - 2);
    }
    if n == 1 { ReadWalkEnds(fat, 0, NoClusters()); }
    if n >= 3 {
      assert ReadWalk(fat, c, n)[2] == 0xFFF0;
    }
  }

  lemma ReadWalkFirst(fat: Fat, c: nat, n: nat)
    ensures n == 0 ==> ReadWalk(fat, c, n) == []
    ensures n > 0 ==> ReadWalk(fat, c, n) != [] && ReadWalk(fat, c, n)[0] == c
  {
  }

  /**
   * When the first slot with a name is a deleted file's, `read` still follows the freed chain, and its
   * table accesses stay inside the table exactly when the file had at most two clusters.
   */
  lemma ReadOfDeletedFile(s: Fs, r: Request, q: Request)
    requires Removes(s, r) && At(s.disk, Victim(s, r)).attribute == 0 && q.parent == r.parent
    requires FirstNamed(Tab(s.disk, r.parent), q.name, q.ext, 0) == Target(s, r)
    requires q.size >= At(s.disk, Victim(s, r)).filesize
    ensures DeleteFits(s, r)
    ensures ReadFits(After(s, Delete(s, r)), q) <==> Links(At(s.disk, Victim(s, r)).filesize) <= 2
  {
    hide DecodeTable, EncodeTable, DecodeFat, EncodeFat, Signature, Inv, Dirs, Delete, DeleteFits, FirstHit, Zeroed,
         Freed, FirstNamed, ReadWalk, Links, Own, Clusters;
    DeletedEntryStays(s, r);
    DeleteLog(s, r);
    DeleteRemovesOne(s, r);
    var t, h := After(s, Delete(s, r)), Victim(s, r);
    var e := At(s.disk, h);
    SafeFacts(t);
    HeadIsFreed(s, h);
    ZeroedAt(s.fat, Freed(s, e));
    StillFirst(Tab(s.disk, r.parent), h.slot, q);
    StaleWalk(t.fat, e.clusterLow, Links(e.filesize));
  }

  lemma HeadIsFreed(s: Fs, l: Loc)
    requires Safe(s) && LiveAt(s.disk, Dirs(s.disk), l) && At(s.disk, l).attribute == 0
    ensures var e := At(s.disk, l);
            && InBounds(s.fat, e.clusterLow, LinkCount(e.filesize)) && LinkCount(e.filesize) == Links(e.filesize) > 0
            && e.clusterLow < 512 && (e.clusterLow as nat) in Freed(s, e)
  {
    hide DecodeTable, DecodeFat, Dirs, Signature, InBounds;
    var e := At(s.disk, l);
    assert EntryOk(s, Dirs(s.disk), e);
    FreedOfEntry(s, Dirs(s.disk), e);
    FreedIsOwned(s, l);
    LinksIsCeiling(e.filesize);
    assert Chain(s.fat, e)[0] == e.clusterLow;
  }

  lemma StillFirst(t: Table, k: nat, q: Request)
    requires k < 64 && FirstNamed(t, q.name, q.ext, 0) == Some(k)
    ensures FirstNamed(t[k := Dead(t[k])], q.name, q.ext, 0) == Some(k)
  {
    hide FirstNamed;
    var u: Table := t[k := Dead(t[k])];
    var f := FirstNamed(u, q.name, q.ext, 0);
    assert u[k].name == q.name && u[k].ext == q.ext;
    assert forall i :: 0 <= i < k ==> u[i] == t[i];
  }

  lemma DuplicateIsRefused(s: Fs, r: Request)
    requires WriteFits(s, r) && Coherent(s) && s.fat[r.parent] != 0 && r.size != 0 && Duplicate(s, r)
    ensures Write(s, r).code == 1
  {
    hide DecodeTable, DecodeFat, Free, FirstNamed;
  }

  /**
   * The slot of a deleted file is the one the next write into that directory takes exactly when every
   * earlier slot is live, and it is never fresh.
   */
  lemma DeletedSlotIsStale(s: Fs, r: Request, q: Request)
    requires Removes(s, r) && At(s.disk, Victim(s, r)).attribute == 0 && q.parent == r.parent
    ensures DeleteFits(s, r)
    ensures var t, k := After(s, Delete(s, r)), Target(s, r).value;
            && (Slot(t, q) == k <==> forall i :: 0 <= i < k ==> Tab(s.disk, r.parent)[i].Live())
            && (Slot(t, q) == k ==> !FreshSlot(t, q))
  {
    hide DecodeTable, EncodeTable, DecodeFat, EncodeFat, Signature, Dirs, Delete, DeleteFits, FirstHit, Zeroed, Freed,
         FirstDead;
    DeletedEntryStays(s, r);
    assert EntryOk(s, Dirs(s.disk), At(s.disk, Victim(s, r)));
    var u, k := Tab(After(s, Delete(s, r)).disk, q.parent), Target(s, r).value;
    assert !u[k].Live() && u[k].filesize > 0;
    assert forall i :: 0 <= i < k ==> u[i] == Tab(s.disk, r.parent)[i];
  }

  // ---------------------------------------------------------------- directories

  /** A directory is found in itself under its own name. */
  lemma SelfLookup(s: Fs, q: Request)
    requires Safe(s) && q.parent in Dirs(s.disk) && q.parent < 512
    requires q.name == Tab(s.disk, q.parent)[0].name
    ensures ReadDirectory(s, q) == Found(q.parent) && ReadDirectory(s, q).Code() == 0
  {
    hide DecodeTable, DecodeFat, Dirs, Signature;
    assert SelfEntry(Tab(s.disk, q.parent)[0], q.parent);
  }

  /** Whatever `read_directory` finds is a directory of the tree. */
  lemma FoundIsDirectory(s: Fs, q: Request)
    requires Safe(s) && q.parent in Dirs(s.disk) && q.parent < 512 && ReadDirectory(s, q).Found?
    ensures ReadDirectory(s, q).cluster in Dirs(s.disk)
  {
    hide DecodeTable, DecodeFat, Dirs, Signature, FirstLiveNamed;
    var i := FirstLiveNamed(Tab(s.disk, q.parent), q.name, 0).value;
    if i == 0 {
      assert SelfEntry(Tab(s.disk, q.parent)[0], q.parent);
    } else {
      assert LiveAt(s.disk, Dirs(s.disk), Loc(q.parent, i));
      assert EntryOk(s, Dirs(s.disk), At(s.disk, Loc(q.parent, i)));
    }
  }

  lemma ParentAfterMake(s: Fs, r: Request)
    requires StoresDirectory(s, r)
    ensures WriteFits(s, r) && r.parent >= 2 && 1 <= Slot(s, r)
    ensures Tab(After(s, Write(s, r)).disk, r.parent) == Tab(s.disk, r.parent)[Slot(s, r) := NewTable(s, r)[0]]
    ensures After(s, Write(s, r)).fat[r.parent] != 0
  {
    hide DecodeTable, EncodeTable, DecodeFat, EncodeFat, Signature, Dirs, Free, Replay, Write, WriteFits, NewTable,
         Nodes;
    MakeFits(s, r);
    FinalDirectory(s, r);
    PreparedSafe(s, r);
    SlotIsInside(Prepared(s, r), r);
    SlotFacts(Prepared(s, r), Loc(r.parent, Slot(s, r)), NewTable(s, r)[0]);
  }

  /** A new directory is found under its name exactly when no earlier entry of the parent bears it; it is empty. */
  lemma MakeThenLookup(s: Fs, r: Request, q: Request)
    requires StoresDirectory(s, r) && q.parent == r.parent && q.name == r.name
    ensures WriteFits(s, r)
    ensures var t, c := After(s, Write(s, r)), Free(s.fat, 0)[0];
            && (ReadDirectory(t, q) == Found(c) <==>
                  forall i :: 0 <= i < Slot(s, r) ==> Tab(s.disk, r.parent)[i].name != r.name)
            && (ReadDirectory(t, q) == Found(c) ==> ReadDirectory(t, q).Code() == 0)
            && EmptyDirectory(Tab(t.disk, c)) && SelfEntry(Tab(t.disk, c)[0], c) && Tab(t.disk, c)[0].name == r.name
  {
    hide DecodeTable, EncodeTable, DecodeFat, EncodeFat, Signature, Inv, Dirs, Free, Replay, Write, WriteFits,
         NewTable, Nodes, FirstLiveNamed, FirstDead;
    MakeFits(s, r);
    ParentAfterMake(s, r);
    StoreDirectory(s, r);
    NewTableFacts(s, r);
    var t, k, c := After(s, Write(s, r)), Slot(s, r), Free(s.fat, 0)[0];
    var before, after := Tab(s.disk, r.parent), Tab(t.disk, r.parent);
    assert forall i :: 0 <= i < k ==> after[i] == before[i] && after[i].Live();
    var f := FirstLiveNamed(after, q.name, 0);
    assert after[k].Live() && after[k].name == q.name;
    assert f.Some? && f.value <= k;
    if f.value < k {
      OthersAreNotNew(s, r, f.value);
    }
  }

  /** No entry of the parent refers to the cluster a new directory takes. */
  lemma OthersAreNotNew(s: Fs, r: Request, i: nat)
    requires StoresDirectory(s, r) && i < Slot(s, r)
    ensures Tab(s.disk, r.parent)[i].attribute == ATTR_SUBDIRECTORY ==>
              Tab(s.disk, r.parent)[i].clusterLow != Free(s.fat, 0)[0]
  {
    hide DecodeTable, DecodeFat, Dirs, Free, Signature, FirstDead;
    MakeFits(s, r);
    var e, dirs := Tab(s.disk, r.parent)[i], Dirs(s.disk);
    if i == 0 {
      assert SelfEntry(e, r.parent);
    } else {
      assert LiveAt(s.disk, dirs, Loc(r.parent, i)) && At(s.disk, Loc(r.parent, i)) == e;
      assert EntryOk(s, dirs, e);
    }
  }
}
