/** When exactly a power cut loses clusters. */
module PowerCuts {
  import opened Bytes
  import opened Layout
  import opened Chains
  import opened Volume
  import opened Tree
  import opened TreeEdits
  import opened Safety
  import opened WriteProof
  import opened DeleteProof
  import opened Runs

  /** Every FAT in the log has `c` allocated. */
  predicate Takes(log: seq<DiskWrite>, c: nat)
    requires c < 512
  {
    forall k :: 0 <= k < |log| && log[k].cluster == FAT_CLUSTER ==> DecodeFat(log[k].data)[c] != 0
  }

  lemma {:induction false} ReplayTakes(disk: Disk, log: seq<DiskWrite>, c: nat, at: nat)
    requires c < 512 && Takes(log, c) && at < |log| && log[at].cluster == FAT_CLUSTER
    ensures DecodeFat(Replay(disk, log)[FAT_CLUSTER])[c] != 0
  {
    hide DecodeFat;
    if at < |log| - 1 {
      ReplayTakes(disk, log[..|log| - 1], c, at);
    }
  }

  lemma LinkedTakesHead(fat: Fat, cs: seq<nat>, i: nat)
    requires 0 < i <= |cs| && Clusters(cs) && Distinct(cs)
    requires forall k :: 0 <= k < |cs| ==> cs[k] >= 3
    ensures Linked(fat, cs, i)[cs[0]] != 0
  {
    LinkedAt(fat, cs, i);
  }

  lemma {:induction false} FileLogTakes(fat: Fat, cs: seq<nat>, b: seq<byte>, i: nat)
    requires i <= |cs| == Links(|b|) && cs != [] && Clusters(cs) && Distinct(cs)
    requires forall k :: 0 <= k < |cs| ==> cs[k] >= 3
    ensures |FileLog(fat, cs, b, i)| == 2 * i && Takes(FileLog(fat, cs, b, i), cs[0])
    ensures i > 0 ==> FileLog(fat, cs, b, i)[0].cluster == cs[0] && FileLog(fat, cs, b, i)[1].cluster == FAT_CLUSTER
  {
    hide DecodeFat, EncodeFat, Block, Linked, Links;
    if i > 0 {
      FileLogTakes(fat, cs, b, i - 1);
      LinkedTakesHead(fat, cs, i);
      FatRoundTrip(Linked(fat, cs, i), Zeros(2048));
      var head := FileLog(fat, cs, b, i - 1);
      var data, table := DiskWrite(cs[i - 1], Block(b, i - 1)), FatWrite(Linked(fat, cs, i));
      assert FileLog(fat, cs, b, i) == head + [data, table];
    }
  }

  /** Writes that never touch the FAT cluster leave it. */
  lemma {:induction false} ReplayKeepsFat(disk: Disk, log: seq<DiskWrite>)
    requires forall k :: 0 <= k < |log| ==> log[k].cluster != FAT_CLUSTER
    ensures Replay(disk, log)[FAT_CLUSTER] == disk[FAT_CLUSTER]
  {
    if log != [] {
      ReplayKeepsFat(disk, log[..|log| - 1]);
    }
  }

  /** The number of cluster writes until a successful `write` first changes the FAT on disk. */
  function FirstFatWrite(r: Request): nat { if r.size == 0 then 1 else 2 }

  /** The FAT is first written at `at`, and every FAT write before the last entry of the log takes `c`. */
  predicate TakesFrom(log: seq<DiskWrite>, at: nat, c: nat)
  {
    && c < 512 && at + 1 < |log| && Takes(log[..|log| - 1], c) && log[at].cluster == FAT_CLUSTER
    && forall k :: 0 <= k < at ==> log[k].cluster != FAT_CLUSTER
  }

  lemma DirectoryLogShape(s: Fs, r: Request)
    requires StoresDirectory(s, r)
    ensures 3 <= Free(s.fat, 0)[0] < 512 && TakesFrom(MakeDirectory(s, r, s.fat).log, 0, Free(s.fat, 0)[0])
  {
    hide DecodeTable, EncodeTable, DecodeFat, EncodeFat, Safe, Dirs, Free, NewTable, MakeDirectory, Replay;
    MakeFits(s, r);
    MakeDirectoryLog(s, r);
    FatRoundTrip(Prepared(s, r).fat, s.disk[0]);
  }

  lemma FileLogShape(s: Fs, r: Request)
    requires StoresFile(s, r)
    ensures Free(s.fat, 0) != [] && 3 <= Free(s.fat, 0)[0] < 512
    ensures TakesFrom(MakeFile(s, r, s.fat).log, 1, Free(s.fat, 0)[0])
  {
    hide DecodeTable, DecodeFat, EncodeFat, Safe, Dirs, Free, MakeFile, FileLog, Links, Linked;
    SafeFacts(s);
    MakeFileLog(s, r);
    TakenFacts(s, r);
    LinksIsCeiling(r.size);
    var cs, b := Taken(s, r), r.buf[..r.size];
    assert |b| == r.size && cs != [];
    FileLogTakes(s.fat, cs, b, |cs|);
    var log, inner := MakeFile(s, r, s.fat).log, FileLog(s.fat, cs, b, |cs|);
    assert log[..|log| - 1] == inner && log[0] == inner[0] && log[1] == inner[1];
  }

  /**
   * The shape of a successful call's log: the first FAT write comes at a known place and takes the first
   * free cluster.
   */
  lemma WriteLogShape(s: Fs, r: Request)
    requires Safe(s) && Fits(s, WriteCall(r)) && Write(s, r).code == 0
    ensures Free(s.fat, 0) != [] && 3 <= Free(s.fat, 0)[0] < 512 && s.fat[Free(s.fat, 0)[0]] == 0
    ensures TakesFrom(Write(s, r).log, FirstFatWrite(r) - 1, Free(s.fat, 0)[0])
  {
    hide DecodeTable, EncodeTable, DecodeFat, EncodeFat, Inv, Dirs, Free, WriteFits, Write, Links, Slot, Takes, Nodes;
    WriteRefines(s, r);
    WriteCases(s, r);
    FreeFacts(s.fat, 0);
    if r.size == 0 {
      MakeFits(s, r);
      DirectoryLogShape(s, r);
    } else {
      StoreFits(s, r);
      FileLogShape(s, r);
    }
  }

  /**
   * A power cut in a successful `write` loses clusters exactly when the FAT was already written and the
   * entry not yet; a call that is not allowed must also not come to its end.
   */
  lemma WriteCutLeaks(s: Fs, r: Request, k: nat)
    requires Exact(s) && Fits(s, WriteCall(r)) && Write(s, r).code == 0 && k <= |Write(s, r).log|
    ensures Exact(Cut(s, Write(s, r), k)) <==>
            k < FirstFatWrite(r) || (k == |Write(s, r).log| && Allowed(s, WriteCall(r)))
  {
    hide DecodeTable, EncodeTable, DecodeFat, EncodeFat, Signature, Inv, Dirs, Free, WriteFits, Write, Replay, Used,
         QuietWrite, Nodes, LiveAt;
    WriteIsAtomic(s, r, k);
    WriteRefines(s, r);
    WriteLogShape(s, r);
    if k < |Write(s, r).log| {
      WriteLogQuiet(s, r);
      SafeFacts(s);
      var log, c := Write(s, r).log[..k], Free(s.fat, 0)[0];
      QuietReplay(s, log);
      QuietState(s, Replay(s.disk, log));
      FreeIsUnused(s, c);
      if k < FirstFatWrite(r) {
        ReplayKeepsFat(s.disk, log);
      } else {
        assert Takes(log, c);
        ReplayTakes(s.disk, log, c, FirstFatWrite(r) - 1);
      }
    }
  }

  /** A power cut in a successful `delete` loses the entry's clusters exactly when it falls between the two writes. */
  lemma DeleteCutLeaks(s: Fs, r: Request, k: nat)
    requires Exact(s) && Fits(s, DeleteCall(r)) && Delete(s, r).code == 0 && k <= |Delete(s, r).log|
    ensures Exact(Cut(s, Delete(s, r), k)) <==> k != 1
  {
    hide DecodeTable, EncodeTable, DecodeFat, EncodeFat, Signature, Dirs, Delete, DeleteFits, Nodes, Used, Inv, Own,
         Walk;
    DeleteCases(s, r);
    DeleteLog(s, r);
    DeleteIsAtomic(s, r, k);
    DeleteRefines(s, r);
    if k == 1 {
      var h, dirs := Victim(s, r), Dirs(s.disk);
      Unpublished(s, r);
      SafeFacts(Removed(s, h));
      MountSettled(Removed(s, h), ZeroFat());
      Unpublish(s, dirs, h);
      var c := OwnsSomething(s, h);
      OwnedIsAllocated(s, dirs, h, c);
    }
  }

  lemma OwnsSomething(s: Fs, l: Loc) returns (c: nat)
    requires Safe(s) && LiveAt(s.disk, Dirs(s.disk), l)
    ensures Owns(s, Dirs(s.disk), l, c) && c in Own(s.fat, At(s.disk, l))
  {
    hide DecodeTable, DecodeFat, Dirs;
    var e := At(s.disk, l);
    assert EntryOk(s, Dirs(s.disk), e);
    c := e.clusterLow;
    if e.attribute == 0 {
      assert Chain(s.fat, e)[0] == c;
    }
  }
}
