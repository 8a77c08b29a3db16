/**
 * Runs: any sequence of driver calls, remounts, and power cuts after any single cluster write,
 * starting from a freshly formatted disk.
 */
module Runs {
  import opened Bytes
  import opened Layout
  import opened Chains
  import opened Volume
  import opened Tree
  import opened TreeEdits
  import opened Safety
  import opened WriteProof
  import opened DeleteProof

  datatype Call = WriteCall(r: Request) | DeleteCall(r: Request)

  datatype Event = Done(call: Call) | PowerCut(call: Call, writes: nat) | Remount

  /** The callers' side: a real parent, and something to find for every scan. */
  ghost predicate Fits(s: Fs, c: Call)
  {
    match c
    case WriteCall(r) => WriteFits(s, r) && (DecodeFat(s.disk[FAT_CLUSTER])[r.parent] != 0 ==> r.parent in Dirs(s.disk))
    case DeleteCall(r) => r.parent in Dirs(s.disk) && r.parent < 512 && DeleteFits(s, r)
  }

  /** The branch of `write` that stores a file, and so adds to the size it finds in the slot. */
  predicate MakesFile(s: Fs, r: Request)
    requires r.parent < 512
  {
    s.fat[r.parent] != 0 && r.size != 0 && !Duplicate(s, r)
  }

  /** A file that goes into a used slot must end up with a size that stands for its own number of clusters. */
  ghost predicate Allowed(s: Fs, c: Call)
  {
    Fits(s, c) && (c.WriteCall? && MakesFile(s, c.r) ==> KeepsCount(s, c.r))
  }

  function Effect(s: Fs, c: Call): Outcome
    requires match c case WriteCall(r) => WriteFits(s, r) case DeleteCall(r) => DeleteFits(s, r)
  {
    match c
    case WriteCall(r) => Write(s, r)
    case DeleteCall(r) => Delete(s, r)
  }

  // ---------------------------------------------------------------- write, all branches

  lemma WriteCases(s: Fs, r: Request)
    requires Safe(s) && Fits(s, WriteCall(r))
    ensures r.parent < 512
    ensures s.fat[r.parent] == 0 ==> Write(s, r) == Outcome(2, s.fat, [])
    ensures s.fat[r.parent] != 0 && r.size == 0 ==> StoresDirectory(s, r)
    ensures s.fat[r.parent] != 0 && r.size != 0 && Duplicate(s, r) ==> Write(s, r) == Outcome(1, s.fat, [])
    ensures MakesFile(s, r) ==> StoresFile(s, r)
  {
    hide DecodeTable, DecodeFat, EncodeFat, EncodeTable, Dirs, Inv, Signature, MakeFile, MakeDirectory, Free;
    SafeFacts(s);
  }

  /** The node a successful `write` adds. */
  ghost function NewNode(s: Fs, r: Request): Node
    requires r.parent < 512 && Free(s.fat, 0) != [] && (r.size != 0 ==> r.size <= |r.buf| && KeepsCount(s, r))
  {
    if r.size == 0 then DirNode(r.name, Free(s.fat, 0)[0]) else FileNode(r.name, r.ext, StoredBytes(s, r))
  }

  /** A file that goes into a slot without a size is stored as it is. */
  lemma FreshNode(s: Fs, r: Request)
    requires r.parent < 512 && Free(s.fat, 0) != [] && 0 < r.size <= |r.buf| && FreshSlot(s, r)
    ensures KeepsCount(s, r) && NewNode(s, r) == FileNode(r.name, r.ext, r.buf[..r.size])
  {
    hide DecodeTable, FirstDead, Links, Free, StoredBytes;
    FreshBytes(s, r);
  }

  lemma FreshLocation(s: Fs, r: Request)
    requires Safe(s) && r.parent in Dirs(s.disk) && r.parent < 512 && Slot(s, r) < 64
    ensures Loc(r.parent, Slot(s, r)) !in View(s)
  {
    hide DecodeTable, DecodeFat, Dirs, Inv, Signature, NodeOf;
  }

  /**
   * `write` as a step on the tree: it adds exactly one binding, at a location that had none, or changes
   * nothing. The volume stays safe, and loses no cluster, exactly when the call is allowed.
   */
  lemma WriteRefines(s: Fs, r: Request)
    requires Safe(s) && Fits(s, WriteCall(r))
    ensures var o, t := Write(s, r), After(s, Write(s, r));
            && (o.code == 0 <==> s.fat[r.parent] != 0 && (r.size == 0 || !Duplicate(s, r)))
            && (o.code != 0 ==> t == s)
            && (Safe(t) <==> Allowed(s, WriteCall(r)))
            && (Exact(s) ==> (Exact(t) <==> Allowed(s, WriteCall(r))))
            && (o.code == 0 && Allowed(s, WriteCall(r)) ==>
                  && Free(s.fat, 0) != [] && Slot(s, r) < 64 && Loc(r.parent, Slot(s, r)) !in View(s)
                  && (r.size != 0 ==> r.size <= |r.buf| && KeepsCount(s, r))
                  && View(t) == View(s)[Loc(r.parent, Slot(s, r)) := NewNode(s, r)]
                  && (r.size != 0 && FreshSlot(s, r) ==> NewNode(s, r) == FileNode(r.name, r.ext, r.buf[..r.size])))
  {
    hide DecodeTable, EncodeTable, DecodeFat, EncodeFat, Signature, Inv, Dirs, Nodes, Free, Write, WriteFits, NoLeak,
         KeepsCount, StoredBytes;
    WriteCases(s, r);
    if s.fat[r.parent] != 0 {
      if r.size == 0 {
        FreshLocation(s, r);
        StoreDirectory(s, r);
        if Exact(s) { StoreDirectoryNoLeak(s, r); }
      } else if !Duplicate(s, r) {
        FreshLocation(s, r);
        FileFreeNonEmpty(s, r);
        StoreSafeIff(s, r);
        FileCode(s, r);
        if KeepsCount(s, r) { StoreFile(s, r); }
        if FreshSlot(s, r) { FreshNode(s, r); }
      }
    }
  }

  lemma FileCode(s: Fs, r: Request)
    requires StoresFile(s, r)
    ensures WriteFits(s, r) && Write(s, r).code == 0
  {
    hide DecodeTable, EncodeTable, DecodeFat, EncodeFat, Safe, Dirs, Free, FileLog, Linked, Duplicate, Slot;
    StoreFits(s, r);
  }

  lemma FileFreeNonEmpty(s: Fs, r: Request)
    requires StoresFile(s, r)
    ensures Free(s.fat, 0) != []
  {
  }

  /** All but the last write of a call that stores something are invisible, whatever slot it goes to. */
  lemma WriteLogQuiet(s: Fs, r: Request)
    requires Safe(s) && Fits(s, WriteCall(r))
    ensures forall k :: 0 <= k < |Write(s, r).log| - 1 ==> QuietWrite(s, Write(s, r).log[k])
  {
    hide DecodeTable, EncodeTable, DecodeFat, EncodeFat, Signature, Inv, Dirs, Nodes, Free, WriteFits, Write,
         QuietWrite, FileLog;
    WriteCases(s, r);
    if s.fat[r.parent] != 0 {
      if r.size == 0 {
        MakeFits(s, r);
        MakeDirectoryLog(s, r);
        PreparedDisk(s, r);
      } else if !Duplicate(s, r) {
        StoreFits(s, r);
        StagedIsQuiet(s, r);
        MakeFileLog(s, r);
      }
    }
  }

  lemma MakeFileLog(s: Fs, r: Request)
    requires StoresFile(s, r)
    ensures var log := FileLog(s.fat, Taken(s, r), r.buf[..r.size], |Taken(s, r)|);
            |MakeFile(s, r, s.fat).log| == |log| + 1 && MakeFile(s, r, s.fat).log[..|log|] == log
  {
    hide DecodeTable, EncodeTable, DecodeFat, EncodeFat, Safe, Dirs, Free, FileLog, FirstDead;
  }

  /**
   * Publish last: a power cut during `write` leaves the tree as it was, and the volume safe, unless the
   * very last cluster write was done, and then the call is complete.
   */
  lemma WriteIsAtomic(s: Fs, r: Request, k: nat)
    requires Safe(s) && Fits(s, WriteCall(r)) && k <= |Write(s, r).log|
    ensures k < |Write(s, r).log| ==> Safe(Cut(s, Write(s, r), k)) && View(Cut(s, Write(s, r), k)) == View(s)
    ensures k == |Write(s, r).log| ==> Cut(s, Write(s, r), k) == After(s, Write(s, r))
  {
    hide DecodeTable, EncodeTable, DecodeFat, EncodeFat, Signature, Inv, Dirs, Nodes, Free, WriteFits, Write,
         QuietWrite;
    var log := Write(s, r).log;
    if k < |log| {
      WriteLogQuiet(s, r);
      SafeFacts(s);
      QuietReplay(s, log[..k]);
      QuietState(s, Replay(s.disk, log[..k]));
    } else {
      assert log[..k] == log;
      WriteSettles(s, r);
      MountSettled(After(s, Write(s, r)), ZeroFat());
    }
  }

  /** After a completed `write` the cached FAT is on the disk. */
  lemma WriteSettles(s: Fs, r: Request)
    requires Safe(s) && Fits(s, WriteCall(r))
    ensures Signed(After(s, Write(s, r)).disk) && Coherent(After(s, Write(s, r)))
  {
    hide DecodeTable, EncodeTable, DecodeFat, EncodeFat, Signature, Inv, Dirs, Nodes, Free, Write, WriteFits;
    WriteCases(s, r);
    SafeFacts(s);
    if s.fat[r.parent] != 0 {
      if r.size == 0 {
        FinalDirectory(s, r);
      } else if !Duplicate(s, r) {
        FinalFile(s, r);
      }
    }
  }

  // ---------------------------------------------------------------- delete, all branches

  lemma DeleteCases(s: Fs, r: Request)
    requires Safe(s) && Fits(s, DeleteCall(r))
    ensures Delete(s, r).code == 0 <==> Removes(s, r)
    ensures Delete(s, r).code != 0 ==> Delete(s, r).fat == s.fat && Delete(s, r).log == []
    ensures Delete(s, r).code == 1 <==> Target(s, r).None?
    ensures Delete(s, r).code == 2 <==>
              Target(s, r).Some? && At(s.disk, Loc(r.parent, Target(s, r).value)).attribute != 0 && !Removes(s, r)
  {
    hide DecodeTable, EncodeTable, DecodeFat, EncodeFat, Signature, Inv, Dirs, Freed, Zeroed, PrefixMatch, InBounds,
         StrLen;
  }

  /** `delete` as a step on the tree: it removes exactly one binding, or changes nothing. */
  lemma DeleteRefines(s: Fs, r: Request)
    requires Safe(s) && Fits(s, DeleteCall(r))
    ensures var o, t := Delete(s, r), After(s, Delete(s, r));
            && Safe(t) && (Exact(s) ==> Exact(t))
            && (o.code != 0 ==> t == s)
            && (o.code == 0 ==> Target(s, r).Some? && Loc(r.parent, Target(s, r).value) in View(s)
                                && View(t) == View(s) - {Loc(r.parent, Target(s, r).value)})
  {
    hide DecodeTable, EncodeTable, DecodeFat, EncodeFat, Signature, Inv, Dirs, Delete, DeleteFits, NoLeak, NodeOf;
    DeleteCases(s, r);
    if Removes(s, r) {
      DeleteRemovesOne(s, r);
      if Exact(s) { DeleteNoLeak(s, r); }
    }
  }

  /**
   * Unpublish first: a power cut during `delete` leaves the old tree if nothing was written, and
   * the new one after the first cluster write.
   */
  lemma DeleteIsAtomic(s: Fs, r: Request, k: nat)
    requires Safe(s) && Fits(s, DeleteCall(r)) && k <= |Delete(s, r).log|
    ensures Safe(Cut(s, Delete(s, r), k))
    ensures k == 0 ==> Cut(s, Delete(s, r), k) == s
    ensures k > 0 ==> View(Cut(s, Delete(s, r), k)) == View(After(s, Delete(s, r)))
    ensures k == |Delete(s, r).log| ==> Cut(s, Delete(s, r), k) == After(s, Delete(s, r))
  {
    hide DecodeTable, EncodeTable, DecodeFat, EncodeFat, Signature, Inv, Dirs, Delete, DeleteFits, Nodes, Removable;
    DeleteCases(s, r);
    DeleteRefines(s, r);
    var log, t := Delete(s, r).log, After(s, Delete(s, r));
    SafeFacts(s);
    SafeFacts(t);
    MountSettled(s, ZeroFat());
    MountSettled(t, ZeroFat());
    assert log[..|log|] == log;
    if Removes(s, r) {
      DeleteLog(s, r);
      DeleteRemovesOne(s, r);
      Unpublished(s, r);
      SafeFacts(Removed(s, Victim(s, r)));
      MountSettled(Removed(s, Victim(s, r)), ZeroFat());
    }
  }

  // ---------------------------------------------------------------- whole runs

  /** A call that is not allowed may still be cut short before its last cluster write. */
  ghost predicate Possible(s: Fs, e: Event)
  {
    match e
    case Done(c) => Allowed(s, c)
    case PowerCut(c, k) => Fits(s, c) && k <= |Effect(s, c).log| && (k == |Effect(s, c).log| ==> Allowed(s, c))
    case Remount => true
  }

  ghost function Next(s: Fs, e: Event): Fs
    requires Possible(s, e)
  {
    match e
    case Done(c) => After(s, Effect(s, c))
    case PowerCut(c, k) => Cut(s, Effect(s, c), k)
    case Remount => Mount(s)
  }

  /** Every event of the run is possible in the state it happens in. */
  ghost predicate PossibleRun(s: Fs, run: seq<Event>)
    decreases |run|
  {
    run == [] || (Possible(s, run[0]) && PossibleRun(Next(s, run[0]), run[1..]))
  }

  ghost function Final(s: Fs, run: seq<Event>): Fs
    requires PossibleRun(s, run)
    decreases |run|
  {
    if run == [] then s else Final(Next(s, run[0]), run[1..])
  }

  lemma {:induction false} RunThen(s: Fs, run: seq<Event>, e: Event)
    requires PossibleRun(s, run) && Possible(Final(s, run), e)
    ensures PossibleRun(s, run + [e]) && Final(s, run + [e]) == Next(Final(s, run), e)
    decreases |run|
  {
    hide Possible, Next;
    if run == [] {
      assert [e][1..] == [];
    } else {
      RunThen(Next(s, run[0]), run[1..], e);
      assert (run + [e])[0] == run[0] && (run + [e])[1..] == run[1..] + [e];
    }
  }

  /** One event: the volume stays safe, and the tree afterwards is the old one or the completed call's. */
  lemma StepSafe(s: Fs, e: Event)
    requires Safe(s) && Possible(s, e)
    ensures Safe(Next(s, e))
    ensures e.Done? && Exact(s) ==> Exact(Next(s, e))
    ensures e.Remount? ==> Next(s, e) == s
    ensures e.PowerCut? ==> View(Next(s, e)) == View(s) || View(Next(s, e)) == View(After(s, Effect(s, e.call)))
  {
    hide DecodeTable, EncodeTable, DecodeFat, EncodeFat, Signature, Inv, Dirs, Nodes, Free, WriteFits, Write, Delete,
         DeleteFits, NoLeak;
    match e
    case Done(WriteCall(r)) => WriteRefines(s, r);
    case Done(DeleteCall(r)) => DeleteRefines(s, r);
    case PowerCut(WriteCall(r), k) => WriteIsAtomic(s, r, k); WriteRefines(s, r);
    case PowerCut(DeleteCall(r), k) => DeleteIsAtomic(s, r, k);
    case Remount => SafeFacts(s); MountSettled(s, s.fat);
  }

  /** Crash safety over whole runs, with power cuts anywhere. */
  lemma {:induction false} RunSafe(s: Fs, run: seq<Event>)
    requires Safe(s) && PossibleRun(s, run)
    ensures Safe(Final(s, run))
    decreases |run|
  {
    hide Safe, Possible, Next;
    if run != [] {
      StepSafe(s, run[0]);
      RunSafe(Next(s, run[0]), run[1..]);
    }
  }

  /** Exact ownership over whole runs without power cuts. */
  lemma {:induction false} RunExact(s: Fs, run: seq<Event>)
    requires Exact(s) && PossibleRun(s, run)
    requires forall k :: 0 <= k < |run| ==> !run[k].PowerCut?
    ensures Exact(Final(s, run))
    decreases |run|
  {
    hide Safe, Possible, Next, NoLeak;
    if run != [] {
      assert !run[0].PowerCut?;
      StepSafe(s, run[0]);
      RunExact(Next(s, run[0]), run[1..]);
    }
  }

  // ---------------------------------------------------------------- the first state

  lemma FormattedDisk(disk: Disk)
    ensures var t := Format(Fs(ZeroFat(), disk));
            && t.fat == ZeroFat()[0 := CLUSTER_0_VALUE][1 := CLUSTER_1_VALUE][2 := END_OF_FILE]
            && Signed(t.disk) && Coherent(t)
            && Tab(t.disk, 2) == InitTable(EmptyTable(), RootName(), 2)
  {
    hide DecodeTable, EncodeTable, DecodeFat, EncodeFat, Signature, InitTable;
    var t := Format(Fs(ZeroFat(), disk));
    FatRoundTrip(t.fat, disk[0]);
    TableRoundTrip(InitTable(EmptyTable(), RootName(), 2), disk[0]);
  }

  lemma RootTable()
    ensures var t := InitTable(EmptyTable(), RootName(), 2); EmptyDirectory(t) && SelfEntry(t[0], 2)
  {
    var t := InitTable(EmptyTable(), RootName(), 2);
    forall i | 1 <= i < 64 ensures !t[i].Live() {
      assert t[i] == t[1..][i - 1];
    }
  }

  /** Starting up on an unsigned disk gives an exact volume with an empty root and nothing else. */
  lemma FormatExact(disk: Disk)
    requires !Signed(disk)
    ensures Exact(Reboot(disk)) && Dirs(Reboot(disk).disk) == {2} && View(Reboot(disk)) == map[]
  {
    hide DecodeTable, EncodeTable, DecodeFat, EncodeFat, Signature, InitTable, Format;
    var t := Format(Fs(ZeroFat(), disk));
    FormattedDisk(disk);
    RootTable();
    assert IsPath(t.disk, [2]) && Reachable(t.disk, 2);
    assert Inv(t, {2});
    assert Locs(t.disk, {2}) == {};
    SafeFrom(t, {2});
  }

  /** Every state of every run from power-up on a blank disk is safe, whatever is interrupted. */
  lemma ReachableSafe(disk: Disk, run: seq<Event>)
    requires !Signed(disk) && PossibleRun(Reboot(disk), run)
    ensures Safe(Final(Reboot(disk), run))
    ensures (forall k :: 0 <= k < |run| ==> !run[k].PowerCut?) ==> Exact(Final(Reboot(disk), run))
  {
    hide Safe, Possible, Next, NoLeak, Signed, Reboot;
    FormatExact(disk);
    RunSafe(Reboot(disk), run);
    if forall k :: 0 <= k < |run| ==> !run[k].PowerCut? {
      RunExact(Reboot(disk), run);
    }
  }

  lemma {:induction false} AllFree(fat: Fat, from: nat)
    requires from <= 512 && forall c :: from <= c < 512 ==> fat[c] == 0
    ensures |Free(fat, from)| == 512 - from
    decreases 512 - from
  {
    if from < 512 {
      AllFree(fat, from + 1);
    }
  }

  /** The names a fresh root already holds: its own, and the zeros of the unused slots. */
  predicate InFreshRoot(r: Request)
  {
    r.ext == [0, 0, 0] && (r.name == RootName() || r.name == EMPTY_ENTRY.name)
  }

  lemma FreshRoot(disk: Disk, r: Request)
    requires !Signed(disk) && r.parent == 2
    ensures var s := Reboot(disk);
            && |Free(s.fat, 0)| == 509 && Slot(s, r) == 1 && FreshSlot(s, r) && (Duplicate(s, r) <==> InFreshRoot(r))
            && s.fat[2] == END_OF_FILE && Coherent(s)
  {
    hide DecodeTable, EncodeTable, DecodeFat, EncodeFat, Signature, Format, FirstNamed;
    FormattedDisk(disk);
    var s, t := Reboot(disk), InitTable(EmptyTable(), RootName(), 2);
    AllFree(s.fat, 3);
    assert |Free(s.fat, 0)| == |Free(s.fat, 1)| == |Free(s.fat, 2)| == |Free(s.fat, 3)|;
    forall i | 1 <= i < 64 ensures t[i] == EMPTY_ENTRY {
      assert t[i] == t[1..][i - 1];
    }
    assert t[0].name == RootName() && t[0].ext == [0, 0, 0] && t[1].ext == [0, 0, 0];
  }

  /** A fresh volume takes files of up to 508 clusters in its root: 509 are free, and one has to stay free. */
  lemma FreshCapacity(disk: Disk, r: Request)
    requires !Signed(disk) && r.parent == 2 && 0 < r.size <= |r.buf|
    ensures Allowed(Reboot(disk), WriteCall(r)) <==> InFreshRoot(r) || Links(r.size) <= 508
    ensures Allowed(Reboot(disk), WriteCall(r)) ==> Write(Reboot(disk), r).code == if InFreshRoot(r) then 1 else 0
  {
    hide DecodeTable, EncodeTable, DecodeFat, EncodeFat, Signature, Reboot, Dirs, Free, FirstDead, FirstNamed, Links,
         MakeFile, InFreshRoot;
    FormatExact(disk);
    FreshRoot(disk, r);
    FreshKeepsCount(Reboot(disk), r);
    if Allowed(Reboot(disk), WriteCall(r)) {
      WriteRefines(Reboot(disk), r);
      WriteCases(Reboot(disk), r);
    }
  }
}
