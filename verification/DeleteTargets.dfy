/** Which entry a `delete` removes, and how far it walks when the recorded size is wrong. */
module DeleteTargets {
  import opened Wrappers
  import opened Bytes
  import opened Layout
  import opened Chains
  import opened Volume
  import opened Tree
  import opened Safety
  import opened WriteProof
  import opened DeleteProof
  import opened RoundTrips
  import opened Codes
  import opened Runs

  // ---------------------------------------------------------------- the entry a name reaches

  /** The request carries the name of the live entry at `l` and, for a file, its extension. */
  ghost predicate Names(s: Fs, r: Request, l: Loc)
  {
    && LiveAt(s.disk, Dirs(s.disk), l) && r.parent == l.dir && r.name == At(s.disk, l).name
    && (At(s.disk, l).attribute == 0 ==> r.ext == At(s.disk, l).ext)
  }

  /** A directory's name ends within its 8 bytes or at the zero extension behind them. */
  lemma DirectoryHitsItself(e: Entry, ext: Ext)
    requires e.Live() && e.attribute != 0 && e.ext == [0, 0, 0]
    ensures Hit(e, e.name, ext)
  {
    assert NameBytes(e)[8] == 0;
    var n := StrLen(NameBytes(e));
    assert NameBytes(e)[..n] == e.name[..n] == (e.name + ext)[..n];
  }

  lemma HitsItself(s: Fs, r: Request, l: Loc)
    requires Safe(s) && Names(s, r, l)
    ensures Hit(At(s.disk, l), r.name, r.ext)
  {
    hide DecodeTable, DecodeFat, Dirs, Hit, Signature;
    var e := At(s.disk, l);
    assert EntryOk(s, Dirs(s.disk), e);
    if e.attribute == 0 {
      FileHitsItself(e);
    } else {
      assert SelfEntry(Tab(s.disk, e.clusterLow)[0], e.clusterLow);
      DirectoryHitsItself(e, r.ext);
    }
  }

  /**
   * `delete` of an entry's own name removes that entry exactly when no earlier slot is meant and, if it is
   * a directory, slots 1 to 63 of it hold nothing live.
   */
  lemma DeleteReaches(s: Fs, r: Request, l: Loc)
    requires Safe(s) && Names(s, r, l)
    ensures DeleteFits(s, r) && (At(s.disk, l).attribute != 0 ==> At(s.disk, l).clusterLow < 512)
    ensures l in View(s)
    ensures l !in View(After(s, Delete(s, r))) <==>
            && (forall i :: 1 <= i < l.slot ==> !Meant(Tab(s.disk, l.dir)[i], r))
            && (At(s.disk, l).attribute != 0 ==>
                  forall k :: 1 <= k < 64 ==> Tab(s.disk, At(s.disk, l).clusterLow)[k].userAttribute != 0xAA)
  {
    hide DecodeTable, EncodeTable, DecodeFat, EncodeFat, Signature, Inv, Dirs, Delete, DeleteFits, Hit, FirstHit,
         NodeOf, Meant;
    DeleteAlwaysFits(s, r);
    EntryInRange(s, l);
    HitsItself(s, r, l);
    FirstHitIs(Tab(s.disk, l.dir), l.slot, r.name, r.ext);
    forall i | 1 <= i < 64 ensures Hit(Tab(s.disk, l.dir)[i], r.name, r.ext) <==> Meant(Tab(s.disk, l.dir)[i], r) {
      MeantIff(s, r, i);
    }
    DeleteCases(s, r);
    DeleteRefines(s, r);
  }

  // ---------------------------------------------------------------- deleting a file just written

  lemma NamesBounded(s: Fs, r: Request, i: nat)
    requires StoresFile(s, r) && 1 <= i < 64
    ensures WriteFits(s, r)
    ensures var e := Tab(After(s, Write(s, r)).disk, r.parent)[i]; e.Live() ==> StrLen(NameBytes(e)) <= 11
  {
    hide DecodeTable, EncodeTable, DecodeFat, EncodeFat, Signature, Dirs, Free, Linked, Write, WriteFits, NewFile,
         Taken, FirstDead, Hit;
    ParentAfterStore(s, r);
    if i == Slot(s, r) {
      NewFileFields(s, r);
      FileHitsItself(NewFile(s, r));
    } else if Tab(s.disk, r.parent)[i].Live() {
      MatchingIsBounded(s, Loc(r.parent, i));
    }
  }

  /** `t` is what the file write `r` leaves. */
  ghost predicate Stored(s: Fs, r: Request, t: Fs)
  {
    StoresFile(s, r) && WriteFits(s, r) && t == After(s, Write(s, r))
  }

  /** In `t`, left by the file write `r` in `s`, the `delete` call `q` settles on the new file. */
  ghost predicate Undoes(s: Fs, r: Request, t: Fs, q: Request)
  {
    && Stored(s, r, t)
    && q.parent == r.parent && Target(t, q) == Some(Slot(s, r))
  }

  /** How many clusters the recorded size stands for, in the 16-bit count of `delete`. */
  ghost function Counted(s: Fs, r: Request): nat
    requires StoresFile(s, r)
  {
    LinkCount(Recorded(s, r))
  }

  /** The first `n` clusters the file write took. */
  ghost function FirstTaken(s: Fs, r: Request, n: nat): (cs: seq<nat>)
    requires StoresFile(s, r)
    ensures Clusters(cs) && |cs| == if n <= Links(r.size) then n else Links(r.size)
  {
    Taken(s, r)[..if n <= Links(r.size) then n else Links(r.size)]
  }

  /**
   * After a file write into any slot, a `delete` that settles on it frees as many clusters as the recorded
   * size stands for; if those are more than the file took, it walks past end-of-file and off the table.
   */
  lemma StaleDelete(s: Fs, r: Request, t: Fs, q: Request)
    requires Undoes(s, r, t, q)
    ensures DeleteFits(t, q) <==> Counted(s, r) <= Links(r.size)
    ensures DeleteFits(t, q) ==>
              Delete(t, q).code == 0 && Delete(t, q).fat == Zeroed(t.fat, FirstTaken(s, r, Counted(s, r)))
    ensures DeleteFits(t, q) ==> DecodeFat(After(t, Delete(t, q)).disk[FAT_CLUSTER]) == Delete(t, q).fat
  {
    hide DecodeTable, EncodeTable, DecodeFat, EncodeFat, Signature, Safe, Dirs, Free, FileLog, Linked, Replay, Write,
         WriteFits, NewFile, Taken, Walk, ChainOk, Links, FirstHit, Recorded, Slot, Duplicate, Staged, Zeroed,
         InBounds, StrLen, NameBytes;
    ParentAfterStore(s, r);
    StagedFat(s, r);
    StagedChain(s, r);
    NewFileFields(s, r);
    var e, n := NewFile(s, r), Counted(s, r);
    forall i | 1 <= i < 64 && Tab(t.disk, q.parent)[i].Live()
      ensures StrLen(NameBytes(Tab(t.disk, q.parent)[i])) <= 11
    {
      NamesBounded(s, r, i);
    }
    WalkPastEnd(t.fat, e.clusterLow, Links(r.size), n);
    if n <= Links(r.size) {
      WalkPrefix(t.fat, e.clusterLow, Links(r.size), n);
      var log := Delete(t, q).log;
      ThreeWrites(t.disk, log[0], log[1], log[1]);
      FatRoundTrip(Delete(t, q).fat, t.disk[0]);
    }
  }

  lemma FreeingPart(s: Fs, r: Request, n: nat)
    requires StoresFile(s, r) && n <= Links(r.size)
    ensures Zeroed(Linked(s.fat, Taken(s, r), |Taken(s, r)|), FirstTaken(s, r, n)) == s.fat <==> n == Links(r.size)
  {
    hide DecodeTable, Safe, Dirs, Free, Linked, Taken, Slot, Links, Zeroed, Duplicate;
    SafeFacts(s);
    TakenFacts(s, r);
    var cs := Taken(s, r);
    if n == |cs| {
      assert cs[..n] == cs;
      FreeingUndoesLinking(s.fat, cs);
    } else {
      LinkedAt(s.fat, cs, |cs|);
      ZeroedAt(Linked(s.fat, cs, |cs|), cs[..n]);
      assert cs[n] !in cs[..n];
    }
  }

  /**
   * Deleting a file just written restores the whole FAT, in memory and on disk, exactly when the recorded
   * size stands for as many clusters as the file took; that is so whenever the volume is safe in between.
   */
  lemma DeleteUndoesWrite(s: Fs, r: Request, t: Fs, q: Request)
    requires Undoes(s, r, t, q)
    ensures DeleteFits(t, q) ==> (Delete(t, q).fat == s.fat <==> Counted(s, r) == Links(r.size))
    ensures DeleteFits(t, q) ==> DecodeFat(After(t, Delete(t, q)).disk[FAT_CLUSTER]) == Delete(t, q).fat
    ensures Counted(s, r) == Links(r.size) ==> DeleteFits(t, q)
    ensures KeepsCount(s, r) ==> Counted(s, r) == Links(r.size)
  {
    hide DecodeTable, EncodeTable, DecodeFat, EncodeFat, Signature, Safe, Dirs, Free, FileLog, Linked, Replay, Write,
         WriteFits, NewFile, Taken, Links, FirstHit, Recorded, Slot, Duplicate, Staged, Zeroed, DeleteFits, Delete;
    StaleDelete(s, r, t, q);
    ParentAfterStore(s, r);
    SafeFacts(s);
    TakenFacts(s, r);
    AtMost512(Taken(s, r));
    if DeleteFits(t, q) {
      FreeingPart(s, r, Counted(s, r));
    }
  }
}
