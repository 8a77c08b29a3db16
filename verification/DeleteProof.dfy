/** `delete`: what it removes from the tree, and the state between its two writes. */
module DeleteProof {
  import opened Wrappers
  import opened Bytes
  import opened Layout
  import opened Chains
  import opened Volume
  import opened Tree
  import opened TreeSteps
  import opened TreeEdits
  import opened Safety

  function Target(s: Fs, r: Request): Option<nat>
    requires r.parent < 512
  {
    FirstHit(Tab(s.disk, r.parent), r.name, r.ext, 1)
  }

  /** The comparison in `delete` stays inside the 11 name and extension bytes of every live entry. */
  lemma MatchingIsBounded(s: Fs, l: Loc)
    requires Safe(s) && LiveAt(s.disk, Dirs(s.disk), l)
    ensures StrLen(NameBytes(At(s.disk, l))) <= 11
  {
    hide DecodeTable, DecodeFat, Dirs;
    var e := At(s.disk, l);
    assert EntryOk(s, Dirs(s.disk), e);
    assert NameBytes(e)[11] == e.attribute && NameBytes(e)[8] == e.ext[0];
  }

  lemma ParentInRange(s: Fs, r: Request)
    requires Safe(s) && r.parent in Dirs(s.disk)
    ensures 2 <= r.parent < 512
  {
    hide DecodeTable, DecodeFat, Dirs;
  }

  lemma FreedOfEntry(s: Fs, dirs: set<nat>, e: Entry)
    requires EntryOk(s, dirs, e)
    ensures if e.attribute != 0 then e.clusterLow < 512 else InBounds(s.fat, e.clusterLow, LinkCount(e.filesize))
    ensures e.attribute == 0 ==> LinkCount(e.filesize) == Links(e.filesize)
    ensures forall k :: 0 <= k < |Freed(s, e)| ==> 3 <= Freed(s, e)[k] < 512
  {
    hide DecodeTable, Walk, InBounds, Links;
    if e.attribute == 0 {
      ChainWalk(s.fat, e.clusterLow, Links(e.filesize));
    }
  }

  lemma FreedIsOwned(s: Fs, l: Loc)
    requires Safe(s) && LiveAt(s.disk, Dirs(s.disk), l)
    ensures var e := At(s.disk, l);
            && (if e.attribute != 0 then e.clusterLow < 512 else InBounds(s.fat, e.clusterLow, LinkCount(e.filesize)))
            && (forall c: nat :: c in Freed(s, e) <==> c in Own(s.fat, e))
            && (forall k :: 0 <= k < |Freed(s, e)| ==> 3 <= Freed(s, e)[k] < 512)
  {
    hide DecodeTable, DecodeFat, Dirs, Walk, InBounds, ChainOk, Links, LinkCount;
    var e := At(s.disk, l);
    assert EntryOk(s, Dirs(s.disk), e);
    FreedOfEntry(s, Dirs(s.disk), e);
  }

  /** On a safe volume `delete` never leaves the tables it walks. */
  lemma DeleteAlwaysFits(s: Fs, r: Request)
    requires Safe(s) && r.parent in Dirs(s.disk)
    ensures 2 <= r.parent < 512 && DeleteFits(s, r)
  {
    hide DecodeTable, DecodeFat, Dirs, Inv, InBounds, StrLen, NameBytes, Hit;
    ParentInRange(s, r);
    var t := Tab(s.disk, r.parent);
    forall i | 1 <= i < 64 && t[i].Live() ensures StrLen(NameBytes(t[i])) <= 11 {
      MatchingIsBounded(s, Loc(r.parent, i));
    }
    match Target(s, r)
    case None =>
    case Some(i) =>
      HitIsLive(t[i], r);
      FreedIsOwned(s, Loc(r.parent, i));
      assert At(s.disk, Loc(r.parent, i)) == t[i];
  }

  lemma HitIsLive(e: Entry, r: Request)
    requires Hit(e, r.name, r.ext)
    ensures e.Live()
  {
  }

  /** A call that finds something it may remove. */
  ghost predicate Removes(s: Fs, r: Request)
  {
    && Safe(s) && r.parent in Dirs(s.disk) && r.parent < 512 && Target(s, r).Some?
    && Removable(s, Dirs(s.disk), Loc(r.parent, Target(s, r).value))
  }

  ghost function Victim(s: Fs, r: Request): Loc
    requires Removes(s, r)
  {
    Loc(r.parent, Target(s, r).value)
  }

  lemma DeleteLog(s: Fs, r: Request)
    requires Removes(s, r)
    ensures DeleteFits(s, r)
    ensures var e, d := At(s.disk, Victim(s, r)), Delete(s, r);
            && (if e.attribute != 0 then e.clusterLow < 512 else InBounds(s.fat, e.clusterLow, LinkCount(e.filesize)))
            && d.code == 0 && d.fat == Zeroed(s.fat, Freed(s, e)) && |d.log| == 2
            && Replay(s.disk, d.log[..0]) == s.disk
            && Replay(s.disk, d.log[..1]) == Removed(s, Victim(s, r)).disk
            && Replay(s.disk, d.log) == Put(Removed(s, Victim(s, r)).disk, FatWrite(d.fat))
  {
    hide DecodeTable, EncodeTable, DecodeFat, EncodeFat, Dirs, Inv, Zeroed, Freed, InBounds, FirstHit, StrLen;
    DeleteAlwaysFits(s, r);
    var log := Delete(s, r).log;
    ReplayAppend(s.disk, [], log[0]);
    ReplayAppend(s.disk, log[..1], log[1]);
    assert [] + [log[0]] == log[..1] && log[..1] + [log[1]] == log;
  }

  /** Between the two writes the entry is gone and its clusters are merely lost. */
  lemma Unpublished(s: Fs, r: Request)
    requires Removes(s, r)
    ensures var h := Victim(s, r);
            && Safe(Removed(s, h)) && Dirs(Removed(s, h).disk) == Shrunk(Dirs(s.disk), At(s.disk, h))
            && View(Removed(s, h)) == View(s) - {h}
  {
    hide DecodeTable, EncodeTable, DecodeFat, EncodeFat, Dirs, Inv, Nodes, Signature, FirstHit;
    ParentInRange(s, r);
    var h := Victim(s, r);
    Unpublish(s, Dirs(s.disk), h);
    SlotFacts(s, h, Dead(At(s.disk, h)));
    SafeFrom(Removed(s, h), Shrunk(Dirs(s.disk), At(s.disk, h)));
  }

  lemma FreeingAgrees(s: Fs, r: Request)
    requires Removes(s, r)
    ensures DeleteFits(s, r)
    ensures var h, t := Victim(s, r), After(s, Delete(s, r));
            && Agrees(Removed(s, h), t, Shrunk(Dirs(s.disk), At(s.disk, h)))
            && Forward(t.fat) && Coherent(t) && Signed(t.disk)
  {
    hide DecodeTable, EncodeTable, DecodeFat, EncodeFat, Dirs, Inv, Nodes, Signature, Used, Freed, Zeroed, DeleteFits,
         Delete, Walk, Own;
    DeleteLog(s, r);
    Unpublished(s, r);
    var h, t := Victim(s, r), After(s, Delete(s, r));
    var e, dirs := At(s.disk, h), Dirs(s.disk);
    Unpublish(s, dirs, h);
    FreedIsOwned(s, h);
    SafeFacts(s);
    ZeroedForward(s.fat, Freed(s, e));
    ZeroedAt(s.fat, Freed(s, e));
    FatRoundTrip(t.fat, s.disk[0]);
    forall c: nat | c < 512 && Used(Removed(s, h), Shrunk(dirs, e), c)
      ensures t.fat[c] == Removed(s, h).fat[c] && t.disk[c] == Removed(s, h).disk[c]
    {
      UsedIsAllocated(Removed(s, h), Shrunk(dirs, e), c);
    }
  }

  /** A successful `delete` removes exactly one node. */
  lemma DeleteRemovesOne(s: Fs, r: Request)
    requires Removes(s, r)
    ensures DeleteFits(s, r)
    ensures var h, t := Victim(s, r), After(s, Delete(s, r));
            && Delete(s, r).code == 0 && Safe(t) && Dirs(t.disk) == Shrunk(Dirs(s.disk), At(s.disk, h))
            && View(t) == View(s) - {h}
  {
    hide DecodeTable, EncodeTable, DecodeFat, EncodeFat, Dirs, Inv, Nodes, Signature, Used, Freed, Zeroed, Delete,
         DeleteFits, Own;
    DeleteLog(s, r);
    Unpublished(s, r);
    FreeingAgrees(s, r);
    var h, t := Victim(s, r), After(s, Delete(s, r));
    var newDirs := Shrunk(Dirs(s.disk), At(s.disk, h));
    Frame(Removed(s, h), t, newDirs);
    SafeFrom(t, newDirs);
  }

  /** `delete` gives every cluster of the entry back. */
  lemma DeleteNoLeak(s: Fs, r: Request)
    requires Removes(s, r) && Exact(s)
    ensures DeleteFits(s, r) && Exact(After(s, Delete(s, r)))
  {
    hide DecodeTable, EncodeTable, DecodeFat, EncodeFat, Dirs, Inv, Nodes, Signature, Used, Freed, Zeroed, Delete,
         DeleteFits, Walk, Own;
    DeleteLog(s, r);
    Unpublished(s, r);
    FreeingAgrees(s, r);
    DeleteRemovesOne(s, r);
    var h, t := Victim(s, r), After(s, Delete(s, r));
    var e, newDirs := At(s.disk, h), Shrunk(Dirs(s.disk), At(s.disk, h));
    Frame(Removed(s, h), t, newDirs);
    Unpublish(s, Dirs(s.disk), h);
    FreedIsOwned(s, h);
    ZeroedAt(s.fat, Freed(s, e));
  }
}
