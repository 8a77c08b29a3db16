/** Publishing an entry adds exactly one node to the tree; unpublishing removes exactly one. */
module TreeEdits {
  import opened Layout
  import opened Chains
  import opened Volume
  import opened Tree
  import opened TreeSteps

  /** The volume after the directory of `h` is written back with slot `h` replaced. */
  function WithSlot(s: Fs, h: Loc, e: Entry): Fs
    requires h.dir < 512 && h.slot < 64
  {
    s.(disk := Put(s.disk, TableWrite(h.dir, Tab(s.disk, h.dir)[h.slot := e])))
  }

  lemma SlotFacts(s: Fs, h: Loc, e: Entry)
    requires h.dir < 512 && 1 <= h.slot < 64
    ensures var t := WithSlot(s, h, e);
            && (forall d :: 0 <= d < 512 && d != h.dir ==> t.disk[d] == s.disk[d])
            && (forall d :: 0 <= d < 512 ==>
                  Tab(t.disk, d) == if d == h.dir then Tab(s.disk, d)[h.slot := e] else Tab(s.disk, d))
  {
    hide DecodeTable, EncodeTable;
    TableRoundTrip(Tab(s.disk, h.dir)[h.slot := e], s.disk[0]);
  }

  /** An entry elsewhere in the tree keeps its soundness and its node. */
  lemma OthersKeep(s: Fs, dirs: set<nat>, newDirs: set<nat>, h: Loc, e: Entry, l: Loc)
    requires Inv(s, dirs) && h.dir in dirs && h.dir < 512 && 1 <= h.slot < 64 && LiveAt(s.disk, dirs, l) && l != h
    requires At(s.disk, l).attribute != 0 ==> At(s.disk, l).clusterLow in newDirs
    ensures var t := WithSlot(s, h, e);
            EntryOk(t, newDirs, At(s.disk, l)) && NodeOf(t, At(s.disk, l)) == NodeOf(s, At(s.disk, l))
  {
    hide DecodeTable, EncodeTable;
    var t := WithSlot(s, h, e);
    var f := At(s.disk, l);
    assert EntryOk(s, dirs, f);
    SlotFacts(s, h, e);
    if f.attribute == 0 {
      ChainAvoidsDirs(s, dirs, l, h.dir);
      forall x: nat | x in Chain(s.fat, f) ensures x < 512 && t.fat[x] == s.fat[x] && t.disk[x] == s.disk[x] {
        assert x in Own(s.fat, f);
        assert Owns(s, dirs, l, x);
        OwnedIsAllocated(s, dirs, l, x);
      }
      FileFrame(s, t, f);
    }
  }

  // ---------------------------------------------------------------- publishing

  function Grown(dirs: set<nat>, e: Entry): set<nat> { if e.attribute != 0 then dirs + {e.clusterLow as nat} else dirs }

  /** An entry ready to be published at `h`: sound, and owning only clusters nobody uses. */
  ghost predicate Ready(s: Fs, dirs: set<nat>, h: Loc, e: Entry)
  {
    && h.dir in dirs && h.dir < 512 && 1 <= h.slot < 64 && !At(s.disk, h).Live() && e.Live()
    && EntryOk(s, Grown(dirs, e), e)
    && (forall c: nat :: c in Own(s.fat, e) ==> !Used(s, dirs, c))
    && (e.attribute != 0 ==>
          && s.fat[e.clusterLow] == END_OF_FILE && EmptyDirectory(Tab(s.disk, e.clusterLow))
          && SelfEntry(e, e.clusterLow))
    && (forall j :: 0 <= j < 64 && j != h.slot ==> !Clash(e, Tab(s.disk, h.dir)[j]))
  }

  lemma PublishLive(s: Fs, dirs: set<nat>, h: Loc, e: Entry)
    requires Inv(s, dirs) && Ready(s, dirs, h, e)
    ensures var t := WithSlot(s, h, e);
            && (forall l :: LiveAt(t.disk, Grown(dirs, e), l) <==> LiveAt(s.disk, dirs, l) || l == h)
            && (forall l :: LiveAt(s.disk, dirs, l) ==> At(t.disk, l) == At(s.disk, l))
            && At(t.disk, h) == e
  {
    hide DecodeTable, EncodeTable;
    SlotFacts(s, h, e);
    if e.attribute != 0 {
      assert e.clusterLow in Own(s.fat, e);
      assert !Used(s, dirs, e.clusterLow);
    }
  }

  lemma PublishEntries(s: Fs, dirs: set<nat>, h: Loc, e: Entry)
    requires Inv(s, dirs) && Ready(s, dirs, h, e)
    ensures var t := WithSlot(s, h, e);
            EntriesOk(t, Grown(dirs, e)) && OneOwner(t, Grown(dirs, e))
  {
    hide DecodeTable, EncodeTable;
    var t, newDirs := WithSlot(s, h, e), Grown(dirs, e);
    PublishLive(s, dirs, h, e);
    forall l | LiveAt(t.disk, newDirs, l) ensures EntryOk(t, newDirs, At(t.disk, l)) {
      if l == h {
        PublishedNode(s, dirs, h, e);
      } else {
        assert EntryOk(s, dirs, At(s.disk, l));
        OthersKeep(s, dirs, newDirs, h, e, l);
      }
    }
    assert forall l, c :: Owns(t, newDirs, l, c) && l != h ==> Owns(s, dirs, l, c) && Used(s, dirs, c);
  }

  lemma PublishUnique(s: Fs, dirs: set<nat>, h: Loc, e: Entry)
    requires Inv(s, dirs) && Ready(s, dirs, h, e)
    ensures UniqueFiles(WithSlot(s, h, e).disk, Grown(dirs, e))
  {
    hide DecodeTable, EncodeTable, Own, IsSubdirectory;
    var t, newDirs := WithSlot(s, h, e), Grown(dirs, e);
    PublishLive(s, dirs, h, e);
    SlotFacts(s, h, e);
    forall l, j | LiveAt(t.disk, newDirs, l) && 0 <= j < 64 && j != l.slot
      ensures !Clash(At(t.disk, l), Tab(t.disk, l.dir)[j])
    {
      if l == h {
        assert Tab(t.disk, l.dir)[j] == Tab(s.disk, h.dir)[j];
      } else {
        assert !Clash(At(s.disk, l), Tab(s.disk, l.dir)[j]);
        assert l.dir == h.dir ==> !Clash(e, Tab(s.disk, h.dir)[l.slot]);
      }
    }
  }

  lemma PublishedNode(s: Fs, dirs: set<nat>, h: Loc, e: Entry)
    requires Inv(s, dirs) && Ready(s, dirs, h, e)
    ensures var t := WithSlot(s, h, e);
            EntryOk(t, Grown(dirs, e), e) && NodeOf(t, e) == NodeOf(s, e)
  {
    hide DecodeTable, EncodeTable;
    var t := WithSlot(s, h, e);
    SlotFacts(s, h, e);
    assert Used(s, dirs, h.dir);
    if e.attribute == 0 {
      ChainWalk(s.fat, e.clusterLow, Links(e.filesize));
      forall x: nat | x in Chain(s.fat, e) ensures x < 512 && t.fat[x] == s.fat[x] && t.disk[x] == s.disk[x] {
        assert x in Own(s.fat, e);
      }
      FileFrame(s, t, e);
    }
  }

  lemma PublishDirs(s: Fs, dirs: set<nat>, h: Loc, e: Entry)
    requires Inv(s, dirs) && Ready(s, dirs, h, e)
    ensures DirsOk(WithSlot(s, h, e), Grown(dirs, e))
  {
    hide DecodeTable, EncodeTable;
    var t := WithSlot(s, h, e);
    SlotFacts(s, h, e);
    forall d | d in Grown(dirs, e) ensures 2 <= d < 512 && t.fat[d] == END_OF_FILE && SelfEntry(Tab(t.disk, d)[0], d) {
      if d !in dirs {
        assert Tab(s.disk, d)[0] == e;
      }
    }
  }

  /** Filling a slot that is not live breaks no path. */
  lemma PublishPath(s: Fs, h: Loc, e: Entry, p: seq<nat>)
    requires h.dir < 512 && 1 <= h.slot < 64 && !At(s.disk, h).Live() && IsPath(s.disk, p)
    ensures IsPath(WithSlot(s, h, e).disk, p)
  {
    hide DecodeTable, EncodeTable;
    var t := WithSlot(s, h, e);
    SlotFacts(s, h, e);
    forall k | 0 <= k < |p| - 1 ensures HasChild(t.disk, p[k], p[k + 1]) {
      assert HasChild(s.disk, p[k], p[k + 1]);
      var i :| 1 <= i < 64 && IsChild(Tab(s.disk, p[k])[i], p[k + 1]);
      assert IsChild(Tab(t.disk, p[k])[i], p[k + 1]);
    }
  }

  lemma PathTo(disk: Disk, d: nat) returns (p: seq<nat>)
    requires Reachable(disk, d)
    ensures IsPath(disk, p) && p[|p| - 1] == d
  {
    p :| IsPath(disk, p) && p[|p| - 1] == d;
  }

  lemma PublishReached(s: Fs, dirs: set<nat>, h: Loc, e: Entry)
    requires Inv(s, dirs) && Ready(s, dirs, h, e)
    ensures Reached(WithSlot(s, h, e).disk, Grown(dirs, e))
  {
    hide DecodeTable, EncodeTable;
    var t := WithSlot(s, h, e);
    forall d | d in dirs ensures Reachable(t.disk, d) {
      var p := PathTo(s.disk, d);
      PublishPath(s, h, e, p);
    }
    if e.attribute != 0 {
      assert h.dir in dirs;
      var p := PathTo(s.disk, h.dir);
      PublishPath(s, h, e, p);
      SlotFacts(s, h, e);
      assert IsChild(Tab(t.disk, h.dir)[h.slot], e.clusterLow);
      assert HasChild(t.disk, h.dir, e.clusterLow);
      var q := p + [e.clusterLow];
      forall k | 0 <= k < |q| - 1 ensures HasChild(t.disk, q[k], q[k + 1]) {
        assert q[k] == p[k];
        if k + 1 < |p| { assert q[k + 1] == p[k + 1]; }
      }
      assert IsPath(t.disk, q) && q[|q| - 1] == e.clusterLow;
    }
  }

  /** Publishing adds one node and nothing else. */
  lemma Publish(s: Fs, dirs: set<nat>, h: Loc, e: Entry)
    requires Inv(s, dirs) && Ready(s, dirs, h, e)
    ensures Inv(WithSlot(s, h, e), Grown(dirs, e))
    ensures Nodes(WithSlot(s, h, e), Grown(dirs, e)) == Nodes(s, dirs)[h := NodeOf(s, e)]
    ensures forall c: nat :: Used(WithSlot(s, h, e), Grown(dirs, e), c) <==> Used(s, dirs, c) || c in Own(s.fat, e)
  {
    hide DecodeTable, EncodeTable;
    PublishEntries(s, dirs, h, e);
    PublishUnique(s, dirs, h, e);
    PublishDirs(s, dirs, h, e);
    PublishReached(s, dirs, h, e);
    PublishNodes(s, dirs, h, e);
    PublishUsed(s, dirs, h, e);
  }

  lemma PublishUsed(s: Fs, dirs: set<nat>, h: Loc, e: Entry)
    requires Inv(s, dirs) && Ready(s, dirs, h, e)
    ensures forall c: nat :: Used(WithSlot(s, h, e), Grown(dirs, e), c) <==> Used(s, dirs, c) || c in Own(s.fat, e)
  {
    hide DecodeTable, EncodeTable;
    var t, newDirs := WithSlot(s, h, e), Grown(dirs, e);
    PublishLive(s, dirs, h, e);
    forall c: nat ensures Used(t, newDirs, c) <==> Used(s, dirs, c) || c in Own(s.fat, e) {
      if c in Own(s.fat, e) {
        assert Owns(t, newDirs, h, c);
      }
      if l :| Owns(s, dirs, l, c) {
        assert Owns(t, newDirs, l, c);
      }
      if l :| Owns(t, newDirs, l, c) {
        assert l == h || Owns(s, dirs, l, c);
      }
    }
  }

  lemma NodesWith(s: Fs, dirs: set<nat>, t: Fs, newDirs: set<nat>, h: Loc)
    requires LiveAt(t.disk, newDirs, h)
    requires forall l :: LiveAt(t.disk, newDirs, l) <==> LiveAt(s.disk, dirs, l) || l == h
    requires forall l :: LiveAt(s.disk, dirs, l) && l != h ==> NodeOf(t, At(t.disk, l)) == NodeOf(s, At(s.disk, l))
    ensures Nodes(t, newDirs) == Nodes(s, dirs)[h := NodeOf(t, At(t.disk, h))]
  {
    hide DecodeTable, NodeOf;
    assert Locs(t.disk, newDirs) == Locs(s.disk, dirs) + {h};
    forall l | l in Locs(s.disk, dirs) && l != h ensures Nodes(t, newDirs)[l] == Nodes(s, dirs)[l] {
      assert LiveAt(s.disk, dirs, l);
    }
  }

  lemma PublishNodes(s: Fs, dirs: set<nat>, h: Loc, e: Entry)
    requires Inv(s, dirs) && Ready(s, dirs, h, e)
    ensures Nodes(WithSlot(s, h, e), Grown(dirs, e)) == Nodes(s, dirs)[h := NodeOf(s, e)]
  {
    hide DecodeTable, EncodeTable, NodeOf;
    var t, newDirs := WithSlot(s, h, e), Grown(dirs, e);
    PublishLive(s, dirs, h, e);
    PublishedNode(s, dirs, h, e);
    forall l | LiveAt(s.disk, dirs, l) && l != h ensures NodeOf(t, At(t.disk, l)) == NodeOf(s, At(s.disk, l)) {
      assert EntryOk(s, dirs, At(s.disk, l));
      OthersKeep(s, dirs, newDirs, h, e, l);
    }
    NodesWith(s, dirs, t, newDirs, h);
  }

  // ---------------------------------------------------------------- unpublishing

  function Shrunk(dirs: set<nat>, e: Entry): set<nat>
  {
    if e.attribute != 0 then dirs - {e.clusterLow as nat} else dirs
  }

  /** A live entry that may go: a file, or a directory with nothing live in it. */
  ghost predicate Removable(s: Fs, dirs: set<nat>, h: Loc)
  {
    && LiveAt(s.disk, dirs, h)
    && (At(s.disk, h).attribute != 0 ==>
        At(s.disk, h).clusterLow < 512 && EmptyDirectory(Tab(s.disk, At(s.disk, h).clusterLow)))
  }

  function Removed(s: Fs, h: Loc): Fs
    requires h.dir < 512 && h.slot < 64
  {
    WithSlot(s, h, Dead(At(s.disk, h)))
  }

  lemma UnpublishLive(s: Fs, dirs: set<nat>, h: Loc)
    requires Inv(s, dirs) && Removable(s, dirs, h)
    ensures var t := Removed(s, h);
            && (forall l :: LiveAt(t.disk, Shrunk(dirs, At(s.disk, h)), l) <==> LiveAt(s.disk, dirs, l) && l != h)
            && (forall l :: LiveAt(s.disk, dirs, l) && l != h ==> At(t.disk, l) == At(s.disk, l))
  {
    hide DecodeTable, EncodeTable;
    SlotFacts(s, h, Dead(At(s.disk, h)));
  }

  /** No other entry refers to a cluster the removed entry owns. */
  lemma OthersElsewhere(s: Fs, dirs: set<nat>, h: Loc, l: Loc)
    requires Inv(s, dirs) && Removable(s, dirs, h) && LiveAt(s.disk, dirs, l) && l != h
    requires At(s.disk, l).attribute != 0
    ensures At(s.disk, l).clusterLow in Shrunk(dirs, At(s.disk, h))
  {
    hide DecodeTable, EncodeTable;
    assert EntryOk(s, dirs, At(s.disk, l));
    var c := At(s.disk, l).clusterLow;
    assert Owns(s, dirs, l, c) && (Owns(s, dirs, h, c) <==> c in Own(s.fat, At(s.disk, h)));
  }

  lemma UnpublishEntry(s: Fs, dirs: set<nat>, h: Loc, l: Loc)
    requires Inv(s, dirs) && Removable(s, dirs, h) && LiveAt(s.disk, dirs, l) && l != h
    ensures var t := Removed(s, h);
            && EntryOk(t, Shrunk(dirs, At(s.disk, h)), At(s.disk, l))
            && NodeOf(t, At(s.disk, l)) == NodeOf(s, At(s.disk, l))
  {
    hide DecodeTable, EncodeTable;
    if At(s.disk, l).attribute != 0 {
      OthersElsewhere(s, dirs, h, l);
    }
    OthersKeep(s, dirs, Shrunk(dirs, At(s.disk, h)), h, Dead(At(s.disk, h)), l);
  }

  lemma UnpublishEntries(s: Fs, dirs: set<nat>, h: Loc)
    requires Inv(s, dirs) && Removable(s, dirs, h)
    ensures var t, newDirs := Removed(s, h), Shrunk(dirs, At(s.disk, h));
            EntriesOk(t, newDirs) && OneOwner(t, newDirs)
  {
    hide DecodeTable, EncodeTable;
    var t, newDirs := Removed(s, h), Shrunk(dirs, At(s.disk, h));
    UnpublishLive(s, dirs, h);
    forall l | LiveAt(t.disk, newDirs, l) ensures EntryOk(t, newDirs, At(t.disk, l)) {
      UnpublishEntry(s, dirs, h, l);
    }
    assert forall l, c :: Owns(t, newDirs, l, c) ==> Owns(s, dirs, l, c);
  }

  lemma UnpublishUnique(s: Fs, dirs: set<nat>, h: Loc)
    requires Inv(s, dirs) && Removable(s, dirs, h)
    ensures UniqueFiles(Removed(s, h).disk, Shrunk(dirs, At(s.disk, h)))
  {
    hide DecodeTable, EncodeTable, Own;
    var t, newDirs := Removed(s, h), Shrunk(dirs, At(s.disk, h));
    UnpublishLive(s, dirs, h);
    SlotFacts(s, h, Dead(At(s.disk, h)));
    forall l, j | LiveAt(t.disk, newDirs, l) && 0 <= j < 64 && j != l.slot
      ensures !Clash(At(t.disk, l), Tab(t.disk, l.dir)[j])
    {
      assert !Clash(At(s.disk, l), Tab(s.disk, l.dir)[j]);
    }
  }

  lemma UnpublishDirs(s: Fs, dirs: set<nat>, h: Loc)
    requires Inv(s, dirs) && Removable(s, dirs, h)
    ensures DirsOk(Removed(s, h), Shrunk(dirs, At(s.disk, h)))
  {
    hide DecodeTable, EncodeTable;
    SlotFacts(s, h, Dead(At(s.disk, h)));
    assert EntryOk(s, dirs, At(s.disk, h));
  }

  /** A path that does not end in the removed directory does not use its entry at all. */
  lemma UnpublishPath(s: Fs, dirs: set<nat>, h: Loc, p: seq<nat>)
    requires Inv(s, dirs) && Removable(s, dirs, h) && IsPath(s.disk, p)
    requires At(s.disk, h).attribute != 0 ==> p[|p| - 1] != At(s.disk, h).clusterLow
    ensures IsPath(Removed(s, h).disk, p)
  {
    hide DecodeTable, EncodeTable;
    var t, e := Removed(s, h), At(s.disk, h);
    SlotFacts(s, h, Dead(e));
    assert EntryOk(s, dirs, e);
    forall k | 0 <= k < |p| - 1 ensures HasChild(t.disk, p[k], p[k + 1]) {
      assert HasChild(s.disk, p[k], p[k + 1]);
      var i :| 1 <= i < 64 && IsChild(Tab(s.disk, p[k])[i], p[k + 1]);
      if k + 1 < |p| - 1 {
        assert HasChild(s.disk, p[k + 1], p[k + 1 + 1]);
      }
      assert Loc(p[k], i) != h;
      assert IsChild(Tab(t.disk, p[k])[i], p[k + 1]);
    }
  }

  lemma UnpublishReached(s: Fs, dirs: set<nat>, h: Loc)
    requires Inv(s, dirs) && Removable(s, dirs, h)
    ensures Reached(Removed(s, h).disk, Shrunk(dirs, At(s.disk, h)))
  {
    hide DecodeTable, EncodeTable;
    var t := Removed(s, h);
    forall d | d in Shrunk(dirs, At(s.disk, h)) ensures Reachable(t.disk, d) {
      var p := PathTo(s.disk, d);
      UnpublishPath(s, dirs, h, p);
    }
  }

  lemma UnpublishNodes(s: Fs, dirs: set<nat>, h: Loc)
    requires Inv(s, dirs) && Removable(s, dirs, h)
    ensures Nodes(Removed(s, h), Shrunk(dirs, At(s.disk, h))) == Nodes(s, dirs) - {h}
  {
    hide DecodeTable, EncodeTable, NodeOf;
    var t, newDirs := Removed(s, h), Shrunk(dirs, At(s.disk, h));
    UnpublishLive(s, dirs, h);
    forall l | LiveAt(s.disk, dirs, l) && l != h ensures NodeOf(t, At(t.disk, l)) == NodeOf(s, At(s.disk, l)) {
      UnpublishEntry(s, dirs, h, l);
    }
    NodesWithout(s, dirs, t, newDirs, h);
  }

  lemma NodesWithout(s: Fs, dirs: set<nat>, t: Fs, newDirs: set<nat>, h: Loc)
    requires forall l :: LiveAt(t.disk, newDirs, l) <==> LiveAt(s.disk, dirs, l) && l != h
    requires forall l :: LiveAt(s.disk, dirs, l) && l != h ==> NodeOf(t, At(t.disk, l)) == NodeOf(s, At(s.disk, l))
    ensures Nodes(t, newDirs) == Nodes(s, dirs) - {h}
  {
    hide DecodeTable, NodeOf;
    assert Locs(t.disk, newDirs) == Locs(s.disk, dirs) - {h};
    forall l | l in Locs(s.disk, dirs) && l != h ensures Nodes(t, newDirs)[l] == Nodes(s, dirs)[l] {
      assert LiveAt(s.disk, dirs, l);
    }
  }

  lemma UnpublishUsed(s: Fs, dirs: set<nat>, h: Loc)
    requires Inv(s, dirs) && Removable(s, dirs, h)
    ensures forall c: nat :: Used(Removed(s, h), Shrunk(dirs, At(s.disk, h)), c) <==>
              Used(s, dirs, c) && c !in Own(s.fat, At(s.disk, h))
  {
    hide DecodeTable, EncodeTable;
    var t, newDirs := Removed(s, h), Shrunk(dirs, At(s.disk, h));
    UnpublishLive(s, dirs, h);
    assert EntryOk(s, dirs, At(s.disk, h));
    assert forall l, c :: Owns(t, newDirs, l, c) <==> Owns(s, dirs, l, c) && l != h;
    forall c: nat ensures Used(t, newDirs, c) <==> Used(s, dirs, c) && c !in Own(s.fat, At(s.disk, h)) {
      assert Owns(s, dirs, h, c) <==> c in Own(s.fat, At(s.disk, h));
      if At(s.disk, h).attribute == 0 && c in dirs {
        ChainAvoidsDirs(s, dirs, h, c);
      }
    }
  }

  /** Unpublishing removes one node and nothing else, and gives up exactly the clusters it owned. */
  lemma Unpublish(s: Fs, dirs: set<nat>, h: Loc)
    requires Inv(s, dirs) && Removable(s, dirs, h)
    ensures Inv(Removed(s, h), Shrunk(dirs, At(s.disk, h)))
    ensures Nodes(Removed(s, h), Shrunk(dirs, At(s.disk, h))) == Nodes(s, dirs) - {h}
    ensures forall c: nat :: Used(Removed(s, h), Shrunk(dirs, At(s.disk, h)), c) <==>
              Used(s, dirs, c) && c !in Own(s.fat, At(s.disk, h))
  {
    hide DecodeTable, EncodeTable;
    UnpublishEntries(s, dirs, h);
    UnpublishUnique(s, dirs, h);
    UnpublishDirs(s, dirs, h);
    UnpublishReached(s, dirs, h);
    UnpublishNodes(s, dirs, h);
    UnpublishUsed(s, dirs, h);
  }
}
