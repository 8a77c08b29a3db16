/** How each kind of cluster write changes the tree: not at all, by one new node, or by one node fewer. */
module TreeSteps {
  import opened Layout
  import opened Chains
  import opened Volume
  import opened Tree

  // ---------------------------------------------------------------- writes the tree does not see

  /** `t` agrees with `s` on every cluster in use. */
  ghost predicate Agrees(s: Fs, t: Fs, dirs: set<nat>)
  {
    forall c: nat :: c < 512 && Used(s, dirs, c) ==> t.fat[c] == s.fat[c] && t.disk[c] == s.disk[c]
  }

  lemma OwnedAgrees(s: Fs, t: Fs, dirs: set<nat>, l: Loc, x: nat)
    requires Inv(s, dirs) && Agrees(s, t, dirs) && Owns(s, dirs, l, x)
    ensures x < 512 && t.fat[x] == s.fat[x] && t.disk[x] == s.disk[x]
  {
    OwnedIsAllocated(s, dirs, l, x);
    assert Used(s, dirs, x);
  }

  lemma FileFrame(s: Fs, t: Fs, e: Entry)
    requires ChainOk(s.fat, e.clusterLow, Links(e.filesize))
    requires forall x: nat :: x in Chain(s.fat, e) ==> x < 512 && t.fat[x] == s.fat[x] && t.disk[x] == s.disk[x]
    ensures ChainOk(t.fat, e.clusterLow, Links(e.filesize)) && Chain(t.fat, e) == Chain(s.fat, e)
    ensures Contents(t, e) == Contents(s, e)
  {
    ChainFrame(s.fat, t.fat, e.clusterLow, Links(e.filesize));
    var cs := Chain(s.fat, e);
    forall k | 0 <= k < |cs| ensures cs[k] < 512 && s.disk[cs[k]] == t.disk[cs[k]] {
      assert cs[k] in cs;
    }
    GatherAgree(s.disk, t.disk, cs);
  }

  /** An entry's soundness, property and node depend only on the clusters it owns. */
  lemma FrameEntry(s: Fs, t: Fs, dirs: set<nat>, e: Entry)
    requires EntryOk(s, dirs, e)
    requires forall x: nat :: x in Own(s.fat, e) ==> x < 512 && t.fat[x] == s.fat[x] && t.disk[x] == s.disk[x]
    ensures EntryOk(t, dirs, e) && Own(t.fat, e) == Own(s.fat, e) && NodeOf(t, e) == NodeOf(s, e)
  {
    if e.attribute == 0 {
      forall x: nat | x in Chain(s.fat, e) ensures x < 512 && t.fat[x] == s.fat[x] && t.disk[x] == s.disk[x] {
        assert x in Own(s.fat, e);
      }
      FileFrame(s, t, e);
    } else {
      assert e.clusterLow in Own(s.fat, e);
    }
  }

  lemma {:induction false} GatherAgree(a: Disk, b: Disk, cs: seq<nat>)
    requires forall k :: 0 <= k < |cs| ==> cs[k] < 512 && a[cs[k]] == b[cs[k]]
    ensures Gather(a, cs) == Gather(b, cs)
  {
    if cs != [] {
      GatherAgree(a, b, cs[1..]);
    }
  }

  lemma {:induction false} FramePath(a: Disk, b: Disk, dirs: set<nat>, p: seq<nat>)
    requires IsPath(a, p)
    requires forall k :: 0 <= k < |p| - 1 ==> p[k] < 512 && Tab(a, p[k]) == Tab(b, p[k])
    ensures IsPath(b, p)
  {
    forall k | 0 <= k < |p| - 1 ensures HasChild(b, p[k], p[k + 1]) {
      assert HasChild(a, p[k], p[k + 1]);
    }
  }

  lemma FrameReached(s: Fs, t: Fs, dirs: set<nat>)
    requires Inv(s, dirs) && Agrees(s, t, dirs)
    ensures Reached(t.disk, dirs)
  {
    forall d | d in dirs ensures Reachable(t.disk, d) {
      assert Reachable(s.disk, d);
      var p :| IsPath(s.disk, p) && p[|p| - 1] == d;
      forall k | 0 <= k < |p| - 1 ensures p[k] < 512 && Tab(s.disk, p[k]) == Tab(t.disk, p[k]) {
        PathInside(s, dirs, p, k);
        assert Used(s, dirs, p[k]);
      }
      FramePath(s.disk, t.disk, dirs, p);
    }
  }

  /** Changing only clusters that are not in use keeps the invariant and every node. */
  lemma Frame(s: Fs, t: Fs, dirs: set<nat>)
    requires Inv(s, dirs) && Agrees(s, t, dirs) && Forward(t.fat)
    ensures Inv(t, dirs) && Nodes(t, dirs) == Nodes(s, dirs)
    ensures forall l :: LiveAt(t.disk, dirs, l) <==> LiveAt(s.disk, dirs, l)
    ensures forall l :: LiveAt(s.disk, dirs, l) ==> At(t.disk, l) == At(s.disk, l)
    ensures forall c :: Used(t, dirs, c) <==> Used(s, dirs, c)
  {
    forall d | d in dirs ensures d < 512 && t.fat[d] == s.fat[d] && Tab(t.disk, d) == Tab(s.disk, d) {
      assert Used(s, dirs, d);
    }
    FrameLive(s, t, dirs);
    forall l | LiveAt(s.disk, dirs, l)
      ensures At(t.disk, l) == At(s.disk, l) && EntryOk(t, dirs, At(t.disk, l))
      ensures Own(t.fat, At(t.disk, l)) == Own(s.fat, At(s.disk, l))
      ensures NodeOf(t, At(t.disk, l)) == NodeOf(s, At(s.disk, l))
    {
      forall x: nat | x in Own(s.fat, At(s.disk, l)) ensures x < 512 && t.fat[x] == s.fat[x] && t.disk[x] == s.disk[x] {
        OwnedAgrees(s, t, dirs, l, x);
      }
      FrameEntry(s, t, dirs, At(s.disk, l));
    }
    assert forall l, c :: Owns(t, dirs, l, c) <==> Owns(s, dirs, l, c);
    FrameReached(s, t, dirs);
    FrameNodes(s, t, dirs);
  }

  lemma FrameLive(s: Fs, t: Fs, dirs: set<nat>)
    requires forall d :: d in dirs ==> d < 512 && Tab(t.disk, d) == Tab(s.disk, d)
    ensures forall l :: LiveAt(t.disk, dirs, l) <==> LiveAt(s.disk, dirs, l)
  {
  }

  lemma FrameNodes(s: Fs, t: Fs, dirs: set<nat>)
    requires forall l :: LiveAt(t.disk, dirs, l) <==> LiveAt(s.disk, dirs, l)
    requires forall l :: LiveAt(s.disk, dirs, l) ==> NodeOf(t, At(t.disk, l)) == NodeOf(s, At(s.disk, l))
    ensures Nodes(t, dirs) == Nodes(s, dirs)
  {
    assert Locs(t.disk, dirs) == Locs(s.disk, dirs);
    forall l | l in Locs(s.disk, dirs) ensures Nodes(t, dirs)[l] == Nodes(s, dirs)[l] {
      assert LiveAt(s.disk, dirs, l);
    }
  }
}
