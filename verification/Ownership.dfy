/** What the invariants say about a volume in its users' terms. */
module Ownership {
  import opened Layout
  import opened Chains
  import opened Volume
  import opened Tree
  import opened Safety
  import opened Runs
  import opened WriteProof
  import opened RoundTrips

  /** Exact ownership: every allocated cluster from 3 on belongs to exactly one live entry. */
  lemma ExactOwnership(s: Fs, c: nat) returns (l: Loc)
    requires Exact(s) && 3 <= c < 512 && s.fat[c] != 0
    ensures forall m :: Owns(s, Dirs(s.disk), m, c) <==> m == l
  {
    hide DecodeTable, DecodeFat, Dirs, Own, Signature;
    var dirs := Dirs(s.disk);
    assert Used(s, dirs, c);
    if c in dirs {
      l := DirOwner(s, dirs, c);
    } else {
      l :| Owns(s, dirs, l, c);
    }
  }

  lemma {:induction false} ChainLinks(fat: Fat, c: nat, n: nat, k: nat)
    requires ChainOk(fat, c, n) && k < n
    ensures |Walk(fat, c, n)| == n && Walk(fat, c, n)[k] < 512
    ensures fat[Walk(fat, c, n)[k]] == if k + 1 < n then Walk(fat, c, n)[k + 1] else END_OF_FILE
    decreases n
  {
    ChainWalk(fat, c, n);
    if k > 0 {
      ChainLinks(fat, fat[c], n - 1, k - 1);
    }
  }

  /**
   * A live file's chain has ceil(filesize / 2048) climbing links, each the FAT value of the one before, and
   * ends in end-of-file.
   */
  lemma FileChain(s: Fs, l: Loc, k: nat)
    requires Safe(s) && LiveAt(s.disk, Dirs(s.disk), l) && At(s.disk, l).attribute == 0
    requires k < Links(At(s.disk, l).filesize)
    ensures var e := At(s.disk, l); var cs := Chain(s.fat, e);
            && |cs| == Links(e.filesize) > 0 && cs[0] == e.clusterLow && 3 <= cs[k] < 512
            && s.fat[cs[k]] == (if k + 1 < |cs| then cs[k + 1] else END_OF_FILE)
            && (k + 1 < |cs| ==> cs[k] < cs[k + 1])
  {
    hide DecodeTable, DecodeFat, Dirs, Walk, Links;
    var e := At(s.disk, l);
    assert EntryOk(s, Dirs(s.disk), e);
    ChainWalk(s.fat, e.clusterLow, Links(e.filesize));
    ChainLinks(s.fat, e.clusterLow, Links(e.filesize), k);
  }

  /**
   * Tree safety: a directory other than the root has one live entry, in a directory of the tree, that
   * mirrors its own slot 0.
   */
  lemma OneParent(s: Fs, d: nat) returns (l: Loc)
    requires Safe(s) && d in Dirs(s.disk) && d != ROOT_CLUSTER
    ensures LiveAt(s.disk, Dirs(s.disk), l) && d < 512 && At(s.disk, l) == Tab(s.disk, d)[0]
    ensures forall m :: LiveAt(s.disk, Dirs(s.disk), m) && IsChild(At(s.disk, m), d) <==> m == l
  {
    hide DecodeTable, DecodeFat, Signature;
    var dirs := Dirs(s.disk);
    l := DirOwner(s, dirs, d);
    assert EntryOk(s, dirs, At(s.disk, l));
    assert forall m :: LiveAt(s.disk, dirs, m) && IsChild(At(s.disk, m), d) ==> Owns(s, dirs, m, d);
  }

  /**
   * Whatever was written, deleted or interrupted: no directory ever holds two live files with one name and
   * extension.
   */
  lemma UniqueFile(disk: Disk, run: seq<Event>, l: Loc, m: Loc)
    requires !Signed(disk) && PossibleRun(Reboot(disk), run) && l.dir == m.dir
    requires var t := Final(Reboot(disk), run);
             && LiveAt(t.disk, Dirs(t.disk), l) && At(t.disk, l).attribute == 0
             && LiveAt(t.disk, Dirs(t.disk), m) && At(t.disk, m).attribute == 0
    ensures var t := Final(Reboot(disk), run);
            l == m <==> At(t.disk, l).name == At(t.disk, m).name && At(t.disk, l).ext == At(t.disk, m).ext
  {
    hide DecodeTable, DecodeFat, Dirs, Signature, Reboot, Final, PossibleRun;
    ReachableSafe(disk, run);
  }

  /** An earlier slot, live or dead, is a directory's and bears the name and extension of slot `k`. */
  predicate Hidden(t: Table, k: nat)
    requires k < 64
  {
    exists i :: 0 <= i < k && IsSubdirectory(t[i]) && t[i].name == t[k].name && t[i].ext == t[k].ext
  }

  lemma FirstNamedOfLive(s: Fs, l: Loc)
    requires Safe(s) && LiveAt(s.disk, Dirs(s.disk), l) && At(s.disk, l).attribute == 0
    ensures var t := Tab(s.disk, l.dir); var f := FirstNamed(t, t[l.slot].name, t[l.slot].ext, 0);
            f.Some? && (IsSubdirectory(t[f.value]) <==> Hidden(t, l.slot)) && (Hidden(t, l.slot) <==> f.value != l.slot)
  {
    hide DecodeTable, DecodeFat, Dirs, Signature, FirstNamed;
    var t := Tab(s.disk, l.dir);
    var f := FirstNamed(t, t[l.slot].name, t[l.slot].ext, 0);
    assert f.Some? && f.value <= l.slot;
    if f.value != l.slot {
      assert !Clash(At(s.disk, l), t[f.value]);
    }
  }

  /**
   * What `read` does with a live file's name: a directory's entry in an earlier slot hides the file, and
   * otherwise a large enough buffer gets exactly the node's bytes.
   */
  lemma ReadReturnsNode(s: Fs, l: Loc, q: Request)
    requires Safe(s) && LiveAt(s.disk, Dirs(s.disk), l) && At(s.disk, l).attribute == 0
    requires q.parent == l.dir && q.name == At(s.disk, l).name && q.ext == At(s.disk, l).ext
    ensures ReadFits(s, q) && l in View(s)
    ensures var e, o := At(s.disk, l), Read(s, q);
            && o.code == (if Hidden(Tab(s.disk, l.dir), l.slot) then 1 else if q.size < e.filesize then -1 else 0)
            && (o.code == 0 ==> e.filesize <= |Gather(s.disk, o.clusters)|
                                && View(s)[l] == FileNode(q.name, q.ext, Gather(s.disk, o.clusters)[..e.filesize]))
  {
    hide DecodeTable, DecodeFat, Dirs, Walk, ReadWalk, Links, Signature, Gather, Hidden, FirstNamed;
    var e := At(s.disk, l);
    assert EntryOk(s, Dirs(s.disk), e);
    FirstNamedOfLive(s, l);
    LinksIsCeiling(e.filesize);
    ChainWalk(s.fat, e.clusterLow, Links(e.filesize));
    ChainReadWalk(s.fat, e.clusterLow, Links(e.filesize));
    assert LinkCount(e.filesize) == Links(e.filesize);
  }

  /**
   * A new directory is never refused for its name: the file stays in the tree, but one that `read` found
   * before is hidden exactly when the directory bears its name and took an earlier slot.
   */
  lemma MakeHides(s: Fs, r: Request, l: Loc, q: Request)
    requires StoresDirectory(s, r) && LiveAt(s.disk, Dirs(s.disk), l) && At(s.disk, l).attribute == 0
    requires q.parent == l.dir == r.parent && q.name == At(s.disk, l).name && q.ext == At(s.disk, l).ext
    ensures WriteFits(s, r)
    ensures var t := After(s, Write(s, r));
            && Safe(t) && l in View(s) && l in View(t) && View(t)[l] == View(s)[l]
            && (Read(s, q).code != 1 ==>
                  (Read(t, q).code == 1 <==> Slot(s, r) < l.slot && r.name == q.name && q.ext == [0, 0, 0]))
  {
    hide DecodeTable, EncodeTable, DecodeFat, EncodeFat, Signature, Inv, Dirs, Write, WriteFits, NodeOf, Free, Replay,
         FirstDead, Read, NewTable;
    MakeFits(s, r);
    StoreDirectory(s, r);
    ParentAfterMake(s, r);
    NewTableFacts(s, r);
    ReadReturnsNode(s, l, q);
    var t := After(s, Write(s, r));
    LiveInView(s, l);
    assert r.parent in Dirs(t.disk) && LiveAt(t.disk, Dirs(t.disk), l);
    LiveInView(t, l);
    ReadReturnsNode(t, l, q);
    HiddenBy(Tab(s.disk, l.dir), Slot(s, r), NewTable(s, r)[0], l.slot);
  }

  lemma LiveInView(s: Fs, l: Loc)
    ensures l in View(s) <==> LiveAt(s.disk, Dirs(s.disk), l)
  {
    hide DecodeTable, Dirs, NodeOf;
  }

  lemma HiddenBy(t: Table, j: nat, d: Entry, k: nat)
    requires j < 64 && k < 64 && j != k && !t[j].Live() && IsSubdirectory(d)
    ensures !Hidden(t, k) ==> (Hidden(t[j := d], k) <==> j < k && d.name == t[k].name && d.ext == t[k].ext)
  {
    var u: Table := t[j := d];
    assert u[j] == d && u[k] == t[k] && forall i :: 0 <= i < k && i != j ==> u[i] == t[i];
  }
}
