/**
 * The directory tree on the disk: which clusters are directories, which entry owns which cluster,
 * and the invariant every reachable volume satisfies.
 */
module Tree {
  import opened Bytes
  import opened Layout
  import opened Chains
  import opened Volume

  /** A slot of a directory; slot 0, the directory's entry for itself, is never used as a location. */
  datatype Loc = Loc(dir: nat, slot: nat)

  /** What a user sees at a location. */
  datatype Node = DirNode(name: Name, cluster: nat) | FileNode(name: Name, ext: Ext, bytes: seq<byte>)

  // ---------------------------------------------------------------- directories

  predicate IsChild(e: Entry, x: nat) { e.Live() && e.attribute == ATTR_SUBDIRECTORY && e.clusterLow == x }

  ghost predicate HasChild(disk: Disk, d: nat, x: nat)
  {
    d < 512 && exists i :: 1 <= i < 64 && IsChild(Tab(disk, d)[i], x)
  }

  /** A path of directory clusters from the root. */
  ghost predicate IsPath(disk: Disk, p: seq<nat>)
  {
    && |p| > 0 && p[0] == ROOT_CLUSTER
    && forall k :: 0 <= k < |p| - 1 ==> HasChild(disk, p[k], p[k + 1])
  }

  ghost predicate Reachable(disk: Disk, d: nat)
  {
    exists p :: IsPath(disk, p) && p[|p| - 1] == d
  }

  /** The directory clusters of a disk: those reachable from the root. */
  ghost function Dirs(disk: Disk): set<nat>
  {
    set d | 0 <= d < 512 && Reachable(disk, d)
  }

  // ---------------------------------------------------------------- entries and what they own

  function At(disk: Disk, l: Loc): Entry
    requires l.dir < 512 && l.slot < 64
  {
    Tab(disk, l.dir)[l.slot]
  }

  predicate LiveAt(disk: Disk, dirs: set<nat>, l: Loc)
  {
    l.dir in dirs && l.dir < 512 && 1 <= l.slot < 64 && At(disk, l).Live()
  }

  function Locs(disk: Disk, dirs: set<nat>): set<Loc>
  {
    set d, i | d in dirs && 1 <= i < 64 && LiveAt(disk, dirs, Loc(d, i)) :: Loc(d, i)
  }

  function Chain(fat: Fat, e: Entry): seq<nat> { Walk(fat, e.clusterLow, Links(e.filesize)) }

  function Own(fat: Fat, e: Entry): set<nat>
  {
    if e.attribute != 0 then {e.clusterLow} else set x: nat | x in Chain(fat, e)
  }

  predicate Owns(s: Fs, dirs: set<nat>, l: Loc, c: nat)
  {
    LiveAt(s.disk, dirs, l) && c in Own(s.fat, At(s.disk, l))
  }

  ghost predicate Used(s: Fs, dirs: set<nat>, c: nat)
  {
    c in dirs || exists l :: Owns(s, dirs, l, c)
  }

  function Contents(s: Fs, e: Entry): seq<byte>
  {
    var g := Gather(s.disk, Chain(s.fat, e));
    if e.filesize <= |g| then g[..e.filesize] else g
  }

  function NodeOf(s: Fs, e: Entry): Node
  {
    if e.attribute != 0 then DirNode(e.name, e.clusterLow) else FileNode(e.name, e.ext, Contents(s, e))
  }

  /** The tree as a map from locations to nodes. */
  function Nodes(s: Fs, dirs: set<nat>): map<Loc, Node>
  {
    map l | l in Locs(s.disk, dirs) && l.dir < 512 && l.slot < 64 :: NodeOf(s, At(s.disk, l))
  }

  // ---------------------------------------------------------------- the invariant

  /** Slot 0 of the directory at cluster `d`: a live entry for the directory itself. */
  predicate SelfEntry(e: Entry, d: nat)
  {
    IsChild(e, d) && e.clusterHigh == 0 && e.ext == [0, 0, 0]
  }

  ghost predicate DirsOk(s: Fs, dirs: set<nat>)
  {
    && ROOT_CLUSTER in dirs
    && forall d :: d in dirs ==> 2 <= d < 512 && s.fat[d] == END_OF_FILE && SelfEntry(Tab(s.disk, d)[0], d)
  }

  /** A live entry is a directory's mirror of its own slot 0, or a file with a chain of the right length. */
  predicate EntryOk(s: Fs, dirs: set<nat>, e: Entry)
  {
    if e.attribute == ATTR_SUBDIRECTORY then
      3 <= e.clusterLow < 512 && e.clusterLow in dirs && Tab(s.disk, e.clusterLow)[0] == e
    else e.attribute == 0 && e.filesize > 0 && ChainOk(s.fat, e.clusterLow, Links(e.filesize))
  }

  ghost predicate EntriesOk(s: Fs, dirs: set<nat>)
  {
    forall l :: LiveAt(s.disk, dirs, l) ==> EntryOk(s, dirs, At(s.disk, l))
  }

  ghost predicate OneOwner(s: Fs, dirs: set<nat>)
  {
    forall l, m, c :: Owns(s, dirs, l, c) && Owns(s, dirs, m, c) ==> l == m
  }

  /** Two slots with one name and extension, neither of them a directory: `read` only ever sees the first. */
  predicate Clash(e: Entry, f: Entry)
  {
    !IsSubdirectory(e) && !IsSubdirectory(f) && e.name == f.name && e.ext == f.ext
  }

  /** A live file shares name and extension with no other slot of its directory, live or dead, but a directory's. */
  ghost predicate UniqueFiles(disk: Disk, dirs: set<nat>)
  {
    forall l, j :: LiveAt(disk, dirs, l) && 0 <= j < 64 && j != l.slot ==> !Clash(At(disk, l), Tab(disk, l.dir)[j])
  }

  ghost predicate Reached(disk: Disk, dirs: set<nat>)
  {
    forall d :: d in dirs ==> Reachable(disk, d)
  }

  ghost predicate Inv(s: Fs, dirs: set<nat>)
  {
    && Forward(s.fat)
    && DirsOk(s, dirs)
    && EntriesOk(s, dirs)
    && OneOwner(s, dirs)
    && UniqueFiles(s.disk, dirs)
    && Reached(s.disk, dirs)
  }

  /** No cluster is lost: every non-zero FAT entry from 3 on belongs to a directory or to a live entry. */
  ghost predicate NoLeak(s: Fs, dirs: set<nat>)
  {
    forall c :: 3 <= c < 512 && s.fat[c] != 0 ==> Used(s, dirs, c)
  }

  // ---------------------------------------------------------------- consequences

  lemma OwnedIsAllocated(s: Fs, dirs: set<nat>, l: Loc, c: nat)
    requires Inv(s, dirs) && Owns(s, dirs, l, c)
    ensures 3 <= c < 512 && s.fat[c] != 0
  {
    var e := At(s.disk, l);
    assert EntryOk(s, dirs, e);
    if e.attribute == 0 {
      ChainWalk(s.fat, e.clusterLow, Links(e.filesize));
    }
  }

  /** Everything in use is allocated. */
  lemma UsedIsAllocated(s: Fs, dirs: set<nat>, c: nat)
    requires Inv(s, dirs) && Used(s, dirs, c)
    ensures 2 <= c < 512 && s.fat[c] != 0
  {
    if c !in dirs {
      var l :| Owns(s, dirs, l, c);
      OwnedIsAllocated(s, dirs, l, c);
    }
  }

  lemma {:induction false} PathInside(s: Fs, dirs: set<nat>, p: seq<nat>, k: nat)
    requires Inv(s, dirs) && IsPath(s.disk, p) && k < |p|
    ensures p[k] in dirs
  {
    if k > 0 {
      PathInside(s, dirs, p, k - 1);
      assert HasChild(s.disk, p[k - 1], p[k - 1 + 1]);
      var i :| 1 <= i < 64 && IsChild(Tab(s.disk, p[k - 1])[i], p[k]);
      assert LiveAt(s.disk, dirs, Loc(p[k - 1], i));
    }
  }

  /** The directory set of the invariant is exactly what the root reaches. */
  lemma DirsUnique(s: Fs, dirs: set<nat>)
    requires Inv(s, dirs)
    ensures dirs == Dirs(s.disk)
  {
    forall d | Reachable(s.disk, d) ensures d in dirs {
      var p :| IsPath(s.disk, p) && p[|p| - 1] == d;
      PathInside(s, dirs, p, |p| - 1);
    }
  }

  /** Tree safety: every directory but the root is referenced by one live entry, and by no other. */
  lemma DirOwner(s: Fs, dirs: set<nat>, d: nat) returns (l: Loc)
    requires Inv(s, dirs) && d in dirs && d != ROOT_CLUSTER
    ensures LiveAt(s.disk, dirs, l) && IsChild(At(s.disk, l), d)
    ensures forall m :: Owns(s, dirs, m, d) <==> m == l
  {
    assert Reachable(s.disk, d);
    var p :| IsPath(s.disk, p) && p[|p| - 1] == d;
    var k := |p| - 2;
    PathInside(s, dirs, p, k);
    assert HasChild(s.disk, p[k], p[k + 1]);
    var i :| 1 <= i < 64 && IsChild(Tab(s.disk, p[k])[i], d);
    l := Loc(p[k], i);
    assert Owns(s, dirs, l, d);
  }

  /** A file's chain never runs through a directory. */
  lemma ChainAvoidsDirs(s: Fs, dirs: set<nat>, l: Loc, d: nat)
    requires Inv(s, dirs) && d in dirs && LiveAt(s.disk, dirs, l) && At(s.disk, l).attribute == 0
    ensures d !in Own(s.fat, At(s.disk, l))
  {
    if Owns(s, dirs, l, d) {
      OwnedIsAllocated(s, dirs, l, d);
      var _ := DirOwner(s, dirs, d);
    }
  }
}
