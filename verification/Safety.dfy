/** Safe volumes, and the writes a safe volume can lose or keep without anybody noticing. */
module Safety {
  import opened Layout
  import opened Chains
  import opened Volume
  import opened Tree
  import opened TreeSteps

  /** The cached FAT is the one on disk. */
  predicate Coherent(s: Fs) { s.fat == DecodeFat(s.disk[FAT_CLUSTER]) }

  /** The invariant of every state a run reaches, power cuts included. */
  ghost predicate Safe(s: Fs)
  {
    Signed(s.disk) && Coherent(s) && Inv(s, Dirs(s.disk))
  }

  /** The stronger invariant of runs without power cuts: no cluster is lost either. */
  ghost predicate Exact(s: Fs)
  {
    Safe(s) && NoLeak(s, Dirs(s.disk))
  }

  /** What a user sees. */
  ghost function View(s: Fs): map<Loc, Node> { Nodes(s, Dirs(s.disk)) }

  function After(s: Fs, o: Outcome): Fs { Fs(o.fat, Replay(s.disk, o.log)) }

  function ZeroFat(): Fat { seq(512, _ => 0) }

  /** Power up: the cached FAT starts as zeros and the file system is mounted. */
  function Reboot(disk: Disk): Fs { Mount(Fs(ZeroFat(), disk)) }

  /** Power is lost after the first `k` cluster writes of a call, and the machine starts again. */
  function Cut(s: Fs, o: Outcome, k: nat): Fs
    requires k <= |o.log|
  {
    Reboot(Replay(s.disk, o.log[..k]))
  }

  /** Mounting a coherent, signed volume changes nothing, whatever was cached before. */
  lemma MountSettled(s: Fs, cached: Fat)
    requires Signed(s.disk) && Coherent(s)
    ensures Mount(Fs(cached, s.disk)) == s
  {
  }

  lemma SafeFrom(s: Fs, dirs: set<nat>)
    requires Signed(s.disk) && Coherent(s) && Inv(s, dirs)
    ensures Safe(s) && Dirs(s.disk) == dirs && View(s) == Nodes(s, dirs)
    ensures NoLeak(s, dirs) ==> Exact(s)
  {
    hide DecodeTable, EncodeTable, DecodeFat, EncodeFat, Signature;
    DirsUnique(s, dirs);
  }

  lemma SafeFacts(s: Fs)
    requires Safe(s)
    ensures Signed(s.disk) && Coherent(s) && Forward(s.fat)
  {
    hide Signed, DecodeFat, DecodeTable, Dirs;
  }

  lemma FreeIsUnused(s: Fs, c: nat)
    requires Safe(s) && c < 512 && s.fat[c] == 0
    ensures !Used(s, Dirs(s.disk), c)
  {
    hide DecodeTable, DecodeFat, Dirs, Own, LiveAt;
    if Used(s, Dirs(s.disk), c) {
      UsedIsAllocated(s, Dirs(s.disk), c);
    }
  }

  // ---------------------------------------------------------------- quiet writes

  /** Everything allocated in `f` is the same in `g`, and `g` is well formed. */
  predicate Extends(f: Fat, g: Fat)
  {
    Forward(g) && forall c :: 0 <= c < 512 && f[c] != 0 ==> g[c] == f[c]
  }

  /** A write to a free cluster, or of a table that only allocates more. */
  predicate QuietWrite(s: Fs, w: DiskWrite)
  {
    if w.cluster == FAT_CLUSTER then Extends(s.fat, DecodeFat(w.data))
    else 3 <= w.cluster < 512 && s.fat[w.cluster] == 0
  }

  ghost predicate QuietDisk(s: Fs, d: Disk)
  {
    && d[0] == s.disk[0]
    && (forall c :: 2 <= c < 512 && s.fat[c] != 0 ==> d[c] == s.disk[c])
    && Extends(s.fat, DecodeFat(d[FAT_CLUSTER]))
  }

  lemma {:induction false} QuietReplay(s: Fs, log: seq<DiskWrite>)
    requires Coherent(s) && Forward(s.fat)
    requires forall k :: 0 <= k < |log| ==> QuietWrite(s, log[k])
    ensures QuietDisk(s, Replay(s.disk, log))
  {
    hide DecodeFat;
    if log != [] {
      QuietReplay(s, log[..|log| - 1]);
      assert QuietWrite(s, log[|log| - 1]);
    }
  }

  /** A disk that only saw quiet writes mounts to a safe volume that looks exactly the same. */
  lemma QuietState(s: Fs, d: Disk)
    requires Safe(s) && QuietDisk(s, d)
    ensures var t := Fs(DecodeFat(d[FAT_CLUSTER]), d);
            && Safe(t) && Dirs(d) == Dirs(s.disk) && View(t) == View(s) && Reboot(d) == t
            && (forall l :: LiveAt(t.disk, Dirs(s.disk), l) <==> LiveAt(s.disk, Dirs(s.disk), l))
            && (forall l :: LiveAt(s.disk, Dirs(s.disk), l) ==> At(t.disk, l) == At(s.disk, l))
            && (forall c :: Used(t, Dirs(s.disk), c) <==> Used(s, Dirs(s.disk), c))
  {
    hide DecodeTable, EncodeTable, DecodeFat, EncodeFat, Signature;
    var dirs := Dirs(s.disk);
    var t := Fs(DecodeFat(d[FAT_CLUSTER]), d);
    forall c: nat | c < 512 && Used(s, dirs, c) ensures t.fat[c] == s.fat[c] && t.disk[c] == s.disk[c] {
      UsedIsAllocated(s, dirs, c);
    }
    Frame(s, t, dirs);
    SafeFrom(t, dirs);
    MountSettled(t, ZeroFat());
  }
}
