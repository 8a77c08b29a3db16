/**
 * The file system as a value: the FAT cached in memory, the clusters on disk, and for every driver
 * call the return code, the new cached FAT and the log of cluster writes in the order they reach the disk.
 */
module Volume {
  import opened Bytes
  import opened Layout
  import opened Chains
  import opened Wrappers

  type Disk = s: seq<Cluster> | |s| >= 512 witness NoClusters()

  function NoClusters(): (d: seq<Cluster>)
    ensures |d| == 512
  {
    var zero: Cluster := Zeros(2048);
    seq(512, _ => zero)
  }

  datatype Fs = Fs(fat: Fat, disk: Disk)

  datatype DiskWrite = DiskWrite(cluster: nat, data: Cluster)

  datatype Outcome = Outcome(code: int, fat: Fat, log: seq<DiskWrite>)

  datatype Request = Request(name: Name, ext: Ext, parent: u32, buf: seq<byte>, size: u32)

  // ---------------------------------------------------------------- the disk

  function Put(disk: Disk, w: DiskWrite): (r: Disk)
    ensures |r| == |disk|
  {
    if w.cluster < |disk| then disk[w.cluster := w.data] else disk
  }

  function Replay(disk: Disk, log: seq<DiskWrite>): (r: Disk)
    ensures |r| == |disk|
  {
    if log == [] then disk else Put(Replay(disk, log[..|log| - 1]), log[|log| - 1])
  }

  lemma ReplayAppend(disk: Disk, log: seq<DiskWrite>, w: DiskWrite)
    ensures Replay(disk, log + [w]) == Put(Replay(disk, log), w)
  {
    assert (log + [w])[..|log + [w]| - 1] == log;
  }

  lemma ThreeWrites(disk: Disk, a: DiskWrite, b: DiskWrite, c: DiskWrite)
    ensures Replay(disk, [a, b]) == Put(Put(disk, a), b)
    ensures Replay(disk, [a, b, c]) == Put(Put(Put(disk, a), b), c)
  {
    ReplayAppend(disk, [], a);
    ReplayAppend(disk, [a], b);
    ReplayAppend(disk, [a, b], c);
    assert [] + [a] == [a] && [a] + [b] == [a, b] && [a, b] + [c] == [a, b, c];
  }

  /** The directory table stored in cluster `d`. */
  function Tab(disk: Disk, d: nat): Table
    requires d < |disk|
  {
    DecodeTable(disk[d])
  }

  function TableWrite(d: nat, t: Table): DiskWrite { DiskWrite(d, EncodeTable(t)) }

  function FatWrite(f: Fat): DiskWrite { DiskWrite(FAT_CLUSTER, EncodeFat(f)) }

  /** The bytes of the listed clusters, one after the other. */
  function Gather(disk: Disk, cs: seq<nat>): (b: seq<byte>)
    ensures |b| == 2048 * |cs|
  {
    if cs == [] then [] else (if cs[0] < |disk| then disk[cs[0]] else Zeros(2048)) + Gather(disk, cs[1..])
  }

  lemma {:induction false} GatherAppend(disk: Disk, cs: seq<nat>, c: nat)
    requires c < |disk|
    ensures Gather(disk, cs + [c]) == Gather(disk, cs) + disk[c]
  {
    if cs == [] {
      assert cs + [c] == [c] && [c][1..] == [];
    } else {
      GatherAppend(disk, cs[1..], c);
      assert (cs + [c])[1..] == cs[1..] + [c];
    }
  }

  // ---------------------------------------------------------------- splitting a buffer into clusters

  /** The buffer padded with zeros to a whole number of clusters. */
  function Padded(b: seq<byte>): (p: seq<byte>)
    ensures |p| == CLUSTER_SIZE * Links(|b|)
    ensures p[..|b|] == b && forall k :: |b| <= k < |p| ==> p[k] == 0
  {
    b + Zeros(CLUSTER_SIZE * Links(|b|) - |b|)
  }

  function Block(b: seq<byte>, i: nat): Cluster
    requires i < Links(|b|)
  {
    Padded(b)[2048 * i..2048 * i + 2048]
  }

  /** Every block but the last is a plain slice of the buffer. */
  lemma FullBlock(b: seq<byte>, i: nat)
    requires 2048 * (i + 1) <= |b| && i < Links(|b|)
    ensures Block(b, i) == b[2048 * i..2048 * i + 2048]
  {
    assert Padded(b)[..|b|] == b;
    assert Block(b, i) == Padded(b)[..|b|][2048 * i..2048 * i + 2048];
  }

  lemma {:induction false} GatherBlocks(disk: Disk, cs: seq<nat>, b: seq<byte>, i: nat)
    requires |cs| == Links(|b|) && i <= |cs|
    requires forall k :: 0 <= k < |cs| ==> cs[k] < |disk| && disk[cs[k]] == Block(b, k)
    ensures Gather(disk, cs[i..]) == Padded(b)[2048 * i..]
    decreases |cs| - i
  {
    if i < |cs| {
      GatherBlocks(disk, cs, b, i + 1);
      assert cs[i..][1..] == cs[i + 1..];
      assert Padded(b)[2048 * i..] == Block(b, i) + Padded(b)[2048 * (i + 1)..];
    }
  }

  // ---------------------------------------------------------------- searching a directory

  /** First slot, live or not, with this name and extension. */
  function FirstNamed(t: Table, name: Name, ext: Ext, from: nat): (r: Option<nat>)
    ensures r.Some? ==> from <= r.value < 64 && t[r.value].name == name && t[r.value].ext == ext
    ensures forall i :: from <= i < 64 && (r.Some? ==> i < r.value) ==> !(t[i].name == name && t[i].ext == ext)
    decreases |t| - from
  {
    if from >= 64 then None
    else if t[from].name == name && t[from].ext == ext then Some(from)
    else FirstNamed(t, name, ext, from + 1)
  }

  /** First live slot with this name. */
  function FirstLiveNamed(t: Table, name: Name, from: nat): (r: Option<nat>)
    ensures r.Some? ==> from <= r.value < 64 && t[r.value].Live() && t[r.value].name == name
    ensures forall i :: from <= i < 64 && (r.Some? ==> i < r.value) ==> !(t[i].Live() && t[i].name == name)
    decreases |t| - from
  {
    if from >= 64 then None
    else if t[from].Live() && t[from].name == name then Some(from)
    else FirstLiveNamed(t, name, from + 1)
  }

  /** First slot that is not live; 64 when the table is full. */
  function FirstDead(t: Table, from: nat): (r: nat)
    ensures r <= 64 && (r < 64 ==> from <= r && !t[r].Live())
    ensures forall i :: from <= i < 64 && i < r ==> t[i].Live()
    decreases |t| - from
  {
    if from >= 64 then 64 else if !t[from].Live() then from else FirstDead(t, from + 1)
  }

  /** The name, extension and attribute bytes of an entry, as they lie in memory. */
  function NameBytes(e: Entry): (b: seq<byte>)
    ensures |b| == 12
  {
    e.name + e.ext + [e.attribute]
  }

  /** The name comparison of `delete`: the entry's C string is a prefix of the request's name and extension. */
  predicate PrefixMatch(e: Entry, name: Name, ext: Ext)
  {
    var n := StrLen(NameBytes(e));
    n <= 11 && (name + ext)[..n] == NameBytes(e)[..n]
  }

  /** The slots `delete` acts on: a live prefix match that is a directory, or a file with the same extension. */
  predicate Hit(e: Entry, name: Name, ext: Ext)
  {
    e.Live() && PrefixMatch(e, name, ext) && (e.attribute != 0 || e.ext == ext)
  }

  /** The name and extension bytes of an entry up to and including byte `j` are all non-zero. */
  predicate Unbroken(e: Entry, j: nat)
    requires j < 11
  {
    forall k :: 0 <= k <= j ==> (e.name + e.ext)[k] != 0
  }

  /** A name and extension agree with an entry's on every byte before the entry's first zero byte. */
  predicate Bears(e: Entry, name: Name, ext: Ext)
  {
    forall j :: 0 <= j < 11 && Unbroken(e, j) ==> (name + ext)[j] == (e.name + e.ext)[j]
  }

  /** As long as the entry's C string ends in its name bytes, the comparison is exactly that. */
  lemma HitIff(e: Entry, name: Name, ext: Ext)
    requires StrLen(NameBytes(e)) <= 11
    ensures Hit(e, name, ext) <==> e.Live() && Bears(e, name, ext) && (e.attribute != 0 || e.ext == ext)
  {
    var n := StrLen(NameBytes(e));
    assert NameBytes(e)[..11] == e.name + e.ext;
    assert forall k :: 0 <= k < 11 ==> NameBytes(e)[k] == (e.name + e.ext)[k];
    forall j | 0 <= j < 11 ensures Unbroken(e, j) <==> j < n {
      if j >= n { assert (e.name + e.ext)[n] == 0; }
    }
    if Bears(e, name, ext) {
      assert forall j :: 0 <= j < n ==> Unbroken(e, j);
      assert (name + ext)[..n] == NameBytes(e)[..n];
    }
    if (name + ext)[..n] == NameBytes(e)[..n] {
      assert forall j :: 0 <= j < n ==> (name + ext)[..n][j] == NameBytes(e)[..n][j];
    }
  }

  function FirstHit(t: Table, name: Name, ext: Ext, from: nat): (r: Option<nat>)
    ensures r.Some? ==> from <= r.value < 64 && Hit(t[r.value], name, ext)
    ensures forall i :: from <= i < 64 && (r.Some? ==> i < r.value) ==> !Hit(t[i], name, ext)
    decreases |t| - from
  {
    if from >= 64 then None
    else if Hit(t[from], name, ext) then Some(from)
    else FirstHit(t, name, ext, from + 1)
  }

  /** Slots 1 to 63 hold nothing live. */
  predicate EmptyDirectory(t: Table) { forall i :: 1 <= i < 64 ==> !t[i].Live() }

  // ---------------------------------------------------------------- write

  function FileEntry(before: Entry, name: Name, ext: Ext, head: u16, size: u32): Entry
  {
    before.(name := name, ext := ext, attribute := 0, userAttribute := UATTR_NOT_EMPTY, clusterLow := head,
          filesize := (before.filesize + size) % 0x1_0000_0000)
  }

  /** Rounds 0 to `i` - 1 of a file write: each stores a block, then the table that links it. */
  function FileLog(fat: Fat, cs: seq<nat>, b: seq<byte>, i: nat): seq<DiskWrite>
    requires i <= |cs| == Links(|b|) && Clusters(cs)
  {
    if i == 0 then []
    else FileLog(fat, cs, b, i - 1) + [DiskWrite(cs[i - 1], Block(b, i - 1)), FatWrite(Linked(fat, cs, i))]
  }

  lemma LoopStart(fat: Fat, disk: Disk, cs: seq<nat>, b: seq<byte>)
    requires |cs| == Links(|b|) && Clusters(cs)
    ensures Linked(fat, cs, 0) == fat && FileLog(fat, cs, b, 0) == [] && Replay(disk, []) == disk
  {
  }

  lemma FileLogStep(fat: Fat, disk: Disk, cs: seq<nat>, b: seq<byte>, i: nat)
    requires i < |cs| == Links(|b|) && Clusters(cs)
    ensures var head := FileLog(fat, cs, b, i);
            var data, table := DiskWrite(cs[i], Block(b, i)), FatWrite(Linked(fat, cs, i + 1));
            && FileLog(fat, cs, b, i + 1) == head + [data] + [table]
            && Replay(disk, FileLog(fat, cs, b, i + 1)) == Put(Put(Replay(disk, head), data), table)
  {
    hide EncodeFat, Block, Linked, Replay;
    var head, data, table := FileLog(fat, cs, b, i), DiskWrite(cs[i], Block(b, i)), FatWrite(Linked(fat, cs, i + 1));
    assert FileLog(fat, cs, b, i + 1) == head + [data] + [table];
    ReplayAppend(disk, head, data);
    ReplayAppend(disk, head + [data], table);
  }

  /** What `write` needs so that no scan runs off the table or the directory. */
  predicate WriteFits(s: Fs, r: Request)
  {
    && r.parent < 512
    && var fat := DecodeFat(s.disk[FAT_CLUSTER]);
       fat[r.parent] != 0 ==>
         && |Free(fat, 0)| >= 1
         && (r.size != 0 ==> r.size <= |r.buf|)
         && (r.size == 0 || FirstNamed(Tab(s.disk, r.parent), r.name, r.ext, 0).None? ==>
              && FirstDead(Tab(s.disk, r.parent), 0) < 64
              && (r.size != 0 ==> |Free(fat, 0)| >= Links(r.size) + 1))
  }

  /** A new directory: its cluster is taken, its table written, and last its entry published in the parent. */
  function MakeDirectory(s: Fs, r: Request, fat: Fat): Outcome
    requires r.parent < 512 && Free(fat, 0) != []
    requires FirstDead(Tab(s.disk, r.parent), 0) < 64
  {
    var t := Tab(s.disk, r.parent);
    var c := Free(fat, 0)[0];
    var table := InitTable(EmptyTable(), r.name, c);
    Outcome(0, fat[c := END_OF_FILE],
            [FatWrite(fat[c := END_OF_FILE]), TableWrite(c, table),
             TableWrite(r.parent, t[FirstDead(t, 0) := table[0]])])
  }

  /** A new file: its chain is stored and linked cluster by cluster, and last its entry published. */
  function MakeFile(s: Fs, r: Request, fat: Fat): Outcome
    requires r.parent < 512 && 0 < r.size <= |r.buf|
    requires |Free(fat, 0)| > Links(r.size)
    requires FirstDead(Tab(s.disk, r.parent), 0) < 64
  {
    var t := Tab(s.disk, r.parent);
    var k := FirstDead(t, 0);
    var n := Links(r.size);
    var cs := Free(fat, 0)[..n];
    Outcome(0, Linked(fat, cs, n),
            FileLog(fat, cs, r.buf[..r.size], n)
            + [TableWrite(r.parent, t[k := FileEntry(t[k], r.name, r.ext, cs[0], r.size)])])
  }

  function Write(s: Fs, r: Request): Outcome
    requires WriteFits(s, r)
  {
    var fat := DecodeFat(s.disk[FAT_CLUSTER]);
    if fat[r.parent] == 0 then Outcome(2, fat, [])
    else if r.size == 0 then MakeDirectory(s, r, fat)
    else if FirstNamed(Tab(s.disk, r.parent), r.name, r.ext, 0).Some? then Outcome(1, fat, [])
    else MakeFile(s, r, fat)
  }

  // ---------------------------------------------------------------- delete

  function Dead(e: Entry): Entry { e.(userAttribute := 0, undelete := 1) }

  /** The 16-bit cluster count `read` and `delete` work with. */
  function LinkCount(filesize: u32): (n: nat)
    ensures n < 0x1_0000 && (Links(filesize) - n) % 0x1_0000 == 0
    ensures n == Links(filesize) <==> filesize <= 2048 * 0xFFFF
  {
    Links(filesize) % 0x1_0000
  }

  predicate DeleteFits(s: Fs, r: Request)
  {
    && r.parent < |s.disk|
    && (forall i :: 1 <= i < 64 && Tab(s.disk, r.parent)[i].Live() ==>
        StrLen(NameBytes(Tab(s.disk, r.parent)[i])) <= 11)
    && match FirstHit(Tab(s.disk, r.parent), r.name, r.ext, 1)
       case None => true
       case Some(i) =>
         var e := Tab(s.disk, r.parent)[i];
         if e.attribute != 0 then e.clusterLow < 512
         else InBounds(s.fat, e.clusterLow, LinkCount(e.filesize))
  }

  lemma {:induction false} InBoundsClusters(fat: Fat, c: nat, n: nat)
    requires InBounds(fat, c, n)
    ensures |Walk(fat, c, n)| == n && Clusters(Walk(fat, c, n))
    decreases n
  {
    if n > 0 {
      InBoundsClusters(fat, fat[c] % 0x1_0000, n - 1);
    }
  }

  /** The clusters an entry gives back. */
  function Freed(s: Fs, e: Entry): (cs: seq<nat>)
    requires if e.attribute != 0 then e.clusterLow < 512 else InBounds(s.fat, e.clusterLow, LinkCount(e.filesize))
    ensures Clusters(cs)
  {
    if e.attribute != 0 then [e.clusterLow]
    else
      InBoundsClusters(s.fat, e.clusterLow, LinkCount(e.filesize));
      Walk(s.fat, e.clusterLow, LinkCount(e.filesize))
  }

  /** `delete` unpublishes the entry first and only then returns its clusters. */
  function Delete(s: Fs, r: Request): Outcome
    requires DeleteFits(s, r)
  {
    var t := Tab(s.disk, r.parent);
    match FirstHit(t, r.name, r.ext, 1)
    case None => Outcome(1, s.fat, [])
    case Some(i) =>
      if t[i].attribute != 0 && !EmptyDirectory(Tab(s.disk, t[i].clusterLow)) then Outcome(2, s.fat, [])
      else
        var fat := Zeroed(s.fat, Freed(s, t[i]));
        Outcome(0, fat, [TableWrite(r.parent, t[i := Dead(t[i])]), FatWrite(fat)])
  }

  // ---------------------------------------------------------------- read and read_directory

  /** The clusters `read` copies: at most `n`, stopping after a link that reads as end of chain. */
  function ReadWalk(fat: Fat, c: nat, n: nat): (r: seq<nat>)
    ensures |r| <= n && (n > 0 ==> |r| > 0 && r[0] == c)
    decreases n
  {
    if n == 0 then []
    else if c >= 512 || fat[c] % 0x1_0000 >= 0xFFF8 then [c]
    else [c] + ReadWalk(fat, fat[c] % 0x1_0000, n - 1)
  }

  lemma ReadWalkEnds(fat: Fat, c: nat, disk: Disk)
    ensures ReadWalk(fat, c, 0) == [] && Gather(disk, []) == []
  {
  }

  lemma ReadWalkStep(fat: Fat, c: nat, n: nat)
    requires n > 0 && c < 512
    ensures ReadWalk(fat, c, n)
         == [c] + if fat[c] % 0x1_0000 >= 0xFFF8 then [] else ReadWalk(fat, fat[c] % 0x1_0000, n - 1)
  {
  }

  lemma {:induction false} ChainReadWalk(fat: Fat, c: nat, n: nat)
    requires ChainOk(fat, c, n)
    ensures ReadWalk(fat, c, n) == Walk(fat, c, n)
    decreases n
  {
    hide ReadWalk, Walk;
    ChainWalk(fat, c, n);
    ReadWalkStep(fat, c, n);
    WalkStep(fat, c, n);
    if n > 1 {
      ChainReadWalk(fat, fat[c], n - 1);
    }
  }

  /** Asked for any number of links, `read` copies that many, or all of the chain if there are fewer. */
  lemma {:induction false} ChainReadCut(fat: Fat, c: nat, n: nat, m: nat)
    requires ChainOk(fat, c, n)
    ensures |Walk(fat, c, n)| == n && ReadWalk(fat, c, m) == Walk(fat, c, n)[..if m <= n then m else n]
    decreases n
  {
    hide ReadWalk, Walk;
    ChainWalk(fat, c, n);
    WalkStep(fat, c, n);
    if m == 0 {
      ReadWalkEnds(fat, c, NoClusters());
    } else {
      ReadWalkStep(fat, c, m);
      if n > 1 {
        ChainReadCut(fat, fat[c], n - 1, m - 1);
      }
    }
  }

  datatype ReadOutcome = ReadOutcome(code: int, clusters: seq<nat>)

  predicate IsSubdirectory(e: Entry) { e.attribute / 0x10 % 2 == 1 }

  function Read(s: Fs, r: Request): ReadOutcome
    requires r.parent < |s.disk|
  {
    var t := Tab(s.disk, r.parent);
    match FirstNamed(t, r.name, r.ext, 0)
    case None => ReadOutcome(2, [])
    case Some(i) =>
      if IsSubdirectory(t[i]) then ReadOutcome(1, [])
      else if r.size < t[i].filesize then ReadOutcome(-1, [])
      else ReadOutcome(0, ReadWalk(s.fat, t[i].clusterLow, LinkCount(t[i].filesize)))
  }

  predicate ReadFits(s: Fs, r: Request)
  {
    r.parent < |s.disk| && Clusters(Read(s, r).clusters)
  }

  datatype DirectoryOutcome = NoParent | NotFound | NotDirectory | Found(cluster: nat)
  {
    function Code(): int { match this case NotDirectory => 1 case Found(_) => 0 case _ => 2 }
  }

  function ReadDirectory(s: Fs, r: Request): DirectoryOutcome
    requires r.parent < 512
  {
    if s.fat[r.parent] == 0 then NoParent
    else
      var t := Tab(s.disk, r.parent);
      match FirstLiveNamed(t, r.name, 0)
      case None => NotFound
      case Some(i) => if t[i].attribute == ATTR_SUBDIRECTORY then Found(t[i].clusterLow) else NotDirectory
  }

  // ---------------------------------------------------------------- format and mount

  /** The boot signature byte by byte: 80 bytes of text padded with spaces, zeros, and "Ok" at the end. */
  function SignatureByte(i: nat): byte
  {
    match i
    case 0 => 67 case 1 => 111 case 2 => 117 case 3 => 114 case 4 => 115 case 5 => 101 case 16 => 68 case 17 => 101
    case 18 => 115 case 19 => 105
    case 20 => 103 case 21 => 110 case 22 => 101 case 23 => 100 case 25 => 98 case 26 => 121 case 32 => 76
    case 33 => 97 case 34 => 98 case 36 => 83
    case 37 => 105 case 38 => 115 case 39 => 116 case 40 => 101 case 41 => 114 case 43 => 73 case 44 => 84
    case 45 => 66 case 48 => 77 case 49 => 97
    case 50 => 100 case 51 => 101 case 53 => 119 case 54 => 105 case 55 => 116 case 56 => 104 case 58 => 60
    case 59 => 51 case 64 => 45 case 65 => 45
    case 66 => 45 case 67 => 45 case 68 => 45 case 69 => 45 case 70 => 45 case 71 => 45 case 72 => 45 case 73 => 45
    case 74 => 45 case 75 => 50
    case 76 => 48 case 77 => 50 case 78 => 52 case 79 => 10 case 510 => 79 case 511 => 107
    case _ => if i < 80 then 32 else 0
  }

  function Signature(): (b: seq<byte>)
    ensures |b| == 512
  {
    seq(512, i requires 0 <= i => SignatureByte(i))
  }

  predicate Signed(disk: Disk) { disk[0][..512] == Signature() }

  /** `create_fat32`: only the three reserved FAT entries are set, the cached rest is written out as it is. */
  function Format(s: Fs): Fs
  {
    var fat := s.fat[0 := CLUSTER_0_VALUE][1 := CLUSTER_1_VALUE][2 := END_OF_FILE];
    Fs(fat, s.disk[0 := Signature() + s.disk[0][512..]]
                  [1 := EncodeFat(fat)]
                  [2 := EncodeTable(InitTable(EmptyTable(), RootName(), 2))])
  }

  function RootName(): Name { [82, 79, 79, 84, 0, 0, 0, 0] }

  function Mount(s: Fs): Fs
  {
    if Signed(s.disk) then Fs(DecodeFat(s.disk[FAT_CLUSTER]), s.disk) else Format(s)
  }
}
