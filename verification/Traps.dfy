/**
 * The failing cases as runs: for each promise that holds only under a condition, calls from a blank disk
 * that are all allowed and end where the promise fails.
 */
module Traps {
  import opened Wrappers
  import opened Bytes
  import opened Layout
  import opened Chains
  import opened Volume
  import opened Tree
  import opened Safety
  import opened WriteProof
  import opened DeleteProof
  import opened Runs
  import opened RoundTrips
  import opened DeleteTargets
  import opened Ownership

  // ---------------------------------------------------------------- a fresh volume and its first file

  predicate RootTable(t: Table)
  {
    && t[0].Live() && IsSubdirectory(t[0]) && t[0].name == RootName() && t[0].ext == [0, 0, 0]
    && t[0].attribute == ATTR_SUBDIRECTORY && t[0].clusterLow == 2
    && forall i :: 1 <= i < 64 ==> t[i] == EMPTY_ENTRY
  }

  ghost predicate Fresh(s: Fs)
  {
    Safe(s) && 2 in Dirs(s.disk) && |Free(s.fat, 0)| == 509 && View(s) == map[] && RootTable(Tab(s.disk, 2))
  }

  lemma BlankIsFresh(disk: Disk)
    requires !Signed(disk)
    ensures Fresh(Reboot(disk))
  {
    hide DecodeTable, EncodeTable, DecodeFat, EncodeFat, Signature, Format, Dirs, Free, FirstDead, FirstNamed;
    FormattedDisk(disk);
    FormatExact(disk);
    FreshRoot(disk, Request(RootName(), [0, 0, 0], 2, [], 0));
    assert 2 in Dirs(Reboot(disk).disk);
    var t := InitTable(EmptyTable(), RootName(), 2);
    forall i | 1 <= i < 64 ensures t[i] == EMPTY_ENTRY {
      assert t[i] == t[1..][i - 1];
    }
  }

  /** A file for the root of a fresh volume that is small enough and not refused. */
  predicate FitsFresh(r: Request)
  {
    r.parent == 2 && 0 < r.size <= |r.buf| && Links(r.size) <= 508 && !InFreshRoot(r)
  }

  /** The table of the root when slot 1 was filled with `e`. */
  lemma SlotsAfterFirst(t: Table, e: Entry, q: Request)
    requires RootTable(t) && !InFreshRoot(q) && (e.name != q.name || e.ext != q.ext)
    ensures FirstNamed(t[1 := e], q.name, q.ext, 0).None?
    ensures FirstDead(t[1 := e], 0) == if e.Live() then 2 else 1
    ensures t[1 := e][2].filesize == 0
  {
    hide FirstNamed, FirstDead;
    var u: Table := t[1 := e];
    assert u[0] == t[0] && u[1] == e && forall i :: 2 <= i < 64 ==> u[i] == EMPTY_ENTRY;
    assert !u[2].Live();
    var k := FirstDead(u, 0);
  }

  lemma FirstFile(s: Fs, r: Request)
    requires Fresh(s) && FitsFresh(r)
    ensures StoresFile(s, r) && FreshSlot(s, r) && Slot(s, r) == 1 && Possible(s, Done(WriteCall(r)))
  {
    hide DecodeTable, DecodeFat, EncodeFat, EncodeTable, Signature, Inv, Dirs, Free, FirstDead, FirstNamed, Links,
         InFreshRoot, View;
    var t := Tab(s.disk, 2);
    assert t[1 := EMPTY_ENTRY] == t;
    NewName(r);
    SlotsAfterFirst(t, EMPTY_ENTRY, r);
    FreshKeepsCount(s, r);
  }

  lemma NewName(r: Request)
    requires !InFreshRoot(r)
    ensures EMPTY_ENTRY.name != r.name || EMPTY_ENTRY.ext != r.ext
  {
  }

  /** A file write takes the first free clusters and leaves the others free. */
  lemma RoomLeft(s: Fs, r: Request)
    requires StoresFile(s, r)
    ensures WriteFits(s, r) && |Free(After(s, Write(s, r)).fat, 0)| == |Free(s.fat, 0)| - Links(r.size)
  {
    hide DecodeTable, EncodeTable, DecodeFat, EncodeFat, Safe, Dirs, Free, FileLog, Linked, Replay, Write, WriteFits,
         NewFile, Slot, Duplicate, Links;
    ParentAfterStore(s, r);
    ScansFollowFreeList(s.fat, Links(r.size), Links(r.size));
  }

  lemma RootIsDirectory(s: Fs)
    requires Safe(s)
    ensures 2 in Dirs(s.disk) && s.fat[2] != 0
  {
    hide DecodeTable, DecodeFat, Dirs, Signature;
  }

  /** The volume with one file, in slot 1 of its root. */
  lemma AfterFirst(s: Fs, r: Request, t: Fs)
    requires Fresh(s) && FitsFresh(r) && Stored(s, r, t)
    ensures Slot(s, r) == 1 && Safe(t) && |Free(t.fat, 0)| == 509 - Links(r.size)
    ensures Tab(t.disk, 2) == Tab(s.disk, 2)[1 := NewFile(s, r)]
    ensures View(t) == map[Loc(2, 1) := FileNode(r.name, r.ext, r.buf[..r.size])]
  {
    hide DecodeTable, EncodeTable, DecodeFat, EncodeFat, Signature, Dirs, Free, FirstNamed, FirstDead, Links, Inv,
         Write, WriteFits, NewFile, StoredBytes, Nodes, Replay, InFreshRoot, Signed;
    FirstFile(s, r);
    FreshBytes(s, r);
    StoreFile(s, r);
    RoomLeft(s, r);
  }

  /** The volume with that file deleted again: only the dead entry stays behind. */
  lemma AfterDelete(s: Fs, r: Request, t: Fs, u: Fs)
    requires Fresh(s) && FitsFresh(r) && Stored(s, r, t)
    requires DeleteFits(t, r) && u == After(t, Delete(t, r))
    ensures Slot(s, r) == 1 && Possible(t, Done(DeleteCall(r))) && Removes(t, r) && Target(t, r) == Some(1)
    ensures Safe(u) && u.fat == s.fat && View(u) == map[]
    ensures Tab(u.disk, 2) == Tab(s.disk, 2)[1 := Dead(NewFile(s, r))]
  {
    hide DecodeTable, EncodeTable, DecodeFat, EncodeFat, Signature, Dirs, Free, FirstNamed, FirstDead, FirstHit, Links,
         Inv, Write, WriteFits, NewFile, StoredBytes, Nodes, Replay, InFreshRoot, Delete, DeleteFits, Hit, Recorded;
    AfterFirst(s, r, t);
    FirstFile(s, r);
    RootIsDirectory(t);
    FreshKeepsCount(s, r);
    TargetAfterStore(s, r);
    DeleteUndoesWrite(s, r, t, r);
    DeleteCases(t, r);
    DeleteRefines(t, r);
    NewFileFields(s, r);
    StaleDelete(s, r, t, r);
    DeletedEntryStays(t, r);
  }

  // ---------------------------------------------------------------- the prefix trap

  function NamedA(): Name { [97, 0, 0, 0, 0, 0, 0, 0] }

  function NamedAB(): Name { [97, 98, 0, 0, 0, 0, 0, 0] }

  /** A write of the whole buffer into the root, without an extension. */
  function IntoRoot(name: Name, b: seq<byte>): Request
    requires |b| < 0x1_0000_0000
  {
    Request(name, [0, 0, 0], 2, b, |b|)
  }

  /** A second file goes to slot 2. */
  lemma SecondFile(s: Fs, r: Request, t: Fs, q: Request)
    requires Fresh(s) && FitsFresh(r) && Stored(s, r, t) && FitsFresh(q)
    requires Links(r.size) + Links(q.size) <= 508 && (q.name != r.name || q.ext != r.ext)
    ensures StoresFile(t, q) && FreshSlot(t, q) && Slot(t, q) == 2 && Possible(t, Done(WriteCall(q)))
  {
    hide DecodeTable, EncodeTable, DecodeFat, EncodeFat, Signature, Dirs, Free, FirstNamed, FirstDead, Links, Inv,
         Write, WriteFits, NewFile, View, Replay, InFreshRoot, Signed;
    AfterFirst(s, r, t);
    RootIsDirectory(t);
    NewFileFields(s, r);
    SlotsAfterFirst(Tab(s.disk, 2), NewFile(s, r), q);
    FreshKeepsCount(t, q);
    StoreFits(t, q);
  }

  lemma AfterSecond(s: Fs, r: Request, t: Fs, q: Request, u: Fs)
    requires Fresh(s) && FitsFresh(r) && Stored(s, r, t) && FitsFresh(q)
    requires Links(r.size) + Links(q.size) <= 508 && (q.name != r.name || q.ext != r.ext)
    requires Stored(t, q, u)
    ensures Safe(u)
    ensures View(u) == map[Loc(2, 1) := FileNode(r.name, r.ext, r.buf[..r.size]),
                           Loc(2, 2) := FileNode(q.name, q.ext, q.buf[..q.size])]
    ensures Tab(u.disk, 2)[0] == Tab(s.disk, 2)[0] && Tab(u.disk, 2)[1] == NewFile(s, r)
  {
    hide DecodeTable, EncodeTable, DecodeFat, EncodeFat, Signature, Dirs, Free, FirstNamed, FirstDead, Links, Inv,
         Write, WriteFits, NewFile, StoredBytes, View, Replay, InFreshRoot, Signed, Safe, Fresh, Duplicate, Possible;
    AfterFirst(s, r, t);
    SecondFile(s, r, t, q);
    FreshBytes(t, q);
    StoreFile(t, q);
  }

  lemma TwoSteps(s: Fs, a: Event, b: Event)
    requires Possible(s, a) && Possible(Next(s, a), b)
    ensures PossibleRun(s, [a, b]) && Final(s, [a, b]) == Next(Next(s, a), b)
  {
    hide Possible, Next;
    RunThen(s, [], a);
    RunThen(s, [a], b);
    assert [] + [a] == [a] && [a] + [b] == [a, b];
  }

  /** An entry "a" without extension is what `delete` of "ab" acts on. */
  lemma PrefixHits(e: Entry)
    requires e.Live() && e.attribute == 0 && e.name == NamedA() && e.ext == [0, 0, 0]
    ensures Hit(e, NamedAB(), [0, 0, 0])
  {
    assert NameBytes(e)[0] == 97 && NameBytes(e)[1] == 0;
    assert StrLen(NameBytes(e)) == 1 by {
      assert NameBytes(e)[1..][0] == 0;
    }
  }

  /**
   * The file that goes need not be the one named: with "a" and then "ab" stored in the root of a fresh
   * volume, deleting "ab" succeeds, removes "a" and leaves "ab".
   */
  lemma PrefixTrap(disk: Disk, b1: seq<byte>, b2: seq<byte>)
    requires !Signed(disk) && 0 < |b1| < 0x1_0000_0000 && 0 < |b2| < 0x1_0000_0000 && Links(|b1|) + Links(|b2|) <= 508
    ensures var a, ab := IntoRoot(NamedA(), b1), IntoRoot(NamedAB(), b2);
            var run := [Done(WriteCall(a)), Done(WriteCall(ab))];
            && PossibleRun(Reboot(disk), run)
            && var s := Final(Reboot(disk), run);
               && Possible(s, Done(DeleteCall(ab))) && Delete(s, ab).code == 0
               && View(s) == map[Loc(2, 1) := FileNode(NamedA(), [0, 0, 0], b1),
                                 Loc(2, 2) := FileNode(NamedAB(), [0, 0, 0], b2)]
               && View(After(s, Delete(s, ab))) == map[Loc(2, 2) := FileNode(NamedAB(), [0, 0, 0], b2)]
  {
    hide DecodeTable, EncodeTable, DecodeFat, EncodeFat, Signature, Reboot, Dirs, Free, FirstNamed, FirstDead,
         FirstHit, Links, Inv, Write, WriteFits, NewFile, StoredBytes, Nodes, Replay, Delete, DeleteFits, Hit, Fresh,
         PossibleRun, Final;
    var s0, a, ab := Reboot(disk), IntoRoot(NamedA(), b1), IntoRoot(NamedAB(), b2);
    BlankIsFresh(disk);
    FirstFile(s0, a);
    var s1 := After(s0, Write(s0, a));
    SecondFile(s0, a, s1, ab);
    var s2 := After(s1, Write(s1, ab));
    AfterSecond(s0, a, s1, ab, s2);
    TwoSteps(s0, Done(WriteCall(a)), Done(WriteCall(ab)));
    assert b1[..|b1|] == b1 && b2[..|b2|] == b2;
    NewFileFields(s0, a);
    PrefixHits(Tab(s2.disk, 2)[1]);
    RootIsDirectory(s2);
    DeleteAlwaysFits(s2, ab);
    DeleteCases(s2, ab);
    DeleteRefines(s2, ab);
  }

  // ---------------------------------------------------------------- dead entries

  /** A file is written and deleted again. */
  function Coming(r: Request): seq<Event> { [Done(WriteCall(r)), Done(DeleteCall(r))] }

  lemma ComeAndGone(disk: Disk, r: Request)
    requires !Signed(disk) && FitsFresh(r)
    ensures PossibleRun(Reboot(disk), Coming(r)) && Fresh(Reboot(disk)) && StoresFile(Reboot(disk), r)
    ensures var s0, s := Reboot(disk), Final(Reboot(disk), Coming(r));
            && Safe(s) && s.fat == s0.fat && View(s) == map[] && 2 in Dirs(s.disk) && s.fat[2] != 0
            && Tab(s.disk, 2) == Tab(s0.disk, 2)[1 := Dead(NewFile(s0, r))] && NewFile(s0, r).filesize == r.size
  {
    hide DecodeTable, EncodeTable, DecodeFat, EncodeFat, Signature, Reboot, Dirs, Free, Links, Inv, Write, WriteFits,
         NewFile, Nodes, Replay, Delete, DeleteFits, Fresh, PossibleRun, Final, InFreshRoot, Slot, Recorded;
    var s0 := Reboot(disk);
    BlankIsFresh(disk);
    FirstFile(s0, r);
    var s1 := After(s0, Write(s0, r));
    AfterFirst(s0, r, s1);
    RootIsDirectory(s1);
    DeleteAlwaysFits(s1, r);
    var s2 := After(s1, Delete(s1, r));
    AfterDelete(s0, r, s1, s2);
    TwoSteps(s0, Done(WriteCall(r)), Done(DeleteCall(r)));
    RootIsDirectory(s2);
    NewFileFields(s0, r);
    FreshKeepsCount(s0, r);
  }

  /** Sizes of files that fit a fresh volume never wrap. */
  lemma SmallSizes(m: nat, n: nat)
    requires Links(m) <= 508 && 0 < n && Links(n) <= 508
    ensures m + n < 0x20_0000 && LinkCount(m + n) == Links(m + n) >= Links(n)
    ensures m > 0 && n % 2048 == 0 ==> Links(m + n) > Links(n)
  {
    LinksIsCeiling(m);
    LinksIsCeiling(n);
    LinksIsCeiling(m + n);
  }

  /**
   * The size of a deleted file counts for the next one: after a file was written and deleted, a file of
   * another name is stored without complaint, but the volume is safe afterwards, and `delete` of that file
   * stays inside the FAT, exactly when both sizes together need no more clusters than the new file took. A
   * file of whole clusters never passes.
   */
  lemma StaleTrap(disk: Disk, r: Request, q: Request)
    requires !Signed(disk) && FitsFresh(r) && FitsFresh(q) && (q.name != r.name || q.ext != r.ext)
    ensures PossibleRun(Reboot(disk), Coming(r))
    ensures var s := Final(Reboot(disk), Coming(r));
            && Fits(s, WriteCall(q)) && Write(s, q).code == 0
            && var t := After(s, Write(s, q));
               && (Safe(t) <==> Links(r.size + q.size) == Links(q.size))
               && (DeleteFits(t, q) <==> Links(r.size + q.size) == Links(q.size))
               && (q.size % 2048 == 0 ==> !Safe(t) && !DeleteFits(t, q))
  {
    hide DecodeTable, EncodeTable, DecodeFat, EncodeFat, Signature, Reboot, Dirs, Free, FirstNamed, FirstDead, FirstHit,
         Links, Inv, Write, WriteFits, NewFile, View, Replay, DeleteFits, PossibleRun, Final, InFreshRoot, Hit,
         LinkCount;
    ComeAndGone(disk, r);
    var s0, s := Reboot(disk), Final(Reboot(disk), Coming(r));
    NewFileFields(s0, r);
    SlotsAfterFirst(Tab(s0.disk, 2), Dead(NewFile(s0, r)), q);
    SafeFacts(s);
    assert StoresFile(s, q) && Slot(s, q) == 1;
    SmallSizes(r.size, q.size);
    assert Recorded(s, q) == r.size + q.size;
    StoreSafeIff(s, q);
    FileCode(s, q);
    TargetAfterStore(s, q);
    StaleDelete(s, q, After(s, Write(s, q)), q);
  }

  /** A deleted file can still be read, and that runs off the FAT exactly when it had more than two clusters. */
  lemma ReadTrap(disk: Disk, r: Request, q: Request)
    requires !Signed(disk) && FitsFresh(r) && SameName(q, r) && q.size >= r.size
    ensures PossibleRun(Reboot(disk), Coming(r))
    ensures var s := Final(Reboot(disk), Coming(r));
            View(s) == map[] && Read(s, q).code == 0 && (ReadFits(s, q) <==> Links(r.size) <= 2)
  {
    hide DecodeTable, EncodeTable, DecodeFat, EncodeFat, Signature, Reboot, Dirs, Free, FirstNamed, FirstDead,
         Links, Inv, Write, WriteFits, NewFile, View, Replay, PossibleRun, Final, InFreshRoot, ReadWalk;
    ComeAndGone(disk, r);
    var s0, s := Reboot(disk), Final(Reboot(disk), Coming(r));
    FirstFile(s0, r);
    NewFileIsFirst(s0, r);
    NewFileFields(s0, r);
    SafeFacts(s);
    StillFirst(Tab(s0.disk, 2)[1 := NewFile(s0, r)], 1, q);
    assert Tab(s.disk, 2) == Tab(s0.disk, 2)[1 := NewFile(s0, r)][1 := Dead(NewFile(s0, r))];
    LinksIsCeiling(r.size);
    SafeFacts(s0);
    TakenFacts(s0, r);
    LinksIsCeiling(0);
    SmallSizes(0, r.size);
    StaleWalk(s.fat, NewFile(s0, r).clusterLow, LinkCount(r.size));
  }

  // ---------------------------------------------------------------- directories under names in use

  /** A `mkdir` call in the root. */
  function Mkdir(name: Name): Request { Request(name, [0, 0, 0], 2, [], 0) }

  lemma DeadSlots(t: Table, e: Entry)
    requires RootTable(t)
    ensures FirstDead(t, 0) == 1 && (e.Live() ==> FirstDead(t[1 := e], 0) == 2)
  {
    hide FirstDead;
    var u: Table := t[1 := e];
    assert u[0] == t[0] && u[1] == e && !t[1].Live() && !u[2].Live();
    var j, k := FirstDead(t, 0), FirstDead(u, 0);
  }

  ghost predicate Made(s: Fs, r: Request, t: Fs)
  {
    StoresDirectory(s, r) && WriteFits(s, r) && t == After(s, Write(s, r))
  }

  lemma MakePossible(s: Fs, r: Request)
    requires StoresDirectory(s, r)
    ensures Possible(s, Done(WriteCall(r))) && Made(s, r, Next(s, Done(WriteCall(r))))
  {
    hide DecodeTable, EncodeTable, DecodeFat, EncodeFat, Signature, Dirs, Free, FirstDead, Inv, Write;
    MakeFits(s, r);
  }

  /** What `mkdir` leaves: one more node and directory, and one free cluster fewer. */
  lemma AfterMake(s: Fs, r: Request, t: Fs)
    requires Made(s, r, t)
    ensures Safe(t) && |Free(t.fat, 0)| == |Free(s.fat, 0)| - 1 && Free(s.fat, 0)[0] in Dirs(t.disk) - Dirs(s.disk)
    ensures View(t) == View(s)[Loc(r.parent, Slot(s, r)) := DirNode(r.name, Free(s.fat, 0)[0])]
    ensures Tab(t.disk, r.parent) == Tab(s.disk, r.parent)[Slot(s, r) := NewTable(s, r)[0]]
    ensures IsChild(NewTable(s, r)[0], Free(s.fat, 0)[0]) && NewTable(s, r)[0].name == r.name
  {
    hide DecodeTable, EncodeTable, DecodeFat, EncodeFat, Signature, Dirs, Free, FirstDead, Inv, Write, WriteFits, View,
         NewTable, Safe, Replay;
    MakeFits(s, r);
    StoreDirectory(s, r);
    ParentAfterMake(s, r);
    NewTableFacts(s, r);
    FinalDirectory(s, r);
    FillFirst(s.fat, 0, END_OF_FILE);
  }

  lemma LookupSecond(s: Fs, q: Request, e: Entry, f: Entry, t: Table)
    requires RootTable(t) && q.parent == 2 && s.fat[2] != 0 && Tab(s.disk, 2) == t[1 := e][2 := f]
    requires e.name == f.name == q.name && IsChild(e, e.clusterLow)
    ensures ReadDirectory(s, q) == Found(if q.name == RootName() then 2 else e.clusterLow)
  {
    hide DecodeTable, FirstLiveNamed;
    var u := Tab(s.disk, 2);
    assert u[0] == t[0] && u[1] == e;
    var k := FirstLiveNamed(u, q.name, 0);
  }

  /**
   * Directories are never refused as duplicates: made twice under one name, both are in the tree, but only
   * the first is ever found; under the root's own name, not even that one.
   */
  lemma MakeTrap(disk: Disk, name: Name)
    requires !Signed(disk)
    ensures var run := [Done(WriteCall(Mkdir(name))), Done(WriteCall(Mkdir(name)))];
            && PossibleRun(Reboot(disk), run)
            && var s := Final(Reboot(disk), run);
               && Loc(2, 1) in View(s) && Loc(2, 2) in View(s)
               && var first, second := View(s)[Loc(2, 1)], View(s)[Loc(2, 2)];
                  && first.DirNode? && second.DirNode? && first.name == second.name == name
                  && second.cluster != first.cluster && second.cluster != 2
                  && ReadDirectory(s, Mkdir(name)) == Found(if name == RootName() then 2 else first.cluster)
                  && ReadDirectory(s, Mkdir(name)).Code() == 0
  {
    hide DecodeTable, EncodeTable, DecodeFat, EncodeFat, Signature, Dirs, Free, FirstDead, Inv, Write, WriteFits, View,
         NewTable, Safe, Replay, Reboot, Possible, Made, Final, PossibleRun;
    var s0, m := Reboot(disk), Mkdir(name);
    var a := Done(WriteCall(m));
    BlankIsFresh(disk);
    DeadSlots(Tab(s0.disk, 2), EMPTY_ENTRY);
    MakePossible(s0, m);
    var s1 := Next(s0, a);
    MakeTwice(s0, m, s1);
    var s2 := Next(s1, a);
    TwoSteps(s0, a, a);
  }

  lemma MakeTwice(s0: Fs, m: Request, s1: Fs)
    requires Fresh(s0) && Made(s0, m, s1) && m == Mkdir(m.name)
    ensures Possible(s1, Done(WriteCall(m)))
    ensures var s := Next(s1, Done(WriteCall(m)));
            && Loc(2, 1) in View(s) && Loc(2, 2) in View(s)
            && var first, second := View(s)[Loc(2, 1)], View(s)[Loc(2, 2)];
               && first.DirNode? && second.DirNode? && first.name == second.name == m.name
               && second.cluster != first.cluster && second.cluster != 2
               && ReadDirectory(s, m) == Found(if m.name == RootName() then 2 else first.cluster)
  {
    hide DecodeTable, EncodeTable, DecodeFat, EncodeFat, Signature, Dirs, Free, FirstDead, Inv, Write, WriteFits, View,
         NewTable, Safe, Replay, Possible;
    var t := Tab(s0.disk, 2);
    AfterMake(s0, m, s1);
    DeadSlots(t, NewTable(s0, m)[0]);
    RootIsDirectory(s1);
    assert StoresDirectory(s1, m);
    MakePossible(s1, m);
    var s2 := Next(s1, Done(WriteCall(m)));
    AfterMake(s1, m, s2);
    RootIsDirectory(s2);
    LookupSecond(s2, m, NewTable(s0, m)[0], NewTable(s1, m)[0], t);
  }

  /** Two files, and then the first of them deleted: slot 1 is dead, slot 2 holds the second file. */
  lemma FirstOfTwoGone(s0: Fs, x: Request, s1: Fs, f: Request, s2: Fs)
    requires Fresh(s0) && FitsFresh(x) && Stored(s0, x, s1) && FitsFresh(f) && Stored(s1, f, s2)
    requires Links(x.size) + Links(f.size) <= 508 && (f.name != x.name || f.ext != x.ext)
    ensures Possible(s2, Done(DeleteCall(x)))
    ensures var s := Next(s2, Done(DeleteCall(x)));
            && Safe(s) && Free(s.fat, 0) != [] && Tab(s.disk, 2)[0] == Tab(s0.disk, 2)[0]
            && !Tab(s.disk, 2)[1].Live() && Tab(s.disk, 2)[1].attribute == 0
            && View(s) == map[Loc(2, 2) := FileNode(f.name, f.ext, f.buf[..f.size])]
  {
    hide DecodeTable, EncodeTable, DecodeFat, EncodeFat, Signature, Dirs, Free, FirstNamed, FirstDead, FirstHit, Links,
         Inv, Write, WriteFits, NewFile, Nodes, Replay, InFreshRoot, Delete, DeleteFits, Hit, Recorded, Fresh, Signed;
    AfterSecond(s0, x, s1, f, s2);
    AfterFirst(s0, x, s1);
    RootIsDirectory(s2);
    NewFileFields(s0, x);
    FileHitsItself(NewFile(s0, x));
    FirstHitIs(Tab(s2.disk, 2), 1, x.name, x.ext);
    DeleteAlwaysFits(s2, x);
    DeleteCases(s2, x);
    DeleteRefines(s2, x);
    DeletedEntryStays(s2, x);
    RoomAfterDelete(s2, x);
  }

  lemma RoomAfterDelete(s: Fs, r: Request)
    requires Removes(s, r) && At(s.disk, Victim(s, r)).attribute == 0
    ensures DeleteFits(s, r) && Free(After(s, Delete(s, r)).fat, 0) != []
  {
    hide DecodeTable, EncodeTable, DecodeFat, EncodeFat, Signature, Dirs, Free, Inv, Delete, DeleteFits, Zeroed, Freed,
         FirstHit;
    DeleteLog(s, r);
    HeadIsFreed(s, Victim(s, r));
    var e := At(s.disk, Victim(s, r));
    ZeroedAt(s.fat, Freed(s, e));
    FreeFacts(After(s, Delete(s, r)).fat, 0);
    assert (e.clusterLow as nat) in Free(After(s, Delete(s, r)).fat, 0);
  }

  /** A directory made under a live file's name takes the dead slot before it. */
  lemma HiddenByMake(t: Fs, s: Fs, f: Request)
    requires Safe(s) && Free(s.fat, 0) != [] && FitsFresh(f) && f.ext == [0, 0, 0]
    requires RootTable(Tab(t.disk, 2)) && Tab(s.disk, 2)[0] == Tab(t.disk, 2)[0]
    requires !Tab(s.disk, 2)[1].Live() && Tab(s.disk, 2)[1].attribute == 0
    requires View(s) == map[Loc(2, 2) := FileNode(f.name, f.ext, f.buf[..f.size])]
    ensures Possible(s, Done(WriteCall(Mkdir(f.name))))
    ensures var u := Next(s, Done(WriteCall(Mkdir(f.name))));
            Loc(2, 2) in View(u) && View(u)[Loc(2, 2)] == View(s)[Loc(2, 2)] && Read(u, f).code == 1
  {
    hide DecodeTable, EncodeTable, DecodeFat, EncodeFat, Signature, Dirs, Free, FirstDead, FirstNamed, Inv, Write,
         WriteFits, Replay, Contents, Nodes, Read, Clash;
    RootIsDirectory(s);
    var m, l := Mkdir(f.name), Loc(2, 2);
    assert Slot(s, m) == 1;
    MakePossible(s, m);
    LiveInView(s, l);
    ViewAt(s, l);
    ReadReturnsNode(s, l, f);
    assert Tab(s.disk, 2)[0].name != f.name;
    MakeHides(s, m, l, f);
  }

  lemma ViewAt(s: Fs, l: Loc)
    requires LiveAt(s.disk, Dirs(s.disk), l)
    ensures l in View(s) && View(s)[l] == NodeOf(s, At(s.disk, l))
  {
    hide DecodeTable, Dirs, NodeOf;
  }

  /**
   * A file that cannot be read: the first of two files is deleted, and a directory is made under the name
   * of the second. The file is still in the tree with its bytes, but `read` of its name reports a directory.
   */
  lemma HideTrap(disk: Disk, x: Request, f: Request)
    requires !Signed(disk) && FitsFresh(x) && FitsFresh(f) && Links(x.size) + Links(f.size) <= 508
    requires f.ext == [0, 0, 0] && (f.name != x.name || f.ext != x.ext)
    ensures var run := [Done(WriteCall(x)), Done(WriteCall(f)), Done(DeleteCall(x)), Done(WriteCall(Mkdir(f.name)))];
            && PossibleRun(Reboot(disk), run)
            && var s := Final(Reboot(disk), run);
               && Loc(2, 2) in View(s) && View(s)[Loc(2, 2)] == FileNode(f.name, f.ext, f.buf[..f.size])
               && Read(s, f).code == 1
  {
    hide DecodeTable, EncodeTable, DecodeFat, EncodeFat, Signature, Dirs, Free, FirstDead, Inv, View, Read,
         Safe, Replay, Reboot, Final, PossibleRun, Links, InFreshRoot, Slot, FirstNamed;
    var s0 := Reboot(disk);
    var a, b, c, d := Done(WriteCall(x)), Done(WriteCall(f)), Done(DeleteCall(x)), Done(WriteCall(Mkdir(f.name)));
    BlankIsFresh(disk);
    FirstFile(s0, x);
    var s1 := Next(s0, a);
    SecondFile(s0, x, s1, f);
    var s2 := Next(s1, b);
    TwoSteps(s0, a, b);
    FirstOfTwoGone(s0, x, s1, f, s2);
    RunThen(s0, [a, b], c);
    var s3 := Next(s2, c);
    HiddenByMake(s0, s3, f);
    RunThen(s0, [a, b] + [c], d);
    assert [a, b] + [c] + [d] == [a, b, c, d];
  }
}
