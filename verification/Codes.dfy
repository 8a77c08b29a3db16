/** What every call returns, in terms of the slots of the parent's table and nothing the calls compute. */
module Codes {
  import opened Wrappers
  import opened Bytes
  import opened Layout
  import opened Chains
  import opened Volume
  import opened Tree
  import opened Safety
  import opened DeleteProof
  import opened Runs

  // ---------------------------------------------------------------- read

  predicate Named(e: Entry, q: Request) { e.name == q.name && e.ext == q.ext }

  /** Slot `i` is the first of the table, live or dead, with the name and extension of the request. */
  predicate FirstNamedAt(t: Table, q: Request, i: nat)
  {
    i < 64 && Named(t[i], q) && forall j :: 0 <= j < i ==> !Named(t[j], q)
  }

  /**
   * `read`: 2 exactly when no slot has the name and extension; otherwise the first that has decides: 1 for
   * a set directory bit, -1 for a buffer smaller than its size, 0 else.
   */
  lemma ReadCodes(s: Fs, q: Request)
    requires q.parent < |s.disk|
    ensures var t := Tab(s.disk, q.parent);
            && (Read(s, q).code == 2 <==> forall i :: 0 <= i < 64 ==> !Named(t[i], q))
            && (Read(s, q).code == 2 ==> Read(s, q).clusters == [])
            && (forall i: nat :: FirstNamedAt(t, q, i) ==>
                  Read(s, q).code == if t[i].attribute % 0x20 >= 0x10 then 1
                                     else if q.size < t[i].filesize then -1 else 0)
  {
    hide DecodeTable, FirstNamed;
    var t := Tab(s.disk, q.parent);
    var f := FirstNamed(t, q.name, q.ext, 0);
    if f.Some? {
      assert Named(t[f.value], q);
      assert forall i: nat :: FirstNamedAt(t, q, i) ==> i == f.value;
    }
  }

  // ---------------------------------------------------------------- read_directory

  predicate LiveNamed(e: Entry, q: Request) { e.userAttribute == 0xAA && e.name == q.name }

  predicate FirstLiveAt(t: Table, q: Request, i: nat)
  {
    i < 64 && LiveNamed(t[i], q) && forall j :: 0 <= j < i ==> !LiveNamed(t[j], q)
  }

  /**
   * `read_directory`: 2 exactly when the parent is free or no live slot has the name; otherwise the first
   * live one that has decides: 0 and its cluster for a directory, 1 for anything else.
   */
  lemma ReadDirectoryCodes(s: Fs, q: Request)
    requires q.parent < 512
    ensures var t, o := Tab(s.disk, q.parent), ReadDirectory(s, q);
            && (o.Code() == 2 <==> s.fat[q.parent] == 0 || forall i :: 0 <= i < 64 ==> !LiveNamed(t[i], q))
            && (s.fat[q.parent] != 0 ==> forall i: nat :: FirstLiveAt(t, q, i) ==>
                  && o.Code() == (if t[i].attribute == 0x10 then 0 else 1)
                  && (o.Code() == 0 <==> o == Found(t[i].clusterLow)))
            && (o.Code() == 0 <==> o.Found?)
  {
    hide DecodeTable, FirstLiveNamed;
    var t := Tab(s.disk, q.parent);
    var f := FirstLiveNamed(t, q.name, 0);
    assert forall i :: 0 <= i < 64 ==> (LiveNamed(t[i], q) <==> t[i].Live() && t[i].name == q.name);
    if f.Some? {
      assert LiveNamed(t[f.value], q);
      assert forall i: nat :: FirstLiveAt(t, q, i) ==> i == f.value;
    }
  }

  // ---------------------------------------------------------------- write

  /**
   * `write`: 2 exactly when the parent is free in the table on the disk, 1 exactly when it is not and a file
   * meets a slot, live or dead, with its name and extension, else 0. The cached table plays no part.
   */
  lemma WriteCodes(s: Fs, r: Request, cached: Fs)
    requires WriteFits(s, r) && cached.disk == s.disk
    ensures var t, free := Tab(s.disk, r.parent), DecodeFat(s.disk[1])[r.parent] == 0;
            && (Write(s, r).code == 2 <==> free)
            && (Write(s, r).code == 1 <==> !free && r.size != 0 && exists i :: 0 <= i < 64 && Named(t[i], r))
            && (Write(s, r).code != 0 ==> Write(s, r).log == [] && Write(s, r).fat == DecodeFat(s.disk[1]))
            && Write(s, r).code in {0, 1, 2}
    ensures WriteFits(cached, r) && Write(cached, r) == Write(s, r)
  {
    hide DecodeTable, EncodeTable, DecodeFat, EncodeFat, FirstNamed, FirstDead;
    var t := Tab(s.disk, r.parent);
    var f := FirstNamed(t, r.name, r.ext, 0);
    if f.Some? {
      assert Named(t[f.value], r);
    }
  }

  /** Slot `k` is the first without the mark of a live entry. */
  predicate FirstUnmarked(t: Table, k: nat)
  {
    k < 64 && t[k].userAttribute != 0xAA && forall j :: 0 <= j < k ==> t[j].userAttribute == 0xAA
  }

  /** The last cluster write of a successful `write` is the parent's table with the first unmarked slot filled. */
  lemma WriteFills(s: Fs, r: Request, k: nat)
    requires WriteFits(s, r) && Write(s, r).code == 0 && FirstUnmarked(Tab(s.disk, r.parent), k)
    ensures var t, log := Tab(s.disk, r.parent), Write(s, r).log;
            && log != [] && log[|log| - 1].cluster == r.parent
            && var u := DecodeTable(log[|log| - 1].data);
               && (forall j :: 0 <= j < 64 && j != k ==> u[j] == t[j])
               && u[k].userAttribute == 0xAA && u[k].name == r.name
               && u[k].attribute == (if r.size == 0 then 0x10 else 0) && (r.size != 0 ==> u[k].ext == r.ext)
  {
    hide DecodeTable, EncodeTable, DecodeFat, EncodeFat, FirstNamed, FirstDead, Free, FileLog, Linked, Links;
    var t := Tab(s.disk, r.parent);
    assert FirstDead(t, 0) == k;
    var log := Write(s, r).log;
    if r.size == 0 {
      TableRoundTrip(t[k := InitTable(EmptyTable(), r.name, Free(DecodeFat(s.disk[1]), 0)[0])[0]], s.disk[0]);
    } else {
      LinksIsCeiling(r.size);
      var head := Free(DecodeFat(s.disk[1]), 0)[..Links(r.size)][0];
      TableRoundTrip(t[k := FileEntry(t[k], r.name, r.ext, head, r.size)], s.disk[0]);
    }
  }

  // ---------------------------------------------------------------- delete

  /** A live entry whose bytes up to the first zero the request agrees with; a file also needs its extension. */
  predicate Meant(e: Entry, r: Request)
  {
    e.userAttribute == 0xAA && Bears(e, r.name, r.ext) && (e.attribute != 0 || e.ext == r.ext)
  }

  predicate FirstMeant(t: Table, r: Request, i: nat)
  {
    1 <= i < 64 && Meant(t[i], r) && forall j :: 1 <= j < i ==> !Meant(t[j], r)
  }

  lemma MeantIff(s: Fs, r: Request, i: nat)
    requires Safe(s) && r.parent in Dirs(s.disk) && r.parent < 512 && 1 <= i < 64
    ensures Hit(Tab(s.disk, r.parent)[i], r.name, r.ext) <==> Meant(Tab(s.disk, r.parent)[i], r)
  {
    hide DecodeTable, Dirs, Safe, Bears, StrLen, NameBytes, PrefixMatch;
    var e := Tab(s.disk, r.parent)[i];
    if e.Live() {
      MatchingIsBounded(s, Loc(r.parent, i));
      assert At(s.disk, Loc(r.parent, i)) == e;
      HitIff(e, r.name, r.ext);
    }
  }

  /** The slot `delete` settles on is the first of slots 1 to 63 that is meant. */
  lemma TargetIsFirstMeant(s: Fs, r: Request)
    requires Safe(s) && r.parent in Dirs(s.disk)
    ensures r.parent < 512
    ensures var t := Tab(s.disk, r.parent);
            && (Target(s, r).None? <==> forall i :: 1 <= i < 64 ==> !Meant(t[i], r))
            && (forall i: nat :: FirstMeant(t, r, i) <==> Target(s, r) == Some(i))
  {
    hide DecodeTable, Dirs, Safe, Hit, Meant, FirstHit;
    ParentInRange(s, r);
    var t := Tab(s.disk, r.parent);
    forall i | 1 <= i < 64 ensures Hit(t[i], r.name, r.ext) <==> Meant(t[i], r) {
      MeantIff(s, r, i);
    }
    var f := Target(s, r);
    if f.Some? {
      assert forall i: nat :: FirstMeant(t, r, i) ==> i == f.value;
    }
  }

  /**
   * `delete`: 1 exactly when no slot is meant, and then nothing changes; otherwise the first that is decides:
   * 2 for a directory with something live in slots 1 to 63, and then nothing changes; 0 else, and then its
   * location, and no other, leaves the tree.
   */
  lemma DeleteCodes(s: Fs, r: Request)
    requires Safe(s) && r.parent in Dirs(s.disk)
    ensures DeleteFits(s, r) && r.parent < 512
    ensures var t, o := Tab(s.disk, r.parent), Delete(s, r);
            && (o.code == 1 <==> forall i :: 1 <= i < 64 ==> !Meant(t[i], r))
            && (o.code != 0 ==> After(s, o) == s)
            && (forall i: nat :: FirstMeant(t, r, i) ==>
                  && (t[i].attribute != 0 ==> t[i].clusterLow < 512)
                  && o.code == (if t[i].attribute != 0
                                   && exists k :: 1 <= k < 64 && Tab(s.disk, t[i].clusterLow)[k].userAttribute == 0xAA
                                then 2 else 0)
                  && (o.code == 0 ==> View(After(s, o)) == View(s) - {Loc(r.parent, i)}))
  {
    hide DecodeTable, EncodeTable, DecodeFat, EncodeFat, Signature, Inv, Dirs, Delete, DeleteFits, Meant, FirstHit,
         Nodes, Bears, NodeOf;
    DeleteAlwaysFits(s, r);
    TargetIsFirstMeant(s, r);
    DeleteRefines(s, r);
    DeleteCases(s, r);
    var t := Tab(s.disk, r.parent);
    forall i: nat | FirstMeant(t, r, i)
      ensures LiveAt(s.disk, Dirs(s.disk), Loc(r.parent, i)) && At(s.disk, Loc(r.parent, i)) == t[i]
      ensures t[i].clusterLow < 512
    {
      MeantIsLive(t[i], r);
      EntryInRange(s, Loc(r.parent, i));
    }
  }

  lemma MeantIsLive(e: Entry, r: Request)
    requires Meant(e, r)
    ensures e.Live()
  {
  }

  lemma EntryInRange(s: Fs, l: Loc)
    requires Safe(s) && LiveAt(s.disk, Dirs(s.disk), l)
    ensures At(s.disk, l).clusterLow < 512
  {
    hide DecodeTable, DecodeFat, Dirs, Signature;
    assert EntryOk(s, Dirs(s.disk), At(s.disk, l));
  }

  // ---------------------------------------------------------------- which table is believed

  /**
   * `read`, `read_directory` and `delete` go by the cached table: whatever the table's cluster on the disk
   * holds, they return the same code and, for `delete`, the same new table.
   */
  lemma CacheIsBelieved(s: Fs, r: Request, b: Cluster)
    requires 2 <= r.parent < 512
    ensures var t := Fs(s.fat, s.disk[1 := b]);
            && Read(t, r) == Read(s, r) && ReadDirectory(t, r) == ReadDirectory(s, r)
    ensures var t := Fs(s.fat, s.disk[1 := b]);
            DeleteFits(s, r) && (Target(s, r).Some? ==> Tab(s.disk, r.parent)[Target(s, r).value].clusterLow != 1) ==>
              DeleteFits(t, r) && Delete(t, r) == Delete(s, r)
  {
    hide DecodeTable, EncodeTable, FirstNamed, FirstLiveNamed, FirstHit, ReadWalk, StrLen, NameBytes, InBounds,
         Zeroed, Walk;
  }
}
