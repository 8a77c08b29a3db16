/** Counting clusters: what is allocated is what the live entries need, and nothing else. */
module Accounting {
  import opened Layout
  import opened Chains
  import opened Volume
  import opened Tree
  import opened Safety

  /** One cluster for a live subdirectory, ceil(filesize / 2048) for a live file. */
  function SlotWeight(s: Fs, dirs: set<nat>, l: Loc): nat
  {
    if !LiveAt(s.disk, dirs, l) then 0
    else if At(s.disk, l).attribute != 0 then 1
    else Links(At(s.disk, l).filesize)
  }

  /** The slots 1 to `i` - 1 of one directory. */
  function TableWeight(s: Fs, dirs: set<nat>, d: nat, i: nat): nat
  {
    if i <= 1 then 0 else TableWeight(s, dirs, d, i - 1) + SlotWeight(s, dirs, Loc(d, i - 1))
  }

  /** All directories below cluster `n`. */
  function Weight(s: Fs, dirs: set<nat>, n: nat): nat
  {
    if n == 0 then 0 else Weight(s, dirs, n - 1) + TableWeight(s, dirs, n - 1, 64)
  }

  function Allocated(fat: Fat): set<nat> { set c: nat | c < 512 && fat[c] != 0 }

  function OwnedBy(s: Fs, dirs: set<nat>, l: Loc): set<nat>
  {
    if LiveAt(s.disk, dirs, l) then Own(s.fat, At(s.disk, l)) else {}
  }

  function OwnedInTable(s: Fs, dirs: set<nat>, d: nat, i: nat): set<nat>
  {
    if i <= 1 then {} else OwnedInTable(s, dirs, d, i - 1) + OwnedBy(s, dirs, Loc(d, i - 1))
  }

  function OwnedBelow(s: Fs, dirs: set<nat>, n: nat): set<nat>
  {
    if n == 0 then {} else OwnedBelow(s, dirs, n - 1) + OwnedInTable(s, dirs, n - 1, 64)
  }

  lemma {:induction false} ElementsOf(cs: seq<nat>)
    requires Distinct(cs)
    ensures |set x: nat | x in cs| == |cs|
  {
    if cs == [] {
      assert (set x: nat | x in cs) == {};
    } else {
      var init, last := cs[..|cs| - 1], cs[|cs| - 1];
      ElementsOf(init);
      assert last !in init;
      assert (set x: nat | x in cs) == (set x: nat | x in init) + {last};
    }
  }

  lemma SlotCount(s: Fs, dirs: set<nat>, l: Loc)
    requires Inv(s, dirs)
    ensures |OwnedBy(s, dirs, l)| == SlotWeight(s, dirs, l)
  {
    hide DecodeTable, Walk, Links;
    if LiveAt(s.disk, dirs, l) {
      var e := At(s.disk, l);
      assert EntryOk(s, dirs, e);
      if e.attribute == 0 {
        ChainWalk(s.fat, e.clusterLow, Links(e.filesize));
        ElementsOf(Chain(s.fat, e));
      }
    }
  }

  lemma {:induction false} InTable(s: Fs, dirs: set<nat>, d: nat, i: nat, c: nat)
    ensures c in OwnedInTable(s, dirs, d, i) <==> exists j :: 1 <= j < i && Owns(s, dirs, Loc(d, j), c)
  {
    hide DecodeTable, Own, LiveAt, At;
    if i > 1 {
      InTable(s, dirs, d, i - 1, c);
      assert c in OwnedBy(s, dirs, Loc(d, i - 1)) <==> Owns(s, dirs, Loc(d, i - 1), c);
    }
  }

  lemma {:induction false} Below(s: Fs, dirs: set<nat>, n: nat, c: nat)
    ensures c in OwnedBelow(s, dirs, n) <==> exists d, j :: 0 <= d < n && 1 <= j < 64 && Owns(s, dirs, Loc(d, j), c)
  {
    hide DecodeTable, Own, LiveAt, At, Owns, OwnedInTable;
    if n > 0 {
      Below(s, dirs, n - 1, c);
      InTable(s, dirs, n - 1, 64, c);
    }
  }

  lemma DisjointSum(a: set<nat>, b: set<nat>)
    requires forall x :: x in a ==> x !in b
    ensures |a + b| == |a| + |b|
  {
    assert a * b == {};
  }

  lemma PartCount(a: set<nat>, b: set<nat>)
    requires forall x :: x in a ==> x in b
    ensures |a| <= |b| && (|a| == |b| <==> a == b)
  {
    DisjointSum(a, b - a);
    assert b == a + (b - a);
  }

  lemma SameOwner(s: Fs, dirs: set<nat>, l: Loc, m: Loc, c: nat)
    requires Inv(s, dirs) && Owns(s, dirs, l, c) && Owns(s, dirs, m, c)
    ensures l == m
  {
    hide DecodeTable, Own, At;
  }

  lemma TableThenSlot(s: Fs, dirs: set<nat>, d: nat, i: nat, c: nat)
    requires Inv(s, dirs) && i > 1 && c in OwnedInTable(s, dirs, d, i - 1)
    ensures c !in OwnedBy(s, dirs, Loc(d, i - 1))
  {
    hide DecodeTable, Own, At, Inv, OwnedInTable;
    InTable(s, dirs, d, i - 1, c);
    var j :| 1 <= j < i - 1 && Owns(s, dirs, Loc(d, j), c);
    if Owns(s, dirs, Loc(d, i - 1), c) {
      SameOwner(s, dirs, Loc(d, j), Loc(d, i - 1), c);
    }
  }

  lemma BelowThenTable(s: Fs, dirs: set<nat>, n: nat, c: nat)
    requires Inv(s, dirs) && n > 0 && c in OwnedBelow(s, dirs, n - 1)
    ensures c !in OwnedInTable(s, dirs, n - 1, 64)
  {
    hide DecodeTable, Own, At, Inv, OwnedInTable, OwnedBelow, Owns;
    Below(s, dirs, n - 1, c);
    InTable(s, dirs, n - 1, 64, c);
    var d, j :| 0 <= d < n - 1 && 1 <= j < 64 && Owns(s, dirs, Loc(d, j), c);
    var m := n - 1;
    if k :| 1 <= k < 64 && Owns(s, dirs, Loc(m, k), c) {
      SameOwner(s, dirs, Loc(d, j), Loc(m, k), c);
    }
  }

  lemma {:induction false} TableCount(s: Fs, dirs: set<nat>, d: nat, i: nat)
    requires Inv(s, dirs)
    ensures |OwnedInTable(s, dirs, d, i)| == TableWeight(s, dirs, d, i)
  {
    hide DecodeTable, OwnedBy, SlotWeight, Inv;
    if i > 1 {
      TableCount(s, dirs, d, i - 1);
      SlotCount(s, dirs, Loc(d, i - 1));
      var a, b := OwnedInTable(s, dirs, d, i - 1), OwnedBy(s, dirs, Loc(d, i - 1));
      forall c | c in a ensures c !in b {
        TableThenSlot(s, dirs, d, i, c);
      }
      DisjointSum(a, b);
    }
  }

  lemma {:induction false} BelowCount(s: Fs, dirs: set<nat>, n: nat)
    requires Inv(s, dirs)
    ensures |OwnedBelow(s, dirs, n)| == Weight(s, dirs, n)
  {
    hide DecodeTable, OwnedInTable, TableWeight, Inv;
    if n > 0 {
      BelowCount(s, dirs, n - 1);
      TableCount(s, dirs, n - 1, 64);
      var a, b := OwnedBelow(s, dirs, n - 1), OwnedInTable(s, dirs, n - 1, 64);
      forall c | c in a ensures c !in b {
        BelowThenTable(s, dirs, n, c);
      }
      DisjointSum(a, b);
    }
  }

  lemma OwnedIff(s: Fs, dirs: set<nat>, c: nat)
    requires Inv(s, dirs)
    ensures c in OwnedBelow(s, dirs, 512) <==> c >= 3 && Used(s, dirs, c)
    ensures c in OwnedBelow(s, dirs, 512) ==> c < 512 && s.fat[c] != 0
  {
    hide DecodeTable, Own, OwnedBelow;
    Below(s, dirs, 512, c);
    if l :| Owns(s, dirs, l, c) {
      OwnedIsAllocated(s, dirs, l, c);
      assert Owns(s, dirs, Loc(l.dir, l.slot), c);
    } else if c >= 3 && c in dirs {
      var _ := DirOwner(s, dirs, c);
    }
  }

  /**
   * Conservation: on every safe volume, power cuts included, the allocated FAT entries are at least 3 plus
   * one for each live subdirectory plus ceil(filesize / 2048) for each live file, and exactly as many if
   * and only if no cluster is lost.
   */
  lemma Conservation(s: Fs)
    requires Safe(s)
    ensures |Allocated(s.fat)| >= 3 + Weight(s, Dirs(s.disk), 512)
    ensures |Allocated(s.fat)| == 3 + Weight(s, Dirs(s.disk), 512) <==> Exact(s)
  {
    hide DecodeTable, DecodeFat, Dirs, Signature, OwnedBelow, Weight, Used;
    var dirs := Dirs(s.disk);
    var owned, all := {0, 1, 2} + OwnedBelow(s, dirs, 512), Allocated(s.fat);
    BelowCount(s, dirs, 512);
    forall c: nat ensures c in OwnedBelow(s, dirs, 512) <==> c >= 3 && Used(s, dirs, c)
                  ensures c in OwnedBelow(s, dirs, 512) ==> c < 512 && s.fat[c] != 0
    {
      OwnedIff(s, dirs, c);
    }
    DisjointSum({0, 1, 2}, OwnedBelow(s, dirs, 512));
    PartCount(owned, all);
    if owned == all {
      forall c | 3 <= c < 512 && s.fat[c] != 0 ensures Used(s, dirs, c) {
        assert c in all;
      }
    }
  }
}
