/** The file allocation table as a linked structure: free clusters, allocation and chains. */
module Chains {
  import opened Bytes
  import opened Layout
  import opened Wrappers

  function DivCeil(a: nat, b: nat): (q: nat)
    requires b > 0
  {
    if a % b == 0 then a / b else a / b + 1
  }

  /** How many clusters a file of this size occupies. */
  function Links(size: nat): nat { DivCeil(size, CLUSTER_SIZE) }

  lemma LinksIsCeiling(size: nat)
    ensures Links(size) * CLUSTER_SIZE >= size
    ensures size > 0 ==> Links(size) > 0 && (Links(size) - 1) * CLUSTER_SIZE < size
    ensures Links(size) == 0 <==> size == 0
  {
  }

  // ---------------------------------------------------------------- free clusters

  /** The free clusters from `from` on, in increasing order. */
  function Free(fat: Fat, from: nat): (r: seq<nat>)
    ensures Clusters(r)
    decreases |fat| - from
  {
    if from >= 512 then []
    else if fat[from] == 0 then [from] + Free(fat, from + 1)
    else Free(fat, from + 1)
  }

  lemma {:induction false} FreeFacts(fat: Fat, from: nat)
    ensures forall k :: 0 <= k < |Free(fat, from)| ==> from <= Free(fat, from)[k] < 512 && fat[Free(fat, from)[k]] == 0
    ensures forall j, k :: 0 <= j < k < |Free(fat, from)| ==> Free(fat, from)[j] < Free(fat, from)[k]
    ensures forall c :: from <= c < 512 ==> (fat[c] == 0 <==> c in Free(fat, from))
    decreases |fat| - from
  {
    if from < 512 {
      FreeFacts(fat, from + 1);
    }
  }

  /** Where a scan for a free entry starting at `from` stops; 512 when it runs off the table. */
  function FirstFree(fat: Fat, from: nat): (r: nat)
    ensures r <= 512
    ensures r < 512 ==> from <= r && fat[r] == 0
    ensures forall c :: from <= c < 512 && c < r ==> fat[c] != 0
    decreases |fat| - from
  {
    if from >= 512 then 512 else if fat[from] == 0 then from else FirstFree(fat, from + 1)
  }

  lemma {:induction false} FirstFreeIsHead(fat: Fat, from: nat)
    ensures FirstFree(fat, from) == if Free(fat, from) == [] then 512 else Free(fat, from)[0]
    decreases |fat| - from
  {
    if from < 512 && fat[from] != 0 {
      FirstFreeIsHead(fat, from + 1);
    }
  }

  lemma {:induction false} FreeFrame(f: Fat, g: Fat, from: nat)
    requires forall c :: from <= c < 512 ==> f[c] == g[c]
    ensures Free(f, from) == Free(g, from)
    decreases |f| - from
  {
    if from < 512 {
      FreeFrame(f, g, from + 1);
    }
  }

  /** Filling the first free cluster leaves the rest of the free list; scanning past it finds the second. */
  lemma {:induction false} FillFirst(fat: Fat, from: nat, v: u32)
    requires Free(fat, from) != [] && v != 0
    ensures Free(fat[Free(fat, from)[0] := v], from) == Free(fat, from)[1..]
    ensures Free(fat, Free(fat, from)[0] + 1) == Free(fat, from)[1..]
    decreases |fat| - from
  {
    if from >= 512 {
    } else if fat[from] == 0 {
      FreeFrame(fat, fat[from := v], from + 1);
    } else {
      FreeFacts(fat, from + 1);
      FillFirst(fat, from + 1, v);
    }
  }

  // ---------------------------------------------------------------- linking a new chain

  predicate Clusters(cs: seq<nat>) { forall k :: 0 <= k < |cs| ==> cs[k] < 512 }

  predicate Distinct(cs: seq<nat>) { forall j, k :: 0 <= j < k < |cs| ==> cs[j] != cs[k] }

  function NextLink(cs: seq<nat>, k: nat): u32
    requires k < |cs| && Clusters(cs)
  {
    if k + 1 < |cs| then cs[k + 1] else END_OF_FILE
  }

  /** The table once the first `i` clusters of `cs` are linked, each to its successor, the last to end-of-file. */
  function Linked(fat: Fat, cs: seq<nat>, i: nat): Fat
    requires i <= |cs| && Clusters(cs)
  {
    if i == 0 then fat else Linked(fat, cs, i - 1)[cs[i - 1] := NextLink(cs, i - 1)]
  }

  lemma LinkedStep(fat: Fat, cs: seq<nat>, i: nat)
    requires i < |cs| && Clusters(cs)
    ensures Linked(fat, cs, i + 1) == Linked(fat, cs, i)[cs[i] := NextLink(cs, i)]
  {
  }

  lemma {:induction false} LinkedAt(fat: Fat, cs: seq<nat>, i: nat)
    requires i <= |cs| && Clusters(cs) && Distinct(cs)
    ensures forall k :: 0 <= k < i ==> Linked(fat, cs, i)[cs[k]] == NextLink(cs, k)
    ensures forall c :: 0 <= c < 512 && c !in cs[..i] ==> Linked(fat, cs, i)[c] == fat[c]
  {
    if i > 0 {
      LinkedAt(fat, cs, i - 1);
      forall c | 0 <= c < 512 && c !in cs[..i] ensures Linked(fat, cs, i)[c] == fat[c] {
        assert cs[..i] == cs[..i - 1] + [cs[i - 1]];
      }
    }
  }

  /**
   * Chain construction: with `i` of the first `n` free clusters linked, the two scans of the next
   * round find exactly the next two entries of the original free list.
   */
  lemma {:induction false} ScansFollowFreeList(fat: Fat, n: nat, i: nat)
    requires i <= n <= |Free(fat, 0)|
    ensures Free(Linked(fat, Free(fat, 0)[..n], i), 0) == Free(fat, 0)[i..]
  {
    if i > 0 {
      ScansFollowFreeList(fat, n, i - 1);
      var cs := Free(fat, 0)[..n];
      FreeFacts(fat, 0);
      assert i < n ==> Free(fat, 0)[0] < Free(fat, 0)[i];
      FillFirst(Linked(fat, cs, i - 1), 0, NextLink(cs, i - 1));
      assert Free(fat, 0)[i - 1..][1..] == Free(fat, 0)[i..];
    }
  }

  /** What one allocation round finds: the cluster it fills and the one it looks ahead to. */
  lemma AllocationRound(fat: Fat, n: nat, i: nat)
    requires i < n <= |Free(fat, 0)|
    ensures var now := Linked(fat, Free(fat, 0)[..n], i);
            && FirstFree(now, 0) == Free(fat, 0)[i]
            && FirstFree(now, Free(fat, 0)[i] + 1) == if i + 1 < |Free(fat, 0)| then Free(fat, 0)[i + 1] else 512
  {
    ScansFollowFreeList(fat, n, i);
    var now := Linked(fat, Free(fat, 0)[..n], i);
    FirstFreeIsHead(now, 0);
    FillFirst(now, 0, 1);
    FirstFreeIsHead(now, Free(fat, 0)[i] + 1);
  }

  /**
   * One round of a file write as the loop runs it: the first free entry gets the next free one, or
   * end-of-file in the last round. None when a scan runs off the table.
   */
  function Round(fat: Fat, last: bool): Option<Fat>
  {
    var c := FirstFree(fat, 0);
    if c == 512 || FirstFree(fat, c + 1) == 512 then None
    else Some(fat[c := if last then END_OF_FILE else FirstFree(fat, c + 1)])
  }

  /** The table after the first `i` of the `n` rounds. */
  function Rounds(fat: Fat, n: nat, i: nat): Option<Fat>
    requires i <= n
  {
    if i == 0 then Some(fat)
    else match Rounds(fat, n, i - 1) case None => None case Some(now) => Round(now, i == n)
  }

  lemma RoundLinks(fat: Fat, n: nat, m: nat, i: nat)
    requires i < n && i < m && m == if n <= |Free(fat, 0)| then n else |Free(fat, 0)|
    ensures var r := Round(Linked(fat, Free(fat, 0)[..m], i), i + 1 == n);
            (r.Some? <==> i + 2 <= |Free(fat, 0)|) && (r.Some? ==> r.value == Linked(fat, Free(fat, 0)[..m], i + 1))
  {
    hide Free, FirstFree, Linked;
    AllocationRound(fat, m, i);
    LinkedStep(fat, Free(fat, 0)[..m], i);
    FreeFacts(fat, 0);
  }

  lemma {:induction false} RoundsFollowFreeList(fat: Fat, n: nat, m: nat, i: nat)
    requires i <= n && m == if n <= |Free(fat, 0)| then n else |Free(fat, 0)|
    ensures Rounds(fat, n, i).Some? <==> i == 0 || i + 1 <= |Free(fat, 0)|
    ensures Rounds(fat, n, i).Some? ==> i <= m && Rounds(fat, n, i).value == Linked(fat, Free(fat, 0)[..m], i)
  {
    hide Free, FirstFree;
    if i > 0 {
      RoundsFollowFreeList(fat, n, m, i - 1);
      if i <= m {
        RoundLinks(fat, n, m, i - 1);
      } else if i == 1 {
        FirstFreeIsHead(fat, 0);
      }
    }
  }

  /**
   * Tight allocation bound: every scan of an `n`-cluster write stays inside the table exactly when
   * `n + 1` entries are free, because the last round looks one entry further than it needs. The table
   * then links the first `n` free clusters.
   */
  lemma AllocationBound(fat: Fat, n: nat)
    requires n > 0
    ensures Rounds(fat, n, n).Some? <==> n + 1 <= |Free(fat, 0)|
    ensures Rounds(fat, n, n).Some? ==> Rounds(fat, n, n).value == Linked(fat, Free(fat, 0)[..n], n)
  {
    RoundsFollowFreeList(fat, n, if n <= |Free(fat, 0)| then n else |Free(fat, 0)|, n);
  }

  // ---------------------------------------------------------------- chains

  /** The clusters a walk of `n` steps visits, each FAT value truncated to 16 bits; it stops at the table's edge. */
  function Walk(fat: Fat, c: nat, n: nat): (r: seq<nat>)
    ensures |r| <= n && (n > 0 ==> |r| > 0 && r[0] == c)
    decreases n
  {
    if n == 0 then [] else if c >= 512 then [c] else [c] + Walk(fat, fat[c] % 0x1_0000, n - 1)
  }

  /** Every table access of a walk of `n` steps is inside the table. */
  predicate InBounds(fat: Fat, c: nat, n: nat)
    decreases n
  {
    n == 0 || (c < 512 && InBounds(fat, fat[c] % 0x1_0000, n - 1))
  }

  lemma WalkStep(fat: Fat, c: nat, n: nat)
    requires n > 0 && InBounds(fat, c, n)
    ensures c < 512 && InBounds(fat, fat[c] % 0x1_0000, n - 1)
    ensures Walk(fat, c, n) == [c] + Walk(fat, fat[c] % 0x1_0000, n - 1)
  {
  }

  /** A well-formed chain of `n` increasing links from `c`, ending in end-of-file. */
  predicate ChainOk(fat: Fat, c: nat, n: nat)
    decreases n
  {
    n > 0 && 3 <= c < 512 &&
    if n == 1 then fat[c] == END_OF_FILE else c < fat[c] < 512 && ChainOk(fat, fat[c], n - 1)
  }

  lemma {:induction false} ChainWalk(fat: Fat, c: nat, n: nat)
    requires ChainOk(fat, c, n)
    ensures InBounds(fat, c, n)
    ensures |Walk(fat, c, n)| == n <= 512 - c
    ensures forall k :: 0 <= k < n ==> c <= Walk(fat, c, n)[k] < 512 && fat[Walk(fat, c, n)[k]] != 0
    ensures forall j, k :: 0 <= j < k < n ==> Walk(fat, c, n)[j] < Walk(fat, c, n)[k]
    decreases n
  {
    if n > 1 {
      ChainWalk(fat, fat[c], n - 1);
    }
  }

  /** A shorter walk along a chain visits the first of its clusters. */
  lemma {:induction false} WalkPrefix(fat: Fat, c: nat, n: nat, m: nat)
    requires ChainOk(fat, c, n) && m <= n
    ensures |Walk(fat, c, n)| == n && Walk(fat, c, m) == Walk(fat, c, n)[..m]
    decreases n
  {
    ChainWalk(fat, c, n);
    if n > 1 && m > 0 {
      WalkPrefix(fat, fat[c], n - 1, m - 1);
    }
  }

  /** A chain only depends on the table at the clusters it visits. */
  lemma {:induction false} ChainFrame(f: Fat, g: Fat, c: nat, n: nat)
    requires ChainOk(f, c, n)
    requires forall x :: x in Walk(f, c, n) && x < 512 ==> g[x] == f[x]
    ensures ChainOk(g, c, n) && Walk(g, c, n) == Walk(f, c, n)
    decreases n
  {
    assert c in Walk(f, c, n);
    if n > 1 {
      var next := f[c];
      assert Walk(f, c, n) == [c] + Walk(f, next, n - 1);
      ChainFrame(f, g, next, n - 1);
    }
  }

  lemma LinkedNext(fat: Fat, cs: seq<nat>, i: nat)
    requires i < |cs| && Clusters(cs) && Distinct(cs)
    ensures Linked(fat, cs, |cs|)[cs[i]] == NextLink(cs, i)
  {
    LinkedAt(fat, cs, |cs|);
  }

  lemma {:induction false} LinkedChainOk(fat: Fat, cs: seq<nat>, i: nat)
    requires i < |cs| && Clusters(cs)
    requires forall k :: 0 <= k < |cs| ==> cs[k] >= 3
    requires forall j, k :: 0 <= j < k < |cs| ==> cs[j] < cs[k]
    ensures ChainOk(Linked(fat, cs, |cs|), cs[i], |cs| - i)
    decreases |cs| - i
  {
    hide Linked;
    LinkedNext(fat, cs, i);
    if i + 1 < |cs| {
      LinkedChainOk(fat, cs, i + 1);
    }
  }

  lemma {:induction false} LinkedWalk(fat: Fat, cs: seq<nat>, i: nat)
    requires i < |cs| && Clusters(cs) && Distinct(cs)
    ensures Walk(Linked(fat, cs, |cs|), cs[i], |cs| - i) == cs[i..]
    decreases |cs| - i
  {
    hide Linked;
    LinkedNext(fat, cs, i);
    assert cs[i..] == [cs[i]] + cs[i + 1..];
    if i + 1 < |cs| {
      LinkedWalk(fat, cs, i + 1);
    }
  }

  /** The linked clusters form one chain, ending in end-of-file. */
  lemma LinkedIsChain(fat: Fat, cs: seq<nat>)
    requires cs != [] && Clusters(cs)
    requires forall k :: 0 <= k < |cs| ==> cs[k] >= 3
    requires forall j, k :: 0 <= j < k < |cs| ==> cs[j] < cs[k]
    ensures ChainOk(Linked(fat, cs, |cs|), cs[0], |cs|)
    ensures Walk(Linked(fat, cs, |cs|), cs[0], |cs|) == cs
  {
    hide Linked, Walk, ChainOk;
    LinkedChainOk(fat, cs, 0);
    LinkedWalk(fat, cs, 0);
    assert cs[0..] == cs;
  }

  // ---------------------------------------------------------------- freeing a chain

  function Zeroed(fat: Fat, cs: seq<nat>): Fat
    requires Clusters(cs)
  {
    if cs == [] then fat else Zeroed(fat, cs[..|cs| - 1])[cs[|cs| - 1] := 0]
  }

  lemma {:induction false} ZeroedAt(fat: Fat, cs: seq<nat>)
    requires Clusters(cs)
    ensures forall c :: 0 <= c < 512 ==> Zeroed(fat, cs)[c] == if c in cs then 0 else fat[c]
  {
    if cs != [] {
      ZeroedAt(fat, cs[..|cs| - 1]);
      assert cs == cs[..|cs| - 1] + [cs[|cs| - 1]];
    }
  }

  lemma ZeroedStep(fat: Fat, cs: seq<nat>, i: nat)
    requires i < |cs| && Clusters(cs)
    ensures Zeroed(fat, cs[..i + 1]) == Zeroed(fat, cs[..i])[cs[i] := 0]
  {
    assert cs[..i + 1][..i] == cs[..i];
  }

  lemma ZeroedOne(fat: Fat, c: nat)
    requires c < 512
    ensures Zeroed(fat, [c]) == fat[c := 0]
  {
    assert [c][..0] == [];
  }

  /** Freeing a freshly linked chain restores the whole table. */
  lemma FreeingUndoesLinking(fat: Fat, cs: seq<nat>)
    requires Clusters(cs) && Distinct(cs)
    requires forall k :: 0 <= k < |cs| ==> fat[cs[k]] == 0
    ensures Zeroed(Linked(fat, cs, |cs|), cs) == fat
  {
    LinkedAt(fat, cs, |cs|);
    ZeroedAt(Linked(fat, cs, |cs|), cs);
    assert cs[..|cs|] == cs;
  }

  // ---------------------------------------------------------------- the table invariant

  /** Reserved entries in place; every other entry is free, end-of-file, or points strictly forward. */
  predicate Forward(fat: Fat)
  {
    && fat[0] == CLUSTER_0_VALUE && fat[1] == CLUSTER_1_VALUE && fat[2] == END_OF_FILE
    && forall c :: 3 <= c < 512 ==> fat[c] == 0 || fat[c] == END_OF_FILE || c < fat[c] < 512
  }

  lemma {:induction false} LinkedForward(fat: Fat, cs: seq<nat>, i: nat)
    requires Forward(fat) && i <= |cs| && Clusters(cs)
    requires forall k :: 0 <= k < |cs| ==> 3 <= cs[k] < 512
    requires forall j, k :: 0 <= j < k < |cs| ==> cs[j] < cs[k]
    ensures Forward(Linked(fat, cs, i))
  {
    if i > 0 {
      LinkedForward(fat, cs, i - 1);
    }
  }

  lemma ZeroedForward(fat: Fat, cs: seq<nat>)
    requires Forward(fat) && Clusters(cs) && forall k :: 0 <= k < |cs| ==> cs[k] >= 3
    ensures Forward(Zeroed(fat, cs))
  {
    ZeroedAt(fat, cs);
  }

  /**
   * Acyclicity: in a forward table following links from any cluster strictly climbs, so it ends, inside
   * the table, at a cluster that is free or end-of-file.
   */
  function EndOf(fat: Fat, c: nat): (last: nat)
    requires Forward(fat) && 3 <= c < 512
    ensures c <= last < 512 && (fat[last] == 0 || fat[last] == END_OF_FILE)
    ensures c == last <==> fat[c] == 0 || fat[c] == END_OF_FILE
    decreases 512 - c
  {
    if fat[c] == 0 || fat[c] == END_OF_FILE then c else EndOf(fat, fat[c])
  }
}
