/** The RAM disk: an image of 512-byte blocks, and the clusters it holds. */
module BlockDevice {
  import opened Bytes
  import opened Layout
  import opened Volume

  /** `img` with `data` laid over it from `at` on. */
  function PutBytes(img: seq<byte>, at: nat, data: seq<byte>): (r: seq<byte>)
    requires at + |data| <= |img|
    ensures |r| == |img|
  {
    img[..at] + data + img[at + |data|..]
  }

  lemma PutAppend(img: seq<byte>, at: nat, a: seq<byte>, b: seq<byte>)
    requires at + |a| + |b| <= |img|
    ensures PutBytes(PutBytes(img, at, a), at + |a|, b) == PutBytes(img, at, a + b)
  {
  }

  lemma PutNothing(img: seq<byte>, at: nat)
    requires at <= |img|
    ensures PutBytes(img, at, []) == img
  {
  }

  predicate WholeClusters(img: seq<byte>) { |img| % 2048 == 0 && |img| >= 512 * 2048 }

  /** The clusters of an image: cluster `c` is bytes 2048c to 2048c + 2047. */
  function DiskOf(img: seq<byte>): (d: Disk)
    requires WholeClusters(img)
    ensures |d| == |img| / 2048
    ensures forall c :: 0 <= c < |d| ==> d[c] == img[2048 * c..2048 * c + 2048]
  {
    seq(|img| / 2048, c requires 0 <= c < |img| / 2048 => ClusterAt(img, c))
  }

  function ClusterAt(img: seq<byte>, c: nat): Cluster
    requires 2048 * c + 2048 <= |img|
  {
    img[2048 * c..2048 * c + 2048]
  }

  lemma ClusterAfterPut(img: seq<byte>, c: nat, data: Cluster, d: nat)
    requires 2048 * c + 2048 <= |img| && 2048 * d + 2048 <= |img|
    ensures ClusterAt(PutBytes(img, 2048 * c, data), d) == if c == d then data else ClusterAt(img, d)
  {
    var after := PutBytes(img, 2048 * c, data);
    if d < c {
      assert after[..2048 * c] == img[..2048 * c];
      assert after[2048 * d..2048 * d + 2048] == after[..2048 * c][2048 * d..2048 * d + 2048];
    } else if d > c {
      assert after[2048 * c + 2048..] == img[2048 * c + 2048..];
      assert after[2048 * d..2048 * d + 2048]
             == after[2048 * c + 2048..][2048 * (d - c - 1)..2048 * (d - c - 1) + 2048];
    }
  }

  /** Distinct clusters are disjoint byte ranges: writing one leaves every other unchanged. */
  lemma PutCluster(img: seq<byte>, c: nat, data: Cluster)
    requires WholeClusters(img) && 2048 * c + 2048 <= |img|
    ensures DiskOf(PutBytes(img, 2048 * c, data)) == DiskOf(img)[c := data]
  {
    var a, b := DiskOf(PutBytes(img, 2048 * c, data)), DiskOf(img)[c := data];
    forall d | 0 <= d < |a| ensures a[d] == b[d] {
      ClusterAfterPut(img, c, data, d);
    }
  }

  /** `n` clusters in a row. */
  function Consecutive(c: nat, n: nat): (cs: seq<nat>)
    ensures |cs| == n && forall i :: 0 <= i < n ==> cs[i] == c + i
  {
    seq(n, i requires 0 <= i => c + i)
  }

  /** A stretch of the image is its clusters one after the other. */
  lemma {:induction false} ClustersInARow(img: seq<byte>, c: nat, n: nat)
    requires WholeClusters(img) && 2048 * (c + n) <= |img|
    ensures Gather(DiskOf(img), Consecutive(c, n)) == img[2048 * c..2048 * (c + n)]
    decreases n
  {
    hide DiskOf, Consecutive, Gather;
    if n > 0 {
      var last := c + n - 1;
      ClustersInARow(img, c, n - 1);
      GatherAppend(DiskOf(img), Consecutive(c, n - 1), last);
      assert Consecutive(c, n) == Consecutive(c, n - 1) + [last];
      assert img[2048 * c..2048 * (c + n)] == img[2048 * c..2048 * last] + img[2048 * last..2048 * last + 2048];
    }
  }

  /** `data` as writes of `n` clusters in a row. */
  function ClusterLog(data: seq<byte>, c: nat, n: nat): seq<DiskWrite>
    requires |data| >= 2048 * n
  {
    if n == 0 then []
    else ClusterLog(data, c, n - 1) + [DiskWrite(c + n - 1, data[2048 * (n - 1)..2048 * n])]
  }

  /** Laying `n` clusters over the image is the same as writing them one by one. */
  lemma {:induction false} PutClusters(img: seq<byte>, c: nat, data: seq<byte>, n: nat)
    requires WholeClusters(img) && 2048 * (c + n) <= |img| && |data| >= 2048 * n
    ensures WholeClusters(PutBytes(img, 2048 * c, data[..2048 * n]))
    ensures DiskOf(PutBytes(img, 2048 * c, data[..2048 * n])) == Replay(DiskOf(img), ClusterLog(data, c, n))
  {
    hide DiskOf;
    if n == 0 {
      PutNothing(img, 2048 * c);
    } else {
      PutClusters(img, c, data, n - 1);
      var head, last := data[..2048 * (n - 1)], data[2048 * (n - 1)..2048 * n];
      assert data[..2048 * n] == head + last;
      PutAppend(img, 2048 * c, head, last);
      PutCluster(PutBytes(img, 2048 * c, head), c + n - 1, last);
      ReplayAppend(DiskOf(img), ClusterLog(data, c, n - 1), DiskWrite(c + n - 1, last));
    }
  }

  /** `memcpy` into an array. */
  method CopyIn(dst: array<byte>, at: nat, src: seq<byte>)
    requires at + |src| <= dst.Length
    modifies dst
    ensures dst[..] == PutBytes(old(dst[..]), at, src)
  {
    for i := 0 to |src|
      invariant forall k :: 0 <= k < i ==> dst[at + k] == src[k]
      invariant forall k :: 0 <= k < dst.Length && !(at <= k < at + i) ==> dst[k] == old(dst[k])
    {
      dst[at + i] := src[i];
    }
  }

  /** `read_blocks` of the RAM disk: one copy per block. */
  method ReadBlocks(image: array<byte>, dst: array<byte>, at: nat, lba: nat, count: nat)
    requires dst != image && at + 512 * count <= dst.Length && 512 * (lba + count) <= image.Length
    modifies dst
    ensures dst[..] == PutBytes(old(dst[..]), at, image[512 * lba..512 * (lba + count)])
  {
    hide PutBytes;
    PutNothing(dst[..], at);
    assert image[512 * lba..512 * (lba + 0)] == [];
    for i := 0 to count
      invariant dst[..] == PutBytes(old(dst[..]), at, image[512 * lba..512 * (lba + i)])
    {
      var block := image[512 * (lba + i)..512 * (lba + i) + 512];
      PutAppend(old(dst[..]), at, image[512 * lba..512 * (lba + i)], block);
      assert image[512 * lba..512 * (lba + i + 1)] == image[512 * lba..512 * (lba + i)] + block;
      CopyIn(dst, at + 512 * i, block);
    }
  }

  /** `write_blocks` of the RAM disk. */
  method WriteBlocks(image: array<byte>, src: seq<byte>, lba: nat, count: nat)
    requires |src| >= 512 * count && 512 * (lba + count) <= image.Length
    modifies image
    ensures image[..] == PutBytes(old(image[..]), 512 * lba, src[..512 * count])
  {
    PutNothing(image[..], 512 * lba);
    for i := 0 to count
      invariant image[..] == PutBytes(old(image[..]), 512 * lba, src[..512 * i])
    {
      var block := src[512 * i..512 * i + 512];
      PutAppend(old(image[..]), 512 * lba, src[..512 * i], block);
      assert src[..512 * (i + 1)] == src[..512 * i] + block;
      CopyIn(image, 512 * (lba + i), block);
    }
  }
}
