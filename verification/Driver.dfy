/**
 * The FAT32 driver as it runs: a disk image, the cached FAT and the directory buffer, all updated in
 * place. Every method is tied to the value-level specification of the call in module Volume.
 */
module Driver {
  import opened Bytes
  import opened Layout
  import opened Chains
  import opened BlockDevice
  import opened Volume

  class Fat32Driver {
    const image: array<byte>
    const fat: array<u32>
    const dir: array<Entry>
    // every cluster write so far, in order
    ghost var log: seq<DiskWrite>

    ghost predicate Valid()
      reads this, image
    {
      && WholeClusters(image[..]) && fat.Length == 512 && dir.Length == 64
      && image as object != fat && image as object != dir && fat as object != dir
    }

    ghost function Disk(): Disk
      reads this, image
      requires Valid()
    {
      DiskOf(image[..])
    }

    ghost function State(): Fs
      reads this, image, fat
      requires Valid()
    {
      Fs(fat[..], Disk())
    }

    /** Power up over an image: the static driver state is all zeros. */
    constructor (storage: array<byte>)
      requires WholeClusters(storage[..])
      ensures Valid() && image == storage && fresh(fat) && fresh(dir)
      ensures fat[..] == seq(512, _ => 0) && log == []
    {
      image := storage;
      fat := new u32[512](_ => 0);
      dir := new Entry[64](_ => EMPTY_ENTRY);
      log := [];
    }

    // -------------------------------------------------------------- clusters

    /** `read_clusters`: its block count is an 8-bit value, so only the count modulo 64 arrives. */
    method ReadClusters(dst: array<byte>, at: nat, c: nat, count: byte)
      requires Valid() && dst != image && at + 2048 * (count % 64) <= dst.Length && c + count % 64 <= |Disk()|
      modifies dst
      ensures dst[..] == PutBytes(old(dst[..]), at, Gather(Disk(), Consecutive(c, count % 64)))
    {
      hide PutBytes, DiskOf, Gather, Consecutive;
      ClustersInARow(image[..], c, count % 64);
      var blocks := count * CLUSTER_BLOCK_COUNT % 0x100;
      assert blocks == 4 * (count % 64);
      ReadBlocks(image, dst, at, c * 4, blocks);
      assert image[512 * (c * 4)..512 * (c * 4 + blocks)] == image[..][2048 * c..2048 * (c + count % 64)];
    }

    /** `write_clusters`, with the same 8-bit count; each cluster is one write of the log. */
    method WriteClusters(src: seq<byte>, c: nat, count: byte)
      requires Valid() && |src| >= 2048 * (count % 64) && c + count % 64 <= |Disk()|
      modifies image, `log
      ensures Valid()
      ensures Disk() == Replay(old(Disk()), ClusterLog(src, c, count % 64))
      ensures log == old(log) + ClusterLog(src, c, count % 64)
    {
      hide ClusterLog, PutBytes, DiskOf, Replay;
      var blocks := count * CLUSTER_BLOCK_COUNT % 0x100;
      assert blocks == 4 * (count % 64);
      WriteBlocks(image, src, c * 4, blocks);
      assert src[..512 * blocks] == src[..2048 * (count % 64)];
      PutClusters(old(image[..]), c, src, count % 64);
      log := log + ClusterLog(src, c, count % 64);
    }

    method ReadCluster(dst: array<byte>, at: nat, c: nat)
      requires Valid() && dst != image && at + 2048 <= dst.Length && c < |Disk()|
      modifies dst
      ensures dst[..] == PutBytes(old(dst[..]), at, Disk()[c])
    {
      ReadClusters(dst, at, c, 1);
      assert Consecutive(c, 1)[1..] == [];
      assert Gather(Disk(), Consecutive(c, 1)) == Disk()[c] + Gather(Disk(), []);
    }

    method WriteCluster(src: Cluster, c: nat)
      requires Valid() && c < |Disk()|
      modifies image, `log
      ensures Valid() && Disk() == Put(old(Disk()), DiskWrite(c, src)) && log == old(log) + [DiskWrite(c, src)]
    {
      assert src[2048 * 0..2048 * 1] == src;
      assert ClusterLog(src, c, 1) == ClusterLog(src, c, 0) + [DiskWrite(c, src)];
      WriteClusters(src, c, 1);
      ReplayAppend(old(Disk()), [], DiskWrite(c, src));
    }

    method LoadFat()
      requires Valid()
      modifies fat
      ensures fat[..] == DecodeFat(Disk()[FAT_CLUSTER])
    {
      var b := new byte[2048];
      ReadCluster(b, 0, FAT_CLUSTER);
      assert b[..] == Disk()[FAT_CLUSTER];
      var f := DecodeFat(b[..]);
      forall i | 0 <= i < 512 { fat[i] := f[i]; }
      assert fat[..] == f;
    }

    method LoadDirectory(c: nat)
      requires Valid() && c < |Disk()|
      modifies dir
      ensures dir[..] == Tab(Disk(), c)
    {
      var b := new byte[2048];
      ReadCluster(b, 0, c);
      assert b[..] == Disk()[c];
      var t := DecodeTable(b[..]);
      forall i | 0 <= i < 64 { dir[i] := t[i]; }
      assert dir[..] == t;
    }

    // -------------------------------------------------------------- scans

    /** The unbounded scan for a free FAT entry; the caller guarantees there is one. */
    method ScanFree(from: nat) returns (cluster: nat)
      requires Valid() && FirstFree(fat[..], from) < 512
      ensures cluster == FirstFree(fat[..], from)
    {
      cluster := from;
      while fat[cluster] != 0
        invariant from <= cluster <= FirstFree(fat[..], from)
        decreases 512 - cluster
      {
        cluster := cluster + 1;
      }
    }

    /** The unbounded scan for a slot that is not live. */
    method ScanDead() returns (slot: nat)
      requires Valid() && FirstDead(dir[..], 0) < 64
      ensures slot == FirstDead(dir[..], 0)
    {
      slot := 0;
      while dir[slot].Live()
        invariant slot <= FirstDead(dir[..], 0)
        decreases 64 - slot
      {
        slot := slot + 1;
      }
    }

    // -------------------------------------------------------------- format and mount

    /** Fills slot 0 of a table with the directory's entry for itself. */
    static method InitDirectoryTable(table: array<Entry>, name: Name, cluster: u32)
      requires table.Length == 64
      modifies table
      ensures table[..] == InitTable(old(table[..]), name, cluster)
    {
      table[0] := table[0].(clusterHigh := cluster / 0x1_0000, clusterLow := cluster % 0x1_0000);
      for i := 0 to 8
        invariant table[..] == old(table[..])[0 := table[0]]
        invariant table[0] == old(table[0]).(clusterHigh := cluster / 0x1_0000, clusterLow := cluster % 0x1_0000,
                                             name := table[0].name)
        invariant table[0].name[..i] == name[..i]
      {
        table[0] := table[0].(name := table[0].name[i := name[i]]);
      }
      assert table[0].name[..8] == table[0].name && name[..8] == name;
      table[0] := table[0].(attribute := ATTR_SUBDIRECTORY, userAttribute := UATTR_NOT_EMPTY);
    }

    method IsEmptyStorage() returns (empty: bool)
      requires Valid()
      ensures empty <==> !Signed(Disk())
    {
      var buffer := new byte[512];
      ReadBlocks(image, buffer, 0, 0, 1);
      assert buffer[..] == image[..512] == Disk()[0][..512];
      empty := buffer[..] != Signature();
    }

    method CreateFat32()
      requires Valid()
      modifies image, fat, `log
      ensures Valid() && State() == Format(old(State()))
    {
      hide DecodeTable, EncodeTable, DecodeFat, EncodeFat, InitTable, Signature;
      var before := image[..];
      WriteBlocks(image, Signature(), 0, 1);
      assert image[..] == PutBytes(before, 0, Signature() + before[512..2048]) by {
        assert Signature()[..512] == Signature();
      }
      PutCluster(before, 0, Signature() + before[512..2048]);
      assert before[..2048][512..] == before[512..2048];
      fat[0] := CLUSTER_0_VALUE;
      fat[1] := CLUSTER_1_VALUE;
      fat[2] := END_OF_FILE;
      assert fat[..] == old(fat[..])[0 := CLUSTER_0_VALUE][1 := CLUSTER_1_VALUE][2 := END_OF_FILE];
      WriteCluster(EncodeFat(fat[..]), FAT_CLUSTER);
      var root := new Entry[64](_ => EMPTY_ENTRY);
      assert root[..] == EmptyTable();
      InitDirectoryTable(root, RootName(), 2);
      WriteCluster(EncodeTable(root[..]), ROOT_CLUSTER);
    }

    method Initialize()
      requires Valid()
      modifies image, fat, `log
      ensures Valid() && State() == Mount(old(State()))
    {
      var empty := IsEmptyStorage();
      if empty {
        CreateFat32();
      } else {
        LoadFat();
      }
    }

    // -------------------------------------------------------------- read

    method Read(r: Request, buf: array<byte>) returns (code: int)
      requires Valid() && ReadFits(State(), r) && buf != image
      requires buf.Length >= 2048 * |Volume.Read(State(), r).clusters|
      requires buf as object != fat && buf as object != dir
      modifies dir, buf
      ensures Valid() && State() == old(State())
      ensures code == Volume.Read(State(), r).code
      ensures buf[..] == PutBytes(old(buf[..]), 0, Gather(Disk(), Volume.Read(State(), r).clusters))
    {
      ghost var was := buf[..];
      PutNothing(was, 0);
      LoadDirectory(r.parent);
      for i := 0 to 64
        invariant FirstNamed(dir[..], r.name, r.ext, 0) == FirstNamed(dir[..], r.name, r.ext, i)
        invariant dir[..] == Tab(Disk(), r.parent) && buf[..] == was
      {
        if dir[i].name == r.name && dir[i].ext == r.ext {
          if IsSubdirectory(dir[i]) {
            return 1;
          }
          if r.size < dir[i].filesize {
            return -1;
          }
          var count := DivCeil(dir[i].filesize, CLUSTER_SIZE) % 0x1_0000;
          CopyChain(dir[i].clusterLow, count, buf);
          return 0;
        }
      }
      return 2;
    }

    /** The copying loop of `read`. */
    method CopyChain(head: nat, count: nat, buf: array<byte>)
      requires Valid() && buf != image && buf as object != fat && buf as object != dir
      requires Clusters(ReadWalk(fat[..], head, count))
      requires buf.Length >= 2048 * |ReadWalk(fat[..], head, count)|
      modifies buf
      ensures buf[..] == PutBytes(old(buf[..]), 0, Gather(Disk(), ReadWalk(fat[..], head, count)))
    {
      hide ReadWalk, Gather, DecodeTable, PutBytes, DiskOf;
      ghost var was, disk, all := buf[..], Disk(), ReadWalk(fat[..], head, count);
      var cluster: nat := head;
      var j := 0;
      ghost var copied: seq<nat> := [];
      PutNothing(was, 0);
      ReadWalkEnds(fat[..], head, disk);
      while j < count
        invariant 0 <= j <= count && |copied| == j
        invariant all == copied + ReadWalk(fat[..], cluster, count - j)
        invariant buf[..] == PutBytes(was, 0, Gather(disk, copied))
      {
        assert all[j] == ReadWalk(fat[..], cluster, count - j)[0] == cluster;
        ReadWalkStep(fat[..], cluster, count - j);
        ReadCluster(buf, j * CLUSTER_SIZE, cluster);
        GatherAppend(disk, copied, cluster);
        PutAppend(was, 0, Gather(disk, copied), disk[cluster]);
        copied := copied + [cluster];
        cluster := fat[cluster] % 0x1_0000;
        j := j + 1;
        if cluster >= 0xFFF8 {
          assert all == copied;
          return;
        }
      }
      ReadWalkEnds(fat[..], cluster, disk);
      assert all == copied;
    }

    method ReadDirectory(r: Request, buf: array<byte>) returns (code: int)
      requires Valid() && r.parent < 512 && buf != image && buf.Length >= 2048
      requires buf as object != fat && buf as object != dir
      requires Volume.ReadDirectory(State(), r).Found? ==> Volume.ReadDirectory(State(), r).cluster < |Disk()|
      modifies dir, buf
      ensures Valid() && State() == old(State())
      ensures code == Volume.ReadDirectory(State(), r).Code()
      ensures buf[..] == match Volume.ReadDirectory(State(), r)
                         case Found(c) => PutBytes(old(buf[..]), 0, Disk()[c])
                         case _ => old(buf[..])
    {
      if fat[r.parent] == 0 {
        return 2;
      }
      LoadDirectory(r.parent);
      for i := 0 to 64
        invariant FirstLiveNamed(dir[..], r.name, 0) == FirstLiveNamed(dir[..], r.name, i)
        invariant dir[..] == Tab(Disk(), r.parent) && buf[..] == old(buf[..])
      {
        if dir[i].Live() {
          if dir[i].name == r.name {
            if dir[i].attribute == ATTR_SUBDIRECTORY {
              ReadCluster(buf, 0, dir[i].clusterLow);
              return 0;
            } else {
              return 1;
            }
          }
        }
      }
      return 2;
    }

    // -------------------------------------------------------------- write

    method Write(r: Request) returns (code: int)
      requires Valid() && WriteFits(State(), r)
      modifies image, fat, dir, `log
      ensures Valid()
      ensures code == Volume.Write(old(State()), r).code && fat[..] == Volume.Write(old(State()), r).fat
      ensures log == old(log) + Volume.Write(old(State()), r).log
      ensures Disk() == Replay(old(Disk()), Volume.Write(old(State()), r).log)
    {
      LoadDirectory(r.parent);
      LoadFat();
      if fat[r.parent] == 0 {
        return 2;
      }
      FirstFreeIsHead(fat[..], 0);
      var cluster := ScanFree(0);
      for i := 0 to 64
        invariant r.size != 0 ==> FirstNamed(dir[..], r.name, r.ext, 0) == FirstNamed(dir[..], r.name, r.ext, i)
        invariant dir[..] == Tab(Disk(), r.parent)
      {
        if dir[i].name == r.name {
          if r.size != 0 && dir[i].ext == r.ext {
            return 1;
          }
        }
      }
      var slot := ScanDead();
      if r.size == 0 {
        AddDirectory(r, cluster, slot);
      } else {
        AddFile(r, cluster, slot);
      }
      return 0;
    }

    method AddDirectory(r: Request, cluster: nat, slot: nat)
      requires Valid() && r.parent < 512 && dir[..] == Tab(Disk(), r.parent)
      requires Free(fat[..], 0) != [] && cluster == Free(fat[..], 0)[0]
      requires slot == FirstDead(Tab(Disk(), r.parent), 0) < 64
      modifies image, fat, dir, `log
      ensures Valid()
      ensures fat[..] == MakeDirectory(old(State()), r, old(fat[..])).fat
      ensures log == old(log) + MakeDirectory(old(State()), r, old(fat[..])).log
      ensures Disk() == Replay(old(Disk()), MakeDirectory(old(State()), r, old(fat[..])).log)
    {
      hide DecodeTable, EncodeTable, DecodeFat, EncodeFat, InitTable, Replay, Free, FirstDead;
      ghost var o := MakeDirectory(State(), r, fat[..]);
      ghost var disk := Disk();
      fat[cluster] := END_OF_FILE;
      assert fat[..] == o.fat;
      WriteCluster(EncodeFat(fat[..]), FAT_CLUSTER);
      var table := new Entry[64](_ => EMPTY_ENTRY);
      assert table[..] == EmptyTable();
      InitDirectoryTable(table, r.name, cluster);
      WriteCluster(EncodeTable(table[..]), cluster);
      dir[slot] := table[0];
      assert dir[..] == Tab(disk, r.parent)[slot := table[0]];
      WriteCluster(EncodeTable(dir[..]), r.parent);
      ThreeWrites(disk, o.log[0], o.log[1], o.log[2]);
    }

    /** The entry fields `write` sets before the loop; the size is added up inside it. */
    static function Started(e: Entry, r: Request, head: u16): Entry
    {
      e.(name := r.name, ext := r.ext, attribute := 0, userAttribute := UATTR_NOT_EMPTY, clusterLow := head)
    }

    static function Sized(e: Entry, more: nat): Entry
    {
      e.(filesize := (e.filesize + more) % 0x1_0000_0000)
    }

    static lemma SizedNothing(e: Entry)
      ensures Sized(e, 0) == e
    {
    }

    static lemma SizedTwice(e: Entry, a: nat, b: nat)
      ensures Sized(Sized(e, a), b) == Sized(e, a + b)
    {
    }

    static lemma SizedIsFileEntry(e: Entry, r: Request, head: u16)
      ensures Sized(Started(e, r, head), r.size) == FileEntry(e, r.name, r.ext, head, r.size)
    {
    }

    /** One round of the loop in `write`: two scans, a link, a block, and the table that links it. */
    method StoreRound(r: Request, i: nat, total: nat, slot: nat)
      requires Valid() && 0 < r.size <= |r.buf| && i < total == Links(r.size) && slot < 64
      requires FirstFree(fat[..], 0) < 512 && FirstFree(fat[..], FirstFree(fat[..], 0) + 1) < 512
      modifies image, fat, dir, `log
      ensures Valid()
      ensures var was, c := old(fat[..]), FirstFree(old(fat[..]), 0);
              var data, table := DiskWrite(c, Block(r.buf[..r.size], i)), FatWrite(fat[..]);
              && fat[..] == was[c := if i + 1 < total then FirstFree(was, c + 1) else END_OF_FILE]
              && dir[..] == old(dir[..])[slot := Sized(old(dir[slot]),
                                                       if i + 1 < total then 2048 else r.size - 2048 * i)]
              && log == old(log) + [data] + [table] && Disk() == Put(Put(old(Disk()), data), table)
    {
      hide DecodeTable, EncodeTable, DecodeFat, EncodeFat, Block, Padded, FirstFree;
      LinksIsCeiling(r.size);
      ghost var was, slots := fat[..], dir[..];
      var c := ScanFree(0);
      var next := ScanFree(c + 1);
      if i < total - 1 {
        fat[c] := next;
        dir[slot] := Sized(dir[slot], CLUSTER_MAP_SIZE * CLUSTER_BLOCK_COUNT);
        FullBlock(r.buf[..r.size], i);
        assert r.buf[..r.size][2048 * i..2048 * i + 2048] == r.buf[2048 * i..2048 * i + 2048];
        WriteCluster(r.buf[2048 * i..2048 * i + 2048], c);
      } else {
        fat[c] := END_OF_FILE;
        dir[slot] := Sized(dir[slot], r.size - CLUSTER_SIZE * i);
        var rest := LastBlock(r, i);
        WriteCluster(rest[..], c);
      }
      ghost var link: u32 := if i + 1 < total then next else END_OF_FILE;
      assert fat[..] == was[c := link];
      assert dir[..] == slots[slot := dir[slot]];
      WriteCluster(EncodeFat(fat[..]), FAT_CLUSTER);
    }

    method AddFile(r: Request, cluster: nat, slot: nat)
      requires Valid() && r.parent < 512 && dir[..] == Tab(Disk(), r.parent)
      requires 0 < r.size <= |r.buf| && |Free(fat[..], 0)| > Links(r.size) && cluster == Free(fat[..], 0)[0]
      requires slot == FirstDead(Tab(Disk(), r.parent), 0) < 64
      modifies image, fat, dir, `log
      ensures Valid()
      ensures fat[..] == MakeFile(old(State()), r, old(fat[..])).fat
      ensures log == old(log) + MakeFile(old(State()), r, old(fat[..])).log
      ensures Disk() == Replay(old(Disk()), MakeFile(old(State()), r, old(fat[..])).log)
    {
      hide DecodeTable, EncodeTable, DecodeFat, EncodeFat, Replay, Free, FirstDead, FirstFree, Linked, FileLog, Block,
           Padded, Links, Sized;
      ghost var fat0, disk0, dir0, log0 := fat[..], Disk(), dir[..], log;
      ghost var n := Links(r.size);
      ghost var cs, b := Free(fat0, 0)[..n], r.buf[..r.size];
      var total := Clusterise(r.size);
      dir[slot] := Started(dir[slot], r, cluster);
      ghost var started := dir[slot];
      LoopStart(fat0, disk0, cs, b);
      SizedNothing(started);
      for i := 0 to total
        invariant Valid()
        invariant fat[..] == Linked(fat0, cs, i)
        invariant log == log0 + FileLog(fat0, cs, b, i)
        invariant Disk() == Replay(disk0, FileLog(fat0, cs, b, i))
        invariant dir[..] == dir0[slot := Sized(started, if i < total then 2048 * i else r.size)]
      {
        AllocationRound(fat0, n, i);
        LinkedStep(fat0, cs, i);
        FileLogStep(fat0, disk0, cs, b, i);
        StoreRound(r, i, total, slot);
        SizedTwice(started, 2048 * i, if i + 1 < total then 2048 else r.size - 2048 * i);
      }
      SizedIsFileEntry(dir0[slot], r, cs[0]);
      WriteCluster(EncodeTable(dir[..]), r.parent);
      ReplayAppend(disk0, FileLog(fat0, cs, b, n), TableWrite(r.parent, dir[..]));
    }

    /** The rounding in `write` agrees with `divceil`. */
    static method Clusterise(size: u32) returns (total: nat)
      requires size > 0
      ensures total == Links(size) == DivCeil(size, CLUSTER_SIZE) && total > 0
    {
      total := size / CLUSTER_SIZE;
      assert total * CLUSTER_SIZE == size - size % CLUSTER_SIZE;
      if total * CLUSTER_SIZE < size {
        total := total + 1;
      }
    }

    /** The last block: the rest of the buffer, and zeros after it. */
    method LastBlock(r: Request, i: nat) returns (rest: array<byte>)
      requires 0 < r.size <= |r.buf| && i + 1 == Links(r.size)
      ensures fresh(rest) && rest.Length == 2048 && rest[..] == Block(r.buf[..r.size], i)
    {
      LinksIsCeiling(r.size);
      var used := r.size - CLUSTER_SIZE * i;
      rest := new byte[2048];
      CopyIn(rest, 0, r.buf[CLUSTER_SIZE * i..r.size]);
      for j := used to 2048
        invariant rest[..used] == r.buf[2048 * i..r.size]
        invariant forall k :: used <= k < j ==> rest[k] == 0
      {
        rest[j] := 0;
      }
      assert rest[..] == rest[..used] + Zeros(2048 - used);
      assert rest[..] == Block(r.buf[..r.size], i);
    }

    // -------------------------------------------------------------- delete

    method Delete(r: Request) returns (code: int)
      requires Valid() && DeleteFits(State(), r)
      modifies image, fat, dir, `log
      ensures Valid()
      ensures code == Volume.Delete(old(State()), r).code && fat[..] == Volume.Delete(old(State()), r).fat
      ensures log == old(log) + Volume.Delete(old(State()), r).log
      ensures Disk() == Replay(old(Disk()), Volume.Delete(old(State()), r).log)
    {
      hide DecodeTable, EncodeTable, DecodeFat, EncodeFat, Walk, InBounds, StrLen, NameBytes, Zeroed;
      LoadDirectory(r.parent);
      for i := 1 to 64
        invariant FirstHit(dir[..], r.name, r.ext, 1) == FirstHit(dir[..], r.name, r.ext, i)
        invariant dir[..] == Tab(Disk(), r.parent) && State() == old(State()) && log == old(log)
      {
        if dir[i].Live() {
          var len := StrLen(NameBytes(dir[i]));
          if (r.name + r.ext)[..len] == NameBytes(dir[i])[..len] {
            if dir[i].attribute != 0 {
              code := RemoveDirectory(r, i);
              return;
            } else if dir[i].ext == r.ext {
              RemoveFile(r, i);
              return 0;
            }
          }
        }
      }
      return 1;
    }

    method RemoveDirectory(r: Request, i: nat) returns (code: int)
      requires Valid() && 1 <= i < 64 && r.parent < |Disk()| && dir[..] == Tab(Disk(), r.parent)
      requires dir[i].attribute != 0 && dir[i].clusterLow < 512
      modifies image, fat, dir, `log
      ensures Valid()
      ensures var s := old(State()); var e := Tab(s.disk, r.parent)[i];
              if EmptyDirectory(Tab(s.disk, e.clusterLow)) then
                && code == 0 && fat[..] == Zeroed(s.fat, [e.clusterLow])
                && var log2 := [TableWrite(r.parent, Tab(s.disk, r.parent)[i := Dead(e)]), FatWrite(fat[..])];
                   log == old(log) + log2 && Disk() == Replay(s.disk, log2)
              else code == 2 && State() == s && log == old(log)
    {
      hide DecodeTable, EncodeTable, DecodeFat, EncodeFat, Replay;
      ghost var s, t := State(), dir[..];
      var child: nat := dir[i].clusterLow;
      var b := new byte[2048];
      ReadCluster(b, 0, child);
      assert b[..] == Disk()[child];
      var dt := DecodeTable(b[..]);
      for j := 1 to 64
        invariant forall k :: 1 <= k < j ==> !dt[k].Live()
      {
        if dt[j].Live() {
          assert dt == Tab(s.disk, child) && !EmptyDirectory(dt);
          return 2;
        }
      }
      fat[child] := 0;
      ZeroedOne(s.fat, child);
      dir[i] := Dead(dir[i]);
      assert dir[..] == t[i := Dead(t[i])] && fat[..] == s.fat[child := 0];
      WriteCluster(EncodeTable(dir[..]), r.parent);
      WriteCluster(EncodeFat(fat[..]), FAT_CLUSTER);
      ThreeWrites(s.disk, TableWrite(r.parent, dir[..]), FatWrite(fat[..]), FatWrite(fat[..]));
      return 0;
    }

    method RemoveFile(r: Request, i: nat)
      requires Valid() && 1 <= i < 64 && r.parent < |Disk()| && dir[..] == Tab(Disk(), r.parent)
      requires dir[i].attribute == 0 && InBounds(fat[..], dir[i].clusterLow, LinkCount(dir[i].filesize))
      modifies image, fat, dir, `log
      ensures Valid()
      ensures var s := old(State()); var e := Tab(s.disk, r.parent)[i];
              && fat[..] == Zeroed(s.fat, Freed(s, e))
              && var log2 := [TableWrite(r.parent, Tab(s.disk, r.parent)[i := Dead(e)]), FatWrite(fat[..])];
                 log == old(log) + log2 && Disk() == Replay(s.disk, log2)
    {
      hide DecodeTable, EncodeTable, DecodeFat, EncodeFat, Replay, InBounds, Zeroed, Walk;
      ghost var s, t := State(), dir[..];
      dir[i] := Dead(dir[i]);
      assert dir[..] == t[i := Dead(t[i])];
      WriteCluster(EncodeTable(dir[..]), r.parent);
      var count := DivCeil(dir[i].filesize, CLUSTER_SIZE) % 0x1_0000;
      assert count == LinkCount(t[i].filesize);
      ReleaseChain(dir[i].clusterLow, count);
      WriteCluster(EncodeFat(fat[..]), FAT_CLUSTER);
      ThreeWrites(s.disk, TableWrite(r.parent, dir[..]), FatWrite(fat[..]), FatWrite(fat[..]));
    }

    /** The two loops of `delete`: first collect the chain, then clear it. */
    method ReleaseChain(head: nat, count: nat)
      requires Valid() && InBounds(fat[..], head, count)
      modifies fat
      ensures |Walk(old(fat[..]), head, count)| == count && Clusters(Walk(old(fat[..]), head, count))
      ensures fat[..] == Zeroed(old(fat[..]), Walk(old(fat[..]), head, count))
    {
      hide DecodeTable, EncodeTable, DecodeFat, EncodeFat, Walk, InBounds;
      ghost var was, walk := fat[..], Walk(fat[..], head, count);
      InBoundsClusters(fat[..], head, count);
      var toZeros := new nat[count];
      var current: nat := head;
      for i := 0 to count
        invariant fat[..] == was && toZeros[..i] == walk[..i]
        invariant InBounds(was, current, count - i) && walk[i..] == Walk(was, current, count - i)
      {
        WalkStep(was, current, count - i);
        assert walk[i] == walk[i..][0];
        toZeros[i] := current;
        current := fat[current] % 0x1_0000;
        assert walk[i + 1..] == walk[i..][1..];
      }
      assert toZeros[..] == toZeros[..count] == walk[..count] == walk;
      for i := 0 to count
        invariant toZeros[..] == walk && fat[..] == Zeroed(was, walk[..i])
      {
        fat[toZeros[i]] := 0;
        ZeroedStep(was, walk, i);
      }
      assert walk[..count] == walk;
    }
  }
}
