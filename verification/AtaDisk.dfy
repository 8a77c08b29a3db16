/**
 * The ATA PIO block driver, over a drive modelled by its task-file registers and its 16-bit data port
 * (sections 9.5 and 9.6 of ATA/ATAPI-6). Status polling is left out: the drive is always ready.
 */
module AtaDisk {
  import opened Bytes
  import opened BlockDevice

  datatype Mode = Idle | Reading | Writing

  // ---------------------------------------------------------------- the driver's constants

  const DRIVE_PORT: nat := 0x1F6
  const COUNT_PORT: nat := 0x1F2
  const LOW_PORT: nat := 0x1F3
  const MID_PORT: nat := 0x1F4
  const HIGH_PORT: nat := 0x1F5
  const COMMAND_PORT: nat := 0x1F7
  const READ_SECTORS: byte := 0x20
  const WRITE_SECTORS: byte := 0x30
  const HALF_BLOCK_SIZE: nat := 256

  /** The block address the drive assembles from its registers. */
  function Address(drive: byte, high: byte, mid: byte, low: byte): nat
  {
    drive % 0x10 * 0x100_0000 + high as int * 0x1_0000 + mid as int * 0x100 + low
  }

  /** The bits the driver puts in the drive register: LBA mode and address bits 24 to 27. */
  function DriveBits(lba: u32): byte { 0xE0 + lba / 0x100_0000 % 0x10 }

  /**
   * The four register values recombine to the low 28 bits of the address, so to the address itself exactly
   * when it fits them; the top of the drive register selects block addressing on the first drive.
   */
  lemma AddressSplits(lba: u32)
    ensures var a := Address(DriveBits(lba), lba / 0x1_0000 % 0x100, lba / 0x100 % 0x100, lba % 0x100);
            a == lba % 0x1000_0000 && (a == lba <==> lba < 0x1000_0000) && DriveBits(lba) / 0x10 == 0xE
  {
    hide DriveBits;
    DriveBitsTop(lba);
    LowBits(lba);
    TopBits(lba);
  }

  lemma DriveBitsTop(lba: u32)
    ensures DriveBits(lba) % 0x10 == lba / 0x100_0000 % 0x10 && DriveBits(lba) / 0x10 == 0xE
  {
  }

  lemma LowBits(lba: u32)
    ensures lba % 0x100_0000 == lba % 0x100 + 0x100 * (lba / 0x100 % 0x100) + 0x1_0000 * (lba / 0x1_0000 % 0x100)
  {
    U32Join(lba);
  }

  lemma TopBits(lba: u32)
    ensures lba % 0x1000_0000 == lba % 0x100_0000 + 0x100_0000 * (lba / 0x100_0000 % 0x10)
  {
  }

  // ---------------------------------------------------------------- the drive

  /** The task file: register `r` of the primary channel. */
  function Register(r: nat): nat { 0x1F0 + r }

  /** Bit 6 of the drive register: addresses are block numbers. */
  predicate BlockAddressing(drive: byte) { drive / 0x40 % 2 == 1 }

  class AtaDrive {
    const storage: array<byte>
    var drive: byte
    var count: byte
    var low: byte
    var mid: byte
    var high: byte
    var mode: Mode
    var cursor: nat  // next byte of the transfer
    var left: nat    // bytes still to be transferred

    constructor (storage: array<byte>)
      ensures this.storage == storage && mode == Idle
    {
      this.storage := storage;
      drive, count, low, mid, high := 0, 0, 0, 0, 0;
      mode, cursor, left := Idle, 0, 0;
    }

    /**
     * A byte written to a port; READ SECTOR(S) (20h) or WRITE SECTOR(S) (30h) starts a transfer at the addressed
     * block, and a count of 0 means 256 blocks.
     */
    method Out(port: nat, value: byte)
      modifies this
      ensures drive == if port == Register(6) then value else old(drive)
      ensures count == if port == Register(2) then value else old(count)
      ensures low == if port == Register(3) then value else old(low)
      ensures mid == if port == Register(4) then value else old(mid)
      ensures high == if port == Register(5) then value else old(high)
      ensures port == Register(7) && BlockAddressing(drive) ==>
                && mode == (if value == 0x20 then Reading else if value == 0x30 then Writing else Idle)
                && cursor == 512 * Address(drive, high, mid, low) && left == 512 * (if count == 0 then 256 else count)
    {
      if port == Register(6) { drive := value; }
      else if port == Register(2) { count := value; }
      else if port == Register(3) { low := value; }
      else if port == Register(4) { mid := value; }
      else if port == Register(5) { high := value; }
      else if port == Register(7) {
        mode := Idle;
        if BlockAddressing(drive) {
          mode := if value == 0x20 then Reading else if value == 0x30 then Writing else Idle;
          cursor, left := 512 * Address(drive, high, mid, low), 512 * (if count == 0 then 256 else count);
        }
      }
    }

    /** A word into the data port lands on the medium low byte first. */
    method Out16(word: u16)
      requires mode == Writing && left >= 2 && cursor + 2 <= storage.Length
      modifies this`cursor, this`left, storage
      ensures storage[..] == PutBytes(old(storage[..]), old(cursor), [word % 0x100, word / 0x100])
      ensures cursor == old(cursor) + 2 && left == old(left) - 2
    {
      storage[cursor] := word % 0x100;
      storage[cursor + 1] := word / 0x100;
      cursor, left := cursor + 2, left - 2;
    }

    method In16() returns (word: u16)
      requires mode == Reading && left >= 2 && cursor + 2 <= storage.Length
      modifies this`cursor, this`left
      ensures word == storage[old(cursor)] as int + 0x100 * storage[old(cursor) + 1] as int
      ensures cursor == old(cursor) + 2 && left == old(left) - 2
    {
      word := storage[cursor] as int + 0x100 * storage[cursor + 1] as int;
      cursor, left := cursor + 2, left - 2;
    }
  }

  lemma TopSelects(drive: byte)
    requires drive / 0x10 == 0xE
    ensures BlockAddressing(drive)
  {
  }

  method Select(disk: AtaDrive, lba: u32, count: byte, command: byte)
    requires lba < 0x1000_0000 && (command == READ_SECTORS || command == WRITE_SECTORS)
    modifies disk
    ensures disk.mode == if command == READ_SECTORS then Reading else Writing
    ensures disk.cursor == 512 * lba && disk.left >= 512 * count as int
  {
    hide Address, DriveBits, BlockAddressing;
    AddressSplits(lba);
    TopSelects(DriveBits(lba));
    disk.Out(DRIVE_PORT, DriveBits(lba));
    disk.Out(COUNT_PORT, count);
    disk.Out(LOW_PORT, lba % 0x100);
    disk.Out(MID_PORT, lba / 0x100 % 0x100);
    disk.Out(HIGH_PORT, lba / 0x1_0000 % 0x100);
    disk.Out(COMMAND_PORT, command);
  }

  /** `write_blocks` over ports: the drive ends up exactly as the RAM disk's `write_blocks` leaves its image. */
  method WriteBlocks(disk: AtaDrive, src: seq<byte>, lba: u32, count: byte)
    requires lba < 0x1000_0000 && |src| >= 512 * count as int
    requires 512 * (lba as int + count as int) <= disk.storage.Length
    modifies disk, disk.storage
    ensures disk.storage[..] == PutBytes(old(disk.storage[..]), 512 * lba, src[..512 * count as int])
  {
    hide PutBytes;
    ghost var was := disk.storage[..];
    Select(disk, lba, count, WRITE_SECTORS);
    PutNothing(was, 512 * lba);
    for i := 0 to count as int
      invariant disk.mode == Writing && disk.cursor == 512 * lba + 512 * i && disk.left >= 512 * (count as int - i)
      invariant disk.storage[..] == PutBytes(was, 512 * lba, src[..512 * i])
    {
      for j := 0 to HALF_BLOCK_SIZE
        invariant disk.mode == Writing && disk.cursor == 512 * lba + 512 * i + 2 * j
        invariant disk.left >= 512 * (count as int - i) - 2 * j
        invariant disk.storage[..] == PutBytes(was, 512 * lba, src[..512 * i + 2 * j])
      {
        var k := 2 * (HALF_BLOCK_SIZE * i + j);
        var word: u16 := src[k] as int + 0x100 * src[k + 1] as int;
        disk.Out16(word);
        PutAppend(was, 512 * lba, src[..k], [src[k], src[k + 1]]);
        assert src[..k] + [src[k], src[k + 1]] == src[..k + 2];
      }
    }
  }

  /** One word from the data port, stored low byte first. */
  method LoadWord(disk: AtaDrive, dst: array<byte>, at: nat)
    requires at + 2 <= dst.Length && dst != disk.storage
    requires disk.mode == Reading && disk.left >= 2 && disk.cursor + 2 <= disk.storage.Length
    modifies disk`cursor, disk`left, dst
    ensures dst[..] == PutBytes(old(dst[..]), at, [disk.storage[old(disk.cursor)], disk.storage[old(disk.cursor) + 1]])
    ensures disk.cursor == old(disk.cursor) + 2 && disk.left == old(disk.left) - 2
  {
    var word := disk.In16();
    dst[at] := word % 0x100;
    dst[at + 1] := word / 0x100;
  }

  /** The inner loop of `read_blocks`: the 256 words of one block. */
  method LoadBlock(disk: AtaDrive, dst: array<byte>, at: nat)
    requires at + 512 <= dst.Length && dst != disk.storage
    requires disk.mode == Reading && disk.left >= 512 && disk.cursor + 512 <= disk.storage.Length
    modifies disk`cursor, disk`left, dst
    ensures dst[..] == PutBytes(old(dst[..]), at, disk.storage[old(disk.cursor)..old(disk.cursor) + 512])
    ensures disk.cursor == old(disk.cursor) + 512 && disk.left == old(disk.left) - 512
  {
    hide PutBytes;
    ghost var was, c, medium := dst[..], disk.cursor, disk.storage[..];
    PutNothing(was, at);
    assert medium[c..c + 2 * 0] == [];
    for j := 0 to HALF_BLOCK_SIZE
      invariant disk.cursor == c + 2 * j && disk.left == old(disk.left) - 2 * j
      invariant dst[..] == PutBytes(was, at, medium[c..c + 2 * j])
    {
      LoadWord(disk, dst, at + 2 * j);
      PutAppend(was, at, medium[c..c + 2 * j], [medium[c + 2 * j], medium[c + 2 * j + 1]]);
      assert medium[c..c + 2 * j] + [medium[c + 2 * j], medium[c + 2 * j + 1]] == medium[c..c + 2 * (j + 1)];
    }
  }

  /** `read_blocks` over ports: the buffer ends up exactly as the RAM disk's `read_blocks` fills it. */
  method ReadBlocks(disk: AtaDrive, dst: array<byte>, lba: u32, count: byte)
    requires lba < 0x1000_0000 && dst.Length >= 512 * count as int
    requires 512 * (lba as int + count as int) <= disk.storage.Length
    requires dst != disk.storage
    modifies disk, dst
    ensures dst[..] == PutBytes(old(dst[..]), 0, disk.storage[512 * lba..512 * (lba as int + count as int)])
  {
    hide PutBytes, Address, DriveBits;
    ghost var was, medium := dst[..], disk.storage[..];
    ghost var start := 512 * lba;
    Select(disk, lba, count, READ_SECTORS);
    PutNothing(was, 0);
    assert medium[start..start + 512 * 0] == [];
    var target := 0;
    for i := 0 to count as int
      invariant target == HALF_BLOCK_SIZE * i
      invariant disk.mode == Reading && disk.cursor == start + 512 * i && disk.left >= 512 * (count as int - i)
      invariant dst[..] == PutBytes(was, 0, medium[start..start + 512 * i]) && disk.storage[..] == medium
    {
      LoadBlock(disk, dst, 2 * target);
      PutAppend(was, 0, medium[start..start + 512 * i], medium[start + 512 * i..start + 512 * i + 512]);
      assert medium[start..start + 512 * i] + medium[start + 512 * i..start + 512 * i + 512]
             == medium[start..start + 512 * (i + 1)];
      target := target + HALF_BLOCK_SIZE;
    }
  }

  /** What was laid over an image is what is read back from there. */
  lemma PutThenGet(img: seq<byte>, at: nat, data: seq<byte>)
    requires at + |data| <= |img|
    ensures PutBytes(img, at, data)[at..at + |data|] == data
  {
  }

  /** A drive and a RAM disk that hold the same bytes still do after the same `write_blocks`. */
  method WritesAgree(disk: AtaDrive, image: array<byte>, src: seq<byte>, lba: u32, count: byte)
    requires disk.storage != image && disk.storage[..] == image[..]
    requires lba < 0x1000_0000 && |src| >= 512 * count as int && 512 * (lba as int + count as int) <= image.Length
    modifies disk, disk.storage, image
    ensures disk.storage[..] == image[..]
  {
    hide PutBytes;
    assert |disk.storage[..]| == |image[..]|;
    WriteBlocks(disk, src, lba, count);
    BlockDevice.WriteBlocks(image, src, lba, count);
  }

  /** For every block count, reading back what was written restores the buffer byte for byte. */
  method StoreThenLoad(disk: AtaDrive, src: seq<byte>, dst: array<byte>, lba: u32, count: byte)
    requires lba < 0x1000_0000 && |src| == dst.Length == 512 * count as int
    requires 512 * (lba as int + count as int) <= disk.storage.Length
    requires dst != disk.storage
    modifies disk, disk.storage, dst
    ensures dst[..] == src
  {
    ghost var was := disk.storage[..];
    WriteBlocks(disk, src, lba, count);
    PutThenGet(was, 512 * lba, src);
    assert src[..512 * count as int] == src;
    ReadBlocks(disk, dst, lba, count);
  }
}
