/** ata_read_sector of kernel/drivers/ata.c against a modelled disk. */
module Ata {
  import opened Bytes

  const SECTOR := 512
  const LBA28 := 0x1000_0000

  type Sector = s: seq<byte> | |s| == SECTOR witness seq(SECTOR, _ => 0)

  /** Every sector address answers. */
  type Disk = nat -> Sector

  /** The command registers, and the address the drive reads from them. */
  class Drive {
    const disk: Disk
    var driveSel: byte
    var secCount: byte
    var lbaLo: byte
    var lbaMid: byte
    var lbaHi: byte

    constructor (disk: Disk)
      ensures this.disk == disk
    {
      this.disk := disk;
      driveSel, secCount, lbaLo, lbaMid, lbaHi := 0, 0, 0, 0, 0;
    }

    /** LBA28: four bits in the drive register, eight in each of the others. */
    function Address(): nat
      reads this
    {
      lbaLo as int + 0x100 * lbaMid as int + 0x1_0000 * lbaHi as int + 0x100_0000 * (driveSel as int % 16)
    }

    /** The drive is told exactly the low 28 bits, and the buffer gets that sector. */
    method ReadSector(lba: u32, buffer: array<byte>)
      requires buffer.Length == SECTOR
      modifies this, buffer
      ensures Address() == lba % LBA28
      ensures buffer[..] == disk(lba % LBA28)
    {
      driveSel := 0xE0 + lba / 0x100_0000 % 16; // the low nibble of 0xE0 is clear, so `|` is `+`
      secCount := 1;
      lbaLo := lba % 0x100;
      lbaMid := lba / 0x100 % 0x100;
      lbaHi := lba / 0x1_0000 % 0x100;
      Reassembles(lba);
      var source := disk(Address());
      var k := 0;
      while k < 256
        modifies buffer
        invariant 0 <= k <= 256
        invariant buffer[..2 * k] == source[..2 * k]
      {
        var word := U16(source, 2 * k);
        buffer[2 * k] := word % 0x100;
        buffer[2 * k + 1] := word / 0x100;
        k := k + 1;
      }
      assert buffer[..] == source;
    }
  }

  lemma ShiftTwice(n: nat)
    ensures n / 0x1_0000 == n / 0x100 / 0x100
    ensures n / 0x100_0000 == n / 0x1_0000 / 0x100
  {
  }

  lemma LowNibble(n: nat)
    ensures (0xE0 + n % 16) % 16 == n % 16
  {
  }

  lemma RemainderIs(n: nat, q: nat, r: nat)
    requires n == LBA28 * q + r && r < LBA28
    ensures n % LBA28 == r
  {
  }

  lemma LowBits(n: nat, high: nat)
    requires high == n / 0x100_0000
    ensures n % LBA28 == n % 0x100_0000 + 0x100_0000 * (high % 16)
  {
    var low, q, r := n % 0x100_0000, high / 16, high % 16;
    assert n == LBA28 * q + (low + 0x100_0000 * r);
    RemainderIs(n, q, low + 0x100_0000 * r);
  }

  lemma Reassembles(lba: u32)
    ensures lba % 0x100 + 0x100 * (lba / 0x100 % 0x100) + 0x1_0000 * (lba / 0x1_0000 % 0x100)
            + 0x100_0000 * ((0xE0 + lba / 0x100_0000 % 16) % 16) == lba % LBA28
  {
    ShiftTwice(lba);
    LowNibble(lba / 0x100_0000);
    LowBits(lba, lba / 0x100_0000);
    var a, b := lba / 0x100, lba / 0x1_0000;
    assert lba == lba % 0x100 + 0x100 * a && a == a % 0x100 + 0x100 * b && b == b % 0x100 + 0x100 * (lba / 0x100_0000);
  }
}
