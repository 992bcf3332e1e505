/**
 Where the disk image builder puts things: the FAT32 layout computed from the disk size,
 and the cylinder/head/sector fields of the partition table.
 */
module Fat32Geometry {

  const SECTOR_SIZE: int := 512
  const PART_START_LBA: int := 2048
  const SECS_PER_CLUST: int := 8
  const NUM_FATS: int := 2
  const RESERVED_SECS: int := 32
  const CLUSTER_SIZE: int := SECS_PER_CLUST * SECTOR_SIZE

  datatype Geometry = Geometry(partSectors: int, fatSectors: int, totalClusters: int) {
    function Fat1Lba(): int {
      PART_START_LBA + RESERVED_SECS
    }

    function Fat2Lba(): int {
      PART_START_LBA + RESERVED_SECS + fatSectors
    }

    function DataLba(): int {
      PART_START_LBA + RESERVED_SECS + NUM_FATS * fatSectors
    }

    function EndLba(): int {
      PART_START_LBA + partSectors
    }
  }

  function DataAreaSectors(partSectors: int, fatSectors: int): int {
    partSectors - RESERVED_SECS - NUM_FATS * fatSectors
  }

  function GeometryOf(diskSize: nat): Geometry {
    var partSectors := diskSize / SECTOR_SIZE - PART_START_LBA;
    var totalDataClusters := partSectors / SECS_PER_CLUST;
    var fatSectors := (totalDataClusters * 4 + SECTOR_SIZE - 1) / SECTOR_SIZE;
    Geometry(partSectors, fatSectors, DataAreaSectors(partSectors, fatSectors) / SECS_PER_CLUST)
  }

  /**
   Whenever the data area is not negative, each FAT has an entry for every cluster number in use,
   the FATs and the clusters follow one another without overlap, and all end inside the partition and the disk.
   */
  lemma GeometryFits(diskSize: nat)
    requires var g := GeometryOf(diskSize); DataAreaSectors(g.partSectors, g.fatSectors) >= 0
    ensures var g := GeometryOf(diskSize);
      && 0 <= g.totalClusters && 0 < g.fatSectors
      && (g.totalClusters + 2) * 4 <= g.fatSectors * SECTOR_SIZE
      && g.Fat1Lba() + g.fatSectors == g.Fat2Lba()
      && g.Fat2Lba() + g.fatSectors == g.DataLba()
      && g.DataLba() + g.totalClusters * SECS_PER_CLUST <= g.EndLba()
      && g.EndLba() * SECTOR_SIZE <= diskSize
      // and nothing is wasted: less than a sector of the disk, a cluster of data, a sector of each FAT
      && diskSize < (g.EndLba() + 1) * SECTOR_SIZE
      && g.EndLba() < g.DataLba() + (g.totalClusters + 1) * SECS_PER_CLUST
      && (g.fatSectors - 1) * SECTOR_SIZE < g.partSectors / SECS_PER_CLUST * 4
  {
  }

  // ----- Cylinder, head, sector -----

  const SECS_PER_TRACK: int := 63
  const MAX_HEADS: int := 255

  /** The first LBA that has no cylinder number of ten bits. */
  const CHS_LIMIT: int := 1024 * MAX_HEADS * SECS_PER_TRACK

  datatype Chs = Chs(c: int, h: int, s: int)

  function LbaToChs(lba: nat): Chs {
    var temp := lba / SECS_PER_TRACK;
    var c := temp / MAX_HEADS;
    if c > 1023 then Chs(1023, 254, 63) else Chs(c, temp % MAX_HEADS, lba % SECS_PER_TRACK + 1)
  }

  function ChsToLba(chs: Chs): int {
    (chs.c * MAX_HEADS + chs.h) * SECS_PER_TRACK + chs.s - 1
  }

  /** The conversion inverts exactly below the limit; above it the address is capped. */
  lemma ChsInverts(lba: nat)
    ensures var chs := LbaToChs(lba);
      && 0 <= chs.c <= 1023 && 0 <= chs.h <= 254 && 1 <= chs.s <= 63
      && (ChsToLba(chs) == lba <==> lba < CHS_LIMIT)
      && (lba >= CHS_LIMIT ==> ChsToLba(chs) == CHS_LIMIT - 1)
  {
    var temp := lba / SECS_PER_TRACK;
    assert temp == temp / MAX_HEADS * MAX_HEADS + temp % MAX_HEADS;
    assert lba == temp * SECS_PER_TRACK + lba % SECS_PER_TRACK;
    assert temp / MAX_HEADS > 1023 <==> temp >= 1024 * MAX_HEADS;
  }

  /** The three bytes of a partition entry: head, sector with the cylinder's high bits, cylinder's low byte. */
  function ChsBytes(chs: Chs): (int, int, int) {
    (chs.h, chs.s + chs.c / 0x100 * 0x40, chs.c % 0x100)
  }

  /** A sector number below 64 and two cylinder bits do not overlap, so or-ing them adds them. */
  lemma OrIsSum(s: bv16, high: bv16)
    requires s < 64 && high < 4
    ensures s | (high << 6) == s + (high << 6)
  {
  }

  /** Every field fits a byte, and the entry determines the address it encodes. */
  lemma ChsBytesDecode(lba: nat)
    ensures var (b0, b1, b2) := ChsBytes(LbaToChs(lba));
      && 0 <= b0 <= 255 && 0 <= b1 <= 255 && 0 <= b2 <= 255
      && Chs(b1 / 0x40 * 0x100 + b2, b0, b1 % 0x40) == LbaToChs(lba)
  {
    ChsInverts(lba);
  }
}
