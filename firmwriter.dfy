/** Writing a FIRM image to a NAND partition and vetting an update image
    before it is installed (source/arm9/firmwriter.c). */
module FirmWriter {
  import opened Types
  import Firm

  // ---------------------------------------------------------------------------
  // The decrypted-NAND device and the partition table
  // ---------------------------------------------------------------------------

  const SectorSize: nat := 0x200
  /** `FIRMWRITER_BLK_SIZE`: the largest chunk written and read back at once. */
  const BlkSize: nat := 0x2_0000

  /** The decrypted NAND as the writer sees it (`dev_decnand`).  Storage is
      byte-addressed: sector `s` holds the bytes at `s * SectorSize` up to
      `(s + 1) * SectorSize - 1`. */
  class Nand {
    var active: bool
    var bytes: map<nat, bv8>

    constructor (active: bool)
      ensures this.active == active && bytes == map[]
    {
      this.active := active;
      bytes := map[];
    }

    /** The byte the medium holds at address `a` (0 where nothing was stored). */
    function Byte(a: nat): bv8
      reads this
    {
      if a in bytes then bytes[a] else 0
    }

    /** The medium holds `data` from address `base` on. */
    ghost predicate Holds(base: nat, data: seq<bv8>)
      reads this
    {
      forall a: nat :: base <= a < base + |data| ==> Byte(a) == data[a - base]
    }

    /** No byte outside the addresses `lo` to `hi - 1` differs from the
        snapshot `orig` of the medium. */
    ghost predicate SameOutside(orig: map<nat, bv8>, lo: nat, hi: nat)
      reads this
    {
      forall a: nat :: !(lo <= a < hi) ==> Byte(a) == (if a in orig then orig[a] else 0)
    }

    /** Agreeing with a snapshot outside a range is agreeing with it outside
        any range that holds the first. */
    lemma SameOutsideWiden(orig: map<nat, bv8>, lo: nat, hi: nat, hi': nat)
      requires SameOutside(orig, lo, hi) && hi <= hi'
      ensures SameOutside(orig, lo, hi')
    {
    }

    /** No byte outside the addresses `lo` to `hi - 1` changed. */
    twostate predicate ChangedOnlyIn(lo: nat, hi: nat)
      reads this
    {
      SameOutside(old(bytes), lo, hi)
    }

    /** `write_sector`: stores `count` sectors taken from `src` at `from`.  The
        driver may report failure, and what the medium keeps, even after a
        reported success, is not promised (a worn cell, a transfer error): only
        the addressed sectors can change. */
    method WriteSectors(sector: nat, count: nat, src: array<bv8>, from: nat) returns (ok: bool)
      requires from + count * SectorSize <= src.Length
      modifies this
      ensures active == old(active)
      ensures ChangedOnlyIn(sector * SectorSize, (sector + count) * SectorSize)
    {
      ok := *;
      var stored: map<nat, bv8> := *;
      var lo, hi := sector * SectorSize, (sector + count) * SectorSize;
      bytes := map a: nat | a in bytes.Keys + stored.Keys ::
        if lo <= a < hi then (if a in stored then stored[a] else 0) else Byte(a);
    }

    /** `read_sector`: copies `count` sectors into the start of `dst`, or fails.
        The rest of `dst` keeps its old contents. */
    method ReadSectors(sector: nat, count: nat, dst: array<bv8>) returns (ok: bool)
      requires count * SectorSize <= dst.Length
      modifies dst
      ensures ok ==> forall k :: 0 <= k < count * SectorSize ==> dst[k] == Byte(sector * SectorSize + k)
      ensures forall k :: count * SectorSize <= k < dst.Length ==> dst[k] == old(dst[k])
    {
      ok := *;
      if ok {
        var base := sector * SectorSize;
        for k := 0 to count * SectorSize
          invariant forall j :: 0 <= j < k ==> dst[j] == Byte(base + j)
          invariant forall j :: count * SectorSize <= j < dst.Length ==> dst[j] == old(dst[j])
        {
          dst[k] := Byte(base + k);
        }
      }
    }
  }

  /** The NAND partition table: `partitionGetIndex` looks a name up in
      `index`, `partitionGetSectorOffset` an index up in `sectorOffset`. */
  datatype PartitionTable = PartitionTable(index: map<string, nat>, sectorOffset: map<nat, nat>)

  /** The first sector of partition `name`, when the table knows it. */
  function PartitionStart(table: PartitionTable, name: string): (r: Option<nat>)
    ensures r.Some? <==> name in table.index && table.index[name] in table.sectorOffset
    ensures r.Some? ==> r.value == table.sectorOffset[table.index[name]]
  {
    if name !in table.index then None
    else if table.index[name] !in table.sectorOffset then None
    else Some(table.sectorOffset[table.index[name]])
  }

  /** The address of the first byte of partition `name`. */
  function PartitionBase(table: PartitionTable, name: string): nat
    requires PartitionStart(table, name).Some?
  {
    PartitionStart(table, name).value * SectorSize
  }

  // ---------------------------------------------------------------------------
  // writeFirmPartition
  // ---------------------------------------------------------------------------

  /** The sighax signature written over the image's RSA signature on a
      retail unit, as one big-endian number: its first byte is the most
      significant. */
  const RetailNandSig: nat :=
      0x6EFF209C8F4AF61F062413D602CA6B4DA1EB5AB9B6F1A2AB226A711DA2CCC27C_74DE1741143BF69058284CAF444F92A45AAFD5A068043323D48AF1D0EC05564E_BC79B55134E91A86C3788C97BC29D5A58A8A45255843B89122C7804542F72677_C8DA5EB7429BAF18F7A8B02E8BB940FE990E9DC97EDCF49DDB18092C28206E74_6753CC7C6E92362AA8D546B38D9E8D4311A6B1930DA14897807E304B5E1EC085_6EEFD62CEAEEF28B08BD80397A181560AE6FCE39D09C39DC3DED8C870AB6ABCE_2894940C0E9C4174F0131A0DA0747C4A7A42C9EC3487F109E252B7A9B865AE47_7895E8D6A42A0717C40BCCC7A735F33B1E3766AB0E4B5D681BAB410734AB62B0

  /** The sighax signature for a development unit, in the same form. */
  const DevNandSig: nat :=
      0x88697CDCA9D1EA318256FCD9CED42964C1E98ABC6486B2F128EC02E71C5AE35D_63D3BF1246134081AF68754787FCB922571D7F61A30DE4FCFA8293A9DA512396_F1319A364968464CA9806E0A52567486754CDDD4C3A62BDCE255E0DEEC230129_C1BAE1AE95D786865637C1E65FAE83EDF8E7B07D17C0AADA8F055B640D45AB0B_AC76FF7B3439F5A4BFE8F7E0E103BCE995FAD913FB729D3D030B2644EC483964_24E0563A1B3E6A1F680B39FC1461886FA7A60B6B56C5A846554AE648FC46E30E_24678FAF1DC3CEB10C2A950F4FFA2083234ED8DCC3587A6D751A7E9AFA061569_55084FF2725B698EB17454D9B02B6B76BE47ABBE206294366987A4CAB42CBD0B

  function Pow256(k: nat): (p: nat)
    ensures p > 0
  {
    if k == 0 then 1 else 0x100 * Pow256(k - 1)
  }

  /** The `n` bytes of `value`, most significant first. */
  function BigEndianBytes(value: nat, n: nat): (r: seq<bv8>)
    ensures |r| == n
  {
    seq(n, i requires 0 <= i < n => (value / Pow256(n - 1 - i) % 0x100) as bv8)
  }

  /** `sighaxNandSigs[CFG_UNITINFO != 0]`: the retail signature when the
      unit-info register reads 0, the development one otherwise. */
  function NandSignature(unitInfo: bv8): (sig: seq<bv8>)
    ensures |sig| == 0x100
  {
    BigEndianBytes(if unitInfo == 0 then RetailNandSig else DevNandSig, 0x100)
  }

  /** The image with its RSA signature field (bytes 0x100 to 0x1FF) replaced. */
  function WithSignature(image: seq<bv8>, sig: seq<bv8>): seq<bv8>
    requires Firm.HeaderSize <= |image| && |sig| == 0x100
  {
    image[..0x100] + sig + image[0x200..]
  }

  /** Only the signature field changes, so the header the size scan reads
      (magic, entry points, section table) is the same. */
  lemma {:induction false} WithSignatureKeepsHeader(image: seq<bv8>, sig: seq<bv8>)
    requires Firm.HeaderSize <= |image| && |sig| == 0x100
    ensures |WithSignature(image, sig)| == |image|
    ensures forall k :: 0 <= k < |image| ==>
      WithSignature(image, sig)[k] == if 0x100 <= k < 0x200 then sig[k - 0x100] else image[k]
    ensures Firm.ParseHeader(WithSignature(image, sig)) == Firm.ParseHeader(image)
  {
    var signed := WithSignature(image, sig);
    assert signed[..0x100] == image[..0x100];
    forall i | 0 <= i < Firm.SectionCount
      ensures Firm.ParseSection(signed, i) == Firm.ParseSection(image, i)
    {
      var base := Firm.SectionTableOffset + Firm.SectionHeaderSize * i;
      assert signed[base + 16 .. base + 16 + Firm.DigestSize] == image[base + 16 .. base + 16 + Firm.DigestSize];
    }
  }

  /** The partition name starts with "firm" (`memcmp(part, "firm", 4)`; a
      shorter name differs at its terminator). */
  predicate IsFirmPartition(part: string)
  {
    |part| >= 4 && part[..4] == "firm"
  }

  /** The bytes the as-written loop puts on the medium: `writeSize>>9`
      sectors per block, so only the whole sectors of the image. */
  function WholeSectors(n: nat): (w: nat)
    ensures w <= n < w + SectorSize && w % SectorSize == 0
  {
    n / SectorSize * SectorSize
  }

  /** One round of the loop body: write `count` sectors from `image[pos..]`,
      read them back into `cmpBuf` and compare the first `cmpLen` bytes.
      -7 is a failed write or read (the read is not attempted after a failed
      write), -8 a mismatch.  `driverOk` records whether both driver calls
      reported success. */
  method WriteBlock(nand: Nand, image: array<bv8>, cmpBuf: array<bv8>, sector: nat, pos: nat, count: nat, cmpLen: nat)
    returns (status: int, ghost driverOk: bool)
    requires image != cmpBuf
    requires count * SectorSize <= cmpLen <= cmpBuf.Length
    requires pos + cmpLen <= image.Length
    modifies nand, cmpBuf
    ensures status == 0 || status == -7 || status == -8
    ensures status == -7 <==> !driverOk
    ensures status == -8 <==> driverOk && cmpBuf[.. cmpLen] != image[pos .. pos + cmpLen]
    ensures nand.active == old(nand.active)
    ensures nand.ChangedOnlyIn(sector * SectorSize, (sector + count) * SectorSize)
    ensures status == 0 ==> nand.Holds(sector * SectorSize, image[pos .. pos + count * SectorSize])
  {
    driverOk := false;
    var written := nand.WriteSectors(sector, count, image, pos);
    if !written {
      return -7, driverOk;
    }
    var read := nand.ReadSectors(sector, count, cmpBuf);
    if !read {
      return -7, driverOk;
    }
    driverOk := true;
    if image[pos .. pos + cmpLen] != cmpBuf[.. cmpLen] {
      return -8, driverOk;
    }
    var base := sector * SectorSize;
    forall a: nat | base <= a < base + count * SectorSize
      ensures nand.Byte(a) == image[pos .. pos + count * SectorSize][a - base]
    {
      var k := a - base;
      assert cmpBuf[k] == nand.Byte(base + k);
      assert image[pos .. pos + cmpLen][k] == cmpBuf[.. cmpLen][k];
    }
    return 0, driverOk;
  }

  /** `min(remaining, FIRMWRITER_BLK_SIZE)`: the bytes the next block covers. */
  function BlockLength(remaining: nat): (w: nat)
    ensures w <= remaining && w <= BlkSize
    ensures w == remaining || w == BlkSize
  {
    if remaining < BlkSize then remaining else BlkSize
  }

  /** The first `w` bytes read back differ from the `w` bytes of `image`
      at offset `at`: the compare that reports -8. */
  predicate Mismatch(readBack: seq<bv8>, image: seq<bv8>, at: nat, w: nat)
  {
    w <= |readBack| && at + w <= |image| && readBack[..w] != image[at .. at + w]
  }

  /** What a write loop leaves on the medium from `base` on, for an image of
      `size` bytes, against the medium's contents `orig` before the loop:
      nothing outside the first `changed` bytes changes; on
      success (0) the first `stored` bytes of `image` are there; on a driver
      failure (-7) or a mismatch (-8) in the block at image offset
      `failedAt`, the blocks before it are there and nothing past the
      failing block changed. */
  ghost predicate WriteOutcome(nand: Nand, orig: map<nat, bv8>, base: nat, image: seq<bv8>, size: nat,
                               changed: nat, stored: nat, status: int, failedAt: nat)
    requires size <= |image| && stored <= |image|
    reads nand
  {
    && nand.SameOutside(orig, base, base + changed)
    && (status == 0 ==> nand.Holds(base, image[..stored]))
    && (status == -7 || status == -8 ==>
          && failedAt < size && failedAt % BlkSize == 0
          && nand.Holds(base, image[..failedAt])
          && nand.SameOutside(orig, base, base + failedAt + BlkSize))
  }

  /** A block at image offset `pos` that failed, having changed nothing
      past `end`, leaves the outcome a failure at `pos` reports. */
  lemma FailedBlockOutcome(nand: Nand, orig: map<nat, bv8>, base: nat, image: seq<bv8>, size: nat,
                           changed: nat, stored: nat, status: int, pos: nat, end: nat)
    requires size <= |image| && stored <= |image|
    requires status == -7 || status == -8
    requires pos < size && pos % BlkSize == 0
    requires end <= base + pos + BlkSize && end <= base + changed
    requires nand.SameOutside(orig, base, end)
    requires forall a: nat :: base <= a < base + pos ==> nand.Byte(a) == image[a - base]
    ensures WriteOutcome(nand, orig, base, image, size, changed, stored, status, pos)
  {
    nand.SameOutsideWiden(orig, base, end, base + pos + BlkSize);
    nand.SameOutsideWiden(orig, base, end, base + changed);
    forall a: nat | base <= a < base + pos
      ensures nand.Byte(a) == image[..pos][a - base]
    {
    }
  }

  /** A last block that succeeded, with the image's first `stored` bytes on
      the medium and nothing changed past `end`, leaves a success. */
  lemma LastBlockOutcome(nand: Nand, orig: map<nat, bv8>, base: nat, image: seq<bv8>, size: nat,
                         changed: nat, stored: nat, end: nat)
    requires size <= |image| && stored <= |image|
    requires end <= base + changed && base + stored <= end && end <= base + |image|
    requires nand.SameOutside(orig, base, end)
    requires forall a: nat :: base <= a < end ==> nand.Byte(a) == image[a - base]
    ensures WriteOutcome(nand, orig, base, image, size, changed, stored, 0, 0)
  {
    nand.SameOutsideWiden(orig, base, end, base + changed);
    forall a: nat | base <= a < base + stored
      ensures nand.Byte(a) == image[..stored][a - base]
    {
    }
  }

  /** The whole sectors of an image that starts with `start / BlkSize` full
      blocks. */
  lemma WholeSectorsAfterBlocks(start: nat, rest: nat)
    requires start % BlkSize == 0
    ensures WholeSectors(start + rest) == start + WholeSectors(rest)
    ensures (start + BlkSize) % BlkSize == 0
  {
    var m := start / BlkSize * (BlkSize / SectorSize);
    assert start == m * SectorSize;
    assert (m * SectorSize + rest) / SectorSize == m + rest / SectorSize;
  }

  /** Where the as-written block at image offset `pos` ends: `writeSize>>9`
      whole sectors on, never past the image's whole sectors or the block. */
  lemma WholeBlockEnd(pos: nat, firmSize: nat, writeSize: nat)
    requires pos % BlkSize == 0 && pos < firmSize && writeSize == BlockLength(firmSize - pos)
    ensures var end := pos + writeSize / SectorSize * SectorSize;
      && end <= WholeSectors(firmSize) && end <= pos + BlkSize
      && (pos + writeSize < firmSize ==> end == pos + writeSize && (pos + writeSize) % BlkSize == 0)
      && (pos + writeSize == firmSize ==> end == WholeSectors(firmSize))
  {
    WholeSectorsAfterBlocks(pos, firmSize - pos);
    WholeSectorsAfterBlocks(pos, writeSize);
    if writeSize == BlkSize {
      WholeSectorsAfterBlocks(pos + BlkSize, firmSize - pos - BlkSize);
    }
  }

  /** The write loop as written: blocks of `min(remaining, BlkSize)` bytes,
      each written as `writeSize>>9` sectors and compared over `writeSize`
      bytes.  On success the whole sectors of the image are on the medium;
      nothing outside them is ever touched, so a trailing partial sector is
      never written.  On a failure `failedAt` is the image offset of the
      failing block: the blocks before it are on the medium, nothing after
      it was touched, and a -8 means its bytes and the read-back differ. */
  method WriteImage(nand: Nand, image: array<bv8>, cmpBuf: array<bv8>, sector0: nat, firmSize: nat)
    returns (status: int, ghost failedAt: nat)
    requires image != cmpBuf && cmpBuf.Length == BlkSize
    requires firmSize <= image.Length
    modifies nand, cmpBuf
    ensures status == 0 || status == -7 || status == -8
    ensures nand.active == old(nand.active)
    ensures WriteOutcome(nand, old(nand.bytes), sector0 * SectorSize, image[..], firmSize,
                         WholeSectors(firmSize), WholeSectors(firmSize), status, failedAt)
    ensures status == -8 ==> Mismatch(cmpBuf[..], image[..], failedAt, BlockLength(firmSize - failedAt))
  {
    failedAt := 0;
    var sector: nat, remaining: nat, pos: nat := sector0, firmSize, 0;
    ghost var base := sector0 * SectorSize;
    while remaining > 0
      invariant pos + remaining == firmSize
      invariant remaining > 0 ==> pos % BlkSize == 0 && sector * SectorSize == base + pos
      invariant remaining > 0 ==> nand.SameOutside(old(nand.bytes), base, base + pos)
      invariant remaining > 0 ==> forall a: nat :: base <= a < base + pos ==> nand.Byte(a) == image[a - base]
      invariant remaining == 0 ==>
        WriteOutcome(nand, old(nand.bytes), base, image[..], firmSize, WholeSectors(firmSize), WholeSectors(firmSize), 0, 0)
      invariant nand.active == old(nand.active)
    {
      var writeSize := BlockLength(remaining);
      status, sector := WriteNextBlock(nand, image, cmpBuf, base, firmSize, sector, pos, writeSize, old(nand.bytes));
      if status != 0 {
        failedAt := pos;
        return;
      }
      remaining, pos := remaining - writeSize, pos + writeSize;
    }
    status := 0;
  }

  /** One pass of the write loop, with the loop's bookkeeping: the block at
      image offset `pos`, a multiple of the block size, goes to `sector`, and
      the returned sector is where the next one goes. */
  method WriteNextBlock(nand: Nand, image: array<bv8>, cmpBuf: array<bv8>, ghost base: nat, ghost firmSize: nat,
                        sector: nat, pos: nat, writeSize: nat, ghost orig: map<nat, bv8>)
    returns (status: int, next: nat)
    requires image != cmpBuf && cmpBuf.Length == BlkSize
    requires firmSize <= image.Length
    requires pos % BlkSize == 0 && sector * SectorSize == base + pos
    requires pos < firmSize && writeSize == BlockLength(firmSize - pos)
    requires nand.SameOutside(orig, base, base + pos)
    requires forall a: nat :: base <= a < base + pos ==> nand.Byte(a) == image[a - base]
    modifies nand, cmpBuf
    ensures status == 0 || status == -7 || status == -8
    ensures nand.active == old(nand.active)
    ensures status == 0 && pos + writeSize < firmSize ==>
      && next * SectorSize == base + pos + writeSize && (pos + writeSize) % BlkSize == 0
      && nand.SameOutside(orig, base, base + pos + writeSize)
      && forall a: nat :: base <= a < base + pos + writeSize ==> nand.Byte(a) == image[a - base]
    ensures status == 0 && pos + writeSize == firmSize ==>
      WriteOutcome(nand, orig, base, image[..], firmSize, WholeSectors(firmSize), WholeSectors(firmSize), 0, 0)
    ensures status != 0 ==>
      WriteOutcome(nand, orig, base, image[..], firmSize, WholeSectors(firmSize), WholeSectors(firmSize), status, pos)
    ensures status == -8 ==> Mismatch(cmpBuf[..], image[..], pos, BlockLength(firmSize - pos))
  {
    var count := writeSize / SectorSize;
    next := sector + count;
    WholeBlockEnd(pos, firmSize, writeSize);
    assert next * SectorSize == base + pos + count * SectorSize;
    label BeforeBlock:
    ghost var driverOk;
    status, driverOk := WriteBlock(nand, image, cmpBuf, sector, pos, count, writeSize);
    forall a: nat | !(base <= a < next * SectorSize)
      ensures nand.Byte(a) == (if a in orig then orig[a] else 0)
    {
      assert nand.Byte(a) == old@BeforeBlock(nand.Byte(a));
    }
    forall a: nat | base <= a < base + pos
      ensures nand.Byte(a) == image[a - base]
    {
      assert nand.Byte(a) == old@BeforeBlock(nand.Byte(a));
    }
    if status != 0 {
      FailedBlockOutcome(nand, orig, base, image[..], firmSize, WholeSectors(firmSize), WholeSectors(firmSize), status, pos, next * SectorSize);
      return;
    }
    forall a: nat | base <= a < next * SectorSize
      ensures nand.Byte(a) == image[a - base]
    {
      if a >= sector * SectorSize {
        assert nand.Byte(a) == image[pos .. pos + count * SectorSize][a - sector * SectorSize];
      }
    }
    if pos + writeSize == firmSize {
      LastBlockOutcome(nand, orig, base, image[..], firmSize, WholeSectors(firmSize), WholeSectors(firmSize), next * SectorSize);
    }
  }


  /** The sectors an image needs, rounded up: what the write loop is meant
      to put on the medium. */
  function RoundedSectors(n: nat): (r: nat)
    ensures n <= r < n + SectorSize && r % SectorSize == 0
  {
    (n + SectorSize - 1) / SectorSize * SectorSize
  }

  lemma RoundedSectorsAfterBlocks(start: nat, rest: nat)
    requires start % BlkSize == 0
    ensures RoundedSectors(start + rest) == start + RoundedSectors(rest)
    ensures (start + BlkSize) % BlkSize == 0
  {
    var m := start / BlkSize * (BlkSize / SectorSize);
    assert start == m * SectorSize;
    assert (m * SectorSize + rest + SectorSize - 1) / SectorSize == m + (rest + SectorSize - 1) / SectorSize;
  }

  /** A whole number of sectors that holds `n` bytes also holds them rounded up. */
  lemma RoundedSectorsFit(n: nat, limit: nat)
    requires n <= limit && limit % SectorSize == 0
    ensures RoundedSectors(n) <= limit
  {
    var q := limit / SectorSize;
    assert limit == q * SectorSize;
    assert (n + SectorSize - 1) / SectorSize <= q;
  }

  /** Where the rounded-up block at image offset `pos` ends:
      `(writeSize + 0x1FF) >> 9` sectors on, within the buffer, the image's
      sectors and the block. */
  lemma RoundedBlockEnd(pos: nat, firmSize: nat, writeSize: nat, len: nat)
    requires pos % BlkSize == 0 && pos < firmSize <= len && len % SectorSize == 0
    requires writeSize == BlockLength(firmSize - pos)
    ensures var end := pos + (writeSize + SectorSize - 1) / SectorSize * SectorSize;
      && end == pos + RoundedSectors(writeSize)
      && end <= len && end <= RoundedSectors(firmSize) && end <= pos + BlkSize
      && (pos + writeSize < firmSize ==> end == pos + writeSize && (pos + writeSize) % BlkSize == 0)
      && (pos + writeSize == firmSize ==> end == RoundedSectors(firmSize))
  {
    RoundedSectorsAfterBlocks(pos, firmSize - pos);
    RoundedSectorsAfterBlocks(pos, writeSize);
    RoundedSectorsFit(pos + writeSize, len);
    RoundedSectorsFit(writeSize, BlkSize);
    if writeSize == BlkSize {
      RoundedSectorsAfterBlocks(pos + BlkSize, firmSize - pos - BlkSize);
    }
  }

  /** The write loop with the sector count rounded up,
      `(writeSize + 0x1FF) >> 9`, and the compare covering the sectors read
      back: on success the whole image is on the medium, its last partial
      sector included.  Failures are reported as in `WriteImage`, the -8
      mismatch over the rounded-up block. */
  method WriteImageRounded(nand: Nand, image: array<bv8>, cmpBuf: array<bv8>, sector0: nat, firmSize: nat)
    returns (status: int, ghost failedAt: nat)
    requires image != cmpBuf && cmpBuf.Length == BlkSize
    requires firmSize <= image.Length && image.Length % SectorSize == 0
    modifies nand, cmpBuf
    ensures status == 0 || status == -7 || status == -8
    ensures nand.active == old(nand.active)
    ensures WriteOutcome(nand, old(nand.bytes), sector0 * SectorSize, image[..], firmSize,
                         RoundedSectors(firmSize), firmSize, status, failedAt)
    ensures status == -8 ==> Mismatch(cmpBuf[..], image[..], failedAt, RoundedSectors(BlockLength(firmSize - failedAt)))
  {
    failedAt := 0;
    var sector: nat, remaining: nat, pos: nat := sector0, firmSize, 0;
    ghost var base := sector0 * SectorSize;
    while remaining > 0
      invariant pos + remaining == firmSize
      invariant remaining > 0 ==> pos % BlkSize == 0 && sector * SectorSize == base + pos
      invariant remaining > 0 ==> nand.SameOutside(old(nand.bytes), base, base + pos)
      invariant remaining > 0 ==> forall a: nat :: base <= a < base + pos ==> nand.Byte(a) == image[a - base]
      invariant remaining == 0 ==>
        WriteOutcome(nand, old(nand.bytes), base, image[..], firmSize, RoundedSectors(firmSize), firmSize, 0, 0)
      invariant nand.active == old(nand.active)
    {
      var writeSize := BlockLength(remaining);
      status, sector := WriteNextBlockRounded(nand, image, cmpBuf, base, firmSize, sector, pos, writeSize, old(nand.bytes));
      if status != 0 {
        failedAt := pos;
        return;
      }
      remaining, pos := remaining - writeSize, pos + writeSize;
    }
    status := 0;
  }

  /** One pass of the rounded-up write loop. */
  method WriteNextBlockRounded(nand: Nand, image: array<bv8>, cmpBuf: array<bv8>, ghost base: nat, ghost firmSize: nat,
                               sector: nat, pos: nat, writeSize: nat, ghost orig: map<nat, bv8>)
    returns (status: int, next: nat)
    requires image != cmpBuf && cmpBuf.Length == BlkSize
    requires firmSize <= image.Length && image.Length % SectorSize == 0
    requires pos % BlkSize == 0 && sector * SectorSize == base + pos
    requires pos < firmSize && writeSize == BlockLength(firmSize - pos)
    requires nand.SameOutside(orig, base, base + pos)
    requires forall a: nat :: base <= a < base + pos ==> nand.Byte(a) == image[a - base]
    modifies nand, cmpBuf
    ensures status == 0 || status == -7 || status == -8
    ensures nand.active == old(nand.active)
    ensures status == 0 && pos + writeSize < firmSize ==>
      && next * SectorSize == base + pos + writeSize && (pos + writeSize) % BlkSize == 0
      && nand.SameOutside(orig, base, base + pos + writeSize)
      && forall a: nat :: base <= a < base + pos + writeSize ==> nand.Byte(a) == image[a - base]
    ensures status == 0 && pos + writeSize == firmSize ==>
      WriteOutcome(nand, orig, base, image[..], firmSize, RoundedSectors(firmSize), firmSize, 0, 0)
    ensures status != 0 ==>
      WriteOutcome(nand, orig, base, image[..], firmSize, RoundedSectors(firmSize), firmSize, status, pos)
    ensures status == -8 ==> Mismatch(cmpBuf[..], image[..], pos, RoundedSectors(BlockLength(firmSize - pos)))
  {
    var count := (writeSize + SectorSize - 1) / SectorSize;
    next := sector + count;
    RoundedBlockEnd(pos, firmSize, writeSize, image.Length);
    assert next * SectorSize == base + pos + count * SectorSize;
    label BeforeBlock:
    ghost var driverOk;
    status, driverOk := WriteBlock(nand, image, cmpBuf, sector, pos, count, count * SectorSize);
    forall a: nat | !(base <= a < next * SectorSize)
      ensures nand.Byte(a) == (if a in orig then orig[a] else 0)
    {
      assert nand.Byte(a) == old@BeforeBlock(nand.Byte(a));
    }
    forall a: nat | base <= a < base + pos
      ensures nand.Byte(a) == image[a - base]
    {
      assert nand.Byte(a) == old@BeforeBlock(nand.Byte(a));
    }
    if status != 0 {
      FailedBlockOutcome(nand, orig, base, image[..], firmSize, RoundedSectors(firmSize), firmSize, status, pos, next * SectorSize);
      return;
    }
    forall a: nat | base <= a < next * SectorSize
      ensures nand.Byte(a) == image[a - base]
    {
      if a >= sector * SectorSize {
        assert nand.Byte(a) == image[pos .. pos + count * SectorSize][a - sector * SectorSize];
      }
    }
    if pos + writeSize == firmSize {
      LastBlockOutcome(nand, orig, base, image[..], firmSize, RoundedSectors(firmSize), firmSize, next * SectorSize);
    }
  }


  /** The image of a FIRM whose only section is 0x10 bytes at offset 0x200
      is 0x210 bytes long.  The as-written loop covers only its first sector
      (`WriteImage` changes nothing past it), so the section's bytes never
      reach the medium; the rounded-up loop covers both sectors. */
  lemma UnalignedImageExample(secs: seq<Firm.Section>)
    requires |secs| == Firm.SectionCount
    requires secs[0].offset == 0x200 && secs[0].size == 0x10
    requires secs[1].size == 0 && secs[2].size == 0 && secs[3].size == 0
    ensures Firm.IsRequiredSize(secs, 0x210)
    ensures WholeSectors(0x210) == 0x200 < 0x210
    ensures RoundedSectors(0x210) == 0x400
  {
    assert Firm.Counted(secs, 0);
    assert Firm.End(secs[0]) == 0x210;
  }

  /** The first four checks of `writeFirmPartition`, in order: the name
      must start with "firm" (-1), the device must be active (-2), the name
      must be in the partition table (-3) and its index must have a sector
      offset (-4).  0 when all pass. */
  function TargetStatus(part: string, active: bool, table: PartitionTable): (r: int)
    ensures -4 <= r <= 0
    ensures r == -1 <==> !IsFirmPartition(part)
    ensures r == -2 <==> IsFirmPartition(part) && !active
    ensures r == -3 <==> IsFirmPartition(part) && active && part !in table.index
    ensures r == 0 <==> IsFirmPartition(part) && active && PartitionStart(table, part).Some?
  {
    if !IsFirmPartition(part) then -1
    else if !active then -2
    else if part !in table.index then -3
    else if table.index[part] !in table.sectorOffset then -4
    else 0
  }

  /** `writeFirmPartition`: writes the image in the load buffer `firmBuf`
      (its size from the size scan) to partition `part`, after optionally
      replacing its signature with the sighax one for the unit.  `cmpBuf` is
      the block `malloc` returns (`null` when allocation fails), with whatever
      contents it had.  `imageSize` is the size the scan reported, and on a
      -7 or -8 `failedAt` is the image offset of the failing block.  The
      write loop is the one as written, `WriteImage`: on success the
      partition holds the image's whole sectors, not a trailing partial one
      (see `WriteImageRounded` for the corrected loop). */
  method WriteFirmPartition(nand: Nand, firmBuf: array<bv8>, part: string, replaceSig: bool, unitInfo: bv8,
                            table: PartitionTable, cmpBuf: array?<bv8>)
    returns (status: int, ghost imageSize: nat, ghost failedAt: nat)
    requires firmBuf.Length == Firm.FirmMaxSize
    requires cmpBuf != null ==> cmpBuf.Length == BlkSize && cmpBuf != firmBuf
    modifies nand, firmBuf, cmpBuf
    ensures -8 <= status <= 0
    ensures nand.active == old(nand.active)
    ensures TargetStatus(part, old(nand.active), table) != 0 ==>
      status == TargetStatus(part, old(nand.active), table)
      && firmBuf[..] == old(firmBuf[..]) && nand.bytes == old(nand.bytes)
    ensures TargetStatus(part, old(nand.active), table) == 0 ==>
      var secs := Firm.ParseHeader(old(firmBuf[..])).sections;
      && (status == -5 <==> !Firm.AllCountedFit(secs))
      && (status == -5 ==> firmBuf[..] == old(firmBuf[..]) && nand.bytes == old(nand.bytes))
      && (status == -6 <==> Firm.AllCountedFit(secs) && cmpBuf == null)
      && (status != -5 ==> Firm.IsRequiredSize(secs, imageSize) && imageSize <= Firm.FirmMaxSize)
    ensures status == -6 || status == -7 || status == -8 || status == 0 ==>
      && PartitionStart(table, part).Some?
      && firmBuf[..] == (if replaceSig then WithSignature(old(firmBuf[..]), NandSignature(unitInfo)) else old(firmBuf[..]))
      && (status == -6 ==> nand.bytes == old(nand.bytes))
      && imageSize <= Firm.FirmMaxSize
      && WriteOutcome(nand, old(nand.bytes), PartitionBase(table, part), firmBuf[..], imageSize, WholeSectors(imageSize),
                      WholeSectors(imageSize), status, failedAt)
    ensures status == -8 ==> cmpBuf != null && Mismatch(cmpBuf[..], firmBuf[..], failedAt, BlockLength(imageSize - failedAt))
  {
    imageSize, failedAt := 0, 0;
    status := TargetStatus(part, nand.active, table);
    if status != 0 {
      return;
    }
    var sector := table.sectorOffset[table.index[part]];
    assert PartitionBase(table, part) == sector * SectorSize;
    status, imageSize, failedAt := ScanAndWrite(nand, firmBuf, replaceSig, unitInfo, cmpBuf, sector);
  }

  /** `writeFirmPartition` once the partition starting at `sector` is found:
      the size scan (-5 when it fails), then the signature replacement and
      the write. */
  method ScanAndWrite(nand: Nand, firmBuf: array<bv8>, replaceSig: bool, unitInfo: bv8, cmpBuf: array?<bv8>,
                      sector: nat)
    returns (status: int, ghost imageSize: nat, ghost failedAt: nat)
    requires firmBuf.Length == Firm.FirmMaxSize
    requires cmpBuf != null ==> cmpBuf.Length == BlkSize && cmpBuf != firmBuf
    modifies nand, firmBuf, cmpBuf
    ensures -8 <= status <= -5 || status == 0
    ensures nand.active == old(nand.active)
    ensures var secs := Firm.ParseHeader(old(firmBuf[..])).sections;
      && (status == -5 <==> !Firm.AllCountedFit(secs))
      && (status == -6 <==> Firm.AllCountedFit(secs) && cmpBuf == null)
      && (status != -5 ==> Firm.IsRequiredSize(secs, imageSize) && imageSize <= Firm.FirmMaxSize)
    ensures status == -5 ==> firmBuf[..] == old(firmBuf[..]) && nand.bytes == old(nand.bytes)
    ensures status != -5 ==>
      && firmBuf[..] == (if replaceSig then WithSignature(old(firmBuf[..]), NandSignature(unitInfo)) else old(firmBuf[..]))
      && (status == -6 ==> nand.bytes == old(nand.bytes))
    ensures imageSize <= Firm.FirmMaxSize
    ensures WriteOutcome(nand, old(nand.bytes), sector * SectorSize, firmBuf[..], imageSize, WholeSectors(imageSize),
                         WholeSectors(imageSize), status, failedAt)
    ensures status == -8 ==> cmpBuf != null && Mismatch(cmpBuf[..], firmBuf[..], failedAt, BlockLength(imageSize - failedAt))
  {
    imageSize, failedAt := 0, 0;
    var sizeOk, firmSize := Firm.FirmSize(Firm.ParseHeader(firmBuf[..]));
    if !sizeOk {
      return -5, imageSize, failedAt;
    }
    imageSize := firmSize;
    status, failedAt := SignAndWrite(nand, firmBuf, replaceSig, unitInfo, cmpBuf, sector, firmSize);
  }

  /** The second half of `writeFirmPartition`, once the partition and the
      image size are known: the optional signature replacement, the
      allocation of the compare buffer and the write loop. */
  method SignAndWrite(nand: Nand, firmBuf: array<bv8>, replaceSig: bool, unitInfo: bv8, cmpBuf: array?<bv8>,
                      sector: nat, firmSize: nat)
    returns (status: int, ghost failedAt: nat)
    requires firmBuf.Length == Firm.FirmMaxSize && firmSize <= Firm.FirmMaxSize
    requires cmpBuf != null ==> cmpBuf.Length == BlkSize && cmpBuf != firmBuf
    modifies nand, firmBuf, cmpBuf
    ensures status == -6 <==> cmpBuf == null
    ensures status == 0 || status == -6 || status == -7 || status == -8
    ensures nand.active == old(nand.active)
    ensures firmBuf[..] == if replaceSig then WithSignature(old(firmBuf[..]), NandSignature(unitInfo)) else old(firmBuf[..])
    ensures status == -6 ==> nand.bytes == old(nand.bytes)
    ensures WriteOutcome(nand, old(nand.bytes), sector * SectorSize, firmBuf[..], firmSize, WholeSectors(firmSize),
                         WholeSectors(firmSize), status, failedAt)
    ensures status == -8 ==> cmpBuf != null && Mismatch(cmpBuf[..], firmBuf[..], failedAt, BlockLength(firmSize - failedAt))
  {
    failedAt := 0;
    if replaceSig {
      var sig := NandSignature(unitInfo);
      forall k | 0x100 <= k < 0x200 {
        firmBuf[k] := sig[k - 0x100];
      }
      assert firmBuf[..] == WithSignature(old(firmBuf[..]), sig);
    }
    if cmpBuf == null {
      return -6, failedAt;
    }
    status, failedAt := WriteImage(nand, firmBuf, cmpBuf, sector, firmSize);
  }

  // ---------------------------------------------------------------------------
  // loadVerifyUpdate
  // ---------------------------------------------------------------------------

  /** The magic an update image carries at offset 0x200 and an installed
      fastboot3DS at the start of its second sector: "fastboot3DS" and four
      spaces, with the terminating NUL (the 16 bytes `memcmp` compares). */
  const FastbootMagic: seq<bv8> :=
    [0x66, 0x61, 0x73, 0x74, 0x62, 0x6F, 0x6F, 0x74, 0x33, 0x44, 0x53, 0x20, 0x20, 0x20, 0x20, 0x00]

  /** Where the magic and the version word sit in an update image. */
  const MagicOffset: nat := 0x200
  const VersionOffset: nat := 0x210

  /** The partition an installed fastboot3DS lives in. */
  const Firm0: string := "firm0"

  /** The status codes `loadVerifyUpdate` adds to its small negative ones. */
  const UpdateErrInvalidFirm: int := -2
  const UpdateErrInvalidSig: int := -3
  const UpdateErrDowngrade: int := -9
  const UpdateErrNotInstalled: int := -10

  predicate HasUpdateMagic(image: seq<bv8>)
    requires VersionOffset <= |image|
  {
    image[MagicOffset .. VersionOffset] == FastbootMagic
  }

  /** A sector that begins with the magic: fastboot3DS is installed there. */
  predicate StartsWithMagic(sector: seq<bv8>)
  {
    |sector| >= |FastbootMagic| && sector[..|FastbootMagic|] == FastbootMagic
  }

  /** The little-endian word at 0x210: the update's version. */
  function UpdateVersion(image: seq<bv8>): U32
    requires VersionOffset + 4 <= |image|
  {
    LE32(image, VersionOffset)
  }

  /** `(u32)VERS_MAJOR<<16 | VERS_MINOR`: the two 16-bit halves side by side
      (with the minor part below 2^16 the `|` is an addition). */
  function PackVersion(major: nat, minor: nat): (v: U32)
    requires major < 0x1_0000 && minor < 0x1_0000
    ensures v / 0x1_0000 == major && v % 0x1_0000 == minor
  {
    major * 0x1_0000 + minor
  }

  /** Packed versions compare as (major, minor) pairs. */
  lemma PackVersionOrder(major: nat, minor: nat, major': nat, minor': nat)
    requires major < 0x1_0000 && minor < 0x1_0000 && major' < 0x1_0000 && minor' < 0x1_0000
    ensures PackVersion(major, minor) < PackVersion(major', minor') <==>
            major < major' || (major == major' && minor < minor')
  {
  }

  /** The release-build signature gate: the RSA key loads and the signature
      in bytes 0x100 to 0x1FF verifies over bytes 0 to 0xFF.  Debug builds
      skip it. */
  predicate SignatureAccepted(release: bool, keyOk: bool, rsaVerify: (seq<bv8>, seq<bv8>) -> bool, image: seq<bv8>)
    requires Firm.HeaderSize <= |image|
  {
    release ==> keyOk && rsaVerify(image[0x100..0x200], image[..0x100])
  }

  /** The checks of `loadVerifyUpdate` in order, on their inputs: whether the
      device is active, what `loadVerifyFirm` returned, whether the signature
      gate passed and the image; then those of `InstalledVerdict`. */
  function UpdateVerdict(active: bool, loadResult: int, sigOk: bool, image: seq<bv8>, table: PartitionTable,
                         allocOk: bool, firm0Sector: Option<seq<bv8>>, build: U32): int
    requires |image| == Firm.FirmMaxSize
  {
    if !active then -1
    else if loadResult < 0 then UpdateErrInvalidFirm
    else if !sigOk then UpdateErrInvalidSig
    else if !HasUpdateMagic(image) then -4
    else InstalledVerdict(table, allocOk, firm0Sector, UpdateVersion(image), build)
  }

  /** The second half of the checks: "firm0" must be in the partition table
      (-5) with a sector offset (-6), the sector buffer must be allocated
      (-7), the read of firm0's second sector must succeed (-8, `None` here)
      and begin with the magic, and the update's version `vers` must not be
      below the running build's. */
  function InstalledVerdict(table: PartitionTable, allocOk: bool, firm0Sector: Option<seq<bv8>>, vers: U32, build: U32): int
  {
    if Firm0 !in table.index then -5
    else if table.index[Firm0] !in table.sectorOffset then -6
    else if !allocOk then -7
    else if firm0Sector.None? then -8
    else if !StartsWithMagic(firm0Sector.value) then UpdateErrNotInstalled
    else if vers < build then UpdateErrDowngrade
    else 0
  }

  /** The version is reported once the magic check has passed. */
  predicate VersionReached(active: bool, loadResult: int, sigOk: bool, image: seq<bv8>)
    requires VersionOffset <= |image|
  {
    active && loadResult >= 0 && sigOk && HasUpdateMagic(image)
  }

  /** `loadVerifyUpdate`: vets the update image `loadVerifyFirm` left in the
      load buffer (`image`; `loadResult` is what it returned).  `release` is
      an `NDEBUG` build, `keyOk` the result of loading the RSA key,
      `rsaVerify` the signature check, `wantVersion` a non-null `version`
      pointer, `allocOk` a non-null `malloc`, and the build's version is
      `versMajor`.`versMinor`.  `firm0Read` is the sector read back, when the
      read succeeded. */
  method LoadVerifyUpdate(nand: Nand, loadResult: int, image: seq<bv8>, release: bool, keyOk: bool,
                          rsaVerify: (seq<bv8>, seq<bv8>) -> bool, wantVersion: bool, table: PartitionTable,
                          allocOk: bool, versMajor: nat, versMinor: nat)
    returns (status: int, version: Option<U32>, firm0Read: Option<seq<bv8>>)
    requires |image| == Firm.FirmMaxSize
    requires versMajor < 0x1_0000 && versMinor < 0x1_0000
    ensures status == UpdateVerdict(nand.active, loadResult, SignatureAccepted(release, keyOk, rsaVerify, image),
                                    image, table, allocOk, firm0Read, PackVersion(versMajor, versMinor))
    ensures firm0Read.Some? ==>
      && PartitionStart(table, Firm0).Some?
      && |firm0Read.value| == SectorSize
      && nand.Holds((PartitionStart(table, Firm0).value + 1) * SectorSize, firm0Read.value)
    ensures version == if wantVersion && VersionReached(nand.active, loadResult,
                                                       SignatureAccepted(release, keyOk, rsaVerify, image), image)
                       then Some(UpdateVersion(image)) else None
  {
    version, firm0Read := None, None;
    if !nand.active {
      return -1, version, firm0Read;
    }
    if loadResult < 0 {
      return UpdateErrInvalidFirm, version, firm0Read;
    }
    if release && !(keyOk && rsaVerify(image[0x100..0x200], image[..0x100])) {
      return UpdateErrInvalidSig, version, firm0Read;
    }
    if !HasUpdateMagic(image) {
      return -4, version, firm0Read;
    }
    var vers := LE32(image, VersionOffset);
    if wantVersion {
      version := Some(vers);
    }
    status, firm0Read := CheckInstalled(nand, table, allocOk, vers, PackVersion(versMajor, versMinor));
  }

  /** The part of `loadVerifyUpdate` after the version is read: find
      Firm0, read its second sector and compare versions. */
  method CheckInstalled(nand: Nand, table: PartitionTable, allocOk: bool, vers: U32, build: U32)
    returns (status: int, firm0Read: Option<seq<bv8>>)
    ensures status == InstalledVerdict(table, allocOk, firm0Read, vers, build)
    ensures firm0Read.Some? ==>
      && PartitionStart(table, Firm0).Some?
      && |firm0Read.value| == SectorSize
      && nand.Holds((PartitionStart(table, Firm0).value + 1) * SectorSize, firm0Read.value)
  {
    firm0Read := None;
    if Firm0 !in table.index {
      return -5, firm0Read;
    }
    var partInd := table.index[Firm0];
    if partInd !in table.sectorOffset {
      return -6, firm0Read;
    }
    var sector := table.sectorOffset[partInd];
    if !allocOk {
      return -7, firm0Read;
    }
    var firm0Buf := new bv8[SectorSize];
    var read := nand.ReadSectors(sector + 1, 1, firm0Buf);
    if !read {
      return -8, firm0Read;
    }
    firm0Read := Some(firm0Buf[..]);
    if !StartsWithMagic(firm0Buf[..]) {
      return UpdateErrNotInstalled, firm0Read;
    }
    if vers < build {
      return UpdateErrDowngrade, firm0Read;
    }
    return 0, firm0Read;
  }

  /** Each status names the first check that failed, and 0 means every check
      passed: an update is accepted only when the device is active, the
      image loaded and verified, the signature gate passed, the image
      carries the magic, fastboot3DS is installed in "firm0" and the
      update's version is at least the running build's. */
  lemma UpdateVerdictNamesFirstFailure(active: bool, loadResult: int, sigOk: bool, image: seq<bv8>,
                                       table: PartitionTable, allocOk: bool, firm0Sector: Option<seq<bv8>>,
                                       build: U32)
    requires |image| == Firm.FirmMaxSize
    ensures var v := UpdateVerdict(active, loadResult, sigOk, image, table, allocOk, firm0Sector, build);
      && (v == -1 <==> !active)
      && (v == UpdateErrInvalidFirm <==> active && loadResult < 0)
      && (v == UpdateErrInvalidSig <==> active && loadResult >= 0 && !sigOk)
      && (v == -4 <==> active && loadResult >= 0 && sigOk && !HasUpdateMagic(image))
      && (v == -5 <==> VersionReached(active, loadResult, sigOk, image) && Firm0 !in table.index)
      && (v == -6 <==>
            && VersionReached(active, loadResult, sigOk, image)
            && Firm0 in table.index && table.index[Firm0] !in table.sectorOffset)
      && (v == -7 <==> VersionReached(active, loadResult, sigOk, image) && PartitionStart(table, Firm0).Some? && !allocOk)
      && (v == -8 <==>
            && VersionReached(active, loadResult, sigOk, image)
            && PartitionStart(table, Firm0).Some? && allocOk && firm0Sector.None?)
      && (v == UpdateErrNotInstalled <==>
            && VersionReached(active, loadResult, sigOk, image)
            && PartitionStart(table, Firm0).Some? && allocOk
            && firm0Sector.Some? && !StartsWithMagic(firm0Sector.value))
      && (v == UpdateErrDowngrade <==>
            && VersionReached(active, loadResult, sigOk, image)
            && PartitionStart(table, Firm0).Some? && allocOk
            && firm0Sector.Some? && StartsWithMagic(firm0Sector.value)
            && UpdateVersion(image) < build)
      && (v == 0 <==>
            && VersionReached(active, loadResult, sigOk, image)
            && PartitionStart(table, Firm0).Some? && allocOk
            && firm0Sector.Some? && StartsWithMagic(firm0Sector.value)
            && UpdateVersion(image) >= build)
  {
  }

  /** Once every other check has passed, the update is refused as a
      downgrade exactly when its version is below the build's, and accepted
      otherwise: an equal version is accepted. */
  lemma DowngradeIffOlder(table: PartitionTable, firm0Sector: seq<bv8>, vers: U32, build: U32)
    requires PartitionStart(table, Firm0).Some? && StartsWithMagic(firm0Sector)
    ensures InstalledVerdict(table, true, Some(firm0Sector), vers, build) == UpdateErrDowngrade <==> vers < build
    ensures InstalledVerdict(table, true, Some(firm0Sector), vers, build) == 0 <==> vers >= build
  {
  }

  /** With version 1.1 running, an update reporting 1.0 is a downgrade and
      one reporting 1.2 is accepted. */
  lemma VersionExamples(table: PartitionTable, firm0Sector: seq<bv8>)
    requires PartitionStart(table, Firm0).Some? && StartsWithMagic(firm0Sector)
    ensures InstalledVerdict(table, true, Some(firm0Sector), PackVersion(1, 0), PackVersion(1, 1)) == UpdateErrDowngrade
    ensures InstalledVerdict(table, true, Some(firm0Sector), PackVersion(1, 2), PackVersion(1, 1)) == 0
    ensures InstalledVerdict(table, true, Some(firm0Sector), PackVersion(2, 0), PackVersion(1, 0xFFFF)) == 0
  {
  }

  /** A sector that does not begin with the magic means fastboot3DS is not
      installed, whatever the versions. */
  lemma NotInstalledWithoutMagic(table: PartitionTable, firm0Sector: seq<bv8>, vers: U32, build: U32)
    requires PartitionStart(table, Firm0).Some? && !StartsWithMagic(firm0Sector)
    ensures InstalledVerdict(table, true, Some(firm0Sector), vers, build) == UpdateErrNotInstalled
  {
  }
}
