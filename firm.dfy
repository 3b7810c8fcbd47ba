/** The FIRM container checks of the ARM9 loader (source/arm9/firm.c): the
    image-size scan, the header/section validator with its protected-region
    table, and the CPU-copy branch of the launch stub. */
module Firm {
  import opened Types

  // ---------------------------------------------------------------------------
  // Container layout
  // ---------------------------------------------------------------------------

  /** `sizeof(firm_header)`. */
  const HeaderSize: nat := 0x200
  /** `FIRM_MAX_SIZE`: the size of the load buffer the image is read into. */
  const FirmMaxSize: nat := 0x40_0000
  const SectionCount: nat := 4
  const SectionTableOffset: nat := 0x40
  const SectionHeaderSize: nat := 0x30
  const DigestSize: nat := 32

  /** The tag a FIRM image starts with: the bytes of "FIRM". */
  const FirmMagic: seq<bv8> := [0x46, 0x49, 0x52, 0x4D]

  /** One `firm_sectionheader`. */
  datatype Section = Section(offset: U32, address: U32, size: U32, copyMethod: U32, hash: seq<bv8>)

  /** The fields of `firm_header` the loader reads. */
  datatype Header = Header(magic: seq<bv8>, entry11: U32, entry9: U32, sections: seq<Section>)

  function ParseSection(image: seq<bv8>, i: nat): (s: Section)
    requires i < SectionCount && HeaderSize <= |image|
    ensures |s.hash| == DigestSize
  {
    var base := SectionTableOffset + SectionHeaderSize * i;
    Section(LE32(image, base), LE32(image, base + 4), LE32(image, base + 8), LE32(image, base + 12),
            image[base + 16 .. base + 16 + DigestSize])
  }

  /** The header as the loader sees it when it casts the start of the load
      buffer to `firm_header*`. */
  function ParseHeader(image: seq<bv8>): (h: Header)
    requires HeaderSize <= |image|
    ensures |h.magic| == 4 && |h.sections| == SectionCount
    ensures forall i :: 0 <= i < SectionCount ==> h.sections[i] == ParseSection(image, i)
  {
    Header(image[..4], LE32(image, 8), LE32(image, 12),
           [ParseSection(image, 0), ParseSection(image, 1), ParseSection(image, 2), ParseSection(image, 3)])
  }

  function End(s: Section): nat
  {
    s.offset + s.size
  }

  // ---------------------------------------------------------------------------
  // firm_size: the smallest image length that holds every counted section
  // ---------------------------------------------------------------------------

  /** The largest offset among the non-empty sections at index `k` or above
      (0 when there is none): the value `curOffset` holds when the reverse
      scan reaches index `k - 1`. */
  function MaxOffsetFrom(secs: seq<Section>, k: nat): nat
    requires k <= |secs|
    decreases |secs| - k
  {
    if k == |secs| then 0
    else
      var rest := MaxOffsetFrom(secs, k + 1);
      if secs[k].size != 0 && secs[k].offset > rest then secs[k].offset else rest
  }

  /** MaxOffsetFrom is the maximum it is named after. */
  lemma {:induction false} MaxOffsetFromIsMax(secs: seq<Section>, k: nat)
    requires k <= |secs|
    ensures forall j :: k <= j < |secs| && secs[j].size != 0 ==> secs[j].offset <= MaxOffsetFrom(secs, k)
    ensures var m := MaxOffsetFrom(secs, k);
      m == 0 || exists j :: k <= j < |secs| && secs[j].size != 0 && secs[j].offset == m
    decreases |secs| - k
  {
    if k < |secs| {
      MaxOffsetFromIsMax(secs, k + 1);
    }
  }

  /** Section `k` is counted by the reverse scan: it is non-empty and its
      offset is above 0 and strictly above the offset of every non-empty
      section with a higher index.  A section that fails this is stale and
      ignored. */
  predicate Counted(secs: seq<Section>, k: int)
    requires 0 <= k < |secs|
  {
    && secs[k].size != 0
    && secs[k].offset > 0
    && forall j :: k < j < |secs| && secs[j].size != 0 ==> secs[j].offset < secs[k].offset
  }

  /** A counted section that the size scan accepts. */
  predicate FitsLoadBuffer(s: Section)
  {
    s.size <= FirmMaxSize && s.offset < FirmMaxSize && End(s) <= FirmMaxSize
  }

  /** The size scan succeeds: every counted section fits the load buffer. */
  predicate AllCountedFit(secs: seq<Section>)
  {
    forall k :: 0 <= k < |secs| && Counted(secs, k) ==> FitsLoadBuffer(secs[k])
  }

  /** `n` is the image length firm_size reports: the maximum of the header
      size and the end of every counted section. */
  predicate IsRequiredSize(secs: seq<Section>, n: nat)
  {
    && HeaderSize <= n
    && (forall k :: 0 <= k < |secs| && Counted(secs, k) ==> End(secs[k]) <= n)
    && (n == HeaderSize || exists k :: 0 <= k < |secs| && Counted(secs, k) && End(secs[k]) == n)
  }

  /** The scan's own test at index `k`: `size != 0` and `offset > curOffset`. */
  predicate PassesScan(secs: seq<Section>, k: nat)
    requires k < |secs|
  {
    secs[k].size != 0 && secs[k].offset > MaxOffsetFrom(secs, k + 1)
  }

  /** The scan's own test picks exactly the counted sections. */
  lemma ScanTestIsCounted(secs: seq<Section>, k: nat)
    requires k < |secs|
    ensures PassesScan(secs, k) <==> Counted(secs, k)
  {
    var m := MaxOffsetFrom(secs, k + 1);
    MaxOffsetFromIsMax(secs, k + 1);
    if secs[k].size != 0 && secs[k].offset > m {
      forall j | k < j < |secs| && secs[j].size != 0
        ensures secs[j].offset < secs[k].offset
      {
      }
    }
    if Counted(secs, k) && m != 0 {
      var j :| k + 1 <= j < |secs| && secs[j].size != 0 && secs[j].offset == m;
    }
  }

  /** In scan order (index 3 down to 0) the offsets of counted sections
      strictly increase. */
  lemma CountedOffsetsIncrease(secs: seq<Section>, j: nat, k: nat)
    requires k < j < |secs| && Counted(secs, j) && Counted(secs, k)
    ensures secs[j].offset < secs[k].offset
  {
  }

  /** The length the scan has reached after visiting indices 3 down to `k`:
      the header size, raised to the end of every section that passed the
      scan's test. */
  function ScannedLength(secs: seq<Section>, k: nat): nat
    requires k <= |secs|
    decreases |secs| - k
  {
    if k == |secs| then HeaderSize
    else
      var rest := ScannedLength(secs, k + 1);
      if PassesScan(secs, k) && rest < End(secs[k]) then End(secs[k]) else rest
  }

  /** No section the scan visited from index 3 down to `k` made it fail. */
  predicate ScannedFits(secs: seq<Section>, k: nat)
    requires k <= |secs|
    decreases |secs| - k
  {
    k == |secs| || (ScannedFits(secs, k + 1) && (PassesScan(secs, k) ==> FitsLoadBuffer(secs[k])))
  }

  /** ScannedLength bounds the header and the end of every section that
      passed the scan. */
  lemma {:induction false} ScannedLengthIsUpperBound(secs: seq<Section>, k: nat)
    requires k <= |secs|
    ensures HeaderSize <= ScannedLength(secs, k)
    ensures forall j :: k <= j < |secs| && PassesScan(secs, j) ==> End(secs[j]) <= ScannedLength(secs, k)
    decreases |secs| - k
  {
    if k < |secs| {
      ScannedLengthIsUpperBound(secs, k + 1);
      var n, rest := ScannedLength(secs, k), ScannedLength(secs, k + 1);
      assert rest <= n;
      forall j | k <= j < |secs| && PassesScan(secs, j) ensures End(secs[j]) <= n {
        if j == k {
          assert End(secs[k]) <= n;
        } else {
          assert End(secs[j]) <= rest;
        }
      }
    }
  }

  /** ScannedLength is the header size or the end of a section that passed
      the scan: it is the least such bound. */
  lemma {:induction false} ScannedLengthIsAttained(secs: seq<Section>, k: nat)
    requires k <= |secs|
    ensures var n := ScannedLength(secs, k);
      n == HeaderSize || exists j :: k <= j < |secs| && PassesScan(secs, j) && End(secs[j]) == n
    decreases |secs| - k
  {
    if k < |secs| {
      ScannedLengthIsAttained(secs, k + 1);
    }
  }

  /** ScannedFits says that every visited section that passed the test fits. */
  lemma {:induction false} ScannedFitsIff(secs: seq<Section>, k: nat)
    requires k <= |secs|
    ensures ScannedFits(secs, k) <==> forall j :: k <= j < |secs| && PassesScan(secs, j) ==> FitsLoadBuffer(secs[j])
    decreases |secs| - k
  {
    if k < |secs| {
      ScannedFitsIff(secs, k + 1);
    }
  }

  /** firm_size: scans the section table from index 3 down to 0 and returns
      the image length that contains the header and every counted section, or
      fails (with size 0) when a counted section does not fit the load buffer. */
  method FirmSize(hdr: Header) returns (ok: bool, size: nat)
    requires |hdr.sections| == SectionCount
    ensures ok <==> AllCountedFit(hdr.sections)
    ensures ok ==> IsRequiredSize(hdr.sections, size)
    ensures ok ==> HeaderSize <= size <= FirmMaxSize
    ensures !ok ==> size == 0
  {
    var secs := hdr.sections;
    // Both stay below FIRM_MAX_SIZE before they are added, so the u32
    // arithmetic of the source never wraps here.
    var curLen: nat := HeaderSize;
    var curOffset: nat := 0;
    size := 0;
    var i := 3;
    while i >= 0
      invariant -1 <= i <= 3
      invariant curOffset == MaxOffsetFrom(secs, i + 1)
      invariant curLen == ScannedLength(secs, i + 1) <= FirmMaxSize
      invariant ScannedFits(secs, i + 1)
    {
      var section := secs[i];
      if section.size == 0 || section.offset <= curOffset {
        i := i - 1;
        continue;
      }
      curOffset := section.offset;
      if section.size > FirmMaxSize || curOffset >= FirmMaxSize {
        Unfits(secs, i);
        return false, 0;
      }
      if curLen < curOffset + section.size {
        curLen := curOffset + section.size;
      }
      if curLen > FirmMaxSize {
        Unfits(secs, i);
        return false, 0;
      }
      i := i - 1;
    }
    ScannedFitsIff(secs, 0);
    ScannedLengthIsUpperBound(secs, 0);
    ScannedLengthIsAttained(secs, 0);
    forall k | 0 <= k < |secs| ensures PassesScan(secs, k) <==> Counted(secs, k) {
      ScanTestIsCounted(secs, k);
    }
    return true, curLen;
  }

  /** A counted section that does not fit makes the whole scan fail. */
  lemma Unfits(secs: seq<Section>, i: nat)
    requires i < |secs| && PassesScan(secs, i) && !FitsLoadBuffer(secs[i])
    ensures !forall k :: 0 <= k < |secs| && Counted(secs, k) ==> FitsLoadBuffer(secs[k])
  {
    ScanTestIsCounted(secs, i);
  }

  /** A header whose four sections are all empty needs exactly the header. */
  lemma EmptyHeaderNeedsHeaderOnly(secs: seq<Section>)
    requires forall k :: 0 <= k < |secs| ==> secs[k].size == 0
    ensures forall k :: 0 <= k < |secs| ==> !Counted(secs, k)
    ensures forall n :: IsRequiredSize(secs, n) <==> n == HeaderSize
  {
  }

  /** The required size is unique. */
  lemma RequiredSizeUnique(secs: seq<Section>, n: nat, n': nat)
    requires IsRequiredSize(secs, n) && IsRequiredSize(secs, n')
    ensures n == n'
  {
  }

  /** Only section 0, at offset 0x200 with 0x400 bytes: the image is 0x600 bytes. */
  lemma SingleSectionExample(secs: seq<Section>)
    requires |secs| == SectionCount
    requires secs[0].offset == 0x200 && secs[0].size == 0x400
    requires forall k :: 1 <= k < SectionCount ==> secs[k].size == 0
    ensures forall k :: 0 <= k < SectionCount && Counted(secs, k) ==> FitsLoadBuffer(secs[k])
    ensures forall n :: IsRequiredSize(secs, n) <==> n == 0x600
  {
    assert Counted(secs, 0);
    forall n | IsRequiredSize(secs, n) ensures n == 0x600 {
      assert End(secs[0]) <= n;
    }
    assert IsRequiredSize(secs, 0x600);
  }

  /** Section 1 lies below section 3 in the image, so the reverse scan treats
      it as stale: its large size does not enlarge the image. */
  lemma StaleSectionIgnoredExample(secs: seq<Section>)
    requires |secs| == SectionCount
    requires secs[3].offset == 0x1000 && secs[3].size == 0x200
    requires secs[1].offset == 0x800 && secs[1].size == 0x10_0000
    requires secs[0].size == 0 && secs[2].size == 0
    ensures !Counted(secs, 1) && Counted(secs, 3)
    ensures forall n :: IsRequiredSize(secs, n) <==> n == 0x1200
  {
    assert !Counted(secs, 1);
    assert Counted(secs, 3);
    forall n | IsRequiredSize(secs, n) ensures n == 0x1200 {
      assert End(secs[3]) <= n;
    }
    assert IsRequiredSize(secs, 0x1200);
  }

  // ---------------------------------------------------------------------------
  // Protected regions and the overlap test
  // ---------------------------------------------------------------------------

  /** One `firmProtectedArea`. */
  datatype Area = Area(addr: U32, size: U32)

  // Memory-map constants of the console (mem_map.h is not part of this
  // model; these are the values the model uses).
  const FirmLoadAddr: U32 := 0x2400_0000
  const IoMemBase: U32 := 0x1000_0000
  const VramBase: U32 := 0x1800_0000
  const A9VectorsStart: U32 := 0x0800_0000
  const A9VectorsSize: U32 := 0x40
  const A9StackStart: U32 := 0x080F_C000
  const A9StackEnd: U32 := 0x0810_0000
  const ItcmBase: U32 := 0x01FF_8000
  const ItcmSize: U32 := 0x8000
  const A11VectorsStart: U32 := 0x1FFF_F000
  const A11VectorsSize: U32 := 0x40
  const A11StackStart: U32 := 0x1FFF_8000
  const A11StackEnd: U32 := 0x1FFF_F000
  const A11StubEntry: U32 := 0x1FFF_FE00
  const A11StubSize: U32 := 0x200

  /** `firmProtectedAreas`: memory no section may be copied into. */
  const ProtectedAreas: seq<Area> := [
    Area(FirmLoadAddr, FirmMaxSize),                  // the FIRM load buffer
    Area(IoMemBase, VramBase - IoMemBase),            // I/O registers
    Area(A9VectorsStart, A9VectorsSize),              // ARM9 exception vectors
    Area(A9StackStart, A9StackEnd - A9StackStart),    // ARM9 stack
    Area(ItcmBase + 0x3800, ItcmSize - 0x3800),       // unique data, ARM9 stub, argv
    Area(A11VectorsStart, A11VectorsSize),            // ARM11 exception vectors
    Area(A11StackStart, A11StackEnd - A11StackStart), // ARM11 stack
    Area(A11StubEntry, A11StubSize)                   // relocated ARM11 stub
  ]

  /** The three-way test of firm_verify for a section copied to `start` with
      `len` bytes against one protected area; both ends are u32 sums and wrap. */
  predicate Conflicts(start: U32, len: U32, area: Area)
  {
    var end := Wrap32(start + len);
    var top := Wrap32(area.addr + area.size);
    || (start >= area.addr && start < top)
    || (end > area.addr && end <= top)
    || (start < area.addr && end > top)
  }

  /** Two half-open address ranges share at least one byte. */
  predicate Intersect(lo: int, hi: int, lo': int, hi': int)
  {
    lo < hi' && lo' < hi
  }

  /** When neither end wraps, the three-way test is exactly "the section's
      bytes meet the area's bytes"; a section ending where the area starts is
      no conflict and one starting where it starts is. */
  lemma ConflictsIffIntersect(start: U32, len: U32, area: Area)
    requires 0 < len && 0 < area.size
    requires start + len < U32Modulus && area.addr + area.size < U32Modulus
    ensures Conflicts(start, len, area) <==> Intersect(start, start + len, area.addr, area.addr + area.size)
    ensures start + len == area.addr ==> !Conflicts(start, len, area)
    ensures start == area.addr ==> Conflicts(start, len, area)
  {
    assert Wrap32(start + len) == start + len;
    assert Wrap32(area.addr + area.size) == area.addr + area.size;
  }

  /** Every entry of the table is a non-empty range that does not wrap. */
  lemma ProtectedAreasWellFormed()
    ensures |ProtectedAreas| == 8
    ensures forall m :: 0 <= m < |ProtectedAreas| ==>
      0 < ProtectedAreas[m].size && ProtectedAreas[m].addr + ProtectedAreas[m].size < U32Modulus
    ensures forall m :: 0 <= m < |ProtectedAreas| ==>
      FirmMaxSize <= ProtectedAreas[m].addr && ProtectedAreas[m].addr + ProtectedAreas[m].size <= U32Modulus - FirmMaxSize
  {
  }

  // ---------------------------------------------------------------------------
  // firm_verify
  // ---------------------------------------------------------------------------

  /** The header gates, checked in this order: image size, magic, ARM9 entry. */
  predicate HeaderGates(h: Header, fwSize: int)
  {
    && fwSize <= FirmMaxSize
    && fwSize > HeaderSize
    && h.magic == FirmMagic
    && h.entry9 != 0
  }

  /** The offset and size gates of one non-empty section. */
  predicate InBounds(s: Section, fwSize: int)
  {
    && !(s.offset >= fwSize || s.offset < HeaderSize)
    && !(s.size >= fwSize || s.size + s.offset > fwSize)
  }

  /** No protected area conflicts with the section's destination. */
  predicate PlacementOk(s: Section)
  {
    forall m :: 0 <= m < |ProtectedAreas| ==> !Conflicts(s.address, s.size, ProtectedAreas[m])
  }

  /** The digest the hash engine computes over the section's bytes matches
      the one stored in its header. */
  predicate DigestOk(s: Section, image: seq<bv8>, sha: seq<bv8> -> seq<bv8>)
    requires End(s) <= |image|
  {
    sha(image[s.offset .. End(s)]) == s.hash
  }

  predicate SectionOk(s: Section, image: seq<bv8>, fwSize: int, skipHashCheck: bool, sha: seq<bv8> -> seq<bv8>)
    requires fwSize <= |image|
  {
    InBounds(s, fwSize) && PlacementOk(s) && (skipHashCheck || DigestOk(s, image, sha))
  }

  /** The verdict firm_verify reaches: every gate passes and every non-empty
      section is in bounds, clear of the protected areas and, unless hashing
      is skipped, carries the right digest. */
  predicate FirmValid(image: seq<bv8>, fwSize: U32, skipHashCheck: bool, sha: seq<bv8> -> seq<bv8>)
    requires |image| == FirmMaxSize
  {
    var h := ParseHeader(image);
    && HeaderGates(h, fwSize)
    && forall k :: 0 <= k < SectionCount && h.sections[k].size != 0 ==>
         SectionOk(h.sections[k], image, fwSize, skipHashCheck, sha)
  }

  /** Every non-empty section below `n` is in bounds. */
  predicate BoundsPrefix(secs: seq<Section>, fwSize: int, n: int)
    requires n <= |secs|
  {
    forall j :: 0 <= j < n && secs[j].size != 0 ==> InBounds(secs[j], fwSize)
  }

  /** The sections below `n` whose digest the loop computes (when hashing is
      on): the non-empty ones reached before a section fails its bounds. */
  function HashedBelow(secs: seq<Section>, fwSize: int, n: nat): seq<int>
    requires n <= |secs|
  {
    if n == 0 then []
    else HashedBelow(secs, fwSize, n - 1)
         + (if secs[n - 1].size != 0 && BoundsPrefix(secs, fwSize, n) then [n - 1] else [])
  }

  /** Section `k` is digested exactly when it is non-empty and no earlier or
      equal non-empty section failed its bounds; a digest mismatch or an
      overlap in one section therefore never keeps a later one from being
      examined.  The list is in ascending order. */
  lemma {:induction false} HashedBelowIff(secs: seq<Section>, fwSize: int, n: nat, k: int)
    requires n <= |secs|
    ensures k in HashedBelow(secs, fwSize, n) <==>
      0 <= k < n && secs[k].size != 0 && BoundsPrefix(secs, fwSize, k + 1)
    ensures forall a, b :: 0 <= a < b < |HashedBelow(secs, fwSize, n)| ==>
      HashedBelow(secs, fwSize, n)[a] < HashedBelow(secs, fwSize, n)[b]
    ensures forall a :: 0 <= a < |HashedBelow(secs, fwSize, n)| ==> HashedBelow(secs, fwSize, n)[a] < n
  {
    if n > 0 {
      HashedBelowIff(secs, fwSize, n - 1, k);
    }
  }

  /** Once a non-empty section fails its bounds nothing after it is hashed. */
  lemma {:induction false} HashedStopsAtBadSection(secs: seq<Section>, fwSize: int, i: nat, n: nat)
    requires i < n <= |secs|
    requires secs[i].size != 0 && !InBounds(secs[i], fwSize)
    ensures HashedBelow(secs, fwSize, n) == HashedBelow(secs, fwSize, i)
    decreases n
  {
    assert !BoundsPrefix(secs, fwSize, n);
    if n - 1 > i {
      HashedStopsAtBadSection(secs, fwSize, i, n - 1);
    } else {
      assert HashedBelow(secs, fwSize, n) == HashedBelow(secs, fwSize, n - 1) + [];
    }
  }

  /** The protected-area loop of firm_verify for one section: stops at the
      first area the section conflicts with. */
  method FindConflict(section: Section) returns (conflict: bool)
    ensures conflict <==> !PlacementOk(section)
  {
    conflict := false;
    for j := 0 to |ProtectedAreas|
      invariant forall m :: 0 <= m < j ==> !Conflicts(section.address, section.size, ProtectedAreas[m])
    {
      var area := ProtectedAreas[j];
      var isValid := !Conflicts(section.address, section.size, area);
      if !isValid {
        conflict := true;
        break;
      }
    }
  }

  /** The body of firm_verify's section loop for one non-empty section that
      passed its bounds: the overlap test, then (unless skipped) the digest. */
  method CheckSection(section: Section, image: seq<bv8>, fwSize: U32, skipHashCheck: bool, sha: seq<bv8> -> seq<bv8>)
    returns (ok: bool)
    requires |image| == FirmMaxSize && fwSize <= FirmMaxSize && InBounds(section, fwSize)
    ensures ok == SectionOk(section, image, fwSize, skipHashCheck, sha)
  {
    var conflict := FindConflict(section);
    ok := !conflict;
    if !skipHashCheck {
      var hash := sha(image[section.offset .. section.offset + section.size]);
      var isValid := hash == section.hash;
      ok := ok && isValid;
    }
  }

  /** firm_verify.  `printInfo` only selects console diagnostics, which are not
      modelled; `digested` lists the sections handed to the hash engine, in
      order. */
  method FirmVerify(image: seq<bv8>, fwSize: U32, skipHashCheck: bool, printInfo: bool, sha: seq<bv8> -> seq<bv8>)
    returns (ok: bool, digested: seq<int>)
    requires |image| == FirmMaxSize
    ensures ok == FirmValid(image, fwSize, skipHashCheck, sha)
    ensures digested ==
      if skipHashCheck || !HeaderGates(ParseHeader(image), fwSize) then []
      else HashedBelow(ParseHeader(image).sections, fwSize, SectionCount)
  {
    if fwSize > FirmMaxSize {
      return false, [];
    }
    if fwSize <= HeaderSize {
      return false, [];
    }
    var hdr := ParseHeader(image);
    if hdr.magic != FirmMagic {
      return false, [];
    }
    if hdr.entry9 == 0 {
      return false, [];
    }
    ok, digested := VerifySections(hdr.sections, image, fwSize, skipHashCheck, sha);
  }

  /** The section loop of firm_verify, run once the header gates passed. */
  method VerifySections(secs: seq<Section>, image: seq<bv8>, fwSize: U32, skipHashCheck: bool, sha: seq<bv8> -> seq<bv8>)
    returns (ok: bool, digested: seq<int>)
    requires |secs| == SectionCount && |image| == FirmMaxSize && fwSize <= FirmMaxSize
    ensures ok <==> forall k :: 0 <= k < SectionCount && secs[k].size != 0 ==>
      SectionOk(secs[k], image, fwSize, skipHashCheck, sha)
    ensures digested == if skipHashCheck then [] else HashedBelow(secs, fwSize, SectionCount)
  {
    digested := [];
    var retval := true;
    for i := 0 to SectionCount
      invariant BoundsPrefix(secs, fwSize, i)
      invariant retval <==> forall k :: 0 <= k < i && secs[k].size != 0 ==>
        SectionOk(secs[k], image, fwSize, skipHashCheck, sha)
      invariant digested == if skipHashCheck then [] else HashedBelow(secs, fwSize, i)
    {
      var section := secs[i];
      if section.size == 0 {
        continue;
      }
      if section.offset >= fwSize || section.offset < HeaderSize
        || section.size >= fwSize || section.size + section.offset > fwSize
      {
        if !skipHashCheck {
          HashedStopsAtBadSection(secs, fwSize, i, SectionCount);
        }
        return false, digested;
      }
      var isValid := CheckSection(section, image, fwSize, skipHashCheck, sha);
      retval := retval && isValid;
      if !skipHashCheck {
        digested := digested + [i];
      }
    }
    return retval, digested;
  }

  /** Whatever the placement of the other sections, a section whose stored
      digest differs from the digest of its bytes (one flipped bit is enough)
      makes firm_verify fail when hashing is on. */
  lemma DigestMismatchRejects(image: seq<bv8>, fwSize: U32, sha: seq<bv8> -> seq<bv8>, k: nat)
    requires |image| == FirmMaxSize && k < SectionCount
    requires var s := ParseHeader(image).sections[k];
      s.size != 0 && InBounds(s, fwSize) && fwSize <= FirmMaxSize && !DigestOk(s, image, sha)
    ensures !FirmValid(image, fwSize, false, sha)
  {
  }

  /** What an accepted image guarantees: every non-empty section lies inside
      the loaded bytes after the header, and its destination shares no byte
      with any protected area. A range that runs past the top of the 32-bit
      address space is the two pieces up to 2^32 and from 0; with a section
      under FIRM_MAX_SIZE they lie in the top and bottom FIRM_MAX_SIZE bytes,
      which hold no protected area. */
  lemma AcceptedSectionsAreSafe(image: seq<bv8>, fwSize: U32, skipHashCheck: bool, sha: seq<bv8> -> seq<bv8>, k: nat, m: nat)
    requires |image| == FirmMaxSize
    requires FirmValid(image, fwSize, skipHashCheck, sha)
    requires k < SectionCount && m < |ProtectedAreas|
    requires ParseHeader(image).sections[k].size != 0
    ensures var s := ParseHeader(image).sections[k];
      HeaderSize <= s.offset && End(s) <= fwSize && s.size < fwSize
    ensures var s := ParseHeader(image).sections[k];
      s.address + s.size < U32Modulus ==>
        !Intersect(s.address, s.address + s.size, ProtectedAreas[m].addr, ProtectedAreas[m].addr + ProtectedAreas[m].size)
    ensures var s := ParseHeader(image).sections[k];
      s.address + s.size >= U32Modulus ==>
        && !Intersect(s.address, U32Modulus, ProtectedAreas[m].addr, ProtectedAreas[m].addr + ProtectedAreas[m].size)
        && !Intersect(0, s.address + s.size - U32Modulus, ProtectedAreas[m].addr, ProtectedAreas[m].addr + ProtectedAreas[m].size)
  {
    var s := ParseHeader(image).sections[k];
    assert SectionOk(s, image, fwSize, skipHashCheck, sha);
    ProtectedAreasWellFormed();
    if s.address + s.size < U32Modulus {
      ConflictsIffIntersect(s.address, s.size, ProtectedAreas[m]);
    }
  }

  // ---------------------------------------------------------------------------
  // firmLaunchStub: the CPU-copy branch
  // ---------------------------------------------------------------------------

  /** How many words the CPU branch copies for a section of `size` bytes: it
      moves four words per pass while `n < size / 4`, so the word count is
      rounded up to the next multiple of four. */
  function CpuCopyWords(size: U32): (w: nat)
    ensures w % 4 == 0 && size / 4 <= w < size / 4 + 4
  {
    (size / 4 + 3) / 4 * 4
  }

  /** The inner loop of the copy-method-2 branch: `dst[n + 0..3] = src[n + 0..3]`
      for n = 0, 4, 8, ... while n < size / 4. */
  method CpuCopy(dst: array<bv32>, src: seq<bv32>, size: U32)
    requires CpuCopyWords(size) <= dst.Length && CpuCopyWords(size) <= |src|
    modifies dst
    ensures forall k :: 0 <= k < CpuCopyWords(size) ==> dst[k] == src[k]
    ensures forall k :: CpuCopyWords(size) <= k < dst.Length ==> dst[k] == old(dst[k])
  {
    var n := 0;
    while n < size / 4
      invariant n % 4 == 0 && n <= CpuCopyWords(size)
      invariant forall k :: 0 <= k < n ==> dst[k] == src[k]
      invariant forall k :: n <= k < dst.Length ==> dst[k] == old(dst[k])
    {
      dst[n + 0] := src[n + 0];
      dst[n + 1] := src[n + 1];
      dst[n + 2] := src[n + 2];
      dst[n + 3] := src[n + 3];
      n := n + 4;
    }
  }

  /** The overlap test lets a section end exactly where a protected area
      starts. When `size / 4` is not a multiple of four, the CPU loop then
      copies 4 to 12 bytes past the section's end, and so into the area. */
  lemma CpuCopyOverrunsAdjacentArea(address: U32, size: U32, area: Area)
    requires 0 < area.size && area.addr + area.size < U32Modulus
    requires 0 < size && address + size == area.addr
    requires (size / 4) % 4 != 0
    ensures !Conflicts(address, size, area)
    ensures size < 4 * CpuCopyWords(size) <= size + 12
    ensures Intersect(address, address + 4 * CpuCopyWords(size), area.addr, area.addr + area.size)
  {
    ConflictsIffIntersect(address, size, area);
    var q := size / 4;
    assert size < 4 * q + 4;
    assert CpuCopyWords(size) >= q + 1 by {
      assert (q + 3) / 4 * 4 >= q + 1;
    }
  }

  /** A 0x14-byte section copied by the CPU to just below the ARM9 stack
      passes every placement test, yet the loop writes 0x20 bytes, the last
      12 of them onto the stack. */
  lemma CpuCopyIntoStackExample(s: Section)
    requires s.address == A9StackStart - 0x14 && s.size == 0x14 && s.copyMethod == 2
    ensures PlacementOk(s)
    ensures ProtectedAreas[3] == Area(A9StackStart, A9StackEnd - A9StackStart)
    ensures 4 * CpuCopyWords(s.size) == 0x20
    ensures Intersect(s.address, s.address + 4 * CpuCopyWords(s.size),
                      ProtectedAreas[3].addr, ProtectedAreas[3].addr + ProtectedAreas[3].size)
  {
    forall m | 0 <= m < |ProtectedAreas|
      ensures !Conflicts(s.address, s.size, ProtectedAreas[m])
    {
      ProtectedAreasWellFormed();
      ConflictsIffIntersect(s.address, s.size, ProtectedAreas[m]);
    }
  }

  /** The copy loop bounded word by word, as the NDMA branch is
      (`size / 4` words): it never writes past the section's end. */
  method CpuCopyCorrected(dst: array<bv32>, src: seq<bv32>, size: U32)
    requires size / 4 <= dst.Length && size / 4 <= |src|
    modifies dst
    ensures forall k :: 0 <= k < size / 4 ==> dst[k] == src[k]
    ensures forall k :: size / 4 <= k < dst.Length ==> dst[k] == old(dst[k])
  {
    var n := 0;
    while n < size / 4
      invariant n <= size / 4
      invariant forall k :: 0 <= k < n ==> dst[k] == src[k]
      invariant forall k :: n <= k < dst.Length ==> dst[k] == old(dst[k])
    {
      dst[n] := src[n];
      n := n + 1;
    }
  }

  /** With the corrected loop the bytes the CPU writes for a section of an
      accepted image, `4 * (size / 4)` from its address, lie within the
      section's declared range and so meet no protected area; a range that
      runs past 2^32 is taken in its two pieces. */
  lemma CorrectedCopyIsSafe(image: seq<bv8>, fwSize: U32, skipHashCheck: bool, sha: seq<bv8> -> seq<bv8>, k: nat, m: nat)
    requires |image| == FirmMaxSize
    requires FirmValid(image, fwSize, skipHashCheck, sha)
    requires k < SectionCount && m < |ProtectedAreas|
    requires ParseHeader(image).sections[k].size != 0
    ensures var s := ParseHeader(image).sections[k];
      s.size - 4 < 4 * (s.size / 4) <= s.size
    ensures var s := ParseHeader(image).sections[k]; var a := ProtectedAreas[m];
      s.address + 4 * (s.size / 4) < U32Modulus ==>
        !Intersect(s.address, s.address + 4 * (s.size / 4), a.addr, a.addr + a.size)
    ensures var s := ParseHeader(image).sections[k]; var a := ProtectedAreas[m];
      s.address + 4 * (s.size / 4) >= U32Modulus ==>
        && !Intersect(s.address, U32Modulus, a.addr, a.addr + a.size)
        && !Intersect(0, s.address + 4 * (s.size / 4) - U32Modulus, a.addr, a.addr + a.size)
  {
    AcceptedSectionsAreSafe(image, fwSize, skipHashCheck, sha, k, m);
  }

  /** How the launch stub moves one section. */
  datatype CopyRoute = Skipped | Ndma | Cpu

  /** One pass of the stub's section loop: empty sections are skipped, copy
      methods 0 and 1 go to an NDMA channel (whose transfer is hardware and
      not modelled), any other method is copied by the CPU loop.  `dst` is the
      destination memory as words, `src` the section's words in the load
      buffer. */
  method StubCopySection(section: Section, dst: array<bv32>, src: seq<bv32>) returns (route: CopyRoute)
    requires section.size != 0 && section.copyMethod >= 2 ==>
      CpuCopyWords(section.size) <= dst.Length && CpuCopyWords(section.size) <= |src|
    modifies dst
    ensures route == (if section.size == 0 then Skipped else if section.copyMethod < 2 then Ndma else Cpu)
    ensures route != Cpu ==> dst[..] == old(dst[..])
    ensures route == Cpu ==>
      && (forall k :: 0 <= k < CpuCopyWords(section.size) ==> dst[k] == src[k])
      && (forall k :: CpuCopyWords(section.size) <= k < dst.Length ==> dst[k] == old(dst[k]))
  {
    if section.size == 0 {
      return Skipped;
    }
    if section.copyMethod < 2 {
      return Ndma;
    }
    CpuCopy(dst, src, section.size);
    return Cpu;
  }
}
