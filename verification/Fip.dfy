// Firmware Image Packages: the table of contents of sunxi_fip.c.
module Fip {
  import opened ByteStrings
  import FdtBlob

  const DWORD: nat := 0x1_0000_0000_0000_0000

  const TOC_HEADER_NAME: nat := 0xaa640001
  const TOC_SERIAL_NUMBER: nat := 0x12345678
  const HEADER_SIZE: nat := 16
  const ENTRY_SIZE: nat := 40
  const SECTOR_SIZE: nat := 512
  const TOC_SECTORS: nat := 3
  const METADATA_SIZE: nat := TOC_SECTORS * SECTOR_SIZE
  const MAX_TOC_ENTRIES: nat := (METADATA_SIZE - HEADER_SIZE) / ENTRY_SIZE
  const MAX_SIZE: nat := 0x20_0000

  const BL31_BASE: nat := 0x4800_0000
  const BL31_MAX_SIZE: nat := 0x10_0000
  const BL33_BASE: nat := 0x4a00_0000
  const BL33_MAX_SIZE: nat := 0x18_0000
  const SCP_BL2_BASE: nat := 0x4_4000
  const SCP_BL2_MAX_SIZE: nat := 0x2_8000
  const HW_CONFIG_BASE: nat := 0x4810_0000
  const HW_CONFIG_MAX_SIZE: nat := 0x10_0000

  const SCP_BL2_UUID: bytes :=
    [0x97, 0x66, 0xfd, 0x3d, 0x89, 0xbe, 0xe8, 0x49, 0xae, 0x5d, 0x78, 0xa1, 0x40, 0x60, 0x82, 0x13]
  const BL31_UUID: bytes :=
    [0x47, 0xd4, 0x08, 0x6d, 0x4c, 0xfe, 0x98, 0x46, 0x9b, 0x95, 0x29, 0x50, 0xcb, 0xbd, 0x5a, 0x00]
  const BL33_UUID: bytes :=
    [0xd6, 0xd0, 0xee, 0xa7, 0xfc, 0xea, 0xd5, 0x4b, 0x97, 0x82, 0x99, 0x34, 0xf2, 0x34, 0xb6, 0xe4]
  const HW_CONFIG_UUID: bytes :=
    [0x08, 0xb8, 0xf1, 0xd9, 0xc9, 0xcf, 0x93, 0x49, 0xa9, 0x62, 0x6f, 0xbc, 0x6b, 0x72, 0x65, 0xcc]
  const NULL_UUID: bytes := [0, 0, 0, 0, 0, 0, 0, 0, 0, 0, 0, 0, 0, 0, 0, 0]

  const SCP_BL2_MIN_SIZE: nat := 64
  const SCP_BL2_ENTRY: seq<nat> := [0x30047073, 0x070902b7, 0x11c28293, 0xe9020337, 0xa0230305, 0x40810062]
  const BL31_MONITOR_HEADER_SIZE: nat := 0x1000
  const BL31_MONITOR_BRANCH: nat := 0xea0003fe
  const BL31_LOAD_ADDRESS_OFFSET: nat := 0x2c
  const BL31_MIN_SIZE: nat := BL31_MONITOR_HEADER_SIZE + 4
  // "monitor" and its terminator.
  const MONITOR_MAGIC: bytes := [109, 111, 110, 105, 116, 111, 114, 0]
  const BL33_MIN_SIZE: nat := 64
  const ARM_BRANCH: nat := 0xea

  function Le32(s: bytes, o: nat): (r: nat)
    requires o + 4 <= |s|
    ensures r < WORD
  {
    Word(s[o + 3], s[o + 2], s[o + 1], s[o])
  }

  function Le64(s: bytes, o: nat): (r: nat)
    requires o + 8 <= |s|
    ensures r < DWORD
  {
    Le32(s, o + 4) * WORD + Le32(s, o)
  }

  // u64 addition.
  function Add64(a: nat, b: nat): nat {
    (a + b) % DWORD
  }

  datatype Entry = Entry(uuid: bytes, start: nat, size: nat, flags: nat)

  datatype Image = Image(offset: nat, size: nat)

  // Where entry i of the table begins.
  function At(i: nat): nat {
    HEADER_SIZE + i * ENTRY_SIZE
  }

  function EntryAt(s: bytes, i: nat): (e: Entry)
    requires At(i + 1) <= |s|
    ensures e.start < DWORD && e.size < DWORD && e.flags < DWORD
  {
    var o := At(i);
    Entry(s[o..o + 16], Le64(s, o + 16), Le64(s, o + 24), Le64(s, o + 32))
  }

  // --- What a package is ---

  ghost predicate Owns(e: Entry, x: int) {
    e.start <= x < e.start + e.size
  }

  ghost predicate Headed(s: bytes) {
    && HEADER_SIZE <= |s| <= MAX_SIZE
    && Le32(s, 0) == TOC_HEADER_NAME && Le32(s, 4) == TOC_SERIAL_NUMBER
  }

  // Entry n is the first with the null UUID.
  ghost predicate EndsAt(s: bytes, n: nat) {
    && n < MAX_TOC_ENTRIES && At(n + 1) <= |s|
    && EntryAt(s, n).uuid == NULL_UUID
    && forall i: nat :: i < n ==> EntryAt(s, i).uuid != NULL_UUID
  }

  // Distinct UUIDs, and images that are not empty, share no byte and lie
  // between the table and the end of the package.
  ghost predicate WellPlaced(s: bytes, n: nat)
    requires At(n + 1) <= |s|
  {
    && (forall i: nat, j: nat :: i < n && j < n && EntryAt(s, i).uuid == EntryAt(s, j).uuid ==> i == j)
    && (forall i: nat, j: nat, x :: i < n && j < n && Owns(EntryAt(s, i), x) && Owns(EntryAt(s, j), x) ==> i == j)
    && forall i: nat :: i < n ==>
         EntryAt(s, i).size > 0
         && At(n + 1) <= EntryAt(s, i).start && EntryAt(s, i).start + EntryAt(s, i).size <= EntryAt(s, n).start
  }

  ghost predicate Has(s: bytes, n: nat, uuid: bytes)
    requires At(n) <= |s|
  {
    exists i: nat :: i < n && EntryAt(s, i).uuid == uuid
  }

  ghost predicate ScpBl2Abi(b: bytes) {
    && SCP_BL2_MIN_SIZE <= |b| <= SCP_BL2_MAX_SIZE
    && forall k: nat :: k < |SCP_BL2_ENTRY| ==> Le32(b, 4 * k) == SCP_BL2_ENTRY[k]
  }

  ghost predicate Bl31Abi(b: bytes) {
    && BL31_MIN_SIZE <= |b| <= BL31_MAX_SIZE
    && Le32(b, 0) == BL31_MONITOR_BRANCH && b[4..12] == MONITOR_MAGIC
    && Le32(b, BL31_LOAD_ADDRESS_OFFSET) == BL31_BASE
    && Le32(b, BL31_MONITOR_HEADER_SIZE) != 0 && Le32(b, BL31_MONITOR_HEADER_SIZE) != 0xffff_ffff
  }

  // The first instruction is a branch, always taken, to an instruction of the
  // image: imm words on from the second instruction after it.
  ghost predicate Bl33Abi(b: bytes) {
    && BL33_MIN_SIZE <= |b| <= BL33_MAX_SIZE
    && exists imm: int :: Branch(Le32(b, 0), imm) && 0 <= 8 + 4 * imm && 8 + 4 * imm + 4 <= |b|
  }

  // An ARM branch that is always taken, with a signed 24-bit word offset.
  predicate Branch(instruction: nat, imm: int) {
    -0x80_0000 <= imm < 0x80_0000 && instruction == ARM_BRANCH * 0x100_0000 + imm % 0x100_0000
  }

  // A device tree header that fills the image and keeps its blocks inside.
  ghost predicate HwConfigHeader(b: bytes) {
    && FdtBlob.HEADER_SIZE <= |b| <= HW_CONFIG_MAX_SIZE
    && Be32(b, FdtBlob.MAGIC) == FdtBlob.FDT_MAGIC && Be32(b, FdtBlob.TOTALSIZE) == |b|
    && 16 <= Be32(b, FdtBlob.VERSION) <= 17 && Be32(b, FdtBlob.LAST_COMP) <= 17
    && FdtBlob.HEADER_SIZE <= Be32(b, FdtBlob.OFF_RSVMAP) && Be32(b, FdtBlob.OFF_RSVMAP) % 8 == 0
    && Be32(b, FdtBlob.OFF_RSVMAP) + 16 <= |b|
    && FdtBlob.HEADER_SIZE <= Be32(b, FdtBlob.OFF_STRUCT)
    && Be32(b, FdtBlob.OFF_STRUCT) + Be32(b, FdtBlob.SIZE_STRUCT) <= |b|
    && FdtBlob.HEADER_SIZE <= Be32(b, FdtBlob.OFF_STRINGS)
    && Be32(b, FdtBlob.OFF_STRINGS) + Be32(b, FdtBlob.SIZE_STRINGS) <= |b|
  }

  function Bytes(s: bytes, e: Entry): (b: bytes)
    requires e.start + e.size <= |s|
    ensures |b| == e.size
  {
    s[e.start..e.start + e.size]
  }

  // What the images must look like to be started.
  ghost predicate Startable(s: bytes, e: Entry)
    requires e.start + e.size <= |s|
  {
    && (e.uuid == SCP_BL2_UUID ==> e.start % 4 == 0 && ScpBl2Abi(Bytes(s, e)))
    && (e.uuid == BL31_UUID ==> Bl31Abi(Bytes(s, e)))
    && (e.uuid == BL33_UUID ==> Bl33Abi(Bytes(s, e)))
    && (e.uuid == HW_CONFIG_UUID ==> HwConfigHeader(Bytes(s, e)))
  }

  // A package whose table has n entries before its end.
  ghost predicate ValidFip(s: bytes, n: nat) {
    && Headed(s) && EndsAt(s, n)
    && EntryAt(s, n).size == 0 && EntryAt(s, n).flags == 0
    && At(n + 1) <= EntryAt(s, n).start <= |s|
    && WellPlaced(s, n)
    && Has(s, n, SCP_BL2_UUID) && Has(s, n, BL31_UUID) && Has(s, n, BL33_UUID)
    && forall i: nat :: i < n ==> Startable(s, EntryAt(s, i))
  }

  ghost predicate IsFip(s: bytes) {
    exists n :: ValidFip(s, n)
  }

  lemma OneEnd(s: bytes, m: nat, n: nat)
    requires EndsAt(s, m) && EndsAt(s, n)
    ensures m == n
  {
  }

  // The image of that UUID among the first n entries, or nothing.
  ghost predicate Holds(s: bytes, n: nat, uuid: bytes, image: Image)
    requires At(n) <= |s|
  {
    if Has(s, n, uuid) then
      exists i: nat :: i < n && EntryAt(s, i).uuid == uuid && image == Image(EntryAt(s, i).start, EntryAt(s, i).size)
    else
      image == Image(0, 0)
  }

  // --- The code ---

  predicate ScpBl2IsValid(s: bytes, image: Image)
    requires image.offset + image.size <= |s|
  {
    var o := image.offset;
    && o % 4 == 0 && image.size >= SCP_BL2_MIN_SIZE
    && Le32(s, o) == 0x30047073 && Le32(s, o + 4) == 0x070902b7 && Le32(s, o + 8) == 0x11c28293
    && Le32(s, o + 12) == 0xe9020337 && Le32(s, o + 16) == 0xa0230305 && Le32(s, o + 20) == 0x40810062
  }

  predicate Bl31IsValid(s: bytes, image: Image)
    requires image.offset + image.size <= |s|
  {
    var o := image.offset;
    && image.size >= BL31_MIN_SIZE
    && Le32(s, o) == BL31_MONITOR_BRANCH
    && s[o + 4..o + 12] == MONITOR_MAGIC
    && Le32(s, o + BL31_LOAD_ADDRESS_OFFSET) == BL31_BASE
    && Le32(s, o + BL31_MONITOR_HEADER_SIZE) != 0
    && Le32(s, o + BL31_MONITOR_HEADER_SIZE) != 0xffff_ffff
  }

  predicate Bl33IsValid(s: bytes, image: Image)
    requires image.offset + image.size <= |s|
  {
    && image.size >= BL33_MIN_SIZE
    && var instruction := Le32(s, image.offset);
    && instruction / 0x100_0000 == ARM_BRANCH
    && var low := instruction % 0x100_0000;
       var immediate := if low / 0x80_0000 % 2 == 1 then low - 0x100_0000 else low;
       var target := 8 + immediate * 4;
    target >= 0 && target + 4 <= image.size
  }

  predicate HwConfigIsValid(s: bytes, image: Image)
    requires image.offset + image.size <= |s|
  {
    var o := image.offset;
    && image.size >= FdtBlob.HEADER_SIZE && Be32(s, o) == FdtBlob.FDT_MAGIC
    && var total := Be32(s, o + FdtBlob.TOTALSIZE);
       var struct := Be32(s, o + FdtBlob.OFF_STRUCT);
       var strings := Be32(s, o + FdtBlob.OFF_STRINGS);
       var reserve := Be32(s, o + FdtBlob.OFF_RSVMAP);
    && total == image.size && total >= FdtBlob.HEADER_SIZE
    && 16 <= Be32(s, o + FdtBlob.VERSION) <= 17 && Be32(s, o + FdtBlob.LAST_COMP) <= 17
    && reserve >= FdtBlob.HEADER_SIZE && reserve % 8 == 0 && reserve <= (total - 16) % WORD
    && struct >= FdtBlob.HEADER_SIZE && struct <= total
    && Be32(s, o + FdtBlob.SIZE_STRUCT) <= total - struct
    && strings >= FdtBlob.HEADER_SIZE && strings <= total
    && Be32(s, o + FdtBlob.SIZE_STRINGS) <= total - strings
  }

  // A device tree that gets this far passes the checks of the code that patches
  // and reads it.
  lemma HwConfigReadable(b: bytes)
    requires HwConfigHeader(b)
    ensures FdtBlob.InBounds(b) && FdtBlob.CheckHeader(b) == 0 && FdtBlob.Hdr(b, FdtBlob.TOTALSIZE) == |b|
  {
  }

  predicate EntryInBuffer(e: Entry, size: nat) {
    e.size != 0 && e.start <= size && e.size <= size - e.start
  }

  // --- Each check against what it stands for ---

  lemma Le32OfSlice(s: bytes, a: nat, b: nat, o: nat)
    requires a <= b <= |s| && a + o + 4 <= b
    ensures Le32(s[a..b], o) == Le32(s, a + o)
  {
  }

  lemma Be32InSlice(s: bytes, a: nat, b: nat, o: nat)
    requires a <= b <= |s| && a + o + 4 <= b
    ensures Be32(s[a..b], o) == Be32(s, a + o)
  {
  }

  lemma ScpBl2Means(s: bytes, e: Entry)
    requires e.start + e.size <= |s|
    ensures ScpBl2IsValid(s, Image(e.start, e.size)) && e.size <= SCP_BL2_MAX_SIZE <==>
              e.start % 4 == 0 && ScpBl2Abi(Bytes(s, e))
  {
    hide Le32;
    var b := Bytes(s, e);
    if e.size >= SCP_BL2_MIN_SIZE {
      forall k: nat | k < 6 ensures Le32(b, 4 * k) == Le32(s, e.start + 4 * k) {
        Le32OfSlice(s, e.start, e.start + e.size, 4 * k);
      }
      assert Le32(b, 4 * 0) == Le32(s, e.start) && Le32(b, 4 * 1) == Le32(s, e.start + 4);
      assert Le32(b, 4 * 2) == Le32(s, e.start + 8) && Le32(b, 4 * 3) == Le32(s, e.start + 12);
      assert Le32(b, 4 * 4) == Le32(s, e.start + 16) && Le32(b, 4 * 5) == Le32(s, e.start + 20);
    }
  }

  lemma Bl31Means(s: bytes, e: Entry)
    requires e.start + e.size <= |s|
    ensures Bl31IsValid(s, Image(e.start, e.size)) && e.size <= BL31_MAX_SIZE <==> Bl31Abi(Bytes(s, e))
  {
    hide Le32;
    if e.size >= BL31_MIN_SIZE {
      Le32OfSlice(s, e.start, e.start + e.size, 0);
      Le32OfSlice(s, e.start, e.start + e.size, BL31_LOAD_ADDRESS_OFFSET);
      Le32OfSlice(s, e.start, e.start + e.size, BL31_MONITOR_HEADER_SIZE);
      SliceOfSlice(s, e.start, e.start + e.size, 4, 12);
    }
  }

  lemma Bl33Means(s: bytes, e: Entry)
    requires e.start + e.size <= |s|
    ensures Bl33IsValid(s, Image(e.start, e.size)) && e.size <= BL33_MAX_SIZE <==> Bl33Abi(Bytes(s, e))
  {
    hide Le32;
    if e.size >= BL33_MIN_SIZE {
      Le32OfSlice(s, e.start, e.start + e.size, 0);
      var v := Le32(s, e.start);
      BranchTarget(v);
    }
  }

  function Signed24(low: nat): int {
    if low / 0x80_0000 % 2 == 1 then low - 0x100_0000 else low
  }

  lemma BranchTarget(v: nat)
    requires v < WORD
    ensures v / 0x100_0000 == ARM_BRANCH ==> Branch(v, Signed24(v % 0x100_0000))
    ensures forall imm :: Branch(v, imm) ==> v / 0x100_0000 == ARM_BRANCH && imm == Signed24(v % 0x100_0000)
  {
  }

  lemma HwConfigMeans(s: bytes, e: Entry)
    requires e.start + e.size <= |s|
    ensures HwConfigIsValid(s, Image(e.start, e.size)) && e.size <= HW_CONFIG_MAX_SIZE <==> HwConfigHeader(Bytes(s, e))
  {
    hide Be32;
    if e.size >= FdtBlob.HEADER_SIZE {
      forall o: nat | o + 4 <= FdtBlob.HEADER_SIZE ensures Be32(Bytes(s, e), o) == Be32(s, e.start + o) {
        Be32InSlice(s, e.start, e.start + e.size, o);
      }
    }
  }

  // --- The table, entry by entry ---

  // The first n entries are what a package's entries may be, wherever its
  // table ends.
  ghost predicate Scanned(s: bytes, n: nat) {
    && n <= MAX_TOC_ENTRIES && At(n) <= |s| <= MAX_SIZE
    && (forall i: nat :: i < n ==> EntryAt(s, i).uuid != NULL_UUID && EntryInBuffer(EntryAt(s, i), |s|))
    && (forall i: nat, j: nat :: i < n && j < n && EntryAt(s, i).uuid == EntryAt(s, j).uuid ==> i == j)
    && forall i: nat, j: nat :: i < j < n ==> !Overlap(EntryAt(s, i), EntryAt(s, j))
  }

  predicate Overlap(d: Entry, e: Entry) {
    e.start < Add64(d.start, d.size) && d.start < Add64(e.start, e.size)
  }

  // The interval test finds exactly the shared bytes.
  lemma OverlapMeans(d: Entry, e: Entry, size: nat)
    requires size <= MAX_SIZE && EntryInBuffer(d, size) && EntryInBuffer(e, size)
    ensures Overlap(d, e) <==> exists x :: Owns(d, x) && Owns(e, x)
  {
    if Overlap(d, e) {
      var x := if d.start < e.start then e.start else d.start;
      assert Owns(d, x) && Owns(e, x);
    }
  }

  // entry_uuid_seen.
  method EntryUuidSeen(s: bytes, e: Entry, count: nat) returns (seen: bool)
    requires At(count) <= |s|
    ensures seen == Has(s, count, e.uuid)
  {
    var i := 0;
    while i < count
      invariant i <= count && !Has(s, i, e.uuid)
    {
      if EntryAt(s, i).uuid == e.uuid {
        return true;
      }
      i := i + 1;
    }
    return false;
  }

  // entry_overlaps_previous.
  method EntryOverlapsPrevious(s: bytes, e: Entry, count: nat) returns (overlaps: bool)
    requires At(count) <= |s|
    ensures overlaps <==> exists i: nat :: i < count && Overlap(EntryAt(s, i), e)
  {
    var i := 0;
    while i < count
      invariant i <= count && forall j: nat :: j < i ==> !Overlap(EntryAt(s, j), e)
    {
      var previous := EntryAt(s, i);
      if e.start < Add64(previous.start, previous.size) && previous.start < Add64(e.start, e.size) {
        return true;
      }
      i := i + 1;
    }
    return false;
  }

  lemma NextScanned(s: bytes, n: nat)
    requires Scanned(s, n) && n < MAX_TOC_ENTRIES && At(n + 1) <= |s|
    requires var e := EntryAt(s, n);
             && e.uuid != NULL_UUID && EntryInBuffer(e, |s|) && !Has(s, n, e.uuid)
             && !exists i: nat :: i < n && Overlap(EntryAt(s, i), e)
    ensures Scanned(s, n + 1)
  {
    hide EntryAt, Overlap;
  }

  // An entry that a check refuses ends the search: no package is there.
  lemma BadEntry(s: bytes, n: nat, m: nat)
    requires Scanned(s, n) && At(n + 1) <= |s| && EntryAt(s, n).uuid != NULL_UUID
    requires var e := EntryAt(s, n);
             || Has(s, n, e.uuid) || !EntryInBuffer(e, |s|)
             || exists i: nat :: i < n && Overlap(EntryAt(s, i), e)
    ensures !ValidFip(s, m)
  {
    hide EntryAt, Overlap, Le32, Startable;
    if ValidFip(s, m) {
      assert n < m;
      var e := EntryAt(s, n);
      assert EntryInBuffer(e, |s|);
      if Has(s, n, e.uuid) {
        assert false;
      } else {
        var i: nat :| i < n && Overlap(EntryAt(s, i), e);
        OverlapMeans(EntryAt(s, i), e, |s|);
        assert false;
      }
    }
  }

  // Fewer than m + 1 entries fit.
  lemma NoRoom(s: bytes, n: nat, m: nat)
    requires Scanned(s, n) && (At(n + 1) > |s| || n == MAX_TOC_ENTRIES)
    ensures !ValidFip(s, m)
  {
    hide EntryAt;
    assert m < n ==> !EndsAt(s, m);
  }

  // What the search knows of the first n entries.
  ghost predicate Payload(s: bytes, n: nat, start: nat, end: nat)
    requires Scanned(s, n)
  {
    && (forall i: nat :: i < n ==> start <= EntryAt(s, i).start && EntryAt(s, i).start + EntryAt(s, i).size <= end)
    && (if n == 0 then start == DWORD - 1 && end == 0
        else && (exists i: nat :: i < n && start == EntryAt(s, i).start)
             && (exists i: nat :: i < n && end == EntryAt(s, i).start + EntryAt(s, i).size))
  }

  lemma NextPayload(s: bytes, n: nat, start: nat, end: nat)
    requires Scanned(s, n + 1) && Scanned(s, n) && Payload(s, n, start, end)
    ensures var e := EntryAt(s, n);
            && Add64(e.start, e.size) == e.start + e.size
            && Payload(s, n + 1, if e.start < start then e.start else start,
                                 if e.start + e.size > end then e.start + e.size else end)
  {
    hide EntryAt, Overlap, Has;
    var e := EntryAt(s, n);
    assert e.start + e.size <= MAX_SIZE;
    if n > 0 {
      var i: nat :| i < n && start == EntryAt(s, i).start;
      var j: nat :| j < n && end == EntryAt(s, j).start + EntryAt(s, j).size;
    }
  }

  lemma NextHolds(s: bytes, n: nat, uuid: bytes, image: Image)
    requires At(n + 1) <= |s| && !Has(s, n, EntryAt(s, n).uuid) && Holds(s, n, uuid, image)
    ensures var e := EntryAt(s, n);
            Has(s, n + 1, uuid) == (Has(s, n, uuid) || e.uuid == uuid)
            && Holds(s, n + 1, uuid, if e.uuid == uuid then Image(e.start, e.size) else image)
  {
    hide EntryAt;
    if Has(s, n, uuid) {
      var i: nat :| i < n && EntryAt(s, i).uuid == uuid && image == Image(EntryAt(s, i).start, EntryAt(s, i).size);
      assert i < n + 1 && EntryAt(s, i).uuid == uuid;
    }
  }

  lemma PlacedMeans(s: bytes, n: nat, start: nat, end: nat)
    requires Scanned(s, n) && At(n + 1) <= |s| && Payload(s, n, start, end)
    ensures WellPlaced(s, n) <==> At(n + 1) <= start && end <= EntryAt(s, n).start
  {
    hide EntryAt, Overlap, Owns;
    forall i: nat, j: nat, x | i < n && j < n && Owns(EntryAt(s, i), x) && Owns(EntryAt(s, j), x) ensures i == j {
      OverlapMeans(EntryAt(s, i), EntryAt(s, j), |s|);
      OverlapMeans(EntryAt(s, j), EntryAt(s, i), |s|);
    }
    if WellPlaced(s, n) && n > 0 {
      var i: nat :| i < n && start == EntryAt(s, i).start;
      var j: nat :| j < n && end == EntryAt(s, j).start + EntryAt(s, j).size;
    }
  }

  lemma HoldsEntry(s: bytes, n: nat, uuid: bytes, image: Image) returns (i: nat)
    requires Scanned(s, n) && Has(s, n, uuid) && Holds(s, n, uuid, image)
    ensures i < n && EntryAt(s, i).uuid == uuid && image == Image(EntryAt(s, i).start, EntryAt(s, i).size)
    ensures forall j: nat :: j < n && EntryAt(s, j).uuid == uuid ==> j == i
    ensures image.offset + image.size <= |s|
  {
    hide EntryAt, Overlap;
    i :| i < n && EntryAt(s, i).uuid == uuid && image == Image(EntryAt(s, i).start, EntryAt(s, i).size);
  }

  lemma UuidsDiffer()
    ensures SCP_BL2_UUID != BL31_UUID && SCP_BL2_UUID != BL33_UUID && SCP_BL2_UUID != HW_CONFIG_UUID
    ensures BL31_UUID != BL33_UUID && BL31_UUID != HW_CONFIG_UUID && BL33_UUID != HW_CONFIG_UUID
  {
    assert SCP_BL2_UUID[0] == 0x97 && BL31_UUID[0] == 0x47 && BL33_UUID[0] == 0xd6 && HW_CONFIG_UUID[0] == 0x08;
  }

  // The checks on one image are the checks on the one entry with its UUID.
  lemma StartableMeans(s: bytes, n: nat, i: nat, e: Entry)
    requires Scanned(s, n) && i < n && e == EntryAt(s, i)
    ensures e.start + e.size <= |s|
    ensures var image := Image(e.start, e.size);
            && (e.uuid == SCP_BL2_UUID ==> (Startable(s, e) <==> ScpBl2IsValid(s, image) && e.size <= SCP_BL2_MAX_SIZE))
            && (e.uuid == BL31_UUID ==> (Startable(s, e) <==> Bl31IsValid(s, image) && e.size <= BL31_MAX_SIZE))
            && (e.uuid == BL33_UUID ==> (Startable(s, e) <==> Bl33IsValid(s, image) && e.size <= BL33_MAX_SIZE))
            && (e.uuid == HW_CONFIG_UUID ==>
                  (Startable(s, e) <==> HwConfigIsValid(s, image) && e.size <= HW_CONFIG_MAX_SIZE))
            && (e.uuid != SCP_BL2_UUID && e.uuid != BL31_UUID && e.uuid != BL33_UUID && e.uuid != HW_CONFIG_UUID ==>
                  Startable(s, e))
  {
    hide EntryAt, Overlap, ScpBl2IsValid, Bl31IsValid, Bl33IsValid, HwConfigIsValid, ScpBl2Abi, Bl31Abi, Bl33Abi;
    hide HwConfigHeader;
    UuidsDiffer();
    assert EntryInBuffer(EntryAt(s, i), |s|);
    ScpBl2Means(s, e);
    Bl31Means(s, e);
    Bl33Means(s, e);
    HwConfigMeans(s, e);
  }

  // layout_is_loadable and the HW_CONFIG check before it.
  predicate LayoutIsLoadable(s: bytes, scp: Image, bl31: Image, bl33: Image, hw: Image)
    requires scp.offset + scp.size <= |s| && bl31.offset + bl31.size <= |s| && bl33.offset + bl33.size <= |s|
  {
    && bl31.size <= BL31_MAX_SIZE && bl33.size <= BL33_MAX_SIZE && scp.size <= SCP_BL2_MAX_SIZE
    && hw.size <= HW_CONFIG_MAX_SIZE
    && ScpBl2IsValid(s, scp) && Bl31IsValid(s, bl31) && Bl33IsValid(s, bl33)
  }

  lemma HoldsInBuffer(s: bytes, n: nat, uuid: bytes, image: Image)
    requires Scanned(s, n) && Holds(s, n, uuid, image)
    ensures image.offset + image.size <= |s|
  {
    hide EntryAt, Overlap;
    if Has(s, n, uuid) {
      var i := HoldsEntry(s, n, uuid, image);
    }
  }

  lemma LoadableMeans(s: bytes, n: nat, scp: Image, bl31: Image, bl33: Image, hw: Image)
    requires Scanned(s, n) && Has(s, n, SCP_BL2_UUID) && Has(s, n, BL31_UUID) && Has(s, n, BL33_UUID)
    requires Holds(s, n, SCP_BL2_UUID, scp) && Holds(s, n, BL31_UUID, bl31)
    requires Holds(s, n, BL33_UUID, bl33) && Holds(s, n, HW_CONFIG_UUID, hw)
    ensures scp.offset + scp.size <= |s| && bl31.offset + bl31.size <= |s|
    ensures bl33.offset + bl33.size <= |s| && hw.offset + hw.size <= |s|
    ensures (forall i: nat :: i < n ==> Startable(s, EntryAt(s, i))) <==>
              (Has(s, n, HW_CONFIG_UUID) ==> HwConfigIsValid(s, hw)) && LayoutIsLoadable(s, scp, bl31, bl33, hw)
  {
    hide EntryAt, Overlap, Startable, ScpBl2IsValid, Bl31IsValid, Bl33IsValid, HwConfigIsValid, Holds;
    var i := HoldsEntry(s, n, SCP_BL2_UUID, scp);
    StartableMeans(s, n, i, EntryAt(s, i));
    i := HoldsEntry(s, n, BL31_UUID, bl31);
    StartableMeans(s, n, i, EntryAt(s, i));
    i := HoldsEntry(s, n, BL33_UUID, bl33);
    StartableMeans(s, n, i, EntryAt(s, i));
    HoldsInBuffer(s, n, HW_CONFIG_UUID, hw);
    if Has(s, n, HW_CONFIG_UUID) {
      i := HoldsEntry(s, n, HW_CONFIG_UUID, hw);
      StartableMeans(s, n, i, EntryAt(s, i));
    } else {
      NoImage(s, n, HW_CONFIG_UUID, hw);
    }
    forall k: nat | k < n
      ensures (Has(s, n, HW_CONFIG_UUID) ==> HwConfigIsValid(s, hw)) && LayoutIsLoadable(s, scp, bl31, bl33, hw) ==>
                Startable(s, EntryAt(s, k))
    {
      StartableMeans(s, n, k, EntryAt(s, k));
    }
  }

  lemma NoImage(s: bytes, n: nat, uuid: bytes, image: Image)
    requires At(n) <= |s| && !Has(s, n, uuid) && Holds(s, n, uuid, image)
    ensures image == Image(0, 0)
  {
  }

  class Layout {
    var scpBl2: Image
    var bl31: Image
    var bl33: Image
    var hwConfig: Image

    constructor ()
    {
      scpBl2, bl31, bl33, hwConfig := Image(0, 0), Image(0, 0), Image(0, 0), Image(0, 0);
    }

    // The images among the first n entries.
    ghost predicate Lists(s: bytes, n: nat)
      requires At(n) <= |s|
      reads this
    {
      && Holds(s, n, SCP_BL2_UUID, scpBl2) && Holds(s, n, BL31_UUID, bl31)
      && Holds(s, n, BL33_UUID, bl33) && Holds(s, n, HW_CONFIG_UUID, hwConfig)
    }
  }

  const FOUND_SCP_BL2: bv8 := 1
  const FOUND_BL31: bv8 := 2
  const FOUND_BL33: bv8 := 4
  const FOUND_HW_CONFIG: bv8 := 8
  const FOUND_REQUIRED: bv8 := FOUND_SCP_BL2 | FOUND_BL31 | FOUND_BL33

  ghost predicate Flags(s: bytes, n: nat, found: bv8)
    requires At(n) <= |s|
  {
    && (found & FOUND_SCP_BL2 != 0 <==> Has(s, n, SCP_BL2_UUID))
    && (found & FOUND_BL31 != 0 <==> Has(s, n, BL31_UUID))
    && (found & FOUND_BL33 != 0 <==> Has(s, n, BL33_UUID))
    && (found & FOUND_HW_CONFIG != 0 <==> Has(s, n, HW_CONFIG_UUID))
  }

  predicate Flag(f: bv8) {
    f == FOUND_SCP_BL2 || f == FOUND_BL31 || f == FOUND_BL33 || f == FOUND_HW_CONFIG
  }

  lemma FlagOr(found: bv8)
    ensures (found & FOUND_REQUIRED == FOUND_REQUIRED)
            == (found & FOUND_SCP_BL2 != 0 && found & FOUND_BL31 != 0 && found & FOUND_BL33 != 0)
    ensures forall f, g :: Flag(f) && Flag(g) ==> ((found | f) & g != 0) == (f == g || found & g != 0)
  {
  }

  lemma AtEnd(s: bytes, n: nat, start: nat, end: nat, layout: Layout)
    requires Headed(s) && Scanned(s, n) && EndsAt(s, n) && Payload(s, n, start, end) && layout.Lists(s, n)
    ensures forall m :: ValidFip(s, m) ==> m == n
    ensures ValidFip(s, n) <==>
              && EntryAt(s, n).size == 0 && EntryAt(s, n).flags == 0
              && EntryAt(s, n).start <= |s| && EntryAt(s, n).start >= At(n + 1)
              && start >= At(n + 1) && end <= EntryAt(s, n).start
              && Has(s, n, SCP_BL2_UUID) && Has(s, n, BL31_UUID) && Has(s, n, BL33_UUID)
              && forall i: nat :: i < n ==> Startable(s, EntryAt(s, i))
  {
    hide EntryAt, Overlap, Startable, Holds, WellPlaced;
    PlacedMeans(s, n, start, end);
  }

  // The layout after one more entry.
  function Filed(e: Entry, uuid: bytes, image: Image): Image {
    if e.uuid == uuid then Image(e.start % WORD, e.size % WORD) else image
  }

  function Flagged(e: Entry, found: bv8): bv8 {
    if e.uuid == SCP_BL2_UUID then found | FOUND_SCP_BL2
    else if e.uuid == BL31_UUID then found | FOUND_BL31
    else if e.uuid == BL33_UUID then found | FOUND_BL33
    else if e.uuid == HW_CONFIG_UUID then found | FOUND_HW_CONFIG
    else found
  }

  lemma NextFlags(s: bytes, n: nat, found: bv8)
    requires At(n + 1) <= |s| && Flags(s, n, found)
    ensures Flags(s, n + 1, Flagged(EntryAt(s, n), found))
  {
    hide EntryAt;
    UuidsDiffer();
    FlagOr(found);
    forall uuid ensures Has(s, n + 1, uuid) == (Has(s, n, uuid) || EntryAt(s, n).uuid == uuid) {
      if Has(s, n, uuid) {
        var i: nat :| i < n && EntryAt(s, i).uuid == uuid;
        assert i < n + 1 && EntryAt(s, i).uuid == uuid;
      }
    }
  }

  lemma NextFiled(s: bytes, n: nat, uuid: bytes, image: Image)
    requires Scanned(s, n + 1) && !Has(s, n, EntryAt(s, n).uuid) && Holds(s, n, uuid, image)
    ensures Holds(s, n + 1, uuid, Filed(EntryAt(s, n), uuid, image))
  {
    hide EntryAt, Overlap, Holds;
    NextHolds(s, n, uuid, image);
    var e := EntryAt(s, n);
    assert EntryInBuffer(e, |s|);
    assert e.start % WORD == e.start && e.size % WORD == e.size;
  }

  lemma NothingScanned(s: bytes)
    requires Headed(s)
    ensures Scanned(s, 0) && Payload(s, 0, DWORD - 1, 0) && Flags(s, 0, 0)
    ensures forall uuid :: Holds(s, 0, uuid, Image(0, 0))
  {
    FlagOr(0);
  }

  // sunxi_fip_parse: it accepts the packages and no other image, and files
  // the images of their tables.
  method Parse(s: bytes, layout: Layout) returns (r: int)
    modifies layout
    ensures r == 0 || r == -1
    ensures r == 0 <==> IsFip(s)
    ensures r == 0 ==> forall n :: ValidFip(s, n) ==> layout.Lists(s, n)
    ensures !Headed(s) ==> unchanged(layout)
  {
    hide EntryAt, Overlap, Startable, Holds, ValidFip, Scanned, Payload, Flags, Has, Filed, Flagged, LayoutIsLoadable;
    hide HwConfigIsValid;
    hide Le32, Le64, EndsAt;
    if |s| < HEADER_SIZE || |s| > MAX_SIZE || Le32(s, 0) != TOC_HEADER_NAME || Le32(s, 4) != TOC_SERIAL_NUMBER {
      NotHeaded(s);
      return -1;
    }
    layout.scpBl2 := Image(0, 0);
    layout.bl31 := Image(0, 0);
    layout.bl33 := Image(0, 0);
    layout.hwConfig := Image(0, 0);
    var found: bv8 := 0;
    var payloadStart: nat, payloadEnd: nat := DWORD - 1, 0;
    var entryOffset := HEADER_SIZE;
    var count := 0;
    NothingScanned(s);
    while count < MAX_TOC_ENTRIES
      invariant 0 <= count <= MAX_TOC_ENTRIES && entryOffset == At(count) <= |s|
      invariant Scanned(s, count) && Payload(s, count, payloadStart, payloadEnd) && Flags(s, count, found)
      invariant layout.Lists(s, count)
    {
      if entryOffset > |s| || |s| - entryOffset < ENTRY_SIZE {
        NoFip(s, count);
        return -1;
      }
      var e := EntryAt(s, count);
      if e.uuid == NULL_UUID {
        EndsHere(s, count);
        r := AtTerminator(s, count, payloadStart, payloadEnd, found, layout);
        return;
      }
      var seen := EntryUuidSeen(s, e, count);
      if seen {
        BadEntries(s, count);
        return -1;
      }
      if !EntryInBuffer(e, |s|) {
        BadEntries(s, count);
        return -1;
      }
      var overlaps := EntryOverlapsPrevious(s, e, count);
      if overlaps {
        BadEntries(s, count);
        return -1;
      }
      NextScanned(s, count);
      NextPayload(s, count, payloadStart, payloadEnd);
      NextFlags(s, count, found);
      NextFiled(s, count, SCP_BL2_UUID, layout.scpBl2);
      NextFiled(s, count, BL31_UUID, layout.bl31);
      NextFiled(s, count, BL33_UUID, layout.bl33);
      NextFiled(s, count, HW_CONFIG_UUID, layout.hwConfig);
      if e.start < payloadStart {
        payloadStart := e.start;
      }
      if Add64(e.start, e.size) > payloadEnd {
        payloadEnd := Add64(e.start, e.size);
      }
      found := File(e, found, layout);
      entryOffset := entryOffset + ENTRY_SIZE;
      count := count + 1;
    }
    NoFip(s, count);
    return -1;
  }

  // The chain of UUID comparisons with set_image.
  method File(e: Entry, found: bv8, layout: Layout) returns (found': bv8)
    modifies layout
    ensures found' == Flagged(e, found)
    ensures layout.scpBl2 == Filed(e, SCP_BL2_UUID, old(layout.scpBl2))
    ensures layout.bl31 == Filed(e, BL31_UUID, old(layout.bl31))
    ensures layout.bl33 == Filed(e, BL33_UUID, old(layout.bl33))
    ensures layout.hwConfig == Filed(e, HW_CONFIG_UUID, old(layout.hwConfig))
  {
    UuidsDiffer();
    found' := found;
    var image := Image(e.start % WORD, e.size % WORD);
    if e.uuid == SCP_BL2_UUID {
      layout.scpBl2 := image;
      found' := found' | FOUND_SCP_BL2;
    } else if e.uuid == BL31_UUID {
      layout.bl31 := image;
      found' := found' | FOUND_BL31;
    } else if e.uuid == BL33_UUID {
      layout.bl33 := image;
      found' := found' | FOUND_BL33;
    } else if e.uuid == HW_CONFIG_UUID {
      layout.hwConfig := image;
      found' := found' | FOUND_HW_CONFIG;
    }
  }

  // The checks at the null entry.
  method AtTerminator(s: bytes, count: nat, payloadStart: nat, payloadEnd: nat, found: bv8, layout: Layout)
    returns (r: int)
    requires Headed(s) && Scanned(s, count) && EndsAt(s, count) && Payload(s, count, payloadStart, payloadEnd)
    requires Flags(s, count, found) && layout.Lists(s, count)
    ensures r == 0 || r == -1
    ensures r == 0 <==> IsFip(s)
    ensures r == 0 ==> forall n :: ValidFip(s, n) ==> n == count
  {
    hide EntryAt, Overlap, Startable, Holds, ValidFip, Payload, Has, LayoutIsLoadable, HwConfigIsValid;
    hide Le32, Le64, Headed;
    AtEnd(s, count, payloadStart, payloadEnd, layout);
    FlagOr(found);
    var e := EntryAt(s, count);
    var metadataEnd := At(count) + ENTRY_SIZE;
    if e.size != 0 || e.flags != 0 || e.start > |s| || e.start < metadataEnd
       || payloadStart < metadataEnd || payloadEnd > e.start {
      return -1;
    }
    if found & FOUND_REQUIRED != FOUND_REQUIRED {
      return -1;
    }
    LoadableMeans(s, count, layout.scpBl2, layout.bl31, layout.bl33, layout.hwConfig);
    if found & FOUND_HW_CONFIG != 0 && !HwConfigIsValid(s, layout.hwConfig) {
      return -1;
    }
    if !LayoutIsLoadable(s, layout.scpBl2, layout.bl31, layout.bl33, layout.hwConfig) {
      return -1;
    }
    return 0;
  }

  lemma EndsHere(s: bytes, n: nat)
    requires Scanned(s, n) && n < MAX_TOC_ENTRIES && At(n + 1) <= |s| && EntryAt(s, n).uuid == NULL_UUID
    ensures EndsAt(s, n)
  {
    hide EntryAt;
  }

  lemma NotHeaded(s: bytes)
    requires !Headed(s)
    ensures forall n :: !ValidFip(s, n)
  {
  }

  lemma NoFip(s: bytes, n: nat)
    requires Scanned(s, n) && (At(n + 1) > |s| || n == MAX_TOC_ENTRIES)
    ensures forall m :: !ValidFip(s, m)
  {
    forall m ensures !ValidFip(s, m) {
      NoRoom(s, n, m);
    }
  }

  lemma BadEntries(s: bytes, n: nat)
    requires Scanned(s, n) && At(n + 1) <= |s| && EntryAt(s, n).uuid != NULL_UUID
    requires var e := EntryAt(s, n);
             || Has(s, n, e.uuid) || !EntryInBuffer(e, |s|)
             || exists i: nat :: i < n && Overlap(EntryAt(s, i), e)
    ensures forall m :: !ValidFip(s, m)
  {
    forall m ensures !ValidFip(s, m) {
      BadEntry(s, n, m);
    }
  }
}
