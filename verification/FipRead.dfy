// Reading a package from one of two places of a medium, in two passes.
module FipRead {
  import opened ByteStrings
  import opened Memory
  import opened Fip

  // The bytes of a medium, by their distance from its first sector.
  function Region(content: nat -> byte, start: nat, size: nat): (r: bytes)
    ensures |r| == size && forall i :: 0 <= i < size ==> r[i] == content(SECTOR_SIZE * start + i)
  {
    seq(size, i requires 0 <= i < size => content(SECTOR_SIZE * start + i))
  }

  function SectorsFor(size: nat): nat {
    (size + SECTOR_SIZE - 1) / SECTOR_SIZE
  }

  datatype Answer = Answer(rc: int, data: bytes)
  datatype Request = Request(start: nat, count: nat)

  // A sunxi_fip_read_fn: whatever it answers may change from call to call, but
  // it stores no more than the sectors it was asked for.
  class Medium {
    const answer: (nat, Request) -> Answer
    // What a medium that does not change holds and which requests it serves.
    ghost const content: nat -> byte
    ghost const serves: Request -> bool
    var requests: seq<Request>

    ghost constructor (answer: (nat, Request) -> Answer, content: nat -> byte, serves: Request -> bool)
    {
      this.answer, this.content, this.serves, requests := answer, content, serves, [];
    }

    ghost predicate Stable() {
      forall k: nat, q: Request ::
        && (answer(k, q).rc == 1) == serves(q)
        && (serves(q) ==> answer(k, q).data == Region(content, q.start, SECTOR_SIZE * q.count))
    }

    method Read(ram: array<byte>, start: nat, count: nat, base: nat) returns (rc: int)
      requires base + SECTOR_SIZE * count <= ram.Length
      modifies this, ram
      ensures requests == old(requests) + [Request(start, count)]
      ensures ram[..base] == old(ram[..base])
      ensures ram[base + SECTOR_SIZE * count..] == old(ram[base + SECTOR_SIZE * count..])
      ensures Stable() ==> (rc == 1) == serves(Request(start, count))
      ensures Stable() && rc == 1 ==>
                ram[base..base + SECTOR_SIZE * count] == Region(content, start, SECTOR_SIZE * count)
    {
      var q := Request(start, count);
      var said := answer(|requests|, q);
      requests := requests + [q];
      var data := if |said.data| > SECTOR_SIZE * count then said.data[..SECTOR_SIZE * count] else said.data;
      MemCpy(ram, base, data);
      return said.rc;
    }

    // A package at sector start, complete and no longer than the buffer, whose
    // table says how long it is.
    ghost predicate HasFip(start: nat, capacity: nat, n: nat, size: nat) {
      && METADATA_SIZE <= capacity && SECTOR_SIZE * SectorsFor(size) <= capacity
      && serves(Request(start, TOC_SECTORS)) && serves(Request(start, SectorsFor(size)))
      && ValidFip(Region(content, start, size), n)
      && EntryAt(Region(content, start, size), n).start == size
    }

    ghost predicate Bootable(start: nat, capacity: nat) {
      exists n, size :: HasFip(start, capacity, n, size)
    }
  }

  // The size the table ends with, in a buffer of that capacity.
  ghost predicate Declares(s: bytes, capacity: nat, n: nat, size: nat) {
    && HEADER_SIZE <= |s| && Le32(s, 0) == TOC_HEADER_NAME && Le32(s, 4) == TOC_SERIAL_NUMBER
    && EndsAt(s, n) && size == EntryAt(s, n).start
    && EntryAt(s, n).size == 0 && EntryAt(s, n).flags == 0
    && At(n + 1) <= size <= MAX_SIZE
    && SECTOR_SIZE * SectorsFor(size) <= capacity
  }

  lemma Rounded(v: nat)
    requires v <= MAX_SIZE
    ensures Add64(v, SECTOR_SIZE - 1) / SECTOR_SIZE * SECTOR_SIZE == SECTOR_SIZE * SectorsFor(v) >= v
  {
  }

  // get_fip_size_from_toc.
  method FipSizeFromToc(s: bytes, capacity: nat) returns (r: int, size: nat)
    requires HEADER_SIZE <= |s|
    ensures r == 0 || r == -1
    ensures r == 0 <==> exists n, v :: Declares(s, capacity, n, v)
    ensures r == 0 ==> forall n, v :: Declares(s, capacity, n, v) ==> v == size
    ensures r == 0 ==> size <= MAX_SIZE && SECTOR_SIZE * SectorsFor(size) <= capacity
  {
    hide Le32, Le64, EntryAt, SectorsFor, Add64;
    size := 0;
    if Le32(s, 0) != TOC_HEADER_NAME || Le32(s, 4) != TOC_SERIAL_NUMBER {
      return -1, 0;
    }
    var entryOffset := HEADER_SIZE;
    var count := 0;
    while count < MAX_TOC_ENTRIES
      invariant 0 <= count <= MAX_TOC_ENTRIES && entryOffset == At(count) <= |s|
      invariant forall i: nat :: i < count ==> EntryAt(s, i).uuid != NULL_UUID
    {
      if entryOffset > |s| || |s| - entryOffset < ENTRY_SIZE {
        return -1, 0;
      }
      var e := EntryAt(s, count);
      if e.uuid != NULL_UUID {
        entryOffset := entryOffset + ENTRY_SIZE;
        count := count + 1;
        continue;
      }
      var rounded := Add64(e.start, SECTOR_SIZE - 1) / SECTOR_SIZE * SECTOR_SIZE;
      if e.start <= MAX_SIZE {
        Rounded(e.start);
      }
      if e.size != 0 || e.flags != 0 || e.start < entryOffset + ENTRY_SIZE
         || e.start > MAX_SIZE || rounded < e.start || rounded > capacity {
        return -1, 0;
      }
      assert Declares(s, capacity, count, e.start);
      return 0, e.start;
    }
    return -1, 0;
  }

  // Two readings of the same place, one longer than the other.
  ghost predicate Agree(x: bytes, y: bytes) {
    forall i :: 0 <= i < |x| && i < |y| ==> x[i] == y[i]
  }

  lemma SameEntry(x: bytes, y: bytes, i: nat)
    requires Agree(x, y) && At(i + 1) <= |x| && At(i + 1) <= |y|
    ensures EntryAt(x, i) == EntryAt(y, i)
  {
    hide Word;
    var o := At(i);
    assert x[o..o + 16] == y[o..o + 16];
  }

  // The size scan of the first pass and the parser of the second find the
  // same end of the table.
  lemma SameEnd(meta: bytes, image: bytes, n: nat, m: nat, capacity: nat)
    requires |meta| == METADATA_SIZE && Agree(meta, image)
    requires Declares(meta, capacity, n, |image|) && ValidFip(image, m)
    ensures m == n && EntryAt(image, m).start == |image|
  {
    hide EntryAt, Le32, Startable, WellPlaced, Agree, Has;
    var least := if m < n then m else n;
    forall i: nat | i <= least ensures EntryAt(meta, i) == EntryAt(image, i) {
      SameEntry(meta, image, i);
    }
  }

  lemma ScanFindsIt(meta: bytes, image: bytes, n: nat, capacity: nat)
    requires |meta| == METADATA_SIZE && Agree(meta, image)
    requires ValidFip(image, n) && EntryAt(image, n).start == |image|
    requires SECTOR_SIZE * SectorsFor(|image|) <= capacity
    ensures Declares(meta, capacity, n, |image|)
  {
    hide EntryAt, Startable, WellPlaced, Has, SectorsFor;
    forall i: nat | i <= n ensures EntryAt(meta, i) == EntryAt(image, i) {
      SameEntry(meta, image, i);
    }
  }

  lemma RegionsAgree(content: nat -> byte, start: nat, a: nat, b: nat)
    ensures Agree(Region(content, start, a), Region(content, start, b))
    ensures a <= b ==> Region(content, start, b)[..a] == Region(content, start, a)
  {
  }

  // When the medium does not change: what the first pass finds, and what the
  // second makes of it.
  lemma TwoPasses(d: Medium, start: nat, capacity: nat, size: nat)
    requires d.Stable() && METADATA_SIZE <= capacity
    requires exists n :: Declares(Region(d.content, start, METADATA_SIZE), capacity, n, size)
    ensures d.Bootable(start, capacity) <==>
              d.serves(Request(start, TOC_SECTORS)) && d.serves(Request(start, SectorsFor(size)))
              && IsFip(Region(d.content, start, size))
    ensures forall n, v :: d.HasFip(start, capacity, n, v) ==> v == size
  {
    hide ValidFip, EntryAt, EndsAt, SectorsFor;
    var (meta, image) := (Region(d.content, start, METADATA_SIZE), Region(d.content, start, size));
    var n :| Declares(meta, capacity, n, size);
    RegionsAgree(d.content, start, METADATA_SIZE, size);
    forall m | ValidFip(image, m) ensures EntryAtIs(image, m, size) {
      SameEnd(meta, image, n, m, capacity);
    }
    forall m, v | d.HasFip(start, capacity, m, v) ensures v == size {
      RegionsAgree(d.content, start, METADATA_SIZE, v);
      ScanFindsIt(meta, Region(d.content, start, v), m, capacity);
      OneEnd(meta, m, n);
    }
    if && d.serves(Request(start, TOC_SECTORS)) && d.serves(Request(start, SectorsFor(size)))
       && exists m :: ValidFip(image, m)
    {
      var m :| ValidFip(image, m);
      assert EntryAtIs(image, m, size);
      assert d.HasFip(start, capacity, m, size);
    }
  }

  ghost predicate EntryAtIs(s: bytes, m: nat, size: nat) {
    At(m + 1) <= |s| && EntryAt(s, m).start == size
  }

  lemma NoFirstPass(d: Medium, start: nat, capacity: nat)
    requires forall n, v :: !Declares(Region(d.content, start, METADATA_SIZE), capacity, n, v)
    ensures !d.Bootable(start, capacity)
  {
    hide ValidFip, EntryAt, EndsAt, SectorsFor, Declares;
    forall m, v | d.HasFip(start, capacity, m, v) ensures false {
      RegionsAgree(d.content, start, METADATA_SIZE, v);
      ScanFindsIt(Region(d.content, start, METADATA_SIZE), Region(d.content, start, v), m, capacity);
    }
  }

  lemma TooSmall(d: Medium, start: nat, capacity: nat)
    requires capacity < METADATA_SIZE
    ensures !d.Bootable(start, capacity)
  {
  }

  lemma NotServed(d: Medium, start: nat, capacity: nat)
    ensures !d.serves(Request(start, TOC_SECTORS)) ==> !d.Bootable(start, capacity)
  {
  }

  lemma Covers(size: nat)
    ensures size <= SECTOR_SIZE * SectorsFor(size)
  {
  }

  // Every request fits the buffer.
  ghost predicate Fit(requests: seq<Request>, capacity: nat) {
    forall i :: 0 <= i < |requests| ==> SECTOR_SIZE * requests[i].count <= capacity
  }

  ghost predicate SameOutside(was: bytes, now: bytes, base: nat, capacity: nat)
    requires base + capacity <= |was|
  {
    |now| == |was| && now[..base] == was[..base] && now[base + capacity..] == was[base + capacity..]
  }

  lemma StoredInside(was: bytes, now: bytes, base: nat, n: nat, capacity: nat)
    requires n <= capacity && base + capacity <= |was| == |now|
    requires now[..base] == was[..base] && now[base + n..] == was[base + n..]
    ensures SameOutside(was, now, base, capacity)
  {
    assert now[base + capacity..] == now[base + n..][capacity - n..];
    assert was[base + capacity..] == was[base + n..][capacity - n..];
  }

  lemma StillOutside(was: bytes, s: bytes, now: bytes, base: nat, capacity: nat)
    requires base + capacity <= |was|
    requires SameOutside(was, s, base, capacity) && SameOutside(s, now, base, capacity)
    ensures SameOutside(was, now, base, capacity)
  {
  }

  lemma RegionHead(s: bytes, base: nat, content: nat -> byte, start: nat, a: nat, b: nat)
    requires a <= b && base + b <= |s| && s[base..base + b] == Region(content, start, b)
    ensures s[base..base + a] == Region(content, start, a)
  {
    hide Region;
    SliceOfSlice(s, base, base + b, 0, a);
    RegionsAgree(content, start, a, b);
  }

  lemma NoEmptyFip(s: bytes)
    requires IsFip(s)
    ensures s != []
  {
    var n :| ValidFip(s, n);
  }

  // The second pass of sunxi_fip_read_image: the sectors the table asks for,
  // and the parser.
  method ReadDeclared(start: nat, ram: array<byte>, base: nat, capacity: nat, d: Medium, declared: nat, layout: Layout)
    returns (r: int)
    requires base + capacity <= ram.Length && SECTOR_SIZE * SectorsFor(declared) <= capacity
    modifies d, ram, layout
    ensures r == 0 || r == -1
    ensures d.requests == old(d.requests) + [Request(start, SectorsFor(declared))]
    ensures SameOutside(old(ram[..]), ram[..], base, capacity)
    ensures r == 0 ==> 0 < declared <= capacity && IsFip(ram[base..base + declared])
    ensures d.Stable() ==>
              (r == 0 <==> d.serves(Request(start, SectorsFor(declared))) && IsFip(Region(d.content, start, declared)))
    ensures d.Stable() && r == 0 ==> ram[base..base + declared] == Region(d.content, start, declared)
  {
    hide Region, IsFip, SameOutside, SectorsFor, Medium.Stable;
    ghost var before := ram[..];
    var count := SectorsFor(declared);
    Covers(declared);
    var rc := d.Read(ram, start, count, base);
    StoredInside(before, ram[..], base, SECTOR_SIZE * count, capacity);
    if rc != 1 {
      return -1;
    }
    if d.Stable() {
      RegionHead(ram[..], base, d.content, start, declared, SECTOR_SIZE * count);
    }
    r := Parse(ram[base..base + declared], layout);
    if r == 0 {
      NoEmptyFip(ram[base..base + declared]);
    }
  }

  // sunxi_fip_read_image.
  method ReadImage(start: nat, ram: array<byte>, base: nat, capacity: nat, d: Medium) returns (r: int, fipSize: nat)
    requires base + capacity <= ram.Length
    modifies d, ram
    ensures r == 0 || r == -1
    ensures r == -1 ==> fipSize == 0
    ensures r == 0 ==> 0 < fipSize <= capacity && IsFip(ram[base..base + fipSize])
    ensures old(|d.requests|) <= |d.requests| && d.requests[..old(|d.requests|)] == old(d.requests)
    ensures Fit(d.requests[old(|d.requests|)..], capacity)
    ensures SameOutside(old(ram[..]), ram[..], base, capacity)
    ensures d.Stable() ==> (r == 0 <==> d.Bootable(start, capacity))
    ensures d.Stable() && r == 0 ==> ram[base..base + fipSize] == Region(d.content, start, fipSize)
    ensures d.Stable() && r == 0 ==> forall n, size :: d.HasFip(start, capacity, n, size) ==> size == fipSize
  {
    hide ValidFip, Declares, Region, Agree, IsFip, SameOutside, SectorsFor, Medium.Stable, Medium.Bootable;
    hide Medium.HasFip;
    ghost var (was, before) := (d.requests, ram[..]);
    StoredInside(before, before, base, 0, capacity);
    if capacity < METADATA_SIZE {
      TooSmall(d, start, capacity);
      return -1, 0;
    }
    var layout := new Layout();
    var rc := d.Read(ram, start, TOC_SECTORS, base);
    ghost var first := ram[..];
    StoredInside(before, first, base, METADATA_SIZE, capacity);
    if rc != 1 {
      NotServed(d, start, capacity);
      return -1, 0;
    }
    var declared;
    rc, declared := FipSizeFromToc(ram[base..base + METADATA_SIZE], capacity);
    if rc != 0 {
      if d.Stable() {
        NoFirstPass(d, start, capacity);
      }
      return -1, 0;
    }
    if d.Stable() {
      TwoPasses(d, start, capacity, declared);
    }
    rc := ReadDeclared(start, ram, base, capacity, d, declared, layout);
    StillOutside(before, first, ram[..], base, capacity);
    return rc, if rc == 0 then declared else 0;
  }

  // sunxi_fip_read_redundant: the first of the two places that holds a package.
  method ReadRedundant(primary: nat, backup: nat, ram: array<byte>, base: nat, capacity: nat, d: Medium)
    returns (r: int, fipSize: nat, used: nat)
    requires base + capacity <= ram.Length
    modifies d, ram
    ensures r == 0 || r == -1
    ensures r == -1 ==> fipSize == 0 && used == 0
    ensures r == 0 ==> 0 < fipSize <= capacity && IsFip(ram[base..base + fipSize])
    ensures r == 0 ==> used == primary || (used == backup && backup != 0)
    ensures old(|d.requests|) <= |d.requests| && d.requests[..old(|d.requests|)] == old(d.requests)
    ensures Fit(d.requests[old(|d.requests|)..], capacity)
    ensures SameOutside(old(ram[..]), ram[..], base, capacity)
    ensures d.Stable() ==>
              if d.Bootable(primary, capacity) then r == 0 && used == primary
              else if backup != 0 && backup != primary && d.Bootable(backup, capacity) then r == 0 && used == backup
              else r == -1
    ensures d.Stable() && r == 0 ==>
              && ram[base..base + fipSize] == Region(d.content, used, fipSize) && d.Bootable(used, capacity)
              && forall n, size :: d.HasFip(used, capacity, n, size) ==> size == fipSize
  {
    hide ValidFip, Declares, Region, Agree, IsFip, Medium.HasFip, Medium.Bootable, Medium.Stable;
    ghost var was := d.requests;
    r, fipSize := ReadImage(primary, ram, base, capacity, d);
    if r == 0 {
      return 0, fipSize, primary;
    }
    if backup == 0 || backup == primary {
      return -1, fipSize, 0;
    }
    ghost var first := d.requests;
    r, fipSize := ReadImage(backup, ram, base, capacity, d);
    assert d.requests[|was|..] == first[|was|..] + d.requests[|first|..];
    if r != 0 {
      return -1, fipSize, 0;
    }
    return 0, fipSize, backup;
  }
}
