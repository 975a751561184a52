// Where boot0 puts the images of a package: fixed windows of DRAM, beside the
// staging area the package was read into.
module FipPlace {
  import opened ByteStrings
  import opened Memory
  import opened Fip
  import opened FipRead

  const STAGING_BASE: nat := 0x42e0_0000
  const STAGING_SIZE: nat := MAX_SIZE
  const HANDOFF_BASE: nat := STAGING_BASE - 0x1000
  const HANDOFF_SIZE: nat := 0x1000
  const RAM_END: nat := BL33_BASE + BL33_MAX_SIZE

  predicate Disjoint(a: nat, m: nat, b: nat, n: nat) {
    a + m <= b || b + n <= a
  }

  // A region that none of the three windows touches.
  predicate Apart(base: nat, size: nat) {
    && Disjoint(base, size, BL31_BASE, BL31_MAX_SIZE)
    && Disjoint(base, size, BL33_BASE, BL33_MAX_SIZE)
    && Disjoint(base, size, HW_CONFIG_BASE, HW_CONFIG_MAX_SIZE)
  }

  lemma PutElsewhere(s: bytes, o: nat, b: bytes, i: nat, n: nat)
    requires o + |b| <= |s| && i + n <= |s| && Disjoint(o, |b|, i, n)
    ensures Put(s, o, b)[i..i + n] == s[i..i + n]
  {
    if i + n <= o {
      PutBefore(s, o, b, i, i + n);
    } else {
      PutAfter(s, o, b, i, i + n);
    }
  }

  // struct fip_boot_images behind a sunxi_fip_copy_fn. fip_copy_image accepts
  // every destination; a copier may also turn some down.
  class BootImages {
    const accepts: nat -> bool
    var scpSource: nat
    var scpSize: nat
    var dtbBase: nat
    var dtbSize: nat

    constructor (accepts: nat -> bool)
      ensures this.accepts == accepts && scpSource == scpSize == dtbBase == dtbSize == 0
    {
      this.accepts, scpSource, scpSize, dtbBase, dtbSize := accepts, 0, 0, 0, 0;
    }

    // fip_copy_image. The images lie apart, as memcpy demands.
    method CopyImage(ram: array<byte>, destination: nat, source: nat, size: nat) returns (rc: int)
      requires source + size <= ram.Length
      requires destination != SCP_BL2_BASE ==>
                 destination + size <= ram.Length && Disjoint(source, size, destination, size)
      modifies this, ram
      ensures rc == if accepts(destination) then 0 else -1
      ensures rc != 0 ==> unchanged(this) && unchanged(ram)
      ensures rc == 0 && destination == SCP_BL2_BASE ==>
                unchanged(ram) && scpSource == source && scpSize == size && unchanged(this`dtbBase, this`dtbSize)
      ensures rc == 0 && destination != SCP_BL2_BASE ==>
                && ram[..] == Put(old(ram[..]), destination, old(ram[..])[source..source + size])
                && unchanged(this`scpSource, this`scpSize)
                && dtbBase == (if destination == HW_CONFIG_BASE then destination else old(dtbBase))
                && dtbSize == (if destination == HW_CONFIG_BASE then size else old(dtbSize))
    {
      if !accepts(destination) {
        return -1;
      }
      if destination == SCP_BL2_BASE {
        scpSource, scpSize := source, size;
        return 0;
      }
      MemCpy(ram, destination, ram[..][source..source + size]);
      if destination == HW_CONFIG_BASE {
        dtbBase, dtbSize := destination, size;
      }
      return 0;
    }

    // Entry e of the package image is where it has to be in memory s, if it is
    // an image to be started.
    ghost predicate Loaded(s: bytes, image: bytes, e: Entry)
      requires e.start + e.size <= |image|
      reads this`scpSource, this`scpSize
    {
      && (e.uuid == BL31_UUID ==> LiesAt(s, BL31_BASE, Bytes(image, e)))
      && (e.uuid == BL33_UUID ==> LiesAt(s, BL33_BASE, Bytes(image, e)))
      && (e.uuid == SCP_BL2_UUID ==> LiesAt(s, scpSource, Bytes(image, e)) && scpSize == e.size)
    }

    ghost predicate AllLoaded(s: bytes, image: bytes)
      reads this`scpSource, this`scpSize
    {
      forall n, i: nat :: ValidFip(image, n) && i < n ==> Loaded(s, image, EntryAt(image, i))
    }

    // The same, or if it is the device tree.
    ghost predicate InPlace(s: bytes, image: bytes, e: Entry)
      requires e.start + e.size <= |image|
      reads this
    {
      && Loaded(s, image, e)
      && (e.uuid == HW_CONFIG_UUID ==>
            LiesAt(s, HW_CONFIG_BASE, Bytes(image, e)) && dtbBase == HW_CONFIG_BASE && dtbSize == e.size)
    }

    // All images of a package are in place at once.
    ghost predicate Placed(s: bytes, image: bytes)
      reads this
    {
      forall n, i: nat :: ValidFip(image, n) && i < n ==> InPlace(s, image, EntryAt(image, i))
    }
  }

  // Memory after the copies: the windows of the images there are.
  function Copied(s: bytes, b31: bytes, b33: bytes, hw: bytes): (r: bytes)
    requires RAM_END <= |s| && |b31| <= BL31_MAX_SIZE && |b33| <= BL33_MAX_SIZE && |hw| <= HW_CONFIG_MAX_SIZE
    ensures |r| == |s|
  {
    Put(Put(Put(s, BL31_BASE, b31), BL33_BASE, b33), HW_CONFIG_BASE, hw)
  }

  // The windows do not reach into each other or into a region apart from them.
  lemma CopiedKeeps(s: bytes, b31: bytes, b33: bytes, hw: bytes, base: nat, size: nat)
    requires RAM_END <= |s| && |b31| <= BL31_MAX_SIZE && |b33| <= BL33_MAX_SIZE && |hw| <= HW_CONFIG_MAX_SIZE
    requires Apart(base, size) && base + size <= |s|
    ensures var r := Copied(s, b31, b33, hw);
            && LiesAt(r, BL31_BASE, b31) && LiesAt(r, BL33_BASE, b33) && LiesAt(r, HW_CONFIG_BASE, hw)
            && r[base..base + size] == s[base..base + size]
  {
    hide Put;
    var s1 := Put(s, BL31_BASE, b31);
    var s2 := Put(s1, BL33_BASE, b33);
    PutSame(s, BL31_BASE, b31);
    PutSame(s1, BL33_BASE, b33);
    PutSame(s2, HW_CONFIG_BASE, hw);
    PutElsewhere(s1, BL33_BASE, b33, BL31_BASE, |b31|);
    PutElsewhere(s2, HW_CONFIG_BASE, hw, BL31_BASE, |b31|);
    PutElsewhere(s2, HW_CONFIG_BASE, hw, BL33_BASE, |b33|);
    PutElsewhere(s, BL31_BASE, b31, base, size);
    PutElsewhere(s1, BL33_BASE, b33, base, size);
    PutElsewhere(s2, HW_CONFIG_BASE, hw, base, size);
  }

  lemma Filed(image: bytes, n: nat, uuid: bytes, filed: Image) returns (i: nat)
    requires ValidFip(image, n) && Has(image, n, uuid) && Holds(image, n, uuid, filed)
    ensures i < n && EntryAt(image, i).uuid == uuid
    ensures filed == Image(EntryAt(image, i).start, EntryAt(image, i).size)
    ensures forall j: nat :: j < n && EntryAt(image, j).uuid == uuid ==> j == i
    ensures filed.offset + filed.size <= |image| && filed.size > 0
    ensures Startable(image, EntryAt(image, i))
  {
    hide EntryAt, Startable;
    i :| i < n && EntryAt(image, i).uuid == uuid && filed == Image(EntryAt(image, i).start, EntryAt(image, i).size);
  }

  // The images a layout names, cut out of the package.
  ghost predicate Cuts(image: bytes, layout: Layout, b31: bytes, b33: bytes, hw: bytes, scp: bytes)
    reads layout
  {
    && |b31| <= BL31_MAX_SIZE && |b33| <= BL33_MAX_SIZE && |hw| <= HW_CONFIG_MAX_SIZE
    && Cut(image, layout.bl31, b31) && Cut(image, layout.bl33, b33)
    && Cut(image, layout.hwConfig, hw) && Cut(image, layout.scpBl2, scp)
  }

  ghost predicate Cut(image: bytes, filed: Image, b: bytes) {
    && filed.offset + filed.size <= |image| && |b| == filed.size
    && b == image[filed.offset..filed.offset + filed.size]
  }

  lemma CutSizes(image: bytes, n: nat, layout: Layout)
    requires ValidFip(image, n) && layout.Lists(image, n)
    ensures layout.bl31.size <= BL31_MAX_SIZE && layout.bl33.size <= BL33_MAX_SIZE
    ensures layout.hwConfig.size <= HW_CONFIG_MAX_SIZE
    ensures layout.bl31.offset + layout.bl31.size <= |image| && layout.bl33.offset + layout.bl33.size <= |image|
    ensures layout.hwConfig.offset + layout.hwConfig.size <= |image|
    ensures layout.scpBl2.offset + layout.scpBl2.size <= |image|
    ensures 0 < layout.scpBl2.size <= SCP_BL2_MAX_SIZE
    ensures layout.hwConfig.size > 0 <==> Has(image, n, HW_CONFIG_UUID)
    ensures layout.hwConfig.size > 0 ==> HasHwConfig(image)
  {
    hide EntryAt, ValidFip, Holds, Has;
    ValidHas(image, n);
    OneCut(image, n, BL31_UUID, layout.bl31);
    OneCut(image, n, BL33_UUID, layout.bl33);
    OneCut(image, n, SCP_BL2_UUID, layout.scpBl2);
    OneCut(image, n, HW_CONFIG_UUID, layout.hwConfig);
  }

  lemma OneCut(image: bytes, n: nat, uuid: bytes, filed: Image)
    requires ValidFip(image, n) && Holds(image, n, uuid, filed)
    ensures filed.offset + filed.size <= |image|
    ensures filed.size > 0 <==> Has(image, n, uuid)
    ensures uuid == BL31_UUID ==> filed.size <= BL31_MAX_SIZE
    ensures uuid == BL33_UUID ==> filed.size <= BL33_MAX_SIZE
    ensures uuid == SCP_BL2_UUID ==> filed.size <= SCP_BL2_MAX_SIZE
    ensures uuid == HW_CONFIG_UUID ==> filed.size <= HW_CONFIG_MAX_SIZE
  {
    hide EntryAt, ValidFip, Holds, Has;
    ValidHas(image, n);
    if Has(image, n, uuid) {
      var i := Filed(image, n, uuid, filed);
      EntryFits(image, n, i);
    } else {
      NoImage(image, n, uuid, filed);
    }
  }

  lemma ValidHas(image: bytes, n: nat)
    requires ValidFip(image, n)
    ensures At(n) <= |image| && Has(image, n, BL31_UUID) && Has(image, n, BL33_UUID) && Has(image, n, SCP_BL2_UUID)
  {
    hide EntryAt, Has;
  }

  // With the four images of the layout where they belong, every entry's is.
  lemma AllPlaced(s: bytes, image: bytes, n: nat, layout: Layout, images: BootImages,
                  b31: bytes, b33: bytes, hw: bytes, scp: bytes)
    requires ValidFip(image, n) && layout.Lists(image, n)
    requires Cuts(image, layout, b31, b33, hw, scp)
    requires LiesAt(s, BL31_BASE, b31) && LiesAt(s, BL33_BASE, b33)
    requires Has(image, n, HW_CONFIG_UUID) ==>
               LiesAt(s, HW_CONFIG_BASE, hw) && images.dtbBase == HW_CONFIG_BASE && images.dtbSize == |hw|
    requires LiesAt(s, images.scpSource, scp) && images.scpSize == |scp|
    ensures images.Placed(s, image)
  {
    hide EntryAt, ValidFip, Holds, Startable, Has, LiesAt;
    ValidHas(image, n);
    var i31 := Filed(image, n, BL31_UUID, layout.bl31);
    var i33 := Filed(image, n, BL33_UUID, layout.bl33);
    var iscp := Filed(image, n, SCP_BL2_UUID, layout.scpBl2);
    forall i: nat | i < n
      ensures At(i + 1) <= |image| && EntryAt(image, i).start + EntryAt(image, i).size <= |image|
      ensures images.InPlace(s, image, EntryAt(image, i))
    {
      EntryInside(image, n, i);
      if EntryAt(image, i).uuid == HW_CONFIG_UUID {
        HasIt(image, n, i);
        var ihw := Filed(image, n, HW_CONFIG_UUID, layout.hwConfig);
      }
    }
    forall m: nat, i: nat | ValidFip(image, m) && i < m
      ensures At(i + 1) <= |image| && EntryAt(image, i).start + EntryAt(image, i).size <= |image|
      ensures images.InPlace(s, image, EntryAt(image, i)) {
      EntryInside(image, m, i);
      ValidEnds(image, m);
      ValidEnds(image, n);
      OneEnd(image, m, n);
    }
  }

  lemma ValidEnds(image: bytes, n: nat)
    requires ValidFip(image, n)
    ensures EndsAt(image, n)
  {
  }

  lemma HasIt(image: bytes, n: nat, i: nat)
    requires At(n) <= |image| && i < n
    ensures Has(image, n, EntryAt(image, i).uuid)
  {
    hide EntryAt;
  }

  lemma EntryInside(image: bytes, n: nat, i: nat)
    requires ValidFip(image, n) && i < n
    ensures At(i + 1) <= |image| && EntryAt(image, i).start + EntryAt(image, i).size <= |image|
  {
    hide EntryAt, Startable;
  }

  // The copies of sunxi_fip_copy_images, from a staged package to the windows.
  method CopyFour(ram: array<byte>, base: nat, ghost image: bytes, layout: Layout, images: BootImages,
                  ghost b31: bytes, ghost b33: bytes, ghost hw: bytes, ghost scp: bytes) returns (rc: int)
    requires RAM_END <= ram.Length && base + |image| <= ram.Length && Apart(base, |image|)
    requires ram[base..base + |image|] == image
    requires Cuts(image, layout, b31, b33, hw, scp)
    requires |b31| <= BL31_MAX_SIZE && |b33| <= BL33_MAX_SIZE && |hw| <= HW_CONFIG_MAX_SIZE && |scp| <= SCP_BL2_MAX_SIZE
    modifies ram, images
    ensures (forall p :: images.accepts(p)) ==> rc == 0
    ensures rc == 0 ==> ram[..] == Copied(old(ram[..]), b31, b33, hw)
    ensures rc == 0 ==> images.scpSource == base + layout.scpBl2.offset && images.scpSize == |scp|
    ensures rc == 0 && |hw| > 0 ==> images.dtbBase == HW_CONFIG_BASE && images.dtbSize == |hw|
    ensures rc == 0 && |hw| == 0 ==> unchanged(images`dtbBase, images`dtbSize)
  {
    hide Put, Copied;
    ghost var was := ram[..];
    rc := CopyOne(ram, BL31_BASE, base, image, layout.bl31, images, b31);
    if rc != 0 {
      return;
    }
    ghost var s1 := ram[..];
    rc := CopyOne(ram, BL33_BASE, base, image, layout.bl33, images, b33);
    if rc != 0 {
      return;
    }
    ghost var s2 := ram[..];
    if layout.hwConfig.size != 0 {
      rc := CopyOne(ram, HW_CONFIG_BASE, base, image, layout.hwConfig, images, hw);
      if rc != 0 {
        return;
      }
    } else {
      assert hw == [];
      PutNothing(s2, HW_CONFIG_BASE);
    }
    IsCopied(was, s1, s2, ram[..], b31, b33, hw);
    OneCutLies(ram[..], base, image, layout.scpBl2, scp);
    rc := images.CopyImage(ram, SCP_BL2_BASE, base + layout.scpBl2.offset, layout.scpBl2.size);
  }

  // One image to its window.
  method CopyOne(ram: array<byte>, destination: nat, base: nat, ghost image: bytes, filed: Image,
                 images: BootImages, ghost b: bytes)
    returns (rc: int)
    requires base + |image| <= ram.Length && ram[base..base + |image|] == image && Cut(image, filed, b)
    requires destination != SCP_BL2_BASE
    requires destination + |b| <= ram.Length && Disjoint(destination, |b|, base, |image|)
    modifies ram, images
    ensures images.accepts(destination) ==> rc == 0
    ensures rc == 0 ==> ram[..] == Put(old(ram[..]), destination, b) && ram[base..base + |image|] == image
    ensures rc == 0 ==> images.dtbBase == (if destination == HW_CONFIG_BASE then destination else old(images.dtbBase))
    ensures rc == 0 ==> images.dtbSize == (if destination == HW_CONFIG_BASE then |b| else old(images.dtbSize))
  {
    hide Put;
    ghost var was := ram[..];
    OneCutLies(was, base, image, filed, b);
    rc := images.CopyImage(ram, destination, base + filed.offset, filed.size);
    PutElsewhere(was, destination, b, base, |image|);
  }

  // sunxi_fip_copy_images.
  method CopyImages(ram: array<byte>, base: nat, size: nat, images: BootImages) returns (r: int)
    requires RAM_END <= ram.Length && base + size <= ram.Length && Apart(base, size)
    modifies ram, images
    ensures r == 0 || r == -1
    ensures r == 0 ==> IsFip(old(ram[base..base + size])) && images.Placed(ram[..], old(ram[base..base + size]))
    ensures IsFip(old(ram[base..base + size])) && (forall p :: images.accepts(p)) ==> r == 0
    ensures r == 0 ==> ram[base..base + size] == old(ram[base..base + size])
    ensures r == 0 ==>
              base <= images.scpSource && 0 < images.scpSize && images.scpSource + images.scpSize <= base + size
    ensures r == 0 ==> HasHwConfig(old(ram[base..base + size])) || unchanged(images`dtbBase, images`dtbSize)
  {
    hide EntryAt, ValidFip, Holds, Startable, Has, LiesAt, IsFip, Put, BootImages.Placed, Layout.Lists, EndsAt;
    hide Copied, Cuts;
    hide HasHwConfig, Disjoint;
    ghost var was := ram[..];
    ghost var image := ram[base..base + size];
    var layout := new Layout();
    r := Parse(ram[base..base + size], layout);
    if r != 0 {
      return -1;
    }
    ghost var n := TheEnd(image);
    CutSizes(image, n, layout);
    ghost var b31 := CutOut(image, layout.bl31);
    ghost var b33 := CutOut(image, layout.bl33);
    ghost var hw := CutOut(image, layout.hwConfig);
    ghost var scp := CutOut(image, layout.scpBl2);
    CutsAre(image, layout);
    var rc := CopyFour(ram, base, image, layout, images, b31, b33, hw, scp);
    if rc != 0 {
      return -1;
    }
    CopiedKeeps(was, b31, b33, hw, base, size);
    SliceOfSlice(ram[..], base, base + size, layout.scpBl2.offset, layout.scpBl2.offset + |scp|);
    ItLiesAt(ram[..], base + layout.scpBl2.offset, scp);
    AllPlaced(ram[..], image, n, layout, images, b31, b33, hw, scp);
    return 0;
  }

  ghost predicate HasHwConfig(image: bytes) {
    exists n :: ValidFip(image, n) && Has(image, n, HW_CONFIG_UUID)
  }

  lemma CutsAre(image: bytes, layout: Layout)
    requires layout.bl31.offset + layout.bl31.size <= |image| && layout.bl33.offset + layout.bl33.size <= |image|
    requires layout.hwConfig.offset + layout.hwConfig.size <= |image|
    requires layout.scpBl2.offset + layout.scpBl2.size <= |image|
    requires layout.bl31.size <= BL31_MAX_SIZE && layout.bl33.size <= BL33_MAX_SIZE
    requires layout.hwConfig.size <= HW_CONFIG_MAX_SIZE
    ensures Cuts(image, layout, CutOut(image, layout.bl31), CutOut(image, layout.bl33),
                 CutOut(image, layout.hwConfig), CutOut(image, layout.scpBl2))
  {
  }

  function CutOut(image: bytes, filed: Image): (b: bytes)
    requires filed.offset + filed.size <= |image|
    ensures |b| == filed.size
  {
    image[filed.offset..filed.offset + filed.size]
  }

  ghost predicate CutLies(s: bytes, base: nat, image: bytes, filed: Image, b: bytes) {
    var p := base + filed.offset;
    filed.offset + filed.size <= |image| && |b| == filed.size && p + filed.size <= |s| && s[p..p + filed.size] == b
  }

  lemma OneCutLies(s: bytes, base: nat, image: bytes, filed: Image, b: bytes)
    requires base + |image| <= |s| && s[base..base + |image|] == image && Cut(image, filed, b)
    ensures CutLies(s, base, image, filed, b)
  {
    SliceOfSlice(s, base, base + |image|, filed.offset, filed.offset + filed.size);
  }

  lemma ItLiesAt(s: bytes, p: nat, b: bytes)
    requires p + |b| <= |s| && s[p..p + |b|] == b
    ensures LiesAt(s, p, b)
  {
  }

  lemma IsCopied(s: bytes, s1: bytes, s2: bytes, s3: bytes, b31: bytes, b33: bytes, hw: bytes)
    requires RAM_END <= |s| && |b31| <= BL31_MAX_SIZE && |b33| <= BL33_MAX_SIZE && |hw| <= HW_CONFIG_MAX_SIZE
    requires s1 == Put(s, BL31_BASE, b31) && s2 == Put(s1, BL33_BASE, b33) && s3 == Put(s2, HW_CONFIG_BASE, hw)
    ensures s3 == Copied(s, b31, b33, hw)
  {
    hide Put;
  }

  lemma TheEnd(image: bytes) returns (n: nat)
    requires IsFip(image)
    ensures ValidFip(image, n)
  {
    n :| ValidFip(image, n);
  }

  lemma FipOfSize(d: Medium, start: nat, capacity: nat, fipSize: nat)
    requires d.Bootable(start, capacity)
    requires forall n, size :: d.HasFip(start, capacity, n, size) ==> size == fipSize
    ensures exists n :: d.HasFip(start, capacity, n, fipSize)
  {
    hide Medium.HasFip;
    var n, size :| d.HasFip(start, capacity, n, size);
  }

  // sunxi_fip_load_redundant into a buffer that no window touches.
  method LoadRedundant(primary: nat, backup: nat, ram: array<byte>, base: nat, capacity: nat, d: Medium,
                       images: BootImages)
    returns (r: int, fipSize: nat, used: nat)
    requires RAM_END <= ram.Length && base + capacity <= ram.Length && Apart(base, capacity)
    modifies d, ram, images
    ensures r == 0 || r == -1
    ensures r == -1 ==> fipSize == 0 && used == 0
    ensures r == 0 ==> fipSize <= capacity
    ensures r == 0 ==> IsFip(ram[base..base + fipSize]) && images.Placed(ram[..], ram[base..base + fipSize])
    ensures d.Stable() && (forall p :: images.accepts(p)) ==>
              (r == 0 <==> d.Bootable(primary, capacity)
                           || (backup != 0 && backup != primary && d.Bootable(backup, capacity)))
    ensures d.Stable() && r == 0 ==> ram[base..base + fipSize] == Region(d.content, used, fipSize)
    ensures r == 0 ==>
              base <= images.scpSource && 0 < images.scpSize && images.scpSource + images.scpSize <= base + fipSize
    ensures r == 0 ==>
              HasHwConfig(ram[base..base + fipSize]) || unchanged(images`dtbBase, images`dtbSize)
    ensures d.Stable() && r == 0 ==>
              (used == primary || (used == backup && backup != 0)) && exists n :: d.HasFip(used, capacity, n, fipSize)
  {
    hide ValidFip, IsFip, Region, BootImages.Placed, SameOutside, Medium.Stable, Medium.Bootable, Medium.HasFip;
    r, fipSize, used := ReadRedundant(primary, backup, ram, base, capacity, d);
    if r != 0 {
      return -1, fipSize, used;
    }
    if d.Stable() {
      FipOfSize(d, used, capacity, fipSize);
    }
    r := CopyImages(ram, base, fipSize, images);
    if r != 0 {
      return -1, 0, 0;
    }
    return 0, fipSize, used;
  }

  // Bytes stored apart from the image windows and the staged package move no
  // image that is to be started.
  lemma LoadedStays(s: bytes, o: nat, b: bytes, base: nat, image: bytes, images: BootImages)
    requires RAM_END <= |s| && o + |b| <= |s| && Disjoint(o, |b|, base, |image|)
    requires Disjoint(o, |b|, BL31_BASE, BL31_MAX_SIZE) && Disjoint(o, |b|, BL33_BASE, BL33_MAX_SIZE)
    requires images.AllLoaded(s, image)
    requires base <= images.scpSource && images.scpSource + images.scpSize <= base + |image| <= |s|
    ensures images.AllLoaded(Put(s, o, b), image)
  {
    hide Put, ValidFip, EntryAt;
    forall n, i: nat | ValidFip(image, n) && i < n
      ensures At(i + 1) <= |image| && EntryAt(image, i).start + EntryAt(image, i).size <= |image|
      ensures images.Loaded(Put(s, o, b), image, EntryAt(image, i))
    {
      EntryInside(image, n, i);
      EntryFits(image, n, i);
      var e := EntryAt(image, i);
      if e.uuid == BL31_UUID {
        PutElsewhere(s, o, b, BL31_BASE, e.size);
      } else if e.uuid == BL33_UUID {
        PutElsewhere(s, o, b, BL33_BASE, e.size);
      } else if e.uuid == SCP_BL2_UUID {
        PutElsewhere(s, o, b, images.scpSource, e.size);
      }
    }
  }

  lemma PlacedIsLoaded(s: bytes, image: bytes, images: BootImages)
    requires images.Placed(s, image)
    ensures images.AllLoaded(s, image)
  {
    hide ValidFip, EntryAt, LiesAt;
    forall n, i: nat | ValidFip(image, n) && i < n
      ensures At(i + 1) <= |image| && EntryAt(image, i).start + EntryAt(image, i).size <= |image|
      ensures images.Loaded(s, image, EntryAt(image, i))
    {
      EntryInside(image, n, i);
      assert images.InPlace(s, image, EntryAt(image, i));
    }
  }

  lemma EntryFits(image: bytes, n: nat, i: nat)
    requires ValidFip(image, n) && i < n
    ensures At(i + 1) <= |image|
    ensures var e := EntryAt(image, i);
            && (e.uuid == BL31_UUID ==> e.size <= BL31_MAX_SIZE)
            && (e.uuid == BL33_UUID ==> e.size <= BL33_MAX_SIZE)
            && (e.uuid == SCP_BL2_UUID ==> e.size <= SCP_BL2_MAX_SIZE)
            && (e.uuid == HW_CONFIG_UUID ==> e.size <= HW_CONFIG_MAX_SIZE)
  {
    hide EntryAt, Le32, Be32;
    EntryInside(image, n, i);
    assert Startable(image, EntryAt(image, i));
  }
}
