// The boot flow of boot0_main.c on one memory: a package is loaded, its device
// tree gets the DRAM parameters, and the handoff stub is copied.
module FipBoot {
  import opened ByteStrings
  import opened Memory
  import FdtBlob
  import FdtTree
  import FdtWalk
  import FdtPath
  import opened Fip
  import opened FipRead
  import opened FipPlace
  import opened Handoff

  lemma Layouts()
    ensures Apart(STAGING_BASE, STAGING_SIZE) && Apart(HANDOFF_BASE, HANDOFF_SIZE)
    ensures Disjoint(HANDOFF_BASE, HANDOFF_SIZE, STAGING_BASE, STAGING_SIZE)
    ensures Disjoint(HW_CONFIG_BASE, HW_CONFIG_MAX_SIZE, BL31_BASE, BL31_MAX_SIZE)
    ensures Disjoint(HW_CONFIG_BASE, HW_CONFIG_MAX_SIZE, BL33_BASE, BL33_MAX_SIZE)
    ensures Disjoint(HW_CONFIG_BASE, HW_CONFIG_MAX_SIZE, STAGING_BASE, STAGING_SIZE)
  {
  }

  // b is the package's device tree.
  ghost predicate HwImage(image: bytes, b: bytes) {
    exists n, i: nat {:trigger ValidFip(image, n), EntryAt(image, i)} ::
      && ValidFip(image, n) && i < n && At(i + 1) <= |image|
      && HwEntry(image, EntryAt(image, i), b)
  }

  ghost predicate HwEntry(image: bytes, e: Entry, b: bytes) {
    e.uuid == HW_CONFIG_UUID && e.start + e.size <= |image| && b == Bytes(image, e)
  }

  // Every device tree in a package at that place of the medium is one that the
  // library can walk.
  ghost predicate TreesAt(d: Medium, start: nat) {
    forall n, size, b ::
      d.HasFip(start, STAGING_SIZE, n, size) && HwImage(Region(d.content, start, size), b) ==> Handed(b)
  }

  // A device tree with all 96 parameters.
  ghost predicate Patchable(b: bytes) {
    && Handed(b) && !FdtWalk.Refused(b, 0)
    && exists t :: FdtBlob.Denotes(b, t) && HasPara(t)
  }

  // w is the device tree b with the parameters set.
  ghost predicate PatchedTo(b: bytes, w: bytes, para: seq<nat>)
    requires |para| == DRAM_PARA_COUNT && forall j :: 0 <= j < |para| ==> para[j] < WORD
  {
    && |w| == |b| && Handed(w) && !FdtWalk.Refused(w, 0)
    && (exists t :: FdtBlob.Denotes(w, t) && ParaIs(t, para))
    && forall t, c, n :: FdtBlob.Denotes(b, t) && FdtPath.Resolve(t, [DRAM]) == Some((c, n)) ==>
         FdtBlob.Denotes(w, FdtTree.Plug(c, WithPara(n, para, DRAM_PARA_COUNT)))
  }

  // What boot0 hands over: the images to be started in place, and a device tree
  // with the parameters, or none.
  ghost predicate Booted(s: bytes, image: bytes, images: BootImages, para: seq<nat>)
    requires |para| == DRAM_PARA_COUNT && forall j :: 0 <= j < |para| ==> para[j] < WORD
    reads images
  {
    && images.AllLoaded(s, image)
    && if images.dtbBase == 0 then
         images.dtbSize == 0 && forall b :: HwImage(image, b) ==> !Patchable(b)
       else
         && images.dtbBase == HW_CONFIG_BASE && HW_CONFIG_BASE + images.dtbSize <= |s|
         && exists b :: HwImage(image, b) && |b| == images.dtbSize && Patchable(b)
                        && PatchedTo(b, s[HW_CONFIG_BASE..HW_CONFIG_BASE + images.dtbSize], para)
  }

  lemma OneHwImage(image: bytes, b: bytes, c: bytes)
    requires HwImage(image, b) && HwImage(image, c)
    ensures b == c
  {
    hide Startable, Le32, Le64, Has;
    var n, i: nat :| ValidFip(image, n) && i < n && At(i + 1) <= |image| && HwEntry(image, EntryAt(image, i), b);
    var m, j: nat :| ValidFip(image, m) && j < m && At(j + 1) <= |image| && HwEntry(image, EntryAt(image, j), c);
    OneEnd(image, n, m);
  }

  // A device tree image is a blob the patching code accepts.
  lemma HwImageAccepted(image: bytes, b: bytes)
    requires HwImage(image, b)
    ensures FdtBlob.HEADER_SIZE <= |b| <= HW_CONFIG_MAX_SIZE && Accepted(b, |b|, DRAM_PARA_COUNT)
  {
    hide Le32, Le64, Has, EntryAt, HwConfigHeader;
    var n, i: nat :| ValidFip(image, n) && i < n && At(i + 1) <= |image| && HwEntry(image, EntryAt(image, i), b);
    assert Startable(image, EntryAt(image, i));
    HwConfigReadable(b);
    HeaderSized(b);
  }

  lemma HeaderSized(b: bytes)
    requires HwConfigHeader(b)
    ensures FdtBlob.HEADER_SIZE <= |b| <= HW_CONFIG_MAX_SIZE
  {
  }

  // The package's device tree lies in its window.
  lemma HwInWindow(s: bytes, image: bytes, images: BootImages) returns (b: bytes)
    requires images.Placed(s, image) && HasHwConfig(image)
    ensures HwImage(image, b) && LiesAt(s, HW_CONFIG_BASE, b)
    ensures images.dtbBase == HW_CONFIG_BASE && images.dtbSize == |b|
  {
    hide EntryAt, Startable, LiesAt;
    var n :| ValidFip(image, n) && Has(image, n, HW_CONFIG_UUID);
    var i: nat :| i < n && EntryAt(image, i).uuid == HW_CONFIG_UUID;
    EntryInside(image, n, i);
    b := Bytes(image, EntryAt(image, i));
    assert images.InPlace(s, image, EntryAt(image, i));
    assert HwEntry(image, EntryAt(image, i), b);
  }

  lemma NoHwImage(image: bytes, b: bytes)
    requires !HasHwConfig(image)
    ensures !HwImage(image, b)
  {
    hide EntryAt, Startable;
  }

  // a733_hw_config_update_dram on the size bytes at base: the library sees the
  // window as a buffer of its own.
  method UpdateWindow(ram: array<byte>, base: nat, size: nat, para: seq<nat>) returns (r: int, ghost w: bytes)
    requires base + size <= ram.Length && FdtBlob.HEADER_SIZE <= size
    requires var b := ram[base..base + size]; Accepted(b, size, DRAM_PARA_COUNT) && Handed(b)
    requires |para| == DRAM_PARA_COUNT && forall j :: 0 <= j < |para| ==> para[j] < WORD
    modifies ram
    ensures |w| == size && ram[..] == Put(old(ram[..]), base, w)
    ensures r == 0 <==> Patchable(old(ram[base..base + size]))
    ensures r == 0 ==> PatchedTo(old(ram[base..base + size]), w, para)
  {
    hide Handed, Accepted, HasPara, ParaIs, OnlyCells, FdtBlob.Denotes, FdtPath.Resolve, Put;
    ghost var b := ram[base..base + size];
    var window := new byte[size];
    PutAll(window[..], b);
    MemCpy(window, 0, ram[base..base + size]);
    SomeTree(b);
    ghost var k;
    r, k := UpdateDram(window, size, para, DRAM_PARA_COUNT);
    w := window[..];
    MemCpy(ram, base, window[..]);
  }

  lemma PutAll(s: bytes, b: bytes)
    requires |s| == |b|
    ensures Put(s, 0, b) == b
  {
  }

  lemma SomeTree(b: bytes)
    requires Handed(b)
    ensures !FdtWalk.Refused(b, 0) ==> exists t :: FdtBlob.Denotes(b, t) && forall u :: FdtBlob.Denotes(b, u) ==> u == t
  {
    hide FdtBlob.Denotes;
    if !FdtWalk.Refused(b, 0) {
      var t := FdtPath.RootHere(b);
    }
  }

  // load_fip_images: the package from one of two places, its images, and the
  // device tree with the trained parameters or without services.
  method LoadFipImages(primary: nat, backup: nat, ram: array<byte>, d: Medium, images: BootImages, para: seq<nat>)
    returns (r: int, ghost image: bytes)
    requires RAM_END <= ram.Length && d.Stable() && TreesAt(d, primary) && TreesAt(d, backup)
    requires images.dtbBase == 0 && images.dtbSize == 0
    requires |para| == DRAM_PARA_COUNT && forall j :: 0 <= j < |para| ==> para[j] < WORD
    modifies d, ram, images
    ensures r == 0 ==>
              && IsFip(image) && |image| <= STAGING_SIZE && LiesAt(ram[..], STAGING_BASE, image)
              && STAGING_BASE <= images.scpSource && images.scpSource + images.scpSize <= STAGING_BASE + |image|
              && 0 < images.scpSize && Booted(ram[..], image, images, para)
    ensures (forall p :: images.accepts(p)) ==>
              (r == 0 <==> d.Bootable(primary, STAGING_SIZE)
                           || (backup != 0 && backup != primary && d.Bootable(backup, STAGING_SIZE)))
  {
    hide ValidFip, IsFip, Region, BootImages.Placed, BootImages.AllLoaded, Medium.Stable, Medium.Bootable;
    hide Medium.HasFip;
    hide Put, Handed, Patchable, PatchedTo, HwImage, Accepted, HasHwConfig, TreesAt;
    image := [];
    Layouts();
    var fipSize, used;
    r, fipSize, used := LoadRedundant(primary, backup, ram, STAGING_BASE, STAGING_SIZE, d, images);
    if r != 0 {
      return -1, image;
    }
    if images.scpSource == 0 || images.scpSize == 0 {
      return -1, image;
    }
    image := ram[STAGING_BASE..STAGING_BASE + fipSize];
    PlacedIsLoaded(ram[..], image, images);
    if images.dtbBase != 0 {
      TreeHanded(d, used, fipSize, ram[..], image, images);
      PatchConfig(ram, image, images, para);
    } else {
      NoTree(ram[..], image, images);
    }
    return 0, image;
  }

  // Without a device tree in the package none is handed over.
  lemma NoTree(s: bytes, image: bytes, images: BootImages)
    requires images.Placed(s, image) && images.dtbBase == 0
    ensures !HasHwConfig(image) && forall b :: !HwImage(image, b)
  {
    hide BootImages.Placed, HwImage;
    if HasHwConfig(image) {
      var b := HwInWindow(s, image, images);
      assert false;
    }
    forall b ensures !HwImage(image, b) {
      NoHwImage(image, b);
    }
  }

  lemma TreeHanded(d: Medium, used: nat, fipSize: nat, s: bytes, image: bytes, images: BootImages)
    requires TreesAt(d, used) && image == Region(d.content, used, fipSize)
    requires exists n :: d.HasFip(used, STAGING_SIZE, n, fipSize)
    requires images.Placed(s, image) && HasHwConfig(image)
    ensures exists b :: HwImage(image, b) && Handed(b) && LiesAt(s, HW_CONFIG_BASE, b)
                        && images.dtbBase == HW_CONFIG_BASE && images.dtbSize == |b|
  {
    hide BootImages.Placed, HwImage, Handed, Region, Medium.HasFip, LiesAt;
    var b := HwInWindow(s, image, images);
    var n :| d.HasFip(used, STAGING_SIZE, n, fipSize);
  }

  // The patch between load and handoff: it stays in its window, and where it
  // fails the tree is not handed over.
  method PatchConfig(ram: array<byte>, ghost image: bytes, images: BootImages, para: seq<nat>)
    requires RAM_END <= ram.Length && |image| <= STAGING_SIZE && LiesAt(ram[..], STAGING_BASE, image)
    requires images.AllLoaded(ram[..], image)
    requires STAGING_BASE <= images.scpSource && images.scpSource + images.scpSize <= STAGING_BASE + |image|
    requires exists b :: HwImage(image, b) && Handed(b) && LiesAt(ram[..], HW_CONFIG_BASE, b)
                         && images.dtbBase == HW_CONFIG_BASE && images.dtbSize == |b|
    requires |para| == DRAM_PARA_COUNT && forall j :: 0 <= j < |para| ==> para[j] < WORD
    modifies ram, images`dtbBase, images`dtbSize
    ensures LiesAt(ram[..], STAGING_BASE, image) && Booted(ram[..], image, images, para)
  {
    hide BootImages.AllLoaded, Put, Handed, Patchable, PatchedTo, HwImage, Accepted;
    ghost var s := ram[..];
    ghost var b :| HwImage(image, b) && Handed(b) && LiesAt(s, HW_CONFIG_BASE, b)
                   && images.dtbBase == HW_CONFIG_BASE && images.dtbSize == |b|;
    HwImageAccepted(image, b);
    Layouts();
    assert ram[HW_CONFIG_BASE..HW_CONFIG_BASE + images.dtbSize] == b;
    var r;
    ghost var w;
    r, w := UpdateWindow(ram, images.dtbBase, images.dtbSize, para);
    LoadedStays(s, HW_CONFIG_BASE, w, STAGING_BASE, image, images);
    PutElsewhere(s, HW_CONFIG_BASE, w, STAGING_BASE, |image|);
    PutSame(s, HW_CONFIG_BASE, w);
    if r != 0 {
      images.dtbBase := 0;
      images.dtbSize := 0;
      forall c | HwImage(image, c) ensures !Patchable(c) {
        OneHwImage(image, b, c);
      }
    }
  }

  // run_fip_handoff up to its jump: the stub is copied, and what was handed over
  // stays.
  method PrepareHandoff(ram: array<byte>, images: BootImages, stub: bytes, ghost image: bytes, ghost para: seq<nat>)
    returns (r: int)
    requires RAM_END <= ram.Length && |image| <= STAGING_SIZE && LiesAt(ram[..], STAGING_BASE, image)
    requires STAGING_BASE <= images.scpSource && images.scpSource + images.scpSize <= STAGING_BASE + |image|
    requires 0 < images.scpSize
    requires |para| == DRAM_PARA_COUNT && forall j :: 0 <= j < |para| ==> para[j] < WORD
    requires Booted(ram[..], image, images, para)
    modifies ram
    ensures r == if 0 < |stub| <= HANDOFF_SIZE then 0 else -1
    ensures r != 0 ==> unchanged(ram)
    ensures Booted(ram[..], image, images, para)
    ensures r == 0 ==> LiesAt(ram[..], HANDOFF_BASE, stub)
  {
    hide Booted, Put;
    Layouts();
    if images.scpSource == 0 || images.scpSize == 0 || |stub| == 0 || |stub| > HANDOFF_SIZE {
      return -1;
    }
    ghost var s := ram[..];
    MemCpy(ram, HANDOFF_BASE, stub);
    PutSame(s, HANDOFF_BASE, stub);
    BootedStays(s, HANDOFF_BASE, stub, image, images, para);
    return 0;
  }

  lemma BootedStays(s: bytes, o: nat, b: bytes, image: bytes, images: BootImages, para: seq<nat>)
    requires RAM_END <= |s| && o + |b| <= |s| && Apart(o, |b|) && Disjoint(o, |b|, STAGING_BASE, STAGING_SIZE)
    requires |image| <= STAGING_SIZE
    requires STAGING_BASE <= images.scpSource && images.scpSource + images.scpSize <= STAGING_BASE + |image|
    requires |para| == DRAM_PARA_COUNT && forall j :: 0 <= j < |para| ==> para[j] < WORD
    requires Booted(s, image, images, para)
    ensures Booted(Put(s, o, b), image, images, para)
  {
    hide BootImages.AllLoaded, Put, Patchable, PatchedTo, HwImage, Accepted;
    LoadedStays(s, o, b, STAGING_BASE, image, images);
    if images.dtbBase != 0 {
      var tree :| HwImage(image, tree) && |tree| == images.dtbSize && Patchable(tree)
                  && PatchedTo(tree, s[HW_CONFIG_BASE..HW_CONFIG_BASE + images.dtbSize], para);
      HwImageAccepted(image, tree);
      PutElsewhere(s, o, b, HW_CONFIG_BASE, images.dtbSize);
    }
  }

  // The whole way: load, patch, stub, and the AR100S reading the tree it was
  // handed. It gets the parameters boot0 had, whenever it is handed a tree.
  method Boot(primary: nat, backup: nat, ram: array<byte>, d: Medium, images: BootImages, para: seq<nat>,
              stub: bytes, dts: DramDts)
    returns (r: int, parsed: bool, ghost image: bytes)
    requires RAM_END <= ram.Length && d.Stable() && TreesAt(d, primary) && TreesAt(d, backup) && dts.Valid()
    requires images.dtbBase == 0 && images.dtbSize == 0
    requires |para| == DRAM_PARA_COUNT && forall j :: 0 <= j < |para| ==> para[j] < WORD
    modifies d, ram, images, dts.cells
    ensures r == 0 ==>
              && IsFip(image) && Booted(ram[..], image, images, para) && LiesAt(ram[..], HANDOFF_BASE, stub)
              && (images.dtbBase != 0 <==> exists b :: HwImage(image, b) && Patchable(b))
              && (images.dtbBase != 0 ==> parsed && dts.cells[..] == para)
    ensures (forall p :: images.accepts(p)) ==>
              (r == 0 <==> && 0 < |stub| <= HANDOFF_SIZE
                           && (d.Bootable(primary, STAGING_SIZE)
                               || (backup != 0 && backup != primary && d.Bootable(backup, STAGING_SIZE))))
  {
    hide Booted, IsFip, Medium.Stable, Medium.Bootable, TreesAt, Patchable, HwImage, Handed, ParaIs, HasPara;
    parsed := false;
    r, image := LoadFipImages(primary, backup, ram, d, images, para);
    if r != 0 {
      return -1, parsed, image;
    }
    r := PrepareHandoff(ram, images, stub, image, para);
    if r != 0 {
      return -1, parsed, image;
    }
    TreeVerdict(ram[..], image, images, para);
    if images.dtbBase != 0 {
      ghost var t := TreeOf(ram[..], image, images, para);
      parsed := dts.Parse(ram[images.dtbBase..images.dtbBase + images.dtbSize]);
      OnePara(t, para, dts.cells[..]);
    }
    return 0, parsed, image;
  }

  lemma TreeVerdict(s: bytes, image: bytes, images: BootImages, para: seq<nat>)
    requires |para| == DRAM_PARA_COUNT && forall j :: 0 <= j < |para| ==> para[j] < WORD
    requires Booted(s, image, images, para)
    ensures images.dtbBase != 0 <==> exists b :: HwImage(image, b) && Patchable(b)
  {
    hide Patchable, PatchedTo, HwImage, BootImages.AllLoaded;
  }

  // A blob that parses, with the parameters of the tree t.
  ghost predicate ParseGives(w: bytes, t: FdtTree.Tree, para: seq<nat>) {
    && FdtBlob.HEADER_SIZE <= |w| && FdtBlob.CheckHeader(w) == 0 && Handed(w) && !FdtWalk.Refused(w, 0)
    && FdtBlob.Denotes(w, t) && ParaIs(t, para) && HasPara(t) && FdtPath.Resolve(t, [DRAM]).Some?
  }

  lemma TreeOf(s: bytes, image: bytes, images: BootImages, para: seq<nat>) returns (t: FdtTree.Tree)
    requires |para| == DRAM_PARA_COUNT && forall j :: 0 <= j < |para| ==> para[j] < WORD
    requires Booted(s, image, images, para) && images.dtbBase != 0
    ensures images.dtbBase + images.dtbSize <= |s|
    ensures ParseGives(s[images.dtbBase..images.dtbBase + images.dtbSize], t, para)
  {
    hide Patchable, HwImage, BootImages.AllLoaded, FdtBlob.Denotes, FdtPath.Resolve, Handed, ParaIs, HasPara;
    var w := s[images.dtbBase..images.dtbBase + images.dtbSize];
    var b :| HwImage(image, b) && |b| == images.dtbSize && PatchedTo(b, w, para);
    t :| FdtBlob.Denotes(w, t) && ParaIs(t, para);
    HandedHeader(w);
    HandedSize(w);
    ParaResolves(t, para);
  }

  lemma HandedSize(w: bytes)
    requires Handed(w)
    ensures FdtBlob.HEADER_SIZE <= |w|
  {
  }
}
