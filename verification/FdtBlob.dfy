// A whole blob: header, blocks, the tree it denotes and the nodes in it.
module FdtBlob {
  import opened ByteStrings
  import opened FdtFormat
  import opened FdtTree

  const FDT_MAGIC: nat := 0xd00d_feed
  const FDT_SW_MAGIC: nat := 0x2ff2_0112
  const FDT_FIRST_SUPPORTED_VERSION: nat := 16
  const FDT_LAST_SUPPORTED_VERSION: nat := 17

  // Section 5.2 of the Devicetree Specification: ten big-endian words.
  const HEADER_SIZE: nat := 40
  const MAGIC: nat := 0
  const TOTALSIZE: nat := 4
  const OFF_STRUCT: nat := 8
  const OFF_STRINGS: nat := 12
  const OFF_RSVMAP: nat := 16
  const VERSION: nat := 20
  const LAST_COMP: nat := 24
  const BOOT_CPUID: nat := 28
  const SIZE_STRINGS: nat := 32
  const SIZE_STRUCT: nat := 36

  const RSV_ENTRY: nat := 16

  function Hdr(s: bytes, field: nat): (r: nat)
    requires field + 4 <= HEADER_SIZE <= |s|
    ensures r < WORD
  {
    Be32(s, field)
  }

  // fdt_check_header.
  function CheckHeader(s: bytes): int
    requires HEADER_SIZE <= |s|
  {
    if Hdr(s, MAGIC) == FDT_MAGIC then
      if Hdr(s, VERSION) < FDT_FIRST_SUPPORTED_VERSION then BADVERSION
      else if Hdr(s, LAST_COMP) > FDT_LAST_SUPPORTED_VERSION then BADVERSION
      else 0
    else if Hdr(s, MAGIC) == FDT_SW_MAGIC then
      if Hdr(s, SIZE_STRUCT) == 0 then BADSTATE else 0
    else BADMAGIC
  }

  // The buffer holds both blocks of a version 17 blob.
  predicate InBounds(s: bytes) {
    && HEADER_SIZE <= |s| < INT_LIMIT
    && Hdr(s, TOTALSIZE) <= |s|
    && Hdr(s, OFF_STRUCT) + Hdr(s, SIZE_STRUCT) <= Hdr(s, TOTALSIZE)
    && Hdr(s, OFF_STRINGS) + Hdr(s, SIZE_STRINGS) <= Hdr(s, TOTALSIZE)
  }

  function StructBlock(s: bytes): (r: bytes)
    requires InBounds(s)
    ensures |r| == Hdr(s, SIZE_STRUCT) < INT_LIMIT
  {
    s[Hdr(s, OFF_STRUCT)..Hdr(s, OFF_STRUCT) + Hdr(s, SIZE_STRUCT)]
  }

  function StringBlock(s: bytes): (r: bytes)
    requires InBounds(s)
    ensures |r| == Hdr(s, SIZE_STRINGS)
  {
    s[Hdr(s, OFF_STRINGS)..Hdr(s, OFF_STRINGS) + Hdr(s, SIZE_STRINGS)]
  }

  function NameAt(strs: bytes, o: nat): bytes {
    match StrAt(strs, o)
    case None => []
    case Some(t) => t
  }

  function TokenEvents(t: Token, strs: bytes): events {
    match t
    case Begin(name) => [Open(name)]
    case Prop(o, value) => [Attr(NameAt(strs, o), value)]
    case Close => [Shut]
    case Nop => []
  }

  function ChunkEvents(c: bytes, strs: bytes): events {
    match TokenOf(c)
    case None => []
    case Some(t) => TokenEvents(t, strs)
  }

  function EventsOf(cs: chunks, strs: bytes): events {
    if cs == [] then [] else ChunkEvents(cs[0], strs) + EventsOf(cs[1..], strs)
  }

  predicate ChunkResolved(c: bytes, strs: bytes) {
    match TokenOf(c)
    case Some(Prop(o, _)) => StrAt(strs, o).Some?
    case _ => true
  }

  // Every property name is a terminated string of the strings block.
  ghost predicate Resolved(cs: chunks, strs: bytes) {
    forall i :: 0 <= i < |cs| ==> ChunkResolved(cs[i], strs)
  }

  ghost predicate BlocksDenote(st: bytes, strs: bytes, cs: chunks, t: Tree) {
    && Decodes(st, cs)
    && Resolved(cs, strs)
    && EventsOf(cs, strs) == Events(t)
  }

  ghost predicate Readable(s: bytes) {
    && InBounds(s)
    && CheckHeader(s) == 0
    && Hdr(s, MAGIC) == FDT_MAGIC
    && Hdr(s, VERSION) >= 17
  }

  // The chunks fdt_next_tag finds from offset 0 on.
  ghost function Chunks(s: bytes): chunks
    requires InBounds(s)
  {
    var w := Walk(StructBlock(s), 0);
    if w.Some? then w.value else []
  }

  // The blob stands for the tree: the tag walk over the structure block, NOPs
  // left out and names looked up, is the tree in document order.
  ghost predicate Denotes(s: bytes, t: Tree) {
    && Readable(s)
    && BlocksDenote(StructBlock(s), StringBlock(s), Chunks(s), t)
  }

  lemma DenotesWhen(s: bytes, cs: chunks, t: Tree)
    requires Readable(s)
    requires BlocksDenote(StructBlock(s), StringBlock(s), cs, t)
    ensures Denotes(s, t) && Chunks(s) == cs
  {
    WalkIffDecodes(StructBlock(s), cs);
  }

  lemma DenotesOneTree(s: bytes, t: Tree, u: Tree)
    requires Denotes(s, t) && Denotes(s, u)
    ensures t == u
  {
    EventsInjective(t, u, [], []);
    assert Events(t) + [] == Events(t) && Events(u) + [] == Events(u);
  }

  // Chunk i opens the node that fills the hole of c.
  ghost predicate NodeChunk(cs: chunks, strs: bytes, i: nat, c: Ctx) {
    && i < |cs|
    && TokenOf(cs[i]).Some? && TokenOf(cs[i]).value.Begin?
    && EventsOf(cs[..i], strs) == Pre(c)
  }

  // What _fdt_check_node_offset can tell: the offset of the tag after the node's.
  function CheckNodeOffset(st: bytes, off: int32): int
    requires |st| < INT_LIMIT
  {
    if off < 0 || off % 4 != 0 || NextTag(st, off).0 != FDT_BEGIN_NODE then BADOFFSET
    else NextTag(st, off).1
  }

  lemma {:induction false} EventsOfCat(a: chunks, b: chunks, strs: bytes)
    ensures EventsOf(a + b, strs) == EventsOf(a, strs) + EventsOf(b, strs)
  {
    if a == [] {
      assert a + b == b;
    } else {
      assert (a + b)[1..] == a[1..] + b;
      EventsOfCat(a[1..], b, strs);
    }
  }

  lemma EventsOfOne(c: bytes, strs: bytes)
    ensures EventsOf([c], strs) == ChunkEvents(c, strs)
  {
    assert [c][1..] == [];
  }

  lemma EventsOfSplit(cs: chunks, i: nat, strs: bytes)
    requires i <= |cs|
    ensures EventsOf(cs, strs) == EventsOf(cs[..i], strs) + EventsOf(cs[i..], strs)
  {
    assert cs == cs[..i] + cs[i..];
    EventsOfCat(cs[..i], cs[i..], strs);
  }

  lemma EventsOfNext(cs: chunks, i: nat, strs: bytes)
    requires i < |cs|
    ensures EventsOf(cs[..i + 1], strs) == EventsOf(cs[..i], strs) + ChunkEvents(cs[i], strs)
    ensures EventsOf(cs[i..], strs) == ChunkEvents(cs[i], strs) + EventsOf(cs[i + 1..], strs)
  {
    assert cs[..i + 1] == cs[..i] + [cs[i]];
    EventsOfCat(cs[..i], [cs[i]], strs);
    EventsOfOne(cs[i], strs);
    assert cs[i..][1..] == cs[i + 1..];
  }

  // Appending to the strings block changes no name already in it.
  lemma {:induction false} EventsOfGrow(cs: chunks, strs: bytes, more: bytes)
    requires Resolved(cs, strs)
    ensures Resolved(cs, strs + more)
    ensures EventsOf(cs, strs + more) == EventsOf(cs, strs)
  {
    if cs != [] {
      ChunkGrow(cs[0], strs, more);
      EventsOfGrow(cs[1..], strs, more);
      assert cs == [cs[0]] + cs[1..];
    }
  }

  lemma ChunkGrow(c: bytes, strs: bytes, more: bytes)
    requires ChunkResolved(c, strs)
    ensures ChunkResolved(c, strs + more) && ChunkEvents(c, strs + more) == ChunkEvents(c, strs)
  {
    hide StrAt;
    match TokenOf(c)
    case Some(Prop(o, _)) => StrAtPrefix(strs, o, more);
    case _ =>
  }

  lemma ChunkedReplace(cs: chunks, i: nat, j: nat, mid: chunks)
    requires Chunked(cs) && i <= j <= |cs| && Chunked(mid)
    ensures Chunked(cs[..i] + mid + cs[j..])
  {
    hide TokenOf;
    var cs' := cs[..i] + mid + cs[j..];
    forall k | 0 <= k < |cs'| ensures TokenOf(cs'[k]).Some? {
      if k < i {
        assert cs'[k] == cs[k];
      } else if k < i + |mid| {
        assert cs'[k] == mid[k - i];
      } else {
        assert cs'[k] == cs[k - i - |mid| + j];
      }
    }
  }

  lemma FlatReplace(cs: chunks, i: nat, j: nat, mid: chunks)
    requires i <= j <= |cs|
    ensures Flat(cs[..i] + mid + cs[j..]) == Flat(cs[..i]) + Flat(mid) + Flat(cs[j..])
  {
    FlatCat(cs[..i] + mid, cs[j..]);
    FlatCat(cs[..i], mid);
  }

  // The block, cut at the start of chunk i.
  lemma DecodesSplit(st: bytes, cs: chunks, i: nat)
    requires Decodes(st, cs) && i <= |cs|
    ensures Off(cs, i) <= |Flat(cs)| <= |st|
    ensures st[..Off(cs, i)] == Flat(cs[..i])
    ensures st[Off(cs, i)..|Flat(cs)|] == Flat(cs[i..])
  {
    hide TokenOf;
    var n := |Flat(cs)|;
    FlatSplit(cs, i);
    assert st[..n][..Off(cs, i)] == st[..Off(cs, i)];
    SliceOfSlice(st, 0, n, Off(cs, i), n);
    assert st[0..n] == st[..n];
  }

  // Replacing chunks i to j by others replaces their events.
  lemma DecodesReplace(st: bytes, cs: chunks, i: nat, j: nat, mid: chunks, st': bytes)
    requires Decodes(st, cs) && i <= j <= |cs| && Chunked(mid)
    requires Off(cs, j) <= |st| && Off(cs, i) <= |st|
    requires st' == st[..Off(cs, i)] + Flat(mid) + st[Off(cs, j)..]
    ensures Decodes(st', cs[..i] + mid + cs[j..])
  {
    hide TokenOf, Be32, Flat;
    var n := |Flat(cs)|;
    var (oi, oj) := (Off(cs, i), Off(cs, j));
    DecodesSplit(st, cs, i);
    DecodesSplit(st, cs, j);
    FlatReplace(cs, i, j, mid);
    ChunkedReplace(cs, i, j, mid);
    var n' := oi + |Flat(mid)| + (n - oj);
    assert st[oj..] == st[oj..n] + st[n..];
    assert st'[..n'] == st[..oi] + Flat(mid) + st[oj..n];
    assert st'[n'..n' + 4] == st[n..n + 4];
    Be32OfSlice(st', n', st, n);
  }

  lemma ResolvedReplace(cs: chunks, strs: bytes, i: nat, j: nat, mid: chunks)
    requires i <= j <= |cs| && Resolved(cs, strs) && Resolved(mid, strs)
    ensures Resolved(cs[..i] + mid + cs[j..], strs)
    ensures EventsOf(cs[..i] + mid + cs[j..], strs)
            == EventsOf(cs[..i], strs) + EventsOf(mid, strs) + EventsOf(cs[j..], strs)
  {
    EventsOfCat(cs[..i] + mid, cs[j..], strs);
    EventsOfCat(cs[..i], mid, strs);
    hide ChunkResolved;
  }
}
