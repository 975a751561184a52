// The version 17 structure block of a flattened device tree: the tag reader of
// fdt.c on one side, a list of well-formed chunks (one per tag) on the other,
// and the proof that the two describe the same walk.
module FdtFormat {
  import opened ByteStrings

  const FDT_BEGIN_NODE: nat := 1
  const FDT_END_NODE: nat := 2
  const FDT_PROP: nat := 3
  const FDT_NOP: nat := 4
  const FDT_END: nat := 9

  const NOTFOUND: int := -1
  const NOSPACE: int := -3
  const BADOFFSET: int := -4
  const BADSTATE: int := -7
  const TRUNCATED: int := -8
  const BADMAGIC: int := -9
  const BADVERSION: int := -10
  const BADSTRUCTURE: int := -11
  const BADLAYOUT: int := -12

  // Sizes and offsets are C ints.
  const INT_LIMIT: nat := 0x8000_0000
  type int32 = x: int | -0x8000_0000 <= x < 0x8000_0000

  // fdt_offset_ptr: offset and len are added as 32-bit unsigned numbers, and the
  // sum must neither wrap nor pass the end of the structure block.
  predicate InStruct(st: bytes, offset: int, len: nat) {
    var o := offset % WORD;
    var end := (o + len) % WORD;
    o <= end <= |st|
  }

  lemma InStructMeans(st: bytes, offset: int32, len: nat)
    requires |st| < INT_LIMIT && len < WORD
    ensures InStruct(st, offset, len) <==> 0 <= offset && offset + len <= |st|
  {
    if offset < 0 {
      assert offset % WORD == offset + WORD;
    }
  }

  // The offset after the name's terminator, or None when the block ends first.
  function SkipName(st: bytes, o: nat): (r: Option<nat>)
    ensures r.Some? ==> o < r.value <= |st|
    decreases |st| - o
  {
    if o >= |st| then None
    else if st[o] == 0 then Some(o + 1)
    else SkipName(st, o + 1)
  }

  // fdt_next_tag: the tag at start and the offset of the next one, or FDT_END
  // and a negative error.
  function NextTag(st: bytes, start: int32): (r: (nat, int))
    requires |st| < INT_LIMIT
  {
    InStructMeans(st, start, 4);
    if !InStruct(st, start, 4) then (FDT_END, TRUNCATED)
    else
      var tag := Be32(st, start);
      if tag == FDT_BEGIN_NODE then
        match SkipName(st, start + 4)
        case None => (FDT_END, BADSTRUCTURE)
        case Some(o) => CloseTag(st, start, tag, o)
      else if tag == FDT_PROP then
        InStructMeans(st, start + 4, 4);
        if !InStruct(st, start + 4, 4) then (FDT_END, BADSTRUCTURE)
        else CloseTag(st, start, tag, (start + 12 + Be32(st, start + 4)) % WORD)
      else if tag == FDT_END || tag == FDT_END_NODE || tag == FDT_NOP then
        CloseTag(st, start, tag, start + 4)
      else (FDT_END, BADSTRUCTURE)
  }

  function CloseTag(st: bytes, start: nat, tag: nat, o: nat): (nat, int) {
    if InStruct(st, start, (o - start) % WORD) then (tag, Align4(o)) else (FDT_END, BADSTRUCTURE)
  }

  // The tags between BEGIN_NODE and END; END_NODE is Close here.
  datatype Token =
    | Begin(name: bytes)
    | Prop(nameoff: nat, value: bytes)
    | Close
    | Nop

  function TagOf(t: Token): nat {
    match t
    case Begin(_) => FDT_BEGIN_NODE
    case Prop(_, _) => FDT_PROP
    case Close => FDT_END_NODE
    case Nop => FDT_NOP
  }

  // Section 5.4.2 of the Devicetree Specification: one tag with its extra data,
  // padded to four bytes.  What the padding holds is not constrained.
  function TokenOf(c: bytes): (r: Option<Token>) {
    if |c| < 4 then None
    else if Be32(c, 0) == FDT_BEGIN_NODE then
      match StrAt(c, 4)
      case None => None
      case Some(name) => if |c| == 4 + Align4(|name| + 1) then Some(Begin(name)) else None
    else if Be32(c, 0) == FDT_PROP then
      if |c| >= 12 && |c| == 12 + Align4(Be32(c, 4)) then
        Some(Prop(Be32(c, 8), c[12..12 + Be32(c, 4)]))
      else None
    else if |c| != 4 then None
    else if Be32(c, 0) == FDT_END_NODE then Some(Close)
    else if Be32(c, 0) == FDT_NOP then Some(Nop)
    else None
  }

  lemma ChunkSize(c: bytes)
    requires TokenOf(c).Some?
    ensures |c| % 4 == 0 && |c| >= 4 && Be32(c, 0) == TagOf(TokenOf(c).value)
  {
  }

  lemma ChunkWidth(c: bytes)
    requires TokenOf(c).Some?
    ensures |c| % 4 == 0 && |c| >= 4
  {
  }

  lemma SumAligned(a: nat, b: nat)
    requires a % 4 == 0 && b % 4 == 0
    ensures (a + b) % 4 == 0
  {
  }

  type chunks = seq<bytes>

  ghost predicate Chunked(cs: chunks) {
    forall i :: 0 <= i < |cs| ==> TokenOf(cs[i]).Some?
  }

  function Flat(cs: chunks): bytes {
    if cs == [] then [] else cs[0] + Flat(cs[1..])
  }

  lemma FlatNone()
    ensures Flat([]) == []
  {
  }

  // The offset of chunk i.
  function Off(cs: chunks, i: nat): nat
    requires i <= |cs|
  {
    |Flat(cs[..i])|
  }

  lemma {:induction false} FlatCat(a: chunks, b: chunks)
    ensures Flat(a + b) == Flat(a) + Flat(b)
  {
    if a == [] {
      assert a + b == b;
    } else {
      assert (a + b)[1..] == a[1..] + b;
      FlatCat(a[1..], b);
    }
  }

  lemma FlatOne(c: bytes)
    ensures Flat([c]) == c
  {
    assert [c][1..] == [];
  }

  lemma FlatSplit(cs: chunks, i: nat)
    requires i <= |cs|
    ensures Flat(cs) == Flat(cs[..i]) + Flat(cs[i..])
  {
    assert cs == cs[..i] + cs[i..];
    FlatCat(cs[..i], cs[i..]);
  }

  lemma OffNext(cs: chunks, i: nat)
    requires i < |cs|
    ensures Flat(cs[..i + 1]) == Flat(cs[..i]) + cs[i]
    ensures Off(cs, i + 1) == Off(cs, i) + |cs[i]|
  {
    assert cs[..i + 1] == cs[..i] + [cs[i]];
    FlatCat(cs[..i], [cs[i]]);
    FlatOne(cs[i]);
  }

  lemma {:induction false} FlatAligned(cs: chunks)
    requires Chunked(cs)
    ensures |Flat(cs)| % 4 == 0 && |Flat(cs)| >= 4 * |cs|
  {
    if cs != [] {
      ChunkWidth(cs[0]);
      FlatAligned(cs[1..]);
      SumAligned(|cs[0]|, |Flat(cs[1..])|);
    }
  }

  // Chunk i lies in the flattened block at its offset.
  lemma ChunkAt(cs: chunks, i: nat)
    requires i < |cs|
    ensures Off(cs, i) + |cs[i]| == Off(cs, i + 1) <= |Flat(cs)|
    ensures Flat(cs)[Off(cs, i)..Off(cs, i + 1)] == cs[i]
  {
    FlatSplit(cs, i + 1);
    OffNext(cs, i);
  }

  lemma OffMonotone(cs: chunks, i: nat, j: nat)
    requires Chunked(cs)
    requires i <= j <= |cs|
    ensures Off(cs, i) + 4 * (j - i) <= Off(cs, j) <= |Flat(cs)|
    ensures Off(cs, i) % 4 == 0 && Off(cs, j) % 4 == 0
  {
    hide TokenOf, Flat;
    assert cs[..j] == cs[..i] + cs[i..j];
    FlatCat(cs[..i], cs[i..j]);
    FlatAligned(cs[i..j]);
    FlatAligned(cs[..i]);
    SumAligned(Off(cs, i), |Flat(cs[i..j])|);
    FlatSplit(cs, j);
  }

  // Chunks start at different offsets.
  lemma OffInjective(cs: chunks, i: nat, j: nat)
    requires Chunked(cs)
    requires i <= |cs| && j <= |cs| && Off(cs, i) == Off(cs, j)
    ensures i == j
  {
    if i <= j {
      OffMonotone(cs, i, j);
    } else {
      OffMonotone(cs, j, i);
    }
  }

  // st is cs, then FDT_END, then anything.
  ghost predicate Decodes(st: bytes, cs: chunks) {
    var n := |Flat(cs)|;
    && Chunked(cs)
    && n + 4 <= |st|
    && st[..n] == Flat(cs)
    && Be32(st, n) == FDT_END
  }

  lemma DecodesAt(st: bytes, cs: chunks, i: nat)
    requires Decodes(st, cs) && i < |cs|
    ensures Off(cs, i) + |cs[i]| == Off(cs, i + 1) <= |Flat(cs)|
    ensures st[Off(cs, i)..Off(cs, i + 1)] == cs[i]
  {
    ChunkAt(cs, i);
    assert st[Off(cs, i)..Off(cs, i + 1)] == st[..|Flat(cs)|][Off(cs, i)..Off(cs, i + 1)];
  }

  lemma {:induction false} SkipNameIsStrAt(st: bytes, o: nat)
    ensures match StrAt(st, o)
            case None => SkipName(st, o) == None
            case Some(t) => SkipName(st, o) == Some(o + |t| + 1)
    decreases |st| - o
  {
    if o < |st| && st[o] != 0 {
      SkipNameIsStrAt(st, o + 1);
    }
  }

  lemma CloseTagFits(st: bytes, start: nat, tag: nat, o: nat)
    requires |st| < INT_LIMIT && start <= o <= |st|
    ensures CloseTag(st, start, tag, o) == (tag, Align4(o))
  {
    InStructMeans(st, start, o - start);
  }

  // fdt_next_tag on a chunk returns its tag and steps exactly over it.
  lemma NextTagOnChunk(st: bytes, o: nat, c: bytes)
    requires |st| < INT_LIMIT && o % 4 == 0
    requires o + |c| <= |st| && st[o..o + |c|] == c
    requires TokenOf(c).Some?
    ensures NextTag(st, o) == (TagOf(TokenOf(c).value), o + |c|)
  {
    ChunkSize(c);
    TagInBlock(st, o, c);
    match TokenOf(c).value
    case Begin(name) => NextTagOnBegin(st, o, c);
    case Prop(_, v) => NextTagOnProp(st, o, c);
    case Close => CloseTagFits(st, o, FDT_END_NODE, o + 4);
    case Nop => CloseTagFits(st, o, FDT_NOP, o + 4);
  }

  lemma TagInBlock(st: bytes, o: nat, c: bytes)
    requires |st| < INT_LIMIT
    requires o + |c| <= |st| && st[o..o + |c|] == c && |c| >= 4
    ensures InStruct(st, o, 4) && Be32(st, o) == Be32(c, 0)
  {
    InStructMeans(st, o, 4);
    SubSlice(st, o, c, 0, 4);
    Be32OfSlice(st, o, c, 0);
  }

  lemma SubSlice(st: bytes, o: nat, c: bytes, i: nat, j: nat)
    requires o + |c| <= |st| && st[o..o + |c|] == c
    requires i <= j <= |c|
    ensures st[o + i..o + j] == c[i..j]
    ensures i < |c| ==> st[o + i] == c[i]
  {
    SliceOfSlice(st, o, o + |c|, i, j);
    if i < |c| {
      assert st[o + i] == st[o..o + |c|][i];
    }
  }

  lemma SmallMod(n: nat)
    requires n < WORD
    ensures n % WORD == n
  {
  }

  lemma AlignFrom(o: nat, n: nat)
    requires o % 4 == 0
    ensures Align4(o + n) == o + Align4(n) && Align4(n + 4) == Align4(n) + 4 && Align4(n + 12) == Align4(n) + 12
  {
  }

  lemma NextTagOnBegin(st: bytes, o: nat, c: bytes)
    requires |st| < INT_LIMIT && o % 4 == 0
    requires o + |c| <= |st| && st[o..o + |c|] == c
    requires TokenOf(c).Some? && TokenOf(c).value.Begin?
    ensures NextTag(st, o) == (FDT_BEGIN_NODE, o + |c|)
  {
    hide InStruct, CloseTag, Align4, NextTag, TokenOf, SkipName, Be32;
    BeginSize(c);
    TagInBlock(st, o, c);
    NameInBlock(st, o, c);
    var name := TokenOf(c).value.name;
    NextTagBegins(st, o, o + 4 + |name| + 1);
    CloseTagFits(st, o, FDT_BEGIN_NODE, o + 4 + |name| + 1);
    AlignFrom(o, 4 + |name| + 1);
    AlignFrom(o, |name| + 1);
    AlignFrom(0, |name| + 1);
  }

  lemma BeginSize(c: bytes)
    requires TokenOf(c).Some? && TokenOf(c).value.Begin?
    ensures Be32(c, 0) == FDT_BEGIN_NODE && |c| == 4 + Align4(|TokenOf(c).value.name| + 1)
    ensures StrAt(c, 4) == Some(TokenOf(c).value.name)
  {
    hide StrAt, Be32;
  }

  lemma NextTagBegins(st: bytes, o: nat, e: nat)
    requires |st| < INT_LIMIT && o % 4 == 0 && InStruct(st, o, 4) && o + 4 <= |st|
    requires Be32(st, o) == FDT_BEGIN_NODE && SkipName(st, o + 4) == Some(e)
    ensures NextTag(st, o) == CloseTag(st, o, FDT_BEGIN_NODE, e)
  {
    hide InStruct, CloseTag, Be32, SkipName;
  }

  lemma NextTagOnProp(st: bytes, o: nat, c: bytes)
    requires |st| < INT_LIMIT && o % 4 == 0
    requires o + |c| <= |st| && st[o..o + |c|] == c
    requires TokenOf(c).Some? && TokenOf(c).value.Prop?
    ensures NextTag(st, o) == (FDT_PROP, o + |c|)
  {
    hide InStruct, CloseTag, Align4, Be32, NextTag, TokenOf;
    PropSize(c);
    TagInBlock(st, o, c);
    var n := Be32(c, 4);
    InStructMeans(st, o + 4, 4);
    SubSlice(st, o, c, 4, 8);
    Be32OfSlice(st, o + 4, c, 4);
    AlignGrows(12 + n);
    CloseTagFits(st, o, FDT_PROP, o + 12 + n);
    AlignFrom(o, 12 + n);
    AlignFrom(0, n);
    NextTagProp(st, o, n);
  }

  lemma PropSize(c: bytes)
    requires TokenOf(c).Some? && TokenOf(c).value.Prop?
    ensures 12 <= |c| == Align4(12 + Be32(c, 4)) && Be32(c, 0) == FDT_PROP
  {
    hide Be32;
    AlignFrom(0, Be32(c, 4));
  }

  lemma NextTagProp(st: bytes, o: nat, n: nat)
    requires |st| < INT_LIMIT && o + 8 <= |st| && o % 4 == 0 && InStruct(st, o, 4) && InStruct(st, o + 4, 4)
    requires Be32(st, o) == FDT_PROP && Be32(st, o + 4) == n && o + 12 + n < WORD
    ensures NextTag(st, o) == CloseTag(st, o, FDT_PROP, o + 12 + n)
  {
    hide InStruct, CloseTag, Be32;
    SmallMod(o + 12 + n);
  }

  lemma NameInBlock(st: bytes, o: nat, c: bytes)
    requires o + |c| <= |st| && st[o..o + |c|] == c
    requires StrAt(c, 4).Some?
    ensures StrAt(st, o + 4) == StrAt(c, 4)
    ensures SkipName(st, o + 4) == Some(o + 4 + |StrAt(c, 4).value| + 1)
  {
    var name := StrAt(c, 4).value;
    SubSlice(st, o, c, 4, 4 + |name|);
    SubSlice(st, o, c, 4 + |name|, 4 + |name|);
    StrAtUnique(st, o + 4, name);
    SkipNameIsStrAt(st, o + 4);
  }

  lemma NextTagOnEnd(st: bytes, o: nat)
    requires |st| < INT_LIMIT && o % 4 == 0
    requires o + 4 <= |st| && Be32(st, o) == FDT_END
    ensures NextTag(st, o) == (FDT_END, o + 4)
  {
    InStructMeans(st, o, 4);
    CloseTagFits(st, o, FDT_END, o + 4);
  }

  // The walk over a decoded block visits its chunks one by one.
  lemma NextTagWalks(st: bytes, cs: chunks, i: nat)
    requires |st| < INT_LIMIT && Decodes(st, cs) && i <= |cs|
    ensures Off(cs, i) <= |Flat(cs)| && Off(cs, i) % 4 == 0
    ensures i < |cs| ==> NextTag(st, Off(cs, i)) == (TagOf(TokenOf(cs[i]).value), Off(cs, i + 1))
    ensures i == |cs| ==> NextTag(st, Off(cs, i)) == (FDT_END, Off(cs, i) + 4)
  {
    OffMonotone(cs, i, |cs|);
    if i < |cs| {
      DecodesAt(st, cs, i);
      NextTagOnChunk(st, Off(cs, i), cs[i]);
    } else {
      assert cs[..i] == cs;
      NextTagOnEnd(st, Off(cs, i));
    }
  }

  // A property whose length field carries the tag past 2^32.
  ghost predicate LengthWraps(st: bytes, o: nat) {
    && o + 8 <= |st|
    && Be32(st, o) == FDT_PROP
    && o + 12 + Be32(st, o + 4) >= WORD
  }

  lemma AcceptedBegin(st: bytes, o: nat)
    requires |st| < INT_LIMIT && o + 4 <= |st| && o % 4 == 0
    requires Be32(st, o) == FDT_BEGIN_NODE
    requires StrAt(st, o + 4).Some?
    requires Align4(o + 4 + |StrAt(st, o + 4).value| + 1) <= |st|
    ensures TokenOf(st[o..Align4(o + 4 + |StrAt(st, o + 4).value| + 1)])
            == Some(Begin(StrAt(st, o + 4).value))
  {
    hide Align4, Word, StrAt, TokenOf, Be32;
    var name := StrAt(st, o + 4).value;
    var next := Align4(o + 4 + |name| + 1);
    var c := st[o..next];
    AlignFrom(o, |name| + 1 + 4);
    AlignFrom(0, |name| + 1);
    SubSlice(st, o, c, 0, 4);
    Be32OfSlice(st, o, c, 0);
    SubSlice(st, o, c, 4, 4 + |name|);
    SubSlice(st, o, c, 4 + |name|, 4 + |name|);
    StrAtUnique(c, 4, name);
    TokenIsBegin(c, name);
  }

  lemma TokenIsBegin(c: bytes, name: bytes)
    requires |c| == 4 + Align4(|name| + 1) && Be32(c, 0) == FDT_BEGIN_NODE && StrAt(c, 4) == Some(name)
    ensures TokenOf(c) == Some(Begin(name))
  {
    hide StrAt, Be32;
  }

  lemma AcceptedProp(st: bytes, o: nat)
    requires |st| < INT_LIMIT && o + 8 <= |st| && o % 4 == 0
    requires Be32(st, o) == FDT_PROP && Align4(o + 12 + Be32(st, o + 4)) <= |st|
    ensures TokenOf(st[o..Align4(o + 12 + Be32(st, o + 4))]).Some?
  {
    hide Align4, Word;
    var n := Be32(st, o + 4);
    var c := st[o..Align4(o + 12 + n)];
    AlignFrom(o, 12 + n);
    AlignFrom(0, n);
    assert c[..4] == st[o..o + 4];
    Be32OfSlice(st, o, c, 0);
    assert c[4..8] == st[o + 4..o + 8];
    Be32OfSlice(st, o + 4, c, 4);
  }

  // What fdt_next_tag accepts is a chunk, with one exception: a property whose
  // length wraps.
  lemma AcceptedIsChunk(st: bytes, o: nat)
    requires |st| < INT_LIMIT && o < INT_LIMIT && o % 4 == 0
    requires var (tag, next) := NextTag(st, o); tag != FDT_END && next <= |st|
    ensures var next := NextTag(st, o).1;
            LengthWraps(st, o) <==> !(o < next && TokenOf(st[o..next]).Some?)
  {
    hide TokenOf, Word, Align4, CloseTag, InStruct, SkipName, StrAt;
    InStructMeans(st, o, 4);
    var (tag, next) := NextTag(st, o);
    if tag == FDT_BEGIN_NODE {
      AcceptedIsNode(st, o);
    } else if tag == FDT_PROP {
      PropHasLength(st, o);
      PropStep(st, o);
      if !LengthWraps(st, o) {
        AcceptedProp(st, o);
        AlignGrows(o + 12 + Be32(st, o + 4));
      }
    } else {
      AcceptedIsPlain(st, o);
    }
  }

  lemma AlignGrows(n: nat)
    ensures Align4(n) >= n
  {
  }

  lemma PropHasLength(st: bytes, o: nat)
    requires |st| < INT_LIMIT && o < INT_LIMIT && o % 4 == 0 && NextTag(st, o).0 == FDT_PROP
    ensures o + 8 <= |st| && Be32(st, o) == FDT_PROP
  {
    hide Word, Align4;
    InStructMeans(st, o, 4);
    InStructMeans(st, o + 4, 4);
  }

  lemma AcceptedIsNode(st: bytes, o: nat)
    requires |st| < INT_LIMIT && o < INT_LIMIT && o % 4 == 0
    requires NextTag(st, o).0 == FDT_BEGIN_NODE && NextTag(st, o).1 <= |st|
    ensures o < NextTag(st, o).1 && TokenOf(st[o..NextTag(st, o).1]).Some? && !LengthWraps(st, o)
  {
    hide TokenOf, Word, Align4, StrAt;
    InStructMeans(st, o, 4);
    SkipNameIsStrAt(st, o + 4);
    var e := SkipName(st, o + 4).value;
    CloseTagFits(st, o, FDT_BEGIN_NODE, e);
    AlignGrows(e);
    AcceptedBegin(st, o);
  }

  lemma AcceptedIsPlain(st: bytes, o: nat)
    requires |st| < INT_LIMIT && o < INT_LIMIT && o % 4 == 0
    requires var tag := NextTag(st, o).0; tag != FDT_END && tag != FDT_BEGIN_NODE && tag != FDT_PROP
    requires NextTag(st, o).1 <= |st|
    ensures o < NextTag(st, o).1 && TokenOf(st[o..NextTag(st, o).1]).Some? && !LengthWraps(st, o)
  {
    hide Word;
    InStructMeans(st, o, 4);
    var tag := NextTag(st, o).0;
    CloseTagFits(st, o, tag, o + 4);
    Be32OfSlice(st, o, st[o..o + 4], 0);
  }

  // Where an accepted property leads: past its value, or, when its length
  // wraps, to an offset at most 12 bytes on.
  lemma PropStep(st: bytes, o: nat)
    requires |st| < INT_LIMIT && o < INT_LIMIT && o % 4 == 0 && o + 8 <= |st|
    requires Be32(st, o) == FDT_PROP && NextTag(st, o).0 == FDT_PROP
    ensures var n := Be32(st, o + 4);
            NextTag(st, o).1 == if LengthWraps(st, o) then Align4(o + 12 + n - WORD)
                                else Align4(o + 12 + n)
    ensures LengthWraps(st, o) ==> |st[o..]| < 12 + Be32(st, o + 4)
    ensures LengthWraps(st, o) && o < NextTag(st, o).1 <= |st| ==> TokenOf(st[o..NextTag(st, o).1]) == None
  {
    hide Align4, Word;
    var n := Be32(st, o + 4);
    InStructMeans(st, o, 4);
    InStructMeans(st, o + 4, 4);
    var e := (o + 12 + n) % WORD;
    assert NextTag(st, o).1 == Align4(e);
    if LengthWraps(st, o) {
      assert e == o + 12 + n - WORD;
      var next := NextTag(st, o).1;
      if o < next <= |st| {
        var c := st[o..next];
        assert c[..4] == st[o..o + 4];
        Be32OfSlice(st, o, c, 0);
        if |c| >= 8 {
          assert c[4..8] == st[o + 4..o + 8];
          Be32OfSlice(st, o + 4, c, 4);
        }
        assert |c| < n;
      }
    } else {
      SmallMod(o + 12 + n);
    }
  }

  // The walk can stall: a property of length 2^32 - 12 is accepted, and the
  // next offset is the property itself.
  lemma WrappedLengthStalls()
    ensures NextTag([0, 0, 0, 3, 255, 255, 255, 244], 0) == (FDT_PROP, 0)
  {
    var st: bytes := [0, 0, 0, 3, 255, 255, 255, 244];
    InStructMeans(st, 0, 4);
    InStructMeans(st, 4, 4);
    InStructMeans(st, 0, 0);
    assert Be32(st, 0) == 3 && Be32(st, 4) == WORD - 12;
  }

  // The chunks that repeated fdt_next_tag visits from o up to FDT_END.
  ghost function Walk(st: bytes, o: nat): Option<chunks>
    requires |st| < INT_LIMIT
    decreases |st| - o
  {
    if o >= |st| then None
    else
      var (tag, next) := NextTag(st, o);
      if tag == FDT_END then (if next >= 0 then Some([]) else None)
      else if !(o < next <= |st|) || TokenOf(st[o..next]) == None then None
      else
        match Walk(st, next)
        case None => None
        case Some(cs) => Some([st[o..next]] + cs)
  }

  ghost predicate DecodesFrom(st: bytes, o: nat, cs: chunks) {
    var n := |Flat(cs)|;
    && Chunked(cs)
    && o + n + 4 <= |st|
    && st[o..o + n] == Flat(cs)
    && Be32(st, o + n) == FDT_END
  }

  lemma {:induction false} DecodedIsWalked(st: bytes, o: nat, cs: chunks)
    requires |st| < INT_LIMIT && o % 4 == 0
    requires DecodesFrom(st, o, cs)
    ensures Walk(st, o) == Some(cs)
    decreases |cs|
  {
    hide NextTag, TokenOf, Be32;
    if cs == [] {
      NextTagOnEnd(st, o);
    } else {
      var c := cs[0];
      var next := o + |c|;
      assert Flat(cs) == c + Flat(cs[1..]);
      ChunkWidth(c);
      SliceOfSlice(st, o, o + |Flat(cs)|, 0, |c|);
      SliceOfSlice(st, o, o + |Flat(cs)|, |c|, |Flat(cs)|);
      NextTagOnChunk(st, o, c);
      DecodedIsWalked(st, next, cs[1..]);
      assert cs == [c] + cs[1..] && st[o..next] == c;
      assert TagOf(TokenOf(c).value) != FDT_END;
    }
  }

  lemma {:induction false} WalkedIsDecoded(st: bytes, o: nat)
    requires |st| < INT_LIMIT && o % 4 == 0
    requires Walk(st, o).Some?
    ensures DecodesFrom(st, o, Walk(st, o).value)
    decreases |st| - o
  {
    hide NextTag, TokenOf, Be32;
    var cs := Walk(st, o).value;
    var (tag, next) := NextTag(st, o);
    if tag == FDT_END {
      EndIsRead(st, o);
    } else {
      var c := st[o..next];
      ChunkWidth(c);
      WalkedIsDecoded(st, next);
      assert cs == [c] + cs[1..];
      FlatCat([c], cs[1..]);
      FlatOne(c);
      var n := |Flat(cs[1..])|;
      assert st[o..next] + st[next..next + n] == st[o..next + n];
    }
  }

  lemma EndIsRead(st: bytes, o: nat)
    requires |st| < INT_LIMIT && o < |st|
    requires NextTag(st, o).0 == FDT_END && NextTag(st, o).1 >= 0
    ensures o + 4 <= |st| && Be32(st, o) == FDT_END
  {
    InStructMeans(st, o, 4);
  }

  // The reader's walk and the chunk list are the same description of a block.
  lemma WalkIffDecodes(st: bytes, cs: chunks)
    requires |st| < INT_LIMIT
    ensures Walk(st, 0) == Some(cs) <==> Decodes(st, cs)
  {
    if |Flat(cs)| <= |st| {
      assert st[0..|Flat(cs)|] == st[..|Flat(cs)|];
    }
    if Walk(st, 0) == Some(cs) {
      WalkedIsDecoded(st, 0);
    }
    if Decodes(st, cs) {
      DecodedIsWalked(st, 0, cs);
    }
  }
}
