// The DRAM parameters, from boot0 (hw_config_a733.c) to the AR100S
// (dram_dts_para_v2.c) through the cells of a device tree.
module Handoff {
  import opened ByteStrings
  import opened FdtFormat
  import opened FdtTree
  import opened FdtBlob
  import opened FdtNode
  import opened FdtWalk
  import opened FdtProps
  import opened FdtWip
  import opened FdtChild
  import opened FdtPath

  const DRAM_PARA_COUNT: nat := 96

  // "/dram", "dram_para" and the digit zero, as bytes.
  const DRAM: bytes := [100, 114, 97, 109]
  const DRAM_PATH: bytes := [47, 100, 114, 97, 109]
  const DRAM_PARA: bytes := [100, 114, 97, 109, 95, 112, 97, 114, 97]
  const ZERO: byte := 48

  // The writer's property name: two digits stored over "00".
  function WriterName(i: nat): (r: bytes)
    requires i < DRAM_PARA_COUNT
    ensures r != []
  {
    DRAM_PARA + [ZERO + i / 10, ZERO + i % 10]
  }

  // The digits itoa produces.
  function Decimal(n: nat): (r: bytes)
    ensures NoNul(r)
  {
    if n < 10 then [ZERO + n] else Decimal(n / 10) + [ZERO + n % 10]
  }

  // itoa for a number that is not negative: digits onto a stack, then off it.
  method Itoa(value: nat) returns (s: bytes)
    ensures s == Decimal(value)
  {
    if value == 0 {
      return [ZERO];
    }
    var stack: bytes := [];
    var v: nat := value;
    while v > 0
      invariant v > 0 || stack != []
      invariant v > 0 ==> Decimal(value) == Decimal(v) + Reverse(stack)
      invariant v == 0 ==> Decimal(value) == Reverse(stack)
    {
      ReverseNext(stack, ZERO + v % 10);
      stack := stack + [ZERO + v % 10];
      v := v / 10;
    }
    s := [];
    var i := |stack|;
    assert stack[i..] == [];
    while i > 0
      invariant 0 <= i <= |stack|
      invariant s == Reverse(stack[i..])
    {
      i := i - 1;
      ReverseFront(stack, i);
      s := s + [stack[i]];
    }
    assert stack[0..] == stack;
  }

  function Reverse(s: bytes): bytes {
    if s == [] then [] else Reverse(s[1..]) + [s[0]]
  }

  lemma {:induction false} ReverseNext(s: bytes, b: byte)
    ensures Reverse(s + [b]) == [b] + Reverse(s)
  {
    if s == [] {
      assert (s + [b])[1..] == [];
    } else {
      ReverseNext(s[1..], b);
      assert (s + [b])[1..] == s[1..] + [b];
    }
  }

  lemma ReverseFront(s: bytes, i: nat)
    requires i < |s|
    ensures Reverse(s[i..]) == Reverse(s[i + 1..]) + [s[i]]
  {
    assert s[i..][1..] == s[i + 1..];
  }

  // The reader's property name: "%d" after "dram_para0" or "dram_para".
  function ReaderName(i: nat): bytes {
    if i < 10 then DRAM_PARA + [ZERO] + Decimal(i) else DRAM_PARA + Decimal(i)
  }

  // Both sides mean the same property, and no two indices mean the same one.
  lemma NamesAgree(i: nat)
    requires i < DRAM_PARA_COUNT
    ensures ReaderName(i) == WriterName(i) && NoNul(WriterName(i))
  {
    if i >= 10 {
      assert Decimal(i) == Decimal(i / 10) + [ZERO + i % 10];
      assert Decimal(i / 10) == [ZERO + i / 10];
    }
  }

  lemma NamesDiffer(i: nat, j: nat)
    requires i < DRAM_PARA_COUNT && j < DRAM_PARA_COUNT && i != j
    ensures WriterName(i) != WriterName(j)
  {
    assert WriterName(i)[9] == ZERO + i / 10 && WriterName(i)[10] == ZERO + i % 10;
    assert WriterName(j)[9] == ZERO + j / 10 && WriterName(j)[10] == ZERO + j % 10;
  }

  predicate IsWord(v: Option<bytes>) {
    v.Some? && |v.value| == 4
  }

  // The 96 parameters a tree holds, in the node its path finds; None when the
  // node or a parameter is missing or a value is not one cell.
  ghost predicate HasPara(t: Tree) {
    && Resolve(t, [DRAM]).Some?
    && forall i: nat :: i < DRAM_PARA_COUNT ==> IsWord(Lookup(Resolve(t, [DRAM]).value.1, WriterName(i)))
  }

  ghost predicate ParaIs(t: Tree, para: seq<nat>) {
    && HasPara(t) && |para| == DRAM_PARA_COUNT
    && forall i: nat :: i < DRAM_PARA_COUNT ==>
         Be32(Lookup(Resolve(t, [DRAM]).value.1, WriterName(i)).value, 0) == para[i]
  }

  lemma DramComponents()
    ensures Components(DRAM_PATH) == [DRAM]
  {
    var rest := DRAM_PATH[1..];
    assert rest == DRAM;
    SlashIn(DRAM);
    assert DRAM[..4] == DRAM && DRAM[4..] == [];
  }

  lemma SlashIn(name: bytes)
    requires name == DRAM
    ensures SlashAt(name) == 4
  {
    assert name[1..] == [114, 97, 109] && name[1..][1..] == [97, 109] && name[1..][1..][1..] == [109];
    assert SlashAt([]) == 0 && SlashAt([109]) == 1 + SlashAt([109][1..]) && [109][1..] == [];
    assert SlashAt([97, 109]) == 1 + SlashAt([97, 109][1..]) && [97, 109][1..] == [109];
    assert SlashAt([114, 97, 109]) == 1 + SlashAt([114, 97, 109][1..]) && [114, 97, 109][1..] == [97, 109];
  }

  // A node found by its path is found in the same place when only its
  // properties have changed.
  lemma {:induction false} ResolveChanged(t: Tree, comps: seq<bytes>, c: Ctx, n: Tree, n': Tree)
    requires Resolve(t, comps) == Some((c, n)) && n'.name == n.name
    ensures Plug(c, n) == t && Resolve(Plug(c, n'), comps) == Some((c, n'))
    decreases |comps|
  {
    hide FirstChild, NameMatches;
    if comps != [] {
      var m := FirstChild(t.items, comps[0]).value;
      var sub := t.items[m].sub;
      ResolveChanged(sub, comps[1..], c.inner, n, n');
      assert t.items == t.items[..m] + [N(sub)] + t.items[m + 1..];
      PlugName(c.inner, n, n');
      ChildReplaced(t.items, comps[0], m, Plug(c.inner, n'));
    }
  }

  // A subnode of the same name is found in the same place.
  lemma ChildReplaced(items: seq<Item>, s: bytes, m: nat, sub': Tree)
    requires FirstChild(items, s) == Some(m) && sub'.name == items[m].sub.name
    ensures var items' := items[..m] + [N(sub')] + items[m + 1..];
            && FirstChild(items', s) == Some(m) && items'[m] == N(sub')
            && items'[..m] == items[..m] && items'[m + 1..] == items[m + 1..]
  {
    FirstChildIs(items[..m] + [N(sub')] + items[m + 1..], s, m);
  }

  lemma PlugName(c: Ctx, n: Tree, n': Tree)
    requires n'.name == n.name
    ensures Plug(c, n').name == Plug(c, n).name
  {
  }

  lemma FirstChildIs(items: seq<Item>, s: bytes, m: nat)
    requires m < |items| && items[m].N? && NameMatches(items[m].sub.name, s)
    requires forall k :: 0 <= k < m && items[k].N? ==> !NameMatches(items[k].sub.name, s)
    ensures FirstChild(items, s) == Some(m)
  {
  }

  // The node after the first i parameters were patched.
  function WithPara(n: Tree, para: seq<nat>, i: nat): Tree
    requires i <= |para| && i <= DRAM_PARA_COUNT && forall k :: 0 <= k < |para| ==> para[k] < WORD
  {
    if i == 0 then n else WithProp(WithPara(n, para, i - 1), WriterName(i - 1), Enc32(para[i - 1]))
  }

  // Patched parameters read back, the others are as they were.
  lemma {:induction false} WithParaReads(n: Tree, para: seq<nat>, i: nat, j: nat)
    requires i <= |para| && i <= DRAM_PARA_COUNT && forall k :: 0 <= k < |para| ==> para[k] < WORD
    requires j < DRAM_PARA_COUNT
    ensures WithPara(n, para, i).name == n.name
    ensures Lookup(WithPara(n, para, i), WriterName(j)) ==
              if j < i then Some(Enc32(para[j])) else Lookup(n, WriterName(j))
    decreases i
  {
    hide Lookup, WithProp, WriterName, Enc32;
    if i > 0 {
      var before := WithPara(n, para, i - 1);
      WithParaReads(n, para, i - 1, j);
      if j != i - 1 {
        NamesDiffer(j, i - 1);
      }
      WithPropReads(before, WriterName(i - 1), Enc32(para[i - 1]), WriterName(j));
      WithPropName(before, WriterName(i - 1), Enc32(para[i - 1]));
    }
  }

  lemma WithPropName(t: Tree, name: bytes, v: bytes)
    ensures WithProp(t, name, v).name == t.name
  {
  }

  lemma AllPatched(t: Tree, c: Ctx, n: Tree, para: seq<nat>)
    requires Resolve(t, [DRAM]) == Some((c, n))
    requires |para| == DRAM_PARA_COUNT && forall k :: 0 <= k < |para| ==> para[k] < WORD
    ensures ParaIs(Plug(c, WithPara(n, para, DRAM_PARA_COUNT)), para)
  {
    hide Resolve, WithPara, Lookup;
    var n' := WithPara(n, para, DRAM_PARA_COUNT);
    WithParaReads(n, para, DRAM_PARA_COUNT, 0);
    ResolveChanged(t, [DRAM], c, n, n');
    forall i: nat | i < DRAM_PARA_COUNT
      ensures IsWord(Lookup(n', WriterName(i))) && Be32(Lookup(n', WriterName(i)).value, 0) == para[i]
    {
      WithParaReads(n, para, DRAM_PARA_COUNT, i);
    }
  }

  // A blob handed over for patching or parsing.
  ghost predicate Handed(s: bytes) {
    && Walkable(s) && Separate(s) && Resolved(Chunks(s), StringBlock(s))
    && NodeOrRefused(s, 0, 0)
  }

  // The byte x lies in the four-byte value of one of the first i parameters of
  // the node opened by chunk k.
  ghost predicate InCell(s: bytes, k: nat, i: nat, x: int)
    requires Readable(s) && i <= DRAM_PARA_COUNT
  {
    exists j: nat, kp: nat :: j < i && IsCell(s, k, j, kp) && CellStart(s, kp) <= x < CellStart(s, kp) + 4
  }

  // Chunk kp is the property of parameter j in the node opened by chunk k, and
  // its value is one cell.
  ghost predicate IsCell(s: bytes, k: nat, j: nat, kp: nat)
    requires Readable(s) && j < DRAM_PARA_COUNT
  {
    PropChunk(Chunks(s), StringBlock(s), WriterName(j), k, kp) && |TokenOf(Chunks(s)[kp]).value.value| == 4
  }

  ghost function CellStart(s: bytes, kp: nat): nat
    requires Readable(s) && kp < |Chunks(s)|
  {
    Hdr(s, OFF_STRUCT) + Off(Chunks(s), kp) + 12
  }

  // Only bytes of the first i cells differ.
  ghost predicate OnlyCells(s: bytes, s': bytes, k: nat, i: nat)
    requires Readable(s) && i <= DRAM_PARA_COUNT
  {
    && |s'| == |s|
    && forall x :: 0 <= x < |s| && s'[x] != s[x] ==> InCell(s, k, i, x)
  }

  lemma OneMoreCellChanged(s: bytes, s1: bytes, s2: bytes, k: nat, i: nat, kp: nat, b: bytes)
    requires SameTags(s, s1) && i < DRAM_PARA_COUNT && OnlyCells(s, s1, k, i) && |b| == 4
    requires IsCell(s1, k, i, kp) && CellStart(s1, kp) + 4 <= |s1| && s2 == Put(s1, CellStart(s1, kp), b)
    ensures OnlyCells(s, s2, k, i + 1)
  {
    hide Chunks, TokenOf, Off, WriterName, NameAt, CheckHeader;
    SameTagsProp(s, s1, WriterName(i), k, kp);
    var p := CellStart(s, kp);
    forall x | 0 <= x < |s| && s2[x] != s[x] ensures InCell(s, k, i + 1, x) {
      if p <= x < p + 4 {
        assert IsCell(s, k, i, kp);
      } else {
        assert s2[x] == s1[x];
        var j: nat, kj: nat :| j < i && IsCell(s, k, j, kj) && CellStart(s, kj) <= x < CellStart(s, kj) + 4;
        assert j < i + 1;
      }
    }
  }

  // One cell: fdt_getprop's length test, then fdt_setprop_inplace_u32.
  method PatchOne(a: array<byte>, node: int32, name: bytes, v: nat, ghost k: nat) returns (ok: bool, ghost kp: nat)
    requires Editable(a[..], k, node) && OnNode(a[..], k, node) && v < WORD && name != []
    modifies a
    ensures Editable(a[..], k, node) && OnNode(a[..], k, node)
    ensures SameTo(old(a[..]), a[..], k + 1)
    ensures !ok ==> a[..] == old(a[..])
    ensures ok ==>
              && SameTags(old(a[..]), a[..])
              && PropChunk(Chunks(old(a[..])), StringBlock(old(a[..])), name, k, kp)
              && |TokenOf(Chunks(old(a[..]))[kp]).value.value| == 4
              && CellStart(old(a[..]), kp) + 4 <= a.Length
              && a[..] == Put(old(a[..]), CellStart(old(a[..]), kp), Enc32(v))
    ensures forall c, n :: NodeHere(old(a[..]), k, c, n) ==>
              ok == IsWord(Lookup(n, name)) && (ok ==> NodeHere(a[..], k, c, WithProp(n, name, Enc32(v))))
  {
    hide Walk, Decodes, NextTag, EventsOf, Off, TokenOf, NodeHere, CheckHeader, Lookup, Chunks, Separate, Put, Flat;
    hide Be32, Enc32, ChunkResolved, NameAt, WithProp, SameTags;
    ghost var s := a[..];
    kp := 0;
    NotBoth(s, k, node);
    var data, len;
    data, len, kp := FdtGetProp(a[..], node, name, k);
    assert data != -1 ==>
             forall c, n :: NodeHere(s, k, c, n) ==> Lookup(n, name).Some? && |Lookup(n, name).value| == len;
    if data == -1 || len != 4 {
      return false, kp;
    }
    var err;
    err, kp := SetPropInplace(a, node, name, Enc32(v), k);
    if err != 0 {
      return false, kp;
    }
    EarlierChunks(Chunks(a[..]), Chunks(s), k + 1, kp);
    ok := true;
  }

  lemma EarlierChunks(x: chunks, y: chunks, i: nat, k: nat)
    requires i <= k <= |x| && k <= |y| && x[..k] == y[..k]
    ensures x[..i] == y[..i]
  {
    assert x[..i] == x[..k][..i] && y[..i] == y[..k][..i];
  }

  // The blob s after the first i cells of the node opened by chunk k were
  // patched.
  ghost predicate Patching(s: bytes, s': bytes, k: nat, node: int32, para: seq<nat>, i: nat) {
    && i <= DRAM_PARA_COUNT && |para| == DRAM_PARA_COUNT && (forall j :: 0 <= j < |para| ==> para[j] < WORD)
    && Readable(s) && Readable(s')
    && Editable(s', k, node) && OnNode(s', k, node)
    && SameTo(s, s', k + 1) && SameTags(s, s')
    && CellsPatched(s, s', k, para, i)
  }

  ghost predicate SameTo(s: bytes, s': bytes, m: nat)
  {
    Readable(s) && Readable(s') && m <= |Chunks(s')| && m <= |Chunks(s)| && Chunks(s')[..m] == Chunks(s)[..m]
  }

  ghost predicate CellsPatched(s: bytes, s': bytes, k: nat, para: seq<nat>, i: nat)
    requires i <= DRAM_PARA_COUNT && |para| == DRAM_PARA_COUNT && forall j :: 0 <= j < |para| ==> para[j] < WORD
    requires Readable(s) && Readable(s')
  {
    forall c, n :: NodeHere(s, k, c, n) ==> WordsTo(n, i) && NodeHere(s', k, c, WithPara(n, para, i))
  }

  ghost predicate WordsTo(n: Tree, i: nat)
    requires i <= DRAM_PARA_COUNT
  {
    forall j: nat :: j < i ==> IsWord(Lookup(n, WriterName(j)))
  }

  lemma PatchStart(s: bytes, k: nat, node: int32, para: seq<nat>)
    requires Editable(s, k, node) && OnNode(s, k, node)
    requires |para| == DRAM_PARA_COUNT && forall j :: 0 <= j < |para| ==> para[j] < WORD
    ensures Patching(s, s, k, node, para, 0) && Readable(s)
  {
    hide Walk, Decodes, NextTag, EventsOf, Off, TokenOf, NodeHere, CheckHeader, Lookup, Separate, Flat;
  }

  lemma PatchStep(s: bytes, s1: bytes, s2: bytes, k: nat, node: int32, para: seq<nat>, i: nat, ok: bool)
    requires Patching(s, s1, k, node, para, i) && i < DRAM_PARA_COUNT
    requires Editable(s2, k, node) && OnNode(s2, k, node)
    requires SameTo(s1, s2, k + 1) && (ok ==> SameTags(s1, s2))
    requires forall c, n :: NodeHere(s1, k, c, n) ==>
               && ok == IsWord(Lookup(n, WriterName(i)))
               && (ok ==> NodeHere(s2, k, c, WithProp(n, WriterName(i), Enc32(para[i]))))
    ensures ok ==> Patching(s, s2, k, node, para, i + 1)
    ensures !ok ==> forall c, n :: NodeHere(s, k, c, n) ==> !WordsTo(n, DRAM_PARA_COUNT)
  {
    hide Walk, Decodes, NextTag, EventsOf, Off, TokenOf, NodeHere, CheckHeader, Lookup, Chunks, Separate, Flat;
    hide Be32, Enc32, ChunkResolved, NameAt, WithProp, WithPara, WriterName, Editable, OnNode, IsWord, Readable;
    hide SameTags;
    NextWithPara(para, i);
    if ok {
      SameTagsOn(s, s1, s2);
    }
    forall c, n | NodeHere(s, k, c, n)
      ensures IsWord(Lookup(n, WriterName(i))) == ok
      ensures ok ==> NodeHere(s2, k, c, WithPara(n, para, i + 1))
    {
      WithParaReads(n, para, i, i);
      assert NodeHere(s1, k, c, WithPara(n, para, i));
    }
  }

  method PatchAll(a: array<byte>, node: int32, para: seq<nat>, ghost k: nat) returns (r: int)
    requires Editable(a[..], k, node) && OnNode(a[..], k, node)
    requires |para| == DRAM_PARA_COUNT && forall j :: 0 <= j < |para| ==> para[j] < WORD
    modifies a
    ensures r == 0 || r == -1
    ensures r == 0 ==> Patching(old(a[..]), a[..], k, node, para, DRAM_PARA_COUNT)
    ensures r == -1 ==> forall c, n :: NodeHere(old(a[..]), k, c, n) ==> !WordsTo(n, DRAM_PARA_COUNT)
    ensures OnlyCells(old(a[..]), a[..], k, DRAM_PARA_COUNT)
  {
    hide Walk, Decodes, NextTag, EventsOf, Off, TokenOf, NodeHere, CheckHeader, Lookup, Chunks, Separate, Put, Flat;
    hide Be32, Enc32, ChunkResolved, NameAt, WithProp, WithPara, OnlyCells, WriterName, Editable, OnNode, WordsTo;
    hide SameTo;
    hide Patching, IsWord, SameTags, CellStart, PropChunk;
    ghost var s := a[..];
    PatchStart(s, k, node, para);
    NothingChanged(s, k);
    var index := 0;
    while index < DRAM_PARA_COUNT
      invariant 0 <= index <= DRAM_PARA_COUNT
      invariant Patching(s, a[..], k, node, para, index)
      invariant OnlyCells(s, a[..], k, index)
    {
      var ok;
      ghost var kp;
      ghost var s1 := a[..];
      StillPatching(s, s1, k, node, para, index);
      ok, kp := PatchOne(a, node, WriterName(index), para[index], k);
      PatchStep(s, s1, a[..], k, node, para, index, ok);
      if !ok {
        CellsAmong(s, s1, k, index);
        return -1;
      }
      OneMoreCellChanged(s, s1, a[..], k, index, kp, Enc32(para[index]));
      index := index + 1;
    }
    return 0;
  }

  lemma StillPatching(s: bytes, s1: bytes, k: nat, node: int32, para: seq<nat>, i: nat)
    requires Patching(s, s1, k, node, para, i) && i < DRAM_PARA_COUNT
    ensures Editable(s1, k, node) && OnNode(s1, k, node) && NoNul(WriterName(i))
    ensures SameTags(s, s1)
  {
    hide Walk, Decodes, NextTag, EventsOf, Off, TokenOf, NodeHere, CheckHeader, Lookup, Chunks, Separate, Flat;
  }

  lemma NothingChanged(s: bytes, k: nat)
    requires Readable(s)
    ensures OnlyCells(s, s, k, 0) && OnlyCells(s, s, k, DRAM_PARA_COUNT)
  {
  }

  lemma CellsAmong(s: bytes, s': bytes, k: nat, i: nat)
    requires Readable(s) && i <= DRAM_PARA_COUNT && OnlyCells(s, s', k, i)
    ensures OnlyCells(s, s', k, DRAM_PARA_COUNT)
  {
    hide CellStart, Chunks, TokenOf, WriterName, NameAt;
    forall x | 0 <= x < |s| && s'[x] != s[x] ensures InCell(s, k, DRAM_PARA_COUNT, x) {
      var j: nat, kp: nat :| j < i && IsCell(s, k, j, kp) && CellStart(s, kp) <= x < CellStart(s, kp) + 4;
      assert j < DRAM_PARA_COUNT && IsCell(s, k, j, kp);
    }
  }

  lemma NextWithPara(para: seq<nat>, i: nat)
    requires i < |para| && i < DRAM_PARA_COUNT && forall j :: 0 <= j < |para| ==> para[j] < WORD
    ensures forall n :: WithPara(n, para, i + 1) == WithProp(WithPara(n, para, i), WriterName(i), Enc32(para[i]))
  {
    hide WriterName, WithProp, Enc32;
  }

  // The checks before anything is looked up.
  predicate Accepted(s: bytes, loadedSize: nat, count: nat)
    requires HEADER_SIZE <= |s|
  {
    count == DRAM_PARA_COUNT && CheckHeader(s) == 0 && Hdr(s, TOTALSIZE) <= loadedSize
  }

  // a733_hw_config_update_dram: all 96 cells or a failure, and no byte written
  // outside the cells of the node the path finds.
  method UpdateDram(a: array<byte>, loadedSize: nat, para: seq<nat>, count: nat)
    returns (r: int, ghost k: nat)
    requires HEADER_SIZE <= a.Length
    requires Accepted(a[..], loadedSize, count) ==> Handed(a[..])
    requires |para| == count && forall k :: 0 <= k < |para| ==> para[k] < WORD
    modifies a
    ensures r == 0 || r == -1
    ensures !Accepted(old(a[..]), loadedSize, count) ==> r == -1 && a[..] == old(a[..])
    ensures Accepted(old(a[..]), loadedSize, count) ==>
              && OnlyCells(old(a[..]), a[..], k, DRAM_PARA_COUNT)
              && (!Refused(old(a[..]), 0) ==>
                    forall t, c, n :: Denotes(old(a[..]), t) && Resolve(t, [DRAM]) == Some((c, n)) ==>
                      NodeHere(old(a[..]), k, c, n))
              && (Refused(old(a[..]), 0) ==> r == -1 && a[..] == old(a[..]))
              && (forall t :: Denotes(old(a[..]), t) && Resolve(t, [DRAM]).None? ==> a[..] == old(a[..]))
              && (r == 0 ==> Handed(a[..]) && !Refused(a[..], 0))
              && (!Refused(old(a[..]), 0) ==> forall t :: Denotes(old(a[..]), t) ==>
                    (if HasPara(t) then r == 0 else r == -1))
              && (r == 0 ==> exists t :: Denotes(a[..], t) && ParaIs(t, para))
              && (r == 0 ==> forall t, c, n :: Denotes(old(a[..]), t) && Resolve(t, [DRAM]) == Some((c, n)) ==>
                    Denotes(a[..], Plug(c, WithPara(n, para, DRAM_PARA_COUNT))))
  {
    hide Walk, Decodes, NextTag, EventsOf, Off, TokenOf, Events, Plug, Pre, NodeHere, Denotes, Resolve, CheckHeader;
    hide Lookup, WithPara, Chunks, Separate, OnlyCells, ParaIs;
    k := 0;
    ghost var s := a[..];
    if count != DRAM_PARA_COUNT || CheckHeader(a[..]) != 0 || Hdr(a[..], TOTALSIZE) > loadedSize {
      return -1, k;
    }
    DramPathOk();
    DramComponents();
    NotBoth(s, 0, 0);
    var node;
    node, k := PathOffset(a[..], DRAM_PATH);
    NothingChanged(s, k);
    if node < 0 {
      NoDramNode(s, node, k);
      return -1, k;
    }
    ghost var t := RootHere(s);
    ghost var c, n := DramNode(s, t, node, k);
    OnlyTree(s, t);
    r := PatchAll(a, node, para, k);
    Patched(s, a[..], t, c, n, para, k, r);
  }

  lemma DramPathOk()
    ensures NoNul(DRAM_PATH) && DRAM_PATH[0] == SLASH
  {
  }

  lemma NoDramNode(s: bytes, node: int, k: nat)
    requires Handed(s) && node < 0
    requires OnNode(s, 0, 0) ==>
               forall t :: Denotes(s, t) ==>
                 match Resolve(t, [DRAM])
                 case None => true
                 case Some((c, n)) => OnNode(s, k, node)
    ensures !Refused(s, 0) ==> forall t :: Denotes(s, t) ==> Resolve(t, [DRAM]).None?
  {
    hide Walk, Decodes, NextTag, TokenOf, Denotes, Resolve, CheckHeader, Lookup, Chunks, Separate;
  }

  lemma DramNode(s: bytes, t: Tree, node: int, k: nat) returns (c: Ctx, n: Tree)
    requires Handed(s) && OnNode(s, 0, 0) && Denotes(s, t) && 0 <= node
    requires match Resolve(t, [DRAM])
             case None => node == NOTFOUND
             case Some((c, n)) => OnNode(s, k, node) && NodeHere(s, k, c, n)
    ensures Resolve(t, [DRAM]) == Some((c, n)) && NodeHere(s, k, c, n) && OnNode(s, k, node)
    ensures 0 <= node < INT_LIMIT && node % 4 == 0
  {
    hide Walk, Decodes, NextTag, TokenOf, Denotes, Resolve, CheckHeader, Chunks, Separate, Off, NodeHere;
    c, n := Resolve(t, [DRAM]).value.0, Resolve(t, [DRAM]).value.1;
    StepFrom(s, k);
  }

  // After a run of PatchAll: the verdict, the tree, and the root still in place.
  lemma Patched(s: bytes, s': bytes, t: Tree, c: Ctx, n: Tree, para: seq<nat>, k: nat, r: int)
    requires Handed(s) && OnNode(s, 0, 0) && Denotes(s, t)
    requires Resolve(t, [DRAM]) == Some((c, n)) && NodeHere(s, k, c, n)
    requires |para| == DRAM_PARA_COUNT && forall j :: 0 <= j < |para| ==> para[j] < WORD
    requires r == 0 || r == -1
    requires r == 0 ==> exists node: int32 :: Patching(s, s', k, node, para, DRAM_PARA_COUNT)
    requires r == -1 ==> !WordsTo(n, DRAM_PARA_COUNT)
    ensures forall u :: Denotes(s, u) ==> if HasPara(u) then r == 0 else r == -1
    ensures r == 0 ==> Handed(s') && !Refused(s', 0) && exists u :: Denotes(s', u) && ParaIs(u, para)
    ensures r == 0 ==> forall u, c, n :: Denotes(s, u) && Resolve(u, [DRAM]) == Some((c, n)) ==>
              Denotes(s', Plug(c, WithPara(n, para, DRAM_PARA_COUNT)))
  {
    hide Walk, Decodes, NextTag, TokenOf, Resolve, CheckHeader, Chunks, Separate, Off, EventsOf, Lookup, WithPara;
    hide Events, Plug, Resolved, Flat;
    forall u | Denotes(s, u) ensures u == t {
      DenotesOneTree(s, t, u);
    }
    if r == 0 {
      AllPatched(t, c, n, para);
      var t' := Plug(c, WithPara(n, para, DRAM_PARA_COUNT));
      assert Denotes(s', t');
      assert Chunks(s')[0] == Chunks(s')[..k + 1][0] == Chunks(s)[0];
      RootStays(s', t');
    }
  }

  lemma RootStays(s: bytes, t: Tree)
    requires Walkable(s) && Denotes(s, t)
    requires |Chunks(s)| > 0 && TokenOf(Chunks(s)[0]).Some? && TokenOf(Chunks(s)[0]).value.Begin?
    ensures NodeOrRefused(s, 0, 0) && !Refused(s, 0)
  {
    hide Walk, Decodes, NextTag, TokenOf, CheckHeader, EventsOf;
    var c, n := OpeningTagIsNode(s, 0, t);
    assert Chunks(s)[..0] == [];
    FlatNone();
    OnNodeNotRefused(s, 0, 0);
  }

  // The parameters read from the node so far.
  ghost predicate CellsTo(n: Tree, cells: seq<nat>) {
    && |cells| <= DRAM_PARA_COUNT && WordsTo(n, |cells|)
    && forall j: nat :: j < |cells| ==> Be32(Lookup(n, WriterName(j)).value, 0) == cells[j]
  }

  lemma OneMoreCell(n: Tree, cells: seq<nat>, v: bytes)
    requires CellsTo(n, cells) && |cells| < DRAM_PARA_COUNT
    requires Lookup(n, WriterName(|cells|)) == Some(v) && |v| == 4
    ensures CellsTo(n, cells + [Be32(v, 0)])
  {
    hide Lookup, WriterName, Be32;
  }

  lemma CellsArePara(t: Tree, c: Ctx, n: Tree, cells: seq<nat>)
    requires Resolve(t, [DRAM]) == Some((c, n)) && CellsTo(n, cells) && |cells| == DRAM_PARA_COUNT
    ensures HasPara(t) && ParaIs(t, cells)
  {
    hide Lookup, WriterName, Be32, Resolve;
  }

  lemma NoCells(n: Tree)
    ensures CellsTo(n, [])
  {
  }

  lemma NotPara(t: Tree, c: Ctx, n: Tree, i: nat)
    requires Resolve(t, [DRAM]) == Some((c, n)) && i < DRAM_PARA_COUNT && !IsWord(Lookup(n, WriterName(i)))
    ensures !HasPara(t)
  {
    hide Lookup, WriterName, Resolve, IsWord;
  }

  lemma CellAt(st: bytes, p: nat)
    requires p + 4 <= |st|
    ensures Be32(st[p..p + 4], 0) == Be32(st, p)
  {
  }

  lemma OnlyTree(s: bytes, t: Tree)
    requires Denotes(s, t)
    ensures forall u :: Denotes(s, u) ==> u == t
  {
    hide Denotes;
    forall u | Denotes(s, u) ensures u == t {
      DenotesOneTree(s, t, u);
    }
  }

  // The reader of dram_dts_para_v2.c and its table dts_dram_para.
  class DramDts {
    const cells: array<nat>

    ghost predicate Valid() {
      cells.Length == DRAM_PARA_COUNT
    }

    constructor ()
      ensures Valid() && fresh(cells)
    {
      cells := new nat[DRAM_PARA_COUNT](_ => 0);
    }

    // One turn of the loop: the property named by sprintf, if it is one cell.
    method ReadOne(s: bytes, node: int32, i: nat, ghost k: nat) returns (v: int)
      requires Walkable(s) && Resolved(Chunks(s), StringBlock(s)) && OnNode(s, k, node)
      requires NodeOrRefused(s, k, node) && i < DRAM_PARA_COUNT
      ensures v >= -1
      ensures forall c, n :: NodeHere(s, k, c, n) ==>
                var w := Lookup(n, WriterName(i));
                if IsWord(w) then v == Be32(w.value, 0) else v == -1
    {
      hide Walk, Decodes, NextTag, EventsOf, Off, TokenOf, NodeHere, CheckHeader, Lookup, Chunks, Flat, WriterName;
      hide ChunkResolved, NameAt, Be32, OnNode, NodeOrRefused, Decimal;
      NamesAgree(i);
      var digits := Itoa(i);
      var name := if i < 10 then DRAM_PARA + [ZERO] + digits else DRAM_PARA + digits;
      assert name == ReaderName(i);
      var data, len;
      ghost var kp;
      NotBoth(s, k, node);
      data, len, kp := FdtGetProp(s, node, name, k);
      if data == -1 || len != 4 {
        return -1;
      }
      CellAt(StructBlock(s), data);
      return Be32(StructBlock(s), data);
    }

    // dram_dts_parse: every cell, or nothing.
    method Parse(s: bytes) returns (ok: bool)
      requires Valid() && HEADER_SIZE <= |s|
      requires CheckHeader(s) == 0 ==> Handed(s)
      modifies cells
      ensures CheckHeader(s) != 0 || Refused(s, 0) ==> !ok && cells[..] == old(cells[..])
      ensures CheckHeader(s) == 0 && !Refused(s, 0) ==>
                forall t :: Denotes(s, t) ==>
                  if Resolve(t, [DRAM]).None? then !ok && cells[..] == old(cells[..])
                  else if HasPara(t) then ok && ParaIs(t, cells[..])
                  else !ok && cells[..] == seq(DRAM_PARA_COUNT, _ => 0)
    {
      hide Walk, Decodes, NextTag, EventsOf, Off, TokenOf, Events, Plug, Pre, NodeHere, Denotes, Resolve, CheckHeader;
      hide Lookup, Chunks, Separate, ParaIs, WriterName, Be32, CellsTo, WordsTo;
      if CheckHeader(s) != 0 {
        return false;
      }
      DramPathOk();
      DramComponents();
      NotBoth(s, 0, 0);
      var node;
      ghost var k;
      node, k := PathOffset(s, DRAM_PATH);
      if node < 0 {
        NoDramNode(s, node, k);
        return false;
      }
      ghost var t := RootHere(s);
      ghost var c, n := DramNode(s, t, node, k);
      OnlyTree(s, t);
      NoCells(n);
      assert cells[..0] == [];
      var i := 0;
      while i < DRAM_PARA_COUNT
        invariant 0 <= i <= DRAM_PARA_COUNT && CellsTo(n, cells[..i])
      {
        var v := ReadOne(s, node, i, k);
        ghost var was := cells[..i];
        if v == -1 {
          var j := 0;
          while j < cells.Length
            invariant 0 <= j <= cells.Length && forall x :: 0 <= x < j ==> cells[x] == 0
          {
            cells[j] := 0;
            j := j + 1;
          }
          NotPara(t, c, n, i);
          return false;
        }
        cells[i] := v;
        assert cells[..i + 1] == was + [v];
        OneMoreCell(n, was, Lookup(n, WriterName(i)).value);
        i := i + 1;
      }
      assert cells[..i] == cells[..];
      CellsArePara(t, c, n, cells[..]);
      return true;
    }
  }

  // What boot0 hands over is what the AR100S gets.
  method HandOver(a: array<byte>, loadedSize: nat, para: seq<nat>, dts: DramDts) returns (r: int, ok: bool)
    requires HEADER_SIZE <= a.Length && dts.Valid()
    requires Accepted(a[..], loadedSize, |para|) ==> Handed(a[..])
    requires forall k :: 0 <= k < |para| ==> para[k] < WORD
    modifies a, dts.cells
    ensures r == 0 ==> ok && dts.cells[..] == para
  {
    hide Walk, Decodes, NextTag, TokenOf, Denotes, CheckHeader, Handed, ParaIs;
    ghost var k;
    r, k := UpdateDram(a, loadedSize, para, |para|);
    if r == 0 {
      ghost var t :| Denotes(a[..], t) && ParaIs(t, para);
      ParaResolves(t, para);
      HandedHeader(a[..]);
      ok := dts.Parse(a[..]);
      OnePara(t, para, dts.cells[..]);
    } else {
      ok := false;
    }
  }

  lemma ParaResolves(t: Tree, para: seq<nat>)
    requires ParaIs(t, para)
    ensures HasPara(t) && Resolve(t, [DRAM]).Some?
  {
    hide Resolve, Lookup;
  }

  lemma HandedHeader(s: bytes)
    requires Handed(s)
    ensures CheckHeader(s) == 0
  {
    hide Decodes, Walk;
  }

  lemma OnePara(t: Tree, x: seq<nat>, y: seq<nat>)
    requires ParaIs(t, x) && ParaIs(t, y)
    ensures x == y
  {
    hide Resolve, Lookup, WriterName, Be32;
    forall j | 0 <= j < DRAM_PARA_COUNT ensures x[j] == y[j] {
      assert Be32(Lookup(Resolve(t, [DRAM]).value.1, WriterName(j)).value, 0) == x[j];
    }
  }
}
