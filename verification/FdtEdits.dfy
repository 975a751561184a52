// The editors of fdt_wip.c, fdt_rw.c and the readers of fdt_ro.c side by side.
module FdtEdits {
  import opened ByteStrings
  import opened FdtFormat
  import opened FdtTree
  import opened FdtBlob
  import opened FdtNode
  import opened FdtWalk
  import opened FdtProps
  import opened FdtWip
  import opened FdtSplice
  import opened FdtRw

  // A blob and a node of it that every editor takes.
  ghost predicate Editing(s: bytes, i: nat, nodeoffset: int32) {
    && Callable(s, i, nodeoffset) && RwCheck(s) == 0 && Editable(s, i, nodeoffset) && OnNode(s, i, nodeoffset)
  }

  lemma SomeNode(s: bytes, i: nat, nodeoffset: int32) returns (c: Ctx, n: Tree)
    requires Editing(s, i, nodeoffset)
    ensures Readable(s) && NodeHere(s, i, c, n)
  {
    hide Walk, Decodes, NextTag, Off, TokenOf, Resolved, NodeHere, Separate, CheckHeader;
    NotBoth(s, i, nodeoffset);
    c, n :| NodeHere(s, i, c, n);
  }

  // fdt_nop_property and fdt_delprop on two copies of a blob: the same verdict
  // and, where there was such a property, the same tree.
  method NopOrDeleteProperty(a: array<byte>, b: array<byte>, nodeoffset: int32, name: bytes, ghost i: nat)
    returns (nop: int, del: int)
    requires a != b && a[..] == b[..] && Editing(a[..], i, nodeoffset) && name != []
    modifies a, b
    ensures nop == del
    ensures nop == 0 ==> exists t :: Denotes(a[..], t) && Denotes(b[..], t)
  {
    hide Walk, Decodes, NextTag, Off, TokenOf, Resolved, NodeHere, Separate, CheckHeader, Denotes, OnlyErased;
    hide PropChunk;
    hide FindProp, Plug, WithoutProp, Chunks, SameFrame;
    ghost var c, n := SomeNode(a[..], i, nodeoffset);
    ghost var k;
    nop, k := NopProperty(a, nodeoffset, name, i);
    del := DelProp(b, nodeoffset, name, i);
  }

  // fdt_nop_node and fdt_del_node on two copies: the same tree below the root,
  // and none left of the root.
  method NopOrDeleteNode(a: array<byte>, b: array<byte>, nodeoffset: int32, ghost i: nat)
    returns (nop: int, del: int)
    requires a != b && a[..] == b[..] && Editing(a[..], i, nodeoffset)
    modifies a, b
    ensures nop == 0 && del == 0
    ensures (exists c, n :: NodeHere(old(a[..]), i, c, n) && c.Under?) ==>
              exists t :: Denotes(a[..], t) && Denotes(b[..], t)
    ensures forall t :: Denotes(a[..], t) <==> Denotes(b[..], t)
  {
    hide Walk, Decodes, NextTag, Off, TokenOf, Resolved, NodeHere, Separate, CheckHeader, Denotes, OnlyErased, NodeEnd;
    hide Plug, Cut, Chunks, SameFrame;
    ghost var c, n := SomeNode(a[..], i, nodeoffset);
    ghost var j;
    nop, j := NopNode(a, nodeoffset, i);
    del := DelNode(b, nodeoffset, i);
    SameWithout(a[..], b[..], c);
  }

  lemma SameWithout(s: bytes, s': bytes, c: Ctx)
    requires TreeWithout(s, c) && TreeWithout(s', c)
    ensures forall t :: Denotes(s, t) <==> Denotes(s', t)
  {
    hide Denotes, Cut;
    if c.Under? {
      forall t ensures Denotes(s, t) <==> Denotes(s', t) {
        if Denotes(s, t) {
          DenotesOneTree(s, t, Cut(c));
        }
        if Denotes(s', t) {
          DenotesOneTree(s', t, Cut(c));
        }
      }
    }
  }

  // fdt_setprop, then fdt_getprop: the value comes back, and nothing else of
  // the node reads differently.
  method SetThenGet(a: array<byte>, nodeoffset: int32, name: bytes, val: bytes, other: bytes, ghost i: nat)
    returns (err: int, got: bytes, rest: Option<bytes>)
    requires Editing(a[..], i, nodeoffset) && |val| < INT_LIMIT && NoNul(name) && name != [] && other != []
    modifies a
    ensures err == 0 || err == NOSPACE
    ensures err == 0 ==> got == val
    ensures err == 0 && other != name ==>
              forall c, n :: NodeHere(old(a[..]), i, c, n) ==> rest == Lookup(n, other)
  {
    hide Walk, Decodes, NextTag, Off, TokenOf, NodeHere, Separate, CheckHeader, Denotes, WithProp, Lookup;
    hide Growth, SameFrame, Chunks, PropChunk, Editable, Callable, NodeOrRefused;
    ghost var s := a[..];
    ghost var c, n := SomeNode(s, i, nodeoffset);
    ghost var k;
    err, k := SetProp(a, nodeoffset, name, val, i);
    got, rest := [], None;
    if err != 0 {
      return;
    }
    ghost var n' := WithProp(n, name, val);
    WithPropReads(n, name, val, other);
    got, rest := ReadTwo(a[..], nodeoffset, name, other, i, c, n');
    forall d, m | NodeHere(s, i, d, m) ensures other != name ==> rest == Lookup(m, other) {
      SameNodeHere(s, i, c, n, d, m);
    }
  }

  method ReadTwo(s: bytes, nodeoffset: int32, name: bytes, other: bytes, ghost i: nat, ghost c: Ctx, ghost n: Tree)
    returns (got: bytes, rest: Option<bytes>)
    requires Editable(s, i, nodeoffset) && OnNode(s, i, nodeoffset) && NodeHere(s, i, c, n)
    requires Lookup(n, name).Some? && name != [] && other != []
    ensures Lookup(n, name) == Some(got) && rest == Lookup(n, other)
  {
    hide Walk, Decodes, NextTag, Off, TokenOf, NodeHere, Separate, CheckHeader, Lookup, Chunks, PropChunk;
    NotBoth(s, i, nodeoffset);
    var data, len;
    ghost var k;
    data, len, k := FdtGetProp(s, nodeoffset, name, i);
    got := StructBlock(s)[data..data + len];
    data, len, k := FdtGetProp(s, nodeoffset, other, i);
    rest := if data == -1 then None else Some(StructBlock(s)[data..data + len]);
  }

  // One chunk opens one node.
  lemma SameNodeHere(s: bytes, i: nat, c: Ctx, n: Tree, d: Ctx, m: Tree)
    requires Readable(s) && NodeHere(s, i, c, n) && NodeHere(s, i, d, m)
    ensures n == m
  {
    hide Walk, Decodes, TokenOf, EventsOf, CheckHeader, Pre, Post, Plug;
    NodeEvents(Chunks(s), StringBlock(s), i, c, n);
    NodeEvents(Chunks(s), StringBlock(s), i, d, m);
    EventsInjective(n, m, Post(c), Post(d));
  }
}
