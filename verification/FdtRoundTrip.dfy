// Printing a node's path and looking the path up again.
module FdtRoundTrip {
  import opened ByteStrings
  import opened FdtFormat
  import opened FdtTree
  import opened FdtBlob
  import opened FdtWalk
  import opened FdtChild
  import opened FdtPath
  import opened FdtGetPath

  // The names below the root on the way to the hole and the node in it.
  function Below(c: Ctx, n: Tree): seq<bytes> {
    match c
    case Hole => []
    case Under(_, _, inner, _) => [Plug(inner, n).name] + Below(inner, n)
  }

  lemma {:induction false} NamesBelow(c: Ctx, n: Tree)
    ensures NamesOf(c, n) == [Plug(c, n).name] + Below(c, n)
  {
    match c
    case Hole =>
    case Under(name, _, inner, _) =>
      NamesBelow(inner, n);
      Cat3([name], Above(inner), [n.name]);
  }

  // No earlier sibling on the way answers to the name, in full or without its
  // unit address.
  predicate Unshadowed(c: Ctx, n: Tree) {
    match c
    case Hole => true
    case Under(_, before, inner, _) =>
      && (forall m :: 0 <= m < |before| && before[m].N? ==> !NameMatches(before[m].sub.name, Plug(inner, n).name))
      && Unshadowed(inner, n)
  }

  // Following a node's own names leads back to it exactly when it is not shadowed.
  lemma {:induction false} NamesLeadBack(c: Ctx, n: Tree)
    ensures Resolve(Plug(c, n), Below(c, n)) == Some((c, n)) <==> Unshadowed(c, n)
    decreases c
  {
    match c
    case Hole =>
    case Under(name, before, inner, after) =>
      NamesLeadBack(inner, n);
      var sub := Plug(inner, n);
      var items := before + [N(sub)] + after;
      assert Plug(c, n).items == items && items[|before|] == N(sub);
      assert NameMatches(sub.name, sub.name);
      var m := FirstChild(items, sub.name).value;
      assert items[..|before|] == before && items[|before| + 1..] == after;
      assert Below(c, n)[1..] == Below(inner, n);
      if m == |before| {
        assert forall k :: 0 <= k < |before| ==> items[k] == before[k];
      } else {
        assert m < |before| && items[m] == before[m];
        assert |items[..m]| != |before|;
      }
  }

  // A node "a" behind a sibling "a@1": its path leads to the sibling.
  lemma ShadowedNode() returns (c: Ctx, n: Tree)
    ensures PlainPath(c, n) && !Unshadowed(c, n)
    ensures exists d: Ctx, m: Tree ::
              Resolve(Plug(c, n), Below(c, n)) == Some((d, m)) && m.name == [97, 64, 49] && n.name == [97]
  {
    var first := Tree([97, 64, 49], []);
    n := Tree([97], []);
    c := Under([], [N(first)], Hole, []);
    assert Below(c, n) == [[97]];
    var items := Plug(c, n).items;
    assert items == [N(first), N(n)];
    assert NameMatches(first.name, [97]) by {
      assert first.name[..1] == [97];
    }
    assert FirstChild(items, [97]) == Some(0);
    assert Below(c, n)[1..] == [];
    assert Resolve(first, []) == Some((Hole, first));
    assert Resolve(Plug(c, n), Below(c, n)) == Some((Under([], items[..0], Hole, items[1..]), first));
  }

  // Names a path can be made of.
  predicate PlainName(name: bytes) {
    name != [] && SLASH !in name && NoNul(name)
  }

  ghost predicate PlainPath(c: Ctx, n: Tree) {
    && Plug(c, n).name == []
    && forall i :: 0 <= i < |Below(c, n)| ==> PlainName(Below(c, n)[i])
  }

  // A slash before each name.
  function Slashed(names: seq<bytes>): bytes {
    if names == [] then [] else [SLASH] + names[0] + Slashed(names[1..])
  }

  lemma {:induction false} SlashedLast(names: seq<bytes>, name: bytes)
    ensures Slashed(names + [name]) == Slashed(names) + [SLASH] + name
  {
    if names == [] {
      assert (names + [name])[1..] == [];
    } else {
      SlashedLast(names[1..], name);
      assert (names + [name])[1..] == names[1..] + [name];
      var (s, a, b) := ([SLASH], names[0], Slashed(names[1..]));
      assert s + a + (b + s + name) == s + a + b + s + name;
    }
  }

  lemma {:induction false} TextIsSlashed(names: seq<bytes>)
    ensures Text([[]] + names) == Slashed(names) + [SLASH]
    decreases |names|
  {
    hide Text, Slashed;
    if names == [] {
      assert [[]] + names == [] + [[]];
      TextNext([], []);
      NothingSlashed();
    } else {
      var (init, last) := (names[..|names| - 1], names[|names| - 1]);
      TextIsSlashed(init);
      SlashedLast(init, last);
      assert names == init + [last];
      assert [[]] + names == ([[]] + init) + [last];
      TextNext([[]] + init, last);
    }
  }

  lemma NothingSlashed()
    ensures Text([]) == [] && Slashed([]) == []
  {
  }

  lemma {:induction false} SlashedComponents(names: seq<bytes>)
    requires forall i :: 0 <= i < |names| ==> PlainName(names[i])
    ensures Components(Slashed(names)) == names
  {
    if names != [] {
      var path := Slashed(names);
      var rest := Slashed(names[1..]);
      assert path[1..] == names[0] + rest;
      SlashedComponents(names[1..]);
      assert rest == [] || rest[0] == SLASH;
      SlashAtName(names[0], rest);
      assert (names[0] + rest)[..|names[0]|] == names[0];
      assert (names[0] + rest)[|names[0]|..] == rest;
      assert names == [names[0]] + names[1..];
    }
  }

  lemma {:induction false} SlashAtName(name: bytes, rest: bytes)
    requires SLASH !in name && (rest == [] || rest[0] == SLASH)
    ensures SlashAt(name + rest) == |name|
  {
    if name == [] {
      assert name + rest == rest;
    } else {
      assert (name + rest)[1..] == name[1..] + rest;
      SlashAtName(name[1..], rest);
    }
  }

  // The printed path splits into the names below the root.
  lemma PathSplits(c: Ctx, n: Tree)
    requires PlainPath(c, n)
    ensures Components(PathText(NamesOf(c, n))) == Below(c, n)
    ensures var path := PathText(NamesOf(c, n)); path != [] && path[0] == SLASH
  {
    hide Components, Text;
    NamesBelow(c, n);
    var names := Below(c, n);
    TextIsSlashed(names);
    if names == [] {
      RootComponents();
    } else {
      assert (Slashed(names) + [SLASH])[..|Slashed(names)|] == Slashed(names);
      SlashedComponents(names);
    }
  }

  lemma RootComponents()
    ensures Components([SLASH]) == []
  {
    assert [SLASH][1..] == [];
  }

  lemma {:induction false} SlashedNoNul(names: seq<bytes>)
    requires forall i :: 0 <= i < |names| ==> PlainName(names[i])
    ensures NoNul(Slashed(names))
  {
    if names != [] {
      SlashedNoNul(names[1..]);
    }
  }

  lemma PathNoNul(c: Ctx, n: Tree)
    requires PlainPath(c, n)
    ensures NoNul(PathText(NamesOf(c, n)))
  {
    hide Text, Slashed;
    NamesBelow(c, n);
    TextIsSlashed(Below(c, n));
    SlashedNoNul(Below(c, n));
  }

  // A place in a tree is fixed by the events before it.
  lemma {:induction false} PlaceUnique(c: Ctx, n: Tree, c': Ctx, n': Tree)
    requires Plug(c, n) == Plug(c', n') && Pre(c) == Pre(c')
    ensures c == c' && n == n'
    decreases c
  {
    if c.Under? && c'.Under? {
      var items := Plug(c, n).items;
      PreShorter(c.inner, n);
      PreShorter(c'.inner, n');
      Cat3([Open(c.name)], ItemEvents(c.before), Pre(c.inner));
      Cat3([Open(c.name)], ItemEvents(c'.before), Pre(c'.inner));
      CancelLeft([Open(c.name)], ItemEvents(c.before) + Pre(c.inner), ItemEvents(c'.before) + Pre(c'.inner));
      PlaceItem(c.before, Plug(c.inner, n), Pre(c.inner), c.after,
                c'.before, Plug(c'.inner, n'), Pre(c'.inner), c'.after);
      assert items[|c.before|] == N(Plug(c.inner, n));
      assert items == c.before + [N(Plug(c.inner, n))] + c.after;
      assert items[..|c.before|] == c.before && items[|c.before| + 1..] == c.after;
      assert items == c'.before + [N(Plug(c'.inner, n'))] + c'.after;
      assert items[..|c'.before|] == c'.before && items[|c'.before| + 1..] == c'.after;
      PlaceUnique(c.inner, n, c'.inner, n');
    }
  }

  lemma PreShorter(c: Ctx, n: Tree)
    ensures |Pre(c)| < |Events(Plug(c, n))|
  {
    hide Pre, Plug, Post, ItemEvents;
    EventsPlug(c, n);
  }

  lemma PlaceItem(b: seq<Item>, t: Tree, p: events, a: seq<Item>, b': seq<Item>, t': Tree, p': events, a': seq<Item>)
    requires b + [N(t)] + a == b' + [N(t')] + a'
    requires ItemEvents(b) + p == ItemEvents(b') + p'
    requires |p| < |Events(t)| && |p'| < |Events(t')|
    ensures |b| == |b'| && p == p'
  {
    hide ItemEvents, Events;
    if |b| < |b'| {
      LongerBefore(b, t, a, b', t', a');
    } else if |b'| < |b| {
      LongerBefore(b', t', a', b, t, a);
    } else {
      Cat3(b, [N(t)], a);
      Cat3(b', [N(t')], a');
      TwoPrefixes(b, [N(t)] + a, b', [N(t')] + a');
      assert b'[..|b|] == b';
      CancelLeft(ItemEvents(b), p, p');
    }
  }

  lemma LongerBefore(b: seq<Item>, t: Tree, a: seq<Item>, b': seq<Item>, t': Tree, a': seq<Item>)
    requires b + [N(t)] + a == b' + [N(t')] + a' && |b| < |b'|
    ensures |ItemEvents(b)| + |Events(t)| <= |ItemEvents(b')|
  {
    var whole := b + [N(t)] + a;
    assert b == whole[..|b|] == b'[..|b|];
    assert whole[|b|] == N(t) == b'[|b|];
    assert b' == b + [N(t)] + b'[|b| + 1..];
    ItemEventsAround(b, N(t), b'[|b| + 1..]);
  }

  // Two nodes of a blob are the same chunk exactly when they are the same place.
  lemma SameNode(s: bytes, i: nat, k: nat, c: Ctx, n: Tree, c': Ctx, n': Tree)
    requires Walkable(s) && NodeHere(s, i, c, n) && NodeHere(s, k, c', n')
    ensures i == k <==> (c == c' && n == n')
  {
    hide Walk, Decodes, EventsOf, TokenOf, Pre, Plug, Events;
    EventsInjective(Plug(c, n), Plug(c', n'), [], []);
    assert Events(Plug(c, n)) + [] == Events(Plug(c', n')) + [];
    if i == k {
      PlaceUnique(c, n, c', n');
    } else if i < k {
      MoreEvents(Chunks(s), StringBlock(s), i, k);
    } else {
      MoreEvents(Chunks(s), StringBlock(s), k, i);
    }
  }

  lemma MoreEvents(cs: chunks, strs: bytes, i: nat, k: nat)
    requires i < k <= |cs| && TokenOf(cs[i]).Some? && TokenOf(cs[i]).value.Begin?
    ensures EventsOf(cs[..i], strs) != EventsOf(cs[..k], strs)
  {
    hide TokenOf, EventsOf;
    assert cs[..k] == cs[..i] + ([cs[i]] + cs[i + 1..k]);
    EventsOfCat(cs[..i], [cs[i]] + cs[i + 1..k], strs);
    EventsOfCat([cs[i]], cs[i + 1..k], strs);
    EventsOfOne(cs[i], strs);
  }

  // fdt_path_offset of what fdt_get_path printed: the node itself, exactly when
  // no earlier sibling on the way answers to a name of the path.
  method PathThereAndBack(s: bytes, nodeoffset: int32, buf: array<byte>, ghost i: nat) returns (err: int, offset: int)
    requires Walkable(s) && NodeOrRefused(s, 0, 0) && OnNode(s, 0, 0)
    requires NodeOrRefused(s, i, nodeoffset) && OnNode(s, i, nodeoffset)
    requires NamesSlashFree(Chunks(s)) && buf.Length < INT_LIMIT
    requires forall c, n :: NodeHere(s, i, c, n) ==> PlainPath(c, n)
    modifies buf
    ensures err == 0 ==> forall c, n :: NodeHere(s, i, c, n) ==> (offset == nodeoffset <==> Unshadowed(c, n))
  {
    hide Walk, Decodes, EventsOf, TokenOf, Pre, Plug, Events, Off, NextTag, Text, Components, Resolve, PlainPath;
    hide Unshadowed;
    offset := 0;
    err := GetPath(s, nodeoffset, buf, i);
    OnNodeNotRefused(s, i, nodeoffset);
    ghost var c, n :| NodeHere(s, i, c, n);
    if err != 0 {
      return;
    }
    ghost var text := PathText(NamesOf(c, n));
    PathNoNul(c, n);
    PathSplits(c, n);
    StrAtUnique(buf[..], 0, text);
    var path := NameAt(buf[..], 0);
    ghost var k;
    offset, k := PathOffset(s, path);
    ThereAndBack(s, i, k, nodeoffset, c, n, offset);
  }

  lemma ThereAndBack(s: bytes, i: nat, k: nat, nodeoffset: int, c: Ctx, n: Tree, offset: int)
    requires Walkable(s) && OnNode(s, i, nodeoffset) && NodeHere(s, i, c, n) && PlainPath(c, n)
    requires match Resolve(Plug(c, n), Components(PathText(NamesOf(c, n))))
             case None => offset == NOTFOUND
             case Some((c', n')) => OnNode(s, k, offset) && NodeHere(s, k, c', n')
    ensures forall d, m :: NodeHere(s, i, d, m) ==> (offset == nodeoffset <==> Unshadowed(d, m))
  {
    hide Walk, Decodes, EventsOf, TokenOf, Pre, Plug, Events, Off, Text, Components, Resolve, PlainPath, Unshadowed;
    PathSplits(c, n);
    NamesLeadBack(c, n);
    var r := Resolve(Plug(c, n), Below(c, n));
    StepFrom(s, i);
    if r.Some? {
      SameNode(s, i, k, c, n, r.value.0, r.value.1);
      SameOffset(s, i, k);
    }
    forall d, m | NodeHere(s, i, d, m) ensures offset == nodeoffset <==> Unshadowed(d, m) {
      SameNode(s, i, i, c, n, d, m);
    }
  }

  lemma SameOffset(s: bytes, i: nat, k: nat)
    requires Walkable(s) && i <= |Chunks(s)| && k <= |Chunks(s)|
    ensures Off(Chunks(s), i) == Off(Chunks(s), k) <==> i == k
  {
    hide Walk, TokenOf, Off;
    if Off(Chunks(s), i) == Off(Chunks(s), k) {
      SameChunk(s, i, k);
    }
  }
}
