// fdt_path_offset: paths as text, as lists of names and as places in the tree.
module FdtPath {
  import opened ByteStrings
  import opened FdtFormat
  import opened FdtTree
  import opened FdtBlob
  import opened FdtWalk
  import opened FdtChild

  // The length of the first component: strchr for '/', or the end.
  function SlashAt(path: bytes): (q: nat)
    ensures q <= |path| && (q < |path| ==> path[q] == SLASH)
    ensures forall k :: 0 <= k < q ==> path[k] != SLASH
  {
    if path == [] || path[0] == SLASH then 0 else 1 + SlashAt(path[1..])
  }

  // The names between slashes; empty ones are skipped.
  function Components(path: bytes): seq<bytes>
    decreases |path|
  {
    if path == [] then []
    else if path[0] == SLASH then Components(path[1..])
    else
      var q := SlashAt(path);
      [path[..q]] + Components(path[q..])
  }

  // Names followed one by one, each to the first subnode that matches: where
  // that leads inside t.
  function Resolve(t: Tree, comps: seq<bytes>): Option<(Ctx, Tree)>
    decreases |comps|
  {
    if comps == [] then Some((Hole, t))
    else
      match FirstChild(t.items, comps[0])
      case None => None
      case Some(m) =>
        match Resolve(t.items[m].sub, comps[1..])
        case None => None
        case Some((c, n)) => Some((Under(t.name, t.items[..m], c, t.items[m + 1..]), n))
  }

  // c with d in its hole.
  function Comp(c: Ctx, d: Ctx): Ctx {
    match c
    case Hole => d
    case Under(name, before, inner, after) => Under(name, before, Comp(inner, d), after)
  }

  lemma {:induction false} CompInto(c: Ctx, n: Tree, m: nat, d: Ctx)
    requires m < |n.items|
    ensures Comp(Into(c, n, m), d) == Comp(c, Under(n.name, n.items[..m], d, n.items[m + 1..]))
  {
    match c
    case Hole =>
    case Under(_, _, inner, _) => CompInto(inner, n, m, d);
  }

  lemma {:induction false} CompHole(c: Ctx)
    ensures Comp(c, Hole) == c
  {
    match c
    case Hole =>
    case Under(_, _, inner, _) => CompHole(inner);
  }

  function Within(c: Ctx, r: Option<(Ctx, Tree)>): Option<(Ctx, Tree)> {
    match r
    case None => None
    case Some((d, n)) => Some((Comp(c, d), n))
  }

  // A step of the path loop: resolving the rest from the subnode is resolving
  // it from the node.
  lemma ResolveStep(c: Ctx, n: Tree, comps: seq<bytes>)
    requires comps != []
    ensures match FirstChild(n.items, comps[0])
            case None => Within(c, Resolve(n, comps)) == None
            case Some(m) => Within(c, Resolve(n, comps))
                            == Within(Into(c, n, m), Resolve(n.items[m].sub, comps[1..]))
  {
    match FirstChild(n.items, comps[0])
    case None =>
    case Some(m) =>
      match Resolve(n.items[m].sub, comps[1..])
      case None =>
      case Some((d, _)) => CompInto(c, n, m, d);
  }

  // Chunk 0 opens the root.
  lemma RootHere(s: bytes) returns (t: Tree)
    requires Walkable(s) && NodeOrRefused(s, 0, 0) && OnNode(s, 0, 0)
    ensures NodeHere(s, 0, Hole, t) && Denotes(s, t)
    ensures forall u :: Denotes(s, u) ==> u == t
  {
    hide Walk, Decodes, NextTag, Off, TokenOf, Events;
    OnNodeNotRefused(s, 0, 0);
    var c, n :| NodeHere(s, 0, c, n);
    assert Chunks(s)[..0] == [];
    assert c == Hole;
    t := n;
    forall u | Denotes(s, u) ensures u == t {
      DenotesOneTree(s, t, u);
    }
  }

  lemma Unslashed(path: bytes, p: nat)
    requires p < |path| && path[p] == SLASH
    ensures Components(path[p..]) == Components(path[p + 1..])
  {
    assert path[p..][1..] == path[p + 1..];
  }

  lemma FirstComponent(path: bytes, p: nat)
    requires p < |path| && path[p] != SLASH
    ensures var q := p + SlashAt(path[p..]);
            && p < q <= |path|
            && Components(path[p..]) == [path[p..q]] + Components(path[q..])
            && Components(path[p..])[1..] == Components(path[q..])
  {
    var q := p + SlashAt(path[p..]);
    assert path[p..][..q - p] == path[p..q];
    assert path[p..][q - p..] == path[q..];
  }

  // Resolving what is left of the path from n, at c, is resolving all of it
  // from the root.
  ghost predicate Onward(tree: Tree, path: bytes, c: Ctx, n: Tree, rest: seq<bytes>) {
    Within(Hole, Resolve(tree, Components(path))) == Within(c, Resolve(n, rest))
  }

  lemma OnwardStart(tree: Tree, path: bytes)
    ensures Onward(tree, path, Hole, tree, Components(path))
  {
  }

  lemma OnwardStep(tree: Tree, path: bytes, c: Ctx, n: Tree, rest: seq<bytes>)
    requires Onward(tree, path, c, n, rest) && rest != []
    ensures match FirstChild(n.items, rest[0])
            case None => Resolve(tree, Components(path)) == None
            case Some(m) => Onward(tree, path, Into(c, n, m), n.items[m].sub, rest[1..])
  {
    hide Resolve, Components;
    ResolveStep(c, n, rest);
  }

  lemma OnwardEnd(tree: Tree, path: bytes, c: Ctx, n: Tree)
    requires Onward(tree, path, c, n, [])
    ensures Resolve(tree, Components(path)) == Some((c, n))
  {
    hide Components;
    CompHole(c);
    match Resolve(tree, Components(path))
    case None =>
    case Some((d, _)) => HoleComp(d);
  }

  lemma HoleComp(d: Ctx)
    ensures Comp(Hole, d) == d
  {
  }

  // fdt_path_offset, for a path that starts with '/'.
  method PathOffset(s: bytes, path: bytes) returns (offset: int, ghost k: nat)
    requires Walkable(s) && NodeOrRefused(s, 0, 0)
    requires NoNul(path) && |path| < INT_LIMIT && path != [] && path[0] == SLASH
    ensures Refused(s, 0) ==> offset == if Components(path) == [] then 0 else BADOFFSET
    ensures OnNode(s, 0, 0) ==>
              forall t :: Denotes(s, t) ==>
                match Resolve(t, Components(path))
                case None => offset == NOTFOUND
                case Some((c, n)) => OnNode(s, k, offset) && NodeHere(s, k, c, n)
  {
    hide Walk, Decodes, NextTag, EventsOf, Off, TokenOf, Events, Plug, Pre, NodeHere, Components, Denotes, Resolve;
    hide Onward, Into, FirstChild, SlashAt;
    k := 0;
    offset := 0;
    var p := 0;
    ghost var c, n, tree := Hole, Tree([], []), Tree([], []);
    NotBoth(s, 0, 0);
    if OnNode(s, 0, 0) {
      tree := RootHere(s);
      n := tree;
      OnwardStart(tree, path);
    }
    assert path[0..] == path;
    while p < |path|
      invariant p <= |path|
      invariant Refused(s, 0) ==> offset == 0 && Components(path) == Components(path[p..])
      invariant OnNode(s, 0, 0) ==>
                  && OnNode(s, k, offset) && NodeHere(s, k, c, n) && 0 <= offset < INT_LIMIT
                  && Onward(tree, path, c, n, Components(path[p..]))
      decreases |path| - p
    {
      p := SkipSlashes(path, p);
      if p == |path| {
        break;
      }
      var q := p + SlashAt(path[p..]);
      FirstComponent(path, p);
      assert NodeOrRefused(s, k, offset);
      offset, k := SubnodeOffset(s, offset, path[p..q], k);
      if OnNode(s, 0, 0) {
        OnwardStep(tree, path, c, n, Components(path[p..]));
        if FirstChild(n.items, path[p..q]).Some? {
          var m := FirstChild(n.items, path[p..q]).value;
          c, n := Into(c, n, m), n.items[m].sub;
          StepFrom(s, k);
        }
      }
      if offset < 0 {
        return;
      }
      p := q;
    }
    assert path[p..] == [];
    NoComponents();
    if OnNode(s, 0, 0) {
      OnwardEnd(tree, path, c, n);
    }
  }

  method SkipSlashes(path: bytes, p0: nat) returns (p: nat)
    requires p0 <= |path|
    ensures p0 <= p <= |path| && (p < |path| ==> path[p] != SLASH)
    ensures Components(path[p..]) == Components(path[p0..])
  {
    hide Components;
    p := p0;
    while p < |path| && path[p] == SLASH
      invariant p0 <= p <= |path| && Components(path[p..]) == Components(path[p0..])
      decreases |path| - p
    {
      Unslashed(path, p);
      p := p + 1;
    }
  }

  lemma NoComponents()
    ensures Components([]) == []
  {
  }
}
