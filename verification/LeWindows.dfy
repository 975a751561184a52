// The little-endian address windows of cpucfg.c: four slots kept dense, and
// the bag of windows they stand for.
module LeWindows {
  const SPACES: nat := 4

  const OK: int := 0
  const ENOSPC: int := -28
  const ENODEV: int := -19

  datatype Window = Window(start: nat, end: nat)

  // The granule of the hardware's comparison is 512 bytes; no end means any.
  predicate Matches(w: Window, start: nat, end: nat) {
    w.start / 512 == start / 512 && (end == 0 || w.end / 512 == end / 512)
  }

  // The highest matching slot.
  function Find(slots: seq<Window>, start: nat, end: nat): (i: int)
    ensures -1 <= i < |slots|
    ensures i >= 0 ==> Matches(slots[i], start, end)
    ensures forall j :: i < j < |slots| ==> !Matches(slots[j], start, end)
  {
    if slots == [] then -1
    else if Matches(slots[|slots| - 1], start, end) then |slots| - 1
    else Find(slots[..|slots| - 1], start, end)
  }

  // The last slot moves into slot i.
  function Without(slots: seq<Window>, i: nat): seq<Window>
    requires i < |slots|
  {
    slots[i := slots[|slots| - 1]][..|slots| - 1]
  }

  // Dense removal takes exactly one window out of the bag.
  lemma WithoutBag(slots: seq<Window>, i: nat)
    requires i < |slots|
    ensures multiset(Without(slots, i)) == multiset(slots) - multiset{slots[i]}
  {
    var last := |slots| - 1;
    if i < last {
      assert slots == slots[..i] + [slots[i]] + slots[i + 1..last] + [slots[last]];
      assert Without(slots, i) == slots[..i] + [slots[last]] + slots[i + 1..last];
    } else {
      assert slots == slots[..last] + [slots[last]];
      assert Without(slots, i) == slots[..last];
    }
  }

  // Removing what was added last gives back what was there.
  lemma AddThenRemove(slots: seq<Window>, start: nat, end: nat)
    ensures var more := slots + [Window(start, end)];
            var i := Find(more, start, end);
            i == |slots| && Without(more, i) == slots
  {
    var more := slots + [Window(start, end)];
    assert Matches(more[|slots|], start, end);
  }

  class Cpucfg {
    var used: int
    // CPUS_SPACE_LE_CTRL_REG, bit by bit.
    var control: seq<bool>
    const starts: array<nat>
    const ends: array<nat>

    // The enable bits are (1 << used) - 1, and unused slots are clean.
    ghost predicate Valid()
      reads this, starts, ends
    {
      && 0 <= used <= SPACES && |control| == 32
      && starts.Length == SPACES && ends.Length == SPACES && starts != ends
      && (forall b :: 0 <= b < 32 ==> control[b] == (b < used))
      && forall i :: used <= i < SPACES ==> starts[i] == 0 && ends[i] == 0
    }

    // The windows in use, slot by slot.
    ghost function Slots(): (s: seq<Window>)
      requires Valid()
      reads this, starts, ends
      ensures |s| == used && forall i :: 0 <= i < used ==> s[i] == Window(starts[i], ends[i])
    {
      seq(used, i requires 0 <= i < used reads this, starts, ends requires Valid() => Window(starts[i], ends[i]))
    }

    // cpucfg_init after a reset.
    constructor ()
      ensures Valid() && Slots() == []
      ensures fresh(starts) && fresh(ends)
    {
      used := 0;
      control := seq(32, _ => false);
      starts := new nat[SPACES](_ => 0);
      ends := new nat[SPACES](_ => 0);
    }

    // cpucfg_set_little_endian_address.
    method Set(start: nat, end: nat) returns (r: int)
      requires Valid()
      modifies this, starts, ends
      ensures Valid()
      ensures r == if old(used) == SPACES then ENOSPC else OK
      ensures Slots() == if r == OK then old(Slots()) + [Window(start, end)] else old(Slots())
    {
      if used >= SPACES {
        return ENOSPC;
      }
      control := control[used := true];
      starts[used] := start;
      ends[used] := end;
      used := used + 1;
      return OK;
    }

    // cpucfg_remove_little_endian_address.
    method Remove(start: nat, end: nat) returns (r: int)
      requires Valid()
      modifies this, starts, ends
      ensures Valid()
      ensures var i := Find(old(Slots()), start, end);
              if i < 0 then r == ENODEV && Slots() == old(Slots())
              else r == OK && Slots() == Without(old(Slots()), i)
      ensures r == OK ==> exists w :: w in old(Slots()) && Matches(w, start, end)
                                      && multiset(Slots()) == multiset(old(Slots())) - multiset{w}
    {
      hide Find;
      ghost var slots := Slots();
      if used <= 0 {
        return ENODEV;
      }
      var i := used - 1;
      while i >= 0
        invariant -1 <= i < used
        invariant forall j :: i < j < used ==> !Matches(slots[j], start, end)
      {
        if starts[i] / 512 == start / 512 && (end == 0 || ends[i] / 512 == end / 512) {
          break;
        }
        i := i - 1;
      }
      if i < 0 {
        return ENODEV;
      }
      assert Find(slots, start, end) == i;
      WithoutBag(slots, i);
      var last := used - 1;
      var value := control[i := false][last := false];
      if i != last {
        starts[i] := starts[last];
        ends[i] := ends[last];
        value := value[i := true];
      }
      control := value;
      starts[last] := 0;
      ends[last] := 0;
      used := used - 1;
      assert Slots() == Without(slots, i);
      return OK;
    }
  }
}
