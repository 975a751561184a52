// A receiver that gives up on a frame: the drain of hwmsgbox_receive_message
// among the steps of the machine, and when the stream is in step again.
module MailboxSync {
  import opened ByteStrings
  import opened Mailbox

  // The receiver forgets the frame it is in.
  function GiveUp(b: Bus): Bus {
    b.(reader := Idle)
  }

  // The drain throws a word away.
  function Drop(b: Bus): Bus
    requires b.fifo != []
  {
    b.(fifo := b.fifo[1..], reader := Idle)
  }

  ghost predicate AnyStep(b: Bus, b': Bus, capacity: nat) {
    || Step(b, b', capacity)
    || b' == GiveUp(b)
    || (b.fifo != [] && b' == Drop(b))
  }

  ghost predicate IsAnyRun(run: seq<Bus>, ms: seq<Message>, capacity: nat) {
    && (forall m :: m in ms ==> Sendable(m))
    && run != [] && run[0] == Start(ms)
    && forall i {:trigger run[i]} :: 0 <= i < |run| - 1 ==> AnyStep(run[i], run[i + 1], capacity)
  }

  ghost predicate AnyChain(run: seq<Bus>, capacity: nat) {
    run != [] && forall i {:trigger run[i]} :: 0 <= i < |run| - 1 ==> AnyStep(run[i], run[i + 1], capacity)
  }

  // Such steps lead from b to b'.
  ghost predicate Leads(b: Bus, b': Bus, capacity: nat) {
    exists run :: AnyChain(run, capacity) && run[0] == b && run[|run| - 1] == b'
  }

  lemma LeadsSelf(b: Bus, capacity: nat)
    ensures Leads(b, b, capacity)
  {
    assert AnyChain([b], capacity);
  }

  lemma LeadsOn(a: Bus, b: Bus, c: Bus, capacity: nat)
    requires Leads(a, b, capacity) && Leads(b, c, capacity)
    ensures Leads(a, c, capacity)
  {
    hide AnyStep;
    var run :| AnyChain(run, capacity) && run[0] == a && run[|run| - 1] == b;
    var more :| AnyChain(more, capacity) && more[0] == b && more[|more| - 1] == c;
    Joined(run, more, capacity);
  }

  lemma Joined(run: seq<Bus>, more: seq<Bus>, capacity: nat)
    requires AnyChain(run, capacity) && AnyChain(more, capacity) && run[|run| - 1] == more[0]
    ensures var longer := run + more[1..];
            AnyChain(longer, capacity) && longer[0] == run[0] && longer[|longer| - 1] == more[|more| - 1]
  {
    hide AnyStep;
    var longer := run + more[1..];
    forall i | 0 <= i < |longer| - 1 ensures AnyStep(longer[i], longer[i + 1], capacity) {
      if i < |run| - 1 {
        assert longer[i] == run[i] && longer[i + 1] == run[i + 1];
      } else {
        var x := i - (|run| - 1);
        assert longer[i] == more[x] && longer[i + 1] == more[x + 1];
      }
    }
  }

  lemma LeadsStep(a: Bus, b: Bus, c: Bus, capacity: nat)
    requires Leads(a, b, capacity) && AnyStep(b, c, capacity)
    ensures Leads(a, c, capacity)
  {
    hide AnyStep;
    assert AnyChain([b, c], capacity);
    LeadsOn(a, b, c, capacity);
  }

  // A run goes on through whatever the code did.
  lemma AnyRunContinues(run: seq<Bus>, ms: seq<Message>, b: Bus, capacity: nat)
    requires IsAnyRun(run, ms, capacity) && Leads(run[|run| - 1], b, capacity)
    ensures exists longer :: IsAnyRun(longer, ms, capacity) && longer[|longer| - 1] == b
  {
    hide AnyStep, Start;
    var more :| AnyChain(more, capacity) && more[0] == run[|run| - 1] && more[|more| - 1] == b;
    Joined(run, more, capacity);
    assert IsAnyRun(run + more[1..], ms, capacity);
  }

  predicate Ends(s: words, t: words) {
    |t| <= |s| && s[|s| - |t|..] == t
  }

  // The sender's side, whatever the receiver does: j messages are begun, and
  // what is still to be taken is the end of their stream.
  ghost predicate Sending(b: Bus, ms: seq<Message>, j: nat) {
    && (forall m :: m in ms ==> Sendable(m))
    && j <= |ms| && b.todo == Frames(ms[j..])
    && Ends(Stream(Frames(ms[..j])), b.fifo + b.pending)
    && |b.fifo| <= FIFO_DEPTH
    && (b.pending != [] && b.total <= FIFO_DEPTH ==> |b.fifo| + |b.pending| <= FIFO_DEPTH)
    && (b.pending != [] ==> 0 < j && b.total == |Frame(ms[j - 1])| && Ends(Frame(ms[j - 1]), b.pending))
  }

  lemma EndsShorter(s: words, fifo: words, pending: words)
    requires fifo != [] && Ends(s, fifo + pending)
    ensures Ends(s, fifo[1..] + pending)
  {
    assert fifo + pending == [fifo[0]] + (fifo[1..] + pending);
  }

  lemma EndsLonger(s: words, t: words, f: words)
    requires Ends(s, t)
    ensures Ends(s + f, t + f)
  {
  }

  lemma BeginSends(b: Bus, ms: seq<Message>, j: nat)
    requires Sending(b, ms, j) && CanBegin(b)
    ensures Sending(Begin(b), ms, j + 1)
  {
    hide Frame, Stream, Frames, Ends;
    NotLast(b, ms, j);
    FramesFrom(ms, j);
    StreamTo(ms, 0, j);
    assert ms[0..j] == ms[..j] && ms[0..j + 1] == ms[..j + 1];
    assert b.fifo + b.pending == b.fifo;
    EndsLonger(Stream(Frames(ms[..j])), b.fifo, Frame(ms[j]));
    EndsWhole(Frame(ms[j]));
  }

  lemma NotLast(b: Bus, ms: seq<Message>, j: nat)
    requires Sending(b, ms, j) && b.todo != []
    ensures j < |ms|
  {
    hide Frame, Ends;
  }

  lemma EndsWhole(f: words)
    ensures Ends(f, f)
  {
  }

  lemma WriteSends(b: Bus, ms: seq<Message>, j: nat)
    requires Sending(b, ms, j) && CanWrite(b)
    ensures Sending(Write(b), ms, j)
  {
    hide Frame, Stream, Frames, Ends;
    assert b.fifo + [b.pending[0]] + b.pending[1..] == b.fifo + b.pending;
    assert b.pending + [] == b.pending && b.pending[1..] + [] == b.pending[1..];
    EndsShorter(Frame(ms[j - 1]), b.pending, []);
  }

  lemma StepSends(b: Bus, b': Bus, ms: seq<Message>, j: nat, capacity: nat) returns (j': nat)
    requires Sending(b, ms, j) && AnyStep(b, b', capacity)
    ensures Sending(b', ms, j')
  {
    hide Frame, Stream, Frames, Ends, Unframe;
    j' := j;
    if CanBegin(b) && b' == Begin(b) {
      BeginSends(b, ms, j);
      j' := j + 1;
    } else if CanWrite(b) && b' == Write(b) {
      WriteSends(b, ms, j);
    } else if b' != GiveUp(b) {
      EndsShorter(Stream(Frames(ms[..j])), b.fifo, b.pending);
    }
  }

  lemma {:induction false} RunSends(run: seq<Bus>, ms: seq<Message>, capacity: nat) returns (j: nat)
    requires IsAnyRun(run, ms, capacity)
    ensures Sending(run[|run| - 1], ms, j)
  {
    hide AnyStep, Sending;
    if |run| == 1 {
      StartSends(ms);
      j := 0;
    } else {
      var before := run[..|run| - 1];
      forall i | 0 <= i < |before| - 1 ensures AnyStep(before[i], before[i + 1], capacity) {
        assert before[i] == run[i] && before[i + 1] == run[i + 1];
      }
      var j0 := RunSends(before, ms, capacity);
      var i := |run| - 2;
      assert AnyStep(run[i], run[i + 1], capacity);
      j := StepSends(run[i], run[i + 1], ms, j0, capacity);
    }
  }

  lemma StartSends(ms: seq<Message>)
    requires forall m :: m in ms ==> Sendable(m)
    ensures Sending(Start(ms), ms, 0)
  {
    assert ms[0..] == ms && ms[..0] == [];
  }

  // The words to come are those of whole messages, from number x on.
  ghost predicate InStep(b: Bus, ms: seq<Message>, x: nat) {
    && (forall m :: m in ms ==> Sendable(m))
    && x <= |ms| && b.fifo + b.pending + Stream(b.todo) == Stream(Frames(ms[x..]))
  }

  ghost predicate Synced(b: Bus, ms: seq<Message>) {
    exists x: nat :: InStep(b, ms, x)
  }

  predicate BetweenFrames(b: Bus) {
    b.pending == [] || |b.pending| == b.total
  }

  lemma StreamFrom(ms: seq<Message>, x: nat, j: nat)
    requires x <= j <= |ms| && forall m :: m in ms ==> Sendable(m)
    ensures Stream(Frames(ms[x..])) == Stream(Frames(ms[x..j])) + Stream(Frames(ms[j..]))
    ensures x < j ==> |Stream(Frames(ms[x..j]))| > 0
  {
    hide Frame;
    assert ms[x..] == ms[x..j] + ms[j..];
    StreamCat(ms[x..j], ms[j..]);
    if x < j {
      StreamFirst(ms[x..j]);
    }
  }

  lemma OneFrame(ms: seq<Message>, j: nat)
    requires 0 < j <= |ms| && forall m :: m in ms ==> Sendable(m)
    ensures Stream(Frames(ms[j - 1..])) == Frame(ms[j - 1]) + Stream(Frames(ms[j..]))
  {
    hide Frame, Stream, Frames;
    assert ms[j - 1..][0] == ms[j - 1] && ms[j - 1..][1..] == ms[j..];
    StreamFirst(ms[j - 1..]);
  }

  // The drain's hope, exactly: with the FIFO empty, whatever was lost before,
  // the next query starts at a frame boundary if and only if the sender is not
  // within a frame.
  lemma InStepIff(run: seq<Bus>, ms: seq<Message>, capacity: nat)
    requires IsAnyRun(run, ms, capacity) && run[|run| - 1].fifo == []
    ensures Synced(run[|run| - 1], ms) <==> BetweenFrames(run[|run| - 1])
  {
    hide Frame, Stream, Frames, Start, AnyStep;
    var b := run[|run| - 1];
    var j := RunSends(run, ms, capacity);
    assert b.fifo + b.pending == b.pending;
    if b.pending == [] {
      assert b.pending + Stream(b.todo) == Stream(b.todo);
      assert InStep(b, ms, j);
    } else {
      OneFrame(ms, j);
      if |b.pending| == b.total {
        assert InStep(b, ms, j - 1);
      } else {
        forall x: nat | x <= |ms| ensures !InStep(b, ms, x) {
          if x < j {
            StreamFrom(ms, x, j - 1);
          } else {
            StreamFrom(ms, j, x);
          }
        }
      }
    }
  }

  // The same state, seen without what was delivered before.
  function Since(b: Bus, n: nat): Bus
    requires n <= |b.delivered|
  {
    b.(delivered := b.delivered[n..])
  }

  lemma StepSince(b: Bus, b': Bus, n: nat, capacity: nat)
    requires Step(b, b', capacity) && n <= |b.delivered|
    ensures n <= |b'.delivered| && b'.delivered[..n] == b.delivered[..n]
    ensures Step(Since(b, n), Since(b', n), capacity)
  {
    hide Unframe;
    if CanTake(b) && b' == Take(b, capacity) {
      assert Take(Since(b, n), capacity) == Since(b', n);
    } else if CanBegin(b) && b' == Begin(b) {
      assert Begin(Since(b, n)) == Since(b', n);
    } else {
      assert Write(Since(b, n)) == Since(b', n);
    }
  }

  lemma InStepInv(b: Bus, ms: seq<Message>, x: nat, j: nat, capacity: nat)
    requires Sending(b, ms, j) && InStep(b, ms, x) && b.reader.Idle?
    ensures x <= j && Inv(Since(b, |b.delivered|), ms[x..], capacity, 0, j - x)
  {
    hide Frame, Stream, Frames, Ends;
    if x > j {
      StreamFrom(ms, j, x);
      assert false;
    }
    StreamFrom(ms, x, j);
    assert ms[x..][j - x..] == ms[j..] && ms[x..][0..j - x] == ms[x..j] && ms[x..][..0] == [];
    NoClips(capacity);
    CancelRight(b.fifo + b.pending, Stream(Frames(ms[x..j])), Stream(Frames(ms[j..])));
    assert [] + (b.fifo + b.pending) == b.fifo + b.pending;
  }

  lemma NoClips(capacity: nat)
    ensures Clips([], capacity) == []
  {
  }

  lemma CancelRight(a: words, b: words, c: words)
    requires a + c == b + c
    ensures a == b
  {
    assert |a| == |b|;
    assert a == (a + c)[..|a|] && b == (b + c)[..|b|];
  }

  // From a state in step the machine keeps its invariant on the messages to come.
  lemma {:induction false} BackInStep(run: seq<Bus>, ms: seq<Message>, x: nat, j: nat, capacity: nat)
    returns (k: nat, i: nat)
    requires run != [] && forall i {:trigger run[i]} :: 0 <= i < |run| - 1 ==> Step(run[i], run[i + 1], capacity)
    requires Sending(run[0], ms, j) && x <= |ms| && InStep(run[0], ms, x) && run[0].reader.Idle?
    ensures var (n, b) := (|run[0].delivered|, run[|run| - 1]);
            && n <= |b.delivered| && b.delivered[..n] == run[0].delivered
            && Inv(Since(b, n), ms[x..], capacity, k, i)
  {
    hide Step, Inv, Sending, InStep;
    if |run| == 1 {
      InStepInv(run[0], ms, x, j, capacity);
      k, i := 0, j - x;
    } else {
      var before := run[..|run| - 1];
      forall y | 0 <= y < |before| - 1 ensures Step(before[y], before[y + 1], capacity) {
        assert before[y] == run[y] && before[y + 1] == run[y + 1];
      }
      var k0, i0 := BackInStep(before, ms, x, j, capacity);
      var y := |run| - 2;
      assert Step(run[y], run[y + 1], capacity);
      var n := |run[0].delivered|;
      StepSince(run[y], run[y + 1], n, capacity);
      StepKeeps(Since(run[y], n), Since(run[y + 1], n), ms[x..], capacity, k0, i0);
      k, i :| Inv(Since(run[y + 1], n), ms[x..], capacity, k, i);
    }
  }

  lemma NoStepSince(b: Bus, n: nat, capacity: nat)
    requires n <= |b.delivered| && NoStep(b, capacity)
    ensures Stuck(Since(b, n))
  {
    hide NoStep;
    StuckMeans(b, capacity);
  }

  lemma ClipsOf(b: Bus, ms: seq<Message>, x: nat, capacity: nat, k: nat, i: nat)
    requires x <= |ms| && Inv(b, ms[x..], capacity, k, i)
    ensures x + k <= |ms| && b.delivered == Clips(ms[x..x + k], capacity)
  {
    hide Clips, Frame, Stream, Frames;
    assert ms[x..][..k] == ms[x..x + k];
  }

  // Once in step the receiver gets every further message, in order, whatever
  // was lost before; and when neither side can go on, it has them all.
  lemma DeliveredAfter(run: seq<Bus>, more: seq<Bus>, ms: seq<Message>, capacity: nat)
    requires IsAnyRun(run, ms, capacity)
    requires var b := run[|run| - 1]; b.fifo == [] && b.reader.Idle? && BetweenFrames(b)
    requires more != [] && more[0] == run[|run| - 1]
    requires forall i {:trigger more[i]} :: 0 <= i < |more| - 1 ==> Step(more[i], more[i + 1], capacity)
    ensures exists x: nat, k: nat :: x <= k <= |ms| && InStep(more[0], ms, x)
              && more[|more| - 1].delivered == more[0].delivered + Clips(ms[x..k], capacity)
              && (NoStep(more[|more| - 1], capacity) ==> k == |ms|)
  {
    hide Step, Inv, Sending, Start, AnyStep, Clips, NoStep;
    var j := RunSends(run, ms, capacity);
    InStepIff(run, ms, capacity);
    var x: nat :| InStep(more[0], ms, x);
    var k, i := BackInStep(more, ms, x, j, capacity);
    var b := more[|more| - 1];
    var s := Since(b, |more[0].delivered|);
    assert b.delivered == more[0].delivered + s.delivered;
    if NoStep(b, capacity) {
      NoStepSince(b, |more[0].delivered|, capacity);
      StuckMeansDone(s, ms[x..], capacity, k, i);
      assert ms[x..] == ms[x..|ms|];
    } else {
      ClipsOf(s, ms, x, capacity, k, i);
    }
  }

  // The sender is within a frame when the drain sees the FIFO empty.
  function Broken(): seq<Bus> {
    var (f0, f1) := ([1, 1, 5], [0, 0]);
    [Bus([f0, f1], 0, [], [], Idle, []),
     Bus([f1], 3, [1, 1, 5], [], Idle, []),
     Bus([f1], 3, [1, 5], [1], Idle, []),
     Bus([f1], 3, [5], [1, 1], Idle, []),
     Bus([f1], 3, [5], [1], Headed(1), []),
     Bus([f1], 3, [5], [], Reading(1, 1, []), []),
     Bus([f1], 3, [5], [], Idle, []),
     Bus([f1], 3, [], [5], Idle, []),
     Bus([], 2, [0, 0], [5], Idle, []),
     Bus([], 2, [0], [5, 0], Idle, []),
     Bus([], 2, [0], [0], Headed(5), []),
     Bus([], 2, [0], [], Idle, [Unframe(5, [], 0)])]
  }

  lemma FirstSteps(i: nat)
    requires i < 6
    ensures |Broken()| == 12 && AnyStep(Broken()[i], Broken()[i + 1], 0)
  {
    hide Unframe;
  }

  lemma LastSteps(i: nat)
    requires 6 <= i < 11
    ensures |Broken()| == 12 && AnyStep(Broken()[i], Broken()[i + 1], 0)
  {
    hide Unframe;
  }

  // Then what is left of that frame is taken for the start of a message.
  lemma OutOfStep()
    ensures exists run: seq<Bus>, ms, d :: IsAnyRun(run, ms, 0) && run[|run| - 1].delivered == [d]
              && forall m :: m in ms ==> d != Clip(m, 0)
  {
    hide Broken, AnyStep, Unframe;
    var ms := [Message(1, 0, 0, 0, [5]), Message(0, 0, 0, 0, [])];
    var run := Broken();
    BrokenEnds(ms);
    NotSent(ms);
    forall i | 0 <= i < |run| - 1 ensures AnyStep(run[i], run[i + 1], 0) {
      if i < 6 {
        FirstSteps(i);
      } else {
        LastSteps(i);
      }
    }
    assert IsAnyRun(run, ms, 0);
  }

  lemma BrokenEnds(ms: seq<Message>)
    requires ms == [Message(1, 0, 0, 0, [5]), Message(0, 0, 0, 0, [])]
    ensures |Broken()| == 12 && Broken()[0] == Start(ms) && Broken()[11].delivered == [Unframe(5, [], 0)]
  {
    hide Unframe, Frames;
    TheirFrames(ms);
  }

  lemma TheirFrames(ms: seq<Message>)
    requires ms == [Message(1, 0, 0, 0, [5]), Message(0, 0, 0, 0, [])]
    ensures (forall m :: m in ms ==> Sendable(m)) && Frames(ms) == [[1, 1, 5], [0, 0]]
  {
    assert Frame(ms[0]) == [1, 1, 5] && Frame(ms[1]) == [0, 0];
    hide Frame;
    assert ms[1..] == [ms[1]] && [ms[1]][1..] == [];
    assert Frames([ms[1]]) == [Frame(ms[1])];
  }

  lemma NotSent(ms: seq<Message>)
    requires ms == [Message(1, 0, 0, 0, [5]), Message(0, 0, 0, 0, [])]
    ensures Unframe(5, [], 0) != Clip(ms[0], 0) && Unframe(5, [], 0) != Clip(ms[1], 0)
  {
  }
}
