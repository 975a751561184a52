// The message FIFO between two processors as a machine of interleaved steps:
// one side writes frames word by word, the other takes them out again.
module Mailbox {
  import opened ByteStrings

  type word = x: int | 0 <= x < 0x1_0000_0000
  type words = seq<word>

  const FIFO_DEPTH: nat := 8
  const HEADER_WORDS: nat := 2

  datatype Message = Message(state: byte, attr: byte, kind: byte, result: byte, paras: words)

  // What the receiver's buffer of so many parameters holds of a message.
  datatype Delivery =
    Delivery(state: byte, attr: byte, kind: byte, result: byte, count: nat, stored: words, fits: bool)

  function Header(m: Message): word {
    m.state + 0x100 * m.attr + 0x1_0000 * m.kind + 0x100_0000 * m.result
  }

  predicate Sendable(m: Message) {
    |m.paras| < 0x100
  }

  function Frame(m: Message): (f: words)
    requires Sendable(m)
    ensures |f| == HEADER_WORDS + |m.paras|
  {
    [Header(m), |m.paras|] + m.paras
  }

  function Clip(m: Message, capacity: nat): Delivery {
    Delivery(m.state, m.attr, m.kind, m.result, |m.paras|, First(m.paras, capacity), |m.paras| <= capacity)
  }

  function First(s: words, n: nat): words {
    if |s| <= n then s else s[..n]
  }

  // What the receiver makes of a header, a count and that many words.
  function Unframe(header: word, got: words, capacity: nat): Delivery {
    Delivery(header % 0x100, header / 0x100 % 0x100, header / 0x1_0000 % 0x100, header / 0x100_0000 % 0x100,
             |got|, First(got, capacity), |got| <= capacity)
  }

  lemma UnframeFrame(m: Message, capacity: nat)
    requires Sendable(m)
    ensures Unframe(Header(m), m.paras, capacity) == Clip(m, capacity)
  {
    var h := Header(m);
    var (b0: int, b1: int, b2: int, b3: int) := (m.state, m.attr, m.kind, m.result);
    assert h / 0x100 == b1 + 0x100 * b2 + 0x1_0000 * b3;
    assert h / 0x1_0000 == b2 + 0x100 * b3;
    assert h / 0x100_0000 == b3;
  }

  // Where the receiver is within a frame.
  datatype Reader = Idle | Headed(header: word) | Reading(header: word, n: nat, got: words)

  datatype Bus = Bus(
    todo: seq<words>, // frames not begun
    total: nat, // words of the frame being sent
    pending: words, // its words still to be written
    fifo: words,
    reader: Reader,
    delivered: seq<Delivery>)

  // --- The sender's steps ---

  // hwmsgbox_wait_queue_space lets a frame that fits the FIFO begin only when
  // all of it fits; a longer one begins at once.
  predicate CanBegin(b: Bus) {
    && b.pending == [] && b.todo != [] && |b.todo[0]| >= HEADER_WORDS
    && (|b.todo[0]| <= FIFO_DEPTH ==> |b.fifo| <= FIFO_DEPTH - |b.todo[0]|)
  }

  function Begin(b: Bus): Bus
    requires CanBegin(b)
  {
    b.(todo := b.todo[1..], total := |b.todo[0]|, pending := b.todo[0])
  }

  predicate CanWrite(b: Bus) {
    b.pending != [] && |b.fifo| < FIFO_DEPTH
  }

  function Write(b: Bus): Bus
    requires CanWrite(b)
  {
    b.(pending := b.pending[1..], fifo := b.fifo + [b.pending[0]])
  }

  // --- The receiver's steps ---

  // hwmsgbox_query_message starts on a frame only when both header words are
  // there; afterwards it waits for one word at a time.
  predicate CanTake(b: Bus) {
    if b.reader.Idle? then |b.fifo| >= HEADER_WORDS else b.fifo != []
  }

  function Take(b: Bus, capacity: nat): Bus
    requires b.fifo != []
  {
    var rest := b.(fifo := b.fifo[1..]);
    match b.reader
    case Idle => rest.(reader := Headed(b.fifo[0]))
    case Headed(h) => Read(rest, h, b.fifo[0] % 0x100, [], capacity)
    case Reading(h, n, got) => Read(rest, h, n, got + [b.fifo[0]], capacity)
  }

  function Read(b: Bus, h: word, n: nat, got: words, capacity: nat): Bus {
    if |got| < n then b.(reader := Reading(h, n, got))
    else b.(reader := Idle, delivered := b.delivered + [Unframe(h, got, capacity)])
  }

  // Any step of either side.
  ghost predicate Step(b: Bus, b': Bus, capacity: nat) {
    || (CanBegin(b) && b' == Begin(b))
    || (CanWrite(b) && b' == Write(b))
    || (CanTake(b) && b' == Take(b, capacity))
  }

  ghost predicate Stuck(b: Bus) {
    !CanBegin(b) && !CanWrite(b) && !CanTake(b)
  }

  ghost predicate NoStep(b: Bus, capacity: nat) {
    forall b' :: !Step(b, b', capacity)
  }

  lemma StuckMeans(b: Bus, capacity: nat)
    ensures Stuck(b) <==> NoStep(b, capacity)
  {
    hide Begin, Write, Take;
    assert CanBegin(b) ==> Step(b, Begin(b), capacity);
    assert CanWrite(b) ==> Step(b, Write(b), capacity);
    assert CanTake(b) ==> Step(b, Take(b, capacity), capacity);
  }

  // --- The invariant ---

  function Frames(ms: seq<Message>): seq<words>
    requires forall m :: m in ms ==> Sendable(m)
  {
    if ms == [] then [] else [Frame(ms[0])] + Frames(ms[1..])
  }

  function Stream(fs: seq<words>): words {
    if fs == [] then [] else fs[0] + Stream(fs[1..])
  }

  function Clips(ms: seq<Message>, capacity: nat): seq<Delivery> {
    if ms == [] then [] else Clips(ms[..|ms| - 1], capacity) + [Clip(ms[|ms| - 1], capacity)]
  }

  // The words of the current frame the receiver has taken.
  function Taken(r: Reader): words {
    match r
    case Idle => []
    case Headed(h) => [h]
    case Reading(h, n, got) => if n < 0x100 then [h, n] + got else [h]
  }

  // ms are all the messages: the first k are delivered, those from j on not
  // begun, and the words between them are in the receiver's hands, in the FIFO
  // and in the sender's hands, in that order. A frame that fits the FIFO fits
  // what is left of it.
  ghost predicate Inv(b: Bus, ms: seq<Message>, capacity: nat, k: nat, j: nat) {
    && (forall m :: m in ms ==> Sendable(m))
    && k <= j <= |ms|
    && b.todo == Frames(ms[j..])
    && b.delivered == Clips(ms[..k], capacity)
    && Taken(b.reader) + (b.fifo + b.pending) == Stream(Frames(ms[k..j]))
    && (b.reader.Reading? ==> |b.reader.got| < b.reader.n < 0x100)
    && |b.fifo| <= FIFO_DEPTH
    && (b.pending != [] && b.total <= FIFO_DEPTH ==> |b.fifo| + |b.pending| <= FIFO_DEPTH)
  }

  lemma {:induction false} StreamCat(xs: seq<Message>, ys: seq<Message>)
    requires forall m :: m in xs + ys ==> Sendable(m)
    ensures forall m :: m in xs ==> Sendable(m)
    ensures forall m :: m in ys ==> Sendable(m)
    ensures Stream(Frames(xs + ys)) == Stream(Frames(xs)) + Stream(Frames(ys))
  {
    assert forall m :: m in xs ==> m in xs + ys;
    assert forall m :: m in ys ==> m in xs + ys;
    if xs == [] {
      assert xs + ys == ys;
    } else {
      assert (xs + ys)[0] == xs[0] && (xs + ys)[1..] == xs[1..] + ys;
      StreamCat(xs[1..], ys);
    }
  }

  lemma StreamFirst(ms: seq<Message>)
    requires ms != [] && forall m :: m in ms ==> Sendable(m)
    ensures Stream(Frames(ms)) == Frame(ms[0]) + Stream(Frames(ms[1..]))
  {
  }

  lemma BeginKeeps(b: Bus, ms: seq<Message>, capacity: nat, k: nat, j: nat)
    requires Inv(b, ms, capacity, k, j) && CanBegin(b)
    ensures Inv(Begin(b), ms, capacity, k, j + 1)
  {
    hide Clips, Frame, Header, Stream, Frames;
    BeginFits(b, ms, capacity, k, j);
    FramesFrom(ms, j);
    StreamTo(ms, k, j);
    assert b.fifo + b.pending == b.fifo;
    assert Taken(b.reader) + b.fifo + Frame(ms[j]) == Taken(b.reader) + (b.fifo + Frame(ms[j]));
  }

  lemma BeginFits(b: Bus, ms: seq<Message>, capacity: nat, k: nat, j: nat)
    requires Inv(b, ms, capacity, k, j) && CanBegin(b)
    ensures j < |ms|
  {
  }

  lemma FramesFrom(ms: seq<Message>, j: nat)
    requires j < |ms| && forall m :: m in ms ==> Sendable(m)
    ensures Frames(ms[j..]) == [Frame(ms[j])] + Frames(ms[j + 1..])
  {
    assert ms[j..][1..] == ms[j + 1..];
  }

  lemma StreamTo(ms: seq<Message>, k: nat, j: nat)
    requires k <= j < |ms| && forall m :: m in ms ==> Sendable(m)
    ensures Stream(Frames(ms[k..j + 1])) == Stream(Frames(ms[k..j])) + Frame(ms[j])
  {
    hide Frame;
    assert ms[k..j + 1] == ms[k..j] + [ms[j]];
    assert forall m :: m in ms[k..j + 1] ==> m in ms;
    StreamCat(ms[k..j], [ms[j]]);
    StreamFirst([ms[j]]);
    EmptyStream();
    assert [ms[j]][1..] == [];
  }

  lemma WriteKeeps(b: Bus, ms: seq<Message>, capacity: nat, k: nat, j: nat)
    requires Inv(b, ms, capacity, k, j) && CanWrite(b)
    ensures Inv(Write(b), ms, capacity, k, j)
  {
    assert b.pending == [b.pending[0]] + b.pending[1..];
    assert b.fifo + [b.pending[0]] + b.pending[1..] == b.fifo + b.pending;
  }

  lemma EmptyStream()
    ensures Stream(Frames([])) == []
  {
  }

  // The receiver is inside the frame of message k.
  lemma InsideFrame(b: Bus, ms: seq<Message>, capacity: nat, k: nat, j: nat)
    requires Inv(b, ms, capacity, k, j) && Taken(b.reader) + b.fifo != []
    ensures k < j && Sendable(ms[k])
    ensures var f := Frame(ms[k]);
            forall i :: 0 <= i < |f| && i < |Taken(b.reader) + b.fifo| ==> f[i] == (Taken(b.reader) + b.fifo)[i]
    ensures Stream(Frames(ms[k..j])) == Frame(ms[k]) + Stream(Frames(ms[k + 1..j]))
    ensures |Taken(b.reader)| < |Frame(ms[k])|
  {
    var here := ms[k..j];
    var s := Taken(b.reader) + b.fifo + b.pending;
    assert s == Taken(b.reader) + (b.fifo + b.pending);
    EmptyStream();
    assert here != [];
    assert here[0] == ms[k] && here[1..] == ms[k + 1..j];
    StreamFirst(here);
    var f := Frame(ms[k]);
    assert s == f + Stream(Frames(here[1..]));
    forall i | 0 <= i < |f| && i < |Taken(b.reader) + b.fifo| ensures f[i] == (Taken(b.reader) + b.fifo)[i] {
      assert s[i] == f[i];
    }
    if b.reader.Reading? {
      assert f[1] == s[1] == b.reader.n;
    }
  }

  lemma TakeKeeps(b: Bus, ms: seq<Message>, capacity: nat, k: nat, j: nat)
    requires Inv(b, ms, capacity, k, j) && CanTake(b)
    ensures exists k' :: Inv(Take(b, capacity), ms, capacity, k', j)
  {
    hide Inv, Take;
    if Take(b, capacity).reader.Idle? {
      LastKeeps(b, ms, capacity, k, j);
    } else {
      NextKeeps(b, ms, capacity, k, j);
    }
  }

  // A word within a frame.
  lemma NextKeeps(b: Bus, ms: seq<Message>, capacity: nat, k: nat, j: nat)
    requires Inv(b, ms, capacity, k, j) && CanTake(b) && !Take(b, capacity).reader.Idle?
    ensures Inv(Take(b, capacity), ms, capacity, k, j)
  {
    hide Frames, Stream, Clips, Unframe, Header;
    InsideFrame(b, ms, capacity, k, j);
    var f := Frame(ms[k]);
    var w := b.fifo[0];
    var b' := Take(b, capacity);
    var had := Taken(b.reader);
    assert f[|had|] == (had + b.fifo)[|had|] == w;
    assert b.reader.Headed? ==> w == |ms[k].paras|;
    assert Taken(b'.reader) == had + [w];
    OneWordOn(had, b.fifo, b.pending);
  }

  lemma OneWordOn(had: words, fifo: words, pending: words)
    requires fifo != []
    ensures had + (fifo + pending) == had + [fifo[0]] + (fifo[1..] + pending)
  {
  }

  lemma LastKeeps(b: Bus, ms: seq<Message>, capacity: nat, k: nat, j: nat)
    requires Inv(b, ms, capacity, k, j) && CanTake(b) && Take(b, capacity).reader.Idle?
    ensures Inv(Take(b, capacity), ms, capacity, k + 1, j)
  {
    hide Frames, Stream, Unframe, Header, Frame;
    InsideFrame(b, ms, capacity, k, j);
    LastWord(b, ms, capacity, k, j);
    UnframeFrame(ms[k], capacity);
    OneWordOn(Taken(b.reader), b.fifo, b.pending);
    var b' := Take(b, capacity);
    assert ms[..k + 1][..k] == ms[..k];
    CancelLeft(Frame(ms[k]), b'.fifo + b.pending, Stream(Frames(ms[k + 1..j])));
  }

  // The word that ends a frame: what was read is the frame.
  lemma LastWord(b: Bus, ms: seq<Message>, capacity: nat, k: nat, j: nat)
    requires Inv(b, ms, capacity, k, j) && CanTake(b) && k < j && Sendable(ms[k])
    requires Take(b, capacity).reader.Idle?
    ensures Taken(b.reader) + [b.fifo[0]] == Frame(ms[k])
    ensures Take(b, capacity).delivered == b.delivered + [Unframe(Header(ms[k]), ms[k].paras, capacity)]
  {
    InsideFrame(b, ms, capacity, k, j);
    var f := Frame(ms[k]);
    var s := Taken(b.reader) + b.fifo;
    var w := b.fifo[0];
    var m := |Taken(b.reader)|;
    assert s[m] == w;
    assert f[0] == s[0] && f[1] == s[1] == |ms[k].paras|;
    if b.reader.Reading? {
      assert b.reader.n == |ms[k].paras| && |b.reader.got| + 1 == b.reader.n;
    }
    assert |f| == m + 1;
    assert Taken(b.reader) + [w] == f by {
      forall i | 0 <= i < |f| ensures f[i] == (Taken(b.reader) + [w])[i] {
        assert f[i] == s[i];
      }
    }
    if b.reader.Reading? {
      assert f[2..] == ms[k].paras && (Taken(b.reader) + [w])[2..] == b.reader.got + [w];
    } else {
      assert ms[k].paras == [];
    }
  }

  // --- Whole runs ---

  function Start(ms: seq<Message>): Bus
    requires forall m :: m in ms ==> Sendable(m)
  {
    Bus(Frames(ms), 0, [], [], Idle, [])
  }

  lemma StartInv(ms: seq<Message>, capacity: nat)
    requires forall m :: m in ms ==> Sendable(m)
    ensures Inv(Start(ms), ms, capacity, 0, 0)
  {
    assert ms[0..] == ms && ms[0..0] == [] && ms[..0] == [];
  }

  lemma StepKeeps(b: Bus, b': Bus, ms: seq<Message>, capacity: nat, k: nat, j: nat)
    requires Inv(b, ms, capacity, k, j) && Step(b, b', capacity)
    ensures exists k', j' :: Inv(b', ms, capacity, k', j')
  {
    hide Inv, Take, Begin, Write;
    if CanBegin(b) && b' == Begin(b) {
      BeginFits(b, ms, capacity, k, j);
      BeginKeeps(b, ms, capacity, k, j);
    } else if CanWrite(b) && b' == Write(b) {
      WriteKeeps(b, ms, capacity, k, j);
    } else {
      TakeKeeps(b, ms, capacity, k, j);
    }
  }

  // The words left to handle, weighted by how far they still have to go.
  function Left(b: Bus): nat {
    3 * |Stream(b.todo)| + 2 * |b.pending| + |b.fifo|
  }

  lemma StepsUseUp(b: Bus, b': Bus, capacity: nat)
    requires Step(b, b', capacity)
    ensures Left(b') < Left(b)
  {
    hide Unframe;
    if CanTake(b) && b' == Take(b, capacity) {
      assert b'.todo == b.todo && b'.pending == b.pending && |b'.fifo| == |b.fifo| - 1;
    }
  }

  // No deadlock: when neither side can go on, every message is delivered.
  lemma StuckMeansDone(b: Bus, ms: seq<Message>, capacity: nat, k: nat, j: nat)
    requires Inv(b, ms, capacity, k, j)
    requires Stuck(b)
    ensures b.todo == [] && b.pending == [] && b.fifo == [] && b.reader.Idle?
    ensures b.delivered == Clips(ms, capacity)
  {
    hide Clips, Header;
    if Taken(b.reader) + b.fifo != [] {
      InsideFrame(b, ms, capacity, k, j);
      LongEnough(b, ms, capacity, k, j);
      assert false;
    }
    assert b.reader.Idle? && b.fifo == [];
    assert b.pending == [];
    assert ms[..k] == ms;
  }

  // With nothing left to write the rest of the frame is in the FIFO.
  lemma LongEnough(b: Bus, ms: seq<Message>, capacity: nat, k: nat, j: nat)
    requires Inv(b, ms, capacity, k, j) && k < j
    requires Stream(Frames(ms[k..j])) == Frame(ms[k]) + Stream(Frames(ms[k + 1..j]))
    requires |Taken(b.reader)| < |Frame(ms[k])|
    ensures CanWrite(b) || CanTake(b)
  {
    hide Clips, Header;
    var s := Taken(b.reader) + (b.fifo + b.pending);
    assert |s| >= |Frame(ms[k])| >= 2;
    assert |s| == |Taken(b.reader)| + |b.fifo| + |b.pending|;
  }

  ghost predicate IsRun(run: seq<Bus>, ms: seq<Message>, capacity: nat) {
    && (forall m :: m in ms ==> Sendable(m))
    && run != [] && run[0] == Start(ms)
    && forall i {:trigger run[i]} :: 0 <= i < |run| - 1 ==> Step(run[i], run[i + 1], capacity)
  }

  lemma {:induction false} RunKeeps(run: seq<Bus>, ms: seq<Message>, capacity: nat) returns (k: nat, j: nat)
    requires IsRun(run, ms, capacity)
    ensures Inv(run[|run| - 1], ms, capacity, k, j)
    ensures Left(run[|run| - 1]) + |run| <= 3 * |Stream(Frames(ms))| + 1
  {
    hide Step, Inv, Left;
    if |run| == 1 {
      StartInv(ms, capacity);
      StartLeft(ms);
      k, j := 0, 0;
    } else {
      var before := run[..|run| - 1];
      forall i | 0 <= i < |before| - 1 ensures Step(before[i], before[i + 1], capacity) {
        assert before[i] == run[i] && before[i + 1] == run[i + 1];
      }
      var k0, j0 := RunKeeps(before, ms, capacity);
      var i := |run| - 2;
      assert Step(run[i], run[i + 1], capacity);
      StepKeeps(run[i], run[i + 1], ms, capacity, k0, j0);
      StepsUseUp(run[i], run[i + 1], capacity);
      k, j :| Inv(run[i + 1], ms, capacity, k, j);
    }
  }

  lemma StartLeft(ms: seq<Message>)
    requires forall m :: m in ms ==> Sendable(m)
    ensures Left(Start(ms)) == 3 * |Stream(Frames(ms))|
  {
  }

  // Under every interleaving the messages received so far are the first ones
  // sent, in order and clipped to the receiver's buffer.
  lemma DeliveredInOrder(run: seq<Bus>, ms: seq<Message>, capacity: nat)
    requires IsRun(run, ms, capacity)
    ensures exists k: nat :: k <= |ms| && run[|run| - 1].delivered == Clips(ms[..k], capacity)
  {
    var k, j := RunKeeps(run, ms, capacity);
  }

  // And no interleaving goes on for ever or stops before the last message.
  lemma AllDelivered(run: seq<Bus>, ms: seq<Message>, capacity: nat)
    requires IsRun(run, ms, capacity)
    ensures |run| <= 3 * |Stream(Frames(ms))| + 1
    ensures NoStep(run[|run| - 1], capacity) ==> run[|run| - 1].delivered == Clips(ms, capacity)
  {
    hide Inv, Left, Stuck, NoStep;
    var k, j := RunKeeps(run, ms, capacity);
    StuckMeans(run[|run| - 1], capacity);
    if NoStep(run[|run| - 1], capacity) {
      StuckMeansDone(run[|run| - 1], ms, capacity, k, j);
    }
  }

  // A frame that fits the FIFO, once begun, can always go on: in no state of
  // any run does the wait for room for its next word block.
  lemma ShortFrameGoesOn(run: seq<Bus>, ms: seq<Message>, capacity: nat, i: nat)
    requires IsRun(run, ms, capacity) && i < |run|
    ensures run[i].pending != [] && run[i].total <= FIFO_DEPTH ==> CanWrite(run[i])
  {
    hide Step, Left;
    var before := run[..i + 1];
    forall x | 0 <= x < |before| - 1 ensures Step(before[x], before[x + 1], capacity) {
      assert before[x] == run[x] && before[x + 1] == run[x + 1];
    }
    var k, j := RunKeeps(before, ms, capacity);
    assert before[|before| - 1] == run[i];
  }
}
