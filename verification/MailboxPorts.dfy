// hwmsgbox-extended.c: the code of the two sides, each against a peer that
// moves between any two accesses to the FIFO.
module MailboxPorts {
  import opened Mailbox
  import opened MailboxSync

  const OK: int := 0
  const EINVAL: int := 1
  const ETIMEOUT: int := 2
  const E2BIG: int := 3
  const FAIL: int := 4

  const MESSAGE_PARA_MAX: nat := 32
  const RX_DRAIN_MAX: nat := 128

  ghost predicate Chain(run: seq<Bus>, capacity: nat) {
    run != [] && forall i {:trigger run[i]} :: 0 <= i < |run| - 1 ==> Step(run[i], run[i + 1], capacity)
  }

  // Steps of the machine lead from b to b'.
  ghost predicate Reaches(b: Bus, b': Bus, capacity: nat) {
    exists run :: Chain(run, capacity) && run[0] == b && run[|run| - 1] == b'
  }

  lemma ReachesSelf(b: Bus, capacity: nat)
    ensures Reaches(b, b, capacity)
  {
    assert Chain([b], capacity);
  }

  lemma ReachesStep(b: Bus, c: Bus, d: Bus, capacity: nat)
    requires Reaches(b, c, capacity) && Step(c, d, capacity)
    ensures Reaches(b, d, capacity)
  {
    hide Step;
    var run :| Chain(run, capacity) && run[0] == b && run[|run| - 1] == c;
    var longer := run + [d];
    forall i | 0 <= i < |longer| - 1 ensures Step(longer[i], longer[i + 1], capacity) {
      assert longer[i] == run[i];
    }
    assert Chain(longer, capacity);
  }

  lemma ReachesOn(a: Bus, b: Bus, c: Bus, capacity: nat)
    requires Reaches(a, b, capacity) && Reaches(b, c, capacity)
    ensures Reaches(a, c, capacity)
  {
    hide Step;
    var run :| Chain(run, capacity) && run[0] == a && run[|run| - 1] == b;
    var more :| Chain(more, capacity) && more[0] == b && more[|more| - 1] == c;
    ChainsJoin(run, more, capacity);
  }

  lemma ChainsJoin(run: seq<Bus>, more: seq<Bus>, capacity: nat)
    requires Chain(run, capacity) && Chain(more, capacity) && run[|run| - 1] == more[0]
    ensures var longer := run + more[1..];
            Chain(longer, capacity) && longer[0] == run[0] && longer[|longer| - 1] == more[|more| - 1]
  {
    hide Step;
    var longer := run + more[1..];
    forall i | 0 <= i < |longer| - 1 ensures Step(longer[i], longer[i + 1], capacity) {
      if i < |run| - 1 {
        assert longer[i] == run[i] && longer[i + 1] == run[i + 1];
      } else {
        var x := i - (|run| - 1);
        assert longer[i] == more[x] && longer[i + 1] == more[x + 1];
      }
    }
  }

  lemma ReachesLeads(a: Bus, b: Bus, capacity: nat)
    requires Reaches(a, b, capacity)
    ensures Leads(a, b, capacity)
  {
    hide Step;
    var run :| Chain(run, capacity) && run[0] == a && run[|run| - 1] == b;
    assert AnyChain(run, capacity);
  }

  // A run of the machine continues through whatever the code did.
  lemma RunContinues(run: seq<Bus>, ms: seq<Message>, b: Bus, capacity: nat)
    requires IsRun(run, ms, capacity) && Reaches(run[|run| - 1], b, capacity)
    ensures exists longer :: IsRun(longer, ms, capacity) && longer[|longer| - 1] == b
  {
    hide Step;
    var more :| Chain(more, capacity) && more[0] == run[|run| - 1] && more[|more| - 1] == b;
    ChainsJoin(run, more, capacity);
    assert IsRun(run + more[1..], ms, capacity);
  }

  function TakeSome(b: Bus, n: nat, capacity: nat): Bus
    decreases n
  {
    if n == 0 || !CanTake(b) then b else TakeSome(Take(b, capacity), n - 1, capacity)
  }

  // The sender's view of a receiver at work: words only go away.
  lemma {:induction false} TakeSomeReaches(a: Bus, b: Bus, n: nat, capacity: nat)
    requires Reaches(a, b, capacity)
    ensures var b' := TakeSome(b, n, capacity);
            && Reaches(a, b', capacity)
            && b'.todo == b.todo && b'.total == b.total && b'.pending == b.pending && |b'.fifo| <= |b.fifo|
    decreases n
  {
    hide Reaches;
    if n != 0 && CanTake(b) {
      ReachesStep(a, b, Take(b, capacity), capacity);
      TakeSomeReaches(a, Take(b, capacity), n - 1, capacity);
    }
  }

  function SendSome(b: Bus, n: nat): Bus
    decreases n
  {
    if n == 0 then b
    else if CanWrite(b) then SendSome(Write(b), n - 1)
    else if CanBegin(b) then SendSome(Begin(b), n - 1)
    else b
  }

  // The receiver's view of a sender at work: words are only added.
  lemma {:induction false} SendSomeReaches(a: Bus, b: Bus, n: nat, capacity: nat)
    requires Reaches(a, b, capacity)
    ensures var b' := SendSome(b, n);
            && Reaches(a, b', capacity)
            && b'.reader == b.reader && b'.delivered == b.delivered && b.fifo <= b'.fifo
    decreases n
  {
    hide Reaches;
    if n != 0 && CanWrite(b) {
      ReachesStep(a, b, Write(b), capacity);
      SendSomeReaches(a, Write(b), n - 1, capacity);
    } else if n != 0 && CanBegin(b) {
      ReachesStep(a, b, Begin(b), capacity);
      SendSomeReaches(a, Begin(b), n - 1, capacity);
    }
  }

  // The sender's end of the FIFO.
  class TxPort {
    var bus: Bus
    var clock: nat
    const peer: nat -> nat
    const capacity: nat
    ghost const begun: Bus

    // All that happened is steps of the machine, and a short frame has its
    // room reserved.
    ghost predicate Valid()
      reads this
    {
      && Reaches(begun, bus, capacity)
      && |bus.fifo| <= FIFO_DEPTH
      && (bus.pending != [] && bus.total <= FIFO_DEPTH ==> |bus.fifo| + |bus.pending| <= FIFO_DEPTH)
    }

    constructor (bus: Bus, peer: nat -> nat, capacity: nat)
      requires |bus.fifo| <= FIFO_DEPTH && bus.pending == []
      ensures Valid() && this.bus == begun == bus
    {
      this.bus, this.peer, this.capacity, begun, clock := bus, peer, capacity, bus, 0;
      new;
      ReachesSelf(bus, capacity);
    }

    // MSGBOX_RISC_TO_ARM_MSG_STATUS_REG.
    method Status() returns (n: nat)
      requires Valid()
      modifies this
      ensures Valid() && n == |bus.fifo| <= old(|bus.fifo|)
      ensures bus.todo == old(bus.todo) && bus.total == old(bus.total) && bus.pending == old(bus.pending)
    {
      TakeSomeReaches(begun, bus, peer(clock), capacity);
      bus := TakeSome(bus, peer(clock), capacity);
      clock := clock + 1;
      return |bus.fifo|;
    }

    // MSGBOX_RISC_TO_ARM_MSG_REG. Only a FIFO with room takes a word, and the
    // word is the next one of the frame.
    method WriteWord(w: word)
      requires Valid() && CanWrite(bus) && w == bus.pending[0]
      modifies this
      ensures Valid() && bus == Write(old(bus))
    {
      ReachesStep(begun, bus, Write(bus), capacity);
      bus := bus.(pending := bus.pending[1..], fifo := bus.fifo + [w]);
    }

    // hwmsgbox_wait_queue_space.
    method WaitSpace(needed: nat, timeout: nat) returns (ret: int)
      requires Valid()
      modifies this
      ensures Valid()
      ensures bus.todo == old(bus.todo) && bus.total == old(bus.total) && bus.pending == old(bus.pending)
      ensures ret == EINVAL || ret == ETIMEOUT || ret == OK
      ensures ret == EINVAL <==> needed > FIFO_DEPTH
      ensures ret == OK ==> |bus.fifo| <= FIFO_DEPTH - needed
    {
      if needed > FIFO_DEPTH {
        return EINVAL;
      }
      var left := timeout;
      var n := Status();
      while n > FIFO_DEPTH - needed
        invariant Valid() && n == |bus.fifo|
        invariant bus.todo == old(bus.todo) && bus.total == old(bus.total) && bus.pending == old(bus.pending)
        decreases left
      {
        if left == 0 {
          return ETIMEOUT;
        }
        left := left - 1;
        n := Status();
      }
      return OK;
    }

    // hwmsgbox_wait_queue_not_full.
    method WaitNotFull(timeout: nat) returns (ret: int)
      requires Valid()
      modifies this
      ensures Valid()
      ensures bus.todo == old(bus.todo) && bus.total == old(bus.total) && bus.pending == old(bus.pending)
      ensures ret == ETIMEOUT || ret == OK
      ensures ret == OK ==> |bus.fifo| < FIFO_DEPTH
      ensures old(bus.pending) != [] && old(bus.total) <= FIFO_DEPTH ==> ret == OK
    {
      var left := timeout;
      var n := Status();
      while n == FIFO_DEPTH
        invariant Valid() && n == |bus.fifo|
        invariant bus.todo == old(bus.todo) && bus.total == old(bus.total) && bus.pending == old(bus.pending)
        decreases left
      {
        if left == 0 {
          return ETIMEOUT;
        }
        left := left - 1;
        n := Status();
      }
      return OK;
    }

    // Wait for room, then the next word.
    method Push(w: word, timeout: nat) returns (ret: int)
      requires Valid() && bus.pending != [] && w == bus.pending[0]
      modifies this
      ensures Valid() && bus.todo == old(bus.todo) && bus.total == old(bus.total)
      ensures ret == ETIMEOUT || ret == OK
      ensures bus.pending == if ret == OK then old(bus.pending)[1..] else old(bus.pending)
      ensures old(bus.total) <= FIFO_DEPTH ==> ret == OK
    {
      ret := WaitNotFull(timeout);
      if ret == OK {
        WriteWord(w);
      }
    }

    // The next frame's first word may be written from now on. The hardware does
    // nothing here.
    method BeginFrame()
      requires Valid() && CanBegin(bus)
      modifies this`bus
      ensures Valid() && bus == Begin(old(bus))
    {
      ReachesStep(begun, bus, Begin(bus), capacity);
      bus := Begin(bus);
    }

    // hwmsgbox_send_message: the frame of an asynchronous message.
    method SendMessage(m: Message, timeout: nat) returns (ret: int)
      requires Valid() && bus.pending == [] && Sendable(m)
      requires bus.todo != [] && bus.todo[0] == Frame(m)
      modifies this
      ensures Valid()
      ensures ret == OK || ret == EINVAL || ret == ETIMEOUT
      ensures ret == EINVAL <==> |m.paras| > MESSAGE_PARA_MAX
      ensures ret == EINVAL ==> bus == old(bus)
      ensures ret == OK ==> bus.todo == old(bus.todo)[1..] && bus.pending == []
      ensures ret == ETIMEOUT && HEADER_WORDS + |m.paras| <= FIFO_DEPTH ==>
                bus.todo == old(bus.todo) && bus.pending == []
      ensures ret == ETIMEOUT && HEADER_WORDS + |m.paras| > FIFO_DEPTH ==>
                bus.todo == old(bus.todo)[1..] && exists i :: 0 <= i < |Frame(m)| && bus.pending == Frame(m)[i..]
    {
      hide Reaches, Stream;
      if |m.paras| > MESSAGE_PARA_MAX {
        return EINVAL;
      }
      var frameWords := HEADER_WORDS + |m.paras|;
      if frameWords <= FIFO_DEPTH {
        ret := WaitSpace(frameWords, timeout);
        if ret != OK {
          return;
        }
      }
      BeginFrame();
      ghost var rest := bus.todo;
      var value := m.state + m.attr * 0x100 + m.kind * 0x1_0000 + m.result * 0x100_0000;
      assert Frame(m)[0..] == Frame(m);
      ret := Push(value, timeout);
      if ret != OK {
        return;
      }
      ret := Push(|m.paras|, timeout);
      if ret != OK {
        return;
      }
      var i := 0;
      while i < |m.paras|
        invariant 0 <= i <= |m.paras| && Valid()
        invariant bus.todo == rest && bus.total == frameWords && bus.pending == Frame(m)[HEADER_WORDS + i..]
      {
        ret := Push(m.paras[i], timeout);
        if ret != OK {
          return;
        }
        i := i + 1;
      }
      return OK;
    }
  }

  // The receiver's end of the FIFO.
  class RxPort {
    var bus: Bus
    var clock: nat
    const peer: nat -> nat
    // Every word the FIFO has held, and those taken out of it, oldest first.
    ghost var arrived: words
    ghost var taken: words

    // No word is lost or made up.
    ghost predicate Valid()
      reads this
    {
      taken + bus.fifo == arrived
    }

    constructor (bus: Bus, peer: nat -> nat)
      ensures Valid() && this.bus == bus && taken == []
    {
      this.bus, this.peer, clock, taken, arrived := bus, peer, 0, [], bus.fifo;
    }

    // MSGBOX_ARM_TO_RISC_MSG_STATUS_REG.
    method Status(ghost capacity: nat) returns (n: nat)
      requires Valid()
      modifies this
      ensures Valid() && taken == old(taken) && old(arrived) <= arrived
      ensures n == |bus.fifo| && old(bus.fifo) <= bus.fifo
      ensures bus.reader == old(bus.reader) && bus.delivered == old(bus.delivered)
      ensures Reaches(old(bus), bus, capacity)
    {
      ReachesSelf(bus, capacity);
      SendSomeReaches(bus, bus, peer(clock), capacity);
      bus := SendSome(bus, peer(clock));
      clock := clock + 1;
      arrived := taken + bus.fifo;
      return |bus.fifo|;
    }

    // MSGBOX_ARM_TO_RISC_MSG_REG, a word of the frame.
    method ReadWord(capacity: nat) returns (w: word)
      requires Valid() && bus.fifo != []
      modifies this
      ensures Valid() && taken == old(taken) + [w] && arrived == old(arrived)
      ensures w == old(bus.fifo)[0] && bus == Take(old(bus), capacity)
      ensures CanTake(old(bus)) ==> Reaches(old(bus), bus, capacity)
    {
      hide Reaches, Take;
      if CanTake(bus) {
        ReachesSelf(bus, capacity);
        ReachesStep(bus, bus, Take(bus, capacity), capacity);
      }
      TakeFirst(bus, capacity);
      w := bus.fifo[0];
      bus := Take(bus, capacity);
      taken := taken + [w];
    }

    // The same register, a word thrown away.
    method DropWord()
      requires Valid() && bus.fifo != []
      modifies this
      ensures Valid() && taken == old(taken) + [old(bus.fifo)[0]] && arrived == old(arrived)
      ensures bus == old(bus).(fifo := old(bus.fifo)[1..], reader := Idle)
    {
      taken := taken + [bus.fifo[0]];
      bus := bus.(fifo := bus.fifo[1..], reader := Idle);
    }

    // hwmsgbox_wait_queue_not_empty.
    method WaitNotEmpty(timeout: nat, ghost capacity: nat) returns (ret: int)
      requires Valid()
      modifies this
      ensures Valid() && taken == old(taken) && old(arrived) <= arrived
      ensures ret == OK || ret == ETIMEOUT
      ensures ret == OK <==> bus.fifo != []
      ensures old(bus.fifo) <= bus.fifo
      ensures bus.reader == old(bus.reader) && bus.delivered == old(bus.delivered)
      ensures Reaches(old(bus), bus, capacity)
    {
      hide Reaches;
      var left := timeout;
      var n := Status(capacity);
      while n == 0
        invariant Valid() && taken == old(taken) && old(arrived) <= arrived
        invariant n == |bus.fifo| && old(bus.fifo) <= bus.fifo
        invariant bus.reader == old(bus.reader) && bus.delivered == old(bus.delivered)
        invariant Reaches(old(bus), bus, capacity)
        decreases left
      {
        if left == 0 {
          return ETIMEOUT;
        }
        left := left - 1;
        ghost var before := bus;
        n := Status(capacity);
        ReachesOn(old(bus), before, bus, capacity);
      }
      return OK;
    }

    // Wait for a word and take it.
    method Pull(timeout: nat, capacity: nat) returns (ret: int, w: word)
      requires Valid()
      modifies this
      ensures Valid() && old(arrived) <= arrived
      ensures ret == OK || ret == ETIMEOUT
      ensures old(bus.fifo) != [] ==> ret == OK && old(bus.fifo)[1..] <= bus.fifo
      ensures ret == OK ==> Took(old(bus), bus, w, capacity) && taken == old(taken) + [w]
      ensures ret != OK ==>
                && taken == old(taken) && bus.fifo == []
                && bus.reader == old(bus.reader) && bus.delivered == old(bus.delivered)
      ensures (old(bus.reader.Idle?) ==> old(|bus.fifo|) >= HEADER_WORDS) ==> Reaches(old(bus), bus, capacity)
    {
      hide Reaches;
      w := 0;
      ret := WaitNotEmpty(timeout, capacity);
      if ret == OK {
        ghost var before := bus;
        w := ReadWord(capacity);
        if CanTake(before) {
          ReachesOn(old(bus), before, bus, capacity);
        }
      }
    }

    // The drain at the end of a frame that did not come in time.
    method Drain(ghost capacity: nat) returns (n: nat)
      requires Valid()
      modifies this
      ensures Valid() && old(arrived) <= arrived
      ensures n <= RX_DRAIN_MAX && (bus.fifo == [] || n == RX_DRAIN_MAX)
      ensures |taken| == old(|taken|) + n && taken[..old(|taken|)] == old(taken)
      ensures bus.reader.Idle? && bus.delivered == old(bus.delivered)
      ensures Leads(old(bus), bus, capacity)
    {
      hide Reaches, Leads;
      n := 0;
      LeadsSelf(bus, capacity);
      LeadsStep(bus, bus, GiveUp(bus), capacity);
      bus := bus.(reader := Idle);
      while n < RX_DRAIN_MAX
        invariant Valid() && old(arrived) <= arrived
        invariant n <= RX_DRAIN_MAX && bus.reader.Idle?
        invariant |taken| == old(|taken|) + n && taken[..old(|taken|)] == old(taken)
        invariant bus.delivered == old(bus.delivered)
        invariant Leads(old(bus), bus, capacity)
      {
        ghost var before := bus;
        var status := Status(capacity);
        ReachesLeads(before, bus, capacity);
        LeadsOn(old(bus), before, bus, capacity);
        if status == 0 {
          return;
        }
        before := bus;
        DropWord();
        LeadsStep(old(bus), before, bus, capacity);
        n := n + 1;
      }
    }

    // The parameter loop of hwmsgbox_receive_message.
    method ReceiveParas(paras: array<word>, header: word, count: nat, capacity: nat, timeout: nat)
      returns (ret: int, ghost got: words)
      requires Valid() && capacity <= paras.Length
      requires count > 0 ==> bus.reader == Reading(header, count, [])
      modifies this, paras
      ensures Valid() && old(arrived) <= arrived
      ensures ret == OK || ret == ETIMEOUT
      ensures taken == old(taken) + got
      ensures ret == OK ==> |got| == count
      ensures Reaches(old(bus), bus, capacity)
      ensures ret == OK && count == 0 ==> bus == old(bus)
      ensures ret == OK && count > 0 ==>
                bus.reader.Idle? && bus.delivered == old(bus.delivered) + [Unframe(header, got, capacity)]
      ensures ret == ETIMEOUT ==>
                && |got| < count && bus.reader == Reading(header, count, got)
                && bus.fifo == [] && bus.delivered == old(bus.delivered)
      ensures paras[..|First(got, capacity)|] == First(got, capacity)
      ensures paras[|First(got, capacity)|..] == old(paras[..])[|First(got, capacity)|..]
    {
      hide Reaches, Unframe, First;
      FirstSize(capacity);
      got := [];
      ReachesSelf(bus, capacity);
      var i := 0;
      while i < count
        invariant Valid() && old(arrived) <= arrived
        invariant 0 <= i <= count && |got| == i && taken == old(taken) + got
        invariant i == 0 ==> bus == old(bus)
        invariant i < count ==> bus.reader == Reading(header, count, got) && bus.delivered == old(bus.delivered)
        invariant 0 < i == count ==>
                    bus.reader.Idle? && bus.delivered == old(bus.delivered) + [Unframe(header, got, capacity)]
        invariant Reaches(old(bus), bus, capacity)
        invariant paras[..|First(got, capacity)|] == First(got, capacity)
        invariant paras[|First(got, capacity)|..] == old(paras[..])[|First(got, capacity)|..]
      {
        var w;
        ghost var before := bus;
        ret, w := Pull(timeout, capacity);
        ReachesOn(old(bus), before, bus, capacity);
        if ret != OK {
          return;
        }
        StorePara(paras, i, w, capacity, got);
        got := got + [w];
        i := i + 1;
      }
      ret := OK;
    }

    // hwmsgbox_receive_message. Either the whole frame is taken out, none of it
    // kept beyond the buffer; or the FIFO was seen empty within the frame, in
    // state last, and what came later was thrown away.
    method ReceiveMessage(paras: array<word>, capacity: nat, timeout: nat)
      returns (ret: int, d: Delivery, ghost drained: nat, ghost last: Bus)
      requires Valid() && bus.reader.Idle? && capacity <= paras.Length
      modifies this, paras
      ensures Valid() && old(arrived) <= arrived
      ensures ret == OK || ret == E2BIG || ret == ETIMEOUT
      ensures bus.reader.Idle? && old(|taken|) <= |taken| && taken[..old(|taken|)] == old(taken)
      ensures ret != ETIMEOUT ==>
                && |taken| == old(|taken|) + HEADER_WORDS + d.count && d.count == taken[old(|taken|) + 1] % 0x100
                && d == Unframe(taken[old(|taken|)], taken[old(|taken|) + HEADER_WORDS..], capacity)
                && (ret == OK <==> d.fits)
                && bus.delivered == old(bus.delivered) + [d]
      ensures ret != ETIMEOUT && old(|bus.fifo|) >= HEADER_WORDS ==> Reaches(old(bus), bus, capacity)
      ensures ret != ETIMEOUT ==> |d.stored| <= capacity && paras[..|d.stored|] == d.stored
      ensures ret != ETIMEOUT ==> paras[|d.stored|..] == old(paras[|d.stored|..])
      ensures ret == ETIMEOUT ==>
                && drained <= RX_DRAIN_MAX && (bus.fifo == [] || drained == RX_DRAIN_MAX)
                && old(|taken|) + drained <= |taken|
                && InFrame(last.reader, taken[old(|taken|)..|taken| - drained]) && last.fifo == []
                && last.delivered == bus.delivered == old(bus.delivered)
                && (old(|bus.fifo|) >= HEADER_WORDS ==> last.reader.Reading?)
                && (old(|bus.fifo|) >= HEADER_WORDS ==> Reaches(old(bus), last, capacity))
                && Leads(last, bus, capacity)
    {
      hide Reaches, Leads, Unframe, First, InFrame, Valid;
      drained := 0;
      FirstSize(capacity);
      d := Unframe(0, [], 0);
      ghost var was := taken;
      ghost var words;
      var header, n;
      ret, header, n, words := ReadHeader(capacity, timeout);
      last := bus;
      if ret != OK {
        drained := Drain(capacity);
        TakenParts(taken, was, words, drained);
        return;
      }
      var count: nat := n % 0x100;
      ghost var got;
      ghost var headed := bus;
      ret, got := ReceiveParas(paras, header, count, capacity, timeout);
      if old(|bus.fifo|) >= HEADER_WORDS {
        ReachesOn(old(bus), headed, bus, capacity);
      }
      last := bus;
      if ret != OK {
        drained := Drain(capacity);
        PartRead(header, n, got);
        assert was + [header, n] + got == was + ([header, n] + got);
        TakenParts(taken, was, [header, n] + got, drained);
        return;
      }
      d := Delivery(header % 0x100, header / 0x100 % 0x100, header / 0x1_0000 % 0x100, header / 0x100_0000 % 0x100,
                    count, paras[..if count <= capacity then count else capacity], count <= capacity);
      UnframeIs(header, got, capacity);
      WholeFrame(was, header, n, got);
      ret := if count > capacity then E2BIG else OK;
    }

    // The two header words.
    method ReadHeader(capacity: nat, timeout: nat) returns (ret: int, header: word, n: word, ghost words: words)
      requires Valid() && bus.reader.Idle?
      modifies this
      ensures Valid() && old(arrived) <= arrived && taken == old(taken) + words
      ensures ret == OK || ret == ETIMEOUT
      ensures ret == OK ==> words == [header, n]
      ensures ret == OK && n % 0x100 > 0 ==>
                bus.reader == Reading(header, n % 0x100, []) && bus.delivered == old(bus.delivered)
      ensures ret == OK && n % 0x100 == 0 ==>
                bus.reader.Idle? && bus.delivered == old(bus.delivered) + [Unframe(header, [], capacity)]
      ensures ret == ETIMEOUT ==>
                && old(|bus.fifo|) < HEADER_WORDS && bus.fifo == [] && bus.delivered == old(bus.delivered)
                && InFrame(bus.reader, words)
      ensures old(|bus.fifo|) >= HEADER_WORDS ==> Reaches(old(bus), bus, capacity)
    {
      hide Reaches, Unframe;
      n, words := 0, [];
      ret, header := Pull(timeout, capacity);
      if ret != OK {
        return;
      }
      words := [header];
      ghost var headed := bus;
      ret, n := Pull(timeout, capacity);
      if old(|bus.fifo|) >= HEADER_WORDS {
        ReachesOn(old(bus), headed, bus, capacity);
      }
      if ret == OK {
        words := [header, n];
      }
    }
  }

  lemma WholeFrame(was: words, header: word, n: word, got: words)
    ensures var s := was + [header, n] + got;
            s[..|was|] == was && s[|was|] == header && s[|was| + 1] == n && s[|was| + HEADER_WORDS..] == got
  {
  }

  // Some words after those of was, and then n more.
  lemma TakenParts(taken: words, was: words, words: words, n: nat)
    requires |taken| == |was| + |words| + n && taken[..|was| + |words|] == was + words
    ensures taken[..|was|] == was && taken[|was|..|taken| - n] == words
  {
    assert taken[..|was|] == taken[..|was| + |words|][..|was|];
    assert taken[|was|..|taken| - n] == taken[..|was| + |words|][|was|..];
  }

  lemma TakeFirst(b: Bus, capacity: nat)
    requires b.fifo != []
    ensures Take(b, capacity).fifo == b.fifo[1..]
  {
  }

  lemma PartRead(header: word, n: word, got: words)
    requires |got| < n % 0x100
    ensures InFrame(Reading(header, n % 0x100, got), [header, n] + got)
  {
  }

  // The words w are what the receiver has of an unfinished frame.
  ghost predicate InFrame(r: Reader, w: words) {
    match r
    case Idle => w == []
    case Headed(h) => w == [h]
    case Reading(h, n, got) =>
      |w| == HEADER_WORDS + |got| && w[0] == h && w[1] % 0x100 == n && w[HEADER_WORDS..] == got && |got| < n
  }

  // Parameter i, if the buffer has a place for it.
  method StorePara(paras: array<word>, i: nat, w: word, capacity: nat, ghost got: words)
    requires capacity <= paras.Length && |got| == i
    requires paras[..|First(got, capacity)|] == First(got, capacity)
    modifies paras
    ensures var now := First(got + [w], capacity);
            paras[..|now|] == now && paras[|now|..] == old(paras[..])[|now|..]
  {
    if i < capacity {
      paras[i] := w;
    } else {
      assert First(got + [w], capacity) == First(got, capacity);
    }
  }

  // The receiver of one queue has taken either nothing or a whole header.
  twostate predicate NoLoneHeader(p: RxPort)
    reads p
  {
    p.taken == old(p.taken) || (|p.taken| >= |old(p.taken)| + HEADER_WORDS && old(p.taken) <= p.taken)
  }

  // hwmsgbox_query_message on the asynchronous and the synchronous queue; they
  // may be one queue. A frame is begun only when both its header words are
  // there.
  method QueryMessage(asyn: RxPort, syn: RxPort, paras: array<word>, capacity: nat, timeout: nat)
    returns (ret: int, d: Delivery, ghost second: bool)
    requires asyn.Valid() && syn.Valid() && asyn.bus.reader.Idle? && syn.bus.reader.Idle? && capacity <= paras.Length
    modifies asyn, syn, paras
    ensures asyn.Valid() && syn.Valid() && asyn.bus.reader.Idle? && syn.bus.reader.Idle?
    ensures ret == EINVAL <==> capacity > MESSAGE_PARA_MAX
    ensures NoLoneHeader(asyn) && NoLoneHeader(syn)
    ensures ret == EINVAL ==> unchanged(asyn) && unchanged(syn) && unchanged(paras)
    ensures ret == FAIL ==>
              && asyn.taken == old(asyn.taken) && syn.taken == old(syn.taken) && unchanged(paras)
              && asyn.bus.delivered == old(asyn.bus.delivered) && syn.bus.delivered == old(syn.bus.delivered)
              && |syn.bus.fifo| < HEADER_WORDS && (asyn != syn ==> |asyn.bus.fifo| < HEADER_WORDS)
    ensures ret == OK || ret == E2BIG ==>
              && (ret == OK <==> d.fits)
              && if second then Served(syn, d) && (asyn != syn ==> |asyn.bus.fifo| < HEADER_WORDS && Untouched(asyn))
                 else Served(asyn, d) && (asyn != syn ==> unchanged(syn))
    ensures ret != ETIMEOUT ==> Reaches(old(asyn.bus), asyn.bus, capacity) && Reaches(old(syn.bus), syn.bus, capacity)
    ensures ret == ETIMEOUT ==> Leads(old(asyn.bus), asyn.bus, capacity) && Leads(old(syn.bus), syn.bus, capacity)
    ensures ret == ETIMEOUT ==>
              var p := if second then syn else asyn;
              p.bus.fifo == [] || |p.taken| >= |old(p.taken)| + HEADER_WORDS + RX_DRAIN_MAX
  {
    hide Reaches, Leads, Unframe;
    d, second := Unframe(0, [], 0), false;
    ghost var (a0, s0) := (asyn.bus, syn.bus);
    ReachesSelf(a0, capacity);
    ReachesSelf(s0, capacity);
    if capacity > MESSAGE_PARA_MAX {
      return EINVAL, d, second;
    }
    ghost var drained, last;
    var n := asyn.Status(capacity);
    ghost var (a1, s1) := (asyn.bus, syn.bus);
    if n >= HEADER_WORDS {
      ghost var was := asyn.taken;
      ret, d, drained, last := asyn.ReceiveMessage(paras, capacity, timeout);
      Afterwards(a0, a1, last, asyn.bus, ret, capacity);
      Afterwards(s0, s0, s0, s0, ret, capacity);
      return;
    }
    second := true;
    n := syn.Status(capacity);
    ghost var s2 := syn.bus;
    ReachesOn(s0, s1, s2, capacity);
    if n >= HEADER_WORDS {
      ret, d, drained, last := syn.ReceiveMessage(paras, capacity, timeout);
      Afterwards(s0, s2, last, syn.bus, ret, capacity);
      Afterwards(a0, a1, a1, a1, ret, capacity);
      return;
    }
    return FAIL, d, second;
  }

  // From a to b, and from there through a whole frame, or to last and then
  // through the drain.
  lemma Afterwards(a: Bus, b: Bus, last: Bus, c: Bus, ret: int, capacity: nat)
    requires Reaches(a, b, capacity)
    requires b == last == c || if ret == ETIMEOUT then Reaches(b, last, capacity) && Leads(last, c, capacity)
                               else Reaches(b, c, capacity)
    ensures ret != ETIMEOUT ==> Reaches(a, c, capacity)
    ensures ret == ETIMEOUT ==> Leads(a, c, capacity)
  {
    hide Reaches, Leads;
    ReachesLeads(a, b, capacity);
    if b == last == c {
    } else if ret == ETIMEOUT {
      ReachesLeads(b, last, capacity);
      LeadsOn(a, b, last, capacity);
      LeadsOn(a, last, c, capacity);
    } else {
      ReachesOn(a, b, c, capacity);
    }
  }

  // One more message delivered, its frame taken out.
  twostate predicate Served(p: RxPort, d: Delivery)
    reads p
  {
    p.bus.delivered == old(p.bus.delivered) + [d] && |p.taken| == |old(p.taken)| + HEADER_WORDS + d.count
  }

  twostate predicate Untouched(p: RxPort)
    reads p
  {
    p.taken == old(p.taken) && p.bus.delivered == old(p.bus.delivered)
  }

  lemma FirstSize(capacity: nat)
    ensures First([], capacity) == []
    ensures forall got: words, w :: |First(got, capacity)| <= |First(got + [w], capacity)|
    ensures forall got: words :: |First(got, capacity)| == if |got| <= capacity then |got| else capacity
  {
  }

  lemma UnframeIs(header: word, got: words, capacity: nat)
    ensures Unframe(header, got, capacity) ==
              Delivery(header % 0x100, header / 0x100 % 0x100, header / 0x1_0000 % 0x100, header / 0x100_0000 % 0x100,
                       |got|, First(got, capacity), |got| <= capacity)
  {
  }

  // The receiver's side after one word.
  ghost predicate Took(b: Bus, b': Bus, w: word, capacity: nat) {
    var c := Take(b.(fifo := [w]), capacity);
    b'.reader == c.reader && b'.delivered == c.delivered
  }
}
