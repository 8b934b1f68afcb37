/** The receive side of os/drivers/uart.c: characters arrive by interrupt into a ring per
    UART, and `uart_readline` drains a line while more may keep arriving. */
module Uart {
  import opened Options
  import opened Words
  import opened RingBuffers

  const CARRIAGE_RETURN: byte := 13

  // ---------- The queue under interrupts ----------

  function Translate(c: byte): byte {
    if c == CARRIAGE_RETURN then NEWLINE else c
  }

  /** A received character is queued, or dropped when the queue is full. */
  function Receive(q: seq<byte>, c: byte): seq<byte> {
    if |q| < CAPACITY then q + [Translate(c)] else q
  }

  function Deliver(q: seq<byte>, cs: seq<byte>): seq<byte>
    decreases |cs|
  {
    if cs == [] then q else Deliver(Receive(q, cs[0]), cs[1..])
  }

  datatype Event = Arrive(c: byte) | Take

  /** A queue with the history of what it accepted and what was taken from it. */
  datatype History = History(queue: seq<byte>, accepted: seq<byte>, taken: seq<byte>)

  function Observe(h: History, e: Event): History {
    match e
    case Arrive(c) =>
      if |h.queue| < CAPACITY then h.(queue := Receive(h.queue, c), accepted := h.accepted + [Translate(c)]) else h
    case Take =>
      if h.queue == [] then h else h.(queue := h.queue[1..], taken := h.taken + [h.queue[0]])
  }

  function ObserveAll(h: History, events: seq<Event>): History
    decreases |events|
  {
    if events == [] then h else ObserveAll(Observe(h, events[0]), events[1..])
  }

  /** Over any interleaving of arrivals and takes nothing is lost, invented or reordered:
      what was taken followed by what is queued is what was accepted. */
  lemma {:induction false} HistoryConserved(h: History, events: seq<Event>)
    requires |h.queue| <= CAPACITY && h.taken + h.queue == h.accepted
    ensures var h' := ObserveAll(h, events);
            |h'.queue| <= CAPACITY && h'.taken + h'.queue == h'.accepted
    decreases |events|
  {
    if events != [] {
      var h' := Observe(h, events[0]);
      assert h'.taken + h'.queue == h'.accepted by {
        match events[0]
        case Arrive(c) =>
          if |h.queue| < CAPACITY {
            assert h.taken + (h.queue + [Translate(c)]) == (h.taken + h.queue) + [Translate(c)];
          }
        case Take =>
          if h.queue != [] {
            assert h.queue == [h.queue[0]] + h.queue[1..];
          }
      }
      HistoryConserved(h', events[1..]);
    }
  }

  /** `accepted` is what becomes of the characters `arrived`: 10 stands exactly where 10 or 13
      arrived, 13 nowhere, and everything else is as it came. */
  ghost predicate Translated(arrived: seq<byte>, accepted: seq<byte>) {
    && |accepted| == |arrived|
    && forall i :: 0 <= i < |arrived| ==>
         && (accepted[i] == 10 <==> arrived[i] == 10 || arrived[i] == 13)
         && accepted[i] != 13
         && (arrived[i] != 10 && arrived[i] != 13 ==> accepted[i] == arrived[i])
  }

  /** The characters among `events` that find room, as they arrive. */
  function Admitted(h: History, events: seq<Event>): (arrived: seq<byte>)
    decreases |events|
  {
    if events == [] then []
    else (if events[0].Arrive? && |h.queue| < 512 then [events[0].c] else [])
         + Admitted(Observe(h, events[0]), events[1..])
  }

  /** Over any interleaving of arrivals and takes the queue accepts exactly the characters that
      find room, carriage return turned into newline. */
  lemma {:induction false} HistoryTranslated(h: History, events: seq<Event>, before: seq<byte>)
    requires Translated(before, h.accepted)
    ensures Translated(before + Admitted(h, events), ObserveAll(h, events).accepted)
    decreases |events|
  {
    if events != [] {
      var first := if events[0].Arrive? && |h.queue| < 512 then [events[0].c] else [];
      var rest := Admitted(Observe(h, events[0]), events[1..]);
      HistoryTranslated(Observe(h, events[0]), events[1..], before + first);
      assert before + (first + rest) == (before + first) + rest;
    } else {
      assert before + [] == before;
    }
  }

  /** The line count is the number of bytes 10. */
  lemma {:induction false} LinesAreTens(s: seq<byte>)
    ensures Lines(s) == multiset(s)[10]
    decreases |s|
  {
    if s != [] {
      LinesAreTens(s[..|s| - 1]);
      assert s == s[..|s| - 1] + [s[|s| - 1]];
    }
  }

  /** A burst that fits is queued whole, one character for each, and a full queue takes none. */
  lemma {:induction false} BurstQueued(q: seq<byte>, cs: seq<byte>)
    ensures |q| + |cs| <= 512 ==>
      && |Deliver(q, cs)| == |q| + |cs|
      && Deliver(q, cs)[..|q|] == q
      && Translated(cs, Deliver(q, cs)[|q|..])
    ensures |q| >= 512 ==> Deliver(q, cs) == q
    decreases |cs|
  {
    if cs != [] {
      BurstQueued(Receive(q, cs[0]), cs[1..]);
      if |q| + |cs| <= 512 {
        var first := Receive(q, cs[0]);
        var all := Deliver(q, cs);
        assert first == all[..|q| + 1];
        assert all[..|q|] == first[..|q|];
        forall i | 0 <= i < |cs|
          ensures all[|q|..][i] == if i == 0 then first[|q|] else all[|q| + 1..][i - 1]
          ensures i > 0 ==> cs[i] == cs[1..][i - 1]
        {}
      }
    }
  }

  /** A burst that fits adds one line for each 10 and each 13 in it. */
  lemma {:induction false} BurstLines(q: seq<byte>, cs: seq<byte>)
    requires |q| + |cs| <= 512
    ensures Lines(Deliver(q, cs)) == Lines(q) + multiset(cs)[10] + multiset(cs)[13]
    decreases |cs|
  {
    if cs != [] {
      LinesAppend(q, Translate(cs[0]));
      BurstLines(Receive(q, cs[0]), cs[1..]);
      assert cs == [cs[0]] + cs[1..];
    }
  }

  // ---------- The line a read returns ----------

  /** Length of the first line of `q`, newline included, cut at `limit`. */
  function LineLength(q: seq<byte>, limit: nat): (n: nat)
    ensures n <= limit && n <= |q|
  {
    if q == [] || limit == 0 then 0
    else if q[0] == NEWLINE then 1
    else 1 + LineLength(q[1..], limit - 1)
  }

  /** The three ways a line ends: at its newline, at the limit, or with the queue; with a
      newline in the queue only the first two. */
  lemma {:induction false} LineLengthExact(q: seq<byte>, limit: nat)
    ensures var n := LineLength(q, limit);
            && (forall i :: 0 <= i < n - 1 ==> q[i] != NEWLINE)
            && (n == limit || n == |q| || (n > 0 && q[n - 1] == NEWLINE))
            && (Lines(q) > 0 ==> n == limit || (n > 0 && q[n - 1] == NEWLINE))
    decreases |q|
  {
    if q != [] && limit > 0 {
      LinesPrepend(q[0], q[1..]);
      assert q == [q[0]] + q[1..];
      if q[0] != NEWLINE {
        LineLengthExact(q[1..], limit - 1);
      }
    }
  }

  /** A burst that ends with the Enter key and fits leaves a line to read: the queue reports one,
      and a read of size 2 or more returns at least one character. */
  lemma EnterEndsLine(q: seq<byte>, cs: seq<byte>, size: uint32)
    requires |q| + |cs| <= 512 && cs != [] && cs[|cs| - 1] == 13 && size >= 2
    ensures Lines(Deliver(q, cs)) > 0 && LineLength(Deliver(q, cs), Wrap32(size - 1)) > 0
  {
    BurstLines(q, cs);
    BurstQueued(q, cs);
    assert cs[|cs| - 1] in multiset(cs);
  }

  /** Text typed on an empty queue and ended with Enter is the next line, newline included. */
  lemma TypedLine(text: seq<byte>, limit: nat)
    requires |text| < 512 && limit > |text| && forall i :: 0 <= i < |text| ==> text[i] != 10 && text[i] != 13
    ensures Deliver([], text + [13]) == text + [10] && LineLength(text + [10], limit) == |text| + 1
  {
    var cs, q := text + [13], Deliver([], text + [13]);
    BurstQueued([], cs);
    assert q == q[0..];
    forall i | 0 <= i < |q|
      ensures q[i] == (text + [10])[i]
    {
      assert i < |text| ==> cs[i] == text[i];
    }
    LinesAreTens(q);
    LineLengthExact(q, limit);
    LinesAppend(text, 10);
    var n := LineLength(q, limit);
    assert forall i :: 0 <= i < |text| ==> q[i] != 10;
    assert n > 0 && q[n - 1] == 10;
  }

  /** A read whose limit is `limit` writes its line and a final zero. They stay inside an
      array of `length` bytes exactly if the limit or a newline ends the line in time. */
  lemma LineFits(q: seq<byte>, limit: nat, length: nat)
    requires Lines(q) > 0
    ensures LineLength(q, limit) + 1 <= length <==>
            limit < length || exists i :: 0 <= i < |q| && i < length - 1 && q[i] == NEWLINE
  {
    LineLengthExact(q, limit);
    var n := LineLength(q, limit);
    if n < length && limit >= length {
      assert q[n - 1] == NEWLINE;
    }
  }

  /** The motor task passes size 100 for an array of 10 bytes: ten queued characters without
      a newline among them, and a line behind, run over its end. */
  lemma OverrunExample(q: seq<byte>)
    requires |q| >= 10 && NEWLINE !in q[..10] && Lines(q) > 0
    ensures LineLength(q, Wrap32(100 - 1)) + 1 > 10
  {
    forall i | 0 <= i < |q| && i < 10
      ensures q[i] != NEWLINE
    {
      assert q[i] in q[..10];
    }
    LineFits(q, Wrap32(100 - 1), 10);
  }

  // ---------- Reading while characters arrive ----------

  /** The queue after `i` rounds of "interrupts, then one pop"; `arrivals(k)` are the
      characters that come in just before pop `k`. */
  function AfterRounds(q: seq<byte>, arrivals: nat -> seq<byte>, i: nat): seq<byte> {
    if i == 0 then q
    else
      var busy := Deliver(AfterRounds(q, arrivals, i - 1), arrivals(i - 1));
      if busy == [] then [] else busy[1..]
  }

  lemma {:induction false} DeliverExtends(q: seq<byte>, cs: seq<byte>)
    ensures q <= Deliver(q, cs)
    decreases |cs|
  {
    if cs != [] {
      DeliverExtends(Receive(q, cs[0]), cs[1..]);
    }
  }

  /** Whatever arrives meanwhile, the characters queued first stay first: round `i` pops
      `q[i]`, and the rest of `q` stays at the front. */
  lemma {:induction false} ArrivalsDoNotDisturb(q: seq<byte>, arrivals: nat -> seq<byte>, i: nat)
    requires i <= |q|
    ensures q[i..] <= AfterRounds(q, arrivals, i)
    ensures i < |q| ==> q[i..] <= Deliver(AfterRounds(q, arrivals, i), arrivals(i))
    decreases i
  {
    if i > 0 {
      ArrivalsDoNotDisturb(q, arrivals, i - 1);
      var busy := Deliver(AfterRounds(q, arrivals, i - 1), arrivals(i - 1));
      assert busy[..|q| - (i - 1)] == q[i - 1..];
      assert busy[1..][..|q| - i] == q[i..];
    }
    if i < |q| {
      DeliverExtends(AfterRounds(q, arrivals, i), arrivals(i));
    }
  }

  /** The buffer part of `handle_uart0_irq` and `handle_uart1_irq`. */
  method HandleReceive(rx: CharRing, c: byte)
    requires rx.Valid()
    modifies rx, rx.ring, rx.ring.buffer
    ensures rx.Valid() && rx.ring.contents == Receive(old(rx.ring.contents), c)
  {
    var translated := c;
    if translated == CARRIAGE_RETURN {
      translated := NEWLINE;
    }
    var _ := rx.Push(translated);
  }

  /** A burst of receive interrupts. */
  method HandleBurst(rx: CharRing, cs: seq<byte>)
    requires rx.Valid()
    modifies rx, rx.ring, rx.ring.buffer
    ensures rx.Valid() && rx.ring.contents == Deliver(old(rx.ring.contents), cs)
  {
    for i := 0 to |cs|
      invariant rx.Valid()
      invariant Deliver(rx.ring.contents, cs[i..]) == Deliver(old(rx.ring.contents), cs)
    {
      assert cs[i..][1..] == cs[i + 1..];
      HandleReceive(rx, cs[i]);
    }
  }

  /** The receive rings of the UARTs share no memory. */
  ghost predicate Separate(rings: seq<CharRing>) {
    forall i, j :: 0 <= i < j < |rings| ==>
      && rings[i] != rings[j]
      && rings[i].ring != rings[j].ring
      && rings[i].ring.buffer != rings[j].ring.buffer
  }

  /** Round `i` of a read pops `q[i]` and leaves the queue of round `i + 1`. */
  lemma RoundPops(q: seq<byte>, arrivals: nat -> seq<byte>, i: nat)
    requires i < |q|
    ensures var busy := Deliver(AfterRounds(q, arrivals, i), arrivals(i));
            busy != [] && busy[0] == q[i] && busy[1..] == AfterRounds(q, arrivals, i + 1)
  {
    ArrivalsDoNotDisturb(q, arrivals, i);
    assert q[i..][0] == q[i];
  }

  /** Interrupts, then one `uart_getchar`. */
  method GetCharAfter(rx: CharRing, cs: seq<byte>) returns (c: Option<byte>)
    requires rx.Valid()
    modifies rx, rx.ring, rx.ring.buffer
    ensures rx.Valid()
    ensures var busy := Deliver(old(rx.ring.contents), cs);
            if busy == [] then c == None && rx.ring.contents == []
            else c == Some(busy[0]) && rx.ring.contents == busy[1..]
  {
    HandleBurst(rx, cs);
    c := rx.Pop();
  }

  /** The state of a read after `i` rounds: `i` characters of `q` stored, the rest of the
      buffer as it was, and the queue of round `i`. */
  ghost predicate Drained(rx: CharRing, buffer: array<byte>, q: seq<byte>, was: seq<byte>,
                          arrivals: nat -> seq<byte>, i: nat)
    reads rx, rx.ring, rx.ring.buffer, buffer
  {
    && rx.Valid() && rx.ring.contents == AfterRounds(q, arrivals, i)
    && i <= |q| && i <= |was| && buffer[..] == q[..i] + was[i..]
  }

  /** One round of the read loop: interrupts, one character taken, stored at `buffer[i]`. */
  method StoreNext(rx: CharRing, buffer: array<byte>, i: nat, arrivals: nat -> seq<byte>,
                   ghost q: seq<byte>, ghost was: seq<byte>) returns (c: Option<byte>)
    requires Drained(rx, buffer, q, was, arrivals, i) && rx.ring.buffer != buffer
    requires i < |q| && i < buffer.Length
    modifies rx, rx.ring, rx.ring.buffer, buffer
    ensures c == Some(q[i]) && Drained(rx, buffer, q, was, arrivals, i + 1)
  {
    RoundPops(q, arrivals, i);
    assert (q[..i] + was[i..])[i := q[i]] == q[..i + 1] + was[i + 1..];
    c := GetCharAfter(rx, arrivals(i));
    if c.None? {
      // With a line queued the ring cannot run dry before the line is complete.
      assert false;
    }
    buffer[i] := c.value;
  }

  /** A read that has taken `i` characters without a newline is not past its line, and has
      characters left to take unless the limit is reached. */
  lemma LineNotOver(q: seq<byte>, limit: nat, n: nat, i: nat)
    requires Lines(q) > 0 && n == LineLength(q, limit) && i <= n
    requires i > 0 ==> q[i - 1] != NEWLINE
    ensures i < limit ==> i < n
    ensures i >= limit ==> i == n
    ensures i < n && q[i] == NEWLINE ==> i + 1 == n
  {
    LineLengthExact(q, limit);
  }

  /** The loop of `uart_readline` on a ring that holds a line, with `arrivals(k)` received
      just before its `k`-th pop. */
  method DrainLine(rx: CharRing, buffer: array<byte>, limit: uint32, arrivals: nat -> seq<byte>)
    returns (count: nat)
    requires rx.Valid() && rx.ring.buffer != buffer && Lines(rx.ring.contents) > 0
    requires LineLength(rx.ring.contents, limit) <= buffer.Length
    modifies rx, rx.ring, rx.ring.buffer, buffer
    ensures rx.Valid()
    ensures count == LineLength(old(rx.ring.contents), limit)
    ensures buffer[..] == old(rx.ring.contents)[..count] + old(buffer[count..])
    ensures rx.ring.contents == AfterRounds(old(rx.ring.contents), arrivals, count)
  {
    ghost var q, was := rx.ring.contents, buffer[..];
    ghost var n := LineLength(q, limit);
    count := 0;
    while count < limit
      invariant 0 <= count <= n
      invariant Drained(rx, buffer, q, was, arrivals, count)
      invariant count > 0 ==> q[count - 1] != NEWLINE
      decreases n - count
    {
      LineNotOver(q, limit, n, count);
      var c := StoreNext(rx, buffer, count, arrivals, q, was);
      count := count + 1;
      if c.value == NEWLINE {
        return;
      }
    }
    LineNotOver(q, limit, n, count);
  }

  /** `uart_readline` on UART `index`. `buffer` is the memory from the caller's pointer on, as
      far as the call writes; the caller's array is its beginning, and `LineFits` says when the
      line and the final zero stay inside it. */
  method ReadLine(rings: seq<CharRing>, index: uint16, buffer: array<byte>, bufferSize: uint32,
                  arrivals: nat -> seq<byte>) returns (count: nat)
    requires |rings| == 2 && Separate(rings)
    requires forall r :: r in rings ==> r.Valid() && r.ring.buffer != buffer
    requires index < 2 && rings[index].lines > 0 ==>
      LineLength(rings[index].ring.contents, Wrap32(bufferSize - 1)) < buffer.Length
    modifies buffer
    modifies if index < 2 then {rings[index], rings[index].ring, rings[index].ring.buffer} else {}
    ensures forall r :: r in rings ==> r.Valid()
    ensures count == if index < 2 && Lines(old(rings[index].ring.contents)) > 0
                     then LineLength(old(rings[index].ring.contents), Wrap32(bufferSize - 1)) else 0
    ensures (index >= 2 || Lines(old(rings[index].ring.contents)) == 0) ==>
      && buffer[..] == old(buffer[..])
      && (index < 2 ==> rings[index].ring.contents == old(rings[index].ring.contents))
    ensures (index < 2 && Lines(old(rings[index].ring.contents)) > 0) ==>
      var q := old(rings[index].ring.contents);
      && count < buffer.Length
      && buffer[..count] == q[..count]
      && buffer[count] == 0
      && buffer[count + 1..] == old(buffer[count + 1..])
      && rings[index].ring.contents == AfterRounds(q, arrivals, count)
  {
    if index >= 2 {
      return 0;
    }
    var rx := rings[index];
    if rx.lines == 0 {
      return 0;
    }
    count := DrainLine(rx, buffer, Wrap32(bufferSize - 1), arrivals);
    buffer[count] := 0;
  }
}
