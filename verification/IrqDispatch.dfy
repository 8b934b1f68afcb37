/** Interrupt dispatch of qemu/os/interrupts/interrupt.c: three words of pending bits are
    scanned by clearing the lowest set bit until none is left. */
module IrqDispatch {
  import opened Options
  import opened Words
  import opened Bits

  const NUM_INTERRUPTS: nat := 128
  const PENDING_WORDS: nat := 3

  /** A handler being called for an interrupt. */
  datatype Call = Call(irq: nat, handler: nat)

  type VectorTable = t: seq<Option<nat>> | |t| == 128 witness seq(128, _ => None)

  /** The call an interrupt leads to, if a handler is registered. */
  function CallFor(table: VectorTable, irq: nat): (calls: seq<Call>)
    requires irq < NUM_INTERRUPTS
  {
    if table[irq].Some? then [Call(irq, table[irq].value)] else []
  }

  /** The calls due for bits `i` to 31 of one pending word, lowest bit first. */
  function WordCalls(table: VectorTable, word: nat, pending: uint32, i: nat): (calls: seq<Call>)
    requires word < PENDING_WORDS && i <= 32
    decreases 32 - i, pending
  {
    if i == 32 then []
    else (if Bit(pending, i) then CallFor(table, 32 * word + i) else []) + WordCalls(table, word, pending, i + 1)
  }

  /** The calls due for pending words `word` on. */
  function DueCalls(table: VectorTable, pending: seq<uint32>, word: nat): (calls: seq<Call>)
    requires |pending| == PENDING_WORDS && word <= PENDING_WORDS
    decreases PENDING_WORDS - word, |pending|
  {
    if word == PENDING_WORDS then []
    else WordCalls(table, word, pending[word], 0) + DueCalls(table, pending, word + 1)
  }

  /** The interrupt of bit `i` of word `word` is pending and `call` goes to its handler. */
  predicate Due(table: VectorTable, pending: seq<uint32>, call: Call, word: nat, i: nat)
    requires |pending| == PENDING_WORDS
  {
    && word < 3 && i < 32
    && call.irq == 32 * word + i
    && Bit(pending[word], i)
    && table[call.irq] == Some(call.handler)
  }

  ghost predicate Increasing(calls: seq<Call>) {
    forall i, j :: 0 <= i < j < |calls| ==> calls[i].irq < calls[j].irq
  }

  /** All interrupt numbers of `calls` are in `[low, high)`. */
  ghost predicate Within(calls: seq<Call>, low: nat, high: nat) {
    forall i :: 0 <= i < |calls| ==> low <= calls[i].irq < high
  }

  lemma IncreasingConcat(a: seq<Call>, b: seq<Call>, low: nat, mid: nat, high: nat)
    requires Increasing(a) && Increasing(b) && Within(a, low, mid) && Within(b, mid, high) && low <= mid <= high
    ensures Increasing(a + b) && Within(a + b, low, high)
  {}

  lemma {:induction false} WordCallsIncreasing(table: VectorTable, word: nat, pending: uint32, i: nat)
    requires word < PENDING_WORDS && i <= 32
    ensures Increasing(WordCalls(table, word, pending, i))
    ensures Within(WordCalls(table, word, pending, i), 32 * word + i, 32 * word + 32)
    decreases 32 - i
  {
    if i < 32 {
      WordCallsIncreasing(table, word, pending, i + 1);
      var first := if Bit(pending, i) then CallFor(table, 32 * word + i) else [];
      IncreasingConcat(first, WordCalls(table, word, pending, i + 1), 32 * word + i, 32 * word + i + 1, 32 * word + 32);
    }
  }

  lemma {:induction false} WordCallsMember(table: VectorTable, pending: seq<uint32>, word: nat, i: nat, c: Call)
    requires |pending| == PENDING_WORDS && word < PENDING_WORDS && i <= 32
    ensures c in WordCalls(table, word, pending[word], i) <==> exists k :: i <= k && Due(table, pending, c, word, k)
    decreases 32 - i
  {
    if i < 32 {
      WordCallsMember(table, pending, word, i + 1, c);
      var first := if Bit(pending[word], i) then CallFor(table, 32 * word + i) else [];
      var rest := WordCalls(table, word, pending[word], i + 1);
      assert c in first <==> Due(table, pending, c, word, i);
      assert c in first + rest <==> c in first || c in rest;
    }
  }

  lemma {:induction false} DueCallsIncreasing(table: VectorTable, pending: seq<uint32>, word: nat)
    requires |pending| == PENDING_WORDS && word <= PENDING_WORDS
    ensures Increasing(DueCalls(table, pending, word))
    ensures Within(DueCalls(table, pending, word), 32 * word, 32 * PENDING_WORDS)
    decreases PENDING_WORDS - word
  {
    if word < PENDING_WORDS {
      WordCallsIncreasing(table, word, pending[word], 0);
      DueCallsIncreasing(table, pending, word + 1);
      IncreasingConcat(WordCalls(table, word, pending[word], 0), DueCalls(table, pending, word + 1),
                       32 * word, 32 * word + 32, 32 * PENDING_WORDS);
    }
  }

  lemma {:induction false} DueCallsMember(table: VectorTable, pending: seq<uint32>, word: nat, c: Call)
    requires |pending| == PENDING_WORDS && word <= PENDING_WORDS
    ensures c in DueCalls(table, pending, word) <==> exists w, i :: word <= w && Due(table, pending, c, w, i)
    decreases PENDING_WORDS - word
  {
    if word < PENDING_WORDS {
      WordCallsMember(table, pending, word, 0, c);
      DueCallsMember(table, pending, word + 1, c);
    }
  }

  /** The calls due are the registered handlers of the set bits and no others, in strictly
      increasing interrupt number, so each exactly once. */
  lemma DueCallsExact(table: VectorTable, pending: seq<uint32>)
    requires |pending| == 3
    ensures Increasing(DueCalls(table, pending, 0))
    ensures forall c :: c in DueCalls(table, pending, 0) <==> exists w, i :: Due(table, pending, c, w, i)
  {
    DueCallsIncreasing(table, pending, 0);
    forall c
      ensures c in DueCalls(table, pending, 0) <==> exists w, i :: Due(table, pending, c, w, i)
    {
      DueCallsMember(table, pending, 0, c);
    }
  }

  // ---------- The scan by lowest set bit ----------

  lemma {:induction false} SameBitsSameCalls(table: VectorTable, word: nat, p: uint32, q: uint32, i: nat)
    requires word < PENDING_WORDS && i <= 32
    requires forall j :: i <= j < 32 ==> (Bit(p, j) <==> Bit(q, j))
    ensures WordCalls(table, word, p, i) == WordCalls(table, word, q, i)
    decreases 32 - i
  {
    if i < 32 {
      SameBitsSameCalls(table, word, p, q, i + 1);
    }
  }

  lemma {:induction false} ClearBitsNoCalls(table: VectorTable, word: nat, p: uint32, i: nat, k: nat)
    requires word < PENDING_WORDS && i <= k <= 32
    requires forall j :: i <= j < k ==> !Bit(p, j)
    ensures WordCalls(table, word, p, i) == WordCalls(table, word, p, k)
    decreases k - i
  {
    if i < k {
      ClearBitsNoCalls(table, word, p, i + 1, k);
    }
  }

  lemma TrailingZerosBelow32(p: uint32)
    requires p > 0
    ensures TrailingZeros(p) < 32
  {
    LowestSetBit(p, 0);
    if TrailingZeros(p) >= 32 {
      assert Pow2(8) == 256;
      assert Pow2(16) == 0x1_0000;
      assert Pow2(24) == 0x100_0000;
      assert Pow2(32) == TWO32;
      BitsBelow(p, 32, TrailingZeros(p));
    }
  }

  /** One round of the scan: the call for the lowest set bit, then the calls of the word
      with that bit cleared. */
  lemma ScanRound(table: VectorTable, word: nat, p: uint32)
    requires word < PENDING_WORDS && p > 0
    ensures TrailingZeros(p) < 32 && And(p, p - 1) < p && PopCount(And(p, p - 1)) < PopCount(p)
    ensures var irq := 32 * word + TrailingZeros(p);
            WordCalls(table, word, p, 0)
            == CallFor(table, irq) + WordCalls(table, word, And(p, p - 1), 0)
  {
    TrailingZerosBelow32(p);
    ClearLowestCounts(p);
    var c, q := TrailingZeros(p), And(p, p - 1);
    forall j: nat
      ensures j < c ==> !Bit(p, j)
      ensures Bit(q, j) <==> Bit(p, j) && j != c
    {
      LowestSetBit(p, j);
      ClearLowest(p, j);
    }
    LowestSetBit(p, 0);
    ClearBitsNoCalls(table, word, p, 0, c);
    ClearBitsNoCalls(table, word, q, 0, c + 1);
    SameBitsSameCalls(table, word, p, q, c + 1);
  }

  lemma CallThenRest(log: seq<Call>, call: seq<Call>, rest: seq<Call>)
    ensures log + (call + rest) == (log + call) + rest
    ensures log + [] == log
  {}

  class Controller {
    var vectorTable: VectorTable
    var log: seq<Call>  // every handler call made so far

    /** `INTC_register_irq`. */
    method Register(irq: uint32, handler: nat) returns (ok: bool)
      modifies this`vectorTable
      ensures ok == (irq < NUM_INTERRUPTS)
      ensures vectorTable == if ok then old(vectorTable)[irq := Some(handler)] else old(vectorTable)
    {
      if irq >= NUM_INTERRUPTS {
        return false;
      }
      vectorTable := vectorTable[irq := Some(handler)];
      return true;
    }

    /** The inner loop of `handle_irq_c`: all calls of one pending word. */
    method ScanWord(word: nat, snapshot: uint32)
      requires word < PENDING_WORDS
      modifies this`log
      ensures log == old(log) + WordCalls(vectorTable, word, snapshot, 0)
    {
      var pending: uint32 := snapshot;
      ghost var calls := WordCalls(vectorTable, word, snapshot, 0);
      ghost var todo := calls;
      while pending != 0
        invariant todo == WordCalls(vectorTable, word, pending, 0)
        invariant log + todo == old(log) + calls
        decreases PopCount(pending)
      {
        ScanRound(vectorTable, word, pending);
        var irq := 32 * word + TrailingZeros(pending);
        CallThenRest(log, CallFor(vectorTable, irq), WordCalls(vectorTable, word, And(pending, pending - 1), 0));
        if vectorTable[irq].Some? {
          log := log + [Call(irq, vectorTable[irq].value)];
        }
        pending := And(pending, pending - 1);
        todo := WordCalls(vectorTable, word, pending, 0);
      }
      NoBitsNoCalls(vectorTable, word);
    }

    /** `handle_irq_c` on a snapshot of the pending registers. */
    method HandleIrq(pendingWords: seq<uint32>)
      requires |pendingWords| == PENDING_WORDS
      modifies this`log
      ensures log == old(log) + DueCalls(vectorTable, pendingWords, 0)
    {
      ghost var due := DueCalls(vectorTable, pendingWords, 0);
      for word := 0 to PENDING_WORDS
        invariant log + DueCalls(vectorTable, pendingWords, word) == old(log) + due
      {
        ghost var here := WordCalls(vectorTable, word, pendingWords[word], 0);
        ghost var later := DueCalls(vectorTable, pendingWords, word + 1);
        CallThenRest(log, here, later);
        ScanWord(word, pendingWords[word]);
      }
    }
  }

  lemma NoBitsNoCalls(table: VectorTable, word: nat)
    requires word < PENDING_WORDS
    ensures WordCalls(table, word, 0, 0) == []
  {
    forall j: nat
      ensures !Bit(0, j)
    {
      ZeroHasNoBits(j);
    }
    ClearBitsNoCalls(table, word, 0, 0, 32);
  }
}
