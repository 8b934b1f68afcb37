/** The two ring buffers of common/circular_buffer.c: a character ring that counts the
    newlines it holds, and a ring of pointers. Both are bounded FIFO queues. */
module RingBuffers {
  import opened Options
  import opened Words

  const CAPACITY: nat := 512
  const NEWLINE: byte := 10

  /** The `size` elements from `head` on, wrapping round the end of the array. */
  function Window<T>(b: seq<T>, head: nat, size: nat): (w: seq<T>)
    requires |b| == CAPACITY
    ensures |w| == size
  {
    seq(size, i requires 0 <= i < size => b[(head + i) % CAPACITY])
  }

  lemma WindowPush<T>(b: seq<T>, head: nat, size: nat, x: T)
    requires |b| == CAPACITY && head < CAPACITY && size < CAPACITY
    ensures Window(b[(head + size) % CAPACITY := x], head, size + 1) == Window(b, head, size) + [x]
  {}

  lemma WindowPop<T>(b: seq<T>, head: nat, size: nat)
    requires |b| == CAPACITY && head < CAPACITY && 0 < size <= CAPACITY
    ensures Window(b, head, size) == [b[head]] + Window(b, (head + 1) % CAPACITY, size - 1)
  {
    var w, rest := Window(b, head, size), Window(b, (head + 1) % CAPACITY, size - 1);
    forall i | 0 < i < size
      ensures w[i] == rest[i - 1]
    {
      assert (head + i) % CAPACITY == ((head + 1) % CAPACITY + (i - 1)) % CAPACITY;
    }
  }

  /** Newlines in a sequence. */
  function Lines(s: seq<byte>): (n: nat)
    ensures n <= |s|
  {
    if s == [] then 0
    else Lines(s[..|s| - 1]) + if s[|s| - 1] == NEWLINE then 1 else 0
  }

  lemma LinesAppend(s: seq<byte>, c: byte)
    ensures Lines(s + [c]) == Lines(s) + if c == NEWLINE then 1 else 0
  {
    assert (s + [c])[..|s|] == s;
  }

  lemma {:induction false} LinesPrepend(c: byte, s: seq<byte>)
    ensures Lines([c] + s) == Lines(s) + if c == NEWLINE then 1 else 0
    decreases |s|
  {
    if s == [] {
      LinesAppend([], c);
      assert [] + [c] == [c] + s;
    } else {
      var front, last := s[..|s| - 1], s[|s| - 1];
      LinesPrepend(c, front);
      assert [c] + s == ([c] + front) + [last];
      LinesAppend([c] + front, last);
    }
  }

  class PointerRing<T(0)> {
    const buffer: array<T>
    var head: uint16
    var tail: uint16
    var size: uint16
    ghost var contents: seq<T>  // the queue, oldest first

    ghost predicate Valid()
      reads this, buffer
    {
      && buffer.Length == CAPACITY
      && head < CAPACITY && size <= CAPACITY
      && tail == (head + size) % CAPACITY
      && contents == Window(buffer[..], head, size)
    }

    constructor ()
      ensures Valid() && contents == [] && fresh(buffer)
    {
      buffer := new T[CAPACITY];
      head, tail, size := 0, 0, 0;
      contents := [];
    }

    method Push(x: T) returns (ok: bool)
      requires Valid()
      modifies this, buffer
      ensures Valid()
      ensures ok == (|old(contents)| < CAPACITY)
      ensures contents == if ok then old(contents) + [x] else old(contents)
    {
      if size == CAPACITY {
        return false;
      }
      WindowPush(buffer[..], head, size, x);
      buffer[tail] := x;
      tail := (tail + 1) % CAPACITY;
      size := size + 1;
      contents := contents + [x];
      return true;
    }

    method Pop() returns (x: Option<T>)
      requires Valid()
      modifies this
      ensures Valid()
      ensures if old(contents) == [] then x == None && contents == []
              else x == Some(old(contents)[0]) && contents == old(contents)[1..]
    {
      if size == 0 {
        return None;
      }
      WindowPop(buffer[..], head, size);
      var first := buffer[head];
      head := (head + 1) % CAPACITY;
      size := size - 1;
      contents := contents[1..];
      return Some(first);
    }
  }

  /** The character ring: the same queue, with a count of the newlines in it. */
  class CharRing {
    const ring: PointerRing<byte>
    var lines: uint16

    ghost predicate Valid()
      reads this, ring, ring.buffer
    {
      ring.Valid() && lines == Lines(ring.contents)
    }

    constructor ()
      ensures Valid() && ring.contents == [] && fresh(ring) && fresh(ring.buffer)
    {
      ring := new PointerRing();
      lines := 0;
    }

    /** A full ring refuses the character and stays as it is. */
    method Push(c: byte) returns (ok: bool)
      requires Valid()
      modifies this, ring, ring.buffer
      ensures Valid()
      ensures ok == (|old(ring.contents)| < CAPACITY)
      ensures ring.contents == if ok then old(ring.contents) + [c] else old(ring.contents)
    {
      LinesAppend(ring.contents, c);
      ok := ring.Push(c);
      if ok && c == NEWLINE {
        lines := lines + 1;
      }
    }

    method Pop() returns (c: Option<byte>)
      requires Valid()
      modifies this, ring
      ensures Valid()
      ensures if old(ring.contents) == [] then c == None && ring.contents == []
              else c == Some(old(ring.contents)[0]) && ring.contents == old(ring.contents)[1..]
    {
      ghost var was := ring.contents;
      c := ring.Pop();
      if c.None? {
        return;
      }
      assert was == [c.value] + ring.contents;
      LinesPrepend(c.value, ring.contents);
      if c.value == NEWLINE {
        lines := lines - 1;
      }
    }
  }
}
