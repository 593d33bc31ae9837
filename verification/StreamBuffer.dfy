// basic_streambuf: a byte queue in one growing array. The get and put pointers are offsets into
// the array; the input sequence lies between them and is moved down when room is needed.
module StreamBufferClass {

  import opened Bits

  const BUFFER_DELTA := 128

  lemma TakeDrop<T>(a: seq<T>, b: seq<T>, n: nat)
    requires n <= |b|
    ensures (a + b[..n]) + b[n..] == a + b
  {
    assert b[..n] + b[n..] == b;
  }

  lemma SamePrefix<T>(a: seq<T>, b: seq<T>, c: seq<T>)
    ensures a + b == a + c <==> b == c
  {
    if a + b == a + c { assert b == (a + b)[|a|..] == (a + c)[|a|..] == c; }
  }

  /** A sequence with its own tail, from offset `shift` on, copied over its start. */
  function Overwritten(input: seq<char>, shift: nat): (r: seq<char>)
    ensures |r| == |input|
  {
    seq(|input|, k requires 0 <= k < |input| => if shift + k < |input| then input[shift + k] else input[k])
  }

  /** Moving the bytes [g, p) down to the start of an array overwrites them in that way. */
  lemma MovedDown(was: seq<char>, now: seq<char>, g: nat, p: nat)
    requires g <= p <= |was| == |now|
    requires forall k :: 0 <= k < p - g ==> now[k] == was[g + k]
    requires forall k :: p - g <= k < |now| ==> now[k] == was[k]
    ensures now[g..p] == Overwritten(was[g..p], g)
  {
    forall k | 0 <= k < p - g ensures now[g..p][k] == Overwritten(was[g..p], g)[k] {
      assert now[g..p][k] == now[g + k];
    }
  }

  /** The sequence repeats itself every `shift` bytes. */
  predicate Repeats(input: seq<char>, shift: nat) {
    forall k :: 0 <= k < |input| - shift ==> input[shift + k] == input[k]
  }

  /** Overwriting changes nothing exactly when the sequence repeats itself; so when the tail is the
      whole sequence, or empty. */
  lemma OverwrittenIsSame(input: seq<char>, shift: nat)
    ensures Overwritten(input, shift) == input <==> Repeats(input, shift)
    ensures shift == 0 || |input| <= shift ==> Repeats(input, shift)
  {
    hide Overwritten;
    var moved := Overwritten(input, shift);
    if forall k :: 0 <= k < |input| ==> moved[k] == input[k] {
      assert moved == input;
      forall k | 0 <= k < |input| - shift ensures input[shift + k] == input[k] {
        OverwrittenAt(input, shift, k);
      }
    } else {
      var k :| 0 <= k < |input| && moved[k] != input[k];
      OverwrittenAt(input, shift, k);
      assert shift + k < |input| && input[shift + k] != input[k];
    }
  }

  lemma OverwrittenAt(input: seq<char>, shift: nat, k: nat)
    requires k < |input|
    ensures Overwritten(input, shift)[k] == if shift + k < |input| then input[shift + k] else input[k]
  {}

  /** An int_type: a byte or end of file. */
  datatype Got = Eof | Char(c: char)

  class StreamBuffer {
    const maxSize: nat
    var buffer: array<char>
    var gnext: nat  // gptr
    var gend: nat   // egptr
    var pnext: nat  // pptr
    var pend: nat   // epptr

    /** Everything moved to the input sequence so far, and everything removed from it. */
    ghost var committed: seq<char>
    ghost var consumed: seq<char>

    ghost predicate Pointers()
      reads this
    {
      gnext <= gend <= pnext <= pend <= buffer.Length && pend <= maxSize && 0 < buffer.Length
    }

    /** The input sequence. */
    ghost function Input(): (s: seq<char>)
      reads this, buffer
      requires Pointers()
      ensures |s| == pnext - gnext
    {
      buffer[gnext..pnext]
    }

    /** First in, first out: what was consumed, followed by the input sequence, is what was committed. */
    ghost predicate Valid()
      reads this, buffer
    {
      Pointers() && consumed + Input() == committed
    }

    constructor (maximumSize: nat)
      ensures Valid() && fresh(buffer) && maxSize == maximumSize
      ensures committed == [] && consumed == [] && gnext == 0
    {
      maxSize := maximumSize;
      var end := Min(maximumSize, BUFFER_DELTA);
      buffer := new char[Max(end, 1)](_ => '\0');
      gnext, gend, pnext, pend := 0, 0, 0, end;
      committed, consumed := [], [];
    }

    /** size(). */
    method Size() returns (n: nat)
      requires Valid()
      ensures n == |Input()| <= maxSize
    {
      n := pnext - gnext;
    }

    /** memmove of n bytes from offset `from` to the start of the array. */
    static method MoveDown(a: array<char>, from: nat, n: nat)
      requires from + n <= a.Length
      modifies a
      ensures forall k :: 0 <= k < n ==> a[k] == old(a[from + k])
      ensures forall k :: n <= k < a.Length ==> a[k] == old(a[k])
    {
      for i := 0 to n
        invariant forall k :: 0 <= k < i ==> a[k] == old(a[from + k])
        invariant forall k :: i <= k < a.Length ==> a[k] == old(a[k])
      {
        a[i] := a[from + i];
      }
    }

    /** buffer_.resize. */
    static method Resized(a: array<char>, n: nat) returns (b: array<char>)
      ensures fresh(b) && b.Length == n
      ensures forall k :: 0 <= k < Min(n, a.Length) ==> b[k] == a[k]
    {
      b := new char[n](_ => '\0');
      for i := 0 to Min(n, a.Length)
        invariant forall k :: 0 <= k < i ==> b[k] == a[k]
      {
        b[i] := a[i];
      }
    }

    /** reserve: room for n more bytes, or length_error (false). It throws exactly when the queue
        would outgrow max_size. A throw comes after the bytes were moved down but before the
        pointers are, so it leaves the input sequence overwritten by its own tail from gnext on; the
        queue survives it exactly when that changes nothing (OverwrittenIsSame). */
    method Reserve(n: nat) returns (ok: bool)
      requires Valid()
      modifies this`buffer, this`gnext, this`gend, this`pnext, this`pend, buffer
      ensures ok <==> |old(Input())| + n <= maxSize
      ensures ok ==> Valid() && Input() == old(Input()) && n <= pend - pnext
      ensures ok ==> gnext == if n <= old(pend) - old(pnext) then old(gnext) else 0
      ensures buffer == old(buffer) || fresh(buffer)
      ensures !ok ==> Pointers() && buffer == old(buffer) && gnext == old(gnext) && pnext == old(pnext)
      ensures !ok ==> Input() == Overwritten(old(Input()), gnext)
      ensures !ok ==> (Input() == old(Input()) <==> Repeats(old(Input()), gnext))
      ensures !ok ==> (Valid() <==> Input() == old(Input()))
      ensures !ok && (gnext == 0 || |old(Input())| <= gnext) ==> Input() == old(Input())
    {
      if n <= pend - pnext { return true; }
      ghost var input := Input();
      var next := ShiftDown();
      var end := pend;
      if n > end - next {
        if n <= maxSize && next <= maxSize - n {
          end := next + n;
          buffer := Resized(buffer, Max(end, 1));
        } else {
          OverwrittenIsSame(input, gnext);
          SamePrefix(consumed, Input(), input);
          return false;
        }
      }
      gnext, gend, pnext, pend := 0, next, next, end;
      assert Input() == input;
      return true;
    }

    /** The input sequence is copied to the start of the array; the pointers stay. */
    method ShiftDown() returns (next: nat)
      requires Pointers()
      modifies buffer
      ensures next == |old(Input())| && Input() == Overwritten(old(Input()), gnext)
      ensures forall k :: 0 <= k < next ==> buffer[k] == old(Input())[k]
      ensures forall k :: next <= k < buffer.Length ==> buffer[k] == old(buffer[k])
    {
      hide Overwritten;
      ghost var was := buffer[..];
      next := pnext;
      if gnext > 0 {
        next := next - gnext;
        MoveDown(buffer, gnext, next);
      }
      MovedDown(was, buffer[..], gnext, pnext);
      assert was[gnext..pnext] == old(Input()) && buffer[..][gnext..pnext] == Input();
    }

    /** prepare: the output sequence starts at the returned offset; false is length_error. */
    method Prepare(n: nat) returns (ok: bool, at: nat)
      requires Valid()
      modifies this`buffer, this`gnext, this`gend, this`pnext, this`pend, buffer
      ensures ok <==> |old(Input())| + n <= maxSize
      ensures ok ==> Valid() && Input() == old(Input()) && at == pnext && at + n <= pend
      ensures ok ==> gnext == if n <= old(pend) - old(pnext) then old(gnext) else 0
      ensures buffer == old(buffer) || fresh(buffer)
      ensures !ok ==> Pointers() && gnext == old(gnext) && Input() == Overwritten(old(Input()), gnext)
      ensures !ok ==> (Input() == old(Input()) <==> Repeats(old(Input()), gnext))
      ensures !ok ==> (Valid() <==> Input() == old(Input()))
      ensures !ok && (gnext == 0 || |old(Input())| <= gnext) ==> Input() == old(Input())
    {
      ok := Reserve(n);
      at := pnext;
    }

    /** What a reader of the socket does with the prepared bytes: it fills the output sequence. */
    method Fill(data: seq<char>)
      requires Valid() && |data| <= pend - pnext
      modifies buffer
      ensures Valid() && Input() == old(Input())
      ensures buffer[pnext..pnext + |data|] == data
    {
      ghost var input := Input();
      for i := 0 to |data|
        invariant forall k :: 0 <= k < i ==> buffer[pnext + k] == data[k]
        invariant forall k :: 0 <= k < pnext ==> buffer[k] == old(buffer[k])
      {
        buffer[pnext + i] := data[i];
      }
      assert Input() == input;
    }

    /** commit: the first n bytes of the output sequence, or all of it, join the input sequence. The
        pointer moves by the count narrowed to an int, which is the count only up to INT_MAX. */
    method Commit(n: nat) returns (moved: int)
      requires Valid()
      modifies this`pnext, this`gend, this`committed
      ensures moved == AsInt(Min(n, old(pend - pnext)))
      ensures moved == Min(n, old(pend - pnext)) <==> Min(n, old(pend - pnext)) <= INT_MAX
      ensures Min(n, old(pend - pnext)) <= INT_MAX ==>
        && Valid()
        && committed == old(committed) + old(buffer[pnext..pnext + Min(n, pend - pnext)])
        && Input() == old(Input()) + old(buffer[pnext..pnext + Min(n, pend - pnext)])
    {
      hide AsInt;
      var count := Min(n, pend - pnext);
      moved := AsInt(count);
      if moved != count { return; }  // where the pointer then goes is not modelled
      MovePut(count);
    }

    /** The put pointer moves over bytes already written. */
    method MovePut(count: nat)
      requires Valid() && count <= pend - pnext
      modifies this`pnext, this`gend, this`committed
      ensures Valid() && committed == old(committed) + old(buffer[pnext..pnext + count])
      ensures Input() == old(Input()) + old(buffer[pnext..pnext + count])
    {
      ghost var added := buffer[pnext..pnext + count];
      assert buffer[gnext..pnext + count] == buffer[gnext..pnext] + added;
      pnext := pnext + count;
      gend := pnext;
      committed := committed + added;
    }

    /** consume: the first n bytes of the input sequence, or all of it, are removed; again the pointer
        moves by the narrowed count. */
    method Consume(n: nat) returns (moved: int)
      requires Valid()
      modifies this`gnext, this`gend, this`consumed
      ensures moved == AsInt(Min(n, |old(Input())|))
      ensures moved == Min(n, |old(Input())|) <==> Min(n, |old(Input())|) <= INT_MAX
      ensures Min(n, |old(Input())|) <= INT_MAX ==>
        && Valid()
        && consumed == old(consumed) + old(Input())[..Min(n, |old(Input())|)]
        && Input() == old(Input())[Min(n, |old(Input())|)..] && gnext == old(gnext) + Min(n, |old(Input())|)
    {
      hide AsInt;
      if gend < pnext { gend := pnext; }
      var count := n;
      if gnext + n > pnext { count := pnext - gnext; }
      moved := AsInt(count);
      if moved != count { return; }
      ghost var input := Input();
      gnext := gnext + count;
      consumed := consumed + input[..count];
      TakeDrop(old(consumed), input, count);
    }

    /** underflow: the first byte of the input sequence, without removing it. */
    method Underflow() returns (r: Got)
      requires Valid()
      modifies this`gend
      ensures Valid() && Input() == old(Input())
      ensures r == if |Input()| == 0 then Eof else Char(Input()[0])
      ensures |Input()| > 0 ==> gend == pnext
    {
      if gnext < pnext {
        gend := pnext;
        return Char(buffer[gnext]);
      }
      return Eof;
    }

    /** overflow: appends one byte, growing the array if it is full, and returns it; false is
        length_error, thrown exactly when the queue is at max_size; the bytes then already
        start at the array's start, and nothing is lost. End of file appends nothing, and
        something else than end of file is returned. */
    method Overflow(g: Got) returns (ok: bool, r: Got)
      requires Valid()
      modifies this`buffer, this`gnext, this`gend, this`pnext, this`pend, this`committed, buffer
      ensures g.Eof? ==> ok && Valid() && Input() == old(Input()) && committed == old(committed)
      ensures g.Char? ==> (ok <==> |old(Input())| < maxSize)
      ensures g.Char? && ok ==>
        Valid() && Input() == old(Input()) + [g.c] && committed == old(committed) + [g.c]
      ensures ok ==> r.Char? && (g.Char? ==> r == g)
      ensures buffer == old(buffer) || fresh(buffer)
      ensures !ok ==> Valid() && Input() == old(Input()) && committed == old(committed)
    {
      r := Char('\0');  // traits_type::not_eof(eof)
      if g.Eof? { return true, r; }
      if pnext == pend {
        var size := pnext - gnext;
        if size < maxSize && maxSize - size < BUFFER_DELTA {
          ok := Reserve(maxSize - size);
        } else {
          ok := Reserve(BUFFER_DELTA);
        }
        if !ok { return; }
      }
      Append(g.c);
      return true, g;
    }

    /** *pptr() = c; pbump(1). */
    method Append(c: char)
      requires Valid() && pnext < pend
      modifies this`pnext, this`committed, buffer
      ensures Valid() && Input() == old(Input()) + [c] && committed == old(committed) + [c]
    {
      ghost var input := Input();
      buffer[pnext] := c;
      assert buffer[gnext..pnext] == input;
      pnext := pnext + 1;
      committed := committed + [c];
      assert Input() == input + [c];
    }
  }

  /** A queue of at most three bytes, with the first of "abc" consumed. */
  method OneConsumed() returns (b: StreamBuffer)
    ensures fresh(b) && fresh(b.buffer) && b.Valid() && b.maxSize == 3 && b.gnext == 1
    ensures b.committed == "abc" && b.consumed == "a" && b.Input() == "bc"
  {
    hide Overwritten, Repeats, AsInt;
    b := new StreamBuffer(3);
    var ok, at := b.Prepare(3);
    b.Fill("abc");
    var moved := b.Commit(3);
    assert b.Input() == "abc";
    moved := b.Consume(1);
  }

  /** One input that a throw overwrites: preparing two more bytes there throws, and turns the input
      sequence "bc" into "cc". */
  method ThrowOverwrites() returns (b: StreamBuffer, ok: bool)
    ensures !ok && b.Pointers() && b.committed == "abc" && b.consumed == "a" && b.Input() == "cc"
  {
    hide StreamBuffer.Valid, Overwritten, Repeats;
    b := OneConsumed();
    var at;
    ok, at := b.Prepare(2);
    Overwrites();
  }

  lemma Overwrites()
    ensures Overwritten("bc", 1) == "cc"
  {}
}
