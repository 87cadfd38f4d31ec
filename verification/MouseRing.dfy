/** The driver's ring and its three critical sections. */
module MouseRing {
  import opened MouseFifo

  /** The bytes from tail up to head, around the end of the buffer. */
  function Between(b: Text, head: nat, tail: nat): (c: Text)
    requires head < |b| && tail < |b|
    ensures |c| == if tail <= head then head - tail else |b| - tail + head
  {
    if tail <= head then b[tail..head] else b[tail..] + b[..head]
  }

  lemma Next(i: nat, n: nat)
    requires i < n
    ensures (i + 1) % n == if i + 1 == n then 0 else i + 1
  {
  }

  lemma PutBetween(b: Text, head: nat, tail: nat, c: char)
    requires head < |b| && tail < |b| && (head + 1) % |b| != tail
    ensures Between(b[head := c], (head + 1) % |b|, tail) == Between(b, head, tail) + [c]
  {
    Next(head, |b|);
    var d := b[head := c];
    if head + 1 == |b| {
      assert Between(d, 0, tail) == d[tail..] + [];
    }
  }

  lemma TakeBetween(b: Text, head: nat, tail: nat)
    requires head < |b| && tail < |b| && head != tail
    ensures b[tail] == Between(b, head, tail)[0]
    ensures Between(b, head, (tail + 1) % |b|) == Between(b, head, tail)[1..]
  {
    Next(tail, |b|);
    if tail < head {
      assert b[tail..head][1..] == b[tail + 1..head];
    } else if tail + 1 < |b| {
      assert (b[tail..] + b[..head])[1..] == b[tail + 1..] + b[..head];
    } else {
      assert (b[tail..] + b[..head])[1..] == b[0..head];
    }
  }

  lemma CopyOne(c: Text, u: Text, i: nat)
    requires i < |c| && i < |u|
    ensures (c[..i] + u[i..])[i := c[i]] == c[..i + 1] + u[i + 1..]
    ensures c[i..][0] == c[i] && c[i..][1..] == c[i + 1..]
  {
  }

  class Ring {
    const mouseBuffer: array<char>
    var head: nat
    var tail: nat

    ghost predicate Valid()
      reads this
    {
      0 < mouseBuffer.Length && head < mouseBuffer.Length && tail < mouseBuffer.Length
    }

    ghost function Contents(): (c: Text)
      requires Valid()
      reads this, mouseBuffer
      ensures |c| < mouseBuffer.Length
    {
      Between(mouseBuffer[..], head, tail)
    }

    constructor (bufferSize: nat)
      requires bufferSize > 0
      ensures Valid() && fresh(mouseBuffer) && mouseBuffer.Length == bufferSize && Contents() == []
    {
      mouseBuffer := new char[bufferSize];
      head, tail := 0, 0;
    }

    /** `BUF_EMPTY`. */
    predicate Empty()
      requires Valid()
      reads this, mouseBuffer
      ensures Empty() <==> Contents() == []
    {
      head == tail
    }

    /** `BUF_FULL`: one place always stays free. */
    predicate Full()
      requires Valid()
      reads this, mouseBuffer
      ensures Full() <==> |Contents()| == mouseBuffer.Length - 1
    {
      Next(head, mouseBuffer.Length);
      (head + 1) % mouseBuffer.Length == tail
    }

    method Put(c: char)
      requires Valid() && !Full()
      modifies mouseBuffer, `head
      ensures Valid() && Contents() == old(Contents()) + [c]
    {
      PutBetween(mouseBuffer[..], head, tail, c);
      mouseBuffer[head] := c;
      head := (head + 1) % mouseBuffer.Length;
    }

    /** `simulate_mouse_data`, for the text snprintf has made. */
    method Simulate(event: Text)
      requires Valid()
      modifies mouseBuffer, `head
      ensures Valid()
      ensures Contents() == old(Contents()) + event[..Min(|event|, Room(mouseBuffer.Length, old(Contents())))]
    {
      var i := 0;
      while i < |event|
        invariant 0 <= i <= |event| && Valid()
        invariant Contents() == old(Contents()) + event[..i]
      {
        if Full() {
          break;
        }
        Put(event[i]);
        i := i + 1;
      }
    }

    method Take() returns (c: char)
      requires Valid() && !Empty()
      modifies `tail
      ensures Valid() && c == old(Contents())[0] && Contents() == old(Contents())[1..]
    {
      TakeBetween(mouseBuffer[..], head, tail);
      c := mouseBuffer[tail];
      tail := (tail + 1) % mouseBuffer.Length;
    }

    /** `mouse_read`: the bytes before a fault have left the queue. */
    method Read(user: array<char>, len: nat, writable: Access) returns (result: Result)
      requires Valid() && len <= user.Length && user != mouseBuffer
      modifies user, `tail
      ensures Valid()
      ensures result == ReadResult(writable, len, |old(Contents())|)
      ensures var k := FirstFault(writable, Min(len, |old(Contents())|));
              && Contents() == old(Contents())[k..]
              && user[..] == old(Contents())[..k] + old(user[..])[k..]
    {
      hide Between, Contents, FirstFault;
      ghost var c, u := Contents(), user[..];
      var copied := 0;
      while copied < len && !Empty()
        invariant 0 <= copied <= len && copied <= |c| && Valid()
        invariant Contents() == c[copied..]
        invariant user[..] == c[..copied] + u[copied..]
        invariant forall k :: 0 <= k < copied ==> writable(k)
      {
        if !writable(copied) {
          return Fault;
        }
        var ch := Take();
        CopyOne(c, u, copied);
        user[copied] := ch;
        assert user[..] == (c[..copied] + u[copied..])[copied := ch];
        copied := copied + 1;
      }
      result := Count(copied);
    }

    /** `mouse_write`: the byte is fetched first, then the ring is checked. */
    method Write(user: Text, readable: Access) returns (result: Result)
      requires Valid()
      modifies mouseBuffer, `head
      ensures Valid()
      ensures result == WriteResult(readable, |user|, Room(mouseBuffer.Length, old(Contents())))
      ensures Contents() == old(Contents()) + user[..Stored(readable, |user|, Room(mouseBuffer.Length, old(Contents())))]
    {
      hide Between, Contents, FirstFault;
      var i := 0;
      while i < |user|
        invariant 0 <= i <= |user| && Valid()
        invariant Contents() == old(Contents()) + user[..i]
        invariant forall k :: 0 <= k < i ==> readable(k)
      {
        if !readable(i) {
          return Fault;
        }
        var ch := user[i];
        if Full() {
          break;
        }
        Put(ch);
        i := i + 1;
      }
      result := Count(i);
    }

    /** One critical section of any of the three. */
    method Perform(step: Step, ghost s: State) returns (results: seq<Result>, ghost out: Text)
      requires Valid() && Contents() == s.queue
      modifies this, mouseBuffer
      ensures Valid()
      ensures var t := Apply(mouseBuffer.Length, s, step);
              Contents() == t.queue && t.taken == s.taken + out && t.results == s.results + results
    {
      results, out := [], [];
      match step {
        case Timer(event) =>
          Simulate(event);
        case Write(data, readable) =>
          var result := Write(data, readable);
          results := [result];
        case Read(len, writable) =>
          var user := new char[len];
          ghost var k := FirstFault(writable, Min(len, |s.queue|));
          var result := Read(user, len, writable);
          results, out := [result], user[..k];
      }
    }

    /** Any interleaving of critical sections on a fresh ring does what the state
        machine does: it hands out the same bytes and every call returns the same. */
    method Serve(steps: seq<Step>) returns (results: seq<Result>, ghost taken: Text)
      requires Valid() && Contents() == []
      modifies this, mouseBuffer
      ensures Valid()
      ensures Contents() == Run(mouseBuffer.Length, steps).queue
      ensures taken == Run(mouseBuffer.Length, steps).taken && results == Run(mouseBuffer.Length, steps).results
    {
      results, taken := [], [];
      ghost var n := mouseBuffer.Length;
      for i := 0 to |steps|
        invariant Valid() && Contents() == Run(n, steps[..i]).queue
        invariant taken == Run(n, steps[..i]).taken && results == Run(n, steps[..i]).results
      {
        assert steps[..i + 1][..i] == steps[..i];
        ghost var out;
        var returned;
        returned, out := Perform(steps[i], Run(n, steps[..i]));
        results, taken := results + returned, taken + out;
      }
      assert steps[..|steps|] == steps;
    }
  }
}
