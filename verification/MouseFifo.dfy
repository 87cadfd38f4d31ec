/** The byte queue of the mouse driver (HW14-driver/mouse_driv.c). Timer, reader
    and writer take the mutex around their whole loop, so each is one atomic step. */
module MouseFifo {

  type Text = seq<char>

  /** Whether the user-space byte at an offset can be copied. */
  type Access = nat -> bool

  /** The first offset below n that cannot be copied, or n. */
  function FirstFault(ok: Access, n: nat): (f: nat)
    ensures f <= n && (f < n ==> !ok(f)) && forall k :: 0 <= k < f ==> ok(k)
  {
    if n == 0 then 0
    else
      var f := FirstFault(ok, n - 1);
      if f < n - 1 || !ok(n - 1) then f else n
  }

  function Min(a: nat, b: nat): nat {
    if a <= b then a else b
  }

  /** What a system call returns: a count, or -EFAULT. */
  datatype Result = Count(n: nat) | Fault

  /** How many of len bytes a write stores into a queue with `room` places left:
      it stops at the first unreadable byte or when the queue is full. */
  function Stored(ok: Access, len: nat, room: nat): (n: nat)
    ensures n <= len && n <= room
  {
    Min(FirstFault(ok, len), room)
  }

  /** The user byte is fetched before the queue is checked, so an unreadable byte
      right behind the last one that fits is still an error. */
  function WriteResult(ok: Access, len: nat, room: nat): Result {
    var f := FirstFault(ok, len);
    if f < len && f <= room then Fault else Count(Min(len, room))
  }

  function ReadResult(ok: Access, len: nat, available: nat): Result {
    var want := Min(len, available);
    var f := FirstFault(ok, want);
    if f < want then Fault else Count(want)
  }

  // --- The queue as a state machine ---

  /** One critical section. */
  datatype Step =
    | Timer(event: Text)
    | Write(data: Text, readable: Access)
    | Read(len: nat, writable: Access)

  /** The queue, everything ever stored in it and taken out of it, and what the
      system calls have returned. */
  datatype State = State(queue: Text, stored: Text, taken: Text, results: seq<Result>)

  /** A ring of n places holds at most n - 1 bytes. */
  function Room(n: nat, queue: Text): nat
    requires |queue| < n
  {
    n - 1 - |queue|
  }

  function Apply(n: nat, s: State, step: Step): (s': State)
    requires |s.queue| < n
    ensures |s'.queue| < n
  {
    match step
    case Timer(event) =>
      var k := Min(|event|, Room(n, s.queue));
      State(s.queue + event[..k], s.stored + event[..k], s.taken, s.results)
    case Write(data, readable) =>
      var k := Stored(readable, |data|, Room(n, s.queue));
      State(s.queue + data[..k], s.stored + data[..k], s.taken,
            s.results + [WriteResult(readable, |data|, Room(n, s.queue))])
    case Read(len, writable) =>
      var k := FirstFault(writable, Min(len, |s.queue|));
      State(s.queue[k..], s.stored, s.taken + s.queue[..k], s.results + [ReadResult(writable, len, |s.queue|)])
  }

  /** Any interleaving of the three, from the empty queue. */
  function Run(n: nat, steps: seq<Step>): (s: State)
    requires n > 0
    ensures |s.queue| < n
  {
    if steps == [] then State([], [], [], [])
    else Apply(n, Run(n, steps[..|steps| - 1]), steps[|steps| - 1])
  }

  /** Conservation: over every interleaving, with or without faults, what was stored
      is what was taken followed by what is still queued, in order. */
  lemma {:induction false} Conservation(n: nat, steps: seq<Step>)
    requires n > 0
    ensures Run(n, steps).stored == Run(n, steps).taken + Run(n, steps).queue
  {
    if steps != [] {
      Conservation(n, steps[..|steps| - 1]);
      var s := Run(n, steps[..|steps| - 1]);
      ApplyConserves(n, s, steps[|steps| - 1]);
    }
  }

  lemma ApplyConserves(n: nat, s: State, step: Step)
    requires |s.queue| < n && s.stored == s.taken + s.queue
    ensures Apply(n, s, step).stored == Apply(n, s, step).taken + Apply(n, s, step).queue
  {
    if step.Read? {
      var k := FirstFault(step.writable, Min(step.len, |s.queue|));
      assert s.queue == s.queue[..k] + s.queue[k..];
    }
  }

  /** Later steps only extend what was stored and taken. */
  lemma {:induction false} HistoryGrows(n: nat, steps: seq<Step>, i: nat)
    requires n > 0 && i <= |steps|
    ensures Run(n, steps[..i]).stored <= Run(n, steps).stored
    ensures Run(n, steps[..i]).taken <= Run(n, steps).taken
  {
    if i == |steps| {
      assert steps[..i] == steps;
    } else {
      HistoryGrows(n, steps[..|steps| - 1], i);
      assert steps[..|steps| - 1][..i] == steps[..i];
    }
  }

  /** First in, first out across calls: whatever had been stored by some moment is
      taken, byte for byte, before anything stored after it. */
  lemma FirstInFirstOut(n: nat, steps: seq<Step>, i: nat, k: nat)
    requires n > 0 && i <= |steps|
    requires k < |Run(n, steps[..i]).stored| && k < |Run(n, steps).taken|
    ensures Run(n, steps).taken[k] == Run(n, steps[..i]).stored[k]
  {
    Conservation(n, steps);
    HistoryGrows(n, steps, i);
    var s := Run(n, steps);
    assert s.stored[k] == s.taken[k];
  }

  /** When no byte of user space faults: a write stores min(length, room) bytes, a
      read takes min(length, available) bytes, and that is what they return. */
  lemma WithoutFaults(ok: Access, len: nat, room: nat)
    requires forall k: nat :: ok(k)
    ensures Stored(ok, len, room) == Min(len, room)
    ensures WriteResult(ok, len, room) == Count(Min(len, room))
    ensures FirstFault(ok, Min(len, room)) == Min(len, room)
    ensures ReadResult(ok, len, room) == Count(Min(len, room))
  {
  }

  /** A write fails if and only if one of its bytes cannot be read and no earlier
      one was refused by a full queue; the queue may be full at that very byte. */
  lemma WriteFaults(ok: Access, len: nat, room: nat)
    ensures WriteResult(ok, len, room) == Fault <==> exists k: nat :: k < len && k <= room && !ok(k)
  {
    var f := FirstFault(ok, len);
    if f < len && f <= room {
      assert !ok(f);
    }
  }

  /** Exactly as many readable bytes as there is room for, and an unreadable one
      behind them: all that fit are stored, and the call reports a fault. */
  lemma FaultBehindRoom(ok: Access, len: nat, room: nat)
    requires room < len && !ok(room) && forall k :: 0 <= k < room ==> ok(k)
    ensures Stored(ok, len, room) == room && WriteResult(ok, len, room) == Fault
  {
    WriteFaults(ok, len, room);
    assert FirstFault(ok, len) == room;
  }

  lemma ReadWithoutFaults(n: nat, s: State, len: nat, ok: Access)
    requires |s.queue| < n && forall k: nat :: ok(k)
    ensures var k := Min(len, |s.queue|);
            Apply(n, s, Read(len, ok)) == State(s.queue[k..], s.stored, s.taken + s.queue[..k], s.results + [Count(k)])
  {
    WithoutFaults(ok, len, |s.queue|);
  }

  lemma TakeTwice(c: Text, taken: Text, k: nat, l: nat)
    requires k + l <= |c|
    ensures c[k..][l..] == c[k + l..]
    ensures taken + c[..k] + c[k..][..l] == taken + c[..k + l]
  {
    assert c[..k] + c[k..][..l] == c[..k + l];
    assert taken + c[..k] + c[k..][..l] == taken + (c[..k] + c[k..][..l]);
  }

  /** Splitting a fault-free read in two takes the same bytes, and the counts add up. */
  lemma ReadSplit(n: nat, s: State, a: nat, b: nat, ok: Access)
    requires |s.queue| < n && forall k: nat :: ok(k)
    ensures var two, one := Apply(n, Apply(n, s, Read(a, ok)), Read(b, ok)), Apply(n, s, Read(a + b, ok));
            var k := Min(a, |s.queue|);
            var l := Min(b, |s.queue| - k);
            && two.queue == one.queue && two.stored == one.stored && two.taken == one.taken
            && two.results == s.results + [Count(k), Count(l)] && one.results == s.results + [Count(k + l)]
  {
    hide Apply;
    var k := Min(a, |s.queue|);
    var l := Min(b, |s.queue| - k);
    ReadWithoutFaults(n, s, a, ok);
    var between := State(s.queue[k..], s.stored, s.taken + s.queue[..k], s.results + [Count(k)]);
    assert Apply(n, s, Read(a, ok)) == between;
    ReadWithoutFaults(n, between, b, ok);
    ReadWithoutFaults(n, s, a + b, ok);
    TakeTwice(s.queue, s.taken, k, l);
    assert s.results + [Count(k)] + [Count(l)] == s.results + [Count(k), Count(l)];
  }

  // --- The capacity, in numbers ---

  /** A readable write into a ring of n places stores all of its bytes if there are that
      many places left, one of the n always staying free, and else as many as there are. */
  lemma WriteStores(n: nat, s: State, data: Text, ok: Access)
    requires |s.queue| < n && forall k :: 0 <= k < |data| ==> ok(k)
    ensures var t := Apply(n, s, Write(data, ok));
            var free := n - 1 - |s.queue|;
            if |data| <= free
            then t.queue == s.queue + data && t.stored == s.stored + data && t.results == s.results + [Count(|data|)]
            else t.queue == s.queue + data[..free] && t.stored == s.stored + data[..free]
                 && t.results == s.results + [Count(free)]
  {
    assert data[..|data|] == data;
  }

  /** The same for an event of the timer. */
  lemma TimerStores(n: nat, s: State, event: Text)
    requires |s.queue| < n
    ensures var t := Apply(n, s, Timer(event));
            var free := n - 1 - |s.queue|;
            && t.taken == s.taken && t.results == s.results
            && if |event| <= free then t.queue == s.queue + event && t.stored == s.stored + event
               else t.queue == s.queue + event[..free] && t.stored == s.stored + event[..free]
  {
    assert event[..|event|] == event;
  }

  /** On an empty ring of n places a write of fewer than n bytes and a read of as many
      give exactly these bytes back. */
  lemma WrittenIsRead(n: nat, data: Text, readable: Access, writable: Access)
    requires |data| < n && (forall k: nat :: readable(k)) && forall k: nat :: writable(k)
    ensures var s := Run(n, [Write(data, readable), Read(|data|, writable)]);
            s.taken == data && s.queue == [] && s.results == [Count(|data|), Count(|data|)]
  {
    hide Apply, FirstFault;
    var w, r := Write(data, readable), Read(|data|, writable);
    var empty := State([], [], [], []);
    assert [w, r][..1] == [w] && [w][..0] == [];
    WriteStores(n, empty, data, readable);
    var s := Apply(n, empty, w);
    assert Run(n, [w]) == s && s.queue == data;
    WriteKeepsTaken(n, empty, data, readable);
    ReadWithoutFaults(n, s, |data|, writable);
    assert data[|data|..] == [] && data[..|data|] == data;
  }

  lemma WriteKeepsTaken(n: nat, s: State, data: Text, ok: Access)
    requires |s.queue| < n
    ensures Apply(n, s, Write(data, ok)).taken == s.taken
  {
  }

  // --- Faults ---

  /** The bytes in front of the first one that cannot be read stay stored if they fit. */
  lemma FaultInWrite(n: nat, s: State, data: Text, ok: Access, k: nat)
    requires |s.queue| < n && k < |data| && k <= n - 1 - |s.queue| && !ok(k) && forall i :: 0 <= i < k ==> ok(i)
    ensures Apply(n, s, Write(data, ok))
         == State(s.queue + data[..k], s.stored + data[..k], s.taken, s.results + [Fault])
  {
    WriteFaults(ok, |data|, n - 1 - |s.queue|);
    assert FirstFault(ok, |data|) == k;
  }

  /** A read fails if and only if one of the places it would fill cannot be written. */
  lemma ReadFaults(ok: Access, len: nat, available: nat)
    ensures ReadResult(ok, len, available) == Fault <==> exists k: nat :: k < len && k < available && !ok(k)
  {
    var want := Min(len, available);
    var f := FirstFault(ok, want);
    if f < want {
      assert !ok(f);
    }
  }

  /** The bytes in front of the first such place have left the queue. */
  lemma FaultInRead(n: nat, s: State, len: nat, ok: Access, k: nat)
    requires |s.queue| < n && k < len && k < |s.queue| && !ok(k) && forall i :: 0 <= i < k ==> ok(i)
    ensures Apply(n, s, Read(len, ok)) == State(s.queue[k..], s.stored, s.taken + s.queue[..k], s.results + [Fault])
  {
    ReadFaults(ok, len, |s.queue|);
  }
}
