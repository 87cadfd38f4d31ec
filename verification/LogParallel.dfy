/** The threads of HW10-LogParser/src/main.c: files are dealt round-robin, every
    thread counts its own files, and the main thread joins and merges in order. */
module LogParallel {
  import opened Basics

  // --- One sequential pass ---

  /** Statistics that can be merged in any order, and what one line adds to them. */
  datatype Tally<!T> = Tally(zero: T, plus: (T, T) -> T, count: string -> T)

  /** Merging is commutative and associative, and nothing is its neutral element. */
  ghost predicate Lawful<T(!new)>(m: Tally<T>) {
    forall a: T, b: T, c: T :: Law(m, a, b, c)
  }

  ghost predicate Law<T>(m: Tally<T>, a: T, b: T, c: T) {
    && m.plus(a, b) == m.plus(b, a)
    && m.plus(m.plus(a, b), c) == m.plus(a, m.plus(b, c))
    && m.plus(a, m.zero) == a
  }

  lemma Laws<T(!new)>(m: Tally<T>, a: T, b: T, c: T)
    requires Lawful(m)
    ensures m.plus(a, b) == m.plus(b, a)
    ensures m.plus(m.plus(a, b), c) == m.plus(a, m.plus(b, c))
    ensures m.plus(a, m.zero) == a && m.plus(m.zero, a) == a
  {
    assert Law(m, a, b, c) && Law(m, a, m.zero, c);
  }

  /** The statistics of one pass over the lines. */
  function Sequential<T(!new)>(m: Tally<T>, lines: seq<string>): T {
    if lines == [] then m.zero
    else m.plus(Sequential(m, lines[..|lines| - 1]), m.count(lines[|lines| - 1]))
  }

  lemma {:induction false} SequentialConcat<T(!new)>(m: Tally<T>, a: seq<string>, b: seq<string>)
    requires Lawful(m)
    ensures Sequential(m, a + b) == m.plus(Sequential(m, a), Sequential(m, b))
  {
    if b == [] {
      assert a + b == a;
      Laws(m, Sequential(m, a), m.zero, m.zero);
    } else {
      var c := b[..|b| - 1];
      assert (a + b)[..|a + b| - 1] == a + c;
      SequentialConcat(m, a, c);
      Laws(m, Sequential(m, a), Sequential(m, c), m.count(b[|b| - 1]));
    }
  }

  lemma SequentialFirst<T(!new)>(m: Tally<T>, lines: seq<string>)
    requires Lawful(m)
    requires lines != []
    ensures Sequential(m, lines) == m.plus(m.count(lines[0]), Sequential(m, lines[1..]))
  {
    SequentialConcat(m, [lines[0]], lines[1..]);
    assert [lines[0]] + lines[1..] == lines;
    assert [lines[0]][..0] == [];
    Laws(m, m.count(lines[0]), m.zero, m.zero);
  }

  // --- Dealing the files ---

  /** Whose turn it is for file m when n threads take turns: m % n. */
  function TurnOf(m: nat, n: nat): (i: nat)
    requires n > 0
    ensures i < n
  {
    if m == 0 then 0
    else if TurnOf(m - 1, n) + 1 == n then 0
    else TurnOf(m - 1, n) + 1
  }

  lemma {:induction false} TurnIsRemainder(m: nat, n: nat)
    requires n > 0
    ensures TurnOf(m, n) == m % n
  {
    if m == 0 {
      DivUnique(0, n, 0, 0);
    } else {
      TurnIsRemainder(m - 1, n);
      DivStep(m - 1, n);
    }
  }

  /** The files a thread gets: those whose turn it is, in order. */
  function Bucket<T>(files: seq<T>, n: nat, i: nat): seq<T>
    requires i < n
  {
    if files == [] then []
    else
      var m := |files| - 1;
      Bucket(files[..m], n, i) + (if TurnOf(m, n) == i then [files[m]] else [])
  }

  lemma DivStep(m: nat, n: nat)
    requires n > 0
    ensures m % n + 1 < n ==> (m + 1) / n == m / n && (m + 1) % n == m % n + 1
    ensures m % n + 1 == n ==> (m + 1) / n == m / n + 1 && (m + 1) % n == 0
  {
    var q, r := m / n, m % n;
    assert m == q * n + r;
    if r + 1 < n {
      DivUnique(m + 1, n, q, r + 1);
    } else {
      assert m + 1 == (q + 1) * n;
      DivUnique(m + 1, n, q + 1, 0);
    }
  }

  /** Bucket sizes: |files| / n, and one more for the first |files| % n buckets. */
  lemma {:induction false} BucketSize<T>(files: seq<T>, n: nat, i: nat)
    requires i < n
    ensures |Bucket(files, n, i)| == |files| / n + (if i < |files| % n then 1 else 0)
  {
    if files == [] {
      DivUnique(0, n, 0, 0);
    } else {
      var m := |files| - 1;
      BucketSize(files[..m], n, i);
      TurnIsRemainder(m, n);
      DivStep(m, n);
    }
  }

  /** Thread i gets the files i, i + n, i + 2n and so on. */
  lemma {:induction false} BucketAt<T>(files: seq<T>, n: nat, i: nat, k: nat)
    requires i < n && i + k * n < |files|
    ensures k < |Bucket(files, n, i)| && Bucket(files, n, i)[k] == files[i + k * n]
  {
    var m := |files| - 1;
    var at := i + k * n;
    if at < m {
      BucketAt(files[..m], n, i, k);
    } else {
      DivUnique(at, n, k, i);
      TurnIsRemainder(m, n);
      BucketSize(files[..m], n, i);
    }
  }

  /** The sizes differ by at most one, earlier buckets are not smaller, and behind an
      empty bucket there are only empty ones. */
  lemma BucketsBalanced<T>(files: seq<T>, n: nat, i: nat, j: nat)
    requires i <= j < n
    ensures |Bucket(files, n, j)| <= |Bucket(files, n, i)| <= |Bucket(files, n, j)| + 1
    ensures Bucket(files, n, i) == [] ==> Bucket(files, n, j) == []
  {
    BucketSize(files, n, i);
    BucketSize(files, n, j);
  }

  /** How many threads are created: up to the first bucket without a file. */
  function ThreadCount<T>(files: seq<T>, n: nat, i: nat): (k: nat)
    requires i <= n
    ensures i <= k <= n
    decreases n - i
  {
    if i == n || Bucket(files, n, i) == [] then i else ThreadCount(files, n, i + 1)
  }

  lemma {:induction false} FirstEmptyBucket<T>(files: seq<T>, n: nat, i: nat, j: nat)
    requires i <= j < n
    ensures j < ThreadCount(files, n, i) ==> Bucket(files, n, j) != []
    ensures j == ThreadCount(files, n, i) ==> Bucket(files, n, j) == []
    decreases n - i
  {
    if i < j && Bucket(files, n, i) != [] {
      FirstEmptyBucket(files, n, i + 1, j);
    }
  }

  /** Stopping at the first empty bucket drops no file: a bucket gets a thread if and
      only if it has files. */
  lemma NoFileDropped<T>(files: seq<T>, n: nat, j: nat)
    requires j < n
    ensures j < ThreadCount(files, n, 0) <==> Bucket(files, n, j) != []
  {
    FirstEmptyBucket(files, n, 0, j);
    if ThreadCount(files, n, 0) < n {
      FirstEmptyBucket(files, n, 0, ThreadCount(files, n, 0));
      if ThreadCount(files, n, 0) <= j {
        BucketsBalanced(files, n, ThreadCount(files, n, 0), j);
      }
    }
  }

  /** The lines of several files, one after the other. */
  function AllLines(files: seq<seq<string>>): seq<string> {
    if files == [] then [] else AllLines(files[..|files| - 1]) + files[|files| - 1]
  }

  /** What buckets i, i + 1, ..., n - 1 add up to. */
  function BucketsFrom<T(!new)>(m: Tally<T>, files: seq<seq<string>>, n: nat, i: nat): T
    requires i <= n
    decreases n - i
  {
    if i == n then m.zero
    else m.plus(Sequential(m, AllLines(Bucket(files, n, i))), BucketsFrom(m, files, n, i + 1))
  }

  lemma MoveOut<T(!new)>(m: Tally<T>, a: T, b: T, c: T)
    requires Lawful(m)
    ensures m.plus(m.plus(a, b), c) == m.plus(m.plus(a, c), b)
    ensures m.plus(a, m.plus(c, b)) == m.plus(m.plus(a, c), b)
  {
    Laws(m, a, b, c);
    Laws(m, b, c, m.zero);
    Laws(m, a, c, b);
  }

  /** One more file goes to one bucket and leaves the others alone. */
  lemma BucketGrows<T>(files: seq<T>, file: T, n: nat, i: nat)
    requires i < n
    ensures Bucket(files + [file], n, i) == Bucket(files, n, i) + (if TurnOf(|files|, n) == i then [file] else [])
  {
    assert (files + [file])[..|files|] == files;
  }

  lemma AllLinesGrow<T(!new)>(m: Tally<T>, files: seq<seq<string>>, file: seq<string>)
    requires Lawful(m)
    ensures AllLines(files + [file]) == AllLines(files) + file
    ensures Sequential(m, AllLines(files + [file])) == m.plus(Sequential(m, AllLines(files)), Sequential(m, file))
  {
    assert (files + [file])[..|files|] == files;
    SequentialConcat(m, AllLines(files), file);
  }

  lemma {:induction false} BucketsGrow<T(!new)>(m: Tally<T>, files: seq<seq<string>>, file: seq<string>, n: nat, i: nat)
    requires Lawful(m)
    requires i <= n && n > 0
    ensures BucketsFrom(m, files + [file], n, i)
         == if i <= TurnOf(|files|, n) then m.plus(BucketsFrom(m, files, n, i), Sequential(m, file))
            else BucketsFrom(m, files, n, i)
    decreases n - i
  {
    hide Bucket, AllLines, Sequential, TurnOf, Lawful;
    if i < n {
      BucketsGrow(m, files, file, n, i + 1);
      BucketGrows(files, file, n, i);
      var b := Bucket(files, n, i);
      MoveOut(m, Sequential(m, AllLines(b)), Sequential(m, file), BucketsFrom(m, files, n, i + 1));
      if TurnOf(|files|, n) == i {
        AllLinesGrow(m, b, file);
      } else {
        assert b + [] == b;
      }
    }
  }

  lemma {:induction false} NothingDealt<T(!new)>(m: Tally<T>, n: nat, i: nat)
    requires Lawful(m)
    requires i <= n
    ensures BucketsFrom(m, [], n, i) == m.zero
    decreases n - i
  {
    if i < n {
      NothingDealt(m, n, i + 1);
      Laws(m, m.zero, m.zero, m.zero);
    }
  }

  lemma DealOne<T(!new)>(m: Tally<T>, files: seq<seq<string>>, file: seq<string>, n: nat)
    requires Lawful(m)
    requires n > 0 && BucketsFrom(m, files, n, 0) == Sequential(m, AllLines(files))
    ensures BucketsFrom(m, files + [file], n, 0) == Sequential(m, AllLines(files + [file]))
  {
    BucketsGrow(m, files, file, n, 0);
    AllLinesGrow(m, files, file);
  }

  lemma NoFiles<T(!new)>(m: Tally<T>, n: nat)
    requires Lawful(m)
    requires n > 0
    ensures BucketsFrom(m, [], n, 0) == m.zero == Sequential(m, AllLines([]))
  {
    NothingDealt(m, n, 0);
  }

  /** Dealing the files changes nothing in the total. */
  lemma {:induction false} DealingKeepsTotal<T(!new)>(m: Tally<T>, files: seq<seq<string>>, n: nat)
    requires Lawful(m)
    requires n > 0
    ensures BucketsFrom(m, files, n, 0) == Sequential(m, AllLines(files))
  {
    hide Lawful, Sequential, AllLines, BucketsFrom;
    if files == [] {
      NoFiles(m, n);
    } else {
      var before, file := files[..|files| - 1], files[|files| - 1];
      DealingKeepsTotal(m, before, n);
      DealOne(m, before, file, n);
      assert files == before + [file];
    }
  }

  // --- The threads as a state machine ---

  /** A thread: the lines it has still to count, and what it has counted. */
  datatype Thread<T> = Thread(todo: seq<string>, stats: T)

  /** `created` threads are running, the first `joined` have been merged. */
  datatype State<T> = State(threads: seq<Thread<T>>, created: nat, joined: nat, total: T)

  function Initial<T>(m: Tally<T>, files: seq<seq<string>>, n: nat): State<T>
    requires n > 0
  {
    State(seq(ThreadCount(files, n, 0), i requires 0 <= i < ThreadCount(files, n, 0) =>
                Thread(AllLines(Bucket(files, n, i)), m.zero)), 0, 0, m.zero)
  }

  /** The main thread creates the next thread. */
  ghost predicate Create<T>(s: State<T>, s': State<T>) {
    s.created < |s.threads| && s' == s.(created := s.created + 1)
  }

  /** Thread i counts its next line. */
  ghost predicate Work<T(!new)>(m: Tally<T>, s: State<T>, s': State<T>, i: nat) {
    && i < s.created <= |s.threads| && s.threads[i].todo != []
    && var t := s.threads[i];
       s' == s.(threads := s.threads[i := Thread(t.todo[1..], m.plus(t.stats, m.count(t.todo[0])))])
  }

  /** The main thread has created all threads, the next one in order has finished,
      and its statistics are merged. */
  ghost predicate Join<T>(m: Tally<T>, s: State<T>, s': State<T>) {
    && s.created == |s.threads| && s.joined < |s.threads| && s.threads[s.joined].todo == []
    && s' == s.(joined := s.joined + 1, total := m.plus(s.total, s.threads[s.joined].stats))
  }

  ghost predicate Step<T(!new)>(m: Tally<T>, s: State<T>, s': State<T>) {
    Create(s, s') || Join(m, s, s') || exists i: nat :: Work(m, s, s', i)
  }

  /** A run, under any scheduling. */
  ghost predicate Execution<T(!new)>(m: Tally<T>, files: seq<seq<string>>, n: nat, run: seq<State<T>>)
    requires n > 0
  {
    && run != [] && run[0] == Initial(m, files, n)
    && forall k :: 0 <= k < |run| - 1 ==> Step(m, run[k], run[k + 1])
  }

  /** What thread i has counted and will count. */
  function Share<T(!new)>(m: Tally<T>, t: Thread<T>): T {
    m.plus(t.stats, Sequential(m, t.todo))
  }

  function Shares<T(!new)>(m: Tally<T>, threads: seq<Thread<T>>, i: nat): T
    requires i <= |threads|
    decreases |threads| - i
  {
    if i == |threads| then m.zero else m.plus(Share(m, threads[i]), Shares(m, threads, i + 1))
  }

  lemma {:induction false} SameShares<T(!new)>(m: Tally<T>, a: seq<Thread<T>>, b: seq<Thread<T>>, i: nat)
    requires Lawful(m)
    requires |a| == |b| && i <= |a| && forall k :: i <= k < |a| ==> Share(m, a[k]) == Share(m, b[k])
    ensures Shares(m, a, i) == Shares(m, b, i)
    decreases |a| - i
  {
    if i < |a| {
      SameShares(m, a, b, i + 1);
    }
  }

  ghost predicate Invariant<T(!new)>(m: Tally<T>, s: State<T>, total: T) {
    && s.joined <= s.created <= |s.threads|
    && (forall i :: 0 <= i < s.joined ==> s.threads[i].todo == [])
    && m.plus(s.total, Shares(m, s.threads, s.joined)) == total
  }

  lemma JoinKeepsInvariant<T(!new)>(m: Tally<T>, s: State<T>, s': State<T>, total: T)
    requires Lawful(m)
    requires Invariant(m, s, total) && Join(m, s, s')
    ensures Invariant(m, s', total)
  {
    var t, rest := s.threads[s.joined], Shares(m, s.threads, s.joined + 1);
    NothingLeft(m, t);
    Laws(m, s.total, t.stats, rest);
  }

  lemma NothingLeft<T(!new)>(m: Tally<T>, t: Thread<T>)
    requires Lawful(m)
    requires t.todo == []
    ensures Share(m, t) == t.stats
  {
    Laws(m, t.stats, m.zero, m.zero);
  }

  lemma NothingDone<T(!new)>(m: Tally<T>, todo: seq<string>)
    requires Lawful(m)
    ensures Share(m, Thread(todo, m.zero)) == Sequential(m, todo)
  {
    Laws(m, Sequential(m, todo), m.zero, m.zero);
  }

  lemma WorkKeepsShare<T(!new)>(m: Tally<T>, t: Thread<T>)
    requires Lawful(m)
    requires t.todo != []
    ensures Share(m, Thread(t.todo[1..], m.plus(t.stats, m.count(t.todo[0])))) == Share(m, t)
  {
    SequentialFirst(m, t.todo);
    Laws(m, t.stats, m.count(t.todo[0]), Sequential(m, t.todo[1..]));
  }

  lemma WorkKeepsInvariant<T(!new)>(m: Tally<T>, s: State<T>, s': State<T>, i: nat, total: T)
    requires Lawful(m)
    requires Invariant(m, s, total) && Work(m, s, s', i)
    ensures Invariant(m, s', total)
  {
    WorkKeepsShare(m, s.threads[i]);
    SameShares(m, s.threads, s'.threads, s.joined);
  }

  lemma StepKeepsInvariant<T(!new)>(m: Tally<T>, s: State<T>, s': State<T>, total: T)
    requires Lawful(m)
    requires Invariant(m, s, total) && Step(m, s, s')
    ensures Invariant(m, s', total)
  {
    if Join(m, s, s') {
      JoinKeepsInvariant(m, s, s', total);
    } else if !Create(s, s') {
      var i: nat :| Work(m, s, s', i);
      WorkKeepsInvariant(m, s, s', i, total);
    }
  }

  ghost predicate Dealt<T>(m: Tally<T>, files: seq<seq<string>>, n: nat, threads: seq<Thread<T>>)
    requires n > 0
  {
    && |threads| == ThreadCount(files, n, 0)
    && forall i :: 0 <= i < |threads| ==> threads[i] == Thread(AllLines(Bucket(files, n, i)), m.zero)
  }

  lemma SharesStep<T(!new)>(m: Tally<T>, files: seq<seq<string>>, n: nat, threads: seq<Thread<T>>, i: nat)
    requires Lawful(m)
    requires i < n && i < |threads| && threads[i] == Thread(AllLines(Bucket(files, n, i)), m.zero)
    requires SharesDealt(m, files, n, threads, i + 1)
    ensures SharesDealt(m, files, n, threads, i)
  {
    NothingDone(m, AllLines(Bucket(files, n, i)));
  }

  ghost predicate SharesDealt<T(!new)>(m: Tally<T>, files: seq<seq<string>>, n: nat, threads: seq<Thread<T>>, i: nat)
    requires i <= |threads| && i <= n
  {
    Shares(m, threads, i) == BucketsFrom(m, files, n, i)
  }

  lemma SharesEnd<T(!new)>(m: Tally<T>, files: seq<seq<string>>, n: nat, threads: seq<Thread<T>>)
    requires Lawful(m)
    requires n > 0 && |threads| == ThreadCount(files, n, 0)
    ensures SharesDealt(m, files, n, threads, |threads|)
  {
    EmptyBuckets(m, files, n, |threads|);
  }

  lemma InitialShares<T(!new)>(m: Tally<T>, files: seq<seq<string>>, n: nat, threads: seq<Thread<T>>)
    requires Lawful(m)
    requires n > 0 && Dealt(m, files, n, threads)
    ensures SharesDealt(m, files, n, threads, 0)
  {
    var i: nat := |threads|;
    SharesEnd(m, files, n, threads);
    while i > 0
      invariant i <= |threads| && SharesDealt(m, files, n, threads, i)
    {
      i := i - 1;
      SharesStep(m, files, n, threads, i);
    }
  }

  lemma EmptyBucket<T(!new)>(m: Tally<T>, files: seq<seq<string>>, n: nat, i: nat)
    requires Lawful(m)
    requires i < n && Bucket(files, n, i) == []
    ensures BucketsFrom(m, files, n, i) == BucketsFrom(m, files, n, i + 1)
  {
    Laws(m, BucketsFrom(m, files, n, i + 1), m.zero, m.zero);
  }

  lemma {:induction false} EmptyBuckets<T(!new)>(m: Tally<T>, files: seq<seq<string>>, n: nat, i: nat)
    requires Lawful(m)
    requires n > 0 && ThreadCount(files, n, 0) <= i <= n
    ensures BucketsFrom(m, files, n, i) == m.zero
    decreases n - i
  {
    if i < n {
      EmptyBuckets(m, files, n, i + 1);
      NoFileDropped(files, n, i);
      EmptyBucket(m, files, n, i);
    }
  }

  lemma {:induction false} InvariantHolds<T(!new)>(m: Tally<T>, files: seq<seq<string>>, n: nat, run: seq<State<T>>, k: nat)
    requires Lawful(m)
    requires n > 0 && Execution(m, files, n, run) && k < |run|
    ensures Invariant(m, run[k], Sequential(m, AllLines(files)))
    ensures |run[k].threads| == ThreadCount(files, n, 0)
  {
    if k == 0 {
      InitialShares(m, files, n, Initial(m, files, n).threads);
      DealingKeepsTotal(m, files, n);
      Laws(m, Sequential(m, AllLines(files)), m.zero, m.zero);
    } else {
      InvariantHolds(m, files, n, run, k - 1);
      assert Step(m, run[k - 1], run[k - 1 + 1]);
      StepKeepsInvariant(m, run[k - 1], run[k], Sequential(m, AllLines(files)));
    }
  }

  /** Parallel equals sequential: for every way of counting a line, every list of
      files, every number of threads and every interleaving, once the last thread is
      joined the merged statistics are those of one pass over all lines in order. */
  lemma ParallelIsSequential<T(!new)>(m: Tally<T>, files: seq<seq<string>>, n: nat, run: seq<State<T>>)
    requires Lawful(m)
    requires n > 0 && Execution(m, files, n, run)
    requires run[|run| - 1].joined == |run[|run| - 1].threads|
    ensures run[|run| - 1].total == Sequential(m, AllLines(files))
  {
    var s := run[|run| - 1];
    InvariantHolds(m, files, n, run, |run| - 1);
    Laws(m, s.total, m.zero, m.zero);
  }

  // --- Every run can be finished, and no run goes on for ever ---

  function TodoFrom<T>(threads: seq<Thread<T>>, i: nat): nat
    requires i <= |threads|
    decreases |threads| - i
  {
    if i == |threads| then 0 else |threads[i].todo| + TodoFrom(threads, i + 1)
  }

  lemma {:induction false} TodoUpdate<T>(threads: seq<Thread<T>>, i: nat, k: nat, t: Thread<T>)
    requires i <= |threads| && k < |threads|
    ensures TodoFrom(threads[k := t], i)
         == TodoFrom(threads, i) + (if i <= k then |t.todo| - |threads[k].todo| else 0)
    decreases |threads| - i
  {
    if i < |threads| {
      TodoUpdate(threads, i + 1, k, t);
    }
  }

  /** The steps that are left. */
  function StepsLeft<T>(s: State<T>): int {
    (|s.threads| - s.created) + TodoFrom(s.threads, 0) + (|s.threads| - s.joined)
  }

  /** Every step brings the end one step nearer, whichever is scheduled. */
  lemma StepCounts<T(!new)>(m: Tally<T>, s: State<T>, s': State<T>)
    requires Step(m, s, s')
    ensures StepsLeft(s') == StepsLeft(s) - 1
  {
    if !Create(s, s') && !Join(m, s, s') {
      var i: nat :| Work(m, s, s', i);
      var t := s.threads[i];
      TodoUpdate(s.threads, 0, i, Thread(t.todo[1..], m.plus(t.stats, m.count(t.todo[0]))));
    }
  }

  /** Until all threads are joined some step is possible: there is no deadlock. */
  lemma NoDeadlock<T(!new)>(m: Tally<T>, s: State<T>)
    requires s.joined <= s.created <= |s.threads| && s.joined < |s.threads|
    ensures exists s' :: Step(m, s, s')
  {
    if s.created < |s.threads| {
      assert Step(m, s, s.(created := s.created + 1));
    } else if s.threads[s.joined].todo == [] {
      assert Step(m, s, s.(joined := s.joined + 1, total := m.plus(s.total, s.threads[s.joined].stats)));
    } else {
      var t := s.threads[s.joined];
      var s' := s.(threads := s.threads[s.joined := Thread(t.todo[1..], m.plus(t.stats, m.count(t.todo[0])))]);
      assert Work(m, s, s', s.joined);
      assert Step(m, s, s');
    }
  }

  lemma {:induction false} RunLength<T(!new)>(m: Tally<T>, files: seq<seq<string>>, n: nat, run: seq<State<T>>, k: nat)
    requires n > 0 && Execution(m, files, n, run) && k < |run|
    ensures StepsLeft(run[k]) == StepsLeft(Initial(m, files, n)) - k
  {
    if k > 0 {
      RunLength(m, files, n, run, k - 1);
      assert Step(m, run[k - 1], run[k - 1 + 1]);
      StepCounts(m, run[k - 1], run[k]);
    }
  }

  lemma {:induction false} NothingTodo<T>(threads: seq<Thread<T>>, i: nat)
    requires i <= |threads| && forall k :: i <= k < |threads| ==> threads[k].todo == []
    ensures TodoFrom(threads, i) == 0
    decreases |threads| - i
  {
    if i < |threads| {
      NothingTodo(threads, i + 1);
    }
  }

  ghost predicate Stopped<T(!new)>(m: Tally<T>, s: State<T>) {
    forall s' :: !Step(m, s, s')
  }

  /** Every run that cannot be extended has joined all threads, and under every
      scheduling it takes the same number of steps: two for every thread and one for
      every line. */
  lemma RunsFinish<T(!new)>(m: Tally<T>, files: seq<seq<string>>, n: nat, run: seq<State<T>>)
    requires Lawful(m)
    requires n > 0 && Execution(m, files, n, run)
    requires Stopped(m, run[|run| - 1])
    ensures run[|run| - 1].joined == |run[|run| - 1].threads|
    ensures |run| - 1 == 2 * ThreadCount(files, n, 0) + TodoFrom(Initial(m, files, n).threads, 0)
  {
    var s := run[|run| - 1];
    InvariantHolds(m, files, n, run, |run| - 1);
    if s.joined < |s.threads| {
      NoDeadlock(m, s);
    }
    RunLength(m, files, n, run, |run| - 1);
    NothingTodo(s.threads, 0);
  }
}
