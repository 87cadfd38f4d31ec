/** Exactly on which inputs the word count of HW03-Hash as it is written is right: a
    condition on the words alone. The table has 10 * 2^j slots while it holds at most
    7 * 2^j distinct words, so which words meet in which table is known before the run. */
module HashRuns {
  import opened Basics
  import opened HashSlots
  import opened HashAsWritten
  import opened HashRange

  // --- The condition ---

  /** The distinct words in the order of their first occurrence. */
  function Distinct(words: seq<string>): (ds: seq<string>)
    ensures forall w :: w in ds <==> w in words
    ensures forall a, b :: 0 <= a < b < |ds| ==> ds[a] != ds[b]
  {
    if words == [] then []
    else
      var ds, w := Distinct(words[..|words| - 1]), words[|words| - 1];
      if w in ds then ds else ds + [w]
  }

  /** Two of the words have the same home in a table of n slots. */
  ghost predicate HomesClash(ds: seq<string>, n: nat)
    requires n > 0
  {
    exists a: nat, b: nat :: a < b < |ds| && Home(ds[a], n) == Home(ds[b], n)
  }

  /** The table of 10 * 2^j slots is outgrown, and two of the words in it then have the
      same home in the next one. */
  ghost predicate GrowthClashes(ds: seq<string>, j: nat) {
    |ds| > 7 * Pow2(j) && HomesClash(ds[..7 * Pow2(j) + 1], 20 * Pow2(j))
  }

  function KeysFrom(ds: seq<string>, n: nat, i: nat): set<string>
    requires n > 0
  {
    set w | w in ds && Home(w, n) >= i
  }

  /** No more words have their home in the last places of a table of n slots than there
      are such places. */
  ghost predicate Fits(ds: seq<string>, n: nat)
    requires n > 0
  {
    forall i: nat :: i <= n ==> |KeysFrom(ds, n, i)| <= n - i
  }

  /** There are enough distinct words for a table of 10 * 2^j slots. */
  predicate Reached(ds: seq<string>, j: nat) {
    j == 0 || |ds| > 7 * Pow2(j - 1)
  }

  /** The words that are looked up for the first time before that table is outgrown. */
  function InTable(ds: seq<string>, j: nat): seq<string> {
    if |ds| > 7 * Pow2(j) + 1 then ds[..7 * Pow2(j) + 1] else ds
  }

  /** In every table the words fit without going around the end, and no two of them have
      the same home in the next one. */
  ghost predicate Harmless(ds: seq<string>) {
    forall j: nat :: Reached(ds, j) ==> Fits(InTable(ds, j), 10 * Pow2(j)) && !GrowthClashes(ds, j)
  }

  // --- The table a number of distinct words leads to ---

  function Level(n: nat): (k: nat)
    ensures n <= 7 * Pow2(k) && (k == 0 || n > 7 * Pow2(k - 1))
  {
    if n == 0 then 0
    else
      var k := Level(n - 1);
      if n > 7 * Pow2(k) then k + 1 else k
  }

  // --- Counting keys and slots ---

  lemma SubsetSize<T>(a: set<T>, b: set<T>)
    requires a <= b
    ensures |a| <= |b|
  {
    assert b == a + (b - a);
  }

  /** The keys in the slots from i on. */
  function TakenKeys(s: Slots, i: nat): set<string>
    requires i <= |s|
  {
    set p | i <= p < |s| && s[p].Taken? :: s[p].key
  }

  lemma TakenKeysStep(s: Slots, i: nat)
    requires i < |s|
    ensures TakenKeys(s, i) == TakenKeys(s, i + 1) + if s[i].Taken? then {s[i].key} else {}
  {
  }

  lemma {:induction false} TakenKeysAtMost(s: Slots, i: nat)
    requires i <= |s|
    ensures |TakenKeys(s, i)| <= |s| - i
    decreases |s| - i
  {
    if i < |s| {
      TakenKeysAtMost(s, i + 1);
      TakenKeysStep(s, i);
    }
  }

  lemma {:induction false} FullSlotsHoldAsMany(s: Slots, m: map<string, int>, i: nat)
    requires i <= |s| && Represents(s, m) && forall p :: i <= p < |s| ==> s[p].Taken?
    ensures |TakenKeys(s, i)| == |s| - i
    decreases |s| - i
  {
    hide TakenKeys;
    if i == |s| {
      TakenKeysAtMost(s, i);
    } else {
      FullSlotsHoldAsMany(s, m, i + 1);
      TakenKeysStep(s, i);
      KeyNotBehind(s, m, i);
    }
  }

  lemma KeyNotBehind(s: Slots, m: map<string, int>, i: nat)
    requires i < |s| && Represents(s, m) && s[i].Taken?
    ensures s[i].key !in TakenKeys(s, i + 1)
  {
  }

  // --- Tables in which no element has gone around the end ---

  ghost predicate Unwrapped(s: Slots) {
    forall i :: 0 <= i < |s| && s[i].Taken? ==> Home(s[i].key, |s|) <= i
  }

  /** What such a table stores fits. */
  lemma StoredFits(s: Slots, m: map<string, int>, ds: seq<string>)
    requires |s| > 0 && Unwrapped(s) && Represents(s, m) && forall w :: w in ds ==> w in m
    ensures Fits(ds, |s|)
  {
    forall i: nat | i <= |s| ensures |KeysFrom(ds, |s|, i)| <= |s| - i {
      forall w | w in KeysFrom(ds, |s|, i) ensures w in TakenKeys(s, i) {
        var p :| 0 <= p < |s| && Holds(s[p], w);
        assert s[p].key == w && i <= p;
      }
      SubsetSize(KeysFrom(ds, |s|, i), TakenKeys(s, i));
      TakenKeysAtMost(s, i);
    }
  }

  /** The run of taken slots that ends at h - 1 starts at 0 or behind a free slot. */
  lemma {:induction false} RunStart(s: Slots, h: nat) returns (i: nat)
    requires h <= |s|
    ensures i <= h && (forall p :: i <= p < h ==> s[p].Taken?) && (i == 0 || s[i - 1].Free?)
  {
    i := h;
    if h > 0 && s[h - 1].Taken? {
      i := RunStart(s, h - 1);
    }
  }

  lemma TakenFromHome(s: Slots, p: nat, q: nat)
    requires |s| > 0 && Reachable(s) && Unwrapped(s) && q < p < |s| && s[p].Taken? && Home(s[p].key, |s|) <= q
    ensures s[q].Taken?
  {
    var h := Home(s[p].key, |s|);
    assert ReachableAt(s, p) && Distance(|s|, h, p) == p - h;
    assert After(|s|, h, q - h) == q;
  }

  /** An element behind a free slot has its home behind it, too. */
  lemma HomeBehindFree(s: Slots, i: nat, p: nat)
    requires |s| > 0 && Reachable(s) && Unwrapped(s) && i <= p < |s| && s[p].Taken?
    requires i == 0 || s[i - 1].Free?
    ensures Home(s[p].key, |s|) >= i
  {
    hide Reachable, Unwrapped, Home;
    if Home(s[p].key, |s|) < i {
      TakenFromHome(s, p, i - 1);
    }
  }

  lemma TakenKeyFrom(s: Slots, m: map<string, int>, i: nat, k: string)
    requires |s| > 0 && Reachable(s) && Unwrapped(s) && Represents(s, m) && i <= |s|
    requires (i == 0 || s[i - 1].Free?) && k in TakenKeys(s, i)
    ensures k in m && Home(k, |s|) >= i
  {
    hide Reachable, Unwrapped, Home;
    var p :| i <= p < |s| && s[p].Taken? && s[p].key == k;
    HomeBehindFree(s, i, p);
  }

  /** A full end of the table behind a free slot leaves no room for another key there. */
  lemma FullEndOverflows(s: Slots, m: map<string, int>, ds: seq<string>, w: string, i: nat)
    requires |s| > 0 && Reachable(s) && Unwrapped(s) && Represents(s, m) && w !in m
    requires i <= Home(w, |s|) && (i == 0 || s[i - 1].Free?) && forall p :: i <= p < |s| ==> s[p].Taken?
    requires forall k :: k in m ==> k in ds
    ensures |KeysFrom(ds + [w], |s|, i)| > |s| - i
  {
    FullSlotsHoldAsMany(s, m, i);
    hide Reachable, Unwrapped, Represents, Home;
    var held, from := TakenKeys(s, i), KeysFrom(ds + [w], |s|, i);
    forall k | k in held ensures k in from && k != w {
      TakenKeyFrom(s, m, i, k);
    }
    assert w in from;
    SubsetSize(held + {w}, from);
  }

  /** A lookup of a new key runs off the end only if the key does not fit. */
  lemma OffEndOverflows(s: Slots, m: map<string, int>, ds: seq<string>, w: string)
    requires |s| > 0 && Reachable(s) && Unwrapped(s) && Represents(s, m) && w !in m && Get(s, w).OffEnd?
    requires forall k :: k in m ==> k in ds
    ensures !Fits(ds + [w], |s|)
  {
    LookupOffEnd(s, w);
    hide Reachable, Unwrapped, Represents, Home, Get, KeysFrom;
    var i := RunStart(s, |s|);
    FullEndOverflows(s, m, ds, w, i);
  }

  /** Otherwise the key is stored without going around the end. */
  lemma InsertedUnwrapped(s: Slots, w: string, value: int)
    requires |s| > 0 && HasFree(s) && Unwrapped(s) && !Get(s, w).OffEnd? && !Get(s, w).Found?
    ensures Unwrapped(Inserted(s, w, value))
  {
    var h := Home(w, |s|);
    var e := GetFromStops(s, w, h);
    var d := FreeDistance(s, h, 0);
    assert After(|s|, h, e - h) == e;
    assert d <= e - h;
  }

  lemma RehashedUnwrapped(s: Slots)
    requires |s| > 0
    ensures Unwrapped(Rehashed(s))
  {
    var t := Rehashed(s);
    forall i | 0 <= i < |t| && t[i].Taken? ensures Home(t[i].key, |t|) <= i {
      RehashedAtHome(s, i);
    }
  }

  /** Slots clash when the words they hold do. */
  lemma ClashMeaning(s: Slots, m: map<string, int>, ds: seq<string>, n: nat)
    requires n > 0 && Represents(s, m) && forall w :: w in m <==> w in ds
    requires forall a, b :: 0 <= a < b < |ds| ==> ds[a] != ds[b]
    ensures Clash(s, n) <==> HomesClash(ds, n)
  {
    if Clash(s, n) {
      SlotsToWords(s, m, ds, n);
    }
    if HomesClash(ds, n) {
      WordsToSlots(s, m, ds, n);
    }
  }

  lemma SlotsToWords(s: Slots, m: map<string, int>, ds: seq<string>, n: nat)
    requires n > 0 && Represents(s, m) && Clash(s, n) && forall w :: w in m ==> w in ds
    ensures HomesClash(ds, n)
  {
    hide Home;
    var p: nat, q: nat :| p < q < |s| && s[p].Taken? && s[q].Taken? && Home(s[p].key, n) == Home(s[q].key, n);
    StoredValue(s, m, p);
    StoredValue(s, m, q);
    assert s[p].key != s[q].key;
    hide Represents, HomesClash;
    var a :| 0 <= a < |ds| && ds[a] == s[p].key;
    var b :| 0 <= b < |ds| && ds[b] == s[q].key;
    HomesClashAt(ds, n, a, b);
  }

  lemma WordsToSlots(s: Slots, m: map<string, int>, ds: seq<string>, n: nat)
    requires n > 0 && Represents(s, m) && HomesClash(ds, n) && forall w :: w in ds ==> w in m
    requires forall a, b :: 0 <= a < b < |ds| ==> ds[a] != ds[b]
    ensures Clash(s, n)
  {
    hide Home, Clash;
    var a: nat, b: nat :| a < b < |ds| && Home(ds[a], n) == Home(ds[b], n);
    assert ds[a] in m && ds[b] in m && ds[a] != ds[b];
    var p :| 0 <= p < |s| && Holds(s[p], ds[a]);
    var q :| 0 <= q < |s| && Holds(s[q], ds[b]);
    ClashAt(s, n, p, q);
  }

  lemma HomesClashAt(ds: seq<string>, n: nat, a: nat, b: nat)
    requires n > 0 && a < |ds| && b < |ds| && a != b && Home(ds[a], n) == Home(ds[b], n)
    ensures HomesClash(ds, n)
  {
    if a > b {
      assert Home(ds[b], n) == Home(ds[a], n);
    }
  }

  lemma ClashAt(s: Slots, n: nat, p: nat, q: nat)
    requires n > 0 && p < |s| && q < |s| && p != q && s[p].Taken? && s[q].Taken?
    requires Home(s[p].key, n) == Home(s[q].key, n)
    ensures Clash(s, n)
  {
    if p > q {
      assert Home(s[q].key, n) == Home(s[p].key, n);
    }
  }

  // --- One word ---

  /** The table holds exactly the words so far, with their counts, and has the capacity
      their number leads to. */
  ghost predicate Exact(p: Progress, ds: seq<string>, m: map<string, int>) {
    && p.Running? && !p.lost && Wellsized(p.table)
    && Reachable(p.table.slots) && Unwrapped(p.table.slots) && Represents(p.table.slots, m)
    && (forall w :: w in m <==> w in ds) && (forall a, b :: 0 <= a < b < |ds| ==> ds[a] != ds[b])
    && p.table.size == |ds| && |p.table.slots| == 10 * Pow2(Level(|ds|))
  }

  lemma ExactRuns(p: Progress, ds: seq<string>, m: map<string, int>)
    requires Exact(p, ds, m)
    ensures p.Running? && !p.lost && Wellsized(p.table)
    ensures p.table.size == |ds| && |p.table.slots| == 10 * Pow2(Level(|ds|))
    ensures forall w :: w in m <==> w in ds
  {
  }

  lemma KnownWord(p: Progress, ds: seq<string>, m: map<string, int>, w: string)
    requires Exact(p, ds, m) && w in ds
    ensures Exact(Count(p, w), ds, m[w := m[w] + 1])
  {
    hide Reachable, Represents;
    var s := p.table.slots;
    KnownWordFound(s, m, w);
    LookupDecides(s, m, w);
    var i := Get(s, w).i;
    StoredValue(s, m, i);
    UpdateKeeps(s, m, i, s[i].value + 1);
  }

  lemma KnownWordFound(s: Slots, m: map<string, int>, w: string)
    requires |s| > 0 && Unwrapped(s) && Represents(s, m) && w in m
    ensures !Get(s, w).OffEnd?
  {
    var p :| 0 <= p < |s| && Holds(s[p], w);
    LookupOffEnd(s, w);
  }

  lemma LevelStep(n: nat)
    ensures Level(n + 1) == if n + 1 > 7 * Pow2(Level(n)) then Level(n) + 1 else Level(n)
  {
  }

  /** A word that is not found is stored. */
  lemma CountMissing(p: Progress, w: string)
    requires p.Running? && Wellsized(p.table) && Get(p.table.slots, w).Missing?
    ensures Wellsized(Added(p.table, w, 1))
    ensures Count(p, w) == Running(Added(p.table, w, 1), p.lost || AddLoses(p.table, w, 1))
  {
    AddedWellsized(p.table, w, 1);
  }

  /** A new word that fits, up to the rehash. */
  lemma NewWordStored(p: Progress, ds: seq<string>, m: map<string, int>, w: string) returns (t: Slots)
    requires Exact(p, ds, m) && w !in ds && !Get(p.table.slots, w).OffEnd?
    ensures HasFree(p.table.slots) && t == Inserted(p.table.slots, w, 1)
    ensures Get(p.table.slots, w).Missing? && Unwrapped(t) && Fits(ds + [w], |t|)
    ensures Reachable(t) && Represents(t, m[w := 1])
    ensures Clash(t, 2 * |t|) <==> HomesClash(ds + [w], 2 * |t|)
  {
    hide Reachable, Represents, Unwrapped, Fits, Clash, HomesClash, Inserted;
    var s := p.table.slots;
    LookupDecides(s, m, w);
    WellsizedHasFree(p.table);
    InsertedKeeps(s, m, w, 1);
    InsertedUnwrapped(s, w, 1);
    t := Inserted(s, w, 1);
    var ws, m' := ds + [w], m[w := 1];
    StoredFits(t, m', ws);
    ClashMeaning(t, m', ws, 2 * |t|);
  }

  lemma AddedValue(t: Table, w: string)
    requires Wellsized(t)
    ensures HasFree(t.slots)
    ensures var s := Inserted(t.slots, w, 1);
            && Added(t, w, 1) == Table(if 10 * (t.size + 1) > 7 * |s| then Rehashed(s) else s, t.size + 1)
            && (AddLoses(t, w, 1) <==> 10 * (t.size + 1) > 7 * |s| && Clash(s, 2 * |s|))
  {
    WellsizedHasFree(t);
  }

  lemma ExactNext(p: Progress, ds: seq<string>, m: map<string, int>, w: string, p': Progress)
    requires Exact(p, ds, m) && w !in ds
    requires p'.Running? && !p'.lost && Wellsized(p'.table)
    requires Reachable(p'.table.slots) && Unwrapped(p'.table.slots) && Represents(p'.table.slots, m[w := 1])
    requires p'.table.size == |ds| + 1 && |p'.table.slots| == 10 * Pow2(Level(|ds| + 1))
    ensures Exact(p', ds + [w], m[w := 1])
  {
    hide Reachable, Represents, Unwrapped, Wellsized, Pow2, Level;
  }

  lemma NewWordExact(p: Progress, ds: seq<string>, m: map<string, int>, w: string, t: Slots)
    requires Exact(p, ds, m) && w !in ds && Get(p.table.slots, w).Missing?
    requires HasFree(p.table.slots) && t == Inserted(p.table.slots, w, 1) && Unwrapped(t)
    requires Reachable(t) && Represents(t, m[w := 1]) && !AddLoses(p.table, w, 1)
    ensures Exact(Count(p, w), ds + [w], m[w := 1])
  {
    hide Exact, Reachable, Represents, Unwrapped, Clash, Rehashed, Inserted, Wellsized, Count, Added, AddLoses, Level, Pow2;
    ExactRuns(p, ds, m);
    LevelStep(|ds|);
    DoubleStep(Level(|ds|));
    CountMissing(p, w);
    AddedValue(p.table, w);
    if 10 * (|ds| + 1) > 7 * |t| {
      RehashedUnwrapped(t);
      RehashWithoutClash(t, m[w := 1]);
    }
    ExactNext(p, ds, m, w, Count(p, w));
  }

  lemma NewWordOffEnd(p: Progress, ds: seq<string>, m: map<string, int>, w: string)
    requires Exact(p, ds, m) && w !in ds && Get(p.table.slots, w).OffEnd?
    ensures !Fits(ds + [w], |p.table.slots|) && Count(p, w).Undefined?
  {
    OffEndOverflows(p.table.slots, m, ds, w);
  }

  /** A new word: the lookup runs off the end, or a rehash loses something, or all is well. */
  lemma NewWord(p: Progress, ds: seq<string>, m: map<string, int>, w: string)
    requires Exact(p, ds, m) && w !in ds
    ensures var k := Level(|ds|);
            if !Fits(ds + [w], 10 * Pow2(k)) then Count(p, w).Undefined?
            else if |ds| + 1 > 7 * Pow2(k) && HomesClash(ds + [w], 20 * Pow2(k))
            then Count(p, w).Running? && Count(p, w).lost
            else Exact(Count(p, w), ds + [w], m[w := 1])
  {
    ExactRuns(p, ds, m);
    hide *;
    if Get(p.table.slots, w).OffEnd? {
      NewWordOffEnd(p, ds, m, w);
    } else {
      var t := NewWordStored(p, ds, m, w);
      CountMissing(p, w);
      AddedValue(p.table, w);
      assert 2 * |t| == 20 * Pow2(Level(|ds|));
      if !AddLoses(p.table, w, 1) {
        NewWordExact(p, ds, m, w, t);
      }
    }
  }

  // --- What one more word does to the condition ---

  /** At most one word has a given home. */
  lemma OneWordPerHome(ds: seq<string>, n: nat, i: nat, v: string, w: string)
    requires n > 0 && !HomesClash(ds, n) && v in ds && w in ds && Home(v, n) == Home(w, n) == i
    ensures v == w
  {
    hide HomesClash, Home;
    var a :| 0 <= a < |ds| && ds[a] == v;
    var b :| 0 <= b < |ds| && ds[b] == w;
    if a != b {
      HomesClashAt(ds, n, a, b);
    }
  }

  lemma {:induction false} DistinctHomesFit(ds: seq<string>, n: nat, i: nat)
    requires n > 0 && i <= n && !HomesClash(ds, n)
    ensures |KeysFrom(ds, n, i)| <= n - i
    decreases n - i
  {
    hide HomesClash, Home;
    if i == n {
      assert KeysFrom(ds, n, i) == {};
    } else {
      DistinctHomesFit(ds, n, i + 1);
      var here := KeysFrom(ds, n, i) - KeysFrom(ds, n, i + 1);
      assert KeysFrom(ds, n, i) == KeysFrom(ds, n, i + 1) + here;
      if v :| v in here {
        forall w | w in here ensures w == v {
          OneWordPerHome(ds, n, i, v, w);
        }
        assert here == {v};
      }
    }
  }

  lemma FitsPrefix(ds: seq<string>, es: seq<string>, n: nat)
    requires n > 0 && ds <= es && Fits(es, n)
    ensures Fits(ds, n)
  {
    forall i: nat | i <= n ensures |KeysFrom(ds, n, i)| <= n - i {
      assert forall w :: w in ds ==> w in es;
      SubsetSize(KeysFrom(ds, n, i), KeysFrom(es, n, i));
    }
  }

  lemma GrowthStays(ds: seq<string>, w: string, j: nat)
    requires GrowthClashes(ds, j)
    ensures GrowthClashes(ds + [w], j)
  {
    assert (ds + [w])[..7 * Pow2(j) + 1] == ds[..7 * Pow2(j) + 1];
  }

  lemma GrowthSettled(ds: seq<string>, w: string, j: nat)
    requires |ds| != 7 * Pow2(j)
    ensures GrowthClashes(ds + [w], j) <==> GrowthClashes(ds, j)
  {
    hide HomesClash, Pow2;
    if |ds| > 7 * Pow2(j) {
      assert (ds + [w])[..7 * Pow2(j) + 1] == ds[..7 * Pow2(j) + 1];
    }
  }

  lemma GrowthNow(ds: seq<string>, w: string, j: nat)
    requires |ds| == 7 * Pow2(j)
    ensures !GrowthClashes(ds, j) && (GrowthClashes(ds + [w], j) <==> HomesClash(ds + [w], 20 * Pow2(j)))
  {
    hide HomesClash, Pow2;
    assert (ds + [w])[..7 * Pow2(j) + 1] == ds + [w];
  }

  /** A new clash can only be in the table the words have reached. */
  lemma NewGrowth(ds: seq<string>, w: string, j: nat)
    requires !GrowthClashes(ds, j)
    ensures GrowthClashes(ds + [w], j)
       <==> j == Level(|ds|) && |ds| + 1 > 7 * Pow2(j) && HomesClash(ds + [w], 20 * Pow2(j))
  {
    hide HomesClash, GrowthClashes, Pow2, Level;
    if |ds| == 7 * Pow2(j) {
      GrowthNow(ds, w, j);
      LevelOfFull(|ds|, j);
    } else {
      GrowthSettled(ds, w, j);
    }
  }

  lemma LevelOfFull(n: nat, j: nat)
    requires n == 7 * Pow2(j)
    ensures Level(n) == j
  {
    hide Pow2, Level;
    var k := Level(n);
    if k < j {
      Pow2Grows(k, j - 1);
      DoubleStep(j - 1);
    } else if k > j {
      Pow2Grows(j, k - 1);
    }
  }

  lemma DoubleStep(k: nat)
    ensures Pow2(k + 1) == 2 * Pow2(k)
  {
  }

  lemma HarmlessBefore(ds: seq<string>, w: string)
    requires Harmless(ds + [w])
    ensures Harmless(ds)
  {
    hide Fits, GrowthClashes;
    forall j: nat | Reached(ds, j) ensures Fits(InTable(ds, j), 10 * Pow2(j)) && !GrowthClashes(ds, j) {
      assert Reached(ds + [w], j);
      FitsPrefix(InTable(ds, j), InTable(ds + [w], j), 10 * Pow2(j));
      if GrowthClashes(ds, j) {
        GrowthStays(ds, w, j);
      }
    }
  }

  /** One more distinct word keeps the condition exactly when it fits into the table the
      words have reached and no rehash it causes meets equal homes. */
  lemma HarmlessStep(ds: seq<string>, w: string)
    requires Harmless(ds)
    ensures var k := Level(|ds|);
            (Harmless(ds + [w]) <==>
               Fits(ds + [w], 10 * Pow2(k)) && !(|ds| + 1 > 7 * Pow2(k) && HomesClash(ds + [w], 20 * Pow2(k))))
  {
    hide Fits, HomesClash, GrowthClashes, Harmless;
    var k := Level(|ds|);
    if Harmless(ds + [w]) {
      HarmlessAt(ds + [w], k);
      HarmlessAt(ds, k);
      NewGrowth(ds, w, k);
    }
    if Fits(ds + [w], 10 * Pow2(k)) && !(|ds| + 1 > 7 * Pow2(k) && HomesClash(ds + [w], 20 * Pow2(k))) {
      forall j: nat | Reached(ds + [w], j)
        ensures Fits(InTable(ds + [w], j), 10 * Pow2(j)) && !GrowthClashes(ds + [w], j)
      {
        HarmlessTable(ds, w, j);
      }
      HarmlessBy(ds + [w]);
    }
  }

  lemma HarmlessAt(ds: seq<string>, j: nat)
    requires Harmless(ds) && Reached(ds, j)
    ensures Fits(InTable(ds, j), 10 * Pow2(j)) && !GrowthClashes(ds, j)
  {
  }

  lemma HarmlessBy(ds: seq<string>)
    requires forall j: nat :: Reached(ds, j) ==> Fits(InTable(ds, j), 10 * Pow2(j)) && !GrowthClashes(ds, j)
    ensures Harmless(ds)
  {
  }

  lemma HarmlessTable(ds: seq<string>, w: string, j: nat)
    requires Harmless(ds) && Reached(ds + [w], j) && Fits(ds + [w], 10 * Pow2(Level(|ds|)))
    requires !(|ds| + 1 > 7 * Pow2(Level(|ds|)) && HomesClash(ds + [w], 20 * Pow2(Level(|ds|))))
    ensures Fits(InTable(ds + [w], j), 10 * Pow2(j)) && !GrowthClashes(ds + [w], j)
  {
    hide Fits, HomesClash, GrowthClashes, Harmless, Pow2, Level;
    var k := Level(|ds|);
    if j < k {
      Pow2Grows(j, k - 1);
      assert Reached(ds, j) by {
        if j > 0 {
          Pow2Grows(j - 1, j);
        }
      }
      HarmlessAt(ds, j);
      assert InTable(ds + [w], j) == InTable(ds, j);
      NewGrowth(ds, w, j);
    } else if j == k {
      HarmlessAt(ds, j);
      NewGrowth(ds, w, j);
    } else {
      Pow2Grows(k, j - 1);
      NextTableFits(ds, w, j);
    }
  }

  lemma NotOutgrown(ds: seq<string>, j: nat)
    requires |ds| <= 7 * Pow2(j)
    ensures InTable(ds, j) == ds && !GrowthClashes(ds, j)
  {
    hide HomesClash, Pow2;
  }

  lemma ReachedBy(ds: seq<string>, w: string, j: nat)
    requires j > 0 && Reached(ds + [w], j)
    ensures |ds| + 1 > 7 * Pow2(j - 1)
  {
    hide Pow2;
  }

  /** The next number of words needs a larger table only if this one is full, and then
      the table of twice the size. */
  lemma NextLevel(n: nat, j: nat)
    requires j > Level(n) && n + 1 > 7 * Pow2(j - 1)
    ensures n == 7 * Pow2(Level(n)) && Pow2(j) == 2 * Pow2(Level(n))
  {
    hide Level, Pow2;
    Pow2Grows(Level(n), j - 1);
    DoubleStep(j - 1);
  }

  /** The word that causes a rehash without equal homes fits into the next table. */
  lemma NextTableFits(ds: seq<string>, w: string, j: nat)
    requires j > Level(|ds|) && Reached(ds + [w], j)
    requires !(|ds| + 1 > 7 * Pow2(Level(|ds|)) && HomesClash(ds + [w], 20 * Pow2(Level(|ds|))))
    ensures Fits(InTable(ds + [w], j), 10 * Pow2(j)) && !GrowthClashes(ds + [w], j)
  {
    hide *;
    ReachedBy(ds, w, j);
    NextLevel(|ds|, j);
    NotOutgrown(ds + [w], j);
    WithoutClashFits(ds + [w], 10 * Pow2(j));
  }

  lemma WithoutClashFits(ds: seq<string>, n: nat)
    requires n > 0 && !HomesClash(ds, n)
    ensures Fits(ds, n)
  {
    hide HomesClash, KeysFrom;
    forall i: nat | i <= n ensures |KeysFrom(ds, n, i)| <= n - i {
      DistinctHomesFit(ds, n, i);
    }
  }

  // --- Whole runs ---

  function WithWord(ds: seq<string>, w: string): seq<string> {
    if w in ds then ds else ds + [w]
  }

  function Counted(m: map<string, int>, w: string): map<string, int> {
    m[w := (if w in m then m[w] else 0) + 1]
  }

  /** One more word read: the run, the distinct words and the frequencies. */
  lemma OneMoreWord(words: seq<string>)
    requires words != []
    ensures var before, w := words[..|words| - 1], words[|words| - 1];
            && CountAll(words) == Count(CountAll(before), w)
            && Distinct(words) == WithWord(Distinct(before), w)
            && Frequencies(words) == Counted(Frequencies(before), w)
  {
    hide Count;
  }

  lemma NothingHarmless()
    ensures Harmless([])
  {
    forall j: nat | Reached([], j) ensures Fits(InTable([], j), 10 * Pow2(j)) && !GrowthClashes([], j) {
      forall i: nat | i <= 10 * Pow2(j) ensures |KeysFrom([], 10 * Pow2(j), i)| <= 10 * Pow2(j) - i {
        assert KeysFrom([], 10 * Pow2(j), i) == {};
      }
    }
  }

  lemma NothingRead()
    ensures Exact(CountAll([]), [], map[]) && Harmless([])
  {
    NothingHarmless();
    NothingStored();
    StartWellsized();
    assert Pow2(0) == 1;
  }

  /** The run so far is right if and only if the words so far are harmless. */
  ghost predicate RightSoFar(p: Progress, ds: seq<string>, m: map<string, int>) {
    && (p.Running? ==> Wellsized(p.table))
    && (p.Running? && !p.lost <==> Harmless(ds))
    && (Harmless(ds) ==> Exact(p, ds, m))
  }

  lemma ExactMeans(p: Progress, ds: seq<string>, m: map<string, int>)
    requires Exact(p, ds, m) && Harmless(ds)
    ensures RightSoFar(p, ds, m)
  {
    hide Harmless;
  }

  lemma RightKnown(p: Progress, ds: seq<string>, m: map<string, int>, w: string)
    requires Exact(p, ds, m) && Harmless(ds) && w in ds && w in m && p.Running? && Wellsized(p.table)
    ensures RightSoFar(Count(p, w), ds, m[w := m[w] + 1])
  {
    hide Exact, Harmless, Count, RightSoFar;
    KnownWord(p, ds, m, w);
    ExactMeans(Count(p, w), ds, m[w := m[w] + 1]);
  }

  lemma RightNew(p: Progress, ds: seq<string>, m: map<string, int>, w: string)
    requires Exact(p, ds, m) && Harmless(ds) && w !in ds && p.Running? && Wellsized(p.table)
    ensures RightSoFar(Count(p, w), ds + [w], m[w := 1])
  {
    hide Exact, Harmless, Count, HomesClash, Fits, Wellsized, Pow2, Level;
    NewWord(p, ds, m, w);
    HarmlessStep(ds, w);
    if Harmless(ds + [w]) {
      ExactMeans(Count(p, w), ds + [w], m[w := 1]);
    }
  }

  lemma RightStep(p: Progress, ds: seq<string>, m: map<string, int>, w: string)
    requires RightSoFar(p, ds, m) && Harmless(ds)
    ensures RightSoFar(Count(p, w), WithWord(ds, w), Counted(m, w))
  {
    hide Exact, Harmless, Count, Wellsized, Pow2, Level;
    ExactRuns(p, ds, m);
    hide RightSoFar;
    if w in ds {
      RightKnown(p, ds, m, w);
    } else {
      RightNew(p, ds, m, w);
    }
  }

  lemma WrongStays(p: Progress, ds: seq<string>, m: map<string, int>, w: string)
    requires RightSoFar(p, ds, m) && !Harmless(ds)
    ensures RightSoFar(Count(p, w), WithWord(ds, w), Counted(m, w))
  {
    hide Exact, Harmless, Wellsized, Count;
    if w !in ds && Harmless(ds + [w]) {
      HarmlessBefore(ds, w);
    }
    if Count(p, w).Running? {
      LossStays(p, w);
    }
  }

  lemma {:induction false} RunIsRight(words: seq<string>)
    ensures RightSoFar(CountAll(words), Distinct(words), Frequencies(words))
  {
    hide RightSoFar, Count, Harmless;
    if words == [] {
      NothingRead();
      ExactMeans(CountAll([]), [], map[]);
    } else {
      var before, w := words[..|words| - 1], words[|words| - 1];
      RunIsRight(before);
      OneMoreWord(words);
      if Harmless(Distinct(before)) {
        RightStep(CountAll(before), Distinct(before), Frequencies(before), w);
      } else {
        WrongStays(CountAll(before), Distinct(before), Frequencies(before), w);
      }
    }
  }

  /** A run stays inside the array and loses nothing if and only if the words are
      harmless, and then it holds the exact counts. */
  lemma RunIsExact(words: seq<string>)
    ensures CountAll(words).Running? && !CountAll(words).lost <==> Harmless(Distinct(words))
    ensures Harmless(Distinct(words)) ==> Exact(CountAll(words), Distinct(words), Frequencies(words))
  {
    hide Harmless, Exact;
    RunIsRight(words);
  }

  /** Two of the words in some table that is outgrown have the same home in the next. */
  ghost predicate SomeGrowthClashes(ds: seq<string>) {
    exists j: nat :: GrowthClashes(ds, j)
  }

  lemma SomeGrowthStays(ds: seq<string>, w: string)
    requires SomeGrowthClashes(ds)
    ensures SomeGrowthClashes(WithWord(ds, w))
  {
    hide GrowthClashes;
    if w !in ds {
      var j: nat :| GrowthClashes(ds, j);
      GrowthStays(ds, w, j);
    }
  }

  lemma LostByNewWord(ds: seq<string>, w: string)
    requires !SomeGrowthClashes(ds)
    ensures var k := Level(|ds|);
            (SomeGrowthClashes(ds + [w]) <==>
               |ds| + 1 > 7 * Pow2(k) && HomesClash(ds + [w], 20 * Pow2(k)))
  {
    hide GrowthClashes, HomesClash, Level, Pow2;
    forall j: nat
      ensures GrowthClashes(ds + [w], j)
         <==> j == Level(|ds|) && |ds| + 1 > 7 * Pow2(j) && HomesClash(ds + [w], 20 * Pow2(j))
    {
      NewGrowth(ds, w, j);
    }
  }

  lemma LostStep(p: Progress, ds: seq<string>, m: map<string, int>, w: string)
    requires RightSoFar(p, ds, m) && p.Running? && Wellsized(p.table) && Count(p, w).Running?
    requires p.lost <==> SomeGrowthClashes(ds)
    ensures Count(p, w).lost <==> SomeGrowthClashes(WithWord(ds, w))
  {
    hide Exact, Harmless, Count, HomesClash, Fits, Wellsized, Pow2, Level, SomeGrowthClashes;
    LossStays(p, w);
    if p.lost {
      SomeGrowthStays(ds, w);
    } else if w in ds {
      ExactRuns(p, ds, m);
      KnownWord(p, ds, m, w);
      ExactRuns(Count(p, w), ds, m[w := m[w] + 1]);
    } else {
      NewWord(p, ds, m, w);
      LostByNewWord(ds, w);
      if !SomeGrowthClashes(ds + [w]) {
        ExactRuns(Count(p, w), ds + [w], m[w := 1]);
      }
    }
  }

  lemma NoGrowth(ds: seq<string>)
    requires ds == []
    ensures !SomeGrowthClashes(ds)
  {
  }

  /** Over every run that stays inside the array something is lost if and only if two of
      the distinct words in some table that is outgrown have the same home in the next. */
  lemma {:induction false} LostExactly(words: seq<string>)
    requires CountAll(words).Running?
    ensures CountAll(words).lost <==> SomeGrowthClashes(Distinct(words))
  {
    hide Count, SomeGrowthClashes, RightSoFar, Wellsized;
    if words == [] {
      NoGrowth([]);
    } else {
      var before, w := words[..|words| - 1], words[|words| - 1];
      OneMoreWord(words);
      LossStays(CountAll(before), w);
      LostExactly(before);
      RunIsRight(before);
      LostStep(CountAll(before), Distinct(before), Frequencies(before), w);
    }
  }

  /** Exactly when the counts come out right, over every word sequence on which no lookup
      reads past the end: the final table stores every distinct word once with its number
      of occurrences if and only if no table is outgrown by words of which two have the
      same home in the next one. */
  lemma CountsExactIff(words: seq<string>)
    requires CountAll(words).Running?
    ensures Represents(CountAll(words).table.slots, Frequencies(words))
       <==> !SomeGrowthClashes(Distinct(words))
  {
    LostExactly(words);
    RepresentsUnlessLost(words);
  }

  /** With hashes that do not overflow: no lookup reads past the end and the final table
      stores the frequencies of the words if and only if in every table they come to the
      distinct words fit without going around the end and have different homes in the
      next one. */
  lemma RightWithoutOverflow(words: seq<string>)
    ensures CountAll(words).Running? && Represents(CountAll(words).table.slots, Frequencies(words))
       <==> Harmless(Distinct(words))
  {
    hide Harmless, Exact;
    RunIsExact(words);
    if CountAll(words).Running? {
      RepresentsUnlessLost(words);
    }
  }

  /** Exactly on which inputs the program as written is right, for all inputs: no hash
      overflows, no lookup reads past the end and the final table stores the frequencies
      of the words if and only if no word has more than ten characters and the distinct
      words are harmless. */
  lemma ProgramRightIff(words: seq<string>)
    requires forall w :: w in words ==> Bytes(w)
    ensures InRange(words) && CountAll(words).Running?
            && Represents(CountAll(words).table.slots, Frequencies(words))
       <==> (forall w :: w in words ==> |w| <= 10) && Harmless(Distinct(words))
  {
    hide Harmless, InRange, Represents;
    RightWithoutOverflow(words);
    WordsInRange(words);
  }

  lemma OneWordHarmless(w: string)
    ensures Harmless(Distinct([w]))
  {
    hide Harmless, Home, Fits;
    assert [w][..0] == [] && Distinct([w]) == [] + [w];
    NothingHarmless();
    WithoutClashFits([w], 10);
    assert Level(0) == 0 && [] + [w] == [w];
    HarmlessStep([], w);
  }

  lemma OutOfRange(words: seq<string>, w: string)
    requires w in words && !HashFits(w)
    ensures !InRange(words)
  {
    hide HashFits;
  }

  /** A single word of thirteen characters is harmless, and yet its hash overflows. */
  lemma LongWordOverflows()
    ensures Harmless(Distinct(["understanding"])) && !InRange(["understanding"])
  {
    hide *;
    LongWordWraps();
    OneWordHarmless("understanding");
    OutOfRange(["understanding"], "understanding");
  }
}
