/** The table as it is written in HW03-Hash/src/hash.c: `get_element` does not wrap
    around and `rehash` lets elements with the same new home overwrite each other. */
module HashAsWritten {
  import opened Basics
  import opened HashSlots

  /** The new slots after the first i old ones have been copied. */
  function Overwritten(s: Slots, n: nat, i: nat): (t: Slots)
    requires i <= |s| && n > 0
    ensures |t| == n
  {
    if i == 0 then Frees(n)
    else
      var t := Overwritten(s, n, i - 1);
      if s[i - 1].Taken? then t[Home(s[i - 1].key, n) := s[i - 1]] else t
  }

  function Rehashed(s: Slots): (t: Slots)
    requires |s| > 0
    ensures |t| == 2 * |s|
  {
    Overwritten(s, 2 * |s|, |s|)
  }

  /** Slot p is taken and its key has new home j. */
  predicate GoesTo(s: Slots, n: nat, p: nat, j: nat)
    requires n > 0
  {
    p < |s| && s[p].Taken? && Home(s[p].key, n) == j
  }

  /** Two elements have the same home in a table of n slots. */
  ghost predicate Clash(s: Slots, n: nat)
    requires n > 0
  {
    exists p: nat, q: nat :: p < q < |s| && s[p].Taken? && s[q].Taken? && Home(s[p].key, n) == Home(s[q].key, n)
  }

  /** A new slot holds the last old element whose new home it is, and no other: one
      element survives per residue class. */
  lemma {:induction false} OverwrittenSlot(s: Slots, n: nat, i: nat, j: nat)
    requires i <= |s| && n > 0 && j < n
    ensures Overwritten(s, n, i)[j].Taken? <==> exists p: nat :: p < i && GoesTo(s, n, p, j)
    ensures forall p: nat :: p < i && GoesTo(s, n, p, j) && (forall q: nat :: p < q < i ==> !GoesTo(s, n, q, j))
              ==> Overwritten(s, n, i)[j] == s[p]
  {
    if i > 0 {
      OverwrittenSlot(s, n, i - 1, j);
      if GoesTo(s, n, i - 1, j) {
        assert Overwritten(s, n, i)[j] == s[i - 1];
      }
    }
  }

  lemma {:induction false} OverwrittenSource(s: Slots, n: nat, i: nat, j: nat) returns (p: nat)
    requires i <= |s| && n > 0 && j < n && Overwritten(s, n, i)[j].Taken?
    ensures p < i && GoesTo(s, n, p, j) && Overwritten(s, n, i)[j] == s[p]
  {
    if GoesTo(s, n, i - 1, j) {
      p := i - 1;
    } else {
      p := OverwrittenSource(s, n, i - 1, j);
    }
  }

  /** Rehashing adds no element. */
  lemma {:induction false} OverwrittenOccupied(s: Slots, n: nat, i: nat)
    requires i <= |s| && n > 0
    ensures Occupied(Overwritten(s, n, i)) <= Occupied(s[..i])
  {
    if i == 0 {
      FreesOccupied(n);
    } else {
      OverwrittenOccupied(s, n, i - 1);
      var t := Overwritten(s, n, i - 1);
      OccupiedSnoc(s, i - 1);
      if s[i - 1].Taken? {
        OccupiedUpdate(t, Home(s[i - 1].key, n), s[i - 1]);
      }
    }
  }

  lemma {:induction false} OccupiedConcat(a: Slots, b: Slots)
    ensures Occupied(a + b) == Occupied(a) + Occupied(b)
  {
    if a == [] {
      assert a + b == b;
    } else {
      assert (a + b)[1..] == a[1..] + b;
      OccupiedConcat(a[1..], b);
    }
  }

  lemma OccupiedSnoc(s: Slots, i: nat)
    requires i < |s|
    ensures Occupied(s[..i + 1]) == Occupied(s[..i]) + (if s[i].Taken? then 1 else 0)
  {
    assert s[..i + 1] == s[..i] + [s[i]];
    OccupiedConcat(s[..i], [s[i]]);
  }

  lemma RehashedAtHome(s: Slots, i: nat)
    requires |s| > 0 && i < 2 * |s| && Rehashed(s)[i].Taken?
    ensures Home(Rehashed(s)[i].key, 2 * |s|) == i
  {
    var p := OverwrittenSource(s, 2 * |s|, |s|, i);
  }

  lemma RehashedHasOld(s: Slots, i: nat)
    requires |s| > 0 && i < 2 * |s| && Rehashed(s)[i].Taken?
    ensures exists p :: 0 <= p < |s| && s[p] == Rehashed(s)[i]
  {
    var p := OverwrittenSource(s, 2 * |s|, |s|, i);
  }

  /** An element without a clash is found in its new home. */
  lemma RehashedHasNew(s: Slots, p: nat)
    requires |s| > 0 && p < |s| && s[p].Taken? && !Clash(s, 2 * |s|)
    ensures Rehashed(s)[Home(s[p].key, 2 * |s|)] == s[p]
  {
    hide Home;
    var n := 2 * |s|;
    var j := Home(s[p].key, n);
    OverwrittenSlot(s, n, |s|, j);
    assert GoesTo(s, n, p, j);
    forall q: nat | p < q < |s| ensures !GoesTo(s, n, q, j) {}
  }

  /** Without a clash nothing is lost and every element sits in its home. */
  lemma RehashWithoutClash(s: Slots, m: map<string, int>)
    requires |s| > 0 && Represents(s, m) && !Clash(s, 2 * |s|)
    ensures Represents(Rehashed(s), m) && Reachable(Rehashed(s))
  {
    hide Home, Rehashed, Clash;
    var n, t := 2 * |s|, Rehashed(s);
    forall i | 0 <= i < n && t[i].Taken?
      ensures Home(t[i].key, n) == i && t[i].key in m && m[t[i].key] == t[i].value
    {
      RehashedAtHome(s, i);
      RehashedHasOld(s, i);
    }
    forall i | 0 <= i < n && t[i].Taken? ensures ReachableAt(t, i) {}
    forall k | k in m ensures exists i :: 0 <= i < n && Holds(t[i], k) {
      var p :| 0 <= p < |s| && Holds(s[p], k);
      RehashedHasNew(s, p);
      assert Holds(t[Home(k, n)], k);
    }
  }

  // --- What is held under a key ---

  function Held(s: Slots, key: string): int {
    if s == [] then 0 else (if Holds(s[0], key) then s[0].value else 0) + Held(s[1..], key)
  }

  function HeldIn(slot: Slot, key: string): int {
    if Holds(slot, key) then slot.value else 0
  }

  lemma {:induction false} HeldUpdate(s: Slots, i: nat, slot: Slot, key: string)
    requires i < |s|
    ensures Held(s[i := slot], key) == Held(s, key) - HeldIn(s[i], key) + HeldIn(slot, key)
  {
    if i == 0 {
      assert s[i := slot][1..] == s[1..];
    } else {
      assert s[i := slot][1..] == s[1..][i - 1 := slot];
      HeldUpdate(s[1..], i - 1, slot, key);
    }
  }

  lemma {:induction false} HeldFrees(n: nat, key: string)
    ensures Held(Frees(n), key) == 0
  {
    if n > 0 {
      assert Frees(n)[1..] == Frees(n - 1);
      HeldFrees(n - 1, key);
    }
  }

  lemma {:induction false} HeldConcat(a: Slots, b: Slots, key: string)
    ensures Held(a + b, key) == Held(a, key) + Held(b, key)
  {
    if a == [] {
      assert a + b == b;
    } else {
      assert (a + b)[1..] == a[1..] + b;
      HeldConcat(a[1..], b, key);
    }
  }

  lemma HeldSnoc(s: Slots, i: nat, key: string)
    requires i < |s|
    ensures Held(s[..i + 1], key) == Held(s[..i], key) + HeldIn(s[i], key)
  {
    assert s[..i + 1] == s[..i] + [s[i]];
    HeldConcat(s[..i], [s[i]], key);
  }

  ghost predicate Positive(s: Slots) {
    forall i :: 0 <= i < |s| && s[i].Taken? ==> s[i].value >= 1
  }

  lemma ValueAtLeastOne(s: Slots, i: nat)
    requires i < |s| && Positive(s) && s[i].Taken?
    ensures s[i].value >= 1
  {
  }

  /** Rehashing never increases what is held under a key ... */
  lemma {:induction false} OverwrittenHeld(s: Slots, n: nat, i: nat, key: string)
    requires i <= |s| && n > 0 && Positive(s)
    ensures Positive(Overwritten(s, n, i))
    ensures Held(Overwritten(s, n, i), key) <= Held(s[..i], key)
  {
    if i == 0 {
      HeldFrees(n, key);
    } else {
      OverwrittenHeld(s, n, i - 1, key);
      HeldSnoc(s, i - 1, key);
      if s[i - 1].Taken? {
        HeldUpdate(Overwritten(s, n, i - 1), Home(s[i - 1].key, n), s[i - 1], key);
      }
    }
  }

  /** ... and a clash loses some of it for good. */
  lemma {:induction false} OverwrittenLoses(s: Slots, n: nat, i: nat, p: nat, q: nat) returns (key: string)
    requires p < q < i <= |s| && n > 0 && Positive(s)
    requires s[p].Taken? && s[q].Taken? && Home(s[p].key, n) == Home(s[q].key, n)
    ensures Held(Overwritten(s, n, i), key) < Held(s[..i], key)
  {
    hide Home, Held, Positive;
    var t := Overwritten(s, n, i - 1);
    if q < i - 1 {
      key := OverwrittenLoses(s, n, i - 1, p, q);
      HeldSnoc(s, i - 1, key);
      OverwrittenHeld(s, n, i - 1, key);
      if s[i - 1].Taken? {
        HeldUpdate(t, Home(s[i - 1].key, n), s[i - 1], key);
      }
    } else {
      var j := Home(s[q].key, n);
      assert GoesTo(s, n, p, j);
      OverwrittenSlot(s, n, i - 1, j);
      key := t[j].key;
      OverwrittenHeld(s, n, i - 1, key);
      ValueAtLeastOne(t, j);
      HeldSnoc(s, i - 1, key);
      HeldUpdate(t, j, s[q], key);
    }
  }

  lemma {:induction false} HeldAbsent(s: Slots, key: string)
    requires forall i :: 0 <= i < |s| ==> !Holds(s[i], key)
    ensures Held(s, key) == 0
  {
    if s != [] {
      HeldAbsent(s[1..], key);
    }
  }

  /** In a table that stores a map, what is held under a key is its value. */
  lemma RepresentsHeld(s: Slots, m: map<string, int>, key: string)
    requires Represents(s, m)
    ensures Held(s, key) == if key in m then m[key] else 0
  {
    if key in m {
      var i :| 0 <= i < |s| && Holds(s[i], key);
      var t := s[i := Free];
      HeldUpdate(s, i, Free, key);
      HeldAbsent(t, key);
    } else {
      HeldAbsent(s, key);
    }
  }

  // --- The word count of HW03-Hash/src/main.c ---

  /** `get_element`: the index of the key, nothing, or a read past the end. */
  datatype Lookup = Found(i: nat) | Missing | OffEnd

  function GetFrom(s: Slots, key: string, i: nat): (r: Lookup)
    ensures r.Found? ==> r.i < |s| && Holds(s[r.i], key)
    decreases |s| - i
  {
    if i >= |s| then OffEnd
    else if s[i].Free? then Missing
    else if s[i].key == key then Found(i)
    else GetFrom(s, key, i + 1)
  }

  function Get(s: Slots, key: string): (r: Lookup)
    requires |s| > 0
    ensures r.Found? ==> r.i < |s| && Holds(s[r.i], key)
  {
    GetFrom(s, key, Home(key, |s|))
  }

  lemma {:induction false} GetFromOffEnd(s: Slots, key: string, i: nat)
    ensures GetFrom(s, key, i).OffEnd? <==> forall k :: i <= k < |s| ==> s[k].Taken? && s[k].key != key
    decreases |s| - i
  {
    if i < |s| && s[i].Taken? && s[i].key != key {
      GetFromOffEnd(s, key, i + 1);
    }
  }

  /** A lookup reads past the end exactly when every slot from the key's home to the
      end of the table is taken by another key. */
  lemma LookupOffEnd(s: Slots, key: string)
    requires |s| > 0
    ensures Get(s, key).OffEnd? <==> forall i :: Home(key, |s|) <= i < |s| ==> s[i].Taken? && s[i].key != key
  {
    GetFromOffEnd(s, key, Home(key, |s|));
  }

  lemma {:induction false} GetFromStops(s: Slots, key: string, i: nat) returns (e: nat)
    requires !GetFrom(s, key, i).OffEnd?
    ensures i <= e < |s| && forall k :: i <= k < e ==> s[k].Taken? && s[k].key != key
    ensures s[e].Free? || s[e].key == key
    ensures GetFrom(s, key, i) == if s[e].Free? then Missing else Found(e)
    decreases |s| - i
  {
    if s[i].Taken? && s[i].key != key {
      e := GetFromStops(s, key, i + 1);
    } else {
      e := i;
    }
  }

  /** As long as it does not read past the end, a lookup decides membership. */
  lemma LookupDecides(s: Slots, m: map<string, int>, key: string)
    requires |s| > 0 && Reachable(s) && Represents(s, m) && !Get(s, key).OffEnd?
    ensures Get(s, key).Found? <==> key in m
  {
    var h := Home(key, |s|);
    var e := GetFromStops(s, key, h);
    assert After(|s|, h, e - h) == e;
    assert forall d :: 0 <= d < e - h ==> After(|s|, h, d) == h + d;
    ProbeDecides(s, m, key, e - h);
  }

  /** Slots and the `size` field. */
  datatype Table = Table(slots: Slots, size: nat)

  const START: Table := Table(Frees(10), 0)

  /** What holds between calls. For the capacities 10, 20, 40, ... the test of the
      load in doubles is the exact one. */
  ghost predicate Wellsized(t: Table) {
    && Doubled(10, |t.slots|)
    && Occupied(t.slots) <= t.size && !RehashRequired(t.size, |t.slots|)
  }

  lemma WellsizedHasFree(t: Table)
    requires Wellsized(t)
    ensures HasFree(t.slots)
  {
    OccupiedFree(t.slots);
  }

  /** `add_element`. */
  ghost function Added(t: Table, key: string, value: int): (t': Table)
    requires Wellsized(t)
  {
    WellsizedHasFree(t);
    var s := Inserted(t.slots, key, value);
    Table(if RehashRequired(t.size + 1, |s|) then Rehashed(s) else s, t.size + 1)
  }

  /** `rehash` may lose elements, but `size` never counts too few of them and the
      load stays at most 0.7: there is always a free slot for the next probe. */
  lemma AddedWellsized(t: Table, key: string, value: int)
    requires Wellsized(t)
    ensures Wellsized(Added(t, key, value))
  {
    WellsizedHasFree(t);
    var s := Inserted(t.slots, key, value);
    OccupiedUpdate(t.slots, FreeSlot(t.slots, key), Taken(key, value));
    DoubledAgain(10, |s|);
    OverwrittenOccupied(s, 2 * |s|, |s|);
    assert s[..|s|] == s;
  }

  /** Adding this key rehashes elements with equal new homes. */
  ghost predicate AddLoses(t: Table, key: string, value: int)
    requires Wellsized(t)
  {
    WellsizedHasFree(t);
    var s := Inserted(t.slots, key, value);
    RehashRequired(t.size + 1, |s|) && Clash(s, 2 * |s|)
  }

  /** With equal new homes two stored keys would have to share one slot. */
  lemma ClashLosesKey(s: Slots, m: map<string, int>)
    requires |s| > 0 && Represents(s, m) && Clash(s, 2 * |s|)
    ensures !Represents(Rehashed(s), m)
  {
    hide Home, Rehashed;
    var n, t := 2 * |s|, Rehashed(s);
    var p: nat, q: nat :| p < q < |s| && s[p].Taken? && s[q].Taken? && Home(s[p].key, n) == Home(s[q].key, n);
    StoredValue(s, m, p);
    StoredValue(s, m, q);
    assert s[p].key != s[q].key;
    if Represents(t, m) {
      var i :| 0 <= i < n && Holds(t[i], s[p].key);
      var j :| 0 <= j < n && Holds(t[j], s[q].key);
      RehashedAtHome(s, i);
      RehashedAtHome(s, j);
    }
  }

  /** One call of `add_element` with a new key: the table goes on storing the map if and
      only if the call does not rehash elements with equal new homes. */
  lemma AddedExactly(t: Table, m: map<string, int>, key: string, value: int)
    requires Wellsized(t) && Reachable(t.slots) && Represents(t.slots, m) && key !in m
    ensures Represents(Added(t, key, value).slots, m[key := value]) <==> !AddLoses(t, key, value)
  {
    hide Reachable, Represents, Clash, Rehashed, Inserted;
    WellsizedHasFree(t);
    InsertedKeeps(t.slots, m, key, value);
    var s, m' := Inserted(t.slots, key, value), m[key := value];
    if RehashRequired(t.size + 1, |s|) {
      if Clash(s, 2 * |s|) {
        ClashLosesKey(s, m');
      } else {
        RehashWithoutClash(s, m');
      }
    }
  }

  /** A run of the loop over the words read so far: the table, and whether a rehash
      has met a clash; or nothing, if a lookup has read past the end. */
  datatype Progress = Undefined | Running(table: Table, lost: bool)

  ghost function Count(p: Progress, word: string): (p': Progress)
    requires p.Running? ==> Wellsized(p.table)
    ensures p'.Running? ==> Wellsized(p'.table)
  {
    if p.Undefined? then Undefined
    else
      var t := p.table;
      match Get(t.slots, word)
      case OffEnd => Undefined
      case Found(i) =>
        OccupiedUpdate(t.slots, i, Taken(word, t.slots[i].value + 1));
        Running(Table(t.slots[i := Taken(word, t.slots[i].value + 1)], t.size), p.lost)
      case Missing =>
        AddedWellsized(t, word, 1);
        Running(Added(t, word, 1), p.lost || AddLoses(t, word, 1))
  }

  lemma StartWellsized()
    ensures Wellsized(START)
  {
    FreesOccupied(10);
  }

  ghost function CountAll(words: seq<string>): (p: Progress)
    ensures p.Running? ==> Wellsized(p.table)
  {
    if words == [] then
      StartWellsized();
      Running(START, false)
    else Count(CountAll(words[..|words| - 1]), words[|words| - 1])
  }

  /** How often each word occurs. */
  function Frequencies(words: seq<string>): map<string, int> {
    if words == [] then map[]
    else
      var m, w := Frequencies(words[..|words| - 1]), words[|words| - 1];
      m[w := (if w in m then m[w] else 0) + 1]
  }

  lemma {:induction false} FrequenciesCount(words: seq<string>, w: string)
    ensures w in Frequencies(words) <==> w in words
    ensures w in words ==> Frequencies(words)[w] == multiset(words)[w]
  {
    if words != [] {
      var before, last := words[..|words| - 1], words[|words| - 1];
      assert words == before + [last];
      FrequenciesCount(before, w);
    }
  }

  lemma LossStays(p: Progress, word: string)
    requires p.Running? ==> Wellsized(p.table)
    requires Count(p, word).Running?
    ensures p.Running? && (p.lost ==> Count(p, word).lost)
  {
  }

  /** As long as nothing is lost the table holds the exact counts. */
  lemma {:induction false} CountsExact(words: seq<string>)
    requires CountAll(words).Running? && !CountAll(words).lost
    ensures Reachable(CountAll(words).table.slots)
    ensures Represents(CountAll(words).table.slots, Frequencies(words))
  {
    hide Count, Reachable, Represents, Wellsized;
    if words == [] {
      NothingStored();
    } else {
      var before, word := words[..|words| - 1], words[|words| - 1];
      LossStays(CountAll(before), word);
      CountsExact(before);
      CountStep(CountAll(before), Frequencies(before), word);
    }
  }

  lemma NothingStored()
    ensures Reachable(START.slots) && Represents(START.slots, map[])
  {
  }

  lemma CountStep(p: Progress, m: map<string, int>, word: string)
    requires p.Running? && Wellsized(p.table) && Reachable(p.table.slots) && Represents(p.table.slots, m)
    requires Count(p, word).Running? && (Count(p, word).lost ==> p.lost)
    requires !p.lost
    ensures Reachable(Count(p, word).table.slots)
    ensures Represents(Count(p, word).table.slots, m[word := (if word in m then m[word] else 0) + 1])
  {
    hide Reachable, Represents, Clash, Get, Wellsized, Rehashed;
    var s := p.table.slots;
    LookupDecides(s, m, word);
    match Get(s, word)
    case Found(i) =>
      StoredValue(s, m, i);
      UpdateKeeps(s, m, i, s[i].value + 1);
    case Missing =>
      WellsizedHasFree(p.table);
      InsertedKeeps(s, m, word, 1);
      var t := Inserted(s, word, 1);
      if RehashRequired(p.table.size + 1, |t|) {
        RehashWithoutClash(t, m[word := 1]);
      }
  }

  function Frequency(words: seq<string>, key: string): int {
    var m := Frequencies(words);
    if key in m then m[key] else 0
  }

  lemma FrequencyStep(words: seq<string>, word: string, k: string)
    ensures Frequency(words + [word], k) == Frequency(words, k) + (if k == word then 1 else 0)
  {
    assert (words + [word])[..|words|] == words;
  }

  /** No word is ever counted too often ... */
  lemma {:induction false} HeldAtMost(words: seq<string>, k: string)
    requires CountAll(words).Running?
    ensures Positive(CountAll(words).table.slots)
    ensures Held(CountAll(words).table.slots, k) <= Frequency(words, k)
  {
    if words == [] {
      HeldFrees(10, k);
    } else {
      var before, word := words[..|words| - 1], words[|words| - 1];
      assert words == before + [word];
      HeldAtMost(before, k);
      CountHolds(CountAll(before), word, k);
      FrequencyStep(before, word, k);
    }
  }

  /** ... and once something is lost, some word stays counted too rarely. */
  lemma {:induction false} LossIsForever(words: seq<string>) returns (k: string)
    requires CountAll(words).Running? && CountAll(words).lost
    ensures Held(CountAll(words).table.slots, k) < Frequency(words, k)
  {
    var before, word := words[..|words| - 1], words[|words| - 1];
    assert words == before + [word];
    var p := CountAll(before);
    if p.lost {
      k := LossIsForever(before);
      HeldAtMost(before, k);
      CountHolds(p, word, k);
    } else {
      HeldAtMost(before, word);
      k := CountLoses(p, word);
      HeldAtMost(before, k);
    }
    FrequencyStep(before, word, k);
  }

  lemma CountHolds(p: Progress, word: string, k: string)
    requires p.Running? && Wellsized(p.table) && Positive(p.table.slots) && Count(p, word).Running?
    ensures Positive(Count(p, word).table.slots)
    ensures Held(Count(p, word).table.slots, k) <= Held(p.table.slots, k) + (if k == word then 1 else 0)
  {
    var s := p.table.slots;
    match Get(s, word)
    case Found(i) =>
      HeldUpdate(s, i, Taken(word, s[i].value + 1), k);
    case Missing =>
      WellsizedHasFree(p.table);
      HeldUpdate(s, FreeSlot(s, word), Taken(word, 1), k);
      var t := Inserted(s, word, 1);
      assert t[..|t|] == t;
      OverwrittenHeld(t, 2 * |t|, |t|, k);
  }

  lemma RehashLoses(t: Slots) returns (k: string)
    requires |t| > 0 && Positive(t) && Clash(t, 2 * |t|)
    ensures Held(Rehashed(t), k) < Held(t, k)
  {
    hide Held, Home, Positive;
    var a: nat, b: nat :| a < b < |t| && t[a].Taken? && t[b].Taken? && Home(t[a].key, 2 * |t|) == Home(t[b].key, 2 * |t|);
    k := OverwrittenLoses(t, 2 * |t|, |t|, a, b);
    assert t[..|t|] == t;
  }

  lemma CountLoses(p: Progress, word: string) returns (k: string)
    requires p.Running? && Wellsized(p.table) && Positive(p.table.slots) && Count(p, word).Running?
    requires !p.lost && Count(p, word).lost
    ensures Held(Count(p, word).table.slots, k) < Held(p.table.slots, k) + (if k == word then 1 else 0)
  {
    hide Held, Home, Rehashed, Clash, Wellsized, FreeSlot;
    var s := p.table.slots;
    WellsizedHasFree(p.table);
    var t := Inserted(s, word, 1);
    k := RehashLoses(t);
    HeldUpdate(s, FreeSlot(s, word), Taken(word, 1), k);
  }

  /** Over every word sequence on which no lookup reads past the end, the final table
      stores every distinct word once with its number of occurrences if and only if no
      rehash met two elements with the same new home: what is lost never comes back. */
  lemma RepresentsUnlessLost(words: seq<string>)
    requires CountAll(words).Running?
    ensures Represents(CountAll(words).table.slots, Frequencies(words)) <==> !CountAll(words).lost
  {
    if CountAll(words).lost {
      var k := LossIsForever(words);
      if Represents(CountAll(words).table.slots, Frequencies(words)) {
        RepresentsHeld(CountAll(words).table.slots, Frequencies(words), k);
      }
    } else {
      CountsExact(words);
    }
  }
}
