/** The table HW03-Hash/src/hash.c is meant to be: lookups go around the end of the
    table like insertions do, and a rehash probes for a free slot. This is a corrected
    version, not the code as written. */
module HashCorrected {
  import opened HashSlots
  import opened HashAsWritten

  /** The key-value pairs of the first i slots. */
  function Pairs(s: Slots, i: nat): map<string, int>
    requires i <= |s|
  {
    if i == 0 then map[]
    else if s[i - 1].Taken? then Pairs(s, i - 1)[s[i - 1].key := s[i - 1].value]
    else Pairs(s, i - 1)
  }

  lemma {:induction false} PairsKeys(s: Slots, i: nat, key: string)
    requires i <= |s|
    ensures key in Pairs(s, i) <==> exists p: nat :: p < i && Holds(s[p], key)
  {
    if i > 0 {
      PairsKeys(s, i - 1, key);
      if key in Pairs(s, i) && key !in Pairs(s, i - 1) {
        assert Holds(s[i - 1], key);
      }
    }
  }

  lemma {:induction false} PairsValues(s: Slots, m: map<string, int>, i: nat)
    requires Represents(s, m) && i <= |s|
    ensures forall k :: k in Pairs(s, i) ==> k in m && Pairs(s, i)[k] == m[k]
  {
    if i > 0 {
      PairsValues(s, m, i - 1);
    }
  }

  lemma AllPairs(s: Slots, m: map<string, int>)
    requires Represents(s, m)
    ensures Pairs(s, |s|) == m
  {
    PairsValues(s, m, |s|);
    forall k ensures k in Pairs(s, |s|) <==> k in m {
      PairsKeys(s, |s|, k);
      if k in m {
        var i :| 0 <= i < |s| && Holds(s[i], k);
      }
    }
  }

  /** The new slots after the first i old ones have been inserted by probing. */
  ghost function Reinserted(s: Slots, n: nat, i: nat): (t: Slots)
    requires i <= |s| < n
    ensures |t| == n && Occupied(t) == Occupied(s[..i]) <= i
  {
    if i == 0 then
      FreesOccupied(n);
      Frees(n)
    else
      var t := Reinserted(s, n, i - 1);
      OccupiedSnoc(s, i - 1);
      OccupiedFree(t);
      if s[i - 1].Taken? then
        OccupiedUpdate(t, FreeSlot(t, s[i - 1].key), s[i - 1]);
        Inserted(t, s[i - 1].key, s[i - 1].value)
      else t
  }

  lemma {:induction false} ReinsertedStores(s: Slots, m: map<string, int>, n: nat, i: nat)
    requires i <= |s| < n && Represents(s, m)
    ensures Reachable(Reinserted(s, n, i)) && Represents(Reinserted(s, n, i), Pairs(s, i))
  {
    if i > 0 {
      ReinsertedStores(s, m, n, i - 1);
      if s[i - 1].Taken? {
        var t := Reinserted(s, n, i - 1);
        OccupiedSnoc(s, i - 1);
        OccupiedFree(t);
        PairsKeys(s, i - 1, s[i - 1].key);
        InsertedKeeps(t, Pairs(s, i - 1), s[i - 1].key, s[i - 1].value);
      }
    }
  }

  ghost function Rehashed(s: Slots): (t: Slots)
    requires |s| > 0
  {
    Reinserted(s, 2 * |s|, |s|)
  }

  /** A rehash that probes keeps every element. */
  lemma RehashKeepsAll(s: Slots, m: map<string, int>)
    requires |s| > 0 && Represents(s, m)
    ensures Reachable(Rehashed(s)) && Represents(Rehashed(s), m)
    ensures Occupied(Rehashed(s)) == Occupied(s)
  {
    ReinsertedStores(s, m, 2 * |s|, |s|);
    AllPairs(s, m);
    assert s[..|s|] == s;
  }

  /** A lookup that goes around the end. */
  ghost function Get(s: Slots, key: string): (r: Lookup)
    requires |s| > 0 && HasFree(s)
    ensures r.Found? ==> r.i < |s| && Holds(s[r.i], key)
  {
    FreeStopsProbe(s, Home(key, |s|), key);
    var i := After(|s|, Home(key, |s|), Probe(s, Home(key, |s|), key, 0));
    if s[i].Free? then Missing else Found(i)
  }

  lemma GetDecides(s: Slots, m: map<string, int>, key: string)
    requires |s| > 0 && HasFree(s) && Reachable(s) && Represents(s, m)
    ensures Get(s, key).Found? <==> key in m
  {
    FreeStopsProbe(s, Home(key, |s|), key);
    ProbeDecides(s, m, key, Probe(s, Home(key, |s|), key, 0));
  }

  ghost function Added(t: Table, key: string, value: int): (t': Table)
    requires Wellsized(t)
  {
    WellsizedHasFree(t);
    var s := Inserted(t.slots, key, value);
    Table(if RehashRequired(t.size + 1, |s|) then Rehashed(s) else s, t.size + 1)
  }

  lemma AddedWellsized(t: Table, key: string, value: int)
    requires Wellsized(t)
    ensures Wellsized(Added(t, key, value))
  {
    WellsizedHasFree(t);
    var s := Inserted(t.slots, key, value);
    OccupiedUpdate(t.slots, FreeSlot(t.slots, key), Taken(key, value));
    assert (2 * |s|) / 2 == |s|;
    assert s[..|s|] == s;
  }

  /** One turn of the word count. */
  ghost function Count(t: Table, word: string): (t': Table)
    requires Wellsized(t)
    ensures Wellsized(t')
  {
    WellsizedHasFree(t);
    var r := Get(t.slots, word);
    if r.Found? then
      OccupiedUpdate(t.slots, r.i, Taken(word, t.slots[r.i].value + 1));
      Table(t.slots[r.i := Taken(word, t.slots[r.i].value + 1)], t.size)
    else
      AddedWellsized(t, word, 1);
      Added(t, word, 1)
  }

  ghost function CountAll(words: seq<string>): (t: Table)
    ensures Wellsized(t)
  {
    if words == [] then
      FreesOccupied(10);
      START
    else Count(CountAll(words[..|words| - 1]), words[|words| - 1])
  }

  lemma CountStores(t: Table, m: map<string, int>, word: string)
    requires Wellsized(t) && Reachable(t.slots) && Represents(t.slots, m)
    ensures Reachable(Count(t, word).slots)
    ensures Represents(Count(t, word).slots, m[word := (if word in m then m[word] else 0) + 1])
  {
    hide Reachable, Represents, Get, Wellsized, Rehashed;
    WellsizedHasFree(t);
    GetDecides(t.slots, m, word);
    var r := Get(t.slots, word);
    if r.Found? {
      StoredValue(t.slots, m, r.i);
      UpdateKeeps(t.slots, m, r.i, t.slots[r.i].value + 1);
    } else {
      InsertedKeeps(t.slots, m, word, 1);
      RehashKeepsAll(Inserted(t.slots, word, 1), m[word := 1]);
    }
  }

  /** For every word sequence the corrected table ends up storing each distinct word
      once with its exact number of occurrences, through any number of rehashes. */
  lemma {:induction false} CountsAlwaysExact(words: seq<string>)
    ensures Reachable(CountAll(words).slots)
    ensures Represents(CountAll(words).slots, Frequencies(words))
  {
    if words != [] {
      CountsAlwaysExact(words[..|words| - 1]);
      CountStores(CountAll(words[..|words| - 1]), Frequencies(words[..|words| - 1]), words[|words| - 1]);
    }
  }
}
