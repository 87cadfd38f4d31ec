/** The counters of the log parser (HW10-LogParser/src/main.c): a list of entries
    searched linearly, seen as a map from keys to sums. */
module LogStats {

  /** What a list of entries counts. */
  type Counts = map<string, int>

  function ValueAt(m: Counts, k: string): int {
    if k in m then m[k] else 0
  }

  /** Key by key addition. */
  function Plus(a: Counts, b: Counts): Counts {
    map k | k in a.Keys + b.Keys :: ValueAt(a, k) + ValueAt(b, k)
  }

  lemma PlusAt(a: Counts, b: Counts)
    ensures forall k :: k in Plus(a, b) <==> k in a || k in b
    ensures forall k :: ValueAt(Plus(a, b), k) == ValueAt(a, k) + ValueAt(b, k)
  {
  }

  lemma SameCounts(a: Counts, b: Counts)
    requires forall k :: k in a <==> k in b
    requires forall k :: ValueAt(a, k) == ValueAt(b, k)
    ensures a == b
  {
    assert forall k :: k in a ==> a[k] == ValueAt(a, k) && b[k] == ValueAt(b, k);
  }

  lemma PlusCommutes(a: Counts, b: Counts)
    ensures Plus(a, b) == Plus(b, a)
  {
    PlusAt(a, b);
    PlusAt(b, a);
    SameCounts(Plus(a, b), Plus(b, a));
  }

  lemma PlusAssociates(a: Counts, b: Counts, c: Counts)
    ensures Plus(Plus(a, b), c) == Plus(a, Plus(b, c))
  {
    PlusAt(a, b);
    PlusAt(b, c);
    PlusAt(Plus(a, b), c);
    PlusAt(a, Plus(b, c));
    SameCounts(Plus(Plus(a, b), c), Plus(a, Plus(b, c)));
  }

  lemma PlusNothing(a: Counts)
    ensures Plus(a, map[]) == a && Plus(map[], a) == a
  {
    PlusAt(a, map[]);
    PlusAt(map[], a);
    SameCounts(Plus(a, map[]), a);
    SameCounts(Plus(map[], a), a);
  }

  // --- Entry lists ---

  datatype HashEntry = HashEntry(key: string, value: int)

  type Entries = seq<HashEntry>

  ghost predicate UniqueKeys(es: Entries) {
    forall i, j :: 0 <= i < j < |es| ==> es[i].key != es[j].key
  }

  function ToCounts(es: Entries): Counts {
    if es == [] then map[] else ToCounts(es[1..])[es[0].key := es[0].value]
  }

  /** `add_entry`: the first entry with the key takes the delta; otherwise a new
      entry is appended. */
  function AddTo(es: Entries, key: string, delta: int): (r: Entries)
    ensures |es| <= |r| <= |es| + 1
  {
    if es == [] then [HashEntry(key, delta)]
    else if es[0].key == key then [HashEntry(key, es[0].value + delta)] + es[1..]
    else [es[0]] + AddTo(es[1..], key, delta)
  }

  lemma {:induction false} KeysOfCounts(es: Entries, k: string)
    ensures k in ToCounts(es) <==> HasKey(es, k)
  {
    if es != [] {
      KeysOfCounts(es[1..], k);
      HasKeyStep(es, k);
    }
  }

  /** An entry is what is counted for its key. */
  lemma {:induction false} CountsOfEntry(es: Entries, i: nat)
    requires UniqueKeys(es) && i < |es|
    ensures ToCounts(es)[es[i].key := es[i].value] == ToCounts(es)
  {
    KeysOfCounts(es, es[i].key);
    if i > 0 {
      assert es[1..][i - 1] == es[i];
      CountsOfEntry(es[1..], i - 1);
    }
  }

  ghost predicate HasKey(es: Entries, k: string) {
    exists i :: 0 <= i < |es| && es[i].key == k
  }

  lemma HasKeyStep(es: Entries, k: string)
    requires es != []
    ensures HasKey(es, k) <==> es[0].key == k || HasKey(es[1..], k)
  {
    if i :| 0 <= i < |es| && es[i].key == k {
      if i > 0 { assert es[1..][i - 1].key == k; }
    }
    if i :| 0 <= i < |es[1..]| && es[1..][i].key == k {
      assert es[i + 1].key == k;
    }
  }

  lemma UniqueStep(es: Entries)
    requires es != []
    ensures UniqueKeys(es) <==> UniqueKeys(es[1..]) && !HasKey(es[1..], es[0].key)
  {
    if UniqueKeys(es[1..]) && !HasKey(es[1..], es[0].key) {
      forall i, j | 0 <= i < j < |es| ensures es[i].key != es[j].key {
        assert es[1..][j - 1].key == es[j].key;
        if i > 0 { assert es[1..][i - 1].key == es[i].key; }
      }
    }
  }

  /** Adding an entry adds its key and keeps the keys unique. */
  lemma {:induction false} AddToKeys(es: Entries, key: string, delta: int)
    requires UniqueKeys(es)
    ensures UniqueKeys(AddTo(es, key, delta))
    ensures forall k :: HasKey(AddTo(es, key, delta), k) <==> HasKey(es, k) || k == key
  {
    var r := AddTo(es, key, delta);
    if es == [] {
      assert r[0].key == key;
    } else {
      UniqueStep(es);
      UniqueStep(r);
      forall k ensures (HasKey(es, k) <==> es[0].key == k || HasKey(es[1..], k))
               ensures (HasKey(r, k) <==> r[0].key == k || HasKey(r[1..], k)) {
        HasKeyStep(es, k);
        HasKeyStep(r, k);
      }
      if es[0].key == key {
        assert r[1..] == es[1..];
      } else {
        AddToKeys(es[1..], key, delta);
        assert r[1..] == AddTo(es[1..], key, delta);
      }
    }
  }

  /** Adding an entry adds the delta at the key and nothing else. */
  lemma {:induction false} AddToCounts(es: Entries, key: string, delta: int)
    requires UniqueKeys(es)
    ensures ToCounts(AddTo(es, key, delta)) == Plus(ToCounts(es), map[key := delta])
  {
    if es == [] {
      PlusNothing(map[key := delta]);
    } else {
      var r, rest := AddTo(es, key, delta), es[1..];
      UniqueStep(es);
      KeysOfCounts(rest, es[0].key);
      if es[0].key == key {
        assert r[1..] == rest;
      } else {
        AddToCounts(rest, key, delta);
        assert r[1..] == AddTo(rest, key, delta);
      }
      PlusAt(ToCounts(es), map[key := delta]);
      PlusAt(ToCounts(rest), map[key := delta]);
      SameCounts(ToCounts(r), Plus(ToCounts(es), map[key := delta]));
    }
  }

  /** `merge_maps`: every entry of the source is added to the destination. */
  function MergeInto(dest: Entries, src: Entries): Entries
    decreases |src|
  {
    if src == [] then dest else MergeInto(AddTo(dest, src[0].key, src[0].value), src[1..])
  }

  /** Merging adds up the counts. */
  lemma {:induction false} MergeAdds(dest: Entries, src: Entries)
    requires UniqueKeys(dest) && UniqueKeys(src)
    ensures UniqueKeys(MergeInto(dest, src))
    ensures ToCounts(MergeInto(dest, src)) == Plus(ToCounts(dest), ToCounts(src))
    decreases |src|
  {
    if src == [] {
      PlusNothing(ToCounts(dest));
    } else {
      var e, rest := src[0], src[1..];
      AddToKeys(dest, e.key, e.value);
      AddToCounts(dest, e.key, e.value);
      UniqueStep(src);
      MergeAdds(AddTo(dest, e.key, e.value), rest);
      PlusAssociates(ToCounts(dest), map[e.key := e.value], ToCounts(rest));
      KeysOfCounts(rest, e.key);
      PlusAt(map[e.key := e.value], ToCounts(rest));
      SameCounts(Plus(map[e.key := e.value], ToCounts(rest)), ToCounts(src));
    }
  }

  // --- Conservation: the values of the entries sum up to what was added ---

  function Total(es: Entries): int {
    if es == [] then 0 else es[0].value + Total(es[1..])
  }

  lemma {:induction false} AddToTotal(es: Entries, key: string, delta: int)
    ensures Total(AddTo(es, key, delta)) == Total(es) + delta
  {
    if es != [] && es[0].key != key {
      AddToTotal(es[1..], key, delta);
      assert AddTo(es, key, delta)[1..] == AddTo(es[1..], key, delta);
    }
  }

  lemma {:induction false} MergeTotal(dest: Entries, src: Entries)
    ensures Total(MergeInto(dest, src)) == Total(dest) + Total(src)
    decreases |src|
  {
    if src != [] {
      AddToTotal(dest, src[0].key, src[0].value);
      MergeTotal(AddTo(dest, src[0].key, src[0].value), src[1..]);
    }
  }

  // --- The statistics of one thread ---

  /** Contents of a `ThreadStats`. */
  datatype Stats = Stats(urls: Counts, refs: Counts, bytes: int)

  const ZERO := Stats(map[], map[], 0)

  function Combine(a: Stats, b: Stats): Stats {
    Stats(Plus(a.urls, b.urls), Plus(a.refs, b.refs), a.bytes + b.bytes)
  }

  lemma CombineLaws(a: Stats, b: Stats, c: Stats)
    ensures Combine(a, b) == Combine(b, a)
    ensures Combine(Combine(a, b), c) == Combine(a, Combine(b, c))
    ensures Combine(a, ZERO) == a && Combine(ZERO, a) == a
  {
    PlusCommutes(a.urls, b.urls);
    PlusCommutes(a.refs, b.refs);
    PlusAssociates(a.urls, b.urls, c.urls);
    PlusAssociates(a.refs, b.refs, c.refs);
    PlusNothing(a.urls);
    PlusNothing(a.refs);
  }
}
