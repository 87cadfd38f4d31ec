/** The slot array of the open-addressing table (HW03-Hash/src/hash.c) as a value,
    and what linear probing finds in it. */
module HashSlots {

  datatype Slot = Free | Taken(key: string, value: int)

  type Slots = seq<Slot>

  const P := 53

  function Abs(x: int): nat {
    if x < 0 then -x else x
  }

  /** The value of a `char`, a signed byte. */
  function Signed(c: char): int {
    if 128 <= c as int < 256 then c as int - 256 else c as int
  }

  /** What a letter contributes: 1 for an a, 2 for a b, and so on. */
  function Letter(c: char): nat {
    Abs(Signed(c) - 'a' as int + 1)
  }

  /** The value of every byte by its code: the codes above 96 count upwards from there,
      those up to 96 downwards, and those from 128 on are negative numbers. */
  lemma LetterOfCode(c: char)
    requires c as int < 256
    ensures c as int <= 96 ==> Letter(c) == 96 - c as int
    ensures 97 <= c as int <= 127 ==> Letter(c) == c as int - 96
    ensures 128 <= c as int ==> Letter(c) == 352 - c as int
  {
  }

  /** `hash_string`, without wrap-around: a polynomial in 53. */
  function HashString(str: string): nat {
    if str == [] then 0 else Letter(str[0]) + P * HashString(str[1..])
  }

  function Home(key: string, capacity: nat): (h: nat)
    requires capacity > 0
    ensures h < capacity
  {
    HashString(key) % capacity
  }

  /** The slot d places after h, around the end of the table. */
  function After(capacity: nat, h: nat, d: nat): (i: nat)
    requires h < capacity && d < capacity
    ensures i < capacity
  {
    if h + d < capacity then h + d else h + d - capacity
  }

  /** How many places i is after h. */
  function Distance(capacity: nat, h: nat, i: nat): (d: nat)
    requires h < capacity && i < capacity
    ensures d < capacity && After(capacity, h, d) == i
  {
    if h <= i then i - h else i + capacity - h
  }

  predicate Holds(slot: Slot, key: string) {
    slot.Taken? && slot.key == key
  }

  // --- Free slots ---

  /** The number of taken slots. */
  function Occupied(s: Slots): nat {
    if s == [] then 0 else (if s[0].Taken? then 1 else 0) + Occupied(s[1..])
  }

  ghost predicate HasFree(s: Slots) {
    exists i :: 0 <= i < |s| && s[i].Free?
  }

  lemma {:induction false} OccupiedFree(s: Slots)
    ensures Occupied(s) <= |s|
    ensures Occupied(s) < |s| <==> HasFree(s)
  {
    if s != [] {
      OccupiedFree(s[1..]);
      if HasFree(s[1..]) {
        var i :| 0 <= i < |s[1..]| && s[1..][i].Free?;
        assert s[i + 1].Free?;
      }
      if HasFree(s) && s[0].Taken? {
        var i :| 0 <= i < |s| && s[i].Free?;
        assert s[1..][i - 1].Free?;
      }
    }
  }

  lemma {:induction false} OccupiedUpdate(s: Slots, i: nat, slot: Slot)
    requires i < |s|
    ensures Occupied(s[i := slot])
         == Occupied(s) - (if s[i].Taken? then 1 else 0) + (if slot.Taken? then 1 else 0)
  {
    if i == 0 {
      assert s[i := slot][1..] == s[1..];
    } else {
      assert s[i := slot][1..] == s[1..][i - 1 := slot];
      OccupiedUpdate(s[1..], i - 1, slot);
    }
  }

  /** The distance from h, not below d, of the first slot that is free or holds the
      key, going around the end of the table. */
  ghost function Probe(s: Slots, h: nat, key: string, d: nat): (e: nat)
    requires h < |s| && d < |s| && !PassedAll(s, h, key, d)
    ensures d <= e < |s|
    ensures s[After(|s|, h, e)].Free? || Holds(s[After(|s|, h, e)], key)
    ensures forall k :: d <= k < e ==> Passed(s, h, key, k)
    decreases |s| - d
  {
    if Passed(s, h, key, d) then
      assert d + 1 < |s| && !PassedAll(s, h, key, d + 1);
      Probe(s, h, key, d + 1)
    else d
  }

  /** The slot at distance d is taken by another key. */
  ghost predicate Passed(s: Slots, h: nat, key: string, d: nat)
    requires h < |s| && d < |s|
  {
    s[After(|s|, h, d)].Taken? && s[After(|s|, h, d)].key != key
  }

  ghost predicate PassedAll(s: Slots, h: nat, key: string, d: nat)
    requires h < |s|
  {
    forall k :: d <= k < |s| ==> Passed(s, h, key, k)
  }

  lemma FreeStopsProbe(s: Slots, h: nat, key: string)
    requires h < |s| && HasFree(s)
    ensures !PassedAll(s, h, key, 0)
  {
    var i :| 0 <= i < |s| && s[i].Free?;
    assert !Passed(s, h, key, Distance(|s|, h, i));
  }

  // --- The invariant of linear probing ---

  /** No free slot between the home of the key in slot i and slot i. */
  ghost predicate ReachableAt(s: Slots, i: nat)
    requires i < |s| && s[i].Taken?
  {
    forall d :: 0 <= d < Distance(|s|, Home(s[i].key, |s|), i) ==> s[After(|s|, Home(s[i].key, |s|), d)].Taken?
  }

  ghost predicate Reachable(s: Slots) {
    forall i :: 0 <= i < |s| && s[i].Taken? ==> ReachableAt(s, i)
  }

  /** The table stores the map m: every key once, with its value. */
  ghost predicate Represents(s: Slots, m: map<string, int>) {
    && (forall i :: 0 <= i < |s| && s[i].Taken? ==> s[i].key in m && m[s[i].key] == s[i].value)
    && (forall k :: k in m ==> exists i :: 0 <= i < |s| && Holds(s[i], k))
    && forall i, j :: 0 <= i < j < |s| && s[i].Taken? && s[j].Taken? ==> s[i].key != s[j].key
  }

  lemma StoredValue(s: Slots, m: map<string, int>, i: nat)
    requires Represents(s, m) && i < |s| && s[i].Taken?
    ensures s[i].key in m && m[s[i].key] == s[i].value
  {
  }

  /** A probe stops at a free slot exactly when the key is not in the map. */
  lemma ProbeDecides(s: Slots, m: map<string, int>, key: string, e: nat)
    requires |s| > 0 && Reachable(s) && Represents(s, m) && e < |s|
    requires forall d :: 0 <= d < e ==> Passed(s, Home(key, |s|), key, d)
    requires !Passed(s, Home(key, |s|), key, e)
    ensures Holds(s[After(|s|, Home(key, |s|), e)], key) <==> key in m
  {
    var h := Home(key, |s|);
    var p := After(|s|, h, e);
    if key in m {
      var i :| 0 <= i < |s| && Holds(s[i], key);
      var d := Distance(|s|, h, i);
      assert ReachableAt(s, i);
      assert !Passed(s, h, key, d);
      if e < d {
        assert s[p].Taken?;
      }
    }
  }

  /** Storing a new key where its probe stops keeps the invariant. */
  lemma InsertKeeps(s: Slots, m: map<string, int>, key: string, value: int, e: nat)
    requires |s| > 0 && Reachable(s) && Represents(s, m) && e < |s| && key !in m
    requires forall d :: 0 <= d < e ==> s[After(|s|, Home(key, |s|), d)].Taken?
    requires s[After(|s|, Home(key, |s|), e)].Free?
    ensures var t := s[After(|s|, Home(key, |s|), e) := Taken(key, value)];
            Reachable(t) && Represents(t, m[key := value])
  {
    var h := Home(key, |s|);
    var p := After(|s|, h, e);
    var t := s[p := Taken(key, value)];
    forall i | 0 <= i < |t| && t[i].Taken? ensures ReachableAt(t, i) {
      if i == p {
        assert Distance(|s|, h, p) == e;
      } else {
        assert ReachableAt(s, i);
      }
    }
    var m' := m[key := value];
    forall k | k in m' ensures exists i :: 0 <= i < |t| && Holds(t[i], k) {
      if k == key {
        assert Holds(t[p], k);
      } else {
        var i :| 0 <= i < |s| && Holds(s[i], k);
        assert Holds(t[i], k);
      }
    }
  }

  /** Changing the value in place keeps the invariant. */
  lemma UpdateKeeps(s: Slots, m: map<string, int>, i: nat, value: int)
    requires Reachable(s) && Represents(s, m) && i < |s| && s[i].Taken?
    ensures var t := s[i := Taken(s[i].key, value)];
            Reachable(t) && Represents(t, m[s[i].key := value])
  {
    var t := s[i := Taken(s[i].key, value)];
    forall j | 0 <= j < |t| && t[j].Taken? ensures ReachableAt(t, j) {
      assert ReachableAt(s, j);
    }
    var m' := m[s[i].key := value];
    forall k | k in m' ensures exists j :: 0 <= j < |t| && Holds(t[j], k) {
      var j :| 0 <= j < |s| && Holds(s[j], k);
      assert Holds(t[j], k);
    }
  }

  function Frees(n: nat): (s: Slots)
    ensures |s| == n && forall i :: 0 <= i < n ==> s[i].Free?
  {
    seq(n, i => Free)
  }

  lemma {:induction false} FreesOccupied(n: nat)
    ensures Occupied(Frees(n)) == 0
  {
    if n > 0 {
      assert Frees(n)[1..] == Frees(n - 1);
      FreesOccupied(n - 1);
    }
  }

  // --- add_element ---

  /** The distance from h, not below d, of the first free slot. */
  ghost function FreeDistance(s: Slots, h: nat, d: nat): (e: nat)
    requires h < |s| && HasFree(s)
    requires forall k :: 0 <= k < d && k < |s| ==> s[After(|s|, h, k)].Taken?
    ensures d <= e < |s| && s[After(|s|, h, e)].Free?
    ensures forall k :: 0 <= k < e ==> s[After(|s|, h, k)].Taken?
    decreases |s| - d
  {
    var i :| 0 <= i < |s| && s[i].Free?;
    assert d <= Distance(|s|, h, i) by {
      assert s[After(|s|, h, Distance(|s|, h, i))].Free?;
    }
    if s[After(|s|, h, d)].Free? then d else FreeDistance(s, h, d + 1)
  }

  /** Where `add_element` stores a key: the first free slot from its home on. */
  ghost function FreeSlot(s: Slots, key: string): (i: nat)
    requires |s| > 0 && HasFree(s)
    ensures i < |s| && s[i].Free?
  {
    After(|s|, Home(key, |s|), FreeDistance(s, Home(key, |s|), 0))
  }

  ghost function Inserted(s: Slots, key: string, value: int): (t: Slots)
    requires |s| > 0 && HasFree(s)
    ensures |t| == |s|
  {
    s[FreeSlot(s, key) := Taken(key, value)]
  }

  lemma InsertedKeeps(s: Slots, m: map<string, int>, key: string, value: int)
    requires |s| > 0 && HasFree(s) && Reachable(s) && Represents(s, m) && key !in m
    ensures Reachable(Inserted(s, key, value)) && Represents(Inserted(s, key, value), m[key := value])
  {
    InsertKeeps(s, m, key, value, FreeDistance(s, Home(key, |s|), 0));
  }

  /** `is_rehash_required`: the load is above 0.7. */
  predicate RehashRequired(size: nat, capacity: nat) {
    10 * size > 7 * capacity
  }
}
