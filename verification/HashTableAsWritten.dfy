/** The table of HW03-Hash/src/hash.c and the loop of HW03-Hash/src/main.c, in place
    and as written. A pointer to an element is the index of its slot. */
module HashTableAsWritten {
  import opened HashRange
  import opened HashSlots
  import opened HashAsWritten

  /** `hash_string`; `inRange` tells whether no value of the two variables has left
      `long long`. */
  method Hash(str: string) returns (hash: nat, ghost inRange: bool)
    ensures hash == HashString(str)
    ensures inRange <==> HashFits(str)
  {
    hide Letter, HashString, FitsUpTo;
    hash := 0;
    var pPow: nat := 1;
    inRange := true;
    NoLetters(str);
    FitsStart(str);
    for i := 0 to |str|
      invariant hash == HashString(str[..i]) && pPow == PowerOfP(i)
      invariant inRange <==> FitsUpTo(str, i)
    {
      LastLetter(str[..i], str[i]);
      assert str[..i] + [str[i]] == str[..i + 1];
      hash := hash + Letter(str[i]) * pPow;
      pPow := pPow * P;
      FitsStep(str, i);
      inRange := inRange && hash < LIMIT && pPow < LIMIT;
    }
    assert str[..|str|] == str;
  }

  /** The probe loop of `add_element` from the home of the key on, with the store behind
      it. It goes around the end of the table and stops because the cyclic distance grows. */
  method Store(elements: array<Slot>, home: nat, key: string, value: int)
    requires HasFree(elements[..]) && elements.Length > 0 && home == Home(key, elements.Length)
    modifies elements
    ensures elements[..] == Inserted(old(elements[..]), key, value)
  {
    var capacity := elements.Length;
    var hash := home;
    ghost var s := elements[..];
    ghost var d := 0;
    ghost var e := FreeDistance(s, Home(key, capacity), 0);
    while elements[hash].Taken?
      invariant 0 <= d <= e && hash == After(capacity, Home(key, capacity), d)
      invariant elements[..] == s
      decreases e - d
    {
      assert d < e;
      NextSlot(capacity, Home(key, capacity), d);
      hash := (hash + 1) % capacity;
      d := d + 1;
    }
    assert d == e;
    elements[hash] := Taken(key, value);
  }

  lemma NextSlot(capacity: nat, h: nat, d: nat)
    requires h < capacity && d + 1 < capacity
    ensures (After(capacity, h, d) + 1) % capacity == After(capacity, h, d + 1)
  {
    var i := After(capacity, h, d);
    if i + 1 < capacity {
      assert (i + 1) % capacity == i + 1;
    } else {
      assert (i + 1) % capacity == 0;
    }
  }

  /** The two loops of `rehash`: whatever a new slot held is overwritten. */
  method CopyOver(elements: array<Slot>, newCapacity: nat) returns (newElements: array<Slot>)
    requires newCapacity > 0
    ensures fresh(newElements) && newElements[..] == Overwritten(elements[..], newCapacity, elements.Length)
  {
    newElements := new Slot[newCapacity](_ => Free);
    assert newElements[..] == Frees(newCapacity);
    for i := 0 to elements.Length
      invariant newElements[..] == Overwritten(elements[..], newCapacity, i)
    {
      var element := elements[i];
      if element.Taken? {
        var hash, _ := Hash(element.key);
        newElements[hash % newCapacity] := element;
      }
    }
  }

  class HashTable {
    var elements: array<Slot>
    var capacity: nat
    var size: nat

    ghost predicate Valid()
      reads this, elements
    {
      elements.Length == capacity && Wellsized(Contents())
    }

    ghost function Contents(): Table
      reads this, elements
    {
      Table(elements[..], size)
    }

    /** `init_table`. */
    constructor ()
      ensures Valid() && Contents() == START && fresh(elements)
    {
      capacity := 10;
      size := 0;
      elements := new Slot[10](_ => Free);
      new;
      FreesOccupied(10);
      assert elements[..] == Frees(10);
    }

    /** `get_element`: the index is not wrapped, so the loop can leave the array. */
    method GetElement(key: string) returns (r: Lookup)
      requires Valid()
      ensures r == Get(elements[..], key)
    {
      var h, _ := Hash(key);
      var hash := h % capacity;
      while hash < capacity && elements[hash].Taken? && elements[hash].key != key
        invariant 0 <= hash <= capacity
        invariant GetFrom(elements[..], key, hash) == Get(elements[..], key)
      {
        hash := hash + 1;
      }
      if hash == capacity {
        return OffEnd;
      }
      r := if elements[hash].Free? then Missing else Found(hash);
    }

    /** `rehash`. */
    method Rehash()
      requires elements.Length == capacity && capacity > 0
      modifies this
      ensures fresh(elements) && elements.Length == capacity == 2 * old(capacity) && size == old(size)
      ensures elements[..] == Rehashed(old(elements[..]))
    {
      elements := CopyOver(elements, capacity * 2);
      capacity := capacity * 2;
    }

    /** `add_element`. */
    method AddElement(key: string, value: int)
      requires Valid()
      modifies this, elements
      ensures Valid() && Contents() == Added(old(Contents()), key, value)
      ensures elements == old(elements) || fresh(elements)
    {
      ghost var t := Contents();
      AddedWellsized(t, key, value);
      WellsizedHasFree(t);
      var hash, _ := Hash(key);
      Store(elements, hash % capacity, key, value);
      size := size + 1;
      if RehashRequired(size, capacity) {
        Rehash();
      }
    }

    method Increment(i: nat)
      requires Valid() && i < elements.Length && elements[i].Taken?
      modifies elements
      ensures Valid()
      ensures Contents() == old(Contents()).(slots := old(elements[..])[i := Taken(old(elements[i].key), old(elements[i].value) + 1)])
    {
      ghost var s := elements[..];
      OccupiedUpdate(s, i, Taken(s[i].key, s[i].value + 1));
      elements[i] := Taken(elements[i].key, elements[i].value + 1);
      assert elements[..] == s[i := Taken(s[i].key, s[i].value + 1)];
    }
  }

  /** One turn of the loop of `main`: false when the lookup reads past the end. */
  method CountWord(table: HashTable, word: string, ghost p: Progress) returns (ok: bool)
    requires table.Valid() && p.Running? && p.table == table.Contents()
    modifies table, table.elements
    ensures ok <==> Count(p, word).Running?
    ensures ok ==> table.Valid() && table.Contents() == Count(p, word).table
    ensures table.elements == old(table.elements) || fresh(table.elements)
  {
    var r := table.GetElement(word);
    match r {
      case OffEnd =>
        return false;
      case Missing =>
        table.AddElement(word, 1);
      case Found(slot) =>
        table.Increment(slot);
    }
    ok := true;
  }

  /** The loop of `main` over the words of the file; it fails when a lookup reads
      past the end of the table. */
  method CountWords(words: seq<string>) returns (table: HashTable, ok: bool)
    ensures ok <==> CountAll(words).Running?
    ensures ok ==> table.Valid() && table.Contents() == CountAll(words).table
  {
    table := new HashTable();
    for i := 0 to |words|
      invariant table.Valid() && fresh(table) && fresh(table.elements)
      invariant CountAll(words[..i]).Running? && CountAll(words[..i]).table == table.Contents()
    {
      assert words[..i + 1][..i] == words[..i];
      ok := CountWord(table, words[i], CountAll(words[..i]));
      if !ok {
        StuckForever(words, i + 1);
        return;
      }
    }
    assert words[..|words|] == words;
    ok := true;
  }

  lemma {:induction false} StuckForever(words: seq<string>, i: nat)
    requires i <= |words| && CountAll(words[..i]).Undefined?
    ensures CountAll(words).Undefined?
    decreases |words| - i
  {
    if i == |words| {
      assert words[..i] == words;
    } else {
      assert words[..i + 1][..i] == words[..i];
      StuckForever(words, i + 1);
    }
  }

  // --- Two inputs on which the program as written fails ---

  /** Two words with home 9: the second lookup reads slot 10 of 10. */
  lemma ReadsPastTheEnd()
    ensures CountAll(["i", "s"]).Undefined?
  {
    assert HashString("i") == 9 && HashString("s") == 19;
    assert ["i"][..0] == [] && ["i", "s"][..1] == ["i"];
    FreesOccupied(10);
    CountAtHome(START, "i");
    var s := CountAll(["i"]).table.slots;
    assert s[9] == Taken("i", 1);
    LookupOffEnd(s, "s");
  }

  /** A word that finds its home free is stored there. */
  lemma CountAtHome(t: Table, word: string)
    requires Wellsized(t) && !RehashRequired(t.size + 1, |t.slots|)
    requires t.slots[Home(word, |t.slots|)].Free?
    ensures Count(Running(t, false), word)
         == Running(Table(t.slots[Home(word, |t.slots|) := Taken(word, 1)], t.size + 1), false)
  {
    WellsizedHasFree(t);
    var h := Home(word, |t.slots|);
    assert After(|t.slots|, h, 0) == h;
    assert FreeSlot(t.slots, word) == h;
  }

  /** "a" and "u" have home 1 in a table of 20: the rehash after the eighth word
      keeps only one of them. */
  lemma RehashLosesWord()
    ensures CountAll(["a", "b", "c", "d", "e", "f", "g"] + ["u"]).Running?
    ensures CountAll(["a", "b", "c", "d", "e", "f", "g"] + ["u"]).lost
  {
    LetterHashes();
    LossAfterSeven(["a", "b", "c", "d", "e", "f", "g"]);
  }

  lemma LossAfterSeven(words: seq<string>)
    requires |words| == 7 && words[0] == "a" && HashString("u") == 21
    requires forall i :: 0 <= i < |words| ==> HashString(words[i]) == i + 1
    ensures CountAll(words + ["u"]).Running? && CountAll(words + ["u"]).lost
  {
    WordsLineUp(words);
    assert (words + ["u"])[..7] == words;
    var s := CountAll(words).table.slots;
    forall i | 0 <= i < 7 ensures words[i] != "u" {
      assert HashString(words[i]) == i + 1 != HashString("u");
    }
    EighthWord(CountAll(words));
  }

  lemma EighthWord(p: Progress)
    requires p.Running? && Wellsized(p.table) && p.table.size == 7 && |p.table.slots| == 10
    requires p.table.slots[1] == Taken("a", 1) && p.table.slots[8].Free?
    requires forall i :: 0 <= i < 10 ==> !Holds(p.table.slots[i], "u")
    requires HashString("a") == 1 && HashString("u") == 21
    ensures Count(p, "u").Running? && Count(p, "u").lost
  {
    var s := p.table.slots;
    LookupOffEnd(s, "u");
    assert !Get(s, "u").Found?;
    WellsizedHasFree(p.table);
    var t, f := Inserted(s, "u", 1), FreeSlot(s, "u");
    assert t[1] == Taken("a", 1) && t[f] == Taken("u", 1);
    assert Clash(t, 20);
  }

  function Lined(words: seq<string>): (s: Slots)
    ensures |s| == 10
    ensures forall i :: 0 <= i < 10 ==> s[i] == if 1 <= i <= |words| then Taken(words[i - 1], 1) else Free
  {
    seq(10, i => if 1 <= i <= |words| then Taken(words[i - 1], 1) else Free)
  }

  lemma LinedStep(words: seq<string>, word: string)
    requires |words| < 7
    ensures Lined(words + [word]) == Lined(words)[|words| + 1 := Taken(word, 1)]
    ensures Lined(words)[|words| + 1].Free?
  {
  }

  lemma LineUpStep(p: Progress, words: seq<string>, word: string)
    requires |words| < 7 && p == Running(Table(Lined(words), |words|), false)
    requires Wellsized(p.table) && HashString(word) == |words| + 1
    ensures Count(p, word) == Running(Table(Lined(words + [word]), |words| + 1), false)
  {
    LinedStep(words, word);
    SmallHome(word, |words| + 1);
    CountAtHome(p.table, word);
  }

  lemma NothingLined()
    ensures CountAll([]) == Running(Table(Lined([]), 0), false)
  {
    assert Lined([]) == Frees(10);
  }

  /** Up to seven words with the hashes 1, 2, 3, ... line up in their homes. */
  lemma {:induction false} WordsLineUp(words: seq<string>)
    requires |words| <= 7 && forall i :: 0 <= i < |words| ==> HashString(words[i]) == i + 1
    ensures CountAll(words) == Running(Table(Lined(words), |words|), false)
  {
    hide Count, Lined, Wellsized, HashString;
    if words == [] {
      NothingLined();
    } else {
      var before, word := words[..|words| - 1], words[|words| - 1];
      WordsLineUp(before);
      assert words == before + [word];
      LineUpStep(CountAll(before), before, word);
    }
  }

  lemma SmallHome(word: string, h: nat)
    requires HashString(word) == h < 10
    ensures Home(word, 10) == h
  {
  }

  lemma LetterHashes()
    ensures HashString("a") == 1 && HashString("b") == 2 && HashString("c") == 3 && HashString("d") == 4
    ensures HashString("e") == 5 && HashString("f") == 6 && HashString("g") == 7 && HashString("u") == 21
  {
  }
}
