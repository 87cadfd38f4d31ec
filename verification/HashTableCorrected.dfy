/** The corrected table in place. */
module HashTableCorrected {
  import opened HashRange
  import opened HashSlots
  import opened HashAsWritten
  import opened HashTableAsWritten
  import Fixed = HashCorrected

  /** `hash_string` with every value reduced by the capacity: it yields the home, and
      while 225 times the capacity is in range, no value overflows on a word of any
      length. */
  method ReducedHash(str: string, capacity: nat) returns (hash: nat)
    requires capacity > 0
    ensures hash == Home(str, capacity)
  {
    hide Letter, HashString;
    hash := 0;
    var pPow: nat := 1 % capacity;
    NoLetters(str);
    for i := 0 to |str|
      invariant hash == HashString(str[..i]) % capacity && pPow == PowerOfP(i) % capacity
    {
      if Bytes(str) && 225 * capacity <= LIMIT {
        ReducedValues(hash, str[i], pPow, capacity);
        assert hash + Letter(str[i]) * pPow < LIMIT && pPow * P < LIMIT;
      }
      LastLetter(str[..i], str[i]);
      assert str[..i] + [str[i]] == str[..i + 1];
      ReducedStep(HashString(str[..i]), Letter(str[i]), PowerOfP(i), capacity);
      ReducedStep(0, P, PowerOfP(i), capacity);
      hash := (hash + Letter(str[i]) * pPow) % capacity;
      pPow := (pPow * P) % capacity;
    }
    assert str[..|str|] == str;
  }

  class CorrectedTable {
    var elements: array<Slot>
    var capacity: nat
    var size: nat

    ghost predicate Valid()
      reads this, elements
    {
      elements.Length == capacity && Wellsized(Contents())
    }

    ghost function Contents(): Table
      reads this, elements
    {
      Table(elements[..], size)
    }

    constructor ()
      ensures Valid() && Contents() == START && fresh(elements)
    {
      capacity := 10;
      size := 0;
      elements := new Slot[10](_ => Free);
      new;
      FreesOccupied(10);
      assert elements[..] == Frees(10);
    }

    /** `get_element` with the index wrapped as in `add_element`. */
    method GetElement(key: string) returns (r: Lookup)
      requires Valid()
      ensures HasFree(elements[..]) && r == Fixed.Get(elements[..], key)
    {
      WellsizedHasFree(Contents());
      var hash := ReducedHash(key, capacity);
      ghost var s := elements[..];
      ghost var d := 0;
      FreeStopsProbe(s, hash, key);
      ghost var e := Probe(s, hash, key, 0);
      while elements[hash].Taken? && elements[hash].key != key
        invariant 0 <= d <= e && hash == After(capacity, Home(key, capacity), d)
        decreases e - d
      {
        assert Passed(s, Home(key, capacity), key, d);
        NextSlot(capacity, Home(key, capacity), d);
        hash := (hash + 1) % capacity;
        d := d + 1;
      }
      assert d < e ==> Passed(s, Home(key, capacity), key, d);
      r := if elements[hash].Free? then Missing else Found(hash);
    }

    /** `add_element` with a rehash that probes. */
    method AddElement(key: string, value: int)
      requires Valid()
      modifies this, elements
      ensures Valid() && Contents() == Fixed.Added(old(Contents()), key, value)
      ensures elements == old(elements) || fresh(elements)
    {
      hide Wellsized, Home, FreeSlot;
      ghost var t := Contents();
      Fixed.AddedWellsized(t, key, value);
      WellsizedHasFree(t);
      var hash := ReducedHash(key, capacity);
      Store(elements, hash, key, value);
      size := size + 1;
      if RehashRequired(size, capacity) {
        elements := Reinsert(elements, capacity * 2);
        capacity := capacity * 2;
      }
    }
  }

  /** `rehash` with the probe loop of `add_element`. */
  method Reinsert(elements: array<Slot>, newCapacity: nat) returns (newElements: array<Slot>)
    requires elements.Length < newCapacity
    ensures fresh(newElements) && newElements[..] == Fixed.Reinserted(elements[..], newCapacity, elements.Length)
  {
    newElements := new Slot[newCapacity](_ => Free);
    assert newElements[..] == Frees(newCapacity);
    for i := 0 to elements.Length
      invariant newElements[..] == Fixed.Reinserted(elements[..], newCapacity, i)
    {
      var element := elements[i];
      if element.Taken? {
        OccupiedFree(newElements[..]);
        var hash := ReducedHash(element.key, newCapacity);
        Store(newElements, hash, element.key, element.value);
      }
    }
  }

  /** The word count over the corrected table. */
  method CountWords(words: seq<string>) returns (table: CorrectedTable)
    ensures table.Valid() && Represents(table.elements[..], Frequencies(words))
  {
    table := new CorrectedTable();
    for i := 0 to |words|
      invariant table.Valid() && fresh(table) && fresh(table.elements)
      invariant table.Contents() == Fixed.CountAll(words[..i])
    {
      assert words[..i + 1][..i] == words[..i];
      CountWord(table, words[i]);
    }
    assert words[..|words|] == words;
    Fixed.CountsAlwaysExact(words);
  }

  method CountWord(table: CorrectedTable, word: string)
    requires table.Valid()
    modifies table, table.elements
    ensures table.Valid() && table.Contents() == Fixed.Count(old(table.Contents()), word)
    ensures table.elements == old(table.elements) || fresh(table.elements)
  {
    var r := table.GetElement(word);
    if r.Found? {
      ghost var s := table.elements[..];
      OccupiedUpdate(s, r.i, Taken(word, s[r.i].value + 1));
      table.elements[r.i] := Taken(table.elements[r.i].key, table.elements[r.i].value + 1);
      assert table.elements[..] == s[r.i := Taken(word, s[r.i].value + 1)];
    } else {
      table.AddElement(word, 1);
    }
  }
}
