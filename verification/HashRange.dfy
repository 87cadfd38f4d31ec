/** The arithmetic of `hash_string` (HW03-Hash/src/hash.c:8-16): where `long long` computes
    the same as unbounded integers, and how a home is computed without large numbers. */
module HashRange {
  import opened Basics
  import opened HashSlots

  /** What `p_pow` is after n letters. */
  function PowerOfP(n: nat): (x: nat)
    ensures x >= 1
  {
    if n == 0 then 1 else P * PowerOfP(n - 1)
  }

  lemma FirstLetter(str: string)
    requires str != ""
    ensures HashString(str) == Letter(str[0]) + P * HashString(str[1..])
  {
  }

  lemma {:induction false} LastLetter(str: string, c: char)
    ensures HashString(str + [c]) == HashString(str) + Letter(c) * PowerOfP(|str|)
  {
    FirstLetter(str + [c]);
    if str == "" {
      assert str + [c] == [c] && [c][1..] == "";
    } else {
      FirstLetter(str);
      LastLetter(str[1..], c);
      assert (str + [c])[1..] == str[1..] + [c];
      hide HashString;
      LastWeight(Letter(c), PowerOfP(|str| - 1));
    }
  }

  /** The last letter weighs most, and its weight is what its code is worth. */
  lemma LastByte(str: string, c: char)
    requires c as int < 256
    ensures var code := c as int;
            var value := if code <= 96 then 96 - code else if code <= 127 then code - 96 else 352 - code;
            HashString(str + [c]) == HashString(str) + value * PowerOfP(|str|)
  {
    hide HashString, Letter;
    LetterOfCode(c);
    LastLetter(str, c);
  }

  lemma LastWeight(x: nat, power: nat)
    ensures P * (x * power) == x * (P * power)
  {
  }

  /** A capital letter counts as well: t, h and e of "The" are 12, 8 and 5. */
  lemma CapitalLetter()
    ensures HashString("The") == 12 + 8 * 53 + 5 * 53 * 53 == 14481
    ensures Home("The", 10) == 1 && Home("i", 10) == 9
  {
    hide HashString;
    FirstLetter("The");
    FirstLetter("he");
    FirstLetter("e");
    FirstLetter("i");
    assert "The"[1..] == "he" && "he"[1..] == "e" && "e"[1..] == "" && "i"[1..] == "";
    NoLetters("");
  }

  lemma NoLetters(str: string)
    ensures HashString(str[..0]) == 0
  {
  }

  // --- Where the machine computes the same ---

  /** The bound of `long long`. */
  const LIMIT: nat := 0x8000_0000_0000_0000

  /** Every character is a byte. */
  predicate Bytes(str: string) {
    forall i :: 0 <= i < |str| ==> str[i] as int < 256
  }

  lemma LetterOfByte(c: char)
    requires c as int < 256
    ensures Letter(c) <= 224
  {
  }

  lemma {:induction false} HashBelow(str: string)
    requires Bytes(str)
    ensures HashString(str) + 5 <= 5 * PowerOfP(|str|)
  {
    if str != "" {
      hide HashString, Letter;
      FirstLetter(str);
      HashBelow(str[1..]);
      LetterOfByte(str[0]);
    }
  }

  lemma {:induction false} PowersGrow(i: nat, n: nat)
    requires i <= n
    ensures PowerOfP(i) <= PowerOfP(n)
    decreases n
  {
    if i < n {
      PowersGrow(i, n - 1);
    }
  }

  lemma PowersOfP()
    ensures 5 * PowerOfP(10) < LIMIT < PowerOfP(11)
  {
    assert PowerOfP(3) == 148877;
    assert PowerOfP(6) == 22164361129;
    assert PowerOfP(9) == 3299763591802133;
  }

  /** `hash` and `p_pow` are in range after the first i characters. */
  predicate FitsAfter(str: string, i: nat)
    requires i <= |str|
  {
    HashString(str[..i]) < LIMIT && PowerOfP(i) < LIMIT
  }

  ghost predicate FitsUpTo(str: string, i: nat)
    requires i <= |str|
  {
    forall k :: 0 <= k <= i ==> FitsAfter(str, k)
  }

  lemma FitsStep(str: string, i: nat)
    requires i < |str|
    ensures FitsUpTo(str, i + 1) <==> FitsUpTo(str, i) && FitsAfter(str, i + 1)
  {
    hide FitsAfter;
  }

  lemma FitsStart(str: string)
    ensures FitsUpTo(str, 0)
  {
    NoLetters(str);
  }

  /** No value `hash` or `p_pow` takes while the word is read overflows `long long`. */
  ghost predicate HashFits(str: string) {
    FitsUpTo(str, |str|)
  }

  /** That is so if and only if the word has at most ten characters. */
  lemma HashInRange(str: string)
    requires Bytes(str)
    ensures HashFits(str) <==> |str| <= 10
  {
    PowersOfP();
    hide HashString, PowerOfP;
    if |str| <= 10 {
      forall i | 0 <= i <= |str| ensures FitsAfter(str, i) {
        HashBelow(str[..i]);
        PowersGrow(i, 10);
      }
    } else {
      PowersGrow(11, |str|);
      assert !FitsAfter(str, |str|);
    }
  }

  ghost predicate InRange(words: seq<string>) {
    forall w :: w in words ==> HashFits(w)
  }

  lemma WordsInRange(words: seq<string>)
    requires forall w :: w in words ==> Bytes(w)
    ensures InRange(words) <==> forall w :: w in words ==> |w| <= 10
  {
    hide HashFits;
    forall w | w in words ensures HashFits(w) <==> |w| <= 10 {
      HashInRange(w);
    }
  }

  // --- What happens beyond the range ---

  /** The value of a 64-bit signed integer that has wrapped around. */
  function Wrapped(x: nat): int {
    var r := x % (2 * LIMIT);
    if r < LIMIT then r else r - 2 * LIMIT
  }

  /** The operator % of C, which takes the sign of the dividend. */
  function Remainder(x: int, n: nat): int
    requires n > 0
  {
    if x >= 0 then x % n else -((-x) % n)
  }

  /** Where two's complement arithmetic wraps around silently, the hash of this word is
      negative and its index lies in front of the table of ten slots. */
  lemma LongWordWraps()
    ensures !HashFits("understanding")
    ensures Wrapped(HashString("understanding")) == -8501457941949801806
    ensures Remainder(Wrapped(HashString("understanding")), 10) == -6
  {
    hide HashString, HashFits;
    HashInRange("understanding");
    LongWordHash();
    WrapOnce(HashString("understanding"));
  }

  lemma EndOfLongWord()
    ensures HashString("ding") == 1081946
  {
    assert HashString("ng") == 385;
  }

  lemma MiddleOfLongWord()
    ensures HashString("rstanding") == 452465051542194
  {
    EndOfLongWord();
    assert HashString("anding") == 3039187057;
    assert HashString("standing") == 8537076444192;
  }

  lemma LongWordHash()
    ensures HashString("understanding") == 3570166892357703211698
  {
    MiddleOfLongWord();
    assert HashString("derstanding") == 1270974329782023215;
  }

  lemma WrapOnce(x: nat)
    requires x == 3570166892357703211698
    ensures Wrapped(x) == -8501457941949801806
  {
    DivUnique(x, 2 * LIMIT, 193, 9945286131759749810);
  }

  // --- Homes without large numbers ---

  lemma SameRemainder(u: nat, k: nat, m: nat)
    requires m > 0
    ensures (u + m * k) % m == u % m
  {
    assert (u / m + k) * m == m * (u / m) + m * k;
    DivUnique(u + m * k, m, u / m + k, u % m);
  }

  lemma Expanded(q: nat, r: nat, a: nat, t: nat, s: nat, m: nat)
    ensures (m * q + r) + a * (m * t + s) == (r + a * s) + m * (q + a * t)
  {
    assert a * (m * t + s) == a * (m * t) + a * s;
    assert a * (m * t) == m * (a * t);
    assert m * (q + a * t) == m * q + m * (a * t);
  }

  lemma ReducedBy(x: nat, a: nat, y: nat, m: nat, q: nat, r: nat, t: nat, s: nat)
    requires m > 0 && x == m * q + r && y == m * t + s
    ensures (r + a * s) % m == (x + a * y) % m
  {
    Expanded(q, r, a, t, s, m);
    SameRemainder(r + a * s, q + a * t, m);
  }

  lemma DividedBy(x: nat, m: nat)
    requires m > 0
    ensures x == m * (x / m) + x % m
  {
  }

  /** One letter of `hash_string` with every value reduced as it is computed. */
  lemma ReducedStep(x: nat, a: nat, y: nat, m: nat)
    requires m > 0
    ensures ((x % m) + a * (y % m)) % m == (x + a * y) % m
  {
    DividedBy(x, m);
    DividedBy(y, m);
    var q, r, t, s := x / m, x % m, y / m, y % m;
    ReducedBy(x, a, y, m, q, r, t, s);
  }

  /** None of those values is large. */
  lemma ReducedValues(h: nat, c: char, power: nat, m: nat)
    requires h < m && power < m && c as int < 256 && 225 * m <= LIMIT
    ensures h + Letter(c) * power < LIMIT && power * P < LIMIT
  {
    LetterOfByte(c);
    assert Letter(c) * power <= 224 * power;
  }
}
