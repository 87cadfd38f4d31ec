/** Polynomials over GF(2) as lists of coefficients, highest power first, and
    the feedback shift register that divides by the CRC-32 generator
    (section 8.1.1.6.2 of ITU-T V.42). */
module ShiftRegister {

  type Bits = seq<bool>

  function Zeros(n: nat): (z: Bits)
    ensures |z| == n && forall i :: 0 <= i < n ==> !z[i]
  {
    seq(n, i => false)
  }

  function Xor(a: Bits, b: Bits): (r: Bits)
    requires |a| == |b|
    ensures |r| == |a| && forall i :: 0 <= i < |a| ==> r[i] == (a[i] != b[i])
  {
    seq(|a|, i requires 0 <= i < |a| => a[i] != b[i])
  }

  /** x^26 + x^23 + x^22 + x^16 + x^12 + x^11 + x^10 + x^8 + x^7 + x^5 + x^4 + x^2 + x + 1:
      the generator without its leading x^32, from x^31 down to x^0. */
  function Generator(): (g: Bits)
    ensures |g| == 32
  {
    seq(32, i => 31 - i in {26, 23, 22, 16, 12, 11, 10, 8, 7, 5, 4, 2, 1, 0})
  }

  type Register = r: Bits | |r| == 32 witness seq(32, i => false)

  /** The input bit and the bit that leaves the register decide the feedback. */
  function FeedBit(r: Register, b: bool): Register {
    if r[0] != b then Xor(r[1..] + [false], Generator()) else r[1..] + [false]
  }

  function Feed(r: Register, bits: Bits): Register
    decreases |bits|
  {
    if bits == [] then r else Feed(FeedBit(r, bits[0]), bits[1..])
  }

  lemma {:induction false} FeedConcat(r: Register, a: Bits, b: Bits)
    ensures Feed(r, a + b) == Feed(Feed(r, a), b)
    decreases |a|
  {
    if a == [] {
      assert a + b == b;
    } else {
      assert (a + b)[1..] == a[1..] + b;
      FeedConcat(FeedBit(r, a[0]), a[1..], b);
    }
  }

  // --- Linearity and invertibility ---

  lemma FeedBitLinear(r: Register, s: Register, b: bool, d: bool)
    ensures FeedBit(Xor(r, s), b != d) == Xor(FeedBit(r, b), FeedBit(s, d))
  {
  }

  /** Feeding is linear in the register and the input together. */
  lemma {:induction false} FeedLinear(r: Register, s: Register, a: Bits, b: Bits)
    requires |a| == |b|
    ensures Feed(Xor(r, s), Xor(a, b)) == Xor(Feed(r, a), Feed(s, b))
    decreases |a|
  {
    if a != [] {
      FeedBitLinear(r, s, a[0], b[0]);
      assert Xor(a, b)[1..] == Xor(a[1..], b[1..]);
      FeedLinear(FeedBit(r, a[0]), FeedBit(s, b[0]), a[1..], b[1..]);
    }
  }

  /** Feeding the register its own leading bits switches the feedback off. */
  lemma {:induction false} FeedOwnBits(r: Register, k: nat)
    requires k <= 32
    ensures Feed(r, r[..k]) == r[k..] + Zeros(k)
    decreases k
  {
    if k > 0 {
      var next := FeedBit(r, r[0]);
      assert next == r[1..] + [false];
      assert r[..k][1..] == next[..k - 1];
      FeedOwnBits(next, k - 1);
      assert next[k - 1..] + Zeros(k - 1) == r[k..] + Zeros(k);
    }
  }

  /** At most 32 bits act as if mixed into the leading end of the register:
      what is shifted out decides an independent contribution. */
  lemma FeedSplits(r: Register, bits: Bits)
    requires |bits| <= 32
    ensures Feed(r, bits)
         == Xor(r[|bits|..] + Zeros(|bits|), Feed(Zeros(32), Xor(r[..|bits|], bits)))
  {
    var k := |bits|;
    assert Xor(r, Zeros(32)) == r;
    assert Xor(r[..k], Xor(r[..k], bits)) == bits;
    FeedLinear(r, Zeros(32), r[..k], Xor(r[..k], bits));
    FeedOwnBits(r, k);
  }

  lemma {:induction false} FeedZeros(n: nat)
    ensures Feed(Zeros(32), Zeros(n)) == Zeros(32)
  {
    if n > 0 {
      assert FeedBit(Zeros(32), false) == Zeros(32);
      assert Zeros(n)[1..] == Zeros(n - 1);
      FeedZeros(n - 1);
    }
  }

  /** What the register already holds and what is fed contribute independently. */
  lemma FeedSeparates(r: Register, bits: Bits)
    ensures Feed(r, bits) == Xor(Feed(r, Zeros(|bits|)), Feed(Zeros(32), bits))
  {
    var z := Zeros(|bits|);
    FeedLinear(r, Zeros(32), z, bits);
    assert Xor(r, Zeros(32)) == r && Xor(z, bits) == bits;
  }

  /** A register that holds something keeps holding something while zeros are fed. */
  lemma {:induction false} ZerosKeepNonzero(r: Register, n: nat)
    requires r != Zeros(32)
    ensures Feed(r, Zeros(n)) != Zeros(32)
    decreases n
  {
    if n > 0 {
      var next := FeedBit(r, false);
      if r[0] {
        assert next[31];
      } else {
        var i :| 0 <= i < 32 && r[i];
        assert next[i - 1];
      }
      assert Zeros(n)[1..] == Zeros(n - 1);
      ZerosKeepNonzero(next, n - 1);
    }
  }

  /** Feeding is injective in the register. */
  lemma FeedInjective(r: Register, s: Register, bits: Bits)
    requires r != s
    ensures Feed(r, bits) != Feed(s, bits)
  {
    var i :| 0 <= i < 32 && r[i] != s[i];
    assert Xor(r, s)[i];
    FeedLinear(r, s, bits, bits);
    assert Xor(bits, bits) == Zeros(|bits|);
    ZerosKeepNonzero(Xor(r, s), |bits|);
  }

  // --- Any register can be reached in 32 bits ---

  /** The register one zero bit earlier. */
  function Unfeed(r: Register): (s: Register)
    ensures FeedBit(s, false) == r
  {
    if r[31] then
      var s := [true] + Xor(r, Generator())[..31];
      assert FeedBit(s, false) == r by {
        assert Xor(s[1..] + [false], Generator()) == r;
      }
      s
    else
      var s := [false] + r[..31];
      assert FeedBit(s, false) == r;
      s
  }

  function UnfeedZeros(r: Register, n: nat): (s: Register)
    ensures Feed(s, Zeros(n)) == r
    decreases n
  {
    if n == 0 then r else
      var s := UnfeedZeros(Unfeed(r), n - 1);
      assert Feed(s, Zeros(n)) == r by {
        assert Zeros(n) == Zeros(n - 1) + [false];
        FeedConcat(s, Zeros(n - 1), [false]);
      }
      s
  }

  lemma XorCancels(a: Bits, b: Bits)
    requires |a| == |b|
    ensures Xor(a, Xor(a, b)) == b
  {
  }

  /** Thirty-two bits replace whatever the register held. */
  lemma FeedWord(r: Register, bits: Bits)
    requires |bits| == 32
    ensures Feed(r, bits) == Feed(Zeros(32), Xor(r, bits))
  {
    FeedSplits(r, bits);
    assert r[..32] == r && r[32..] + Zeros(32) == Zeros(32);
    var s := Feed(Zeros(32), Xor(r, bits));
    assert Xor(Zeros(32), s) == s;
  }

  /** The 32 bits that take the register from `from` to `target`. */
  function Route(from: Register, target: Register): (bits: Bits)
    ensures |bits| == 32 && Feed(from, bits) == target
  {
    var s := UnfeedZeros(target, 32);
    RouteWorks(from, s);
    Xor(from, s)
  }

  lemma RouteWorks(from: Register, s: Register)
    ensures Feed(from, Xor(from, s)) == Feed(s, Zeros(32))
  {
    FeedWord(from, Xor(from, s));
    FeedWord(s, Zeros(32));
    XorCancels(from, s);
    assert Xor(s, Zeros(32)) == s;
  }

  // --- Burst errors ---

  /** `j` bits after the first error, the register holds something among its
      last `j` places; it cannot be cancelled before 32 bits have gone by. */
  lemma {:induction false} ErrorSurvives(r: Register, j: nat, i: nat, bits: Bits)
    requires j + |bits| <= 32
    requires 32 - j <= i < 32 && r[i]
    ensures Feed(r, bits) != Zeros(32)
    decreases |bits|
  {
    if bits != [] {
      var next := FeedBit(r, bits[0]);
      if r[0] != bits[0] {
        assert next[31];
        ErrorSurvives(next, j + 1, 31, bits[1..]);
      } else {
        ErrorSurvives(next, j + 1, i - 1, bits[1..]);
      }
    }
  }

  lemma {:induction false} BurstNonzero(error: Bits, first: nat)
    requires first < |error| && error[first]
    requires forall i :: 0 <= i < first ==> !error[i]
    requires forall i :: first + 32 <= i < |error| ==> !error[i]
    ensures Feed(Zeros(32), error) != Zeros(32)
    decreases first
  {
    if first > 0 {
      assert FeedBit(Zeros(32), false) == Zeros(32);
      BurstNonzero(error[1..], first - 1);
    } else {
      var n := if |error| < 32 then |error| else 32;
      var burst, rest := error[1..n], error[n..];
      assert error[1..] == burst + rest;
      assert rest == Zeros(|rest|);
      var r := FeedBit(Zeros(32), true);
      assert r[31];
      ErrorSurvives(r, 1, 31, burst);
      FeedConcat(r, burst, rest);
      ZerosKeepNonzero(Feed(r, burst), |rest|);
    }
  }

  function FirstOne(bits: Bits): (f: nat)
    requires exists i :: 0 <= i < |bits| && bits[i]
    ensures f < |bits| && bits[f] && forall i :: 0 <= i < f ==> !bits[i]
  {
    if bits[0] then 0 else
      assert exists i :: 0 <= i < |bits[1..]| && bits[1..][i] by {
        var i :| 0 <= i < |bits| && bits[i];
        assert bits[1..][i - 1];
      }
      1 + FirstOne(bits[1..])
  }

  /** Two inputs of the same length that differ only inside a window of 32 bits
      leave the register in different states, whatever it held before. */
  lemma BurstDetected(r: Register, a: Bits, b: Bits, start: nat)
    requires |a| == |b| && a != b
    requires forall i :: 0 <= i < |a| && !(start <= i < start + 32) ==> a[i] == b[i]
    ensures Feed(r, a) != Feed(r, b)
  {
    var error := Xor(a, b);
    var d :| 0 <= d < |a| && a[d] != b[d];
    assert error[d];
    var f := FirstOne(error);
    BurstNonzero(error, f);
    FeedLinear(r, r, a, b);
    assert Xor(r, r) == Zeros(32);
    var difference := Xor(Feed(r, a), Feed(r, b));
    assert difference != Zeros(32);
    assert exists i :: 0 <= i < 32 && difference[i];
  }

  // --- The register computes a polynomial remainder ---

  /** q * G, where G is x^32 plus `Generator()`: schoolbook multiplication. */
  function TimesGenerator(q: Bits): (p: Bits)
    ensures |p| == |q| + 32
  {
    if q == [] then Zeros(32)
    else
      var rest := [false] + TimesGenerator(q[1..]);
      if q[0] then Xor([true] + Generator() + Zeros(|q| - 1), rest) else rest
  }

  /** `rem` is the remainder, and `q` the quotient, of dividing `p` by G. */
  ghost predicate IsRemainder(p: Bits, q: Bits, rem: Bits) {
    |rem| == 32 && |p| == |q| + 32 && p == Xor(TimesGenerator(q), Zeros(|q|) + rem)
  }

  lemma {:induction false} MultiplesAreLong(q: Bits)
    ensures TimesGenerator(q)[..|q|] == Zeros(|q|) ==> q == Zeros(|q|) && TimesGenerator(q) == Zeros(|q| + 32)
  {
    var p := TimesGenerator(q);
    if q != [] && p[..|q|] == Zeros(|q|) {
      assert p[0] == q[0];
      assert !p[..|q|][0];
      var tail := TimesGenerator(q[1..]);
      assert p == [false] + tail;
      assert forall i :: 0 <= i < |q| - 1 ==> tail[i] == p[..|q|][i + 1];
      assert tail[..|q| - 1] == Zeros(|q| - 1);
      MultiplesAreLong(q[1..]);
    }
  }

  lemma {:induction false} TimesLinear(a: Bits, b: Bits)
    requires |a| == |b|
    ensures TimesGenerator(Xor(a, b)) == Xor(TimesGenerator(a), TimesGenerator(b))
  {
    if a != [] {
      TimesLinear(a[1..], b[1..]);
      assert Xor(a, b)[1..] == Xor(a[1..], b[1..]);
    }
  }

  /** Division by G has exactly one quotient and one remainder of degree below 32. */
  lemma RemainderUnique(p: Bits, q: Bits, rem: Bits, q': Bits, rem': Bits)
    requires IsRemainder(p, q, rem) && IsRemainder(p, q', rem')
    ensures q == q' && rem == rem'
  {
    var n := |q|;
    var d := Xor(q, q');
    TimesLinear(q, q');
    forall i | 0 <= i < n ensures !TimesGenerator(d)[i] {
      assert p[i] == TimesGenerator(q)[i] && p[i] == TimesGenerator(q')[i];
    }
    assert TimesGenerator(d)[..n] == Zeros(n);
    MultiplesAreLong(d);
    assert forall i :: 0 <= i < n ==> q[i] == q'[i] by {
      assert forall i :: 0 <= i < n ==> !d[i];
    }
    assert q == q';
    assert forall i :: 0 <= i < 32 ==> rem[i] == (p[n + i] != TimesGenerator(q)[n + i]);
    assert forall i :: 0 <= i < 32 ==> rem'[i] == (p[n + i] != TimesGenerator(q)[n + i]);
  }

  /** r * x^n + input * x^32: what the register stands for before the input is fed. */
  function Dividend(r: Register, input: Bits): (p: Bits)
    ensures |p| == |input| + 32
  {
    Xor(r + Zeros(|input|), input + Zeros(32))
  }

  /** The bits fed back while the input goes in: the quotient. */
  function Feedback(r: Register, input: Bits): (q: Bits)
    ensures |q| == |input|
    decreases |input|
  {
    if input == [] then [] else [r[0] != input[0]] + Feedback(FeedBit(r, input[0]), input[1..])
  }

  /** G placed at the leading end of n + 1 + 32 coefficients, or nothing. */
  function GeneratorAt(present: bool, n: nat): (p: Bits)
    ensures |p| == n + 33
  {
    if present then [true] + Generator() + Zeros(n) else Zeros(n + 33)
  }

  /** What is fed into the empty register is a multiple of x^32. */
  lemma ZeroDividend(input: Bits)
    ensures Dividend(Zeros(32), input) == input + Zeros(32)
  {
  }

  lemma DividendAt(r: Register, input: Bits, i: nat)
    requires i < |input| + 32
    ensures Dividend(r, input)[i] == ((i < 32 && r[i]) != (i < |input| && input[i]))
  {
  }

  lemma GeneratorBit(present: bool, n: nat, i: nat)
    requires i < n + 33
    ensures GeneratorAt(present, n)[i] == (present && (i == 0 || (i <= 32 && Generator()[i - 1])))
  {
    hide Generator;
  }

  lemma FeedBitAt(r: Register, b: bool, i: nat)
    requires i < 32
    ensures FeedBit(r, b)[i] == ((i < 31 && r[i + 1]) != (r[0] != b && Generator()[i]))
  {
    hide Generator;
  }

  lemma DividendStepAt(r: Register, input: Bits, i: nat)
    requires input != [] && i < |input| + 32
    ensures Dividend(r, input)[i]
         == (GeneratorAt(r[0] != input[0], |input| - 1)[i] != ([false] + Dividend(FeedBit(r, input[0]), input[1..]))[i])
  {
    hide Generator, Dividend, GeneratorAt, FeedBit;
    DividendAt(r, input, i);
    GeneratorBit(r[0] != input[0], |input| - 1, i);
    if i > 0 {
      DividendAt(FeedBit(r, input[0]), input[1..], i - 1);
      if i <= 32 {
        FeedBitAt(r, input[0], i - 1);
      }
    }
  }

  /** One step of the register is one step of the division. */
  lemma DividendStep(r: Register, input: Bits)
    requires input != []
    ensures Dividend(r, input)
         == Xor(GeneratorAt(r[0] != input[0], |input| - 1),
                [false] + Dividend(FeedBit(r, input[0]), input[1..]))
  {
    hide Generator, Dividend, GeneratorAt, FeedBit, Xor;
    var p, g, p' := Dividend(r, input), GeneratorAt(r[0] != input[0], |input| - 1),
                    [false] + Dividend(FeedBit(r, input[0]), input[1..]);
    forall i | 0 <= i < |p| ensures p[i] == Xor(g, p')[i] {
      DividendStepAt(r, input, i);
    }
  }

  lemma XorAssociative(a: Bits, b: Bits, c: Bits)
    requires |a| == |b| == |c|
    ensures Xor(a, Xor(b, c)) == Xor(Xor(a, b), c)
  {
  }

  lemma XorZeros(a: Bits)
    ensures Xor(Zeros(|a|), a) == a
  {
  }

  lemma TimesStep(present: bool, q: Bits)
    ensures TimesGenerator([present] + q) == Xor(GeneratorAt(present, |q|), [false] + TimesGenerator(q))
  {
    hide Generator, Xor, Zeros;
    var p, rest := [present] + q, [false] + TimesGenerator(q);
    assert p[0] == present && p[1..] == q && |p| - 1 == |q|;
    XorZeros(rest);
  }

  lemma QuotientStep(p: Bits, q: Bits, rem: Bits, present: bool)
    requires IsRemainder(p, q, rem)
    ensures IsRemainder(Xor(GeneratorAt(present, |q|), [false] + p), [present] + q, rem)
  {
    var low := Zeros(|q| + 1) + rem;
    assert low == [false] + (Zeros(|q|) + rem);
    assert [false] + p == Xor([false] + TimesGenerator(q), low);
    XorAssociative(GeneratorAt(present, |q|), [false] + TimesGenerator(q), low);
    TimesStep(present, q);
  }

  lemma NothingDivided(r: Register)
    ensures IsRemainder(Dividend(r, []), [], r)
  {
    assert Dividend(r, []) == r;
    assert Zeros(0) + r == r;
  }

  /** After any input the register holds the remainder of the polynomial
      division by G of start * x^n + input * x^32. */
  lemma {:induction false} RegisterIsRemainder(r: Register, input: Bits)
    ensures IsRemainder(Dividend(r, input), Feedback(r, input), Feed(r, input))
    decreases |input|
  {
    if input == [] {
      NothingDivided(r);
    } else {
      hide IsRemainder, Dividend, GeneratorAt, Xor, FeedBit;
      var next, rest := FeedBit(r, input[0]), input[1..];
      RegisterIsRemainder(next, rest);
      DividendStep(r, input);
      QuotientStep(Dividend(next, rest), Feedback(next, rest), Feed(r, input), r[0] != input[0]);
    }
  }

  // --- Exactly which errors go unnoticed ---

  /** e * x^32 is a multiple of G. */
  ghost predicate Multiple(e: Bits) {
    exists q :: |q| == |e| && TimesGenerator(q) == e + Zeros(32)
  }

  lemma XorNothing(a: Bits)
    ensures Xor(a, Zeros(|a|)) == a
  {
  }

  lemma ZerosConcat(m: nat, n: nat)
    ensures Zeros(m) + Zeros(n) == Zeros(m + n)
  {
  }

  lemma ExactDivision(p: Bits, q: Bits)
    requires |p| == |q| + 32
    ensures IsRemainder(p, q, Zeros(32)) <==> TimesGenerator(q) == p
  {
    hide TimesGenerator, Zeros, Xor;
    ZerosConcat(|q|, 32);
    XorNothing(TimesGenerator(q));
  }

  /** The empty register stays empty exactly on the multiples of G. */
  lemma EmptyAfter(e: Bits)
    ensures Feed(Zeros(32), e) == Zeros(32) <==> Multiple(e)
  {
    hide IsRemainder, Dividend, TimesGenerator, Feed, Feedback;
    var p, f := e + Zeros(32), Feedback(Zeros(32), e);
    ZeroDividend(e);
    RegisterIsRemainder(Zeros(32), e);
    if Feed(Zeros(32), e) == Zeros(32) {
      ExactDivision(p, f);
    }
    if q: Bits :| |q| == |e| && TimesGenerator(q) == p {
      ExactDivision(p, q);
      RemainderUnique(p, f, Feed(Zeros(32), e), q, Zeros(32));
    }
  }

  lemma XorZero(a: Bits, b: Bits)
    requires |a| == |b|
    ensures Xor(a, b) == Zeros(|a|) <==> a == b
  {
    if Xor(a, b) == Zeros(|a|) {
      forall i | 0 <= i < |a| ensures a[i] == b[i] {
        assert !Xor(a, b)[i];
      }
    }
  }

  /** Two inputs of the same length leave the same register if and only if their
      difference is a multiple of G: this decides every error, burst or not. */
  lemma UndetectedExactly(r: Register, a: Bits, b: Bits)
    requires |a| == |b|
    ensures Feed(r, a) == Feed(r, b) <==> Multiple(Xor(a, b))
  {
    hide Feed, Multiple;
    FeedLinear(r, r, a, b);
    assert Xor(r, r) == Zeros(32);
    EmptyAfter(Xor(a, b));
    XorZero(Feed(r, a), Feed(r, b));
  }
}
