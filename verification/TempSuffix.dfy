/**
  The suffix generator of temporary directory names: a 32-bit linear
  congruential generator that reseeds itself when its state is zero.
  */
module TempSuffix {
  import opened Wrappers

  const WORD := 0x1_0000_0000
  const MULTIPLIER := 1664525
  const INCREMENT := 1013904223
  const BILLION := 1000000000

  type Word = x: int | 0 <= x < WORD

  // uint32 arithmetic wraps around.
  function Advance(r: Word): Word {
    (r * MULTIPLIER + INCREMENT) % WORD
  }

  lemma FirstStates()
    ensures Advance(0) == 1013904223 && Advance(1) == 1015568748 && Advance(0xffff_ffff) == 1012239698
  {
  }

  function Iterate(r: Word, n: nat): Word {
    if n == 0 then r else Advance(Iterate(r, n - 1))
  }

  lemma {:induction false} IterateAdd(x: Word, m: nat, n: nat)
    ensures Iterate(Iterate(x, m), n) == Iterate(x, m + n)
  {
    if n > 0 {
      IterateAdd(x, m, n - 1);
    }
  }

  // The closed form of n steps, over the unbounded integers.

  function Power(n: nat): nat {
    if n == 0 then 1 else Power(n - 1) * MULTIPLIER
  }

  // 1 + a + ... + a^(n-1) for the multiplier a
  function Sum(n: nat): nat {
    if n == 0 then 0 else Sum(n - 1) * MULTIPLIER + 1
  }

  function Gap(x: nat): nat {
    (MULTIPLIER - 1) * x + INCREMENT
  }

  lemma ClosedStep(x: Word, y: Word, s: nat, g: nat, k: int) returns (k': int)
    requires y == x + s * g + k * WORD && g == Gap(x)
    ensures Advance(y) == x + (s * MULTIPLIER + 1) * g + k' * WORD
  {
    var z := y * MULTIPLIER + INCREMENT;
    k' := k * MULTIPLIER - z / WORD;
    var d := s * g;
    assert (s * MULTIPLIER + 1) * g == d * MULTIPLIER + g;
    assert z == (x + d + k * WORD) * MULTIPLIER + INCREMENT;
  }

  // n steps from x reach x + Sum(n) * Gap(x), up to multiples of the word.
  lemma {:induction false} IterateClosed(x: Word, n: nat) returns (k: int)
    ensures Iterate(x, n) == x + Sum(n) * Gap(x) + k * WORD
  {
    if n == 0 {
      k := 0;
    } else {
      k := IterateClosed(x, n - 1);
      k := ClosedStep(x, Iterate(x, n - 1), Sum(n - 1), Gap(x), k);
    }
  }

  // Divisibility by powers of two, by halving.
  predicate Halves(k: nat, n: nat) {
    k == 0 || (n % 2 == 0 && Halves(k - 1, n / 2))
  }

  lemma {:induction false} OddFactor(k: nat, n: nat, w: nat)
    requires w % 2 == 1
    ensures Halves(k, n * w) <==> Halves(k, n)
  {
    if k > 0 {
      var v := w / 2;
      assert n * w == 2 * (n * v) + n;
      if n % 2 == 0 {
        assert n * w == 2 * ((n / 2) * w);
        OddFactor(k - 1, n / 2, w);
      }
    }
  }

  lemma {:induction false} PowerModFour(n: nat) returns (q: nat)
    ensures Power(n) == 4 * q + 1
  {
    if n == 0 {
      q := 0;
    } else {
      var p := PowerModFour(n - 1);
      q := p * MULTIPLIER + MULTIPLIER / 4;
    }
  }

  lemma {:induction false} SumParity(n: nat) returns (q: nat)
    ensures Sum(n) == 2 * q + n % 2
  {
    if n == 0 {
      q := 0;
    } else {
      var p := SumParity(n - 1);
      q := p * MULTIPLIER + if n % 2 == 0 then (MULTIPLIER + 1) / 2 else 0;
    }
  }

  lemma StepSplit(both: nat, s: nat, p: nat, t: nat)
    requires both == s * p + t
    ensures both * MULTIPLIER + 1 == s * (p * MULTIPLIER) + (t * MULTIPLIER + 1)
  {
    assert s * (p * MULTIPLIER) == (s * p) * MULTIPLIER;
  }

  lemma {:induction false} SumSplit(m: nat, n: nat)
    ensures Sum(m + n) == Sum(m) * Power(n) + Sum(n)
  {
    if n > 0 {
      SumSplit(m, n - 1);
      StepSplit(Sum(m + n - 1), Sum(m), Power(n - 1), Sum(n - 1));
    }
  }

  // t is twice an odd multiple of s.
  ghost predicate TwiceOdd(t: nat, s: nat) {
    exists w: nat :: w % 2 == 1 && t == 2 * (s * w)
  }

  lemma SumOfDouble(m: nat)
    ensures TwiceOdd(Sum(m + m), Sum(m))
  {
    SumSplit(m, m);
    var q := PowerModFour(m);
    Doubling(Sum(m + m), Sum(m), Power(m), q);
  }

  lemma Doubling(total: nat, s: nat, p: nat, q: nat)
    requires total == s * p + s && p == 4 * q + 1
    ensures TwiceOdd(total, s)
  {
    assert s * p == s * (4 * q) + s;
    assert total == 2 * (s * (2 * q + 1));
  }

  lemma HalveTwiceOdd(k: nat, t: nat, s: nat)
    requires k > 0 && TwiceOdd(t, s)
    ensures Halves(k, t) <==> Halves(k - 1, s)
  {
    var w: nat :| w % 2 == 1 && t == 2 * (s * w);
    OddFactor(k - 1, s, w);
  }

  lemma OddIsNotHalved(k: nat, t: nat, p: nat)
    ensures k > 0 && t == 2 * p + 1 ==> !Halves(k, t)
  {
  }

  // Sum(n) and n are divisible by the same powers of two, as a - 1 is a multiple of four.
  lemma {:induction false} SumHalves(k: nat, n: nat)
    ensures Halves(k, Sum(n)) <==> Halves(k, n)
  {
    if k > 0 {
      if n % 2 == 0 {
        assert n / 2 + n / 2 == n;
        SumOfDouble(n / 2);
        HalveTwiceOdd(k, Sum(n), Sum(n / 2));
        SumHalves(k - 1, n / 2);
      } else {
        var p := SumParity(n);
        OddIsNotHalved(k, Sum(n), p);
      }
    }
  }

  function TwoTo(k: nat): nat
    ensures TwoTo(k) > 0
  {
    if k == 0 then 1 else 2 * TwoTo(k - 1)
  }

  lemma {:induction false} HalvesMultiple(k: nat, q: nat)
    ensures Halves(k, q * TwoTo(k))
  {
    if k > 0 {
      assert q * TwoTo(k) == 2 * (q * TwoTo(k - 1));
      HalvesMultiple(k - 1, q);
    }
  }

  lemma {:induction false} HalvesQuotient(k: nat, n: nat) returns (q: nat)
    requires Halves(k, n)
    ensures n == q * TwoTo(k)
  {
    if k == 0 {
      q := n;
    } else {
      q := HalvesQuotient(k - 1, n / 2);
    }
  }

  lemma WordIsTwoTo32()
    ensures TwoTo(32) == WORD
  {
    assert TwoTo(8) == 0x100;
    assert TwoTo(16) == 0x1_0000;
    assert TwoTo(24) == 0x100_0000;
  }

  lemma HalvesWord(n: nat)
    ensures Halves(32, n) <==> n % WORD == 0
  {
    WordIsTwoTo32();
    if Halves(32, n) {
      var q := HalvesQuotient(32, n);
      assert n == q * WORD;
    }
    if n % WORD == 0 {
      HalvesMultiple(32, n / WORD);
      assert n == (n / WORD) * WORD;
    }
  }

  lemma ProductOnCycle(x: Word, n: nat)
    ensures (Sum(n) * Gap(x)) % WORD == 0 <==> n % WORD == 0
  {
    HalvesWord(Sum(n) * Gap(x));
    OddFactor(32, Sum(n), Gap(x));
    SumHalves(32, n);
    HalvesWord(n);
  }

  lemma SameWord(x: Word, y: Word, d: nat, k: int)
    requires y == x + d + k * WORD
    ensures y == x <==> d % WORD == 0
  {
    var q, r := d / WORD, d % WORD;
    assert y - x == r + (q + k) * WORD;
    if r == 0 {
      assert q + k == 0;
    }
  }

  // The generator has one cycle, of length 2^32: a state recurs after n steps iff 2^32 divides n.
  lemma FullPeriod(x: Word, n: nat)
    ensures Iterate(x, n) == x <==> n % WORD == 0
  {
    var k := IterateClosed(x, n);
    ProductOnCycle(x, n);
    SameWord(x, Iterate(x, n), Sum(n) * Gap(x), k);
  }

  lemma DifferenceMod(i: nat, j: nat)
    requires i <= j
    ensures (j - i) % WORD == 0 <==> i % WORD == j % WORD
  {
    var a, b := i / WORD, j / WORD;
    assert j - i == (b - a) * WORD + (j % WORD - i % WORD);
    if i % WORD == j % WORD {
      MultipleMod(b - a);
    }
  }

  lemma MultipleMod(k: int)
    ensures (k * WORD) % WORD == 0
  {
  }

  // Two iterates of a state are equal exactly if their counts agree modulo the word.
  lemma DistinctIterates(x: Word, i: nat, j: nat)
    ensures Iterate(x, i) == Iterate(x, j) <==> i % WORD == j % WORD
  {
    var k, l := if i <= j then i else j, if i <= j then j else i;
    IterateAdd(x, k, l - k);
    FullPeriod(Iterate(x, k), l - k);
    DifferenceMod(k, l);
  }

  lemma CloseDistinct(x: Word, i: nat, j: nat)
    requires i < j < i + WORD
    ensures Iterate(x, i) != Iterate(x, j)
  {
    IterateAdd(x, i, j - i);
    FullPeriod(Iterate(x, i), j - i);
  }

  // Pigeonhole: n distinct numbers below n are all the numbers below n.

  ghost function Below(n: nat): (s: set<int>)
    ensures forall i :: i in s <==> 0 <= i < n
  {
    if n == 0 then {} else Below(n - 1) + {n - 1}
  }

  lemma {:induction false} BelowSize(n: nat)
    ensures |Below(n)| == n
  {
    if n > 0 {
      BelowSize(n - 1);
      assert n - 1 !in Below(n - 1);
    }
  }

  ghost predicate Distinct(s: seq<int>) {
    forall i, j :: 0 <= i < j < |s| ==> s[i] != s[j]
  }

  ghost function Members(s: seq<int>): (m: set<int>)
    ensures forall y :: y in m <==> y in s
  {
    set y | y in s
  }

  lemma {:induction false} DistinctSize(s: seq<int>)
    requires Distinct(s)
    ensures |Members(s)| == |s|
  {
    if s != [] {
      var rest, last := s[..|s| - 1], s[|s| - 1];
      DistinctSize(rest);
      assert Members(s) == Members(rest) + {last};
    }
  }

  lemma DistinctCovers(s: seq<int>, y: int)
    requires Distinct(s) && 0 <= y < |s|
    requires forall i :: 0 <= i < |s| ==> 0 <= s[i] < |s|
    ensures y in s
  {
    DistinctSize(s);
    BelowSize(|s|);
    if y !in s {
      SubsetSize(Members(s) + {y}, Below(|s|));
    }
  }

  lemma VisitsEveryWord(x: Word, y: Word)
    ensures exists n: nat :: n < WORD && Iterate(x, n) == y
  {
    var n: nat := WORD;
    var s: seq<int> := seq(n, i requires 0 <= i < n => Iterate(x, i));
    forall i, j | 0 <= i < j < n
      ensures s[i] != s[j]
    {
      CloseDistinct(x, i, j);
    }
    DistinctCovers(s, y);
  }

  // Runs of the generator between two reseedings: no call starts from state zero.

  ghost predicate NoReseedRun(states: seq<Word>) {
    && |states| > 0
    && forall i :: 0 <= i < |states| - 1 ==> states[i] != 0 && states[i + 1] == Advance(states[i])
  }

  lemma RunGrows(states: seq<Word>)
    ensures NoReseedRun(states) && states[|states| - 1] != 0 ==> NoReseedRun(states + [Advance(states[|states| - 1])])
  {
  }

  lemma {:induction false} RunIsIterate(states: seq<Word>, i: nat)
    requires NoReseedRun(states) && i < |states|
    ensures states[i] == Iterate(states[0], i)
  {
    if i > 0 {
      RunIsIterate(states, i - 1);
    }
  }

  lemma NoReseedRunsDoNotRepeat(states: seq<Word>)
    requires NoReseedRun(states)
    ensures |states| <= WORD
    ensures forall i, j :: 0 <= i < j < |states| ==> states[i] != states[j]
  {
    if |states| > WORD {
      VisitsEveryWord(states[0], 0);
      var n: nat :| n < WORD && Iterate(states[0], n) == 0;
      RunIsIterate(states, n);
    }
    forall i, j | 0 <= i < j < |states|
      ensures states[i] != states[j]
    {
      RunIsIterate(states, i);
      RunIsIterate(states, j);
      CloseDistinct(states[0], i, j);
    }
  }

  // The calls of a run that produced the suffix of value v from a state below m billion.
  ghost function CallsWith(states: seq<Word>, v: nat, m: nat): set<int> {
    set i | 0 <= i < |states| && states[i] % BILLION == v && states[i] / BILLION < m
  }

  lemma {:induction false} FewCallsWith(states: seq<Word>, v: nat, m: nat)
    requires NoReseedRun(states)
    ensures |CallsWith(states, v, m)| <= m
  {
    if m == 0 {
      assert CallsWith(states, v, m) == {};
    } else {
      FewCallsWith(states, v, m - 1);
      NoReseedRunsDoNotRepeat(states);
      var fewer := CallsWith(states, v, m - 1);
      if i :| i in CallsWith(states, v, m) && i !in fewer {
        forall j | j in CallsWith(states, v, m) && j !in fewer
          ensures j == i
        {
          assert states[i] == (m - 1) * BILLION + v == states[j];
        }
        assert CallsWith(states, v, m) == fewer + {i};
      } else {
        assert CallsWith(states, v, m) <= fewer;
        SubsetSize(CallsWith(states, v, m), fewer);
      }
    }
  }

  // The text of a suffix.

  function Digit(d: int): char
    requires 0 <= d < 10
  {
    '0' + d as char
  }

  function Itoa(n: nat): (s: string)
    ensures |s| > 0
    ensures forall c :: c in s ==> '0' <= c <= '9'
  {
    if n < 10 then [Digit(n)] else Itoa(n / 10) + [Digit(n % 10)]
  }

  function TenTo(k: nat): nat {
    if k == 0 then 1 else 10 * TenTo(k - 1)
  }

  lemma {:induction false} ItoaShape(n: nat, k: nat)
    requires TenTo(k) <= n < 2 * TenTo(k)
    ensures |Itoa(n)| == k + 1 && Itoa(n)[0] == '1'
  {
    if k > 0 {
      ItoaShape(n / 10, k - 1);
    }
  }

  lemma {:induction false} ItoaInjective(m: nat, n: nat)
    requires Itoa(m) == Itoa(n)
    ensures m == n
  {
    var a, b := Itoa(m), Itoa(n);
    assert a[|a| - 1] == Digit(m % 10) && b[|b| - 1] == Digit(n % 10);
    if m >= 10 {
      assert a[..|a| - 1] == Itoa(m / 10);
      if n >= 10 {
        assert b[..|b| - 1] == Itoa(n / 10);
        ItoaInjective(m / 10, n / 10);
      }
    }
  }

  // The number that a text of digits writes.
  function Decimal(s: string): int {
    if s == [] then 0 else 10 * Decimal(s[..|s| - 1]) + (s[|s| - 1] as int - '0' as int)
  }

  lemma {:induction false} ItoaWrites(n: nat)
    ensures Decimal(Itoa(n)) == n
  {
    if n >= 10 {
      ItoaWrites(n / 10);
      assert Itoa(n)[..|Itoa(n)| - 1] == Itoa(n / 10);
    }
  }

  lemma {:induction false} LeadingOne(s: string)
    ensures Decimal(['1'] + s) == TenTo(|s|) + Decimal(s)
  {
    if s != [] {
      LeadingOne(s[..|s| - 1]);
      assert (['1'] + s)[..|s|] == ['1'] + s[..|s| - 1];
    }
  }

  // The sum is a uint32 and does not wrap: BILLION + r % BILLION < WORD.
  function Suffix(r: Word): string {
    var n: Word := BILLION + r % BILLION;
    Itoa(n)[1..]
  }

  lemma SuffixShape(r: Word)
    ensures |Suffix(r)| == 9 && Itoa(BILLION + r % BILLION) == ['1'] + Suffix(r)
    ensures forall c :: c in Suffix(r) ==> '0' <= c <= '9'
  {
    assert TenTo(4) == 10000 && TenTo(9) == BILLION;
    var text := Itoa(BILLION + r % BILLION);
    ItoaShape(BILLION + r % BILLION, 9);
    assert forall c :: c in text[1..] ==> c in text;
  }

  lemma SuffixWrites(r: Word)
    ensures Decimal(Suffix(r)) == r % BILLION
  {
    SuffixShape(r);
    LeadingOne(Suffix(r));
    ItoaWrites(BILLION + r % BILLION);
    assert TenTo(4) == 10000 && TenTo(9) == BILLION;
  }

  // Nine decimal digits that write the state modulo a billion, equal exactly when the states agree
  // modulo that.
  lemma SuffixText(r: Word, q: Word)
    ensures |Suffix(r)| == 9 && forall c :: c in Suffix(r) ==> '0' <= c <= '9'
    ensures Decimal(Suffix(r)) == r % BILLION
    ensures Suffix(r) == Suffix(q) <==> r % BILLION == q % BILLION
  {
    SuffixShape(r);
    SuffixShape(q);
    SuffixWrites(r);
    if Suffix(r) == Suffix(q) {
      ItoaInjective(BILLION + r % BILLION, BILLION + q % BILLION);
    }
  }

  ghost function CallsReturning(states: seq<Word>, s: string): set<int> {
    set i | 0 <= i < |states| && Suffix(states[i]) == s
  }

  // Between two reseedings no suffix is returned more than five times.
  lemma SuffixAtMostFiveTimes(states: seq<Word>, s: string)
    requires NoReseedRun(states)
    ensures |CallsReturning(states, s)| <= 5
  {
    var calls := CallsReturning(states, s);
    if calls != {} {
      var k :| k in calls;
      var v := states[k] % BILLION;
      forall i | i in calls
        ensures i in CallsWith(states, v, 5)
      {
        SuffixText(states[i], states[k]);
      }
      FewCallsWith(states, v, 5);
      SubsetSize(calls, CallsWith(states, v, 5));
    }
  }

  // The names tried for a directory, and the states that they were made from. seed(i) is what the
  // clock and the process number give at the i-th opportunity. From the eleventh conflict on the
  // generator is reseeded after each one.

  ghost predicate TriedAt(base: string, prefix: string, tried: seq<string>, states: seq<Word>, k: nat) {
    k < |tried| == |states| && tried[k] == base + "/" + prefix + Suffix(states[k])
  }

  function StateBefore(rand: Word, seed: nat -> Word, states: seq<Word>, k: nat): Word
    requires k <= |states|
  {
    if k == 0 then rand else if k <= 10 then states[k - 1] else seed(2 * k - 11)
  }

  ghost predicate FollowsAt(rand: Word, seed: nat -> Word, states: seq<Word>, k: nat) {
    k < |states| &&
    var before := StateBefore(rand, seed, states, k);
    states[k] == Advance(if before != 0 then before else seed(if k <= 10 then k else 2 * k - 10))
  }

  ghost predicate Trail(rand: Word, seed: nat -> Word, base: string, prefix: string, tried: seq<string>,
                        states: seq<Word>) {
    && |tried| == |states|
    && (forall k :: 0 <= k < |tried| ==> TriedAt(base, prefix, tried, states, k))
    && forall k :: 0 <= k < |states| ==> FollowsAt(rand, seed, states, k)
  }

  // The first eleven states follow each other; each later one is made from a seed of its own. In either
  // case a zero is replaced by one more seed.
  lemma TrailMeans(rand: Word, seed: nat -> Word, base: string, prefix: string, tried: seq<string>,
                   states: seq<Word>, k: nat)
    requires Trail(rand, seed, base, prefix, tried, states) && 0 < k < |states|
    ensures k <= 10 ==> states[k] == Advance(if states[k - 1] != 0 then states[k - 1] else seed(k))
    ensures k > 10 ==> states[k] == Advance(if seed(2 * k - 11) != 0 then seed(2 * k - 11) else seed(2 * k - 10))
    ensures tried[k] == base + "/" + prefix + Suffix(states[k])
  {
    assert TriedAt(base, prefix, tried, states, k) && FollowsAt(rand, seed, states, k);
  }

  lemma TrailMore(rand: Word, seed: nat -> Word, base: string, prefix: string, tried: seq<string>, states: seq<Word>,
                  try: string, state: Word)
    requires Trail(rand, seed, base, prefix, tried, states) && try == base + "/" + prefix + Suffix(state)
    requires FollowsAt(rand, seed, states + [state], |states|)
    ensures Trail(rand, seed, base, prefix, tried + [try], states + [state])
    ensures StateBefore(rand, seed, states + [state], |states| + 1)
            == if |states| < 10 then state else seed(2 * |states| - 9)
  {
    forall k | 0 <= k < |tried| + 1
      ensures TriedAt(base, prefix, tried + [try], states + [state], k)
      ensures FollowsAt(rand, seed, states + [state], k)
    {
      assert k < |tried| ==> TriedAt(base, prefix, tried, states, k) && FollowsAt(rand, seed, states, k);
    }
  }

  // The generator itself, with the package variable as its state.

  datatype Mkdir = Made | AlreadyExists | NoParent | OtherError

  class SuffixSource {
    var rand: Word
    ghost var history: seq<Word>  // the states since the last reseeding, oldest first

    ghost predicate Valid()
      reads this
    {
      NoReseedRun(history) && history[|history| - 1] == rand
    }

    constructor ()
      ensures Valid() && rand == 0
    {
      rand := 0;
      history := [0];
    }

    // seed is what reseed() returns if it is called.
    method NextSuffix(seed: Word) returns (s: string)
      requires Valid()
      modifies this
      ensures Valid()
      ensures rand == Advance(if old(rand) == 0 then seed else old(rand))
      ensures history == if old(rand) == 0 then [rand] else old(history) + [rand]
      ensures s == Suffix(rand) && |s| == 9
    {
      var r := rand;
      if r == 0 {
        r := seed;
      }
      r := (r * MULTIPLIER + INCREMENT) % WORD;
      if rand == 0 {
        history := [r];
      } else {
        RunGrows(history);
        history := history + [r];
      }
      rand := r;
      var n: Word := BILLION + r % BILLION;
      s := Itoa(n)[1..];
      SuffixShape(r);
    }

    // mkdir tells how the filesystem answers for a name. The names tried are returned as well, and
    // the states that they were made from.
    method TempDir(dir: string, prefix: string, mkdir: string -> Mkdir, dirExists: bool, seed: nat -> Word)
      returns (name: string, err: Mkdir, tried: seq<string>, ghost states: seq<Word>)
      requires Valid()
      modifies this
      ensures Valid()
      ensures 0 < |tried| <= 10000
      ensures Trail(old(rand), seed, if dir == "" then "/tmp" else dir, prefix, tried, states)
      ensures forall i :: 0 <= i < |tried| - 1 ==> mkdir(tried[i]) == AlreadyExists
      ensures err == mkdir(tried[|tried| - 1])
      ensures err == AlreadyExists ==> |tried| == 10000
      ensures name == if err == Made then tried[|tried| - 1] else ""
    {
      var base := if dir == "" then "/tmp" else dir;
      var conflicts, seeds := 0, 0;
      name, err, tried, states := "", OtherError, [], [];
      for i := 0 to 10000
        invariant Valid() && |tried| == conflicts == i && name == ""
        invariant Trail(old(rand), seed, base, prefix, tried, states)
        invariant seeds == if i <= 10 then i else 2 * i - 10
        invariant rand == StateBefore(old(rand), seed, states, i)
        invariant forall k :: 0 <= k < i ==> mkdir(tried[k]) == AlreadyExists
        invariant i > 0 ==> err == AlreadyExists
      {
        var suffix := NextSuffix(seed(seeds));
        seeds := seeds + 1;
        var try := base + "/" + prefix + suffix;
        assert FollowsAt(old(rand), seed, states + [rand], i);
        TrailMore(old(rand), seed, base, prefix, tried, states, try, rand);
        tried, states := tried + [try], states + [rand];
        err := mkdir(try);
        if err == AlreadyExists {
          conflicts := conflicts + 1;
          if conflicts > 10 {
            rand := seed(seeds);
            history := [rand];
            seeds := seeds + 1;
          }
          continue;
        }
        if err == NoParent {
          if !dirExists {
            return "", err, tried, states;
          }
        }
        if err == Made {
          name := try;
        }
        break;
      }
    }
  }
}
