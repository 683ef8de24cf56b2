// The age-verification circuit: a constraint system over a prime field whose
// output must mean integer month arithmetic, with no wrap-around solution.
module AgeCircuit {
  import opened Powers

  // ---- The field and the comparator library ----

  // A modulus with no zero divisors, that is, a prime; large enough for the
  // 12-bit decompositions below. The BN254 scalar field is one.
  ghost predicate IsField(p: int) {
    p > 0x2000 &&
    forall a, b | 0 <= a < p && 0 <= b < p && (a * b) % p == 0 :: a == 0 || b == 0
  }

  predicate IsElement(p: int, x: int) {
    0 <= x < p
  }

  // Least significant bit first.
  function Weighted(bits: seq<int>): int {
    if |bits| == 0 then 0 else bits[0] + 2 * Weighted(bits[1..])
  }

  // Num2Bits(n): each bit satisfies b * (b - 1) === 0 and the weighted sum is the input.
  ghost predicate Num2Bits(p: int, n: nat, input: int, bits: seq<int>)
    requires p > 0
  {
    |bits| == n
    && (forall i | 0 <= i < n :: IsElement(p, bits[i]) && (bits[i] * (bits[i] - 1)) % p == 0)
    && Weighted(bits) % p == input
  }

  // LessThan(n): one minus the top bit of in0 + 2^n - in1 in n + 1 bits.
  ghost predicate LessThan(p: int, n: nat, in0: int, in1: int, bits: seq<int>, out: int)
    requires p > 0
  {
    Num2Bits(p, n + 1, (in0 + Pow2(n) - in1) % p, bits)
    && out == (1 - bits[n]) % p
  }

  // GreaterEqThan(n)(a, b) is LessThan(n)(b, a + 1).
  ghost predicate GreaterEqThan(p: int, n: nat, a: int, b: int, bits: seq<int>, out: int)
    requires p > 0
  {
    LessThan(p, n, b, (a + 1) % p, bits, out)
  }

  // ---- The circuit ----

  datatype Inputs = Inputs(
    birthYear: int, birthMonth: int, birthDay: int, credentialSecret: int,
    currentYear: int, currentMonth: int, minimumAge: int, credentialHash: int)

  datatype Signals = Signals(
    inp: Inputs, isValid: int,
    yearAge: int, monthDiff: int, monthBits: seq<int>, monthOut: int, age: int,
    ageBits: seq<int>, ageOut: int,
    lowerBits: seq<int>, lowerOut: int, upperBits: seq<int>, upperOut: int, birthYearValid: int)

  type Hash4 = (int, int, int, int) -> int

  predicate InputsAreElements(p: int, i: Inputs) {
    IsElement(p, i.birthYear) && IsElement(p, i.birthMonth) && IsElement(p, i.birthDay)
    && IsElement(p, i.credentialSecret) && IsElement(p, i.currentYear) && IsElement(p, i.currentMonth)
    && IsElement(p, i.minimumAge) && IsElement(p, i.credentialHash)
  }

  predicate HashMatches(poseidon: Hash4, i: Inputs) {
    i.credentialHash == poseidon(i.birthYear, i.birthMonth, i.birthDay, i.credentialSecret)
  }

  ghost predicate Satisfies(p: int, poseidon: Hash4, s: Signals)
    requires p > 0
  {
    var i := s.inp;
    InputsAreElements(p, i)
    && HashMatches(poseidon, i)
    && s.yearAge == (i.currentYear - i.birthYear) % p
    && s.monthDiff == (i.currentMonth - i.birthMonth) % p
    && LessThan(p, 8, i.currentMonth, i.birthMonth, s.monthBits, s.monthOut)
    && s.age == (s.yearAge - s.monthOut) % p
    && GreaterEqThan(p, 8, s.age, i.minimumAge, s.ageBits, s.ageOut)
    && s.isValid == s.ageOut
    && GreaterEqThan(p, 11, i.birthYear, 1900, s.lowerBits, s.lowerOut)
    && LessThan(p, 11, i.birthYear, 2100, s.upperBits, s.upperOut)
    && s.birthYearValid == (s.lowerOut * s.upperOut) % p
    && s.birthYearValid == 1
  }

  // What the verifier checks of the public signals.
  predicate PublicInCalendar(i: Inputs) {
    1 <= i.currentMonth <= 12 && 1900 <= i.currentYear <= 2155 && 0 <= i.minimumAge <= 255
  }

  // And an honest birth date with them.
  predicate InCalendar(i: Inputs) {
    PublicInCalendar(i) && 1 <= i.birthMonth <= 12
  }

  // No constraint bounds the private birth month. The comparator takes a large
  // field element for a negative month.
  function SignedMonth(p: int, i: Inputs): int {
    if i.birthMonth <= 0x1000 then i.birthMonth else i.birthMonth - p
  }

  predicate MonthInReach(p: int, i: Inputs) {
    i.currentMonth - 255 <= SignedMonth(p, i) <= i.currentMonth + 256
  }

  // Completed years, counting months.
  function CompletedYears(p: int, i: Inputs): int {
    i.currentYear - i.birthYear - (if i.currentMonth < SignedMonth(p, i) then 1 else 0)
  }

  // At least minimumAge years old, in whole months.
  predicate OldEnough(i: Inputs) {
    12 * (i.currentYear - i.birthYear) + (i.currentMonth - i.birthMonth) >= 12 * i.minimumAge
  }

  lemma OldEnoughIsCompletedYears(p: int, i: Inputs)
    requires p > 0x2000 && InCalendar(i)
    ensures OldEnough(i) <==> CompletedYears(p, i) >= i.minimumAge
  {
  }

  // ---- Field arithmetic ----

  lemma ModSmall(x: int, p: int)
    requires p > 0
    ensures 0 <= x < p ==> x % p == x
    ensures -p <= x < 0 ==> x % p == x + p
    ensures p <= x < 2 * p ==> x % p == x - p
  {
    if -p <= x < 0 {
      ModUnique(x, p, -1, x + p);
    } else if p <= x < 2 * p {
      ModUnique(x, p, 1, x - p);
    }
  }

  lemma ModUnique(x: int, p: int, q: int, r: int)
    requires p > 0 && 0 <= r < p && x == p * q + r
    ensures x % p == r
  {
    var q', r' := x / p, x % p;
    assert p * (q - q') == r' - r;
    assert q - q' >= 1 ==> p * (q - q') >= p;
    assert q - q' <= -1 ==> p * (q - q') <= -p;
  }

  // ---- Bits ----

  predicate AreBits(bits: seq<int>) {
    forall i | 0 <= i < |bits| :: bits[i] == 0 || bits[i] == 1
  }

  // In a field b * (b - 1) == 0 leaves only 0 and 1.
  lemma BitsAreBits(p: int, n: nat, input: int, bits: seq<int>)
    requires IsField(p) && Num2Bits(p, n, input, bits)
    ensures AreBits(bits)
  {
    forall i | 0 <= i < |bits| ensures bits[i] == 0 || bits[i] == 1 {
      if bits[i] >= 1 {
        var a, b := bits[i], bits[i] - 1;
        assert (a * b) % p == 0;
      }
    }
  }

  lemma {:induction false} WeightedRange(bits: seq<int>)
    requires AreBits(bits)
    ensures 0 <= Weighted(bits) < Pow2(|bits|)
    ensures |bits| > 0 ==> (bits[|bits| - 1] == 1 <==> Weighted(bits) >= Pow2(|bits| - 1))
  {
    if |bits| > 0 {
      WeightedRange(bits[1..]);
    }
  }

  lemma {:induction false} WeightedInjective(a: seq<int>, b: seq<int>)
    requires AreBits(a) && AreBits(b) && |a| == |b| && Weighted(a) == Weighted(b)
    ensures a == b
  {
    if |a| > 0 {
      assert a[0] == Weighted(a) % 2 && b[0] == Weighted(b) % 2;
      WeightedInjective(a[1..], b[1..]);
      assert a == [a[0]] + a[1..] && b == [b[0]] + b[1..];
    }
  }

  function ToBits(n: nat, x: nat): (bits: seq<int>)
    ensures |bits| == n && AreBits(bits)
  {
    if n == 0 then [] else [x % 2] + ToBits(n - 1, x / 2)
  }

  lemma {:induction false} WeightedToBits(n: nat, x: nat)
    requires x < Pow2(n)
    ensures Weighted(ToBits(n, x)) == x
  {
    if n > 0 {
      WeightedToBits(n - 1, x / 2);
    }
  }

  // ---- What a comparator forces, and when it can be satisfied ----

  // The output is 1 exactly when the difference, as a field element, is below
  // 2^n; the bits are determined by it.
  lemma LessThanForces(p: int, n: nat, in0: int, in1: int, bits: seq<int>, out: int)
    requires IsField(p) && Pow2(n + 1) <= p
    requires LessThan(p, n, in0, in1, bits, out)
    ensures var d := (in0 + Pow2(n) - in1) % p;
            d < Pow2(n + 1) && out == (if d < Pow2(n) then 1 else 0) && bits == ToBits(n + 1, d)
  {
    var d := (in0 + Pow2(n) - in1) % p;
    BitsAreBits(p, n + 1, d, bits);
    WeightedRange(bits);
    ModSmall(Weighted(bits), p);
    ModSmall(1 - bits[n], p);
    WeightedToBits(n + 1, d);
    WeightedInjective(bits, ToBits(n + 1, d));
  }

  lemma LessThanHolds(p: int, n: nat, in0: int, in1: int)
    requires IsField(p) && Pow2(n + 1) <= p
    requires (in0 + Pow2(n) - in1) % p < Pow2(n + 1)
    ensures var d := (in0 + Pow2(n) - in1) % p;
            LessThan(p, n, in0, in1, ToBits(n + 1, d), if d < Pow2(n) then 1 else 0)
  {
    var d := (in0 + Pow2(n) - in1) % p;
    var bits := ToBits(n + 1, d);
    WeightedToBits(n + 1, d);
    WeightedRange(bits);
    ModSmall(d, p);
    ModSmall(1 - bits[n], p);
    forall i | 0 <= i < n + 1 ensures (bits[i] * (bits[i] - 1)) % p == 0 {
      assert bits[i] * (bits[i] - 1) == 0;
    }
  }

  lemma PowersUsed()
    ensures Pow2(8) == 256 && Pow2(9) == 512 && Pow2(11) == 2048 && Pow2(12) == 4096
  {
    assert Pow2(4) == 16;
    assert Pow2(8) == 256;
    assert Pow2(11) == 2048;
  }

  // ---- Differences as integers ----

  // The four decomposed differences, for calendar inputs.
  function MonthDifference(p: int, i: Inputs): int { i.currentMonth + 256 - SignedMonth(p, i) }

  function AgeDifference(p: int, i: Inputs): int { i.minimumAge + 255 - CompletedYears(p, i) }

  // GreaterEqThan(11)(birthYear, 1900) and LessThan(11)(birthYear, 2100) both
  // hold exactly for 1900..2099, although 2100 itself needs twelve bits.
  lemma BirthYearWindow(p: int, y: int)
    requires p > 0x2000 && IsElement(p, y)
    ensures (1900 + 2048 - (y + 1) % p) % p < 2048 && (y + 2048 - 2100) % p < 2048 <==> 1900 <= y < 2100
    ensures 1900 <= y < 2100 ==> (1900 + 2048 - (y + 1) % p) % p == 3947 - y && (y + 2048 - 2100) % p == y - 52
  {
    ModSmall(y + 1, p);
    ModSmall(3948 - (y + 1) % p, p);
    ModSmall(y - 52, p);
  }

  // The difference of the months fits the comparator exactly when the month is in reach.
  lemma MonthArithmetic(p: int, i: Inputs)
    requires p > 0x2000 && PublicInCalendar(i) && IsElement(p, i.birthMonth)
    ensures (i.currentMonth + 256 - i.birthMonth) % p < 512 <==> MonthInReach(p, i)
    ensures MonthInReach(p, i) ==> (i.currentMonth + 256 - i.birthMonth) % p == MonthDifference(p, i)
  {
    ModSmall(i.currentMonth + 256 - i.birthMonth, p);
  }

  // No wrap-around: the field differences are the integer ones, up to p.
  lemma AgeArithmetic(p: int, i: Inputs, monthOut: int)
    requires p > 0x2000 && PublicInCalendar(i) && 1900 <= i.birthYear < 2100
    requires monthOut == if i.currentMonth < SignedMonth(p, i) then 1 else 0
    ensures var age := ((i.currentYear - i.birthYear) % p - monthOut) % p;
            (i.minimumAge + 256 - (age + 1) % p) % p == AgeDifference(p, i)
  {
    var y := (i.currentYear - i.birthYear) % p;
    ModSmall(i.currentYear - i.birthYear, p);
    ModSmall(y - monthOut, p);
    var age := (y - monthOut) % p;
    assert age == if CompletedYears(p, i) >= 0 then CompletedYears(p, i) else CompletedYears(p, i) + p;
    ModSmall(age + 1, p);
    ModSmall(i.minimumAge + 256 - (age + 1) % p, p);
  }

  // ---- Each comparator of the circuit, on its own ----

  // The two 11-bit comparators both answer 1 exactly for 1900..2099, and then fix their bits.
  lemma BirthYearComparators(p: int, y: int, lowerBits: seq<int>, lowerOut: int, upperBits: seq<int>, upperOut: int)
    requires IsField(p) && IsElement(p, y)
    requires GreaterEqThan(p, 11, y, 1900, lowerBits, lowerOut) && LessThan(p, 11, y, 2100, upperBits, upperOut)
    requires (lowerOut * upperOut) % p == 1
    ensures 1900 <= y < 2100 && lowerOut == 1 && upperOut == 1
    ensures lowerBits == BitsOf(12, 3947 - y) && upperBits == BitsOf(12, y - 52)
  {
    PowersUsed();
    LessThanForces(p, 11, 1900, (y + 1) % p, lowerBits, lowerOut);
    LessThanForces(p, 11, y, 2100, upperBits, upperOut);
    BothOne(p, lowerOut, upperOut);
    BirthYearWindow(p, y);
    assert (1900 + Pow2(11) - (y + 1) % p) % p == 3947 - y && (y + Pow2(11) - 2100) % p == y - 52;
  }

  lemma BothOne(p: int, a: int, b: int)
    requires p > 1 && (a == 0 || a == 1) && (b == 0 || b == 1) && (a * b) % p == 1
    ensures a == 1 && b == 1
  {
    ModSmall(0, p);
    assert a * b == if a == 1 && b == 1 then 1 else 0;
  }

  lemma MonthComparator(p: int, i: Inputs, bits: seq<int>, out: int)
    requires IsField(p) && PublicInCalendar(i) && IsElement(p, i.birthMonth)
    requires LessThan(p, 8, i.currentMonth, i.birthMonth, bits, out)
    ensures MonthInReach(p, i) && out == (if i.currentMonth < SignedMonth(p, i) then 1 else 0)
    ensures bits == BitsOf(9, MonthDifference(p, i))
  {
    PowersUsed();
    MonthArithmetic(p, i);
    LessThanForces(p, 8, i.currentMonth, i.birthMonth, bits, out);
  }

  // `age` is the field element the circuit computes for the completed years.
  lemma AgeComparator(p: int, i: Inputs, monthOut: int, age: int, bits: seq<int>, out: int)
    requires IsField(p) && PublicInCalendar(i) && 1900 <= i.birthYear < 2100
    requires monthOut == if i.currentMonth < SignedMonth(p, i) then 1 else 0
    requires age == ((i.currentYear - i.birthYear) % p - monthOut) % p
    requires GreaterEqThan(p, 8, age, i.minimumAge, bits, out)
    ensures CompletedYears(p, i) >= i.minimumAge - 256
    ensures out == (if CompletedYears(p, i) >= i.minimumAge then 1 else 0)
    ensures bits == BitsOf(9, AgeDifference(p, i))
  {
    PowersUsed();
    AgeArithmetic(p, i, monthOut);
    LessThanForces(p, 8, i.minimumAge, (age + 1) % p, bits, out);
  }

  // Which private values have a proof with such public ones.
  predicate Admits(p: int, i: Inputs) {
    1900 <= i.birthYear < 2100 && MonthInReach(p, i) && CompletedYears(p, i) >= i.minimumAge - 256
  }

  // The one assignment the inputs allow.
  function Witness(p: int, i: Inputs): Signals
    requires p > 0
  {
    var yearAge := (i.currentYear - i.birthYear) % p;
    var monthOut := if MonthDifference(p, i) < 256 then 1 else 0;
    var ageOut := if AgeDifference(p, i) < 256 then 1 else 0;
    Signals(i, ageOut, yearAge, (i.currentMonth - i.birthMonth) % p,
            BitsOf(9, MonthDifference(p, i)), monthOut, (yearAge - monthOut) % p,
            BitsOf(9, AgeDifference(p, i)), ageOut,
            BitsOf(12, 3947 - i.birthYear), 1, BitsOf(12, i.birthYear - 52), 1, 1)
  }

  function BitsOf(n: nat, x: int): seq<int> {
    if x < 0 then [] else ToBits(n, x)
  }

  // ---- Main results ----

  // In every satisfying assignment the birth year is in 1900..2099, whatever the other inputs.
  lemma BirthYearForced(p: int, poseidon: Hash4, s: Signals)
    requires IsField(p) && Satisfies(p, poseidon, s)
    ensures 1900 <= s.inp.birthYear < 2100
  {
    BirthYearComparators(p, s.inp.birthYear, s.lowerBits, s.lowerOut, s.upperBits, s.upperOut);
  }

  // Every signal of a satisfying assignment is determined by the inputs.
  lemma SignalsForced(p: int, poseidon: Hash4, s: Signals)
    requires IsField(p) && Satisfies(p, poseidon, s) && PublicInCalendar(s.inp)
    ensures 1900 <= s.inp.birthYear < 2100
    ensures MonthInReach(p, s.inp) && CompletedYears(p, s.inp) >= s.inp.minimumAge - 256
    ensures s == Witness(p, s.inp)
  {
    var i := s.inp;
    BirthYearComparators(p, i.birthYear, s.lowerBits, s.lowerOut, s.upperBits, s.upperOut);
    MonthComparator(p, i, s.monthBits, s.monthOut);
    AgeComparator(p, i, s.monthOut, s.age, s.ageBits, s.ageOut);
  }

  // isValid is 1 exactly when the completed years reach the age, and 0
  // otherwise; for a birth month of the calendar that is the age in whole months.
  lemma IsValidMeansOldEnough(p: int, poseidon: Hash4, s: Signals)
    requires IsField(p) && Satisfies(p, poseidon, s) && PublicInCalendar(s.inp)
    ensures s.isValid == if CompletedYears(p, s.inp) >= s.inp.minimumAge then 1 else 0
    ensures InCalendar(s.inp) ==> s.isValid == if OldEnough(s.inp) then 1 else 0
  {
    SignalsForced(p, poseidon, s);
    if InCalendar(s.inp) {
      OldEnoughIsCompletedYears(p, s.inp);
    }
  }

  lemma WitnessMonth(p: int, i: Inputs)
    requires IsField(p) && PublicInCalendar(i) && IsElement(p, i.birthMonth) && MonthInReach(p, i)
    ensures var s := Witness(p, i);
            s.monthOut == (if i.currentMonth < SignedMonth(p, i) then 1 else 0)
            && LessThan(p, 8, i.currentMonth, i.birthMonth, s.monthBits, s.monthOut)
  {
    PowersUsed();
    MonthArithmetic(p, i);
    LessThanHolds(p, 8, i.currentMonth, i.birthMonth);
  }

  lemma WitnessAge(p: int, i: Inputs)
    requires IsField(p) && PublicInCalendar(i)
    requires Admits(p, i)
    ensures var s := Witness(p, i); GreaterEqThan(p, 8, s.age, i.minimumAge, s.ageBits, s.ageOut)
  {
    var s := Witness(p, i);
    PowersUsed();
    AgeArithmetic(p, i, s.monthOut);
    LessThanHolds(p, 8, i.minimumAge, (s.age + 1) % p);
  }

  lemma WitnessYear(p: int, y: int)
    requires IsField(p) && 1900 <= y < 2100
    ensures GreaterEqThan(p, 11, y, 1900, BitsOf(12, 3947 - y), 1) && LessThan(p, 11, y, 2100, BitsOf(12, y - 52), 1)
  {
    PowersUsed();
    BirthYearWindow(p, y);
    LessThanHolds(p, 11, 1900, (y + 1) % p);
    LessThanHolds(p, 11, y, 2100);
  }

  lemma WitnessSatisfies(p: int, poseidon: Hash4, i: Inputs)
    requires IsField(p) && PublicInCalendar(i) && InputsAreElements(p, i) && HashMatches(poseidon, i)
    requires Admits(p, i)
    ensures Satisfies(p, poseidon, Witness(p, i))
  {
    WitnessMonth(p, i);
    WitnessAge(p, i);
    WitnessYear(p, i.birthYear);
    ModSmall(1, p);
  }

  // With calendar public inputs there is a satisfying assignment exactly when
  // the hash matches, the birth year is in 1900..2099, the birth month is
  // within the comparator's reach and the age is at most 256 years short; it
  // is then unique.
  lemma SatisfiableIff(p: int, poseidon: Hash4, i: Inputs)
    requires IsField(p) && PublicInCalendar(i) && InputsAreElements(p, i)
    ensures (exists s: Signals :: s.inp == i && Satisfies(p, poseidon, s))
       <==> HashMatches(poseidon, i) && Admits(p, i)
    ensures forall s: Signals | s.inp == i && Satisfies(p, poseidon, s) :: s == Witness(p, i)
  {
    forall s: Signals | s.inp == i && Satisfies(p, poseidon, s)
      ensures s == Witness(p, i) && Admits(p, i)
    {
      SignalsForced(p, poseidon, s);
    }
    if HashMatches(poseidon, i) && Admits(p, i) {
      WitnessSatisfies(p, poseidon, i);
      assert Witness(p, i).inp == i;
    }
  }

  // In particular an honest holder born no later than the current year can
  // always prove, and the output is the truth.
  lemma HonestHolderCanProve(p: int, poseidon: Hash4, i: Inputs)
    requires IsField(p) && InCalendar(i) && InputsAreElements(p, i) && HashMatches(poseidon, i)
    requires 1900 <= i.birthYear < 2100 && i.birthYear <= i.currentYear
    ensures Satisfies(p, poseidon, Witness(p, i))
    ensures Witness(p, i).isValid == if OldEnough(i) then 1 else 0
  {
    WitnessSatisfies(p, poseidon, i);
    IsValidMeansOldEnough(p, poseidon, Witness(p, i));
  }

  // ---- What the hash binds ----

  // A satisfying assignment opens the public hash: its private inputs hash to it.
  lemma HashIsOpened(p: int, poseidon: Hash4, s: Signals)
    requires p > 0 && Satisfies(p, poseidon, s)
    ensures s.inp.credentialHash
         == poseidon(s.inp.birthYear, s.inp.birthMonth, s.inp.birthDay, s.inp.credentialSecret)
  {
  }

  lemma LessThanIsUnique(p: int, n: nat, in0: int, in1: int, bits: seq<int>, out: int, bits': seq<int>, out': int)
    requires IsField(p) && Pow2(n + 1) <= p
    requires LessThan(p, n, in0, in1, bits, out) && LessThan(p, n, in0, in1, bits', out')
    ensures bits == bits' && out == out'
  {
    LessThanForces(p, n, in0, in1, bits, out);
    LessThanForces(p, n, in0, in1, bits', out');
  }

  lemma SameMonth(p: int, i: Inputs, bits: seq<int>, out: int, bits': seq<int>, out': int)
    requires IsField(p) && LessThan(p, 8, i.currentMonth, i.birthMonth, bits, out)
    requires LessThan(p, 8, i.currentMonth, i.birthMonth, bits', out')
    ensures bits == bits' && out == out'
  {
    PowersUsed();
    LessThanIsUnique(p, 8, i.currentMonth, i.birthMonth, bits, out, bits', out');
  }

  lemma SameComparison(p: int, n: nat, a: int, b: int, bits: seq<int>, out: int, bits': seq<int>, out': int)
    requires IsField(p) && (n == 8 || n == 11)
    requires GreaterEqThan(p, n, a, b, bits, out) && GreaterEqThan(p, n, a, b, bits', out')
    ensures bits == bits' && out == out'
  {
    PowersUsed();
    LessThanIsUnique(p, n, b, (a + 1) % p, bits, out, bits', out');
  }

  lemma SameUpperBound(p: int, y: int, bits: seq<int>, out: int, bits': seq<int>, out': int)
    requires IsField(p) && LessThan(p, 11, y, 2100, bits, out) && LessThan(p, 11, y, 2100, bits', out')
    ensures bits == bits' && out == out'
  {
    PowersUsed();
    LessThanIsUnique(p, 11, y, 2100, bits, out, bits', out');
  }

  // Every signal is a function of the inputs, whatever they are.
  lemma Deterministic(p: int, poseidon: Hash4, s: Signals, t: Signals)
    requires IsField(p) && Satisfies(p, poseidon, s) && Satisfies(p, poseidon, t) && s.inp == t.inp
    ensures s == t
  {
    var i := s.inp;
    SameMonth(p, i, s.monthBits, s.monthOut, t.monthBits, t.monthOut);
    SameComparison(p, 8, s.age, i.minimumAge, s.ageBits, s.ageOut, t.ageBits, t.ageOut);
    SameComparison(p, 11, i.birthYear, 1900, s.lowerBits, s.lowerOut, t.lowerBits, t.lowerOut);
    SameUpperBound(p, i.birthYear, s.upperBits, s.upperOut, t.upperBits, t.upperOut);
  }

  // No two openings of one hash.
  ghost predicate Binding(p: int, poseidon: Hash4) {
    forall a, b, c, d, a', b', c', d' |
      && IsElement(p, a) && IsElement(p, b) && IsElement(p, c) && IsElement(p, d)
      && IsElement(p, a') && IsElement(p, b') && IsElement(p, c') && IsElement(p, d')
      && poseidon(a, b, c, d) == poseidon(a', b', c', d') ::
      a == a' && b == b' && c == c' && d == d'
  }

  predicate SamePublicInputs(i: Inputs, j: Inputs) {
    i.currentYear == j.currentYear && i.currentMonth == j.currentMonth
    && i.minimumAge == j.minimumAge && i.credentialHash == j.credentialHash
  }

  // With a binding hash the public inputs leave no choice: birth date, secret,
  // every signal and the output are those of the one credential hashed.
  lemma HashBinds(p: int, poseidon: Hash4, s: Signals, t: Signals)
    requires IsField(p) && Binding(p, poseidon)
    requires Satisfies(p, poseidon, s) && Satisfies(p, poseidon, t)
    ensures s.inp.credentialHash == t.inp.credentialHash ==>
              && s.inp.birthYear == t.inp.birthYear && s.inp.birthMonth == t.inp.birthMonth
              && s.inp.birthDay == t.inp.birthDay && s.inp.credentialSecret == t.inp.credentialSecret
    ensures SamePublicInputs(s.inp, t.inp) ==> s == t && s.isValid == t.isValid
  {
    HashIsOpened(p, poseidon, s);
    HashIsOpened(p, poseidon, t);
    if SamePublicInputs(s.inp, t.inp) {
      Deterministic(p, poseidon, s, t);
    }
  }

  // A hash nobody issued has no proof.
  lemma UnissuedHashHasNoProof(p: int, poseidon: Hash4, i: Inputs)
    requires IsField(p)
    requires forall a, b, c, d :: poseidon(a, b, c, d) != i.credentialHash
    ensures forall s: Signals | s.inp.credentialHash == i.credentialHash :: !Satisfies(p, poseidon, s)
  {
    forall s: Signals | s.inp.credentialHash == i.credentialHash ensures !Satisfies(p, poseidon, s) {
      if Satisfies(p, poseidon, s) {
        HashIsOpened(p, poseidon, s);
      }
    }
  }
}
