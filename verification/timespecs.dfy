/** POSIX `struct timespec` values and the arithmetic the FreeRTOS+POSIX
    utilities perform on them: validation, comparison, normalisation of a
    signed 64-bit nanosecond count, addition and subtraction.

    `tv_sec` and `tv_nsec` are mathematical integers. The C code relies on
    `int64_t` arithmetic not overflowing; where that matters (addition) the
    requirement is a precondition.
 */
module Timespecs {
  import opened Pointers
  import opened CArith

  const NANOSECONDS_PER_SECOND: int := 1_000_000_000

  datatype Timespec = Timespec(tv_sec: int, tv_nsec: int)

  /** The normalisation invariant: the nanoseconds field lies in [0, 1e9). */
  predicate Valid(t: Timespec) {
    0 <= t.tv_nsec < NANOSECONDS_PER_SECOND
  }

  /** The nanosecond value a timespec denotes. */
  function Nanoseconds(t: Timespec): int {
    t.tv_sec * NANOSECONDS_PER_SECOND + t.tv_nsec
  }

  /** Reference normal form of a nanosecond count, by Euclidean division. */
  function NormalForm(n: int): (t: Timespec)
    ensures Valid(t) && Nanoseconds(t) == n
  {
    Timespec(n / NANOSECONDS_PER_SECOND, n % NANOSECONDS_PER_SECOND)
  }

  /** A valid timespec is the only valid one with its nanosecond value. */
  lemma NormalFormUnique(t: Timespec)
    ensures Valid(t) ==> NormalForm(Nanoseconds(t)) == t
  {
    if Valid(t) {
      DivModUnique(Nanoseconds(t), NANOSECONDS_PER_SECOND, t.tv_sec, t.tv_nsec);
    }
  }

  /** UTILS_ValidateTimespec: NULL is invalid; otherwise only `tv_nsec` is checked. */
  function ValidateTimespec(t: Option<Timespec>): (r: bool)
    ensures r <==> t.Some? && Valid(t.value)
  {
    if t.None? then false
    else t.value.tv_nsec >= 0 && t.value.tv_nsec < NANOSECONDS_PER_SECOND
  }

  /** Lexicographic order on (tv_sec, tv_nsec). */
  predicate LexLess(a: Timespec, b: Timespec) {
    a.tv_sec < b.tv_sec || (a.tv_sec == b.tv_sec && a.tv_nsec < b.tv_nsec)
  }

  /** UTILS_TimespecCompare: -1, 0 or 1; NULL sorts below every timespec. */
  function TimespecCompare(x: Option<Timespec>, y: Option<Timespec>): (r: int)
    ensures r == -1 || r == 0 || r == 1
    ensures x.None? && y.None? ==> r == 0
    ensures x.Some? && y.None? ==> r == 1
    ensures x.None? && y.Some? ==> r == -1
    ensures x.Some? && y.Some? ==> (r == 0 <==> x.value == y.value)
    ensures x.Some? && y.Some? ==> (r == -1 <==> LexLess(x.value, y.value))
    ensures x.Some? && y.Some? ==> (r == 1 <==> LexLess(y.value, x.value))
  {
    if x.None? && y.None? then 0
    else if y.None? then 1
    else if x.None? then -1
    else
      var a, b := x.value, y.value;
      if a.tv_sec > b.tv_sec then 1
      else if a.tv_sec < b.tv_sec then -1
      else if a.tv_nsec > b.tv_nsec then 1
      else if a.tv_nsec < b.tv_nsec then -1
      else 0
  }

  /** UTILS_NanosecondsToTimespec: truncating division and remainder by 1e9,
      then a carry out of `tv_sec` when the remainder is negative. */
  function NanosecondsToTimespec(n: int): (t: Timespec)
    requires IsInt64(n)
    ensures Valid(t)
    ensures Nanoseconds(t) == n
    ensures IsInt64(t.tv_sec) && t.tv_nsec <= INT32_MAX
    ensures t == NormalForm(n)
  {
    TruncDivMod(n, NANOSECONDS_PER_SECOND);
    var sec := TruncDiv(n, NANOSECONDS_PER_SECOND);
    var nsec := TruncMod(n, NANOSECONDS_PER_SECOND);
    var t :=
      if nsec < 0 then
        var carry := TruncDiv(nsec, NANOSECONDS_PER_SECOND) + 1;
        Timespec(sec - carry, nsec + carry * NANOSECONDS_PER_SECOND)
      else
        Timespec(sec, nsec);
    NormalFormUnique(t);
    t
  }

  /** The carry `tv_nsec / 1e9 + 1` taken for a negative remainder is always one second. */
  lemma CarryIsOneSecond(n: int)
    requires IsInt64(n)
    requires TruncMod(n, NANOSECONDS_PER_SECOND) < 0
    ensures TruncDiv(TruncMod(n, NANOSECONDS_PER_SECOND), NANOSECONDS_PER_SECOND) + 1 == 1
  {
    TruncDivMod(n, NANOSECONDS_PER_SECOND);
  }

  /** Nanosecond values that the 64-bit sum in UTILS_TimespecAdd can hold. */
  predicate SumFits(x: Option<Timespec>, y: Option<Timespec>) {
    && (x.Some? ==> IsInt64(Nanoseconds(x.value)))
    && (y.Some? ==> IsInt64(Nanoseconds(y.value)))
    && (x.Some? && y.Some? ==> IsInt64(Nanoseconds(x.value) + Nanoseconds(y.value)))
  }

  /** UTILS_TimespecAdd: -1 on a NULL argument; otherwise the normalised sum,
      with status 1 exactly when the 64-bit nanosecond sum is negative. */
  function TimespecAdd(x: Option<Timespec>, y: Option<Timespec>, dest: Option<Timespec>): (r: Written<Timespec>)
    requires x.Some? && y.Some? && dest.Some? ==> SumFits(x, y)
    ensures x.None? || y.None? || dest.None? ==> r == Written(-1, dest)
    ensures x.Some? && y.Some? && dest.Some? ==>
      && r.dest.Some?
      && Valid(r.dest.value)
      && Nanoseconds(r.dest.value) == Nanoseconds(x.value) + Nanoseconds(y.value)
      && (r.status == 1 <==> Nanoseconds(x.value) + Nanoseconds(y.value) < 0)
      && (r.status == 0 <==> Nanoseconds(x.value) + Nanoseconds(y.value) >= 0)
  {
    if dest.None? || x.None? || y.None? then Written(-1, dest)
    else
      var sum := (x.value.tv_sec * NANOSECONDS_PER_SECOND + x.value.tv_nsec)
               + (y.value.tv_sec * NANOSECONDS_PER_SECOND + y.value.tv_nsec);
      Written(if sum < 0 then 1 else 0, Some(NanosecondsToTimespec(sum)))
  }

  /** Addition yields the same result with its operands swapped. */
  lemma AddCommutes(x: Option<Timespec>, y: Option<Timespec>, dest: Option<Timespec>)
    requires x.Some? && y.Some? && dest.Some? ==> SumFits(x, y)
    ensures TimespecAdd(x, y, dest) == TimespecAdd(y, x, dest)
  {
  }

  /** UTILS_TimespecAddNanoseconds: -1 on a NULL argument; otherwise `x` plus
      the normalised form of `n`. */
  function TimespecAddNanoseconds(x: Option<Timespec>, n: int, dest: Option<Timespec>): (r: Written<Timespec>)
    requires IsInt64(n)
    requires x.Some? && dest.Some? ==> IsInt64(Nanoseconds(x.value)) && IsInt64(Nanoseconds(x.value) + n)
    ensures r == TimespecAdd(x, Some(NanosecondsToTimespec(n)), dest)
    ensures x.None? || dest.None? ==> r == Written(-1, dest)
    ensures x.Some? && dest.Some? ==>
      && r.dest.Some?
      && Valid(r.dest.value)
      && Nanoseconds(r.dest.value) == Nanoseconds(x.value) + n
      && (r.status == 1 <==> Nanoseconds(x.value) + n < 0)
  {
    if dest.None? || x.None? then Written(-1, dest)
    else
      var y := NanosecondsToTimespec(n);
      TimespecAdd(x, Some(y), dest)
  }

  /** UTILS_TimespecSubtract: -1 on a NULL argument, 1 (nothing written) when
      `x` is earlier than `y`, (0, 0) when they are equal, otherwise the
      field-wise difference with one borrow, and -1 if `tv_nsec` is still
      negative after the borrow. */
  function TimespecSubtract(x: Option<Timespec>, y: Option<Timespec>, dest: Option<Timespec>): (r: Written<Timespec>)
    ensures r.status == -1 || r.status == 0 || r.status == 1
    ensures x.None? || y.None? || dest.None? ==> r == Written(-1, dest)
    ensures r.status == 1 <==> x.Some? && y.Some? && dest.Some? && TimespecCompare(x, y) == -1
    ensures r.status == 1 ==> r.dest == dest
    ensures x.Some? && y.Some? && dest.Some? && x == y ==> r == Written(0, Some(Timespec(0, 0)))
    ensures r.status == -1 <==>
      || x.None? || y.None? || dest.None?
      || (TimespecCompare(x, y) == 1 && x.value.tv_nsec - y.value.tv_nsec < -NANOSECONDS_PER_SECOND)
    ensures x.Some? && y.Some? && dest.Some? && TimespecCompare(x, y) == 1 ==>
      var borrow := x.value.tv_nsec < y.value.tv_nsec;
      && r.dest.Some?
      && r.dest.value.tv_sec == x.value.tv_sec - y.value.tv_sec - (if borrow then 1 else 0)
      && r.dest.value.tv_nsec == x.value.tv_nsec - y.value.tv_nsec + (if borrow then NANOSECONDS_PER_SECOND else 0)
    ensures x.Some? && y.Some? && dest.Some? && r.status != 1 ==>
      r.dest.Some? && Nanoseconds(r.dest.value) == Nanoseconds(x.value) - Nanoseconds(y.value)
    ensures x.Some? && y.Some? && dest.Some? && Valid(x.value) && Valid(y.value) && TimespecCompare(x, y) != -1 ==>
      && r.status == 0
      && r.dest == Some(NormalForm(Nanoseconds(x.value) - Nanoseconds(y.value)))
      && r.dest.value.tv_sec >= 0
  {
    if dest.None? || x.None? || y.None? then Written(-1, dest)
    else
      var c := TimespecCompare(x, y);
      if c == -1 then Written(1, dest)
      else if c == 0 then Written(0, Some(Timespec(0, 0)))
      else
        var a, b := x.value, y.value;
        var diff := Timespec(a.tv_sec - b.tv_sec, a.tv_nsec - b.tv_nsec);
        var borrowed :=
          if diff.tv_nsec < 0 then Timespec(diff.tv_sec - 1, diff.tv_nsec + NANOSECONDS_PER_SECOND)
          else diff;
        NormalFormUnique(borrowed);
        if borrowed.tv_nsec < 0 then Written(-1, Some(borrowed))
        else Written(0, Some(borrowed))
  }

  /** A timespec passes validation exactly when it is the normal form of its
      own nanosecond value. */
  lemma ValidIffNormalised(t: Timespec)
    requires IsInt64(Nanoseconds(t))
    ensures ValidateTimespec(Some(t)) <==> NanosecondsToTimespec(Nanoseconds(t)) == t
  {
    NormalFormUnique(t);
  }

  /** Validation never looks at `tv_sec`. */
  lemma ValidateIgnoresSeconds(s1: int, s2: int, nsec: int)
    ensures ValidateTimespec(Some(Timespec(s1, nsec))) == ValidateTimespec(Some(Timespec(s2, nsec)))
  {
  }

  /** A negative count borrows a whole second: -1 ns is one second back plus 999999999 ns. */
  lemma MinusOneNanosecond()
    ensures NanosecondsToTimespec(-1) == Timespec(-1, 999_999_999)
  {
  }

  lemma CompareAntisymmetric(x: Option<Timespec>, y: Option<Timespec>)
    ensures TimespecCompare(x, y) == -TimespecCompare(y, x)
  {
  }

  lemma CompareTransitive(x: Option<Timespec>, y: Option<Timespec>, z: Option<Timespec>)
    requires TimespecCompare(x, y) == -1 && TimespecCompare(y, z) == -1
    ensures TimespecCompare(x, z) == -1
  {
  }

  /** On valid timespecs the lexicographic comparison is the comparison of
      nanosecond values. */
  lemma CompareMatchesNanoseconds(a: Timespec, b: Timespec)
    requires Valid(a) && Valid(b)
    ensures TimespecCompare(Some(a), Some(b)) == -1 <==> Nanoseconds(a) < Nanoseconds(b)
    ensures TimespecCompare(Some(a), Some(b)) == 0 <==> Nanoseconds(a) == Nanoseconds(b)
    ensures TimespecCompare(Some(a), Some(b)) == 1 <==> Nanoseconds(a) > Nanoseconds(b)
  {
    NormalFormUnique(a);
    NormalFormUnique(b);
  }

  /** The "still negative after borrow" error is reachable only from an
      invalid operand. */
  lemma SubtractFailsOnlyOnInvalid(x: Timespec, y: Timespec, dest: Timespec)
    requires TimespecSubtract(Some(x), Some(y), Some(dest)).status == -1
    ensures !Valid(x) || !Valid(y)
  {
  }

  /** An operand outside the normalisation invariant does reach that error. */
  lemma SubtractFailsOnInvalidExample()
    ensures TimespecSubtract(Some(Timespec(1, -1_500_000_000)), Some(Timespec(0, 0)), Some(Timespec(0, 0))).status == -1
  {
  }

  /** Subtracting `y` and adding it back gives `x` again, for valid `x` not earlier than `y`. */
  lemma SubtractThenAdd(x: Timespec, y: Timespec, d1: Timespec, d2: Timespec)
    requires Valid(x) && Valid(y) && TimespecCompare(Some(x), Some(y)) != -1
    requires IsInt64(Nanoseconds(x)) && IsInt64(Nanoseconds(y)) && IsInt64(Nanoseconds(x) - Nanoseconds(y))
    ensures var diff := TimespecSubtract(Some(x), Some(y), Some(d1)).dest;
      && diff.Some?
      && SumFits(Some(y), diff)
      && TimespecAdd(Some(y), diff, Some(d2)).dest == Some(x)
  {
    CompareMatchesNanoseconds(x, y);
    NormalFormUnique(x);
  }
}
