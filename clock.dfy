/**
 * Wall-clock readings. Every `datetime.now()` of the source becomes an
 * `Instant` passed in by the caller; the model never reads a clock itself.
 */
module Clock {

  /** Microseconds within a second, as `datetime` keeps them. */
  type Micros = m: nat | m < 1000000

  /** A clock reading: whole seconds since some epoch, plus microseconds. */
  datatype Instant = Instant(second: nat, micro: Micros)

  /** `a` is not later than `b` (the order that `isoformat()` strings also sort in). */
  predicate NotAfter(a: Instant, b: Instant) {
    a.second < b.second || (a.second == b.second && a.micro <= b.micro)
  }

  predicate IsDigit(c: char) {
    '0' <= c <= '9'
  }

  /** The decimal rendering of `n`, most significant digit first. */
  function Digits(n: nat): (s: string)
    ensures |s| >= 1
    ensures n < 10 <==> |s| == 1
    ensures forall i :: 0 <= i < |s| ==> IsDigit(s[i])
  {
    if n < 10 then ['0' + n as char]
    else Digits(n / 10) + ['0' + (n % 10) as char]
  }

  /** Different numbers never share a rendering. */
  lemma {:induction false} DigitsInjective(a: nat, b: nat)
    ensures Digits(a) == Digits(b) <==> a == b
  {
    if Digits(a) == Digits(b) {
      if 10 <= a {
        var s, t := Digits(a), Digits(b);
        assert s[..|s| - 1] == Digits(a / 10);
        assert t[..|t| - 1] == Digits(b / 10);
        DigitsInjective(a / 10, b / 10);
        assert s[|s| - 1] == '0' + (a % 10) as char;
      }
    }
  }

  /**
   * The second-resolution stamp that names an entry. It depends on the
   * whole seconds only, so two readings within one second give one stamp.
   */
  function Stamp(t: Instant): string {
    Digits(t.second)
  }
}
