/**
  The fraction of a canonical timestamp: nanoseconds printed with nine digits and stripped of trailing zeros.
  A leap second is kept by chrono as second 59 with a billion nanoseconds more, and printed as second 60;
  when a fraction is read, its first nine digits count.
 */
module Timestamps {

  const BILLION: nat := 1_000_000_000

  function Pow10(k: nat): nat {
    if k == 0 then 1 else 10 * Pow10(k - 1)
  }

  /** A number in `k` decimal digits, zeros in front. */
  function Digits(n: nat, k: nat): (r: seq<nat>)
    ensures |r| == k
  {
    if k == 0 then [] else Digits(n / 10, k - 1) + [n % 10]
  }

  function NumberOf(ds: seq<nat>): nat {
    if ds == [] then 0 else 10 * NumberOf(ds[..|ds| - 1]) + ds[|ds| - 1]
  }

  function Strip(ds: seq<nat>): seq<nat> {
    if ds != [] && ds[|ds| - 1] == 0 then Strip(ds[..|ds| - 1]) else ds
  }

  function Zeros(k: nat): (r: seq<nat>)
    ensures |r| == k && forall i :: 0 <= i < k ==> r[i] == 0
  {
    seq(k, i => 0)
  }

  /** Cut or filled up with zeros to `k` digits. */
  function Pad(ds: seq<nat>, k: nat): seq<nat> {
    if |ds| >= k then ds[..k] else ds + Zeros(k - |ds|)
  }

  /** `format!("{:09}")`, which takes ten digits in a leap second. */
  function Width(nanos: nat): nat {
    if nanos < BILLION then 9 else 10
  }

  /** The fraction of `normalize_timestamp`; empty when there is none. */
  function Fraction(nanos: nat): seq<nat> {
    if nanos == 0 then [] else Strip(Digits(nanos, Width(nanos)))
  }

  method PrintFraction(nanos: nat) returns (frac: seq<nat>)
    ensures frac == Fraction(nanos)
  {
    if nanos == 0 { return []; }
    frac := Digits(nanos, Width(nanos));
    while frac != [] && frac[|frac| - 1] == 0
      invariant Strip(frac) == Fraction(nanos)
    {
      frac := frac[..|frac| - 1];
    }
  }

  /** What reading a printed fraction gives, in the same second. */
  function Reread(leap: bool, frac: seq<nat>): nat {
    (if leap then BILLION else 0) + NumberOf(Pad(frac, 9))
  }

  lemma {:induction false} NumUndoesDigits(n: nat, k: nat)
    requires n < Pow10(k)
    ensures NumberOf(Digits(n, k)) == n
  {
    if k > 0 { NumUndoesDigits(n / 10, k - 1); }
  }

  lemma {:induction false} PadUndoesStrip(ds: seq<nat>, k: nat)
    ensures Pad(Strip(ds), k) == Pad(ds, k)
  {
    if ds != [] && ds[|ds| - 1] == 0 {
      var init := ds[..|ds| - 1];
      PadUndoesStrip(init, k);
      assert ds == init + [0];
      assert Pad(init, k) == Pad(ds, k);
    }
  }

  lemma PadSame(ds: seq<nat>)
    ensures Pad(ds, |ds|) == ds
  {
  }

  lemma NineDigits()
    ensures Pow10(9) == BILLION && Pow10(10) == 10 * BILLION
  {
    assert Pow10(3) == 1_000;
    assert Pow10(6) == 1_000 * Pow10(3);
    assert Pow10(9) == 1_000 * Pow10(6);
  }

  /** Reading undoes printing, except that a leap second's tenth digit is lost. */
  lemma RereadFraction(leap: bool, m: nat)
    requires m < BILLION
    ensures !leap ==> Reread(leap, Fraction(m)) == m
    ensures leap ==> Reread(leap, Fraction(BILLION + m)) == BILLION + (BILLION + m) / 10
  {
    NineDigits();
    if leap {
      var n := BILLION + m;
      PadUndoesStrip(Digits(n, 10), 9);
      assert Digits(n, 10)[..9] == Digits(n / 10, 9);
      NumUndoesDigits(n / 10, 9);
    } else if m == 0 {
      PadUndoesStrip(Digits(0, 9), 9);
      NumUndoesDigits(0, 9);
      PadSame(Digits(0, 9));
      assert Strip(Digits(0, 9)) == [] by { ZerosStrip(9); }
    } else {
      PadUndoesStrip(Digits(m, 9), 9);
      PadSame(Digits(m, 9));
      NumUndoesDigits(m, 9);
    }
  }

  lemma {:induction false} ZerosStrip(k: nat)
    ensures Strip(Digits(0, k)) == []
  {
    if k > 0 {
      ZerosStrip(k - 1);
      assert Digits(0, k)[..k - 1] == Digits(0, k - 1);
    }
  }

  /** In a leap second different nanoseconds print differently. */
  lemma LeapFractionInjective(a: nat, b: nat)
    requires BILLION <= a < 2 * BILLION && BILLION <= b < 2 * BILLION && Fraction(a) == Fraction(b)
    ensures a == b
  {
    NineDigits();
    PadUndoesStrip(Digits(a, 10), 10);
    PadUndoesStrip(Digits(b, 10), 10);
    PadSame(Digits(a, 10));
    PadSame(Digits(b, 10));
    NumUndoesDigits(a, 10);
    NumUndoesDigits(b, 10);
  }

  /** The nanoseconds of a reading; `m` is what its fraction says. */
  function Nanos(leap: bool, m: nat): nat {
    if leap then BILLION + m else m
  }

  /** Canonicalising the canonical form changes nothing. */
  predicate Settles(leap: bool, m: nat) {
    Fraction(Reread(leap, Fraction(Nanos(leap, m)))) == Fraction(Nanos(leap, m))
  }

  /** A timestamp settles in one step exactly when it is not in a leap second, with one exception. */
  lemma SettlesExactly(leap: bool, m: nat)
    requires m < BILLION
    ensures Settles(leap, m) <==> !leap || m == 111_111_111
  {
    hide Fraction, Reread;
    RereadFraction(leap, m);
    if leap {
      var n := BILLION + m;
      if Settles(leap, m) { LeapFractionInjective(BILLION + n / 10, n); }
      assert BILLION + n / 10 == n <==> m == 111_111_111;
    }
  }
}
