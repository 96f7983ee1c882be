/**
  The timestamp canonicaliser put together: what chrono reads, printed to the second with the stripped fraction
  and "Z"; and with it the input normaliser.
 */
module Stamps {
  import opened Prelude
  import opened Json
  import opened Normalizer
  import opened Timestamps
  import opened Idempotence
  import N = Nrf

  /** A parsed timestamp: its UTC text up to the second (":60" in a leap second), and its nanoseconds. */
  datatype Reading = Reading(base: string, leap: bool, nanos: nat)

  type Reader = string -> Option<Reading>

  predicate DigitList(ds: seq<nat>) {
    forall i :: 0 <= i < |ds| ==> ds[i] < 10
  }

  function DigitText(ds: seq<nat>): (r: string)
    requires DigitList(ds)
    ensures |r| == |ds| && forall i :: 0 <= i < |r| ==> r[i] == ('0' as int + ds[i]) as char
  {
    seq(|ds|, i requires 0 <= i < |ds| => ('0' as int + ds[i]) as char)
  }

  function FractionText(frac: seq<nat>): string
    requires DigitList(frac)
  {
    if frac == [] then "" else "." + DigitText(frac)
  }

  function StampText(base: string, frac: seq<nat>): string
    requires DigitList(frac)
  {
    base + (FractionText(frac) + "Z")
  }

  lemma {:induction false} DigitsAreDigits(n: nat, k: nat)
    ensures DigitList(Digits(n, k))
  {
    if k > 0 { DigitsAreDigits(n / 10, k - 1); }
  }

  lemma {:induction false} StripKeepsDigits(ds: seq<nat>)
    requires DigitList(ds)
    ensures DigitList(Strip(ds))
  {
    if ds != [] && ds[|ds| - 1] == 0 { StripKeepsDigits(ds[..|ds| - 1]); }
  }

  lemma FractionIsDigits(nanos: nat)
    ensures DigitList(Fraction(nanos))
  {
    hide Digits, Strip;
    DigitsAreDigits(nanos, Width(nanos));
    StripKeepsDigits(Digits(nanos, Width(nanos)));
  }

  /** `normalize_timestamp`, on top of what chrono reads. */
  function Restamped(r: Reading): string {
    FractionIsDigits(Nanos(r.leap, r.nanos));
    StampText(r.base, Fraction(Nanos(r.leap, r.nanos)))
  }

  function StampBy(read: Reader): string -> Option<string> {
    s => match read(s) case None => None case Some(r) => Some(Restamped(r))
  }

  predicate PlainAscii(s: string) {
    forall i :: 0 <= i < |s| ==> ' ' <= s[i] < 127 as char
  }

  /** Text of this second with a fraction and "Z" behind it reads as that second, its first nine digits as nanoseconds. */
  ghost predicate ReadsAll(read: Reader, base: string, leap: bool) {
    forall frac :: DigitList(frac) ==> read(StampText(base, frac)) == Some(Reading(base, leap, NumberOf(Pad(frac, 9))))
  }

  ghost predicate ReadsNone(read: Reader, base: string) {
    forall frac :: DigitList(frac) ==> read(StampText(base, frac)) == None
  }

  /**
    Of chrono: nanoseconds of a second are fewer than a billion, the text up to the second is plain, and a second's
    own canonical texts are either all read, or none of them, as when UTC puts it outside the years 0000 to 9999.
   */
  ghost predicate ReadsItsOwn(read: Reader) {
    forall s :: read(s).Some? ==>
                  && read(s).value.nanos < BILLION && PlainAscii(read(s).value.base)
                  && (ReadsAll(read, read(s).value.base, read(s).value.leap) || ReadsNone(read, read(s).value.base))
  }

  lemma StampTextTells(base: string, a: seq<nat>, b: seq<nat>)
    requires DigitList(a) && DigitList(b) && StampText(base, a) == StampText(base, b)
    ensures a == b
  {
    var x, y := FractionText(a) + "Z", FractionText(b) + "Z";
    assert x == StampText(base, a)[|base|..] == StampText(base, b)[|base|..] == y;
    assert |FractionText(a)| == |FractionText(b)|;
    assert FractionText(a) == x[..|x| - 1] == y[..|y| - 1] == FractionText(b);
    if a != [] {
      assert DigitText(a) == FractionText(a)[1..] == FractionText(b)[1..] == DigitText(b);
      forall i | 0 <= i < |a| ensures a[i] == b[i] {
        assert DigitText(a)[i] == DigitText(b)[i];
      }
    }
  }

  /** A leap second at another fraction than the one that repeats, whose canonical text is read again. */
  predicate Drifts(read: Reader, s: string) {
    read(s).Some? && read(s).value.leap && read(s).value.nanos != 111_111_111 && read(Restamped(read(s).value)).Some?
  }

  lemma ReadAgain(read: Reader, s: string)
    requires ReadsItsOwn(read) && read(s).Some? && read(Restamped(read(s).value)).Some?
    ensures var r := read(s).value;
            ReadsAll(read, r.base, r.leap)
            && read(Restamped(r)).value == Reading(r.base, r.leap, if r.leap then (BILLION + r.nanos) / 10 else r.nanos)
  {
    hide Fraction, StampText, NumberOf, Pad;
    var r := read(s).value;
    var frac := Fraction(Nanos(r.leap, r.nanos));
    FractionIsDigits(Nanos(r.leap, r.nanos));
    assert Restamped(r) == StampText(r.base, frac);
    assert Nanos(r.leap, NumberOf(Pad(frac, 9))) == Reread(r.leap, frac);
    RereadFraction(r.leap, r.nanos);
  }

  /**
    Canonicalising a timestamp twice is the same as once exactly when it is not in a leap second, or in one at
    .111111111, or its canonical text is not read.
   */
  lemma StampSettlesExactly(read: Reader, s: string)
    requires ReadsItsOwn(read) && read(s).Some?
    ensures var once := Restamped(read(s).value);
            read(once).None? || Restamped(read(once).value) == once <==> !Drifts(read, s)
  {
    hide Fraction, StampText, NumberOf, Pad;
    var r := read(s).value;
    var once := Restamped(r);
    if read(once).Some? {
      ReadAgain(read, s);
      var frac := Fraction(Nanos(r.leap, r.nanos));
      FractionIsDigits(Nanos(r.leap, r.nanos));
      var again := read(once).value;
      assert Nanos(again.leap, again.nanos) == Reread(r.leap, frac) by { RereadFraction(r.leap, r.nanos); }
      var frac' := Fraction(Reread(r.leap, frac));
      FractionIsDigits(Reread(r.leap, frac));
      if StampText(r.base, frac') == StampText(r.base, frac) { StampTextTells(r.base, frac', frac); }
      SettlesExactly(r.leap, r.nanos);
    }
  }

  ghost predicate LawfulNfc(nfc: string -> string) {
    && (forall s :: nfc(nfc(s)) == nfc(s))
    && (forall s :: N.BOM !in s ==> N.BOM !in nfc(s))
    && (forall s :: !HasControl(s) ==> !HasControl(nfc(s)))
    && (forall s :: Ascii(s) ==> nfc(s) == s)
  }

  function RulesBy(nfc: string -> string, read: Reader): Rules {
    Rules(nfc, StampBy(read))
  }

  lemma RestampedIsRho(nfc: string -> string, r: Reading)
    requires LawfulNfc(nfc) && PlainAscii(r.base)
    ensures RhoString(nfc, Restamped(r))
  {
    hide Fraction, LawfulNfc;
    FractionIsDigits(Nanos(r.leap, r.nanos));
    var s := Restamped(r);
    forall i | 0 <= i < |s| ensures ' ' <= s[i] < 127 as char {
      if i >= |r.base| { assert s[i] == (FractionText(Fraction(Nanos(r.leap, r.nanos))) + "Z")[i - |r.base|]; }
    }
    assert RhoString(nfc, s) by { PlainIsRho(nfc, s); }
  }

  lemma PlainIsRho(nfc: string -> string, s: string)
    requires LawfulNfc(nfc) && PlainAscii(s)
    ensures RhoString(nfc, s)
  {
    assert Ascii(s);
  }

  lemma RulesAreLawful(nfc: string -> string, read: Reader)
    requires LawfulNfc(nfc) && ReadsItsOwn(read)
    ensures Lawful(RulesBy(nfc, read))
  {
    hide Restamped, RhoString;
    var r := RulesBy(nfc, read);
    forall s | r.stamp(s).Some? ensures RhoString(nfc, r.stamp(s).value) { RestampedIsRho(nfc, read(s).value); }
  }

  lemma RestampTwice(nfc: string -> string, read: Reader, s: string)
    requires ReadsItsOwn(read)
    ensures SettlesOn(RulesBy(nfc, read), s) <==> !Drifts(read, s)
  {
    hide Restamped, ReadsItsOwn;
    if read(s).Some? { StampSettlesExactly(read, s); }
  }

  // ---------------------------------------------------------------- how far a text is from settling

  function Gap(nanos: nat): nat {
    if nanos < 111_111_111 then 111_111_111 - nanos else nanos - 111_111_111
  }

  /** Twice the distance of a leap second's nanoseconds from the fraction that repeats, and one more for a text that still changes. */
  function Distance(read: Reader, s: string): nat {
    match read(s)
    case None => 0
    case Some(r) => (if r.leap then 2 * Gap(r.nanos) else 0) + if Restamped(r) == s then 0 else 1
  }

  lemma GapCloses(nanos: nat)
    requires nanos < BILLION && nanos != 111_111_111
    ensures Gap((BILLION + nanos) / 10) < Gap(nanos)
  {
  }

  lemma DistanceFalls(nfc: string -> string, read: Reader, n: string)
    requires ReadsItsOwn(read)
    ensures var r := RulesBy(nfc, read);
            var x := Restamp(r, n);
            Distance(read, Restamp(r, x)) <= Distance(read, x)
            && (Restamp(r, x) != x ==> Distance(read, Restamp(r, x)) < Distance(read, x))
  {
    hide Restamped, ReadsItsOwn, ReadsAll, Gap;
    var r := RulesBy(nfc, read);
    var x := Restamp(r, n);
    var y := Restamp(r, x);
    if y != x {
      ReadAgain(read, n);
      StampSettlesExactly(read, n);
      assert Drifts(read, n);
      YReads(read, n);
      var m := read(x).value.nanos;
      assert read(x).value.leap && y == Restamped(read(x).value);
      if m != 111_111_111 { GapCloses(m); } else { StampSettlesExactly(read, x); }
    }
  }

  /** In a second whose texts are read the canonical text of the canonical text is read as well. */
  lemma YReads(read: Reader, n: string)
    requires ReadsItsOwn(read) && read(n).Some? && read(Restamped(read(n).value)).Some?
    ensures var a := read(Restamped(read(n).value)).value;
            a.nanos < BILLION && read(Restamped(a)).Some?
            && read(Restamped(a)).value == Reading(a.base, a.leap, if a.leap then (BILLION + a.nanos) / 10 else a.nanos)
  {
    hide Fraction, StampText, NumberOf, Pad;
    ReadAgain(read, n);
    var x := Restamped(read(n).value);
    var a := read(x).value;
    FractionIsDigits(Nanos(a.leap, a.nanos));
    assert Restamped(a) == StampText(a.base, Fraction(Nanos(a.leap, a.nanos)));
    ReadAgain(read, x);
  }

  lemma DistanceMeasures(nfc: string -> string, read: Reader)
    requires ReadsItsOwn(read)
    ensures Measures(RulesBy(nfc, read), s => Distance(read, s))
  {
    hide Distance, Restamp, RhoString;
    forall n | RhoString(nfc, n)
      ensures var r := RulesBy(nfc, read);
              var x := Restamp(r, n);
              Distance(read, Restamp(r, x)) <= Distance(read, x)
              && (Restamp(r, x) != x ==> Distance(read, Restamp(r, x)) < Distance(read, x))
    {
      DistanceFalls(nfc, read, n);
    }
  }

  // ---------------------------------------------------------------- the normaliser, value by value

  /** No string directly under a timestamp key of the value, cleaned as normalisation cleans it, is a drifting leap second. */
  ghost predicate NoDrift(nfc: string -> string, read: Reader, v: Json, parent: Option<string>)
    decreases v
  {
    var r := RulesBy(nfc, read);
    match v
    case Str(s) => StampedUnder(parent) && Scalar(r, s).Some? ==> !Drifts(read, Scalar(r, s).value)
    case Array(items) => forall i :: 0 <= i < |items| ==> NoDrift(nfc, read, items[i], None)
    case Object(ms) =>
      forall i :: 0 <= i < |ms| && Key(r, ms[i].key).Some? ==> NoDrift(nfc, read, ms[i].value, Key(r, ms[i].key))
    case _ => true
  }

  lemma {:induction false} NoDriftIsSettling(nfc: string -> string, read: Reader, v: Json, parent: Option<string>)
    requires ReadsItsOwn(read)
    ensures TextsSettle(RulesBy(nfc, read), v, parent) <==> NoDrift(nfc, read, v, parent)
    decreases v
  {
    hide ReadsItsOwn, SettlesOn, Drifts, Scalar, RulesBy;
    var r := RulesBy(nfc, read);
    match v
    case Str(s) => if Scalar(r, s).Some? { RestampTwice(nfc, read, Scalar(r, s).value); }
    case Array(items) =>
      forall i | 0 <= i < |items| ensures TextsSettle(r, items[i], None) <==> NoDrift(nfc, read, items[i], None) {
        NoDriftIsSettling(nfc, read, items[i], None);
      }
    case Object(ms) =>
      forall i | 0 <= i < |ms| && Key(r, ms[i].key).Some?
        ensures TextsSettle(r, ms[i].value, Key(r, ms[i].key)) <==> NoDrift(nfc, read, ms[i].value, Key(r, ms[i].key))
      {
        NoDriftIsSettling(nfc, read, ms[i].value, Key(r, ms[i].key));
      }
    case _ =>
  }

  /** Normalising a value without drifting leap seconds under its timestamp keys twice is the same as once. */
  lemma IdempotentWithoutDrift(nfc: string -> string, read: Reader, v: Json, parent: Option<string>)
    requires LawfulNfc(nfc) && ReadsItsOwn(read) && Normalize(RulesBy(nfc, read), v, parent).Some?
    requires NoDrift(nfc, read, v, parent)
    ensures var once := Normalize(RulesBy(nfc, read), v, parent);
            Normalize(RulesBy(nfc, read), once.value, parent) == once
  {
    hide ReadsItsOwn, LawfulNfc, Normalize, RulesBy, TextsSettle, NoDrift;
    RulesAreLawful(nfc, read);
    NoDriftIsSettling(nfc, read, v, parent);
    NormalizeIdempotent(RulesBy(nfc, read), v, parent);
  }

  /** And exactly then, for elements of set-like arrays shorter than 2^32: drifting leap seconds never change places into one another. */
  lemma IdempotentExactlyWithoutDrift(nfc: string -> string, read: Reader, v: Json, parent: Option<string>)
    requires LawfulNfc(nfc) && ReadsItsOwn(read) && Normalize(RulesBy(nfc, read), v, parent).Some?
    requires ShortSets(RulesBy(nfc, read), v, parent)
    ensures var once := Normalize(RulesBy(nfc, read), v, parent);
            Normalize(RulesBy(nfc, read), once.value, parent) == once <==> NoDrift(nfc, read, v, parent)
  {
    hide ReadsItsOwn, LawfulNfc, Normalize, RulesBy, TextsSettle, NoDrift, ShortSets, Measures, Distance;
    RulesAreLawful(nfc, read);
    DistanceMeasures(nfc, read);
    NoDriftIsSettling(nfc, read, v, parent);
    IdempotentExactly(RulesBy(nfc, read), s => Distance(read, s), v, parent);
  }

  /** So the normaliser is idempotent on all inputs at once exactly when no clean text at all is a drifting leap second. */
  lemma IdempotentExactlyOutsideLeapSeconds(nfc: string -> string, read: Reader)
    requires LawfulNfc(nfc) && ReadsItsOwn(read)
    ensures IdempotentOnInput(RulesBy(nfc, read)) <==> forall s :: RhoString(nfc, s) ==> !Drifts(read, s)
  {
    hide RhoString, IdempotentOnInput, Drifts, ReadsItsOwn, LawfulNfc, SettlesOn;
    var r := RulesBy(nfc, read);
    RulesAreLawful(nfc, read);
    IdempotentExactlyWhenStampsSettle(r);
    forall s ensures SettlesOn(r, s) <==> !Drifts(read, s) { RestampTwice(nfc, read, s); }
  }

  /** A leap second at .0 under a timestamp key, its canonical text read, comes out different the second time. */
  lemma LeapSecondDrifts(nfc: string -> string, read: Reader, s: string)
    requires LawfulNfc(nfc) && ReadsItsOwn(read) && RhoString(nfc, s)
    requires read(s).Some? && read(s).value.leap && read(s).value.nanos == 0 && read(Restamped(read(s).value)).Some?
    ensures var r := RulesBy(nfc, read);
            var once := Normalize(r, Stamped(s), None);
            once.Some? && Normalize(r, once.value, None).Some? && Normalize(r, once.value, None) != once
  {
    hide RhoString, Normalize, Restamped, LawfulNfc;
    var r := RulesBy(nfc, read);
    RulesAreLawful(nfc, read);
    StampedNormalizes(r, s);
    RestampedIsRho(nfc, read(s).value);
    StampedNormalizes(r, Restamp(r, s));
    RestampTwice(nfc, read, s);
    assert Stamped(Restamp(r, Restamp(r, s))).members[0].value.s != Stamped(Restamp(r, s)).members[0].value.s;
  }

  // ---------------------------------------------------------------- such readers exist

  const LEAP_SECOND: string := "2016-12-31T23:59:60"

  ghost predicate IsSample(s: string, frac: seq<nat>) {
    DigitList(frac) && s == StampText(LEAP_SECOND, frac)
  }

  /** Reads the texts of one leap second. */
  ghost function Sample(s: string): Option<Reading> {
    if frac :| IsSample(s, frac) then Some(Reading(LEAP_SECOND, true, NumberOf(Pad(frac, 9)))) else None
  }

  lemma SampleReads(frac: seq<nat>)
    requires DigitList(frac)
    ensures Sample(StampText(LEAP_SECOND, frac)) == Some(Reading(LEAP_SECOND, true, NumberOf(Pad(frac, 9))))
  {
    hide StampText, NumberOf, Pad;
    var s := StampText(LEAP_SECOND, frac);
    assert IsSample(s, frac);
    forall other | IsSample(s, other) ensures other == frac { StampTextTells(LEAP_SECOND, other, frac); }
  }

  lemma {:induction false} NumberBelow(ds: seq<nat>)
    requires DigitList(ds)
    ensures NumberOf(ds) < Pow10(|ds|)
  {
    if ds != [] { NumberBelow(ds[..|ds| - 1]); }
  }

  /** A leap second that UTC puts into the year 10000: it is read, its canonical texts are not. */
  const FAR_SECOND: string := "9999-12-31T23:59:60-01:00"
  const FAR_BASE: string := "+10000-01-01T00:59:60"

  ghost function SampleOrFar(s: string): Option<Reading> {
    if s == FAR_SECOND then Some(Reading(FAR_BASE, true, 0)) else Sample(s)
  }

  lemma StampTextsStart(base: string, frac: seq<nat>)
    requires base != "" && DigitList(frac)
    ensures StampText(base, frac) != "" && StampText(base, frac)[0] == base[0]
  {
  }

  lemma SamplesStartWith2(s: string)
    requires Sample(s).Some?
    ensures s != "" && s[0] == '2'
  {
    hide StampText;
    var frac :| IsSample(s, frac);
    StampTextsStart(LEAP_SECOND, frac);
  }

  lemma FarIsNotRead(frac: seq<nat>)
    requires DigitList(frac)
    ensures SampleOrFar(StampText(FAR_BASE, frac)) == None
  {
    hide StampText, Sample;
    var s := StampText(FAR_BASE, frac);
    StampTextsStart(FAR_BASE, frac);
    if Sample(s).Some? { SamplesStartWith2(s); }
    assert FAR_SECOND[0] == '9';
  }

  lemma NearIsRead(frac: seq<nat>)
    requires DigitList(frac)
    ensures SampleOrFar(StampText(LEAP_SECOND, frac)) == Some(Reading(LEAP_SECOND, true, NumberOf(Pad(frac, 9))))
  {
    hide StampText, Sample, NumberOf, Pad;
    SampleReads(frac);
    StampTextsStart(LEAP_SECOND, frac);
    assert FAR_SECOND[0] == '9';
  }

  lemma SampleValue(s: string)
    requires Sample(s).Some?
    ensures Sample(s).value.base == LEAP_SECOND && Sample(s).value.leap && Sample(s).value.nanos < BILLION
  {
    hide StampText, NumberOf, Pad;
    var frac :| IsSample(s, frac) && Sample(s) == Some(Reading(LEAP_SECOND, true, NumberOf(Pad(frac, 9))));
    PaddedBelow(frac);
  }

  lemma BasesArePlain()
    ensures PlainAscii(LEAP_SECOND) && PlainAscii(FAR_BASE)
  {
  }

  ghost predicate IsSampleReader(read: Reader) {
    forall s :: read(s) == SampleOrFar(s)
  }

  lemma SampleReaderIsLawful(read: Reader)
    requires IsSampleReader(read)
    ensures ReadsItsOwn(read)
  {
    hide StampText, NumberOf, Pad, Sample, PlainAscii;
    assert ReadsAll(read, LEAP_SECOND, true) by {
      forall frac | DigitList(frac) ensures read(StampText(LEAP_SECOND, frac)) == Some(Reading(LEAP_SECOND, true, NumberOf(Pad(frac, 9)))) {
        NearIsRead(frac);
      }
    }
    assert ReadsNone(read, FAR_BASE) by {
      forall frac | DigitList(frac) ensures read(StampText(FAR_BASE, frac)) == None { FarIsNotRead(frac); }
    }
    hide ReadsAll, ReadsNone;
    BasesArePlain();
    forall s | read(s).Some?
      ensures read(s).value.nanos < BILLION && PlainAscii(read(s).value.base)
      ensures ReadsAll(read, read(s).value.base, read(s).value.leap) || ReadsNone(read, read(s).value.base)
    {
      if s != FAR_SECOND { SampleValue(s); }
    }
  }

  lemma SampleReaderDrifts(read: Reader)
    requires IsSampleReader(read)
    ensures Drifts(read, StampText(LEAP_SECOND, []))
    ensures read(FAR_SECOND) == Some(Reading(FAR_BASE, true, 0)) && !Drifts(read, FAR_SECOND)
  {
    hide StampText, NumberOf, Pad, Sample, Fraction;
    NothingIsZero();
    NearIsRead([]);
    FractionIsDigits(Nanos(true, 0));
    NearIsRead(Fraction(Nanos(true, 0)));
    FarIsNotRead(Fraction(Nanos(true, 0)));
  }

  /**
    Readers with the assumed law exist that read leap seconds, one that drifts and one that does not because its
    canonical text is past the year 9999: the lemmas above are not empty and each of their conditions is met.
   */
  lemma LeapSecondsCanBeRead()
    ensures exists read: Reader ::
              && ReadsItsOwn(read) && Drifts(read, StampText(LEAP_SECOND, []))
              && read(FAR_SECOND) == Some(Reading(FAR_BASE, true, 0)) && !Drifts(read, FAR_SECOND)
  {
    hide ReadsItsOwn, Drifts, SampleOrFar, StampText;
    var read: Reader := s => SampleOrFar(s);
    assert IsSampleReader(read);
    SampleReaderIsLawful(read);
    SampleReaderDrifts(read);
  }

  lemma PaddedBelow(frac: seq<nat>)
    requires DigitList(frac)
    ensures NumberOf(Pad(frac, 9)) < BILLION
  {
    NumberBelow(Pad(frac, 9));
    NineDigits();
  }

  lemma NothingIsZero()
    ensures NumberOf(Pad([], 9)) == 0
  {
    RereadFraction(false, 0);
  }
}
