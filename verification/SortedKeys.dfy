/** A sled tree as the list of its keys in byte order, and the zero-padded numbers inside them. */
module SortedKeys {
  import opened Prelude

  type Key = seq<Byte>

  ghost predicate Sorted(ks: seq<Key>) {
    forall i, j :: 0 <= i < j < |ks| ==> Less(ks[i], ks[j])
  }

  /** `Tree::insert` of a key without a value. */
  function Insert(ks: seq<Key>, k: Key): seq<Key> {
    if ks == [] || Less(k, ks[0]) then [k] + ks
    else if k == ks[0] then ks
    else [ks[0]] + Insert(ks[1..], k)
  }

  /** `Tree::range(start..)`. */
  function From(ks: seq<Key>, start: Key): seq<Key> {
    if ks != [] && Less(ks[0], start) then From(ks[1..], start) else ks
  }

  predicate StartsWith(k: Key, p: Key) {
    p == [] || (k != [] && k[0] == p[0] && StartsWith(k[1..], p[1..]))
  }

  lemma {:induction false} StartsWithIsPrefix(k: Key, p: Key)
    ensures StartsWith(k, p) <==> exists x :: k == p + x
  {
    if p == [] {
      assert k == p + k;
    } else if k != [] && k[0] == p[0] {
      StartsWithIsPrefix(k[1..], p[1..]);
      if StartsWith(k[1..], p[1..]) {
        var x :| k[1..] == p[1..] + x;
        assert k == [k[0]] + k[1..] == p + x;
      }
      if x :| k == p + x {
        assert k[1..] == p[1..] + x;
      }
    }
  }

  /** The keys in front of the first that lacks the prefix. */
  function WhilePrefix(ks: seq<Key>, p: Key): seq<Key> {
    if ks != [] && StartsWith(ks[0], p) then [ks[0]] + WhilePrefix(ks[1..], p) else []
  }

  lemma {:induction false} InsertProperties(ks: seq<Key>, k: Key)
    requires Sorted(ks)
    ensures Sorted(Insert(ks, k))
    ensures forall x :: x in Insert(ks, k) <==> x in ks || x == k
  {
    hide Less;
    var r := Insert(ks, k);
    if ks == [] {
    } else if Less(k, ks[0]) {
      forall j | 0 <= j < |ks| ensures Less(k, ks[j]) {
        if j > 0 { LessTransitive(k, ks[0], ks[j]); }
      }
      assert forall j :: 0 < j < |r| ==> r[j] == ks[j - 1];
    } else if k != ks[0] {
      var tail := Insert(ks[1..], k);
      InsertProperties(ks[1..], k);
      LessTrichotomy(k, ks[0]);
      assert ks == [ks[0]] + ks[1..];
      forall j | 0 <= j < |tail| ensures Less(ks[0], tail[j]) {
        assert tail[j] in tail;
        if tail[j] in ks[1..] {
          var m :| 0 <= m < |ks[1..]| && ks[1..][m] == tail[j];
          assert ks[m + 1] == tail[j];
        }
      }
      assert forall j :: 0 < j < |r| ==> r[j] == tail[j - 1];
      assert forall x :: x in r <==> x == ks[0] || x in tail;
    }
  }

  /** A sorted list is determined by its members. */
  lemma {:induction false} SortedUnique(xs: seq<Key>, ys: seq<Key>)
    requires Sorted(xs) && Sorted(ys) && forall k :: k in xs <==> k in ys
    ensures xs == ys
  {
    hide Less;
    assert xs != [] ==> xs[0] in ys;
    assert ys != [] ==> ys[0] in xs;
    if xs != [] && ys != [] {
      var i :| 0 <= i < |ys| && ys[i] == xs[0];
      var j :| 0 <= j < |xs| && xs[j] == ys[0];
      LessTrichotomy(xs[0], ys[0]);
      assert xs[0] == ys[0];
      TailMembers(xs, ys);
      TailMembers(ys, xs);
      SortedUnique(xs[1..], ys[1..]);
      assert xs == [xs[0]] + xs[1..] && ys == [ys[0]] + ys[1..];
    }
  }

  lemma TailMembers(xs: seq<Key>, ys: seq<Key>)
    requires xs != [] && ys != [] && xs[0] == ys[0] && Sorted(xs) && forall k :: k in xs ==> k in ys
    ensures forall k :: k in xs[1..] ==> k in ys[1..]
  {
    hide Less;
    forall k | k in xs[1..] ensures k in ys[1..] {
      var m :| 0 <= m < |xs[1..]| && xs[1..][m] == k;
      assert xs[m + 1] == k;
      LessTrichotomy(xs[0], k);
      assert k in ys;
      assert ys == [ys[0]] + ys[1..];
    }
  }

  lemma {:induction false} FromProperties(ks: seq<Key>, start: Key)
    requires Sorted(ks)
    ensures Sorted(From(ks, start))
    ensures forall k :: k in From(ks, start) <==> k in ks && !Less(k, start)
  {
    hide Less;
    if ks != [] {
      assert ks == [ks[0]] + ks[1..];
      if Less(ks[0], start) {
        FromProperties(ks[1..], start);
      } else {
        forall j | 0 <= j < |ks| ensures !Less(ks[j], start) {
          if j > 0 && Less(ks[j], start) { LessTransitive(ks[0], ks[j], start); }
        }
      }
    }
  }

  /** Past a key that lacks the prefix of the starting point no key has it. */
  lemma {:induction false} PrefixIsContiguous(p: Key, x: Key, k: Key, later: Key)
    requires !Less(k, p + x) && !StartsWith(k, p) && Less(k, later)
    ensures !StartsWith(later, p)
  {
    if p != [] && k != [] && k[0] == p[0] && later[0] == p[0] {
      assert (p + x)[1..] == p[1..] + x;
      PrefixIsContiguous(p[1..], x, k[1..], later[1..]);
    }
  }

  /** The prefix scan from a start that has the prefix: exactly the keys from there on that have it. */
  lemma {:induction false} WhilePrefixProperties(ks: seq<Key>, p: Key, x: Key)
    requires Sorted(ks) && forall k :: k in ks ==> !Less(k, p + x)
    ensures Sorted(WhilePrefix(ks, p))
    ensures forall k :: k in WhilePrefix(ks, p) <==> k in ks && StartsWith(k, p)
  {
    hide Less, StartsWith;
    if ks != [] {
      assert ks == [ks[0]] + ks[1..];
      if StartsWith(ks[0], p) {
        WhilePrefixProperties(ks[1..], p, x);
        var r, tail := WhilePrefix(ks, p), WhilePrefix(ks[1..], p);
        forall j | 0 <= j < |tail| ensures Less(ks[0], tail[j]) {
          assert tail[j] in ks[1..];
          var m :| 0 <= m < |ks[1..]| && ks[1..][m] == tail[j];
          assert ks[m + 1] == tail[j];
        }
        assert forall j :: 0 < j < |r| ==> r[j] == tail[j - 1];
      } else {
        forall k | k in ks ensures !StartsWith(k, p) {
          var m :| 0 <= m < |ks| && ks[m] == k;
          if m > 0 { PrefixIsContiguous(p, x, ks[0], k); }
        }
      }
    }
  }

  // ---------------------------------------------------------------- zero-padded numbers

  function Pow10(w: nat): nat {
    if w == 0 then 1 else 10 * Pow10(w - 1)
  }

  /** `w` decimal digits, most significant first. */
  function Digits(n: nat, w: nat): (r: seq<Byte>)
    ensures |r| == w
  {
    if w == 0 then [] else Digits(n / 10, w - 1) + [48 + n % 10]
  }

  /** Among numbers of at most `w` digits the order of the padded texts is the order of the numbers. */
  lemma {:induction false} DigitsOrder(a: nat, b: nat, w: nat)
    requires a < Pow10(w) && b < Pow10(w)
    ensures Less(Digits(a, w), Digits(b, w)) <==> a < b
    ensures Digits(a, w) == Digits(b, w) <==> a == b
  {
    if w > 0 {
      var x, y := Digits(a / 10, w - 1), Digits(b / 10, w - 1);
      DigitsOrder(a / 10, b / 10, w - 1);
      if a / 10 == b / 10 {
        LessAfterPrefix(x, [48 + a % 10], [48 + b % 10]);
        assert a % 10 < b % 10 <==> a < b;
        assert Digits(a, w)[w - 1] == 48 + a % 10 && Digits(b, w)[w - 1] == 48 + b % 10;
      } else {
        LessByBlock(x, [48 + a % 10], y, [48 + b % 10]);
        assert Digits(a, w)[..w - 1] == x && Digits(b, w)[..w - 1] == y;
      }
    }
  }

  function Abs(t: int): nat {
    if t < 0 then -t else t
  }

  /** `{:020}` of an i64: a sign counts as one of the twenty places. */
  function Padded(t: int64): (r: seq<Byte>)
    ensures |r| == 20
  {
    if t < 0 then [45] + Digits(Abs(t), 19) else Digits(Abs(t), 20)
  }

  lemma PowersOfTen()
    ensures I64_MAX + 1 < Pow10(19) < Pow10(20)
  {
    assert Pow10(4) == 10_000;
    assert Pow10(9) == 100_000 * Pow10(4);
    assert Pow10(14) == 100_000 * Pow10(9);
    assert Pow10(19) == 100_000 * Pow10(14);
  }

  lemma {:induction false} DigitRange(n: nat, w: nat)
    ensures forall i :: 0 <= i < w ==> 48 <= Digits(n, w)[i] <= 57
  {
    if w > 0 { DigitRange(n / 10, w - 1); }
  }

  /** From zero up the padded order is the numeric order. */
  lemma PaddedOrder(a: int64, b: int64)
    requires a >= 0 && b >= 0
    ensures Less(Padded(a), Padded(b)) <==> a < b
    ensures Padded(a) == Padded(b) <==> a == b
  {
    hide Pow10, Digits;
    PowersOfTen();
    DigitsOrder(a, b, 20);
  }

  /** Below zero it is the reverse. */
  lemma PaddedReversesNegatives(a: int64, b: int64)
    requires a < 0 && b < 0
    ensures Less(Padded(a), Padded(b)) <==> b < a
  {
    hide Pow10, Digits, Less;
    PowersOfTen();
    DigitsOrder(Abs(a), Abs(b), 19);
    LessAfterPrefix([45], Digits(Abs(a), 19), Digits(Abs(b), 19));
  }

  /** A negative number sorts in front of every other. */
  lemma PaddedNegativeFirst(a: int64, b: int64)
    requires a < 0 <= b
    ensures Less(Padded(a), Padded(b)) && !Less(Padded(b), Padded(a))
  {
    hide Digits;
    DigitRange(b, 20);
  }

  lemma PaddedInjective(a: int64, b: int64)
    requires Padded(a) == Padded(b)
    ensures a == b
  {
    hide Digits, Pow10, Padded;
    LessTrichotomy(Padded(a), Padded(b));
    if a >= 0 && b >= 0 {
      PaddedOrder(a, b);
    } else if a < 0 && b < 0 {
      PaddedReversesNegatives(a, b);
      PaddedReversesNegatives(b, a);
      LessTrichotomy(Padded(b), Padded(a));
    } else if a < 0 {
      PaddedNegativeFirst(a, b);
    } else {
      PaddedNegativeFirst(b, a);
    }
  }
}
