/**
  The variable-length length prefix of NRF-1.1: seven bits a byte, low bits first, minimal form,
  at most 32 bits. Masks and shifts on u32 are written as the arithmetic they compute: `n & 0x7f`
  is `n % 128`, `n >> 7` is `n / 128`, and `result |= val << 7 * k` is an addition because
  `result < 128^k` (the loop invariant of `DecodeVarint32` says so).
 */
module VarInts {
  import opened Prelude

  /** The minimal encoding of a number. */
  function Varint(n: nat): (r: seq<Byte>)
    ensures r != []
  {
    if n < 128 then [n] else [n % 128 + 128] + Varint(n / 128)
  }

  /** 128^k: the weight of byte `k`, `1 << 7 * k`. */
  function Pow128(k: nat): nat
    requires k <= 4
  {
    if k == 0 then 1 else if k == 1 then 0x80 else if k == 2 then 0x4000 else if k == 3 then 0x20_0000 else 0x1000_0000
  }

  /** What is left of a u32 after `k` shifts by seven. */
  function Room(k: nat): nat
    requires k <= 4
  {
    if k == 0 then U32 else if k == 1 then 0x200_0000 else if k == 2 then 0x4_0000 else if k == 3 then 0x800 else 0x10
  }

  /** `b & 0x7f`. */
  function Low7(b: Byte): nat {
    if b < 128 then b else b - 128
  }

  /** The number spelled by the bytes from index `k` on, and the index after the last of them. */
  function ReadFrom(bs: seq<Byte>, k: nat): (r: Option<(nat, nat)>)
    requires k <= 4
    ensures r.Some? ==> r.value.0 < Room(k) && k < r.value.1 <= |bs|
    decreases 5 - k
  {
    if k >= |bs| then None
    else
      var val := Low7(bs[k]);
      if k == 4 && val > 15 then None
      else if bs[k] < 128 then
        if k > 0 && val == 0 then None else Some((val, k + 1))
      else if k == 4 then None
      else
        match ReadFrom(bs, k + 1)
        case None => None
        case Some((m, end)) => Some((val + 128 * m, end))
  }

  /** The number read off the front, and what follows it. */
  function Read(bs: seq<Byte>): (r: Option<(nat, seq<Byte>)>)
    ensures r.Some? ==> |r.value.1| < |bs|
  {
    match ReadFrom(bs, 0)
    case None => None
    case Some((n, k)) => Some((n, bs[k..]))
  }

  lemma {:induction false} ReadFromAccepts(bs: seq<Byte>, k: nat, m: nat, rest: seq<Byte>)
    requires k <= 4 && k <= |bs|
    requires bs[k..] == Varint(m) + rest
    requires k > 0 ==> m > 0
    requires m < Room(k)
    ensures ReadFrom(bs, k) == Some((m, k + |Varint(m)|))
    decreases m
  {
    assert bs[k] == bs[k..][0] == Varint(m)[0];
    if m >= 128 {
      assert bs[k..] == [m % 128 + 128] + (Varint(m / 128) + rest);
      assert bs[k + 1..] == bs[k..][1..] == Varint(m / 128) + rest;
      ReadFromAccepts(bs, k + 1, m / 128, rest);
    }
  }

  lemma VarintDigit(low: nat, high: nat)
    requires low < 128 && high > 0
    ensures Varint(low + 128 * high) == [low + 128] + Varint(high)
  {
    var n := low + 128 * high;
    assert n / 128 == high && n % 128 == low;
  }

  lemma {:induction false} ReadFromMinimal(bs: seq<Byte>, k: nat)
    requires k <= 4
    requires ReadFrom(bs, k).Some?
    ensures var (m, end) := ReadFrom(bs, k).value;
            bs[k..end] == Varint(m) && (k > 0 ==> m > 0)
    decreases 5 - k
  {
    var (m, end) := ReadFrom(bs, k).value;
    if bs[k] >= 128 {
      ReadFromMinimal(bs, k + 1);
      VarintDigit(Low7(bs[k]), ReadFrom(bs, k + 1).value.0);
      assert bs[k..end] == [bs[k]] + bs[k + 1..end];
    } else {
      assert bs[k..end] == [bs[k]];
    }
  }

  /** Reading undoes writing, for every u32 and whatever follows. */
  lemma ReadUndoesVarint(n: nat, rest: seq<Byte>)
    requires n < U32
    ensures Read(Varint(n) + rest) == Some((n, rest))
  {
    var bs := Varint(n) + rest;
    assert bs[0..] == bs;
    ReadFromAccepts(bs, 0, n, rest);
    assert bs[|Varint(n)|..] == rest;
  }

  /** Whatever is read is a u32 in minimal form: nothing else is accepted. */
  lemma VarintUndoesRead(bs: seq<Byte>)
    requires Read(bs).Some?
    ensures var (n, rest) := Read(bs).value; n < U32 && bs == Varint(n) + rest
  {
    ReadFromMinimal(bs, 0);
    var (n, k) := ReadFrom(bs, 0).value;
    assert bs[0..k] == Varint(n);
    assert bs == bs[0..k] + bs[k..];
  }

  /** The bijection: a byte string reads as `n` exactly when it is the minimal encoding of the u32 `n`. */
  lemma VarintBijection(bs: seq<Byte>, n: nat)
    ensures Read(bs) == Some((n, [])) <==> n < U32 && bs == Varint(n)
  {
    if Read(bs) == Some((n, [])) { VarintUndoesRead(bs); }
    if n < U32 && bs == Varint(n) {
      ReadUndoesVarint(n, []);
      assert Varint(n) + [] == bs;
    }
  }

  /** A growable byte vector. */
  class Buffer {
    var data: seq<Byte>

    constructor ()
      ensures data == []
    {
      data := [];
    }

    method Push(b: Byte)
      modifies this
      ensures data == old(data) + [b]
    {
      data := data + [b];
    }

    method Extend(bs: seq<Byte>)
      modifies this
      ensures data == old(data) + bs
    {
      data := data + bs;
    }
  }

  /** A reading position in a byte slice. */
  class Cursor {
    const bytes: seq<Byte>
    var pos: nat

    ghost predicate Valid() reads this { pos <= |bytes| }

    ghost function Rest(): seq<Byte>
      requires Valid()
      reads this
    {
      bytes[pos..]
    }

    constructor (bs: seq<Byte>)
      ensures Valid() && bytes == bs && pos == 0
    {
      bytes := bs;
      pos := 0;
    }

    /** `read_exact`. */
    method ReadExact(n: nat) returns (r: Option<seq<Byte>>)
      requires Valid()
      modifies this
      ensures Valid()
      ensures r.Some? <==> n <= |old(Rest())|
      ensures r.Some? ==> r.value == old(Rest())[..n] && Rest() == old(Rest())[n..]
    {
      if n > |bytes| - pos {
        return None;
      }
      r := Some(bytes[pos..pos + n]);
      pos := pos + n;
    }
  }

  method EncodeVarint32(n: nat, buf: Buffer)
    requires n < U32
    modifies buf
    ensures buf.data == old(buf.data) + Varint(n)
  {
    var m := n;
    while true
      invariant buf.data + Varint(m) == old(buf.data) + Varint(n)
      decreases m
    {
      var byte := m % 128;
      m := m / 128;
      if m != 0 {
        ghost var before := buf.data;
        buf.Push(byte + 128);
        assert before + ([byte + 128] + Varint(m)) == buf.data + Varint(m);
      } else {
        buf.Push(byte);
        break;
      }
    }
  }

  /** How the accumulated low bits and the bytes still to come make up the number. */
  ghost predicate Accumulates(bs: seq<Byte>, k: nat, acc: nat)
    requires k <= 4
  {
    && acc < Pow128(k)
    && ReadFrom(bs, 0) == match ReadFrom(bs, k)
                          case None => None
                          case Some((m, end)) => Some((acc + Shifted(m, k), end))
  }

  /** `m << 7 * k`. */
  function Shifted(m: nat, k: nat): nat
    requires k <= 4
  {
    m * Pow128(k)
  }

  /** A digit in front of a number, shifted. */
  lemma ShiftedDigit(val: nat, m: nat, k: nat)
    requires k < 4
    ensures Shifted(val + 128 * m, k) == Shifted(val, k) + Shifted(m, k + 1)
  {
    if k == 0 {
    } else if k == 1 {
    } else if k == 2 {
    } else {
    }
  }

  lemma AccumulatesNext(bs: seq<Byte>, k: nat, acc: nat)
    requires k < 4 && k < |bs| && bs[k] >= 128
    requires Accumulates(bs, k, acc)
    ensures Accumulates(bs, k + 1, acc + Shifted(Low7(bs[k]), k))
  {
    hide Shifted;
    var val := Low7(bs[k]);
    DigitFits(k, acc, val);
    if ReadFrom(bs, k + 1).Some? {
      ShiftedDigit(val, ReadFrom(bs, k + 1).value.0, k);
    }
  }

  /** Adding a digit loses no bit of a u32, and the digit can be read back off the top. */
  lemma DigitFits(k: nat, acc: nat, val: nat)
    requires k <= 4 && acc < Pow128(k) && val < 128 && (k == 4 ==> val <= 15)
    ensures acc + Shifted(val, k) < U32 && (k < 4 ==> acc + Shifted(val, k) < Pow128(k + 1))
    ensures (acc + Shifted(val, k)) / Pow128(k) == val
  {
    if k == 0 {
    } else if k == 1 {
    } else if k == 2 {
    } else if k == 3 {
    } else {
    }
  }

  lemma NothingRead(bs: seq<Byte>)
    ensures Accumulates(bs, 0, 0)
  {
  }

  method DecodeVarint32(r: Cursor) returns (res: Option<nat>)
    requires r.Valid()
    modifies r
    ensures r.Valid()
    ensures match Read(old(r.Rest()))
            case None => res == None
            case Some((n, rest)) => res == Some(n) && n < U32 && r.Rest() == rest
  {
    hide Shifted, Pow128;
    ghost var bs := r.Rest();
    var result: nat, read: nat := 0, 0;
    NothingRead(bs);
    while true
      invariant r.Valid() && read <= 4 && read <= |bs| && r.Rest() == bs[read..]
      invariant Accumulates(bs, read, result)
      decreases 5 - read
    {
      var next := r.ReadExact(1);
      if next == None { return None; }
      var b := next.value[0];
      assert b == bs[read] && r.Rest() == bs[read + 1..];
      var val := Low7(b);
      if read == 4 && val > 0x0F { return None; }
      DigitFits(read, result, val);
      if b < 128 {
        result := result + Shifted(val, read);
        if read > 0 && result / Pow128(read) == 0 { return None; }
        return Some(result);
      }
      if read == 4 { return None; }
      AccumulatesNext(bs, read, result);
      result := result + Shifted(val, read);
      read := read + 1;
    }
  }

  // ---------------------------------------------------------------- what the bytes spell

  /** The number that seven-bit groups spell, the low ones first. */
  ghost function Spelled(bs: seq<Byte>): nat {
    if bs == [] then 0 else bs[0] % 128 + 128 * Spelled(bs[1..])
  }

  /** Every byte but the last has its top bit set, the groups spell the number, and no top group is empty. */
  lemma {:induction false} VarintSpells(n: nat)
    ensures var r := Varint(n);
            && Spelled(r) == n && r[|r| - 1] < 128 && (|r| > 1 ==> r[|r| - 1] > 0)
            && forall i :: 0 <= i < |r| - 1 ==> r[i] >= 128
  {
    if n < 128 {
      assert [n][1..] == [];
    } else {
      VarintSpells(n / 128);
      assert Varint(n)[1..] == Varint(n / 128);
    }
  }
}
