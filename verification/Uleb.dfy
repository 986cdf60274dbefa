/**
 ULEB128 (section 7.6 of DWARF version 5): the converter's `write_uleb` and
 `uleb_size` loops, the byte string they stand for, and a decoder written from
 the format alone.
 */
module Uleb {
  import opened Common

  /** Little-endian groups of seven bits, high bit set on all but the last. */
  function UlebBytes(v: nat): (b: seq<byte>)
    ensures |b| >= 1
  {
    if v < 128 then [v] else [128 + v % 128] + UlebBytes(v / 128)
  }

  /** Reads one ULEB128 number at `pos`: its value and the position after it. */
  function ReadUleb(b: seq<byte>, pos: nat): (r: Option<(nat, nat)>)
    ensures r.Some? ==> pos < r.value.1 <= |b|
    decreases |b| - pos
  {
    if pos >= |b| then None
    else if b[pos] < 128 then Some((b[pos], pos + 1))
    else
      match ReadUleb(b, pos + 1)
      case None => None
      case Some((hi, next)) => Some((b[pos] - 128 + 128 * hi, next))
  }

  /** Decoding inverts encoding, whatever follows the number. */
  lemma {:induction false} ReadWritten(b: seq<byte>, pos: nat, v: nat)
    requires HasAt(b, pos, UlebBytes(v))
    ensures ReadUleb(b, pos) == Some((v, pos + |UlebBytes(v)|))
    decreases v
  {
    assert b[pos] == b[pos..pos + |UlebBytes(v)|][0];
    if v >= 128 {
      HasAtSplit(b, pos, [128 + v % 128], UlebBytes(v / 128));
      ReadWritten(b, pos + 1, v / 128);
    }
  }

  /** Wider values never take fewer bytes. */
  lemma {:induction false} UlebMonotone(v: nat, w: nat)
    requires v <= w
    ensures |UlebBytes(v)| <= |UlebBytes(w)|
    decreases w
  {
    if v >= 128 {
      UlebMonotone(v / 128, w / 128);
    }
  }

  function Pow128(k: nat): (r: nat)
    ensures r >= 1
  {
    if k == 0 then 1 else 128 * Pow128(k - 1)
  }

  /** Exactly the values below 128^k fit in k bytes. */
  lemma {:induction false} UlebFits(v: nat, k: nat)
    requires k >= 1
    ensures |UlebBytes(v)| <= k <==> v < Pow128(k)
    decreases k
  {
    if k == 1 {
      assert Pow128(1) == 128 * Pow128(0);
    } else if v < 128 {
      UlebFits(v, k - 1);
    } else {
      UlebFits(v / 128, k - 1);
      assert v / 128 < Pow128(k - 1) <==> v < 128 * Pow128(k - 1);
    }
  }

  /** The ten bytes that the opcode buffers reserve hold any 64-bit value. */
  lemma UlebAtMostTen(v: u64)
    ensures |UlebBytes(v)| <= 10
  {
    assert Pow128(2) == 128 * Pow128(1) == 16384 by { assert Pow128(1) == 128 * Pow128(0); }
    assert Pow128(4) == 128 * Pow128(3) == 16384 * Pow128(2);
    assert Pow128(6) == 128 * Pow128(5) == 16384 * Pow128(4);
    assert Pow128(8) == 128 * Pow128(7) == 16384 * Pow128(6);
    assert Pow128(10) == 128 * Pow128(9) == 16384 * Pow128(8);
    UlebFits(v, 10);
  }

  /** The bytes still to come: none once the last has been written. */
  ghost function Rest(rest: nat, more: bool): seq<byte> {
    if more then UlebBytes(rest) else []
  }

  lemma UlebNext(done: seq<byte>, rest: nat, b: byte)
    requires b == rest % 128 + (if rest / 128 != 0 then 128 else 0)
    ensures done + UlebBytes(rest) == done + [b] + Rest(rest / 128, rest / 128 != 0)
  {
    assert UlebBytes(rest) == [b] + Rest(rest / 128, rest / 128 != 0);
  }

  lemma PatchOne(s: seq<byte>, at: nat, done: seq<byte>, b: byte)
    requires at + |done| < |s|
    ensures Patch(s, at, done)[at + |done| := b] == Patch(s, at, done + [b])
  {
  }

  /** `write_uleb`: emits the encoding at `at` and touches nothing else. */
  method WriteUleb(buf: array<byte>, at: nat, v: nat) returns (n: nat)
    requires at + |UlebBytes(v)| <= buf.Length
    modifies buf
    ensures n == |UlebBytes(v)|
    ensures buf[..] == Patch(old(buf[..]), at, UlebBytes(v))
  {
    ghost var s := buf[..];
    n := 0;
    var rest, more := v, true;
    ghost var done: seq<byte> := [];
    while more
      invariant n == |done| && 0 <= rest
      invariant UlebBytes(v) == done + Rest(rest, more)
      invariant buf[..] == Patch(s, at, done)
      decreases more, rest
    {
      var b := rest % 128;
      var next := rest / 128;
      if next != 0 {
        b := b + 128;
      }
      UlebNext(done, rest, b);
      PatchOne(s, at, done, b);
      buf[at + n] := b;
      done := done + [b];
      n := n + 1;
      rest := next;
      more := next != 0;
    }
    assert done + [] == done;
  }

  /** `uleb_size`: the number of bytes `write_uleb` would emit. */
  method UlebSize(v: nat) returns (n: nat)
    ensures n == |UlebBytes(v)|
  {
    n := 1;
    var rest: nat := v / 128;
    while rest != 0
      invariant |UlebBytes(v)| == n + (if rest == 0 then 0 else |UlebBytes(rest)|)
      decreases rest
    {
      n := n + 1;
      rest := rest / 128;
    }
  }
}
