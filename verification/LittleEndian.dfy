/** Little-endian words in byte sequences. */
module LittleEndian {
  import opened Common

  function Pow256(n: nat): (r: nat)
    ensures r >= 1
  {
    if n == 0 then 1 else 256 * Pow256(n - 1)
  }

  function Le(v: nat, n: nat): (b: seq<byte>)
    ensures |b| == n
  {
    if n == 0 then [] else [v % 256] + Le(v / 256, n - 1)
  }

  function FromLe(b: seq<byte>): (v: nat) {
    if b == [] then 0 else b[0] + 256 * FromLe(b[1..])
  }

  /** A word that fits its width survives the trip through memory. */
  lemma {:induction false} FromLeLe(v: nat, n: nat)
    requires v < Pow256(n)
    ensures FromLe(Le(v, n)) == v
    decreases n
  {
    if n > 0 {
      FromLeLe(v / 256, n - 1);
      assert Le(v, n)[1..] == Le(v / 256, n - 1);
    }
  }

  lemma {:induction false} FromLeBound(b: seq<byte>)
    ensures FromLe(b) < Pow256(|b|)
    decreases |b|
  {
    if b != [] {
      FromLeBound(b[1..]);
    }
  }

  lemma Pow256Widths()
    ensures Pow256(4) == TWO32 && Pow256(8) == TWO64
  {
    assert Pow256(1) == 256 * Pow256(0);
    assert Pow256(2) == 256 * Pow256(1);
    assert Pow256(3) == 256 * Pow256(2);
    assert Pow256(4) == 256 * Pow256(3);
    assert Pow256(5) == 256 * Pow256(4);
    assert Pow256(6) == 256 * Pow256(5);
    assert Pow256(7) == 256 * Pow256(6);
    assert Pow256(8) == 256 * Pow256(7);
  }

  /** The 64-bit word at `p`. */
  function Word(s: seq<byte>, p: nat): (v: u64)
    requires p + 8 <= |s|
  {
    FromLeBound(s[p..p + 8]);
    Pow256Widths();
    FromLe(s[p..p + 8])
  }

  /** Storing a 64-bit word: read back here, invisible in any slot that does not overlap. */
  lemma StoredWord(s: seq<byte>, p: nat, v: u64, q: nat)
    requires p + 8 <= |s| && q + 8 <= |s|
    ensures Word(Patch(s, p, Le(v, 8)), p) == v
    ensures p + 8 <= q || q + 8 <= p ==> Word(Patch(s, p, Le(v, 8)), q) == Word(s, q)
  {
    var t := Patch(s, p, Le(v, 8));
    Pow256Widths();
    FromLeLe(v, 8);
    if p + 8 <= q || q + 8 <= p {
      assert t[q..q + 8] == s[q..q + 8];
    }
  }
}
