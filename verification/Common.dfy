/** Shared vocabulary: bytes, 64-bit words and the optional value. */
module Common {

  datatype Option<+T> = None | Some(value: T)

  type byte = x: int | 0 <= x < 256

  const TWO32: int := 0x1_0000_0000
  const TWO64: int := 0x1_0000_0000_0000_0000

  type u64 = x: int | 0 <= x < TWO64

  /** The C unsigned 64-bit result of an exact integer value. */
  function Wrap64(x: int): (r: u64)
    ensures 0 <= x < TWO64 ==> r == x
  {
    x % TWO64
  }

  /** C unsigned 64-bit addition. */
  function Add64(a: int, b: int): (r: u64)
    ensures 0 <= a + b < TWO64 ==> r == a + b
  {
    (a + b) % TWO64
  }

  lemma Assoc(a: seq<byte>, b: seq<byte>, c: seq<byte>)
    ensures a + (b + c) == a + b + c
  {
  }

  /** `part` lies in `whole` starting at index `pos`. */
  ghost predicate HasAt(whole: seq<byte>, pos: nat, part: seq<byte>) {
    pos + |part| <= |whole| && whole[pos..pos + |part|] == part
  }

  /** A concatenation found in place splits into its two halves, each in place. */
  lemma HasAtSplit(whole: seq<byte>, pos: nat, a: seq<byte>, b: seq<byte>)
    requires HasAt(whole, pos, a + b)
    ensures HasAt(whole, pos, a) && HasAt(whole, pos + |a|, b)
  {
    var w := whole[pos..pos + |a + b|];
    assert whole[pos..pos + |a|] == w[..|a|] == a;
    assert whole[pos + |a|..pos + |a| + |b|] == w[|a|..] == b;
  }

  /** `s` with `part` written over it from index `pos`. */
  function Patch(s: seq<byte>, pos: nat, part: seq<byte>): (r: seq<byte>)
    requires pos + |part| <= |s|
    ensures |r| == |s| && HasAt(r, pos, part)
  {
    s[..pos] + part + s[pos + |part|..]
  }

  /** Writing one part after another is writing their concatenation. */
  lemma PatchTwice(s: seq<byte>, pos: nat, a: seq<byte>, b: seq<byte>)
    requires pos + |a| + |b| <= |s|
    ensures Patch(Patch(s, pos, a), pos + |a|, b) == Patch(s, pos, a + b)
  {
  }

  /** A window that the written part does not meet reads as before. */
  lemma PatchElsewhere(s: seq<byte>, pos: nat, part: seq<byte>, p: nat, n: nat)
    requires pos + |part| <= |s| && p + n <= |s| && (pos + |part| <= p || p + n <= pos)
    ensures Patch(s, pos, part)[p..p + n] == s[p..p + n]
  {
  }
}
