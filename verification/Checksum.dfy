/** The Internet checksum, sections 1 and 2 of RFC 1071. */
module Checksum {
  import opened Bits
  import opened Net

  /** The sum of the big-endian 16-bit words, an odd last byte padded with zero on the right. */
  function WordSum(s: seq<byte>): nat {
    if |s| == 0 then 0
    else if |s| == 1 then 0x100 * s[0]
    else 0x100 * s[0] + s[1] + WordSum(s[2..])
  }

  /** Add the carries back in until sixteen bits remain. */
  function Fold(x: nat): (r: u16)
    ensures r % 0xFFFF == x % 0xFFFF
    ensures r == 0 <==> x == 0
    decreases x
  {
    if x < 0x1_0000 then x else Fold(x / 0x1_0000 + x % 0x1_0000)
  }

  /** The ones' complement of the folded sum. */
  function Complement(sum: nat): u16 {
    0xFFFF - Fold(sum)
  }

  /** A sum folds to all ones exactly when it is a positive multiple of 65535. */
  lemma FoldsToOnes(x: nat)
    ensures Fold(x) == 0xFFFF <==> x > 0 && x % 0xFFFF == 0
  {
  }

  lemma ComplementIsMultiple(sum: nat)
    ensures (sum + Complement(sum)) % 0xFFFF == 0
  {
    var f: int := Fold(sum);
    SameRemainder(sum, f);
    DivModUnique(sum + Complement(sum), 0xFFFF, sum / 0xFFFF - f / 0xFFFF + 1, 0);
  }

  lemma SameRemainder(x: int, y: int)
    requires x % 0xFFFF == y % 0xFFFF
    ensures x - y == 0xFFFF * (x / 0xFFFF - y / 0xFFFF)
  {
  }

  lemma ShortOfMultiple(total: nat, r: nat, d: nat)
    requires total % 0xFFFF == 0 && r + d == total
    ensures r % 0xFFFF == 0 <==> d % 0xFFFF == 0
  {
  }

  /** A sum and its complement fold to all ones; a sum that falls short of them by `d` does so exactly
      when `d` is a multiple of 65535, the second representation of zero. */
  lemma ComplementVerifies(sum: nat, r: nat, d: nat)
    requires r > 0 && r + d == sum + Complement(sum)
    ensures Fold(r) == 0xFFFF <==> d % 0xFFFF == 0
  {
    FoldsToOnes(r);
    ComplementIsMultiple(sum);
    ShortOfMultiple(sum + Complement(sum), r, d);
  }

  lemma {:induction false} WordSumConcat(a: seq<byte>, b: seq<byte>)
    requires |a| % 2 == 0
    ensures WordSum(a + b) == WordSum(a) + WordSum(b)
  {
    if |a| == 0 {
      assert a + b == b;
    } else {
      assert (a + b)[2..] == a[2..] + b;
      WordSumConcat(a[2..], b);
    }
  }

  lemma {:induction false} WordSumPut(s: seq<byte>, off: nat, v: u16)
    requires off % 2 == 0 && off + 2 <= |s|
    ensures WordSum(PutU16(s, off, v)) == WordSum(s) - U16At(s, off) + v
  {
    var t := PutU16(s, off, v);
    if off == 0 {
      assert t[2..] == s[2..];
    } else {
      assert t[2..] == PutU16(s[2..], off - 2, v);
      WordSumPut(s[2..], off - 2, v);
    }
  }

  lemma {:induction false} WordSumBound(s: seq<byte>)
    ensures WordSum(s) <= 0xFFFF * ((|s| + 1) / 2)
  {
    if |s| < 2 {
    } else {
      WordSumBound(s[2..]);
    }
  }
}
