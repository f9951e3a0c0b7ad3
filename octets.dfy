/** Bytes and the big-endian reading of byte strings, shared by the hash, random and RLP models. */
module Octets {

  /** Go's `byte`. */
  type byte = x: int | 0 <= x < 256

  function Pow256(n: nat): (r: nat)
    ensures r >= 1
  {
    if n == 0 then 1 else 256 * Pow256(n - 1)
  }

  /** The unsigned value of a big-endian byte string. */
  function FromBigEndian(s: seq<byte>): nat
  {
    if s == [] then 0 else FromBigEndian(s[..|s| - 1]) * 256 + s[|s| - 1]
  }

  /** The shortest big-endian byte string of `n`: no leading zero byte, and zero is empty. */
  function ToBigEndian(n: nat): (r: seq<byte>)
    decreases n
  {
    if n == 0 then [] else ToBigEndian(n / 256) + [n % 256]
  }

  lemma {:induction false} FromBigEndianBound(s: seq<byte>)
    ensures FromBigEndian(s) < Pow256(|s|)
  {
    if s != [] {
      FromBigEndianBound(s[..|s| - 1]);
    }
  }

  lemma FromBigEndianSnoc(s: seq<byte>, b: byte)
    ensures FromBigEndian(s + [b]) == FromBigEndian(s) * 256 + b
  {
    assert (s + [b])[..|s|] == s;
  }

  /** Reading from the front: the first byte weighs 256^(|s|-1). */
  lemma {:induction false} FromBigEndianSplit(s: seq<byte>)
    requires |s| >= 1
    ensures FromBigEndian(s) == s[0] * Pow256(|s| - 1) + FromBigEndian(s[1..])
  {
    var n := |s|;
    if n == 1 {
      assert s[..0] == [] && s[1..] == [];
    } else {
      var p := s[..n - 1];
      FromBigEndianSplit(p);
      assert p[1..] == s[1..][..n - 2];
      assert p[0] == s[0];
      var x := s[0] * Pow256(n - 2);
      assert x * 256 == s[0] * Pow256(n - 1);
    }
  }

  /** Reading back the shortest form gives the number again. */
  lemma {:induction false} BigEndianRoundTrip(n: nat)
    ensures FromBigEndian(ToBigEndian(n)) == n
    decreases n
  {
    if n > 0 {
      BigEndianRoundTrip(n / 256);
      FromBigEndianSnoc(ToBigEndian(n / 256), n % 256);
    }
  }

  /** The shortest form is empty exactly for zero, and otherwise starts with a non-zero byte. */
  lemma {:induction false} ToBigEndianMinimal(n: nat)
    ensures ToBigEndian(n) == [] <==> n == 0
    ensures n > 0 ==> ToBigEndian(n)[0] != 0
    decreases n
  {
    if n >= 256 {
      ToBigEndianMinimal(n / 256);
    } else if n > 0 {
      assert ToBigEndian(n / 256) == [];
    }
  }

  /** `n` fits in `k` bytes exactly when its shortest form has at most `k` bytes. */
  lemma {:induction false} ToBigEndianLength(n: nat, k: nat)
    ensures n < Pow256(k) <==> |ToBigEndian(n)| <= k
    decreases n
  {
    if n > 0 && k > 0 {
      ToBigEndianLength(n / 256, k - 1);
    } else if n > 0 {
      assert |ToBigEndian(n)| >= 1;
    }
  }

  lemma {:induction false} Pow256Monotone(a: nat, b: nat)
    requires a <= b
    ensures Pow256(a) <= Pow256(b)
    decreases b
  {
    if a < b {
      Pow256Monotone(a, b - 1);
    }
  }

  /** A string without a leading zero byte is the shortest form of its own value. */
  lemma {:induction false} ToBigEndianOfFromBigEndian(s: seq<byte>)
    requires s == [] || s[0] != 0
    ensures ToBigEndian(FromBigEndian(s)) == s
  {
    if s != [] {
      var p, b := s[..|s| - 1], s[|s| - 1];
      assert s == p + [b];
      FromBigEndianSplit(s);
      var v := FromBigEndian(s);
      assert v > 0;
      assert v / 256 == FromBigEndian(p) && v % 256 == b;
      if p != [] {
        assert p[0] == s[0];
      }
      ToBigEndianOfFromBigEndian(p);
    }
  }
}
