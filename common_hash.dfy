/** The 32-byte `Hash` value of common/hash.go and the digest compositions built on it.
    SHA-256, RIPEMD-160 and Keccak are not modelled: each is a parameter of the operations
    that use it, constrained only by its output length. */
module Common {
  import opened Wrappers
  import opened Octets

  const HashLength: nat := 32

  function Zeros(n: nat): (r: seq<byte>)
    ensures |r| == n && forall i :: 0 <= i < n ==> r[i] == 0
  {
    seq(n, _ => 0)
  }

  /** A 32-byte array value. */
  type Hash = h: seq<byte> | |h| == HashLength witness Zeros(HashLength)

  type Bytes20 = s: seq<byte> | |s| == 20 witness Zeros(20)
  type Bytes64 = s: seq<byte> | |s| == 64 witness Zeros(64)

  /** Digests by their output length; their internals are out of scope. */
  type Digest20 = seq<byte> -> Bytes20
  type Digest32 = seq<byte> -> Hash
  type Digest64 = seq<byte> -> Bytes64

  function Min(a: int, b: int): int
  {
    if a <= b then a else b
  }

  // ---------------------------------------------------------------------------
  // Go's built-in copy

  /** `dst` after Go's `copy(dst[off:], src)`: the first `min(len(dst)-off, len(src))`
      bytes of `src` replace the bytes of `dst` from `off`; everything else is kept. */
  function Copied(dst: seq<byte>, off: nat, src: seq<byte>): (r: seq<byte>)
    requires off <= |dst|
    ensures |r| == |dst|
    ensures r[..off] == dst[..off]
    ensures forall i :: off <= i < off + Min(|dst| - off, |src|) ==> r[i] == src[i - off]
    ensures forall i :: off + Min(|dst| - off, |src|) <= i < |dst| ==> r[i] == dst[i]
  {
    var n := Min(|dst| - off, |src|);
    dst[..off] + src[..n] + dst[off + n..]
  }

  /** A source at least as long as the destination overwrites all of it. */
  lemma CopiedWhole(dst: seq<byte>, src: seq<byte>)
    requires |src| >= |dst|
    ensures Copied(dst, 0, src) == src[..|dst|]
  {
  }

  /** Go's `copy(dst[off:], src)` on an array; returns the number of bytes copied. */
  method Copy(dst: array<byte>, off: nat, src: seq<byte>) returns (n: nat)
    requires off <= dst.Length
    modifies dst
    ensures n == Min(dst.Length - off, |src|)
    ensures dst[..] == Copied(old(dst[..]), off, src)
  {
    n := Min(dst.Length - off, |src|);
    forall i | off <= i < off + n {
      dst[i] := src[i - off];
    }
  }

  // ---------------------------------------------------------------------------
  // Hash, BytesToHash, Bytes, SetBytes

  /** The hash `h` after `h.SetBytes(b)`: a `b` longer than 32 bytes is cropped from the
      left (its last 32 bytes are kept); a shorter one replaces the last `len(b)` bytes of
      `h` and leaves the leading bytes as they were. */
  function WithBytes(h: Hash, b: seq<byte>): (r: Hash)
    ensures |b| >= HashLength ==> r == b[|b| - HashLength..]
    ensures |b| < HashLength ==>
      r[..HashLength - |b|] == h[..HashLength - |b|] && r[HashLength - |b|..] == b
  {
    var c := if |b| > HashLength then b[|b| - HashLength..] else b;
    var r := Copied(h, HashLength - |c|, c);
    assert |b| < HashLength ==> r[HashLength - |b|..] == b;
    r
  }

  /** `(*Hash).SetBytes` on the hash stored in `h`. */
  method SetBytes(h: array<byte>, b: seq<byte>)
    requires h.Length == HashLength
    modifies h
    ensures h[..] == WithBytes(old(h[..]), b)
  {
    var c := b;
    if |c| > h.Length {
      c := c[|c| - HashLength..];
    }
    var _ := Copy(h, HashLength - |c|, c);
  }

  /** `BytesToHash`: `b` set into the zero hash. */
  function BytesToHash(b: seq<byte>): (r: Hash)
    ensures |b| <= HashLength ==> r == Zeros(HashLength - |b|) + b
    ensures |b| >= HashLength ==> r == b[|b| - HashLength..]
  {
    var r := WithBytes(Zeros(HashLength), b);
    assert |b| <= HashLength ==> r == r[..HashLength - |b|] + r[HashLength - |b|..];
    r
  }

  /** `Hash.Bytes`: the 32 bytes of the hash as a slice. */
  function Bytes(h: Hash): (r: seq<byte>)
    ensures |r| == HashLength
  {
    h[..]
  }

  /** Converting a hash to bytes and back gives the same hash. */
  lemma BytesToHashOfBytes(h: Hash)
    ensures BytesToHash(Bytes(h)) == h
  {
    assert Bytes(h)[0..] == h;
  }

  /** Only the last 32 bytes of the input matter: anything in front is cropped away. */
  lemma BytesToHashCropsLeft(prefix: seq<byte>, b: seq<byte>)
    requires |b| >= HashLength
    ensures BytesToHash(prefix + b) == BytesToHash(b)
  {
    assert (prefix + b)[|prefix + b| - HashLength..] == b[|b| - HashLength..];
  }

  /** Short inputs lose nothing: they can be read back from the end of the hash. */
  lemma BytesToHashKeepsShort(b: seq<byte>)
    requires |b| <= HashLength
    ensures BytesToHash(b)[HashLength - |b|..] == b
  {
    assert (Zeros(HashLength - |b|) + b)[HashLength - |b|..] == b;
  }

  /** Setting bytes twice has the effect of setting them once. */
  lemma WithBytesIdempotent(h: Hash, b: seq<byte>)
    ensures WithBytes(WithBytes(h, b), b) == WithBytes(h, b)
  {
    if |b| < HashLength {
      var r, r2 := WithBytes(h, b), WithBytes(WithBytes(h, b), b);
      assert r2 == r2[..HashLength - |b|] + r2[HashLength - |b|..];
      assert r == r[..HashLength - |b|] + r[HashLength - |b|..];
    }
  }

  // ---------------------------------------------------------------------------
  // Hex text

  /** The lower-case hex digit of a nibble. */
  function HexDigit(v: nat): (c: char)
    requires v < 16
    ensures IsHexDigit(c)
  {
    if v < 10 then ('0' as int + v) as char else ('a' as int + v - 10) as char
  }

  predicate IsHexDigit(c: char)
  {
    '0' <= c <= '9' || 'a' <= c <= 'f'
  }

  /** Lower-case hex text of `d`, two digits per byte, high nibble first (`hex.Encode`). */
  function HexEncode(d: seq<byte>): (r: string)
    ensures |r| == 2 * |d|
    ensures forall i :: 0 <= i < |r| ==> IsHexDigit(r[i])
  {
    if d == [] then []
    else HexEncode(d[..|d| - 1]) + [HexDigit(d[|d| - 1] / 16), HexDigit(d[|d| - 1] % 16)]
  }

  function NibbleOf(c: char): Option<nat>
  {
    if '0' <= c <= '9' then Some(c as int - '0' as int)
    else if 'a' <= c <= 'f' then Some(c as int - 'a' as int + 10)
    else None
  }

  /** The bytes of lower-case hex text, or `None` when the text is not an even number of
      lower-case hex digits. */
  function HexDecode(s: string): Option<seq<byte>>
  {
    if s == [] then Some([])
    else if |s| == 1 then None
    else
      var n := |s|;
      match (HexDecode(s[..n - 2]), NibbleOf(s[n - 2]), NibbleOf(s[n - 1]))
      case (Some(d), Some(hi), Some(lo)) => Some(d + [hi * 16 + lo])
      case _ => None
  }

  lemma NibbleOfDigit(v: nat)
    requires v < 16
    ensures NibbleOf(HexDigit(v)) == Some(v)
  {
  }

  lemma HexDecodeSnoc(t: string, hi: char, lo: char)
    ensures HexDecode(t + [hi, lo]) ==
      match (HexDecode(t), NibbleOf(hi), NibbleOf(lo))
      case (Some(d), Some(h), Some(l)) => Some(d + [h * 16 + l])
      case _ => None
  {
    assert (t + [hi, lo])[..|t|] == t;
  }

  /** Hex text decodes back to the bytes it was made from. */
  lemma {:induction false} HexRoundTrip(d: seq<byte>)
    ensures HexDecode(HexEncode(d)) == Some(d)
  {
    if d != [] {
      var p, b := d[..|d| - 1], d[|d| - 1];
      var hi, lo := HexDigit(b / 16), HexDigit(b % 16);
      assert HexEncode(d) == HexEncode(p) + [hi, lo];
      HexRoundTrip(p);
      NibbleOfDigit(b / 16);
      NibbleOfDigit(b % 16);
      HexDecodeSnoc(HexEncode(p), hi, lo);
      assert p + [b] == d;
    }
  }

  /** `HashHex`: `d` hex-encoded into a 64-byte buffer; bytes the encoding does not reach
      keep their zero value. Longer input overruns the buffer, which panics in Go. */
  function HashHex(d: seq<byte>): (r: string)
    requires |d| <= HashLength
    ensures |r| == 2 * HashLength
    ensures HexDecode(r[..2 * |d|]) == Some(d)
    ensures forall i :: 2 * |d| <= i < |r| ==> r[i] == '\0'
  {
    var r := HexEncode(d) + seq(2 * HashLength - 2 * |d|, _ => '\0');
    HexRoundTrip(d);
    assert r[..2 * |d|] == HexEncode(d);
    r
  }

  /** `IsHex`: at least four characters, an even number of them, and a leading "0x". The
      digits after the prefix are not examined. */
  predicate IsHex(str: string): (b: bool)
    ensures b <==> |str| >= 2 && str[..2] == "0x" && |str[2..]| >= 2 && |str[2..]| % 2 == 0
  {
    |str| >= 4 && |str| % 2 == 0 && str[0] == '0' && str[1] == 'x'
  }

  /** What `IsHex` accepts and rejects, including text that is not hex at all. */
  lemma IsHexExamples()
    ensures IsHex("0x00") && IsHex("0xzz") && IsHex("0x0000")
    ensures !IsHex("0x") && !IsHex("0x000") && !IsHex("00000") && !IsHex("0X00")
  {
  }

  /** `IsHex` accepts "0x" followed by any non-empty text of even length, such as the hex
      text of a non-empty byte string. */
  lemma IsHexOfPrefixed(body: string)
    requires |body| >= 2 && |body| % 2 == 0
    ensures IsHex("0x" + body)
  {
  }

  /** The text `HashHex` produces carries no "0x" prefix, so `IsHex` rejects it. */
  lemma HashHexIsNotPrefixed(d: seq<byte>)
    requires |d| <= HashLength
    ensures !IsHex(HashHex(d))
  {
    var r := HashHex(d);
    if |d| >= 1 {
      assert r[..2 * |d|] == HexEncode(d) by {
        HexRoundTrip(d);
        assert r == HexEncode(d) + seq(2 * HashLength - 2 * |d|, _ => '\0');
      }
      assert IsHexDigit(r[1]);
    } else {
      assert r[1] == '\0';
    }
  }

  // ---------------------------------------------------------------------------
  // Digest compositions

  /** `Sha2Sum`: SHA-256 applied twice. */
  function Sha2Sum(sha256: Digest32, b: seq<byte>): (r: seq<byte>)
    ensures |r| == 32
  {
    sha256(sha256(b))
  }

  /** `ShaHash`: the double SHA-256 of `b` copied into the front of `out` (as much of it as
      fits). */
  method ShaHash(sha256: Digest32, b: seq<byte>, out: array<byte>)
    modifies out
    ensures out[..] == Copied(old(out[..]), 0, Sha2Sum(sha256, b))
  {
    var tmp := sha256(b);
    var sum := sha256(tmp);
    var _ := Copy(out, 0, sum);
  }

  /** `RimpHash`: RIPEMD-160 of the SHA-256 of `input`, copied into the front of `out`. */
  method RimpHash(sha256: Digest32, ripemd160: Digest20, input: seq<byte>, out: array<byte>)
    modifies out
    ensures out[..] == Copied(old(out[..]), 0, ripemd160(sha256(input)))
  {
    var sha := sha256(input);
    var rim := ripemd160(sha);
    var _ := Copy(out, 0, rim);
  }

  /** `Rimp160`: `RimpHash` into a fresh 20-byte buffer, which it fills completely. */
  method Rimp160(sha256: Digest32, ripemd160: Digest20, b: seq<byte>) returns (r: seq<byte>)
    ensures r == ripemd160(sha256(b))
  {
    var out := new byte[20](_ => 0);
    ghost var before := out[..];
    RimpHash(sha256, ripemd160, b, out);
    r := out[..];
    CopiedWhole(before, ripemd160(sha256(b)));
  }

  /** The hash test's two equalities: `ShaHash` into a 32-byte buffer agrees with
      `Sha2Sum`, and `RimpHash` into a 20-byte buffer agrees with `Rimp160`. */
  method HashAgreement(sha256: Digest32, ripemd160: Digest20, key: seq<byte>)
    returns (k1: seq<byte>, k3: seq<byte>, h1: seq<byte>, h2: seq<byte>)
    ensures k1 == k3 && |k1| == 32
    ensures h1 == h2 && |h1| == 20
  {
    var k1Buf := new byte[32](_ => 0);
    ghost var k1Before := k1Buf[..];
    ShaHash(sha256, key, k1Buf);
    k1 := k1Buf[..];
    k3 := Sha2Sum(sha256, key);
    CopiedWhole(k1Before, k3);
    var h1Buf := new byte[20](_ => 0);
    ghost var h1Before := h1Buf[..];
    RimpHash(sha256, ripemd160, k1, h1Buf);
    h1 := h1Buf[..];
    h2 := Rimp160(sha256, ripemd160, k1);
    CopiedWhole(h1Before, h2);
  }

  /** The concatenation of the variadic arguments, as the digest sees them written. */
  function Concat(parts: seq<seq<byte>>): seq<byte>
  {
    if parts == [] then [] else Concat(parts[..|parts| - 1]) + parts[|parts| - 1]
  }

  /** How the data is split between arguments does not matter to the digest. */
  lemma {:induction false} ConcatAppend(a: seq<seq<byte>>, b: seq<seq<byte>>)
    ensures Concat(a + b) == Concat(a) + Concat(b)
  {
    if b == [] {
      assert a + b == a;
    } else {
      var b', x := b[..|b| - 1], b[|b| - 1];
      assert (a + b)[..|a + b| - 1] == a + b' && (a + b)[|a + b| - 1] == x;
      ConcatAppend(a, b');
      assert Concat(a + b) == (Concat(a) + Concat(b')) + x;
      assert Concat(b) == Concat(b') + x;
    }
  }

  /** The loop shared by the Keccak functions: every argument is written to the digest
      state in order; the bytes written so far stand for that state. */
  method WriteAll(data: seq<seq<byte>>) returns (written: seq<byte>)
    ensures written == Concat(data)
  {
    written := [];
    for i := 0 to |data|
      invariant written == Concat(data[..i])
    {
      assert data[..i + 1][..i] == data[..i];
      written := written + data[i];
    }
    assert data[..|data|] == data;
  }

  /** `Keccak256`: the Keccak-256 digest of all arguments written in order. */
  method Keccak256(keccak256: Digest32, data: seq<seq<byte>>) returns (r: seq<byte>)
    ensures r == keccak256(Concat(data))
  {
    var written := WriteAll(data);
    r := keccak256(written);
  }

  /** `Keccak256Hash`: the same digest, summed into the hash's own 32 bytes. */
  method Keccak256Hash(keccak256: Digest32, data: seq<seq<byte>>) returns (h: Hash)
    ensures h == keccak256(Concat(data))
  {
    var written := WriteAll(data);
    h := keccak256(written);
  }

  /** `Keccak512`: the Keccak-512 digest of all arguments written in order. */
  method Keccak512(keccak512: Digest64, data: seq<seq<byte>>) returns (r: seq<byte>)
    ensures r == keccak512(Concat(data))
  {
    var written := WriteAll(data);
    r := keccak512(written);
  }
}
