/** Recursive Length Prefix encoding (Appendix B of the Ethereum Yellow Paper) for the two
    shapes the RLP example uses: unsigned 64-bit integers and lists of them. Decoding is
    canonical: it accepts a byte string exactly when it is the encoding of some value. */
module Rlp {
  import opened Wrappers
  import opened Octets

  const Two64: int := 0x1_0000_0000_0000_0000

  /** Go's `uint` on a 64-bit platform. */
  type uint64 = x: int | 0 <= x < Two64

  datatype DecodeError =
    | UnexpectedEOF        // the input ends inside a header
    | NonCanonicalSize     // a size written in a longer form than needed
    | NonCanonicalInteger  // an integer with a leading zero byte
    | UintOverflow         // an integer of more than eight bytes
    | ExpectedString       // a list where an integer is expected
    | ExpectedList         // an integer where a list is expected
    | ValueTooLarge        // the value declares more bytes than the input holds
    | ElementTooLarge      // a list element declares more bytes than the list holds

  lemma LongSizeLength(len: nat)
    requires 56 <= len < Two64
    ensures 1 <= |ToBigEndian(len)| <= 8 && ToBigEndian(len)[0] != 0
  {
    ToBigEndianLength(len, 8);
    assert Pow256(8) == Two64;
    ToBigEndianMinimal(len);
  }

  lemma FitsUint64(c: seq<byte>)
    requires |c| <= 8
    ensures FromBigEndian(c) < Two64
  {
    FromBigEndianBound(c);
    Pow256Monotone(|c|, 8);
    assert Pow256(8) == Two64;
  }

  // ---------------------------------------------------------------------------
  // Encoding

  /** The header of a string (`offset` 0x80) or list (`offset` 0xC0) payload of `len`
      bytes: one byte `offset + len` below 56, otherwise `offset + 55 + n` followed by the
      `n` bytes of `len`. */
  function Header(offset: byte, len: nat): (r: seq<byte>)
    requires offset == 0x80 || offset == 0xC0
    requires len < Two64
    ensures 1 <= |r| <= 9
  {
    if len < 56 then [offset + len]
    else
      LongSizeLength(len);
      var l := ToBigEndian(len);
      [offset + 55 + |l|] + l
  }

  /** A byte string: a single byte below 0x80 is its own encoding. */
  function EncodeString(s: seq<byte>): (r: seq<byte>)
    requires |s| < Two64
  {
    if |s| == 1 && s[0] < 0x80 then s else Header(0x80, |s|) + s
  }

  /** An unsigned integer: the string of its shortest big-endian bytes (zero is empty). */
  function EncodeUint(n: uint64): (r: seq<byte>)
    ensures 1 <= |r| <= 9
  {
    ToBigEndianLength(n, 8);
    assert Pow256(8) == Two64;
    EncodeString(ToBigEndian(n))
  }

  /** The concatenated encodings of the list elements. */
  function UintsPayload(xs: seq<uint64>): (r: seq<byte>)
    ensures |r| <= 9 * |xs|
  {
    if xs == [] then [] else EncodeUint(xs[0]) + UintsPayload(xs[1..])
  }

  /** A list of unsigned integers. */
  function EncodeUintList(xs: seq<uint64>): (r: seq<byte>)
    requires |UintsPayload(xs)| < Two64
  {
    var p := UintsPayload(xs);
    Header(0xC0, |p|) + p
  }

  // ---------------------------------------------------------------------------
  // Decoding

  datatype Kind = Byte | String | List

  /** A decoded header: the kind, how many bytes the header takes, and the payload size. */
  datatype Head = Head(kind: Kind, headerLen: nat, size: nat)

  /** The size written in `n` big-endian bytes after the first byte of `s`; it must have no
      leading zero and be at least 56, or the short form should have been used. */
  function ReadLongSize(s: seq<byte>, n: nat, kind: Kind): (r: Result<Head, DecodeError>)
    requires 1 <= n <= 8 && |s| >= 1
    ensures r.Success? ==> r.value.headerLen == 1 + n <= |s| && r.value.kind == kind
    ensures r.Success? ==> r.value.size >= 56
  {
    if |s| < 1 + n then Failure(UnexpectedEOF)
    else
      var l := s[1..1 + n];
      if l[0] == 0 then Failure(NonCanonicalSize)
      else
        var size := FromBigEndian(l);
        if size < 56 then Failure(NonCanonicalSize)
        else Success(Head(kind, 1 + n, size))
  }

  /** Reads the header at the front of `s`. */
  function ReadHeader(s: seq<byte>): (r: Result<Head, DecodeError>)
    ensures r.Success? ==> 1 <= |s| && r.value.headerLen <= |s|
    ensures r.Success? && r.value.kind == Byte ==> r.value == Head(Byte, 0, 1) && s[0] < 0x80
    ensures r.Success? && r.value.kind != Byte ==> r.value.headerLen >= 1
  {
    if s == [] then Failure(UnexpectedEOF)
    else
      var b := s[0];
      if b < 0x80 then Success(Head(Byte, 0, 1))
      else if b < 0xB8 then
        var size := b - 0x80;
        if size == 1 && |s| < 2 then Failure(UnexpectedEOF)
        else if size == 1 && s[1] < 0x80 then Failure(NonCanonicalSize)
        else Success(Head(String, 1, size))
      else if b < 0xC0 then ReadLongSize(s, b - 0xB7, String)
      else if b < 0xF8 then Success(Head(List, 1, b - 0xC0))
      else ReadLongSize(s, b - 0xF7, List)
  }

  /** Decodes one unsigned integer, an element of a list payload `s`; returns it with the
      number of bytes it took. */
  function DecodeUint(s: seq<byte>): (r: Result<(uint64, nat), DecodeError>)
    ensures r.Success? ==> 1 <= r.value.1 <= |s|
  {
    var h :- ReadHeader(s);
    if h.kind == List then Failure(ExpectedString)
    else if h.headerLen + h.size > |s| then Failure(ElementTooLarge)
    else if h.kind == Byte then
      if s[0] == 0 then Failure(NonCanonicalInteger) else Success((s[0], 1))
    else if h.size > 8 then Failure(UintOverflow)
    else
      var c := s[h.headerLen..h.headerLen + h.size];
      if h.size > 0 && c[0] == 0 then Failure(NonCanonicalInteger)
      else
        FitsUint64(c);
        Success((FromBigEndian(c), h.headerLen + h.size))
  }

  /** Decodes a list payload into its integer elements. */
  function DecodeUints(p: seq<byte>): Result<seq<uint64>, DecodeError>
    decreases |p|
  {
    if p == [] then Success([])
    else
      var (x, k) :- DecodeUint(p);
      var rest :- DecodeUints(p[k..]);
      Success([x] + rest)
  }

  /** Decodes a list of unsigned integers at the front of `s`; returns it with the number
      of bytes it took. */
  function DecodeUintList(s: seq<byte>): (r: Result<(seq<uint64>, nat), DecodeError>)
    ensures r.Success? ==> 1 <= r.value.1 <= |s|
  {
    var h :- ReadHeader(s);
    if h.kind != List then Failure(ExpectedList)
    else if h.headerLen + h.size > |s| then Failure(ValueTooLarge)
    else
      var xs :- DecodeUints(s[h.headerLen..h.headerLen + h.size]);
      Success((xs, h.headerLen + h.size))
  }

  // ---------------------------------------------------------------------------
  // Decoding inverts encoding, and accepts nothing else

  lemma ShortUintBytes(n: nat)
    requires 1 <= n < 256
    ensures ToBigEndian(n) == [n]
  {
    assert ToBigEndian(n / 256) == [];
  }

  /** An encoded integer decodes back to itself, whatever follows it. */
  lemma DecodeUintRoundTrip(n: uint64, rest: seq<byte>)
    ensures DecodeUint(EncodeUint(n) + rest) == Success((n, |EncodeUint(n)|))
  {
    var s := EncodeUint(n) + rest;
    if n == 0 {
      assert EncodeUint(n) == [0x80];
      assert ReadHeader(s) == Success(Head(String, 1, 0));
      assert s[1..1] == [];
    } else if n < 0x80 {
      ShortUintBytes(n);
      assert EncodeUint(n) == [n];
    } else {
      var l := ToBigEndian(n);
      ToBigEndianLength(n, 8);
      assert Pow256(8) == Two64;
      ToBigEndianMinimal(n);
      BigEndianRoundTrip(n);
      if |l| == 1 {
        ToBigEndianLength(n, 1);
        ShortUintBytes(n);
      }
      assert EncodeUint(n) == [0x80 + |l|] + l;
      assert ReadHeader(s) == Success(Head(String, 1, |l|));
      assert s[1..1 + |l|] == l;
    }
  }

  /** An encoded list payload decodes back to its elements. */
  lemma {:induction false} DecodeUintsRoundTrip(xs: seq<uint64>)
    ensures DecodeUints(UintsPayload(xs)) == Success(xs)
  {
    if xs != [] {
      var e, p := EncodeUint(xs[0]), UintsPayload(xs[1..]);
      DecodeUintRoundTrip(xs[0], p);
      assert (e + p)[|e|..] == p;
      DecodeUintsRoundTrip(xs[1..]);
      assert [xs[0]] + xs[1..] == xs;
    }
  }

  /** A list header reads back as the size it was written with. */
  lemma ReadListHeader(len: nat, rest: seq<byte>)
    requires len < Two64
    ensures ReadHeader(Header(0xC0, len) + rest) == Success(Head(List, |Header(0xC0, len)|, len))
  {
    var s := Header(0xC0, len) + rest;
    if len >= 56 {
      LongSizeLength(len);
      var l := ToBigEndian(len);
      assert s[1..1 + |l|] == l;
      BigEndianRoundTrip(len);
    }
  }

  /** Decoding a list whose header is known and whose payload is the encoding of `xs`;
      `n` is the length of header and payload together. */
  lemma DecodeUintListParts(s: seq<byte>, hl: nat, xs: seq<uint64>, n: nat)
    requires ReadHeader(s) == Success(Head(List, hl, |UintsPayload(xs)|))
    requires n == hl + |UintsPayload(xs)| <= |s| && s[hl..n] == UintsPayload(xs)
    ensures DecodeUintList(s) == Success((xs, n))
  {
    DecodeUintsRoundTrip(xs);
  }

  /** The header of a list and its payload, read back from the encoding. */
  lemma ListPieces(h: seq<byte>, p: seq<byte>, rest: seq<byte>)
    requires |p| < Two64 && h == Header(0xC0, |p|)
    ensures ReadHeader(h + p + rest) == Success(Head(List, |h|, |p|))
    ensures |h| + |p| <= |h + p + rest| && (h + p + rest)[|h|..|h| + |p|] == p
  {
    assert h + p + rest == h + (p + rest);
    ReadListHeader(|p|, p + rest);
    assert (h + (p + rest))[|h|..|h| + |p|] == p;
  }

  /** The header and the payload of an encoded list, read back. */
  lemma EncodedListPieces(xs: seq<uint64>, rest: seq<byte>)
    requires |UintsPayload(xs)| < Two64
    ensures var p := UintsPayload(xs); var hl := |Header(0xC0, |p|)|; var s := EncodeUintList(xs) + rest;
      ReadHeader(s) == Success(Head(List, hl, |p|)) && |EncodeUintList(xs)| == hl + |p| <= |s| &&
      s[hl..hl + |p|] == p
  {
    var p := UintsPayload(xs);
    var h := Header(0xC0, |p|);
    ListPieces(h, p, rest);
    assert EncodeUintList(xs) + rest == h + p + rest;
  }

  /** An encoded list decodes back to itself, whatever follows it. */
  lemma DecodeUintListRoundTrip(xs: seq<uint64>, rest: seq<byte>)
    requires |UintsPayload(xs)| < Two64
    ensures DecodeUintList(EncodeUintList(xs) + rest) == Success((xs, |EncodeUintList(xs)|))
  {
    EncodedListPieces(xs, rest);
    DecodeUintListParts(EncodeUintList(xs) + rest, |Header(0xC0, |UintsPayload(xs)|)|, xs, |EncodeUintList(xs)|);
  }

  /** Whatever bytes an integer is decoded from are its encoding: no other form is
      accepted. */
  lemma DecodeUintCanonical(s: seq<byte>, n: uint64, k: nat)
    requires DecodeUint(s) == Success((n, k))
    ensures k <= |s| && s[..k] == EncodeUint(n)
  {
    if s[0] < 0x80 {
      assert n == s[0] && k == 1;
      ShortUintBytes(s[0]);
      assert s[..1] == [s[0]];
    } else {
      var size := s[0] - 0x80;
      assert s[0] < 0xB8 && size <= 8 && k == 1 + size;
      assert size > 0 ==> s[1] != 0;
      assert size == 1 ==> s[1] >= 0x80;
      assert n == FromBigEndian(s[1..1 + size]);
      StringUintCanonical(s, size, n);
    }
  }

  /** An integer written as a string of `size` bytes in canonical form. */
  lemma StringUintCanonical(s: seq<byte>, size: nat, n: uint64)
    requires size <= 8 && 1 + size <= |s| && s[0] == 0x80 + size
    requires size > 0 ==> s[1] != 0
    requires size == 1 ==> s[1] >= 0x80
    requires n == FromBigEndian(s[1..1 + size])
    ensures s[..1 + size] == EncodeUint(n)
  {
    var c := s[1..1 + size];
    ToBigEndianOfFromBigEndian(c);
    assert s[..1 + size] == [s[0]] + c;
  }

  /** Whatever payload a list of integers is decoded from is its encoding. */
  lemma {:induction false} DecodeUintsCanonical(p: seq<byte>)
    requires DecodeUints(p).Success?
    ensures p == UintsPayload(DecodeUints(p).value)
    decreases |p|
  {
    if p != [] {
      var (x, k) := DecodeUint(p).value;
      DecodeUintCanonical(p, x, k);
      DecodeUintsCanonical(p[k..]);
      var ys := DecodeUints(p[k..]).value;
      assert DecodeUints(p).value == [x] + ys;
      PayloadStep(p, k, x, ys);
    }
  }

  /** A payload that starts with the encoding of `x` and continues with the payload of
      `ys` is the payload of `[x] + ys`. */
  lemma PayloadStep(p: seq<byte>, k: nat, x: uint64, ys: seq<uint64>)
    requires k <= |p| && p[..k] == EncodeUint(x) && p[k..] == UintsPayload(ys)
    ensures p == UintsPayload([x] + ys)
  {
    assert ([x] + ys)[1..] == ys;
    assert p == p[..k] + p[k..];
  }

  /** A list header that reads successfully is the one written for its size. */
  lemma ListHeaderCanonical(s: seq<byte>, h: Head)
    requires ReadHeader(s) == Success(h) && h.kind == List
    ensures h.size < Two64 && Header(0xC0, h.size) == s[..h.headerLen]
  {
    if s[0] >= 0xF8 {
      var l := s[1..h.headerLen];
      FitsUint64(l);
      ToBigEndianOfFromBigEndian(l);
      assert s[..h.headerLen] == [s[0]] + l;
    } else {
      assert s[..h.headerLen] == [s[0]];
    }
  }

  /** What a successful list decoding consists of. */
  lemma DecodeUintListSuccess(s: seq<byte>, xs: seq<uint64>, k: nat)
    requires DecodeUintList(s) == Success((xs, k))
    ensures ReadHeader(s).Success?
    ensures var h := ReadHeader(s).value;
      h.kind == List && h.headerLen + h.size <= |s| && k == h.headerLen + h.size &&
      DecodeUints(s[h.headerLen..h.headerLen + h.size]) == Success(xs)
  {
  }

  /** Whatever bytes a list is decoded from are its encoding. */
  lemma DecodeUintListCanonical(s: seq<byte>, xs: seq<uint64>, k: nat)
    requires DecodeUintList(s) == Success((xs, k))
    ensures |UintsPayload(xs)| < Two64 && k <= |s| && s[..k] == EncodeUintList(xs)
  {
    DecodeUintListSuccess(s, xs, k);
    var h := ReadHeader(s).value;
    assert ReadHeader(s) == Success(h) && h.kind == List && h.headerLen + h.size <= |s|;
    assert DecodeUints(s[h.headerLen..h.headerLen + h.size]) == Success(xs);
    ListCanonical(s, h, xs);
    assert k == h.headerLen + h.size;
  }

  lemma ListCanonical(s: seq<byte>, h: Head, xs: seq<uint64>)
    requires ReadHeader(s) == Success(h) && h.kind == List && h.headerLen + h.size <= |s|
    requires DecodeUints(s[h.headerLen..h.headerLen + h.size]) == Success(xs)
    ensures |UintsPayload(xs)| < Two64 && s[..h.headerLen + h.size] == EncodeUintList(xs)
  {
    DecodeUintsCanonical(s[h.headerLen..h.headerLen + h.size]);
    ListHeaderCanonical(s, h);
    ListAssemble(s, h.headerLen, h.size, xs);
  }

  /** A list header followed by the payload of `xs` is the encoding of `xs`. */
  lemma ListAssemble(s: seq<byte>, hl: nat, size: nat, xs: seq<uint64>)
    requires hl + size <= |s| && size < Two64
    requires s[hl..hl + size] == UintsPayload(xs) && Header(0xC0, size) == s[..hl]
    ensures |UintsPayload(xs)| < Two64 && s[..hl + size] == EncodeUintList(xs)
  {
    assert s[..hl + size] == s[..hl] + s[hl..hl + size];
  }

  /** Decoding a list succeeds exactly on the input that starts with the encoding of that
      list, and takes exactly those bytes. */
  lemma DecodeUintListIff(s: seq<byte>, xs: seq<uint64>, k: nat)
    ensures DecodeUintList(s) == Success((xs, k)) <==>
      |UintsPayload(xs)| < Two64 && k == |EncodeUintList(xs)| && k <= |s| && s[..k] == EncodeUintList(xs)
  {
    if DecodeUintList(s) == Success((xs, k)) {
      DecodeUintListCanonical(s, xs, k);
    }
    if |UintsPayload(xs)| < Two64 && k == |EncodeUintList(xs)| && k <= |s| && s[..k] == EncodeUintList(xs) {
      assert s == EncodeUintList(xs) + s[k..];
      DecodeUintListRoundTrip(xs, s[k..]);
    }
  }
}
