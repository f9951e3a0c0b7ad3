/** The custom RLP encoder and decoder of rlp/encoder_example_test.go: `MyCoolType` is
    written as the two-element list [A, B] of its integer fields; its `Name` is not
    encoded. Encoding to bytes cannot fail, so the writer's error is not modelled. */
module RlpExample {
  import opened Wrappers
  import opened Octets
  import opened Rlp

  datatype ExampleError =
    | Decoding(cause: DecodeError)      // the list of integers could not be decoded
    | InvalidElementsNumber(count: nat)  // the list does not hold exactly two integers

  class MyCoolType {
    var Name: string
    var A: uint64
    var B: uint64

    constructor (name: string, a: uint64, b: uint64)
      ensures Name == name && A == a && B == b
    {
      Name, A, B := name, a, b;
    }

    /** `DecodeRLP`: reads a list of integers from `input`. A decoding error is returned and
        the receiver left alone; a list of other than two elements is refused the same way;
        otherwise `A` and `B` are set from it. `Name` is never touched. */
    method DecodeRLP(input: seq<byte>) returns (err: Option<ExampleError>)
      modifies this
      ensures Name == old(Name)
      ensures DecodePair(input).Success? ==>
        err.None? && (A, B) == DecodePair(input).value
      ensures DecodePair(input).Failure? ==>
        err == Some(DecodePair(input).error) && A == old(A) && B == old(B)
    {
      var r := DecodeUintList(input);
      if r.Failure? {
        return Some(Decoding(r.error));
      }
      var a := r.value.0;
      if |a| != 2 {
        return Some(InvalidElementsNumber(|a|));
      }
      A := a[0];
      B := a[1];
      err := None;
    }
  }

  /** What `DecodeRLP` extracts from its input: the two integers, or the error. */
  function DecodePair(input: seq<byte>): (r: Result<(uint64, uint64), ExampleError>)
  {
    match DecodeUintList(input)
    case Failure(e) => Failure(Decoding(e))
    case Success((a, _)) =>
      if |a| != 2 then Failure(InvalidElementsNumber(|a|)) else Success((a[0], a[1]))
  }

  /** `EncodeRLP`: the list [A, B], or [0, 0] for a nil receiver. */
  function EncodeRLP(x: MyCoolType?): (r: seq<byte>)
    reads x
    ensures x == null ==> r == EncodeUintList([0, 0]) == [0xC2, 0x80, 0x80]
    ensures x != null ==> r == EncodeUintList([x.A, x.B])
    ensures x != null ==> DecodePair(r) == Success((x.A, x.B))
    ensures x == null ==> DecodePair(r) == Success((0, 0))
  {
    var elems: seq<uint64> := if x == null then [0, 0] else [x.A, x.B];
    var r := EncodeUintList(elems);
    DecodeUintListRoundTrip(elems, []);
    assert r + [] == r;
    assert ToBigEndian(0) == [];
    r
  }

  /** The encoding depends on `A` and `B` only: the name is left out. */
  lemma EncodeIgnoresName(x: MyCoolType, y: MyCoolType)
    requires x.A == y.A && x.B == y.B
    ensures EncodeRLP(x) == EncodeRLP(y)
  {
  }

  /** `DecodeRLP` accepts exactly the encoding of a pair, followed by anything (the
      decoder reads one value and leaves the rest of the input). */
  lemma DecodePairIff(input: seq<byte>, a: uint64, b: uint64)
    ensures DecodePair(input) == Success((a, b)) <==>
      |EncodeUintList([a, b])| <= |input| && input[..|EncodeUintList([a, b])|] == EncodeUintList([a, b])
  {
    var xs: seq<uint64> := [a, b];
    assert |UintsPayload(xs)| <= 18;
    var k := |EncodeUintList(xs)|;
    DecodeUintListIff(input, xs, k);
    if DecodePair(input) == Success((a, b)) {
      var (ys, k') := DecodeUintList(input).value;
      assert ys == xs;
      DecodeUintListIff(input, ys, k');
    }
  }

  /** Integers 1 to 127 are written as themselves, so a pair of them takes three bytes. */
  lemma SmallPairBytes(a: uint64, b: uint64)
    requires 1 <= a < 0x80 && 1 <= b < 0x80
    ensures EncodeUintList([a, b]) == [0xC2, a, b]
  {
    ShortUintBytes(a);
    ShortUintBytes(b);
    assert UintsPayload([a, b]) == [a, b] by {
      assert [a, b][1..] == [b];
    }
  }

  /** `decodefunc`: decodes `input` into a zero `MyCoolType`. */
  method DecodeFunc(input: seq<byte>) returns (t: MyCoolType, err: Option<ExampleError>)
    ensures err.None? <==> DecodePair(input).Success?
    ensures err.Some? ==> err == Some(DecodePair(input).error) && t.A == 0 && t.B == 0
    ensures err.None? ==> (t.A, t.B) == DecodePair(input).value
    ensures t.Name == []
  {
    t := new MyCoolType([], 0, 0);
    err := t.DecodeRLP(input);
  }

  /** `exampleEncoder`: a nil value encodes as C2 80 80, the value {foobar, 5, 6} as
      C2 05 06, and the latter decodes with A = 5 and B = 6. */
  method ExampleEncoder() returns (nilBytes: seq<byte>, bytes: seq<byte>, err: Option<ExampleError>)
    ensures nilBytes == [0xC2, 0x80, 0x80]
    ensures bytes == [0xC2, 0x05, 0x06]
    ensures err.None?
  {
    var t: MyCoolType? := null;
    nilBytes := EncodeRLP(t);
    t := new MyCoolType("foobar", 5, 6);
    bytes := EncodeRLP(t);
    SmallPairBytes(5, 6);
    var decoded;
    decoded, err := DecodeFunc(bytes);
  }
}
