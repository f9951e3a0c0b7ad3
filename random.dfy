/** The pseudo-random helpers of random.go. The state of Go's math/rand generator is not
    modelled: each operation receives the values its generator calls would return, in
    call order, as parameters (a `Uint32Draw` per `Uint32()` call, an `Int63Draw` per
    `Int63()` or `Int()` call, which on a 64-bit platform is the same non-negative value). */
module Random {
  import opened Octets

  const Two16: int := 0x1_0000
  const Two32: int := 0x1_0000_0000
  const Two63: int := 0x8000_0000_0000_0000
  const Two64: int := 0x1_0000_0000_0000_0000

  type uint64 = x: int | 0 <= x < Two64
  type Uint32Draw = x: int | 0 <= x < Two32
  type Int63Draw = x: int | 0 <= x < Two63

  /** The 62 characters `Str` draws from. */
  const StrChars: string := "0123456789ABCDEFGHIJKLMNOPQRSTUVWXYZabcdefghijklmnopqrstuvwxyz"

  // ---------------------------------------------------------------------------
  // Seed assembly (`init`)

  function Pow2(k: nat): (r: nat)
    ensures r >= 1
  {
    if k == 0 then 1 else 2 * Pow2(k - 1)
  }

  /** Bitwise or of two naturals, bit by bit from the least significant end. */
  function BitOr(a: nat, b: nat): nat
    decreases a + b
  {
    if a == 0 then b
    else if b == 0 then a
    else 2 * BitOr(a / 2, b / 2) + (if a % 2 == 1 || b % 2 == 1 then 1 else 0)
  }

  /** Go's `x <<= 8` on a uint64: the top byte is shifted out. */
  function ShiftLeftByte(x: uint64): uint64
  {
    (x * 256) % Two64
  }

  /** Go's conversion `int64(x)` of a uint64: two's complement reinterpretation. */
  function ToInt64(x: uint64): (r: int)
    ensures -Two63 <= r < Two63
    ensures (x - r) % Two64 == 0
  {
    if x < Two63 then x else x - Two64
  }

  /** The seed handed to the generator: bytes 1..7 of the entropy, big-endian, followed by
      a zero byte, read as an int64. Byte 0 is shifted out of the 64-bit accumulator. */
  function SeedOf(bz: seq<byte>): int
    requires |bz| == 8
  {
    SevenBytesBound(bz[1..]);
    ToInt64(FromBigEndian(bz[1..]) * 256)
  }

  lemma SevenBytesBound(s: seq<byte>)
    requires |s| == 7
    ensures FromBigEndian(s) < 0x100_0000_0000_0000
  {
    FromBigEndianBound(s);
    assert Pow256(7) == 0x100_0000_0000_0000;
  }

  /** Or-ing a value below 2^k into a multiple of 2^k is addition. */
  lemma {:induction false} BitOrDisjoint(q: nat, b: nat, k: nat)
    requires b < Pow2(k)
    ensures BitOr(Pow2(k) * q, b) == Pow2(k) * q + b
    decreases k
  {
    var a := Pow2(k) * q;
    if q == 0 {
      assert a == 0;
    } else if b != 0 {
      var p := Pow2(k - 1);
      assert a == 2 * (p * q);
      assert a != 0;
      BitOrDisjoint(q, b / 2, k - 1);
    }
  }

  lemma ModMultiple(a: int, c: int)
    ensures (a + Two64 * c) % Two64 == a % Two64
  {
  }

  lemma LowByteZero(b: int)
    ensures ((b * 256) % Two64) % 256 == 0
  {
    var q := (b * 256) / Two64;
    var t := b - 0x100_0000_0000_0000 * q;
    assert (b * 256) % Two64 == 256 * t;
  }

  lemma ModShift(x: int, b: int)
    ensures (((x % Two64) + b) * 256) % Two64 == ((x + b) * 256) % Two64
  {
    var k := x / Two64;
    assert ((x + b) * 256) == ((x % Two64) + b) * 256 + Two64 * (256 * k);
    ModMultiple(((x % Two64) + b) * 256, 256 * k);
  }

  lemma Pow2Byte()
    ensures Pow2(8) == 256
  {
  }

  /** A multiple of 256 below 2^64 has room for one more byte. */
  lemma RoomForByte(seed: uint64, b: byte)
    requires seed % 256 == 0
    ensures seed + b < Two64
  {
    var q := seed / 256;
    assert seed == 256 * q;
  }

  /** Or-ing a byte into a multiple of 256 is addition. */
  lemma BitOrByte(q: nat, b: byte)
    ensures BitOr(256 * q, b) == 256 * q + b
  {
    Pow2Byte();
    BitOrDisjoint(q, b, 8);
  }

  /** The arithmetic of one round of the seed loop, for the value `x` of the bytes so far. */
  lemma StepArith(seed: uint64, x: int, b: byte)
    requires seed == (x * 256) % Two64
    ensures BitOr(seed, b) == seed + b < Two64
    ensures ShiftLeftByte(seed + b) == ((x * 256 + b) * 256) % Two64
  {
    LowByteZero(x);
    RoomForByte(seed, b);
    var q := seed / 256;
    assert seed == 256 * q;
    BitOrByte(q, b);
    ModShift(x * 256, b);
  }

  /** One round of the seed loop on bytes `p` then `b`: after or-ing in `b` and shifting,
      the accumulator is the bytes seen so far followed by a zero byte, truncated to 64
      bits. */
  lemma StepWindow(seed: uint64, p: seq<byte>, b: byte)
    requires seed == (FromBigEndian(p) * 256) % Two64
    ensures BitOr(seed, b) == seed + b < Two64
    ensures ShiftLeftByte(seed + b) == (FromBigEndian(p + [b]) * 256) % Two64
  {
    StepArith(seed, FromBigEndian(p), b);
    FromBigEndianSnoc(p, b);
  }

  /** The accumulator of the seed loop after the bytes `p`: they are shifted up one byte and
      truncated to 64 bits. */
  function Accumulated(p: seq<byte>): (r: uint64)
  {
    (FromBigEndian(p) * 256) % Two64
  }

  lemma StepKeepsWindow(acc: uint64, bz: seq<byte>, i: nat)
    requires i < |bz| && acc == Accumulated(bz[..i])
    ensures BitOr(acc, bz[i]) == acc + bz[i] < Two64
    ensures ShiftLeftByte(acc + bz[i]) == Accumulated(bz[..i + 1])
  {
    var p, b := bz[..i], bz[i];
    assert bz[..i + 1] == p + [b];
    StepWindow(acc, p, b);
  }

  /** After eight rounds only the last seven bytes remain, above a zero byte. */
  lemma Window(bz: seq<byte>)
    requires |bz| == 8
    ensures Accumulated(bz) == FromBigEndian(bz[1..]) * 256
  {
    FromBigEndianSplit(bz);
    SevenBytesBound(bz[1..]);
    assert Pow256(7) == 0x100_0000_0000_0000;
    ModMultiple(FromBigEndian(bz[1..]) * 256, bz[0]);
  }

  /** `init`: assemble the seed from eight bytes of entropy `bz` (read from crypto/rand,
      which is not modelled). Returns the int64 passed to `reset`. */
  method Init(bz: seq<byte>) returns (seed: int)
    requires |bz| == 8
    ensures seed == SeedOf(bz)
  {
    var acc: uint64 := 0;
    for i := 0 to 8
      invariant acc == Accumulated(bz[..i])
    {
      StepKeepsWindow(acc, bz, i);
      acc := BitOr(acc, bz[i]);
      acc := ShiftLeftByte(acc);
    }
    assert bz[..8] == bz;
    Window(bz);
    seed := ToInt64(acc);
  }

  lemma ToInt64KeepsLowByte(x: uint64)
    requires x % 256 == 0
    ensures ToInt64(x) % 256 == 0
  {
    if x >= Two63 {
      var q := x / 256;
      assert x == 256 * q;
      assert ToInt64(x) == 256 * (q - 0x100_0000_0000_0000);
    }
  }

  /** The low byte of every seed is zero. */
  lemma SeedLowByteZero(bz: seq<byte>)
    requires |bz| == 8
    ensures SeedOf(bz) % 256 == 0
  {
    SevenBytesBound(bz[1..]);
    var x := FromBigEndian(bz[1..]) * 256;
    assert x % 256 == 0;
    ToInt64KeepsLowByte(x);
  }

  /** The first entropy byte never influences the seed. */
  lemma SeedIgnoresFirstByte(bz: seq<byte>, b: byte)
    requires |bz| == 8
    ensures SeedOf([b] + bz[1..]) == SeedOf(bz)
  {
    assert ([b] + bz[1..])[1..] == bz[1..];
  }

  /** Big-endian reading is injective on strings of one length. */
  lemma {:induction false} FromBigEndianInjective(s: seq<byte>, t: seq<byte>)
    requires |s| == |t| && FromBigEndian(s) == FromBigEndian(t)
    ensures s == t
  {
    if s != [] {
      var n := |s| - 1;
      var x, y := FromBigEndian(s[..n]), FromBigEndian(t[..n]);
      assert FromBigEndian(s) == x * 256 + s[n] && FromBigEndian(t) == y * 256 + t[n];
      ByteDigits(x, s[n]);
      ByteDigits(y, t[n]);
      FromBigEndianInjective(s[..n], t[..n]);
      assert s == s[..n] + [s[n]] && t == t[..n] + [t[n]];
    }
  }

  /** The last byte and the rest of a big-endian number are recovered by `%` and `/`. */
  lemma ByteDigits(x: nat, b: byte)
    ensures (x * 256 + b) % 256 == b && (x * 256 + b) / 256 == x
  {
  }

  /** Distinct bytes 1..7 give distinct seeds: those 56 bits are all kept. */
  lemma SeedKeepsLastSevenBytes(bz: seq<byte>, bz': seq<byte>)
    requires |bz| == 8 && |bz'| == 8
    ensures SeedOf(bz) == SeedOf(bz') <==> bz[1..] == bz'[1..]
  {
    if SeedOf(bz) == SeedOf(bz') {
      SevenBytesBound(bz[1..]);
      SevenBytesBound(bz'[1..]);
      var v, v' := FromBigEndian(bz[1..]) * 256, FromBigEndian(bz'[1..]) * 256;
      assert v == v';
      FromBigEndianInjective(bz[1..], bz'[1..]);
    }
  }

  // ---------------------------------------------------------------------------
  // Str: rejection sampling of 6-bit chunks

  /** The first `n` 6-bit chunks of `val`, least significant first (`val & 0x3f`, then
      `val >>= 6`; for the non-negative draws these are `% 64` and `/ 64`). */
  function Chunks(val: nat, n: nat): (r: seq<nat>)
    ensures |r| == n
  {
    if n == 0 then [] else [val % 64] + Chunks(val / 64, n - 1)
  }

  /** The chunks examined from a series of draws: ten from each. */
  function DrawChunks(draws: seq<Int63Draw>): (r: seq<nat>)
    ensures |r| == 10 * |draws|
  {
    if draws == [] then [] else DrawChunks(draws[..|draws| - 1]) + Chunks(draws[|draws| - 1], 10)
  }

  /** The characters a run of chunks produces: chunks 62 and 63 are rejected. */
  function Emit(cs: seq<nat>): string
  {
    if cs == [] then []
    else Emit(cs[..|cs| - 1]) + (if cs[|cs| - 1] < 62 then [StrChars[cs[|cs| - 1]]] else [])
  }

  lemma {:induction false} EmitAppend(a: seq<nat>, b: seq<nat>)
    ensures Emit(a + b) == Emit(a) + Emit(b)
  {
    if b == [] {
      assert a + b == a;
    } else {
      var b', v := b[..|b| - 1], b[|b| - 1];
      assert (a + b)[..|a + b| - 1] == a + b' && (a + b)[|a + b| - 1] == v;
      EmitAppend(a, b');
      var c := if v < 62 then [StrChars[v]] else [];
      assert Emit(a + b) == (Emit(a) + Emit(b')) + c;
      assert Emit(b) == Emit(b') + c;
    }
  }

  lemma EmitSnoc(done: seq<nat>, v: nat)
    ensures Emit(done + [v]) == Emit(done) + (if v < 62 then [StrChars[v]] else [])
  {
    assert (done + [v])[..|done|] == done;
  }

  lemma DrawChunksSnoc(draws: seq<Int63Draw>, k: nat)
    requires k < |draws|
    ensures DrawChunks(draws[..k + 1]) == DrawChunks(draws[..k]) + Chunks(draws[k], 10)
  {
    assert draws[..k + 1][..k] == draws[..k];
  }

  lemma EmitThree(a: seq<nat>, done: seq<nat>, rest: seq<nat>)
    ensures Emit(a + (done + rest)) == Emit(a) + Emit(done) + Emit(rest)
  {
    EmitAppend(a, done + rest);
    EmitAppend(done, rest);
  }

  lemma EmitDraw(draws: seq<Int63Draw>, k: nat, done: seq<nat>, rest: seq<nat>)
    requires k < |draws| && Chunks(draws[k], 10) == done + rest
    ensures Emit(DrawChunks(draws[..k + 1])) == Emit(DrawChunks(draws[..k])) + Emit(done) + Emit(rest)
  {
    DrawChunksSnoc(draws, k);
    EmitThree(DrawChunks(draws[..k]), done, rest);
  }

  lemma ChunkStep(d: nat, done: seq<nat>, val: nat, i: nat)
    requires i < 10 && Chunks(d, 10) == done + Chunks(val, 10 - i)
    ensures Chunks(d, 10) == (done + [val % 64]) + Chunks(val / 64, 10 - (i + 1))
  {
    assert Chunks(val, 10 - i) == [val % 64] + Chunks(val / 64, 10 - (i + 1));
  }

  /** Every character produced is one of the 62 of `StrChars`. */
  lemma {:induction false} EmitAlphabet(cs: seq<nat>)
    ensures forall i :: 0 <= i < |Emit(cs)| ==> Emit(cs)[i] in StrChars
  {
    if cs != [] {
      EmitAlphabet(cs[..|cs| - 1]);
    }
  }

  /** The inner loop of `Str` over the ten chunks of one draw `val0`, appending to
      `chars0`; `full` reports that `length` characters were reached, which ends `Str`
      (the `break MAIN_LOOP`). `done` are the chunks examined. */
  method TakeChunks(chars0: string, val0: nat, length: int) returns (chars: string, full: bool, ghost done: seq<nat>)
    requires |chars0| < length
    ensures |done| <= 10 && Chunks(val0, 10)[..|done|] == done
    ensures chars == chars0 + Emit(done)
    ensures full <==> |chars| == length
    ensures !full ==> done == Chunks(val0, 10) && |chars| < length
  {
    chars, full, done := chars0, false, [];
    var val := val0;
    for i := 0 to 10
      invariant Chunks(val0, 10) == done + Chunks(val, 10 - i)
      invariant chars == chars0 + Emit(done)
      invariant |chars| < length
    {
      var v := val % 64;
      ChunkStep(val0, done, val, i);
      EmitSnoc(done, v);
      done := done + [v];
      if v >= 62 {
        val := val / 64;
      } else {
        chars := chars + [StrChars[v]];
        if |chars| == length {
          full := true;
          return;
        }
        val := val / 64;
      }
    }
  }

  lemma SplitAtPrefix(c: seq<nat>, done: seq<nat>)
    requires |done| <= |c| && c[..|done|] == done
    ensures c == done + c[|done|..]
  {
  }

  /** One round of the outer loop of `Str`: the characters of draw `k` extend those of the
      draws before it, up to `length`. */
  lemma StrStep(draws: seq<Int63Draw>, k: nat, chars0: string, chars: string, done: seq<nat>, full: bool, length: int)
    requires k < |draws| && chars0 == Emit(DrawChunks(draws[..k])) && |chars0| < length
    requires |done| <= 10 && Chunks(draws[k], 10)[..|done|] == done && chars == chars0 + Emit(done)
    requires full <==> |chars| == length
    requires !full ==> done == Chunks(draws[k], 10)
    ensures full ==> length <= |Emit(DrawChunks(draws[..k + 1]))| && chars == Emit(DrawChunks(draws[..k + 1]))[..length]
    ensures !full ==> chars == Emit(DrawChunks(draws[..k + 1]))
  {
    var rest := Chunks(draws[k], 10)[|done|..];
    SplitAtPrefix(Chunks(draws[k], 10), done);
    EmitDraw(draws, k, done, rest);
    assert Emit(DrawChunks(draws[..k + 1])) == chars + Emit(rest);
    if !full {
      assert rest == [];
    }
  }

  /** `Str`: a string of `length` characters from `StrChars`. `draws` are the successive
      `Int63()` values, enough of them to produce `length` characters; `used` is how many
      were drawn. The result is the first `length` characters the chunks of the used draws
      produce, and the draws before the last one produce fewer than `length`. */
  method Str(length: int, draws: seq<Int63Draw>) returns (s: string, used: nat)
    requires length >= 1
    requires length <= |Emit(DrawChunks(draws))|
    ensures 1 <= used <= |draws|
    ensures |Emit(DrawChunks(draws[..used - 1]))| < length <= |Emit(DrawChunks(draws[..used]))|
    ensures s == Emit(DrawChunks(draws[..used]))[..length]
  {
    var chars: string := [];
    var k := 0;
    assert draws[..0] == [];
    assert draws[..|draws|] == draws;
    while true
      invariant 0 <= k <= |draws|
      invariant chars == Emit(DrawChunks(draws[..k]))
      invariant |chars| < length
      decreases |draws| - k
    {
      var full: bool;
      ghost var done: seq<nat>;
      ghost var chars0 := chars;
      chars, full, done := TakeChunks(chars, draws[k], length);
      StrStep(draws, k, chars0, chars, done, full, length);
      if full {
        s, used := chars, k + 1;
        break;
      }
      k := k + 1;
    }
  }

  /** What `Str` promises its callers: the requested length, over the 62-character alphabet. */
  lemma StrShape(length: int, draws: seq<Int63Draw>, used: nat)
    requires 1 <= length && 1 <= used <= |draws|
    requires length <= |Emit(DrawChunks(draws[..used]))|
    ensures |Emit(DrawChunks(draws[..used]))[..length]| == length
    ensures forall i :: 0 <= i < length ==> Emit(DrawChunks(draws[..used]))[..length][i] in StrChars
  {
    EmitAlphabet(DrawChunks(draws[..used]));
  }

  // ---------------------------------------------------------------------------
  // Integer conversions of one or two draws

  /** `Uint16`: the low 16 bits of one `Uint32()` draw. */
  function Uint16(d: Uint32Draw): (r: int)
    ensures 0 <= r < Two16
    ensures (d - r) % Two16 == 0
  {
    d % Two16
  }

  /** `Int16`: the low 16 bits of one `Uint32()` draw, read as an int16 (two's complement:
      a set bit 15 makes the result negative). */
  function Int16(d: Uint32Draw): (r: int)
    ensures -0x8000 <= r < 0x8000
    ensures (d - r) % Two16 == 0
    ensures r < 0 <==> d % Two16 >= 0x8000
  {
    var low := d % Two16;
    if low < 0x8000 then low else low - Two16
  }

  /** `Int32`: one `Uint32()` draw read as an int32. */
  function Int32(d: Uint32Draw): (r: int)
    ensures -0x8000_0000 <= r < 0x8000_0000
    ensures (d - r) % Two32 == 0
    ensures r < 0 <==> d >= 0x8000_0000
  {
    if d < 0x8000_0000 then d else d - Two32
  }

  /** `Uint64`: two `Uint32()` draws; Go evaluates the operands of `+` left to right, so the
      first draw `hi` supplies the high half. */
  function Uint64(hi: Uint32Draw, lo: Uint32Draw): (r: uint64)
    ensures r / Two32 == hi && r % Two32 == lo
  {
    hi * Two32 + lo
  }

  /** `Int64`: `Uint64` read as an int64. */
  function Int64(hi: Uint32Draw, lo: Uint32Draw): (r: int)
    ensures -Two63 <= r < Two63
    ensures r < 0 <==> hi >= 0x8000_0000
    ensures (r - lo) % Two32 == 0
    ensures (r - Uint64(hi, lo)) % Two64 == 0
  {
    ToInt64(Uint64(hi, lo))
  }

  /** `Bool`: true when the `Int63()` draw is even (Go's `%` and Dafny's agree on
      non-negative operands). */
  function Bool(d: Int63Draw): (r: bool)
  {
    d % 2 == 0
  }

  /** Adjacent draws give opposite booleans. */
  lemma BoolAlternates(d: Int63Draw)
    requires d + 1 < Two63
    ensures Bool(d) != Bool(d + 1)
  {
  }

  /** How many of the `n` draws `d`, `d + 1`, ..., `d + n - 1` give true. */
  function TrueCount(d: nat, n: nat): (c: nat)
    requires d + n <= Two63
    ensures c <= n
  {
    if n == 0 then 0 else TrueCount(d, n - 1) + (if Bool(d + n - 1) then 1 else 0)
  }

  /** `Bool` is uniform: over any `2n` consecutive draws it is true exactly `n` times. */
  lemma {:induction false} BoolBalanced(d: nat, n: nat)
    requires d + 2 * n <= Two63
    ensures TrueCount(d, 2 * n) == n
  {
    if n > 0 {
      BoolBalanced(d, n - 1);
      BoolAlternates(d + 2 * n - 2);
      assert TrueCount(d, 2 * n) == TrueCount(d, 2 * n - 2)
        + (if Bool(d + 2 * n - 2) then 1 else 0) + (if Bool(d + 2 * n - 1) then 1 else 0);
    }
  }

  /** `Bytes`: `n` bytes, the `i`-th being the low byte of the `i`-th `Int()` draw. */
  method Bytes(n: int, draws: seq<Int63Draw>) returns (bs: array<byte>)
    requires 0 <= n <= |draws|
    ensures bs.Length == n
    ensures forall i :: 0 <= i < n ==> bs[i] == draws[i] % 256
  {
    bs := new byte[n];
    for i := 0 to bs.Length
      invariant forall j :: 0 <= j < i ==> bs[j] == draws[j] % 256
    {
      bs[i] := draws[i] % 256;
    }
  }
}
