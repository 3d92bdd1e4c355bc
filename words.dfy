/**
 * Arithmetic on Modbus register words: a holding register carries one
 * 16-bit big-endian item (Modbus Application Protocol Specification V1.1b3,
 * section 4.2). This module holds the per-register steps of the typed reads
 * in modbus_reader.py: the two's-complement fix-ups of INT16 and INT32, the
 * joining of two words into 32 bits, the byte packing done with `struct`
 * for FLOAT32 and FLOAT64 (stopping at the integer bit pattern), and the bit
 * test of BITMAP.
 *
 * Python's `(hi << 16) | lo` is written `hi * 0x1_0000 + lo`: with `lo` a
 * word the two operands have no bit in common, so `|` adds. Python's
 * `reg & (1 << i)` is non-zero exactly when the i-th binary digit of `reg`
 * is 1, which is how `Bit` is written.
 */
module Words {

  /** One register value as the client library returns it. */
  type Word = x: int | 0 <= x < 0x1_0000

  /** One byte of a `struct.pack` result. */
  type Byte = x: int | 0 <= x < 0x100

  predicate IsInt16(v: int) { -0x8000 <= v < 0x8000 }

  predicate IsInt32(v: int) { -0x8000_0000 <= v < 0x8000_0000 }

  // ---------------------------------------------------------------- INT16

  /** The signed INT16 reading of one register: above 32767 it wraps to the negatives. */
  function ToSigned16(r: Word): (v: int)
    ensures IsInt16(v)
    ensures v % 0x1_0000 == r
    ensures v >= 0 <==> r < 0x8000
  {
    if r > 32767 then r - 65536 else r
  }

  /** The register a device stores for the signed 16-bit value `v`. */
  function EncodeInt16(v: int): (r: Word)
    requires IsInt16(v)
    ensures ToSigned16(r) == v
  {
    v % 0x1_0000
  }

  /** Decoding is injective: distinct registers never give the same INT16 value. */
  lemma Signed16Injective(a: Word, b: Word)
    requires ToSigned16(a) == ToSigned16(b)
    ensures a == b
  {
    calc {
      a;
      ToSigned16(a) % 0x1_0000;
      ToSigned16(b) % 0x1_0000;
      b;
    }
  }

  // ---------------------------------------------------------------- INT32

  /** `(hi << 16) | lo`: the 32-bit pattern whose high word is `hi` and low word is `lo`. */
  function JoinWords(hi: Word, lo: Word): (u: nat)
    ensures u < 0x1_0000_0000
    ensures u / 0x1_0000 == hi && u % 0x1_0000 == lo
  {
    hi * 0x1_0000 + lo
  }

  /** The two's-complement reading of a 32-bit pattern. */
  function ToSigned32(u: nat): (v: int)
    requires u < 0x1_0000_0000
    ensures IsInt32(v)
    ensures v % 0x1_0000_0000 == u
  {
    if u > 2147483647 then u - 4294967296 else u
  }

  /**
   * The INT32 value of the register pair (first, second): with byte order
   * "big" the first register is the high word; with any other byte order
   * the second one is.
   */
  function Int32Of(byteOrder: string, first: Word, second: Word): (v: int)
    ensures IsInt32(v)
    ensures byteOrder == "big" ==> v % 0x1_0000_0000 == first * 0x1_0000 + second
    ensures byteOrder != "big" ==> v % 0x1_0000_0000 == second * 0x1_0000 + first
  {
    var u := if byteOrder == "big" then JoinWords(first, second) else JoinWords(second, first);
    ToSigned32(u)
  }

  /** The (high, low) register pair a device stores for the signed 32-bit value `v`. */
  function EncodeInt32(v: int): (w: (Word, Word))
    requires IsInt32(v)
    ensures Int32Of("big", w.0, w.1) == v
    ensures forall order: string :: order != "big" ==> Int32Of(order, w.1, w.0) == v
  {
    var u := v % 0x1_0000_0000;
    (u / 0x1_0000, u % 0x1_0000)
  }

  /** Low word first on (a, b) is high word first on (b, a). */
  lemma Int32SwappedWords(byteOrder: string, a: Word, b: Word)
    requires byteOrder != "big"
    ensures Int32Of(byteOrder, a, b) == Int32Of("big", b, a)
  {
  }

  // ------------------------------------------------- struct.pack / unpack

  /** `struct.pack('>H', w)` when `big`, `struct.pack('<H', w)` otherwise. */
  function WordBytes(w: Word, big: bool): (bs: seq<Byte>)
    ensures |bs| == 2
    ensures big ==> bs[0] as int * 0x100 + bs[1] == w
    ensures !big ==> bs[1] as int * 0x100 + bs[0] == w
  {
    if big then [w / 0x100, w % 0x100] else [w % 0x100, w / 0x100]
  }

  /** `struct.pack('>HH…', *ws)` when `big`, `struct.pack('<HH…', *ws)` otherwise. */
  function Pack(big: bool, ws: seq<Word>): (bs: seq<Byte>)
    ensures |bs| == 2 * |ws|
  {
    if ws == [] then [] else WordBytes(ws[0], big) + Pack(big, ws[1..])
  }

  /** The unsigned integer whose big-endian bytes are `bs`: the bits `struct.unpack('>f'/'>d')` reads. */
  function UnpackBig(bs: seq<Byte>): (n: nat)
    ensures bs != [] ==> n % 0x100 == bs[|bs| - 1]
  {
    if bs == [] then 0 else UnpackBig(bs[..|bs| - 1]) * 0x100 + bs[|bs| - 1]
  }

  /** The unsigned integer whose little-endian bytes are `bs`: the bits `struct.unpack('<f'/'<d')` reads. */
  function UnpackLittle(bs: seq<Byte>): (n: nat)
    ensures bs != [] ==> n % 0x100 == bs[0]
  {
    if bs == [] then 0 else bs[0] + 0x100 * UnpackLittle(bs[1..])
  }

  /** Reference value of a word sequence read most significant word first. */
  function WordsBig(ws: seq<Word>): nat
  {
    if ws == [] then 0 else WordsBig(ws[..|ws| - 1]) * 0x1_0000 + ws[|ws| - 1]
  }

  /** Reference value of a word sequence read least significant word first. */
  function WordsLittle(ws: seq<Word>): nat
  {
    if ws == [] then 0 else ws[0] + 0x1_0000 * WordsLittle(ws[1..])
  }

  /** Bytes 2k and 2k+1 of the packed words are the two bytes of word k. */
  lemma {:induction false} PackWordAt(big: bool, ws: seq<Word>, k: nat)
    requires k < |ws|
    ensures Pack(big, ws)[2 * k..2 * k + 2] == WordBytes(ws[k], big)
  {
    if k > 0 {
      var head, p := WordBytes(ws[0], big), Pack(big, ws[1..]);
      assert Pack(big, ws) == head + p;
      assert (head + p)[2 * k..2 * k + 2] == p[2 * (k - 1)..2 * (k - 1) + 2];
      assert ws[1..][k - 1] == ws[k];
      PackWordAt(big, ws[1..], k - 1);
    }
  }

  lemma {:induction false} PackSnoc(big: bool, ws: seq<Word>, w: Word)
    ensures Pack(big, ws + [w]) == Pack(big, ws) + WordBytes(w, big)
  {
    if ws == [] {
      assert ws + [w] == [w];
    } else {
      assert (ws + [w])[1..] == ws[1..] + [w];
      PackSnoc(big, ws[1..], w);
    }
  }

  /** Packing words big-endian and reading the bytes back big-endian gives the big-endian word value. */
  lemma {:induction false} UnpackBigPack(ws: seq<Word>)
    ensures UnpackBig(Pack(true, ws)) == WordsBig(ws)
  {
    if ws != [] {
      var init, w := ws[..|ws| - 1], ws[|ws| - 1];
      assert ws == init + [w];
      PackSnoc(true, init, w);
      var p := Pack(true, init);
      var hi, lo := w / 0x100, w % 0x100;
      assert Pack(true, ws) == p + [hi, lo];
      assert (p + [hi, lo])[..|p| + 1] == p + [hi];
      assert (p + [hi])[..|p|] == p;
      UnpackBigPack(init);
      calc {
        UnpackBig(Pack(true, ws));
        UnpackBig(p + [hi]) * 0x100 + lo;
        (UnpackBig(p) * 0x100 + hi) * 0x100 + lo;
        UnpackBig(p) * 0x1_0000 + (hi * 0x100 + lo);
        WordsBig(init) * 0x1_0000 + w;
      }
    }
  }

  /** Packing words little-endian and reading the bytes back little-endian gives the little-endian word value. */
  lemma {:induction false} UnpackLittlePack(ws: seq<Word>)
    ensures UnpackLittle(Pack(false, ws)) == WordsLittle(ws)
  {
    if ws != [] {
      var w, rest := ws[0], ws[1..];
      var p := Pack(false, rest);
      var lo, hi := w % 0x100, w / 0x100;
      assert Pack(false, ws) == [lo, hi] + p;
      assert ([lo, hi] + p)[1..] == [hi] + p;
      assert ([hi] + p)[1..] == p;
      UnpackLittlePack(rest);
      calc {
        UnpackLittle(Pack(false, ws));
        lo + 0x100 * UnpackLittle([hi] + p);
        lo + 0x100 * (hi + 0x100 * UnpackLittle(p));
        (hi * 0x100 + lo) + 0x1_0000 * UnpackLittle(p);
        w + 0x1_0000 * WordsLittle(rest);
      }
    }
  }

  // ------------------------------------------------------ FLOAT32 / FLOAT64

  /**
   * The IEEE-754 single-precision bit pattern that `struct.unpack` reads
   * from the register pair: `>HH` then `>f` for byte order "big", `<HH`
   * then `<f` for any other. Big puts the first register in the high half,
   * little the second (the `struct` steps are `Reader.Float32Pattern`).
   */
  function Float32Bits(byteOrder: string, first: Word, second: Word): (bits: nat)
    ensures bits < 0x1_0000_0000
    ensures bits / 0x1_0000 == (if byteOrder == "big" then first else second)
    ensures bits % 0x1_0000 == (if byteOrder == "big" then second else first)
  {
    if byteOrder == "big" then first * 0x1_0000 + second else second * 0x1_0000 + first
  }

  /**
   * The IEEE-754 double-precision bit pattern that `struct.unpack` reads
   * from four registers, r0<<48 | r1<<32 | r2<<16 | r3. Both byte orders
   * of `read_float64` build it (the `struct` steps are `Reader.Float64Pattern`).
   */
  function Float64Bits(rs: seq<Word>): (bits: nat)
    requires |rs| == 4
    ensures bits < 0x1_0000_0000_0000_0000
  {
    var high, low := (rs[0] as int) * 0x1_0000 + rs[1], (rs[2] as int) * 0x1_0000 + rs[3];
    high * 0x1_0000_0000 + low
  }

  /** Big-endian `struct` packing and unpacking of the pair (first, second) gives `first * 65536 + second`. */
  lemma PairBig(first: Word, second: Word)
    ensures UnpackBig(Pack(true, [first, second])) == first * 0x1_0000 + second
  {
    UnpackBigPack([first, second]);
    assert [first, second][..1] == [first];
    assert [first][..0] == [];
    assert WordsBig([first]) == first;
  }

  /** Little-endian `struct` packing and unpacking of the pair (first, second) gives `second * 65536 + first`. */
  lemma PairLittle(first: Word, second: Word)
    ensures UnpackLittle(Pack(false, [first, second])) == second * 0x1_0000 + first
  {
    UnpackLittlePack([first, second]);
    assert [first, second][1..] == [second];
    assert [second][1..] == [];
    assert WordsLittle([second]) == second;
  }

  /** Big-endian `struct` packing and unpacking of four words gives r0<<48 | r1<<32 | r2<<16 | r3. */
  lemma QuadBig(rs: seq<Word>)
    requires |rs| == 4
    ensures UnpackBig(Pack(true, rs)) == Float64Bits(rs)
  {
    UnpackBigPack(rs);
    assert rs[..3] == [rs[0], rs[1], rs[2]];
    assert rs[..3][..2] == [rs[0], rs[1]];
    assert rs[..3][..2][..1] == [rs[0]];
    assert [rs[0]][..0] == [];
    assert WordsBig([rs[0]]) == rs[0];
    assert WordsBig([rs[0], rs[1]]) == (rs[0] as int) * 0x1_0000 + rs[1];
    assert WordsBig(rs[..3]) == WordsBig([rs[0], rs[1]]) * 0x1_0000 + rs[2];
  }

  /**
   * Little-endian `struct` packing of the four words in reverse order and
   * little-endian unpacking gives the same pattern as the big-endian route:
   * FLOAT64's byte order has no effect.
   */
  lemma QuadLittleReversed(rs: seq<Word>)
    requires |rs| == 4
    ensures UnpackLittle(Pack(false, [rs[3], rs[2], rs[1], rs[0]])) == Float64Bits(rs)
    ensures UnpackLittle(Pack(false, [rs[3], rs[2], rs[1], rs[0]])) == UnpackBig(Pack(true, rs))
  {
    var reversed := [rs[3], rs[2], rs[1], rs[0]];
    UnpackLittlePack(reversed);
    assert reversed[1..] == [rs[2], rs[1], rs[0]];
    assert reversed[1..][1..] == [rs[1], rs[0]];
    assert reversed[1..][1..][1..] == [rs[0]];
    assert [rs[0]][1..] == [];
    assert WordsLittle([rs[0]]) == rs[0];
    assert WordsLittle([rs[1], rs[0]]) == rs[1] + 0x1_0000 * (rs[0] as int);
    assert WordsLittle([rs[2], rs[1], rs[0]]) == rs[2] + 0x1_0000 * WordsLittle([rs[1], rs[0]]);
    QuadBig(rs);
  }

  /** The registers a device stores for the 32-bit pattern `bits`, high word first. */
  function SplitFloat32(bits: nat): (w: (Word, Word))
    requires bits < 0x1_0000_0000
    ensures Float32Bits("big", w.0, w.1) == bits
    ensures forall order: string :: order != "big" ==> Float32Bits(order, w.1, w.0) == bits
  {
    (bits / 0x1_0000, bits % 0x1_0000)
  }

  /** The four registers a device stores for the 64-bit pattern `bits`, high word first. */
  function SplitFloat64(bits: nat): (rs: seq<Word>)
    requires bits < 0x1_0000_0000_0000_0000
    ensures |rs| == 4
    ensures Float64Bits(rs) == bits
  {
    var high, low := bits / 0x1_0000_0000, bits % 0x1_0000_0000;
    assert bits == high * 0x1_0000_0000 + low && high < 0x1_0000_0000;
    var r0, r1 := high / 0x1_0000, high % 0x1_0000;
    var r2, r3 := low / 0x1_0000, low % 0x1_0000;
    assert high == r0 * 0x1_0000 + r1 && low == r2 * 0x1_0000 + r3;
    [r0, r1, r2, r3]
  }

  // ---------------------------------------------------------------- BITMAP

  function Pow2(n: nat): (p: nat)
    ensures p >= 1
  {
    if n == 0 then 1 else 2 * Pow2(n - 1)
  }

  lemma Pow2Sixteen()
    ensures Pow2(16) == 0x1_0000
  {
    assert Pow2(4) == 16;
    assert Pow2(8) == 256;
    assert Pow2(12) == 4096;
  }

  /** `bool(x & (1 << i))`: whether the i-th binary digit of x is 1. */
  predicate Bit(x: nat, i: nat)
  {
    (x / Pow2(i)) % 2 == 1
  }

  /** The reference value of a bit list, least significant bit first: the sum of bit_i * 2^i. */
  function BitsValue(bits: seq<bool>): nat
  {
    if bits == [] then 0 else (if bits[0] then 1 else 0) + 2 * BitsValue(bits[1..])
  }

  /** The n lowest bits of x, bit 0 first. */
  function LowBitsOf(x: nat, n: nat): (bits: seq<bool>)
    ensures |bits| == n
    ensures forall i :: 0 <= i < n ==> bits[i] == Bit(x, i)
  {
    seq(n, i requires 0 <= i < n => Bit(x, i))
  }

  /** The 16 flags `read_bitmap` builds from one register, bit 0 first. */
  function FlagsOf(r: Word): (bits: seq<bool>)
    ensures |bits| == 16
    ensures forall i :: 0 <= i < 16 ==> bits[i] == Bit(r, i)
    ensures BitsValue(bits) == r
  {
    LowBits(r, 16);
    Pow2Sixteen();
    LowBitsOf(r, 16)
  }

  /** Every list of 16 flags is the bitmap of exactly one register. */
  lemma FlagsRoundTrip(bits: seq<bool>)
    requires |bits| == 16
    ensures BitsValue(bits) < 0x1_0000
    ensures FlagsOf(BitsValue(bits)) == bits
  {
    Pow2Sixteen();
    BitsOfValue(bits);
  }

  lemma DivTwice(x: nat, i: nat)
    ensures x / Pow2(i + 1) == (x / 2) / Pow2(i)
    ensures x % Pow2(i + 1) == x % 2 + 2 * ((x / 2) % Pow2(i))
  {
    var p := Pow2(i);
    var q, r := (x / 2) / p, (x / 2) % p;
    assert x / 2 == q * p + r;
    assert x == 2 * (q * p + r) + x % 2;
    assert x == q * (2 * p) + (2 * r + x % 2);
    assert 0 <= 2 * r + x % 2 < 2 * p;
    DivMod(x, 2 * p, q, 2 * r + x % 2);
  }

  /** Division has a unique quotient and remainder. */
  lemma DivMod(x: nat, d: nat, q: nat, r: nat)
    requires d > 0 && x == q * d + r && r < d
    ensures x / d == q && x % d == r
  {
    var q', r' := x / d, x % d;
    if q' < q {
      MulDiff(q, q', d);
    } else if q' > q {
      MulDiff(q', q, d);
    }
  }

  lemma MulDiff(a: nat, b: nat, d: nat)
    requires a > b
    ensures a * d - b * d >= d
  {
    var k: nat := a - b - 1;
    calc {
      a * d - b * d;
      (b + k + 1) * d - b * d;
      k * d + d;
    }
  }

  lemma BitShift(x: nat, i: nat)
    ensures Bit(x, i + 1) == Bit(x / 2, i)
  {
    DivTwice(x, i);
  }

  /** The low n bits of x, read back, give x modulo 2^n. */
  lemma {:induction false} LowBits(x: nat, n: nat)
    ensures BitsValue(LowBitsOf(x, n)) == x % Pow2(n)
  {
    if n > 0 {
      var bits := LowBitsOf(x, n);
      var rest := LowBitsOf(x / 2, n - 1);
      forall i | 0 <= i < n - 1
        ensures bits[1..][i] == rest[i]
      {
        BitShift(x, i);
      }
      assert bits[1..] == rest;
      LowBits(x / 2, n - 1);
      DivTwice(x, n - 1);
    }
  }

  /** A list of n bits is the low n bits of its value, and that value is below 2^n. */
  lemma {:induction false} BitsOfValue(bits: seq<bool>)
    ensures BitsValue(bits) < Pow2(|bits|)
    ensures LowBitsOf(BitsValue(bits), |bits|) == bits
  {
    if bits != [] {
      var v := BitsValue(bits);
      var rest := bits[1..];
      BitsOfValue(rest);
      assert v / 2 == BitsValue(rest);
      forall i | 0 <= i < |bits|
        ensures Bit(v, i) == bits[i]
      {
        if i > 0 {
          BitShift(v, i - 1);
        }
      }
    }
  }
}
