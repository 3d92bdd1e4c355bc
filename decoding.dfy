/**
 * What the typed reads of `ModbusReader` make of the registers a read
 * returned: the value one group of registers decodes to, the list the
 * loop builds over the whole reply, and the shape of the result (the bare
 * value when one was asked for, the list otherwise). Also the upper-casing
 * dispatch of `read_custom` from a data-type name and its keyword options
 * to one of the five typed reads.
 */
module Decoding {
  import opened Wrappers
  import opened Words
  import opened Text

  /** A Python value a typed read returns. */
  datatype Value =
    | Int(i: int)              // one INT16 or INT32 value
    | Float32(bits: nat)       // one FLOAT32 value, as its IEEE-754 bit pattern
    | Float64(bits: nat)       // one FLOAT64 value, as its IEEE-754 bit pattern
    | Bool(b: bool)            // one BITMAP flag
    | List(items: seq<Value>)  // a Python list

  /** The five typed reads, with the keyword argument each one takes. */
  datatype DataType =
    | Int16Type(signed: bool)
    | Int32Type(byteOrder: string)
    | Float32Type(byteOrder: string)
    | Float64Type(byteOrder: string)
    | BitmapType

  /** The registers one value occupies. */
  function Width(t: DataType): (w: nat)
    ensures w == 1 || w == 2 || w == 4
  {
    match t
    case Int16Type(_) => 1
    case Int32Type(_) => 2
    case Float32Type(_) => 2
    case Float64Type(_) => 4
    case BitmapType => 1
  }

  /** The register count a typed read asks for when `count` values are wanted. */
  function RequestSize(t: DataType, count: nat): (n: nat)
    ensures t.Int16Type? || t.BitmapType? ==> n == count
    ensures t.Int32Type? || t.Float32Type? ==> n == 2 * count
    ensures t.Float64Type? ==> n == 4 * count
  {
    count * Width(t)
  }

  /** The list of the 16 flags of one register, bit 0 first. */
  function FlagList(r: Word): (v: Value)
    ensures v.List? && |v.items| == 16
    ensures forall i :: 0 <= i < 16 ==> v.items[i] == Bool(Bit(r, i))
  {
    var flags := FlagsOf(r);
    List(seq(16, i requires 0 <= i < 16 => Bool(flags[i])))
  }

  /** The value one group of `Width(t)` registers decodes to. */
  function DecodeChunk(t: DataType, chunk: seq<Word>): (v: Value)
    requires |chunk| == Width(t)
    ensures t.Int16Type? ==> v.Int? && (if t.signed then IsInt16(v.i) && v.i % 0x1_0000 == chunk[0] else v.i == chunk[0])
    ensures t.Int32Type? ==> v.Int? && IsInt32(v.i)
    ensures t.Float32Type? ==> v.Float32? && v.bits < 0x1_0000_0000
    ensures t.Float64Type? ==> v.Float64? && v.bits < 0x1_0000_0000_0000_0000
    ensures t.BitmapType? ==> v.List? && |v.items| == 16
  {
    match t
    case Int16Type(signed) => Int(if signed then ToSigned16(chunk[0]) else chunk[0])
    case Int32Type(order) => Int(Int32Of(order, chunk[0], chunk[1]))
    case Float32Type(order) => Float32(Float32Bits(order, chunk[0], chunk[1]))
    case Float64Type(_) => Float64(Float64Bits(chunk))
    case BitmapType => FlagList(chunk[0])
  }

  /** The values of the one-register types (INT16, BITMAP) over `regs`, one per register. */
  function DecodeSingles(t: DataType, regs: seq<Word>): (vs: seq<Value>)
    requires Width(t) == 1
    ensures |vs| == |regs|
    ensures forall j :: 0 <= j < |vs| ==> vs[j] == DecodeChunk(t, [regs[j]])
  {
    if regs == [] then []
    else
      var init := regs[..|regs| - 1];
      DecodeSingles(t, init) + [DecodeChunk(t, [regs[|regs| - 1]])]
  }

  /** The values of the two-register types (INT32, FLOAT32) over `regs`, one per consecutive pair. */
  function DecodePairs(t: DataType, regs: seq<Word>): (vs: seq<Value>)
    requires Width(t) == 2 && |regs| % 2 == 0
    ensures 2 * |vs| == |regs|
    ensures forall j :: 0 <= j < |vs| ==> vs[j] == DecodeChunk(t, [regs[2 * j], regs[2 * j + 1]])
  {
    if regs == [] then []
    else
      var n := |regs| - 2;
      DecodePairs(t, regs[..n]) + [DecodeChunk(t, [regs[n], regs[n + 1]])]
  }

  /** The values of the four-register type (FLOAT64) over `regs`, one per consecutive quadruple. */
  function DecodeQuads(t: DataType, regs: seq<Word>): (vs: seq<Value>)
    requires Width(t) == 4 && |regs| % 4 == 0
    ensures 4 * |vs| == |regs|
    ensures forall j :: 0 <= j < |vs| ==>
              vs[j] == DecodeChunk(t, [regs[4 * j], regs[4 * j + 1], regs[4 * j + 2], regs[4 * j + 3]])
  {
    if regs == [] then []
    else
      var n := |regs| - 4;
      DecodeQuads(t, regs[..n]) + [DecodeChunk(t, [regs[n], regs[n + 1], regs[n + 2], regs[n + 3]])]
  }

  /**
   * The list a typed read's loop builds from the reply: one value per group
   * of `Width(t)` consecutive registers, in register order.
   */
  function DecodeAll(t: DataType, regs: seq<Word>): (vs: seq<Value>)
    requires |regs| % Width(t) == 0
    ensures |vs| * Width(t) == |regs|
  {
    if Width(t) == 1 then DecodeSingles(t, regs)
    else if Width(t) == 2 then DecodePairs(t, regs)
    else DecodeQuads(t, regs)
  }

  /** One more register decoded by a one-register type's loop. */
  lemma SinglesSnoc(t: DataType, regs: seq<Word>, k: nat)
    requires Width(t) == 1 && k < |regs|
    ensures DecodeSingles(t, regs[..k + 1]) == DecodeSingles(t, regs[..k]) + [DecodeChunk(t, [regs[k]])]
  {
    assert regs[..k + 1][..k] == regs[..k];
  }

  /** The pair after the first `n` of an even-length reply, decoded by a two-register type's loop. */
  lemma PairsSnoc(t: DataType, regs: seq<Word>, n: nat)
    requires Width(t) == 2 && |regs| % 2 == 0 && 2 * n < |regs|
    ensures 2 * n + 2 <= |regs| && (2 * n) % 2 == 0 && (2 * n + 2) % 2 == 0
    ensures DecodePairs(t, regs[..2 * n + 2])
            == DecodePairs(t, regs[..2 * n]) + [DecodeChunk(t, [regs[2 * n], regs[2 * n + 1]])]
  {
    assert regs[..2 * n + 2][..2 * n] == regs[..2 * n];
  }

  /** The quadruple after the first `n` of a reply of a multiple of four, decoded by FLOAT64's loop. */
  lemma QuadsSnoc(t: DataType, regs: seq<Word>, n: nat)
    requires Width(t) == 4 && |regs| % 4 == 0 && 4 * n < |regs|
    ensures 4 * n + 4 <= |regs| && (4 * n) % 4 == 0 && (4 * n + 4) % 4 == 0
    ensures DecodeQuads(t, regs[..4 * n + 4])
            == DecodeQuads(t, regs[..4 * n])
               + [DecodeChunk(t, [regs[4 * n], regs[4 * n + 1], regs[4 * n + 2], regs[4 * n + 3]])]
  {
    assert regs[..4 * n + 4][..4 * n] == regs[..4 * n];
  }

  /** A reply of `count * Width(t)` registers decodes to exactly `count` values. */
  lemma RequestSizeFacts(t: DataType, count: nat, n: nat)
    requires n == RequestSize(t, count)
    ensures n % Width(t) == 0
    ensures forall m: nat :: m * Width(t) == n ==> m == count
  {
  }

  /** A reply of exactly one group decodes to that group's value. */
  lemma DecodeOne(t: DataType, regs: seq<Word>)
    requires |regs| == Width(t)
    ensures DecodeAll(t, regs) == [DecodeChunk(t, regs)]
  {
    var vs := DecodeAll(t, regs);
    assert |vs| == 1;
    if Width(t) == 1 {
      assert [regs[0]] == regs;
    } else if Width(t) == 2 {
      assert [regs[0], regs[1]] == regs;
    } else {
      assert [regs[0], regs[1], regs[2], regs[3]] == regs;
    }
  }

  /**
   * `values[0] if count == 1 else values`, and `None` when the register
   * read returned `None`.
   */
  function Reply(t: DataType, reply: Option<seq<Word>>, count: nat): (r: Option<Value>)
    requires reply.Some? ==> |reply.value| == RequestSize(t, count)
    ensures r.None? <==> reply.None?
    ensures r.Some? && count == 1 ==> r.value == DecodeChunk(t, reply.value)
    ensures r.Some? && count != 1 ==> r.value.List? && |r.value.items| == count
    ensures r.Some? && count != 1 ==> r.value.items == DecodeAll(t, reply.value)
  {
    match reply
    case None => None
    case Some(regs) =>
      RequestSizeFacts(t, count, |regs|);
      var values := DecodeAll(t, regs);
      if count == 1 then
        DecodeOne(t, regs);
        Some(values[0])
      else
        Some(List(values))
  }

  /** The result a typed read returns once its loop has decoded every register of a successful reply. */
  lemma ReplyOfValues(t: DataType, regs: seq<Word>, count: nat, values: seq<Value>)
    requires |regs| == RequestSize(t, count) && |regs| % Width(t) == 0
    requires values == DecodeAll(t, regs)
    ensures count == 1 ==> |values| == 1
    ensures Reply(t, Some(regs), count) == Some(if count == 1 then values[0] else List(values))
  {
    RequestSizeFacts(t, count, |regs|);
  }

  // ------------------------------------------------- per-type properties

  /** With signed=False the registers come back unchanged, in order. */
  lemma UnsignedInt16Unchanged(regs: seq<Word>)
    ensures DecodeAll(Int16Type(false), regs) == seq(|regs|, i requires 0 <= i < |regs| => Int(regs[i]))
  {
  }

  /** With signed=True every value is a 16-bit signed integer and the register is its residue mod 65536. */
  lemma SignedInt16Values(regs: seq<Word>, j: nat)
    requires j < |regs|
    ensures DecodeAll(Int16Type(true), regs)[j].Int?
    ensures IsInt16(DecodeAll(Int16Type(true), regs)[j].i)
    ensures DecodeAll(Int16Type(true), regs)[j].i % 0x1_0000 == regs[j]
  {
    assert regs[j..j + 1] == [regs[j]];
  }

  /**
   * The j-th INT32 value: a 32-bit signed integer congruent, mod 2^32, to
   * the word pair read high word first ("big") or low word first (any
   * other byte order).
   */
  lemma Int32ValueAt(order: string, regs: seq<Word>, j: nat)
    requires |regs| % 2 == 0 && 2 * j < |regs|
    ensures DecodeAll(Int32Type(order), regs)[j].Int?
    ensures IsInt32(DecodeAll(Int32Type(order), regs)[j].i)
    ensures order == "big" ==>
              DecodeAll(Int32Type(order), regs)[j].i % 0x1_0000_0000 == regs[2 * j] as int * 0x1_0000 + regs[2 * j + 1]
    ensures order != "big" ==>
              DecodeAll(Int32Type(order), regs)[j].i % 0x1_0000_0000 == regs[2 * j + 1] as int * 0x1_0000 + regs[2 * j]
  {
  }

  /**
   * The j-th FLOAT32 bit pattern: the word pair read high word first
   * ("big") or low word first (any other byte order).
   */
  lemma Float32PatternAt(order: string, regs: seq<Word>, j: nat)
    requires |regs| % 2 == 0 && 2 * j < |regs|
    ensures DecodeAll(Float32Type(order), regs)[j].Float32?
    ensures order == "big" ==>
              DecodeAll(Float32Type(order), regs)[j].bits == regs[2 * j] as int * 0x1_0000 + regs[2 * j + 1]
    ensures order != "big" ==>
              DecodeAll(Float32Type(order), regs)[j].bits == regs[2 * j + 1] as int * 0x1_0000 + regs[2 * j]
  {
  }

  /** Registers 0x4348, 0x0000 read as FLOAT32 give the pattern 0x43480000, the single-precision 200.0. */
  lemma Float32Example()
    ensures DecodeAll(Float32Type("big"), [0x4348, 0x0000]) == [Float32(0x4348_0000)]
  {
    DecodeOne(Float32Type("big"), [0x4348, 0x0000]);
  }

  /** `regs` with each pair of registers swapped. */
  function SwapPairs(regs: seq<Word>): (s: seq<Word>)
    requires |regs| % 2 == 0
    ensures |s| == |regs|
  {
    if regs == [] then [] else
      var n := |regs| - 2;
      SwapPairs(regs[..n]) + [regs[n + 1], regs[n]]
  }

  /** INT32 with the low word first over `regs` is INT32 with the high word first over the pair-swapped `regs`. */
  lemma Int32LittleIsSwappedBig(order: string, regs: seq<Word>)
    requires order != "big" && |regs| % 2 == 0
    ensures DecodeAll(Int32Type(order), regs) == DecodeAll(Int32Type("big"), SwapPairs(regs))
  {
    PairsLittleIsSwappedBig(order, regs);
  }

  lemma {:induction false} PairsLittleIsSwappedBig(order: string, regs: seq<Word>)
    requires order != "big" && |regs| % 2 == 0
    ensures DecodePairs(Int32Type(order), regs) == DecodePairs(Int32Type("big"), SwapPairs(regs))
  {
    if regs != [] {
      var n := |regs| - 2;
      var swapped := SwapPairs(regs);
      assert swapped[..n] == SwapPairs(regs[..n]);
      assert swapped[n] == regs[n + 1] && swapped[n + 1] == regs[n];
      PairsLittleIsSwappedBig(order, regs[..n]);
      Int32SwappedWords(order, regs[n], regs[n + 1]);
      calc {
        DecodePairs(Int32Type(order), regs);
        DecodePairs(Int32Type(order), regs[..n]) + [DecodeChunk(Int32Type(order), [regs[n], regs[n + 1]])];
        DecodePairs(Int32Type("big"), swapped[..n]) + [DecodeChunk(Int32Type("big"), [swapped[n], swapped[n + 1]])];
        DecodePairs(Int32Type("big"), swapped);
      }
    }
  }

  /** FLOAT64 decodes the same under every byte order. */
  lemma Float64ByteOrderIgnored(order: string, regs: seq<Word>)
    requires |regs| % 4 == 0
    ensures DecodeAll(Float64Type(order), regs) == DecodeAll(Float64Type("big"), regs)
  {
    QuadsByteOrderIgnored(order, regs);
  }

  lemma {:induction false} QuadsByteOrderIgnored(order: string, regs: seq<Word>)
    requires |regs| % 4 == 0
    ensures DecodeQuads(Float64Type(order), regs) == DecodeQuads(Float64Type("big"), regs)
  {
    if regs != [] {
      var n := |regs| - 4;
      var last := [regs[n], regs[n + 1], regs[n + 2], regs[n + 3]];
      QuadsByteOrderIgnored(order, regs[..n]);
      calc {
        DecodeQuads(Float64Type(order), regs);
        DecodeQuads(Float64Type(order), regs[..n]) + [DecodeChunk(Float64Type(order), last)];
        DecodeQuads(Float64Type("big"), regs[..n]) + [DecodeChunk(Float64Type("big"), last)];
        DecodeQuads(Float64Type("big"), regs);
      }
    }
  }

  /** Every BITMAP item is a list of 16 flags whose weighted sum, bit i weighing 2^i, is its register. */
  lemma BitmapValues(regs: seq<Word>, j: nat)
    requires j < |regs|
    ensures var v := DecodeAll(BitmapType, regs)[j];
      && v.List? && |v.items| == 16
      && (forall i :: 0 <= i < 16 ==> v.items[i] == Bool(Bit(regs[j], i)))
      && BitsValue(seq(16, i requires 0 <= i < 16 => v.items[i].b)) == regs[j]
  {
    assert regs[j..j + 1] == [regs[j]];
    var v := DecodeAll(BitmapType, regs)[j];
    assert seq(16, i requires 0 <= i < 16 => v.items[i].b) == FlagsOf(regs[j]);
  }

  // ------------------------------------------------------- read_custom

  /** The keyword options `read_custom` forwards; a missing one takes its default. */
  datatype Options = Options(signed: Option<bool>, byteOrder: Option<string>)

  const DefaultSigned: bool := true
  const DefaultByteOrder: string := "big"

  /** The upper-case name `read_custom` matches each typed read by. */
  function TypeName(t: DataType): (name: string)
    ensures Upper(name) == name
  {
    match t
    case Int16Type(_) => UpperOfUpperCase("INT16"); "INT16"
    case Int32Type(_) => UpperOfUpperCase("INT32"); "INT32"
    case Float32Type(_) => UpperOfUpperCase("FLOAT32"); "FLOAT32"
    case Float64Type(_) => UpperOfUpperCase("FLOAT64"); "FLOAT64"
    case BitmapType => UpperOfUpperCase("BITMAP"); "BITMAP"
  }

  const SupportedNames: set<string> := {"INT16", "INT32", "FLOAT32", "FLOAT64", "BITMAP"}

  /**
   * The typed read `read_custom` calls for `dataType` with `options`:
   * none for an unsupported name; otherwise the read whose name is the
   * upper-cased `dataType`, with signed=True and byte_order='big' unless
   * the options say otherwise.
   */
  function Dispatch(dataType: string, options: Options): (r: Option<DataType>)
    ensures r.Some? <==> Upper(dataType) in SupportedNames
    ensures r.Some? ==> TypeName(r.value) == Upper(dataType)
    ensures r.Some? && r.value.Int16Type? ==> r.value.signed == options.signed.GetOr(DefaultSigned)
    ensures r.Some? && (r.value.Int32Type? || r.value.Float32Type? || r.value.Float64Type?) ==>
              r.value.byteOrder == options.byteOrder.GetOr(DefaultByteOrder)
  {
    var name := Upper(dataType);
    var order := options.byteOrder.GetOr(DefaultByteOrder);
    if name == "INT16" then Some(Int16Type(options.signed.GetOr(DefaultSigned)))
    else if name == "INT32" then Some(Int32Type(order))
    else if name == "FLOAT32" then Some(Float32Type(order))
    else if name == "FLOAT64" then Some(Float64Type(order))
    else if name == "BITMAP" then Some(BitmapType)
    else None
  }

  /** The type each supported upper-cased name selects, one name at a time. */
  lemma DispatchByName(dataType: string, options: Options)
    ensures var name, order := Upper(dataType), options.byteOrder.GetOr(DefaultByteOrder);
      && (name == "INT16" ==> Dispatch(dataType, options) == Some(Int16Type(options.signed.GetOr(DefaultSigned))))
      && (name == "INT32" ==> Dispatch(dataType, options) == Some(Int32Type(order)))
      && (name == "FLOAT32" ==> Dispatch(dataType, options) == Some(Float32Type(order)))
      && (name == "FLOAT64" ==> Dispatch(dataType, options) == Some(Float64Type(order)))
      && (name == "BITMAP" ==> Dispatch(dataType, options) == Some(BitmapType))
      && (name !in SupportedNames ==> Dispatch(dataType, options) == None)
  {
  }

  /** The dispatch only sees the upper-cased name. */
  lemma DispatchIgnoresCase(dataType: string, options: Options)
    ensures Dispatch(dataType, options) == Dispatch(Upper(dataType), options)
  {
    UpperIdempotent(dataType);
  }

  /** Names that differ only in the case of their letters dispatch alike. */
  lemma DispatchCaseInsensitive(a: string, b: string, options: Options)
    requires Upper(a) == Upper(b)
    ensures Dispatch(a, options) == Dispatch(b, options)
  {
  }
}
