/**
 * The rows `read_multiple` builds from one register-map entry and the value
 * `read_custom` returned for it. A row carries the entry's name, address,
 * raw data-type string, the value (or the text 'Error'), unit and
 * description; the DataFrame that collects the rows and each row's
 * timestamp are outside this model.
 */
module RegisterMap {
  import opened Wrappers
  import opened Words
  import opened Text
  import opened Decoding

  /** One dictionary of the register map; an absent optional key is `None`. */
  datatype RegisterConfig = RegisterConfig(
    name: Option<string>,
    address: int,
    dataType: string,
    count: Option<nat>,
    unit: Option<string>,
    description: Option<string>,
    options: Options)

  /** The 'Value' column: a decoded value, or the string 'Error' when the read failed. */
  datatype Cell = Got(value: Value) | ReadError

  datatype Row = Row(name: string, address: int, dataType: string, value: Cell, unit: string, description: string)

  const DefaultCount: nat := 1

  /** `f'Register_{address}'`, the name of an entry without one. */
  function DefaultName(address: int): (s: string)
    ensures |s| > 9 && s[..9] == "Register_" && s[9..] == IntToDecimal(address)
  {
    "Register_" + IntToDecimal(address)
  }

  /** The configured name, or `Register_<address>` without one. */
  function EntryName(cfg: RegisterConfig): (s: string)
    ensures cfg.name.Some? ==> s == cfg.name.value
    ensures cfg.name.None? ==> s == DefaultName(cfg.address)
  {
    cfg.name.GetOr(DefaultName(cfg.address))
  }

  /** The configured count, or 1 without one. */
  function EntryCount(cfg: RegisterConfig): (n: nat)
    ensures cfg.count.Some? ==> n == cfg.count.value
    ensures cfg.count.None? ==> n == 1
  {
    cfg.count.GetOr(DefaultCount)
  }

  /** The configured unit, or the empty string without one. */
  function EntryUnit(cfg: RegisterConfig): (s: string)
    ensures cfg.unit.Some? ==> s == cfg.unit.value
    ensures cfg.unit.None? ==> s == ""
  {
    cfg.unit.GetOr("")
  }

  /** The configured description, or the empty string without one. */
  function EntryDescription(cfg: RegisterConfig): (s: string)
    ensures cfg.description.Some? ==> s == cfg.description.value
    ensures cfg.description.None? ==> s == ""
  {
    cfg.description.GetOr("")
  }

  /**
   * The address step between the rows of a multi-value entry. It is read
   * from the data-type string as given, not upper-cased: only the exact
   * names 'INT32' and 'FLOAT32' step by 2 and 'FLOAT64' by 4.
   */
  function Stride(dataType: string): (s: nat)
    ensures s == 2 <==> dataType == "INT32" || dataType == "FLOAT32"
    ensures s == 4 <==> dataType == "FLOAT64"
    ensures s == 1 <==> dataType !in {"INT32", "FLOAT32", "FLOAT64"}
  {
    if dataType == "INT32" || dataType == "FLOAT32" then 2 else if dataType == "FLOAT64" then 4 else 1
  }

  /** `f"{name}[{i}]"`, the name of the i-th row of a multi-value entry. */
  function ElementName(name: string, i: int): (s: string)
    ensures |s| == |name| + |IntToDecimal(i)| + 2
    ensures s[..|name|] == name && s[|name|] == '[' && s[|s| - 1] == ']'
    ensures s[|name| + 1..|s| - 1] == IntToDecimal(i)
  {
    name + "[" + IntToDecimal(i) + "]"
  }

  /** The row of the i-th value of a multi-value entry. */
  function ElementRow(cfg: RegisterConfig, i: nat, v: Value): Row
  {
    Row(ElementName(EntryName(cfg), i), cfg.address + i * Stride(cfg.dataType), cfg.dataType, Got(v),
        EntryUnit(cfg), EntryDescription(cfg))
  }

  /** The row of an entry whose read failed: 'Error' in place of the value. */
  function ErrorRow(cfg: RegisterConfig): (r: Row)
    ensures r.value.ReadError? && r.address == cfg.address && r.dataType == cfg.dataType
    ensures cfg.name.None? ==> r.name == DefaultName(cfg.address)
    ensures cfg.unit.None? && cfg.description.None? ==> r.unit == "" && r.description == ""
  {
    Row(EntryName(cfg), cfg.address, cfg.dataType, ReadError, EntryUnit(cfg), EntryDescription(cfg))
  }

  /** Whether the entry's result is spread over one row per value. */
  predicate IsMultiRow(cfg: RegisterConfig, value: Option<Value>): (b: bool)
    ensures b ==> value.Some? && cfg.count.Some? && cfg.count.value >= 2
  {
    value.Some? && value.value.List? && EntryCount(cfg) > 1
  }

  /**
   * The rows of one entry: one per value when the read returned a list and
   * more than one value was asked for, otherwise a single row holding the
   * value, or 'Error' when the read failed.
   */
  function EntryRows(cfg: RegisterConfig, value: Option<Value>): (rows: seq<Row>)
    ensures IsMultiRow(cfg, value) ==> |rows| == |value.value.items|
    ensures !IsMultiRow(cfg, value) ==> |rows| == 1
    ensures forall k :: 0 <= k < |rows| ==>
              rows[k].dataType == cfg.dataType && rows[k].unit == EntryUnit(cfg)
              && rows[k].description == EntryDescription(cfg)
    ensures IsMultiRow(cfg, value) ==> forall k :: 0 <= k < |rows| ==>
              && rows[k].name == ElementName(EntryName(cfg), k)
              && rows[k].address == cfg.address + k * Stride(cfg.dataType)
              && rows[k].value == Got(value.value.items[k])
    ensures !IsMultiRow(cfg, value) ==>
              && rows[0].name == EntryName(cfg) && rows[0].address == cfg.address
              && rows[0].value == (if value.Some? then Got(value.value) else ReadError)
  {
    var name, unit, description := EntryName(cfg), EntryUnit(cfg), EntryDescription(cfg);
    match value
    case None => [ErrorRow(cfg)]
    case Some(v) =>
      if v.List? && EntryCount(cfg) > 1 then
        seq(|v.items|, k requires 0 <= k < |v.items| => ElementRow(cfg, k, v.items[k]))
      else
        [Row(name, cfg.address, cfg.dataType, Got(v), unit, description)]
  }

  /** The inner loop of `read_multiple` for a multi-value entry: one row per value, in order. */
  method BuildElementRows(cfg: RegisterConfig, items: seq<Value>) returns (rows: seq<Row>)
    ensures rows == seq(|items|, k requires 0 <= k < |items| => ElementRow(cfg, k, items[k]))
  {
    var name := cfg.name.GetOr(DefaultName(cfg.address));
    var unit := cfg.unit.GetOr("");
    var description := cfg.description.GetOr("");
    rows := [];
    for i := 0 to |items|
      invariant |rows| == i
      invariant forall j :: 0 <= j < i ==> rows[j] == ElementRow(cfg, j, items[j])
    {
      var row := Row(name + "[" + IntToDecimal(i) + "]", cfg.address + i * Stride(cfg.dataType), cfg.dataType,
                     Got(items[i]), unit, description);
      assert row == ElementRow(cfg, i, items[i]);
      rows := rows + [row];
    }
  }

  /**
   * The body of `read_multiple`'s loop for one entry, given the value
   * `read_custom` returned for it: the rows appended to the results.
   */
  method BuildEntryRows(cfg: RegisterConfig, value: Option<Value>) returns (rows: seq<Row>)
    ensures rows == EntryRows(cfg, value)
  {
    var name := cfg.name.GetOr(DefaultName(cfg.address));
    var count := cfg.count.GetOr(DefaultCount);
    var unit := cfg.unit.GetOr("");
    var description := cfg.description.GetOr("");
    if value.Some? {
      if value.value.List? && count > 1 {
        rows := BuildElementRows(cfg, value.value.items);
      } else {
        rows := [Row(name, cfg.address, cfg.dataType, Got(value.value), unit, description)];
      }
    } else {
      rows := [Row(name, cfg.address, cfg.dataType, ReadError, unit, description)];
    }
  }

  // ----------------------------------------------------------- properties

  /** A failed read gives the entry's single 'Error' row. */
  lemma FailedReadRow(cfg: RegisterConfig)
    ensures EntryRows(cfg, None) == [ErrorRow(cfg)]
  {
  }

  /** The element names of one entry are pairwise distinct. */
  lemma ElementNamesDistinct(name: string, i: int, j: int)
    requires ElementName(name, i) == ElementName(name, j)
    ensures i == j
  {
    var s := ElementName(name, i);
    var p := |name| + 1;
    assert s[p..|s| - 1] == IntToDecimal(i);
    assert ElementName(name, j)[p..|s| - 1] == IntToDecimal(j);
    IntToDecimalInjective(i, j);
  }

  /**
   * Rows of an entry whose read went through one of the typed reads: a
   * failed read gives the single 'Error' row; a successful read of more
   * than one value gives exactly `count` rows, the k-th holding the k-th
   * decoded value; any other successful read gives the single row holding
   * the whole result.
   */
  lemma RowsOfRead(cfg: RegisterConfig, t: DataType, reply: Option<seq<Word>>)
    requires reply.Some? ==> |reply.value| == RequestSize(t, EntryCount(cfg))
    ensures var rows := EntryRows(cfg, Reply(t, reply, EntryCount(cfg)));
      && (reply.None? ==> rows == [ErrorRow(cfg)])
      && (reply.Some? && EntryCount(cfg) > 1 ==>
            |rows| == EntryCount(cfg)
            && forall k :: 0 <= k < |rows| ==>
                 rows[k].value == Got(Reply(t, reply, EntryCount(cfg)).value.items[k]))
      && (reply.Some? && EntryCount(cfg) <= 1 ==>
            rows == [Row(EntryName(cfg), cfg.address, cfg.dataType, Got(Reply(t, reply, EntryCount(cfg)).value),
                         EntryUnit(cfg), EntryDescription(cfg))])
  {
  }

  /**
   * For the upper-case name of a type the stride is the register width of
   * the type it dispatches to, so consecutive rows carry the addresses of
   * consecutive values.
   */
  lemma StrideMatchesWidth(t: DataType, options: Options)
    ensures Dispatch(TypeName(t), options).Some?
    ensures Stride(TypeName(t)) == Width(Dispatch(TypeName(t), options).value)
  {
  }

  /**
   * A name that is 'INT32' only after upper-casing decodes as INT32, two
   * registers per value, but its rows step through the addresses by one.
   */
  lemma MixedCaseInt32Stride(dataType: string, options: Options)
    requires Upper(dataType) == "INT32" && dataType != "INT32"
    ensures Dispatch(dataType, options) == Some(Int32Type(options.byteOrder.GetOr(DefaultByteOrder)))
    ensures Width(Dispatch(dataType, options).value) == 2
    ensures Stride(dataType) == 1
  {
  }

  /** The quirk is reachable: "int32" is such a name. */
  lemma LowerCaseInt32Example()
    ensures Upper("int32") == "INT32"
    ensures Stride("int32") == 1
  {
    assert Upper("int32") == [UpperChar('i')] + Upper("nt32");
  }
}
