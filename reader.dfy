/**
 * The `ModbusReader` object of modbus_reader.py: its connection state, the
 * raw holding-register read, the five typed reads, `read_custom` and
 * `read_multiple`. The network client is replaced by the register bank of
 * the server it talks to; each typed read is a loop over the registers the
 * raw read returned, proved to build the list `Decoding.Reply` describes.
 */
module Reader {
  import opened Wrappers
  import opened Words
  import opened Text
  import opened Decoding
  import opened RegisterMap

  /** Largest register count one Read Holding Registers request may ask for (section 6.3 of the Modbus Application Protocol Specification V1.1b3). */
  const MaxReadQuantity: nat := 125

  const DefaultIpAddress: string := "192.168.0.5"
  const DefaultPort: int := 502
  const DefaultSlaveId: int := 255

  /**
   * How one `connect()` attempt went: the TCP connection attempt answered
   * (accepted or refused), `ModbusTcpClient(...)` raised, or
   * `client.connect()` raised.
   */
  datatype Attempt = Answered(accepted: bool) | ClientRaised | ConnectRaised

  /**
   * The Modbus server behind the TCP client: its holding registers by
   * address, and the requests that fail for reasons a register bank does not
   * explain (an exception reply such as 04 server device failure or 06
   * server busy, a timeout or a dropped connection). A read fails (the
   * client sees an error reply or an exception) when the quantity is
   * outside 1..125 or the range leaves the 16-bit address space (exception
   * 03), when an address in the range holds no register (exception 02), or
   * when the request is one of the failing ones.
   */
  datatype Server = Server(holding: map<int, Word>, failing: set<(int, nat)>) {

    predicate Answers(address: int, count: nat)
    {
      && 1 <= count <= MaxReadQuantity
      && 0 <= address && address + count <= 0x1_0000
      && (forall a :: address <= a < address + count ==> a in holding)
      && (address, count) !in failing
    }

    function Read(address: int, count: nat): (r: Option<seq<Word>>)
      ensures r.Some? <==> Answers(address, count)
      ensures r.Some? ==> |r.value| == count && forall i :: 0 <= i < count ==> r.value[i] == holding[address + i]
    {
      if Answers(address, count) then
        Some(seq(count, i requires 0 <= i < count => holding[address + i]))
      else
        None
    }
  }

  /**
   * `struct.pack` of two registers and `struct.unpack` of the bytes as one
   * 32-bit float: big-endian for byte order "big", little-endian otherwise.
   */
  method Float32Pattern(byteOrder: string, first: Word, second: Word) returns (bits: nat)
    ensures bits == Float32Bits(byteOrder, first, second)
  {
    if byteOrder == "big" {
      var bytesData := Pack(true, [first, second]);
      bits := UnpackBig(bytesData);
      PairBig(first, second);
    } else {
      var bytesData := Pack(false, [first, second]);
      bits := UnpackLittle(bytesData);
      PairLittle(first, second);
    }
  }

  /**
   * `struct.pack` of four registers and `struct.unpack` of the bytes as one
   * 64-bit float: big-endian for byte order "big"; otherwise the registers
   * reversed, little-endian.
   */
  method Float64Pattern(byteOrder: string, r0: Word, r1: Word, r2: Word, r3: Word) returns (bits: nat)
    ensures bits == Float64Bits([r0, r1, r2, r3])
  {
    if byteOrder == "big" {
      var bytesData := Pack(true, [r0, r1, r2, r3]);
      bits := UnpackBig(bytesData);
      QuadBig([r0, r1, r2, r3]);
    } else {
      var bytesData := Pack(false, [r3, r2, r1, r0]);
      bits := UnpackLittle(bytesData);
      QuadLittleReversed([r0, r1, r2, r3]);
    }
  }

  /** The loop of `read_int16`: one value per register, sign-corrected when `signed`. */
  method Int16Values(regs: seq<Word>, signed: bool) returns (values: seq<Value>)
    ensures values == DecodeSingles(Int16Type(signed), regs)
  {
    values := [];
    for k := 0 to |regs|
      invariant values == DecodeSingles(Int16Type(signed), regs[..k])
    {
      SinglesSnoc(Int16Type(signed), regs, k);
      var reg := regs[k];
      if signed {
        values := values + [Int(ToSigned16(reg))];
      } else {
        values := values + [Int(reg)];
      }
    }
    assert regs[..|regs|] == regs;
  }

  /** The loop of `read_int32`: registers two at a time, joined in the given word order and sign-corrected. */
  method Int32Values(regs: seq<Word>, byteOrder: string) returns (values: seq<Value>)
    requires |regs| % 2 == 0
    ensures values == DecodePairs(Int32Type(byteOrder), regs)
  {
    values := [];
    var k := 0;
    ghost var n := 0;
    while k < |regs|
      invariant k == 2 * n && k <= |regs|
      invariant values == DecodePairs(Int32Type(byteOrder), regs[..k])
    {
      PairsSnoc(Int32Type(byteOrder), regs, n);
      var u;
      if byteOrder == "big" {
        u := JoinWords(regs[k], regs[k + 1]);
      } else {
        u := JoinWords(regs[k + 1], regs[k]);
      }
      values := values + [Int(ToSigned32(u))];
      k := k + 2;
      n := n + 1;
    }
    assert regs[..|regs|] == regs;
  }

  /** The loop of `read_float32`: registers two at a time, packed and unpacked as one float. */
  method Float32Values(regs: seq<Word>, byteOrder: string) returns (values: seq<Value>)
    requires |regs| % 2 == 0
    ensures values == DecodePairs(Float32Type(byteOrder), regs)
  {
    values := [];
    var k := 0;
    ghost var n := 0;
    while k < |regs|
      invariant k == 2 * n && k <= |regs|
      invariant values == DecodePairs(Float32Type(byteOrder), regs[..k])
    {
      PairsSnoc(Float32Type(byteOrder), regs, n);
      var bits := Float32Pattern(byteOrder, regs[k], regs[k + 1]);
      assert Float32(bits) == DecodeChunk(Float32Type(byteOrder), [regs[k], regs[k + 1]]);
      values := values + [Float32(bits)];
      k := k + 2;
      n := n + 1;
    }
    assert regs[..|regs|] == regs;
  }

  /** The loop of `read_float64`: registers four at a time, packed and unpacked as one double. */
  method Float64Values(regs: seq<Word>, byteOrder: string) returns (values: seq<Value>)
    requires |regs| % 4 == 0
    ensures values == DecodeQuads(Float64Type(byteOrder), regs)
  {
    values := [];
    var k := 0;
    ghost var n := 0;
    while k < |regs|
      invariant k == 4 * n && k <= |regs|
      invariant values == DecodeQuads(Float64Type(byteOrder), regs[..k])
    {
      QuadsSnoc(Float64Type(byteOrder), regs, n);
      var bits := Float64Pattern(byteOrder, regs[k], regs[k + 1], regs[k + 2], regs[k + 3]);
      assert Float64(bits) == DecodeChunk(Float64Type(byteOrder), [regs[k], regs[k + 1], regs[k + 2], regs[k + 3]]);
      values := values + [Float64(bits)];
      k := k + 4;
      n := n + 1;
    }
    assert regs[..|regs|] == regs;
  }

  /** The 16 flags of one register, built bit by bit as `read_bitmap` does. */
  method RegisterFlags(reg: Word) returns (bits: Value)
    ensures bits == FlagList(reg)
  {
    var flags: seq<Value> := [];
    for i := 0 to 16
      invariant |flags| == i
      invariant forall j :: 0 <= j < i ==> flags[j] == Bool(Bit(reg, j))
    {
      flags := flags + [Bool(Bit(reg, i))];
    }
    bits := List(flags);
  }

  /** The loop of `read_bitmap` for more than one register: one flag list per register. */
  method BitmapFlagLists(regs: seq<Word>) returns (values: seq<Value>)
    ensures values == DecodeSingles(BitmapType, regs)
  {
    values := [];
    for k := 0 to |regs|
      invariant values == DecodeSingles(BitmapType, regs[..k])
    {
      SinglesSnoc(BitmapType, regs, k);
      var bits := RegisterFlags(regs[k]);
      values := values + [bits];
    }
    assert regs[..|regs|] == regs;
  }

  class ModbusReader {
    var ipAddress: string
    var port: int
    var slaveId: int
    /** `self.client`: the server the client was created for, once `Connect` ran. */
    var client: Option<Server>
    var connected: bool

    constructor (ipAddress: string := DefaultIpAddress, port: int := DefaultPort, slaveId: int := DefaultSlaveId)
      ensures this.ipAddress == ipAddress && this.port == port && this.slaveId == slaveId
      ensures client == None && !connected
    {
      this.ipAddress := ipAddress;
      this.port := port;
      this.slaveId := slaveId;
      client := None;
      connected := false;
    }

    /**
     * `connect()`: creates the client for `server` and opens the TCP
     * connection; `attempt` says how that went. An answered attempt becomes
     * the connection state; an exception makes it return false, leaving
     * everything as it was when the client constructor raised, and keeping
     * the new client but the old connection state when `connect()` raised.
     */
    method Connect(server: Server, attempt: Attempt) returns (ok: bool)
      modifies this
      ensures attempt.Answered? ==> client == Some(server) && connected == attempt.accepted && ok == attempt.accepted
      ensures attempt.ClientRaised? ==> client == old(client) && connected == old(connected) && !ok
      ensures attempt.ConnectRaised? ==> client == Some(server) && connected == old(connected) && !ok
      ensures ipAddress == old(ipAddress) && port == old(port) && slaveId == old(slaveId)
    {
      match attempt
      case ClientRaised =>
        ok := false;
      case ConnectRaised =>
        client := Some(server);
        ok := false;
      case Answered(accepted) =>
        client := Some(server);
        connected := accepted;
        ok := connected;
    }

    /** `disconnect()`: closes an existing client; without one nothing changes. */
    method Disconnect()
      modifies this
      ensures client == old(client)
      ensures connected == (old(client).None? && old(connected))
      ensures ipAddress == old(ipAddress) && port == old(port) && slaveId == old(slaveId)
    {
      if client.Some? {
        connected := false;
      }
    }

    /** What `read_holding_registers(address, count)` returns in the current state. */
    function Fetch(address: int, count: nat): (r: Option<seq<Word>>)
      reads this
      ensures !connected ==> r.None?
      ensures r.Some? ==> |r.value| == count
      ensures connected && client.Some? ==> r == client.value.Read(address, count)
    {
      if !connected then None
      else match client
        case None => None
        case Some(server) => server.Read(address, count)
    }

    method ReadHoldingRegisters(address: int, count: nat) returns (r: Option<seq<Word>>)
      ensures r == Fetch(address, count)
      ensures r.None? <==> !connected || client.None? || !client.value.Answers(address, count)
    {
      if !connected {
        return None;
      }
      match client
      case None => r := None;
      case Some(server) => r := server.Read(address, count);
    }

    /** `read_int16(address, count, signed)`: `count` registers, one value each. */
    method ReadInt16(address: int, count: nat := 1, signed: bool := DefaultSigned) returns (r: Option<Value>)
      ensures r == Reply(Int16Type(signed), Fetch(address, count), count)
    {
      var registers := ReadHoldingRegisters(address, count);
      if registers.None? {
        return None;
      }
      var values := Int16Values(registers.value, signed);
      ReplyOfValues(Int16Type(signed), registers.value, count, values);
      r := Some(if count == 1 then values[0] else List(values));
    }

    /** `read_int32(address, count, byte_order)`: `2 * count` registers, one value per pair. */
    method ReadInt32(address: int, count: nat := 1, byteOrder: string := DefaultByteOrder) returns (r: Option<Value>)
      ensures r == Reply(Int32Type(byteOrder), Fetch(address, RequestSize(Int32Type(byteOrder), count)), count)
      ensures RequestSize(Int32Type(byteOrder), count) == 2 * count
    {
      var registerCount := count * 2;
      var registers := ReadHoldingRegisters(address, registerCount);
      if registers.None? {
        return None;
      }
      var values := Int32Values(registers.value, byteOrder);
      ReplyOfValues(Int32Type(byteOrder), registers.value, count, values);
      r := Some(if count == 1 then values[0] else List(values));
    }

    /** `read_float32(address, count, byte_order)`: `2 * count` registers, one bit pattern per pair. */
    method ReadFloat32(address: int, count: nat := 1, byteOrder: string := DefaultByteOrder) returns (r: Option<Value>)
      ensures r == Reply(Float32Type(byteOrder), Fetch(address, RequestSize(Float32Type(byteOrder), count)), count)
      ensures RequestSize(Float32Type(byteOrder), count) == 2 * count
    {
      var registerCount := count * 2;
      var registers := ReadHoldingRegisters(address, registerCount);
      if registers.None? {
        return None;
      }
      var values := Float32Values(registers.value, byteOrder);
      ReplyOfValues(Float32Type(byteOrder), registers.value, count, values);
      r := Some(if count == 1 then values[0] else List(values));
    }

    /** `read_float64(address, count, byte_order)`: `4 * count` registers, one bit pattern per quadruple. */
    method ReadFloat64(address: int, count: nat := 1, byteOrder: string := DefaultByteOrder) returns (r: Option<Value>)
      ensures r == Reply(Float64Type(byteOrder), Fetch(address, RequestSize(Float64Type(byteOrder), count)), count)
      ensures RequestSize(Float64Type(byteOrder), count) == 4 * count
    {
      var registerCount := count * 4;
      var registers := ReadHoldingRegisters(address, registerCount);
      if registers.None? {
        return None;
      }
      var values := Float64Values(registers.value, byteOrder);
      ReplyOfValues(Float64Type(byteOrder), registers.value, count, values);
      r := Some(if count == 1 then values[0] else List(values));
    }

    /**
     * `read_bitmap(address, count)`: the 16 flags of the one register when
     * `count` is 1, otherwise one list of 16 flags per register.
     */
    method ReadBitmap(address: int, count: nat := 1) returns (r: Option<Value>)
      ensures r == Reply(BitmapType, Fetch(address, count), count)
    {
      var registers := ReadHoldingRegisters(address, count);
      if registers.None? {
        return None;
      }
      var regs := registers.value;
      if count == 1 {
        var bits := RegisterFlags(regs[0]);
        assert [regs[0]] == regs;
        return Some(bits);
      }
      var result := BitmapFlagLists(regs);
      ReplyOfValues(BitmapType, regs, count, result);
      r := Some(List(result));
    }

    /** What `read_custom(address, data_type, count, **options)` returns in the current state. */
    function CustomRead(address: int, dataType: string, count: nat, options: Options): (r: Option<Value>)
      reads this
      ensures Dispatch(dataType, options).None? ==> r.None?
      ensures !connected ==> r.None?
    {
      match Dispatch(dataType, options)
      case None => None
      case Some(t) => Reply(t, Fetch(address, RequestSize(t, count)), count)
    }

    /**
     * `read_custom(address, data_type, count, **options)`: the typed read
     * named by the upper-cased `dataType`, or `None` for any other name.
     */
    method ReadCustom(address: int, dataType: string, count: nat := 1, options: Options := Options(None, None)) returns (r: Option<Value>)
      ensures r == CustomRead(address, dataType, count, options)
    {
      var name := Upper(dataType);
      DispatchByName(dataType, options);
      if name == "INT16" {
        var signed := options.signed.GetOr(DefaultSigned);
        assert CustomRead(address, dataType, count, options) == Reply(Int16Type(signed), Fetch(address, count), count);
        r := ReadInt16(address, count, signed);
      } else if name == "INT32" {
        var byteOrder := options.byteOrder.GetOr(DefaultByteOrder);
        r := ReadInt32(address, count, byteOrder);
      } else if name == "FLOAT32" {
        var byteOrder := options.byteOrder.GetOr(DefaultByteOrder);
        r := ReadFloat32(address, count, byteOrder);
      } else if name == "FLOAT64" {
        var byteOrder := options.byteOrder.GetOr(DefaultByteOrder);
        r := ReadFloat64(address, count, byteOrder);
      } else if name == "BITMAP" {
        assert CustomRead(address, dataType, count, options) == Reply(BitmapType, Fetch(address, count), count);
        r := ReadBitmap(address, count);
      } else {
        r := None;
      }
    }

    /** The value `read_multiple` obtains for one entry in the current state. */
    function EntryValue(cfg: RegisterConfig): (v: Option<Value>)
      reads this
      ensures v.Some? ==> connected && Dispatch(cfg.dataType, cfg.options).Some?
    {
      CustomRead(cfg.address, cfg.dataType, EntryCount(cfg), cfg.options)
    }

    /** The rows `read_multiple` collects for a register map, entry by entry. */
    function MapRows(entries: seq<RegisterConfig>): (rows: seq<Row>)
      reads this
      ensures |rows| >= |entries|
    {
      if entries == [] then []
      else
        var last := entries[|entries| - 1];
        MapRows(entries[..|entries| - 1]) + EntryRows(last, EntryValue(last))
    }

    /** Without a connection every entry of the map gives exactly one row. */
    lemma {:induction false} DisconnectedLength(entries: seq<RegisterConfig>)
      requires !connected
      ensures |MapRows(entries)| == |entries|
    {
      if entries != [] {
        var init, last := entries[..|entries| - 1], entries[|entries| - 1];
        FailedReadRow(last);
        DisconnectedLength(init);
      }
    }

    /** Without a connection every entry of the map gives its single 'Error' row. */
    lemma {:induction false} DisconnectedRows(entries: seq<RegisterConfig>, k: nat)
      requires !connected && k < |entries|
      ensures |MapRows(entries)| == |entries|
      ensures MapRows(entries)[k] == ErrorRow(entries[k])
    {
      DisconnectedLength(entries);
      var n := |entries| - 1;
      var init, last := entries[..n], entries[n];
      FailedReadRow(last);
      DisconnectedLength(init);
      var rows := MapRows(init);
      assert MapRows(entries) == rows + [ErrorRow(last)];
      if k == n {
        assert MapRows(entries)[n] == ErrorRow(last);
      } else {
        DisconnectedRows(init, k);
        assert entries[k] == init[k];
        assert MapRows(entries)[k] == rows[k] == ErrorRow(init[k]);
      }
    }

    /** `read_multiple(register_map)`, without the DataFrame and the timestamps. */
    method ReadMultiple(registerMap: seq<RegisterConfig>) returns (results: seq<Row>)
      ensures results == MapRows(registerMap)
    {
      results := [];
      for e := 0 to |registerMap|
        invariant results == MapRows(registerMap[..e])
      {
        var cfg := registerMap[e];
        assert registerMap[..e + 1][..e] == registerMap[..e];
        assert MapRows(registerMap[..e + 1]) == MapRows(registerMap[..e]) + EntryRows(cfg, EntryValue(cfg));
        var value := ReadCustom(cfg.address, cfg.dataType, EntryCount(cfg), cfg.options);
        assert value == EntryValue(cfg);
        var rows := BuildEntryRows(cfg, value);
        results := results + rows;
      }
      assert registerMap[..|registerMap|] == registerMap;
    }
  }
}
