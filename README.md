# Modbus TCP register reader, modelled in Dafny

This project models `ModbusReader`, the Modbus TCP holding-register reader in
`modbus_reader.py`. It covers:

- the connection state (`connect`, `disconnect`);
- the raw read `read_holding_registers`, which returns `None` whenever it is
  not connected or the device answers with an error;
- the five typed reads:
  - `read_int16` (optionally signed);
  - `read_int32` (two registers, word order chosen by `byte_order`);
  - `read_float32` and `read_float64` (two and four registers packed with
    `struct` in the order `byte_order` chooses);
  - `read_bitmap` (16 flags per register);
- `read_custom`, which upper-cases the data-type name, picks the typed read
  and fills in `signed=True` and `byte_order='big'` when the options leave
  them out;
- `read_multiple`, which turns a register map into one row per entry, or one
  row per value for a multi-value entry.

The default arguments of the code are kept as Dafny default parameters: the
constructor's `ip_address="192.168.0.5"`, `port=502` and `slave_id=255`, and
`count=1`, `signed=True` and `byte_order="big"` on the typed reads and on
`read_custom`.

The device is a Modbus server with a map of holding registers. A Read Holding
Registers request gets an answer only when:

- the quantity is 1 to 125;
- the address range stays inside the 16-bit address space;
- every address in the range holds a register;
- the request is not one of the server's failing requests.

The first three rules come from section 6.3 of the Modbus Application Protocol
Specification V1.1b3. The failing requests stand for everything else that
makes a read fail: an exception reply such as 04 (server device failure) or
06 (server busy), a timeout, or a dropped connection. Every failed request
is turned into `None` by the reader.

How the modules are split:

- `words.dfy` (module `Words`): what the typed reads do to one register or one
  group of registers:
  - the two's-complement fix-ups;
  - `(hi << 16) | lo`, written as `hi * 65536 + lo`;
  - the `struct.pack`/`struct.unpack` byte assembly;
  - the bit test `bool(reg & (1 << i))`.

  Each step comes with the encoder a device would use, proved to be its
  inverse.
- `text.dfy` (module `Text`): `str.upper()` on ASCII, and `str(n)` for the
  row names.
- `decoding.dfy` (module `Decoding`):
  - `DecodeAll`, the list a typed read's loop builds;
  - `Reply`, the `values[0] if count == 1 else values` rule;
  - `Dispatch`, the `read_custom` name table.
- `registermap.dfy` (module `RegisterMap`): the rows `read_multiple` builds for
  one entry.
- `reader.dfy` (module `Reader`): the Modbus server and the `ModbusReader`
  class.
  - Each typed read is a method. It calls the raw read and runs the loop.
    The loop is proved to compute `DecodeAll` and the method to return
    `Reply`.
  - The functions `Fetch`, `CustomRead` and `MapRows` state what the raw
    read, `read_custom` and `read_multiple` return in the current state.

Two behaviours of the code are kept as written, and their consequences are
proved:

- FLOAT64 with `byte_order='little'` packs the registers in reverse order and
  then reads the bytes little-endian. The result is the same 64-bit pattern
  as big-endian, so the option has no effect (`Decoding.Float64ByteOrderIgnored`).
- `read_multiple` works out the address step between rows from the data-type
  string as written, before any upper-casing. An entry typed `"int32"`
  decodes as INT32 (two registers per value), but its rows step through the
  addresses by one (`RegisterMap.MixedCaseInt32Stride`).

## Model

| member | source | states |
|---|---|---|
| Words.ToSigned16 | modbus_reader.py:106-111 | the signed reading of a register is a 16-bit signed integer, congruent to the register mod 65536, and non-negative exactly when the register is below 0x8000 |
| Words.EncodeInt16 | modbus_reader.py:106-111 | every signed 16-bit value has a register that reads back as it (the inverse of the sign fix-up) |
| Words.Signed16Injective | modbus_reader.py:106-111 | distinct registers never read as the same signed value |
| Words.JoinWords | modbus_reader.py:140 | `(hi << 16) \| lo` is a 32-bit pattern whose high word is `hi` and whose low word is `lo` |
| Words.ToSigned32 | modbus_reader.py:146-147 | the fix-up gives a 32-bit signed integer congruent to the pattern mod 2^32 |
| Words.Int32Of | modbus_reader.py:138-147 | with "big" the first register is the high word; with any other byte order the second is; the result is a 32-bit signed integer |
| Words.EncodeInt32 | modbus_reader.py:138-147 | every 32-bit signed value has a register pair that reads back as it, high word first for "big" and swapped for any other order |
| Words.Int32SwappedWords | modbus_reader.py:138-143 | low word first on (a, b) equals high word first on (b, a) |
| Words.WordBytes | modbus_reader.py:176-179 | one register packs to two bytes, high byte first for '>H' and low byte first for '<H', and the bytes denote the register |
| Words.Pack | modbus_reader.py:176-179 | packing n registers gives 2n bytes |
| Words.PackWordAt | modbus_reader.py:210-215 | bytes 2k and 2k+1 of the packed registers are the two bytes of register k |
| Words.UnpackBig | modbus_reader.py:182 | a big-endian unpack has the last byte as its lowest byte |
| Words.UnpackLittle | modbus_reader.py:218 | a little-endian unpack has the first byte as its lowest byte |
| Words.UnpackBigPack | modbus_reader.py:176 | `struct.pack('>H…')` followed by a big-endian unpack gives the registers as base-65536 digits, first register most significant |
| Words.UnpackLittlePack | modbus_reader.py:179 | `struct.pack('<H…')` followed by a little-endian unpack gives the registers as base-65536 digits, first register least significant |
| Words.Float32Bits | modbus_reader.py:174-182 | the FLOAT32 bit pattern is below 2^32; its high half is the first register and its low half the second for "big", the other way round for any other order |
| Words.Float64Bits | modbus_reader.py:208-218 | the FLOAT64 bit pattern of four registers, first register most significant, is below 2^64 |
| Words.PairBig | modbus_reader.py:176 | `struct.pack('>HH')` then a big-endian unpack gives first*65536+second |
| Words.PairLittle | modbus_reader.py:179 | `struct.pack('<HH')` then a little-endian unpack gives second*65536+first |
| Words.QuadBig | modbus_reader.py:210-218 | `struct.pack('>HHHH')` of the four registers then a big-endian unpack gives `Float64Bits` of them |
| Words.QuadLittleReversed | modbus_reader.py:214-218 | `struct.pack('<HHHH')` of the registers in reverse then a little-endian unpack gives `Float64Bits` of them, the same pattern as the big-endian branch |
| Words.SplitFloat32 | modbus_reader.py:174-182 | every 32-bit pattern has a register pair that reads back as it, in each byte order |
| Words.SplitFloat64 | modbus_reader.py:208-218 | every 64-bit pattern has four registers whose FLOAT64 pattern it is |
| Words.FlagsOf | modbus_reader.py:242-243 | the 16 flags of a register hold its bit i at position i, and their weighted sum is the register |
| Words.FlagsRoundTrip | modbus_reader.py:242-243 | every list of 16 flags is the flag list of exactly one register |
| Text.UpperChar | modbus_reader.py:268 | an ASCII lower-case letter becomes its capital (code point minus 32), every other character stays; the result is never lower-case |
| Text.Upper | modbus_reader.py:268 | `upper()` keeps the length, capitalises each ASCII lower-case letter and leaves no lower-case letter |
| Text.UpperIdempotent | modbus_reader.py:268 | upper-casing twice equals upper-casing once |
| Text.NatToDecimal | modbus_reader.py:308 | `str(n)` for n >= 0 is a non-empty string of digits with no leading zero, denoting n |
| Text.IntToDecimal | modbus_reader.py:308 | `str(n)` starts with '-' exactly for negatives, followed by the digits of the magnitude |
| Text.DecimalRoundTrip | modbus_reader.py:308 | parsing `str(n)` gives back n |
| Text.IntToDecimalInjective | modbus_reader.py:323 | distinct numbers have distinct `str` forms |
| Decoding.Width | modbus_reader.py:129-130 | INT16 and BITMAP take one register per value, INT32 and FLOAT32 two, FLOAT64 four |
| Decoding.FlagList | modbus_reader.py:240-244 | a bitmap value is a list of 16 flags, flag i being bit i of the register |
| Decoding.RequestSize | modbus_reader.py:129-130 | INT16 and BITMAP ask for `count` registers, INT32 and FLOAT32 for `count * 2`, FLOAT64 for `count * 4` |
| Decoding.DecodeChunk | modbus_reader.py:104-113 | one group of registers decodes to an INT16 integer (signed: 16-bit and congruent to the register; unsigned: the register itself), an INT32 32-bit signed integer, a FLOAT32 pattern below 2^32, a FLOAT64 pattern below 2^64, or a BITMAP list of 16 flags |
| Decoding.DecodeSingles | modbus_reader.py:104-113 | one value per register, the j-th value decoding the j-th register |
| Decoding.DecodePairs | modbus_reader.py:135-149 | one value per consecutive pair, the j-th value decoding registers 2j and 2j+1 |
| Decoding.DecodeQuads | modbus_reader.py:205-219 | one value per consecutive quadruple, the j-th value decoding registers 4j to 4j+3 |
| Decoding.DecodeAll | modbus_reader.py:136 | the loop yields exactly one value per group of Width registers |
| Decoding.RequestSizeFacts | modbus_reader.py:130 | a reply of `count * Width` registers splits into exactly `count` groups |
| Decoding.DecodeOne | modbus_reader.py:115 | a reply of exactly one group decodes to the single value of that group |
| Decoding.Reply | modbus_reader.py:100-115 | `None` exactly when the raw read gave `None`; for count 1 the single value; otherwise a list of `count` values equal to the decoded registers |
| Decoding.ReplyOfValues | modbus_reader.py:115 | once the loop has decoded every register, `values[0] if count == 1 else values` is the reply |
| Decoding.UnsignedInt16Unchanged | modbus_reader.py:112-113 | with signed=False the registers come back unchanged and in order |
| Decoding.SignedInt16Values | modbus_reader.py:106-111 | with signed=True each value is a 16-bit signed integer congruent to its register mod 65536 |
| Decoding.Int32ValueAt | modbus_reader.py:136-149 | the j-th INT32 value is a 32-bit signed integer congruent to registers 2j and 2j+1 joined in the chosen word order |
| Decoding.Int32LittleIsSwappedBig | modbus_reader.py:138-143 | INT32 low word first equals INT32 high word first over the pair-swapped registers |
| Decoding.Float32PatternAt | modbus_reader.py:172-183 | the j-th FLOAT32 pattern is registers 2j and 2j+1 joined high word first for "big" and low word first otherwise |
| Decoding.Float32Example | modbus_reader.py:174-182 | registers 0x4348, 0x0000 give the pattern 0x43480000 (200.0) |
| Decoding.Float64ByteOrderIgnored | modbus_reader.py:206-219 | FLOAT64 decodes every reply the same under every byte order |
| Decoding.BitmapValues | modbus_reader.py:246-253 | each bitmap item is the 16 flags of its register, and their weighted sum is that register |
| Decoding.TypeName | modbus_reader.py:270-283 | the name each typed read is selected by is already upper-case |
| Decoding.Dispatch | modbus_reader.py:268-287 | a type is selected exactly when the upper-cased name is one of the five supported names, and it is the type of that name; signed defaults to True and byte_order to 'big' |
| Decoding.DispatchByName | modbus_reader.py:270-287 | each supported upper-cased name selects its own type with the defaulted options; any other name selects nothing |
| Decoding.DispatchIgnoresCase | modbus_reader.py:268 | the selection depends only on the upper-cased name |
| Decoding.DispatchCaseInsensitive | modbus_reader.py:268 | names that agree after upper-casing select the same type |
| RegisterMap.DefaultName | modbus_reader.py:308 | an entry without a name is called "Register_" followed by `str(address)` |
| RegisterMap.EntryName | modbus_reader.py:308 | the configured name, or `Register_<address>` when there is none |
| RegisterMap.EntryCount | modbus_reader.py:311 | the configured count, or 1 when there is none |
| RegisterMap.EntryUnit | modbus_reader.py:312 | the configured unit, or the empty string |
| RegisterMap.EntryDescription | modbus_reader.py:313 | the configured description, or the empty string |
| RegisterMap.ElementName | modbus_reader.py:323 | `f"{name}[{i}]"` is the name, then '[', then `str(i)`, then ']' |
| RegisterMap.ErrorRow | modbus_reader.py:341-350 | the row of a failed read holds 'Error' at the entry's address and raw data type, named `Register_<address>` when unnamed, with empty unit and description when none are configured |
| RegisterMap.IsMultiRow | modbus_reader.py:317-318 | rows are spread out only for a successful read with a configured count of at least 2, so an entry without a count always gives one row |
| RegisterMap.Stride | modbus_reader.py:324 | the address step is 2 exactly for the literal strings 'INT32' and 'FLOAT32', 4 exactly for 'FLOAT64', and 1 for every other string |
| RegisterMap.EntryRows | modbus_reader.py:317-350 | a list result with count > 1 gives one row per value, named `name[i]`, at address + i*stride, holding value i; any other result gives one row at the entry's address with the value, or 'Error' when the read failed; each row carries the raw data type, unit and description |
| RegisterMap.BuildElementRows | modbus_reader.py:320-329 | the inner loop builds, for a multi-value entry, exactly the row of value i at position i |
| RegisterMap.FailedReadRow | modbus_reader.py:341-350 | a failed read gives the entry's single 'Error' row at its own name and address |
| RegisterMap.BuildEntryRows | modbus_reader.py:317-350 | the loop that appends one entry's rows appends exactly `EntryRows` |
| RegisterMap.ElementNamesDistinct | modbus_reader.py:323 | the rows of one multi-value entry have pairwise distinct names |
| RegisterMap.RowsOfRead | modbus_reader.py:315-350 | for a typed read: a failed read gives the single 'Error' row, a successful read of count > 1 gives `count` rows holding the decoded values in order, and any other successful read gives the single row holding the result |
| RegisterMap.StrideMatchesWidth | modbus_reader.py:324 | for the upper-case name of a type the address step equals the register width of that type |
| RegisterMap.MixedCaseInt32Stride | modbus_reader.py:324 | a name that is 'INT32' only after upper-casing decodes two registers per value but steps addresses by one |
| RegisterMap.LowerCaseInt32Example | modbus_reader.py:324 | "int32" is such a name |
| Reader.Server.Read | modbus_reader.py:76-86 | the device answers a request exactly when it meets the rules of section 6.3 of the Modbus Application Protocol Specification V1.1b3 (quantity 1 to 125, range inside the 16-bit address space, every address holding a register) and is not one of the server's failing requests; the answer is the registers at address .. address+count-1 in order |
| Reader.Float32Pattern | modbus_reader.py:174-182 | the `struct.pack`/`struct.unpack` steps on two registers, '>' for "big" and '<' otherwise, give `Float32Bits` |
| Reader.Float64Pattern | modbus_reader.py:208-218 | the `struct` steps on four registers ('>HHHH' in order for "big", '<HHHH' reversed otherwise) give `Float64Bits` of the registers in read order |
| Reader.Int16Values | modbus_reader.py:104-113 | the INT16 loop builds `DecodeAll` of the registers |
| Reader.Int32Values | modbus_reader.py:135-149 | the INT32 loop builds `DecodeAll` of the registers |
| Reader.Float32Values | modbus_reader.py:171-183 | the FLOAT32 loop builds `DecodeAll` of the registers |
| Reader.Float64Values | modbus_reader.py:205-219 | the FLOAT64 loop builds `DecodeAll` of the registers |
| Reader.RegisterFlags | modbus_reader.py:240-244 | the 16-step bit loop builds the register's flag list |
| Reader.BitmapFlagLists | modbus_reader.py:247-253 | the multi-register loop builds one flag list per register, in order |
| Reader.ModbusReader.constructor | modbus_reader.py:19-32 | stores address, port and unit id (by default 192.168.0.5, 502 and 255); no client; not connected |
| Reader.ModbusReader.Connect | modbus_reader.py:34-51 | an answered attempt creates the client, and its answer becomes the connection state and the result; if the client constructor raises nothing changes and the result is False; if `connect()` raises the client is kept, the connection state is unchanged and the result is False |
| Reader.ModbusReader.Disconnect | modbus_reader.py:53-58 | with a client, the reader becomes disconnected; without one nothing changes |
| Reader.ModbusReader.Fetch | modbus_reader.py:60-86 | not connected gives `None`; connected, it gives what the server answers; a result has `count` registers |
| Reader.ModbusReader.ReadHoldingRegisters | modbus_reader.py:60-86 | returns `Fetch`; `None` exactly when not connected, when there is no client, or when the server does not answer the request |
| Reader.ModbusReader.ReadInt16 | modbus_reader.py:88-115 | the result is the INT16 `Reply` to a read of `count` registers (by default one, signed) |
| Reader.ModbusReader.ReadInt32 | modbus_reader.py:117-151 | the result is the INT32 `Reply` to a read of `2 * count` registers |
| Reader.ModbusReader.ReadFloat32 | modbus_reader.py:153-185 | the result is the FLOAT32 `Reply` to a read of `2 * count` registers |
| Reader.ModbusReader.ReadFloat64 | modbus_reader.py:187-221 | the result is the FLOAT64 `Reply` to a read of `4 * count` registers |
| Reader.ModbusReader.ReadBitmap | modbus_reader.py:223-253 | the result is the BITMAP `Reply`: the flag list of the one register for count 1, a list of flag lists otherwise |
| Reader.ModbusReader.CustomRead | modbus_reader.py:255-287 | an unsupported name, or no connection, gives `None`; otherwise the reply of the selected typed read |
| Reader.ModbusReader.ReadCustom | modbus_reader.py:268-287 | the upper-case if-chain returns `CustomRead` |
| Reader.ModbusReader.EntryValue | modbus_reader.py:315 | an entry has a value only when the reader is connected and its data type names one of the five typed reads |
| Reader.ModbusReader.MapRows | modbus_reader.py:305-352 | at least one row per entry, the rows of each entry following those of the entries before it |
| Reader.ModbusReader.DisconnectedLength | modbus_reader.py:341-350 | without a connection the map gives exactly one row per entry |
| Reader.ModbusReader.DisconnectedRows | modbus_reader.py:341-350 | without a connection the map gives exactly one 'Error' row per entry, in order |
| Reader.ModbusReader.ReadMultiple | modbus_reader.py:305-352 | the loop collects exactly `MapRows` of the register map |

## Left out

- Network I/O. The TCP client is replaced by the server's register map and
  its set of failing requests, and the unit id is stored but never sent. How
  the connection attempt went is a parameter of `Connect`. Transport failures
  and exception replies other than the section 6.3 ones show up only as the
  `None` they produce, through the failing requests.
- Printing to the console, in every method.
- IEEE-754 interpretation. FLOAT32 and FLOAT64 values are kept as their
  integer bit patterns. Turning a pattern into a float is not modelled.
- `datetime.now()` timestamps, and the pandas DataFrame that `read_multiple`
  returns. Rows are a sequence of records with the other six columns.
- The `example_*` functions and the `__main__` block, which only print and
  drive a real device.
- `count` is a natural number everywhere: in ReadInt16, ReadInt32,
  ReadFloat32, ReadFloat64, ReadBitmap, ReadCustom, CustomRead and the
  `count` of a register-map entry. A negative count is not modelled.
  `read_int16` and `read_bitmap` would forward it unchanged to the client,
  and `read_int32`, `read_float32` and `read_float64` would multiply it by 2
  or 4 first.
- ReadCustom: of the keyword arguments, only `signed` and `byte_order` are
  modelled. `signed` is a boolean, not any Python value whose truthiness is
  used.
- Text.Upper: only ASCII letters change case. Python's Unicode case mapping
  for other characters is not modelled.
