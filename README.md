# binalyzer-wasm value providers in Dafny

binalyzer-wasm extends the binalyzer binary-file parser with value providers
for WebAssembly. A provider computes one derived property of a template
field, such as its size, its value or a repetition count, by seeking and
reading the shared data stream of the template's binding context. Each
provider keeps its first result in a per-instance cache. This project models
the providers of `binalyzer_wasm/wasm.py` and the helper they share,
`_get_leb128size`:

- **Leb128Unsigned** decodes the unsigned LEB128 integer at the field's
  address.
- **Leb128Size** gives that integer's byte length.
- **LimitsSize** gives the byte length of a limits field. A flag byte 0 is
  followed by one LEB128 integer, a flag byte 1 by two. Any other flag is an
  error.
- **ExpressionSize** gives the number of bytes up to and including the first
  `end` opcode (0x0B).
- **PacketRecordCount** counts length-prefixed packet records up to the end
  of the data.
- **RepetitionCount** places copies of a record template one after the
  other from the field's address and counts those that start before the end
  of the data. The last copy may run past the end.
- The write-back operation of every provider fails.

The model has three layers.

1. **Streams and bytes** (`bytes.dfy`, `stream.dfy`). A `Stream` class holds
   immutable bytes and a mutable cursor, with Python's file semantics:
   - `read(n)` stops at the end of the data;
   - a read at or past the end returns nothing and leaves the cursor where
     it is;
   - `seek(0, 2)` returns the length of the data.

   `int.from_bytes(..., "little")` is `FromBytesLE`. It yields 0 for an
   empty read.
2. **What each provider computes** (`leb128.dfy`, `wasm.dfy`). Each result
   is a function of the stream's bytes and the field's address:
   `Size`, `UnsignedValue`, `LimitsSize`, `ExpressionSize`, `PacketCount`
   and `RepetitionCount`. Each is proved against an independent reference:
   - the minimal LEB128 encoder `Encode`;
   - the limits encoder `EncodeLimits`;
   - an expression body followed by `end`;
   - a capture built from well-formed packets `Capture`;
   - a constant-stride layout `Stride`.
3. **The providers as objects** (`providers.dfy`). One class per provider
   holds the stream, the field's address and a cache cell. Its `GetValue`
   seeks and reads in the source's order, with the source's loops. It is
   proved to return the layer-2 function's value and to leave the cursor
   where the source leaves it. A filled cache always holds that value
   (`Valid`).

Where the template engine resolves something, the model takes it as a
parameter:

- the field's absolute address is the `address` of each provider;
- the record template the repetition counter clones is a `Layout`. A
  `Layout` maps the offset given to the clone to the resolved address and
  size of the clone.

The model follows what the code does in the places where a reader of the
format might expect something else:

- **Packet records.** A record is a 12-byte header, then a 4-byte
  little-endian payload length, then the payload. The next record starts
  16 + length bytes on. It is not an 8-byte header with 12 bytes of
  overhead.
- **Counting packets.** A packet is counted when its length field starts
  inside the data (address + 12 < total). A trailing fragment of 12 bytes
  or fewer is not counted, even though it starts inside the data. A
  fragment of 13 or more bytes is counted (`PacketCountOfFragment`).
- **Repetition count.** The generic counter counts every record that starts
  before the end of the data, including a final partial one. For a constant
  stride `w` this is ⌈(total − address)/w⌉ (`RepetitionCountOfStride`). It is
  `total/w` only when the data holds whole records.
- **Reading past the end.** No provider reports truncation.
  - A byte read past the end is 0. The LEB128 size scan therefore stops
    there, one byte past the end.
  - A limits flag read past the end counts as flag 0.
  - The decoder decodes however many bytes the read returned.
- **Scans that never stop.** The expression scan never terminates without
  an `end` byte, so the model requires `Terminated` of it. The generic
  counter terminates exactly when the scan from the field's address reaches
  the end of the data after some number of records. The model requires this
  as `Stops(layout, total, address, fuel)`, where `fuel` bounds that number.
  The count does not depend on the fuel chosen (`RepetitionCountFuel`). A
  layout that advances at every position (`Advances`) always stops
  (`AdvancesStops`), but stopping does not need it (`StallOffPath`).

## Model

| member | source | states |
|---|---|---|
| Bytes.ReadEnd | binalyzer_wasm/wasm.py:104 | a read moves the cursor forward by at most the requested count, never past the end of the data, and by less only at the end of the data |
| Bytes.Window | binalyzer_wasm/wasm.py:32 | the bytes a read returns are the stream's bytes from the cursor on, as many as the cursor moves |
| Bytes.ReadEndThen | binalyzer_wasm/wasm.py:70-72 | two consecutive reads leave the cursor where a single read of their combined length would |
| Bytes.OneByteRead | binalyzer_wasm/wasm.py:66 | `int.from_bytes` of a one-byte read is the byte at the cursor, or 0 at the end; the cursor moves by one exactly when a byte is there |
| Bytes.FromBytesLEBound | binalyzer_wasm/wasm.py:130 | the little-endian value of k bytes is below 256^k |
| Bytes.FromToBytesLE | binalyzer_wasm/wasm.py:130 | a length written as 4 little-endian bytes reads back as the same length |
| Streams.Stream.Seek | binalyzer_wasm/wasm.py:29 | an absolute seek puts the cursor at the given position |
| Streams.Stream.SeekEnd | binalyzer_wasm/wasm.py:122 | `seek(0, 2)` moves the cursor to the end and returns the data's length |
| Streams.Stream.Read | binalyzer_wasm/wasm.py:32 | `read(n)` returns the window at the cursor and moves the cursor past it, and no further |
| Leb128.Payload | binalyzer_wasm/wasm.py:34 | the value bits of a byte are below 128 |
| Leb128.BitsOfByte | binalyzer_wasm/wasm.py:105 | the continuation test and the value bits are the source's `& 0x80` and `& 0x7F` on the byte |
| Leb128.DecodeBound | binalyzer_wasm/wasm.py:34 | the decoded value of k bytes is below 128^k |
| Leb128.Encode | binalyzer_wasm/wasm.py:34 | the reference encoder produces a canonical encoding: the continuation bit is set on all bytes but the last, and there is no redundant final zero group |
| Leb128.DecodeEncode | binalyzer_wasm/wasm.py:34 | decoding the encoding of n gives n |
| Leb128.EncodeDecode | binalyzer_wasm/wasm.py:34 | re-encoding the decoded value of a canonical encoding gives that encoding back |
| Leb128.Size | binalyzer_wasm/wasm.py:102-108 | the scan counts at least one byte, and at most one byte past the end of the data |
| Leb128.SizeIsFirstClear | binalyzer_wasm/wasm.py:102-108 | the scan's result is the position, counted from 1, of the first byte with a clear continuation bit; every byte before it has the bit set |
| Leb128.SizeMeasuresComplete | binalyzer_wasm/wasm.py:102-108 | where the data holds the bytes measured, they form one whole encoded integer |
| Leb128.SizeOfComplete | binalyzer_wasm/wasm.py:102-108 | a scan started on a whole encoded integer measures exactly that integer, whatever surrounds it |
| Leb128.SizeOfEncoding | binalyzer_wasm/wasm.py:102-108 | the scan measures the encoding of any n exactly |
| Leb128.DecodeExample | binalyzer_wasm/wasm.py:26-34 | E5 8E 26 decodes to 624485, is three bytes long, and is the encoding of 624485 |
| Wasm.UnsignedValueBound | binalyzer_wasm/wasm.py:26-34 | the unsigned provider's value is below 128^(measured size) |
| Wasm.MeasuredBytesAreDecoded | binalyzer_wasm/wasm.py:30-33 | when the data holds them, the bytes re-read after the size scan are exactly the measured bytes, and they form one whole integer |
| Wasm.UnsignedValueOfEncoding | binalyzer_wasm/wasm.py:26-53 | a field holding the encoding of n reads back as n, and the size provider gives that encoding's length |
| Wasm.UnsignedValueExample | binalyzer_wasm/wasm.py:26-34 | E5 8E 26 reads back as 624485 with size 3, whatever surrounds it |
| Wasm.LimitsSize | binalyzer_wasm/wasm.py:61-75 | the result is Ok exactly for flags 0 and 1; otherwise the error is InvalidEncoding; a size is at least 2, and at least 3 for flag 1 |
| Wasm.LimitsOfOneSize | binalyzer_wasm/wasm.py:68-69 | flag 0 followed by an integer of n bytes gives size 1 + n |
| Wasm.LimitsOfTwoSizes | binalyzer_wasm/wasm.py:70-72 | flag 1 followed by integers of n1 and n2 bytes, the second measured where the first ends, gives size 1 + n1 + n2 |
| Wasm.LimitsSizeOfEncoding | binalyzer_wasm/wasm.py:61-75 | an encoded limits value (a minimum and an optional maximum) is measured at exactly its encoded length, wherever it lies |
| Wasm.LimitsSizeExamples | binalyzer_wasm/wasm.py:61-75 | concrete sizes for flag 0, flag 1, a multi-byte minimum, an unknown flag and an empty stream |
| Wasm.ExpressionSize | binalyzer_wasm/wasm.py:86-96 | the size ends at an `end` byte and no earlier byte is `end` |
| Wasm.ExpressionSizeIsFirstEnd | binalyzer_wasm/wasm.py:93-96 | a scan that stops at an `end` byte with none before it has measured the expression |
| Wasm.ExpressionSizeOfBody | binalyzer_wasm/wasm.py:86-96 | a body without `end` followed by `end` is measured as body length plus one, wherever it lies |
| Wasm.ExpressionSizeExamples | binalyzer_wasm/wasm.py:86-96 | `i32.const 1; end` is three bytes; a nested block's own `end` stops the flat scan |
| Wasm.PacketCount | binalyzer_wasm/wasm.py:119-132 | the count is positive exactly when a length field starts inside the data; each record counted accounts for at least 16 bytes |
| Wasm.PacketStep | binalyzer_wasm/wasm.py:123-131 | one iteration of the loop: a record is counted, the next one starts 16 + length bytes on, and the cursor is left past the length field |
| Wasm.PacketLengthOf | binalyzer_wasm/wasm.py:129-130 | the length field of a well-formed packet reads back as its payload length |
| Wasm.CaptureStep | binalyzer_wasm/wasm.py:129-131 | in a capture, the first packet's length field gives its payload length, and the rest of the capture starts 16 + length bytes on |
| Wasm.PacketCountOfCapture | binalyzer_wasm/wasm.py:116-132 | data made of well-formed packets followed by at most 12 stray bytes counts exactly its packets |
| Wasm.PacketCountOfFragment | binalyzer_wasm/wasm.py:124-128 | a 13-byte fragment counts as one record |
| Wasm.RepetitionCount | binalyzer_wasm/wasm.py:145-153 | no record is counted from the end of the data; from before it, at least one, and no more than the number of records within which the scan stops |
| Wasm.RepetitionCountIsRounds | binalyzer_wasm/wasm.py:147-152 | the count is the number of rounds of the loop: the scan stops within that many records and within no fewer |
| Wasm.RepetitionCountFuel | binalyzer_wasm/wasm.py:147-152 | any bound within which the scan stops gives the same count |
| Wasm.StopsMonotone | binalyzer_wasm/wasm.py:147-152 | a scan that stops within f records also stops within any larger number |
| Wasm.AdvancesStops | binalyzer_wasm/wasm.py:147-152 | a layout whose every record ends past where it was placed stops the scan within one record per remaining byte |
| Wasm.StallOffPath | binalyzer_wasm/wasm.py:147-152 | a layout that stalls only before the field's address still stops from the address and counts its records, though it does not advance everywhere |
| Wasm.RepetitionCountOfStride | binalyzer_wasm/wasm.py:145-153 | with records of constant size w, the scan stops after ⌈(total − address)/w⌉ records and counts that many, so a final partial record counts |
| Wasm.RepetitionCountOfWholeRecords | binalyzer_wasm/wasm.py:145-153 | data holding exactly k records of constant size stops after k records and counts k |
| Wasm.PacketLayout | binalyzer_wasm/wasm.py:150-151 | a template laid out like a packet record resolves to the packet record at each offset and always advances the scan |
| Wasm.RepetitionCountOfCapture | binalyzer_wasm/wasm.py:145-153 | the generic counter over a packet layout counts a capture of whole packets exactly |
| Wasm.CountersAgree | binalyzer_wasm/wasm.py:116-153 | on a capture of whole packets, the generic counter over any packet layout and the packet counter agree |
| Wasm.PacketLayoutCountsPackets | binalyzer_wasm/wasm.py:116-153 | the packet layout meets that hypothesis: over it both counters give the number of packets |
| Providers.ReadByte | binalyzer_wasm/wasm.py:66 | reads the byte at the cursor (0 at the end) and moves the cursor as one-byte reads do |
| Providers.Leb128Size | binalyzer_wasm/wasm.py:102-108 | the loop returns the scan's size and leaves the cursor past the bytes measured |
| Providers.Leb128UnsignedProvider.GetValue | binalyzer_wasm/wasm.py:25-34 | returns the decoded integer at the address and caches it; the cursor is left past the measured bytes, or untouched on a cache hit |
| Providers.Leb128UnsignedProvider.SetValue | binalyzer_wasm/wasm.py:36-37 | writing a value back always fails |
| Providers.Leb128SizeProvider.GetValue | binalyzer_wasm/wasm.py:44-50 | returns the size scan at the address and caches it; the cursor is left past the bytes measured, or untouched on a cache hit |
| Providers.Leb128SizeProvider.SetValue | binalyzer_wasm/wasm.py:52-53 | writing a value back always fails |
| Providers.LimitsSizeProvider.GetValue | binalyzer_wasm/wasm.py:60-75 | returns the limits size or the error; caches only a size; the cursor is left past the field, past the flag on an error, or untouched on a cache hit |
| Providers.LimitsSizeProvider.SetValue | binalyzer_wasm/wasm.py:77-78 | writing a value back always fails |
| Providers.ExpressionSizeProvider.GetValue | binalyzer_wasm/wasm.py:85-96 | returns the expression size and caches it; the cursor is left just past the `end` byte |
| Providers.ExpressionSizeProvider.SetValue | binalyzer_wasm/wasm.py:98-99 | writing a value back always fails |
| Providers.PacketRecordCountProvider.GetValue | binalyzer_wasm/wasm.py:115-132 | returns the packet count and caches it; the cursor is left past the last length field read, or at the end if none was read |
| Providers.TemplateClone.constructor | binalyzer_wasm/wasm.py:141-142 | a clone carries the template's layout |
| Providers.RepetitionCountProvider.GetValue | binalyzer_wasm/wasm.py:139-153 | whenever the scan from the address stops, returns the repetition count and caches it; the cursor is left at the end of the data |
| Providers.RepetitionCountProvider.SetValue | binalyzer_wasm/wasm.py:155-156 | writing a value back always fails |

## Left out

- The `leb128` package (wasm.py:11, 34) is not part of this model. Its
  `u.decode` is modelled as `Leb128.Decode`: the seven value bits of every
  byte given, least significant group first, with no error.
- Template resolution is not modelled. This covers `absolute_address`, a
  template's `size`, `TemplateFactory().clone` and the binding context
  (wasm.py:27-28, 141-143, 151). The field's address is a parameter, and
  the cloned template's placement is a `Layout` function.
- Providers.RepetitionCountProvider.GetValue: the cursor is stated for the
  counter's own seek only. Resolving a clone's size may run other providers
  on the same stream and move the cursor. The model does not capture those
  moves.
- The data a provider reads is one `Stream`. The source reaches it through
  `data_provider.data` (wasm.py:27, 118) and through `binding_context.data`
  (wasm.py:143). The model assumes both are the same stream.
- The packet counter does not override `set_value`. Its behaviour comes from
  `ValueProviderBase`, which is not part of this model.
- `@value_cache` from binalyzer_core is not part of this model. It is
  modelled as one cache cell per provider. A result is cached once
  `get_value` returns, and an exception caches nothing.
- Exceptions are modelled as results. The limits provider's `RuntimeError`
  is `Err(InvalidEncoding)`. Each `set_value`'s `RuntimeError` is
  `Unsupported`.
- Python integers are unbounded, and so are the model's `nat`s. No width or
  wrap-around arises.
- `extension.py` and `__init__.py` register the providers with binalyzer.
  They compute nothing and are not modelled.
- Providers.ExpressionSizeProvider.GetValue and
  Providers.RepetitionCountProvider.GetValue require a terminating scan
  (`Terminated`, `Stops`). Each requirement is exactly the condition under
  which the source's loop stops. The model does not describe a call that
  never returns.
