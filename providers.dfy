/** The value providers of binalyzer_wasm/wasm.py as objects: each holds the
    shared stream of its binding context, the resolved address of its field
    and the cell its `@value_cache` decorator keeps. Each `GetValue` computes
    by seeking and reading the stream, and is proved to return the number the
    matching function of module Wasm specifies, whatever the cursor was. */
module Providers {
  import opened Bytes
  import opened Streams
  import opened Leb128
  import opened Wasm

  /** `int.from_bytes(data.read(1), "little")`: the byte at the cursor, or 0
      at the end of the data; the cursor moves past the byte read. */
  method ReadByte(data: Stream) returns (value: byte)
    modifies data
    ensures value == At(data.bytes, old(data.pos))
    ensures data.pos == ReadEnd(data.bytes, old(data.pos), 1)
  {
    OneByteRead(data.bytes, data.pos);
    var b := data.Read(1);
    value := FromBytesLE(b) as byte;
  }

  /** `_get_leb128size`: counts the bytes from the cursor up to and including
      the first one whose continuation bit is clear, consuming them. */
  method Leb128Size(data: Stream) returns (size: nat)
    modifies data
    ensures size == Size(data.bytes, old(data.pos))
    ensures data.pos == ReadEnd(data.bytes, old(data.pos), size)
  {
    ghost var s, p := data.bytes, data.pos;
    size := 1;
    var byteValue := ReadByte(data);
    while More(byteValue)
      invariant size >= 1
      invariant data.pos == ReadEnd(s, p, size)
      invariant byteValue == At(s, p + size - 1)
      invariant Size(s, p) == size - 1 + Size(s, p + size - 1)
      decreases |s| - (p + size - 1)
    {
      ReadEndThen(s, p, size, 1);
      size := size + 1;
      byteValue := ReadByte(data);
    }
  }

  /** LEB128UnsignedBindingValueProvider: the unsigned integer encoded at the
      field's address. */
  class Leb128UnsignedProvider {
    const data: Stream
    const address: nat
    var cache: Option<nat>

    ghost predicate Valid()
      reads this
    {
      cache.Some? ==> cache.value == UnsignedValue(data.bytes, address)
    }

    constructor (data: Stream, address: nat)
      ensures this.data == data && this.address == address && cache == None
      ensures Valid()
    {
      this.data := data;
      this.address := address;
      cache := None;
    }

    /** Measures the field, seeks back to its start and decodes exactly the
        bytes measured; a cached value is returned without touching the
        stream. */
    method GetValue() returns (v: nat)
      requires Valid()
      modifies this, data
      ensures Valid() && cache == Some(v)
      ensures v == UnsignedValue(data.bytes, address)
      ensures old(cache).Some? ==> data.pos == old(data.pos)
      ensures old(cache).None? ==> data.pos == ReadEnd(data.bytes, address, Size(data.bytes, address))
    {
      if cache.Some? {
        return cache.value;
      }
      data.Seek(address);
      var size := Leb128Size(data);
      data.Seek(address);
      var leb128Bytes := data.Read(size);
      v := Decode(leb128Bytes);
      cache := Some(v);
    }

    /** Writing a value back is not supported. */
    method SetValue(value: int) returns (err: Error)
      ensures err == Unsupported
    {
      err := Unsupported;
    }
  }

  /** LEB128SizeBindingValueProvider: the byte length of the unsigned integer
      encoded at the field's address. */
  class Leb128SizeProvider {
    const data: Stream
    const address: nat
    var cache: Option<nat>

    ghost predicate Valid()
      reads this
    {
      cache.Some? ==> cache.value == Size(data.bytes, address)
    }

    constructor (data: Stream, address: nat)
      ensures this.data == data && this.address == address && cache == None
      ensures Valid()
    {
      this.data := data;
      this.address := address;
      cache := None;
    }

    method GetValue() returns (v: nat)
      requires Valid()
      modifies this, data
      ensures Valid() && cache == Some(v)
      ensures v == Size(data.bytes, address)
      ensures old(cache).Some? ==> data.pos == old(data.pos)
      ensures old(cache).None? ==> data.pos == ReadEnd(data.bytes, address, v)
    {
      if cache.Some? {
        return cache.value;
      }
      data.Seek(address);
      v := Leb128Size(data);
      cache := Some(v);
    }

    /** Writing a value back is not supported. */
    method SetValue(value: int) returns (err: Error)
      ensures err == Unsupported
    {
      err := Unsupported;
    }
  }

  /** LimitsSizeBindingValueProvider: the byte length of the limits field at
      the field's address, or an error for an unknown flag. */
  class LimitsSizeProvider {
    const data: Stream
    const address: nat
    var cache: Option<nat>

    ghost predicate Valid()
      reads this
    {
      cache.Some? ==> LimitsSize(data.bytes, address) == Ok(cache.value)
    }

    constructor (data: Stream, address: nat)
      ensures this.data == data && this.address == address && cache == None
      ensures Valid()
    {
      this.data := data;
      this.address := address;
      cache := None;
    }

    /** Reads the flag and measures the one or two integers it announces,
        the second from where the first ends. The error escapes before
        anything is cached. */
    method GetValue() returns (r: Result<nat>)
      requires Valid()
      modifies this, data
      ensures Valid()
      ensures r == LimitsSize(data.bytes, address)
      ensures cache == if r.Ok? then Some(r.value) else None
      ensures old(cache).Some? ==> data.pos == old(data.pos)
      ensures old(cache).None? && r.Ok? ==> data.pos == ReadEnd(data.bytes, address, r.value)
      ensures old(cache).None? && r.Err? ==> data.pos == ReadEnd(data.bytes, address, 1)
    {
      if cache.Some? {
        return Ok(cache.value);
      }
      ghost var s, a := data.bytes, address;
      data.Seek(address);
      var flag := ReadByte(data);
      var size: nat := 1;
      if flag == 0x00 {
        var n := Leb128Size(data);
        size := size + n;
        ReadEndThen(s, a, 1, n);
      } else if flag == 0x01 {
        var n1 := Leb128Size(data);
        size := size + n1;
        var n2 := Leb128Size(data);
        size := size + n2;
        ReadEndThen(s, a, 1, n1);
        ReadEndThen(s, a, 1 + n1, n2);
      } else {
        return Err(InvalidEncoding);
      }
      r := Ok(size);
      cache := Some(size);
    }

    /** Writing a value back is not supported. */
    method SetValue(value: int) returns (err: Error)
      ensures err == Unsupported
    {
      err := Unsupported;
    }
  }

  /** ExpressionSizeValueProvider: the byte length of the expression at the
      field's address, up to and including its `end` byte. */
  class ExpressionSizeProvider {
    const data: Stream
    const address: nat
    var cache: Option<nat>

    ghost predicate Valid()
      reads this
    {
      cache.Some? ==> Terminated(data.bytes, address) && cache.value == ExpressionSize(data.bytes, address)
    }

    constructor (data: Stream, address: nat)
      ensures this.data == data && this.address == address && cache == None
      ensures Valid()
    {
      this.data := data;
      this.address := address;
      cache := None;
    }

    /** Reads byte after byte until the `end` byte and counts them. */
    method GetValue() returns (v: nat)
      requires Valid() && Terminated(data.bytes, address)
      modifies this, data
      ensures Valid() && cache == Some(v)
      ensures v == ExpressionSize(data.bytes, address)
      ensures old(cache).Some? ==> data.pos == old(data.pos)
      ensures old(cache).None? ==> data.pos == address + v
    {
      if cache.Some? {
        return cache.value;
      }
      ghost var s, a := data.bytes, address;
      data.Seek(address);
      var value := ReadByte(data);
      var size: nat := 1;
      while value != End
        invariant size >= 1 && a + size <= |s|
        invariant data.pos == a + size
        invariant value == s[a + size - 1]
        invariant forall j :: a <= j < a + size - 1 ==> s[j] != End
        invariant exists k :: a + size - 1 <= k < |s| && s[k] == End
        decreases |s| - size
      {
        value := ReadByte(data);
        size := size + 1;
      }
      ExpressionSizeIsFirstEnd(s, a, size);
      v := size;
      cache := Some(v);
    }

    /** Writing a value back is not supported. */
    method SetValue(value: int) returns (err: Error)
      ensures err == Unsupported
    {
      err := Unsupported;
    }
  }

  /** PacketRecordCountValueProvider: the number of length-prefixed packet
      records from the field's address to the end of the data. */
  class PacketRecordCountProvider {
    const data: Stream
    const address: nat
    var cache: Option<nat>

    ghost predicate Valid()
      reads this
    {
      cache.Some? ==> cache.value == PacketCount(data.bytes, address)
    }

    constructor (data: Stream, address: nat)
      ensures this.data == data && this.address == address && cache == None
      ensures Valid()
    {
      this.data := data;
      this.address := address;
      cache := None;
    }

    /** Steps from record to record, reading each length field, while a
        record's length field starts inside the data. */
    method GetValue() returns (v: nat)
      requires Valid()
      modifies this, data
      ensures Valid() && cache == Some(v)
      ensures v == PacketCount(data.bytes, address)
      ensures old(cache).Some? ==> data.pos == old(data.pos)
      ensures old(cache).None? ==> data.pos == PacketCursor(data.bytes, address, |data.bytes|)
    {
      if cache.Some? {
        return cache.value;
      }
      ghost var s := data.bytes;
      var packetRecordAddress: nat := address;
      var packetRecordCount: nat := 0;
      var totalSize := data.SeekEnd();
      while true
        invariant totalSize == |s|
        invariant packetRecordCount + PacketCount(s, packetRecordAddress) == PacketCount(s, address)
        invariant PacketCursor(s, packetRecordAddress, data.pos) == PacketCursor(s, address, |s|)
        decreases totalSize - Min(packetRecordAddress, totalSize)
      {
        ghost var start := packetRecordAddress;
        packetRecordAddress := packetRecordAddress + 12;
        if packetRecordAddress < totalSize {
          packetRecordCount := packetRecordCount + 1;
        } else {
          break;
        }
        PacketStep(s, start, data.pos);
        data.Seek(packetRecordAddress);
        var lengthBytes := data.Read(4);
        var packetDataLength := FromBytesLE(lengthBytes);
        assert lengthBytes == Window(s, start + 12, 4);
        assert data.pos == ReadEnd(s, start + 12, 4);
        packetRecordAddress := packetRecordAddress + packetDataLength + 4;
        assert packetRecordAddress == start + 16 + PacketLength(s, start);
      }
      v := packetRecordCount;
      cache := Some(v);
    }
  }

  /** The clone of the record template that the repetition counter moves
      along the data: the host resolves its absolute address and size from
      its offset. */
  class TemplateClone {
    const layout: Layout
    var offset: nat

    constructor (layout: Layout)
      ensures this.layout == layout && offset == 0
    {
      this.layout := layout;
      offset := 0;
    }

    function AbsoluteAddress(): nat
      reads this
    {
      layout(offset).address
    }

    function ResolvedSize(): nat
      reads this
    {
      layout(offset).size
    }
  }

  /** RepetitionCountValueProvider: the number of copies of a record template
      placed one after the other from the field's address that start before
      the end of the data; the last copy may run past the end. */
  class RepetitionCountProvider {
    const data: Stream
    const address: nat
    const layout: Layout
    var cache: Option<nat>

    ghost predicate Valid()
      reads this
    {
      cache.Some? ==> exists fuel: nat ::
        Stops(layout, |data.bytes|, address, fuel) && cache.value == RepetitionCount(layout, |data.bytes|, address, fuel)
    }

    constructor (data: Stream, address: nat, layout: Layout)
      ensures this.data == data && this.address == address && this.layout == layout && cache == None
      ensures Valid()
    {
      this.data := data;
      this.address := address;
      this.layout := layout;
      cache := None;
    }

    /** Places a clone of the template at the scan position, moves the scan
        to the end of the clone and counts, until the scan reaches the end
        of the data. The loop stops exactly when the scan from the address
        reaches the end within some number of records, `fuel`. */
    method GetValue(ghost fuel: nat) returns (v: nat)
      requires Valid() && Stops(layout, |data.bytes|, address, fuel)
      modifies this, data
      ensures Valid() && cache == Some(v)
      ensures v == RepetitionCount(layout, |data.bytes|, address, fuel)
      ensures old(cache).Some? ==> data.pos == old(data.pos)
      ensures old(cache).None? ==> data.pos == |data.bytes|
    {
      if cache.Some? {
        ghost var f :| Stops(layout, |data.bytes|, address, f) && cache.value == RepetitionCount(layout, |data.bytes|, address, f);
        RepetitionCountFuel(layout, |data.bytes|, address, f, fuel);
        return cache.value;
      }
      var template := new TemplateClone(layout);
      var totalDataSize := data.SeekEnd();
      var packetRecordAddress: nat := address;
      var packetRecordCount: nat := 0;
      ghost var left := fuel;
      while true
        invariant data.pos == totalDataSize == |data.bytes|
        invariant Stops(layout, totalDataSize, packetRecordAddress, left)
        invariant packetRecordCount + RepetitionCount(layout, totalDataSize, packetRecordAddress, left)
               == RepetitionCount(layout, totalDataSize, address, fuel)
        decreases left
      {
        if packetRecordAddress >= totalDataSize {
          break;
        }
        template.offset := packetRecordAddress;
        packetRecordAddress := template.AbsoluteAddress() + template.ResolvedSize();
        packetRecordCount := packetRecordCount + 1;
        left := left - 1;
      }
      v := packetRecordCount;
      cache := Some(v);
    }

    /** Writing a value back is not supported. */
    method SetValue(value: int) returns (err: Error)
      ensures err == Unsupported
    {
      err := Unsupported;
    }
  }
}
