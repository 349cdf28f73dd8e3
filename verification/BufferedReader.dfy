/** The buffered reader: a window of the backing data, refilled in either direction.
    The data is what the reader function delivers at each address, so that end
    addresses behind the last byte of a file are covered as well. */
module BufferedReaders {

  type Bytes = seq<bv8>
  type Source = nat -> bv8

  const TwoTo64: nat := 0x1_0000_0000_0000_0000

  /** Unsigned 64-bit sums and differences wrap around. */
  function Plus(x: nat, y: nat): (r: nat)
    ensures r < TwoTo64
  {
    (x + y) % TwoTo64
  }

  function Minus(x: nat, y: nat): (r: nat)
    ensures r < TwoTo64
  {
    (x - y) % TwoTo64
  }

  lemma Wrapping(x: nat, y: nat)
    ensures x + y < TwoTo64 ==> Plus(x, y) == x + y
    ensures y <= x < TwoTo64 ==> Minus(x, y) == x - y
    ensures x < y <= TwoTo64 ==> Minus(x, y) == TwoTo64 + x - y
  {
  }

  function Zeros(n: nat): (r: Bytes)
    ensures |r| == n
  {
    seq(n, _ => 0)
  }

  /** The n bytes from an address on. */
  function Slice(data: Source, address: nat, n: nat): (r: Bytes)
    ensures |r| == n && forall i :: 0 <= i < n ==> r[i] == data(address + i)
  {
    seq(n, i requires 0 <= i < n => data(address + i))
  }

  /** A read delivers the data's bytes up to some point and leaves the zeros of
      the result vector behind it. */
  ghost predicate Delivers(data: Source, address: nat, result: Bytes, count: nat) {
    && count <= |result|
    && result[..count] == Slice(data, address, count)
    && result[count..] == Zeros(|result| - count)
  }

  function Reversed(s: Bytes): (r: Bytes)
    ensures |r| == |s|
  {
    if |s| == 0 then [] else Reversed(s[1..]) + [s[0]]
  }

  class BufferedReader {
    const data: Source
    const maxBufferSize: nat
    var bufferAddress: nat
    var bufferValid: bool
    var startAddress: nat
    var endAddress: nat
    var buffer: Bytes

    /** Addresses have 64 bits, and a valid buffer is a slice of the data. */
    ghost predicate Valid()
      reads this
    {
      && maxBufferSize < TwoTo64 && endAddress < TwoTo64 && startAddress < TwoTo64
      && (bufferValid ==> bufferAddress + |buffer| < TwoTo64 && buffer == Slice(data, bufferAddress, |buffer|))
    }

    constructor (data: Source, dataSize: nat, bufferSize: nat)
      requires dataSize < TwoTo64 && bufferSize < TwoTo64
      ensures Valid() && this.data == data && maxBufferSize == bufferSize
      ensures startAddress == 0 && endAddress == (if dataSize > 1 then dataSize else 1) - 1
    {
      this.data, maxBufferSize := data, bufferSize;
      bufferAddress, bufferValid, startAddress := 0, false, 0;
      endAddress := (if dataSize > 1 then dataSize else 1) - 1;
      buffer := Zeros(bufferSize);
    }

    method Seek(address: nat)
      requires Valid() && address < TwoTo64
      modifies this`startAddress
      ensures Valid() && startAddress == address
    {
      startAddress := address;
    }

    method SetEndAddress(address: nat)
      requires Valid() && address < TwoTo64
      modifies this`endAddress
      ensures Valid() && endAddress == address
    {
      endAddress := address;
    }

    /** The whole read lies between the start and the end address, and neither
        the end nor a full buffer from there on passes 2^64. */
    predicate InWindow(address: nat, size: nat)
      reads this
    {
      startAddress <= address && address + size <= endAddress + 1 && endAddress + 1 < TwoTo64 && endAddress + maxBufferSize < TwoTo64
    }

    /** The test for a hit: the source adds in 64 bits. */
    predicate Hit(address: nat, size: nat)
      reads this
    {
      bufferValid && bufferAddress <= address && Plus(address, size) <= Plus(bufferAddress, |buffer|)
    }

    /** A read whose end passes 2^64 must miss the buffer; taken for a hit it
        would read behind it. */
    predicate Defined(address: nat, size: nat)
      reads this
    {
      address < TwoTo64 && size < TwoTo64 && (address + size < TwoTo64 || size > maxBufferSize || !Hit(address, size))
    }

    /** The range to refill for a read, before it is known to hold the address.
        In reverse it may lie below the start address. */
    method RefillRange(address: nat, size: nat, reverse: bool) returns (addressStart: nat, addressEndPlus1: nat)
      requires Valid() && size <= maxBufferSize && address < TwoTo64
      ensures addressEndPlus1 <= endAddress + 1 && addressEndPlus1 < TwoTo64
      ensures reverse && address + size >= TwoTo64 ==> addressEndPlus1 <= address
      ensures !reverse ==> address <= addressStart
      ensures startAddress <= addressStart
         <==> !reverse || startAddress <= addressEndPlus1 || addressEndPlus1 < maxBufferSize
      ensures size > 0 && InWindow(address, size) ==> addressStart <= address && address + size <= addressEndPlus1
    {
      hide Plus, Minus;
      Wrapping(endAddress, 1);
      WrappingAbove(endAddress, 1);
      WrappingAbove(address, size);
      if reverse {
        Wrapping(address, size);
        addressEndPlus1 := Plus(address, size);
        if addressEndPlus1 > Plus(endAddress, 1) {
          addressEndPlus1 := Plus(endAddress, 1);
        }
        Wrapping(addressEndPlus1, maxBufferSize);
        Wrapping(addressEndPlus1, startAddress);
        addressStart := Minus(addressEndPlus1, maxBufferSize);
        if Minus(addressEndPlus1, startAddress) < maxBufferSize {
          addressStart := startAddress;
        }
      } else {
        Wrapping(address, maxBufferSize);
        addressEndPlus1 := Plus(address, maxBufferSize);
        if addressEndPlus1 > Plus(endAddress, 1) {
          addressEndPlus1 := Plus(endAddress, 1);
        }
        addressStart := address;
        if addressStart < startAddress {
          addressStart := startAddress;
        }
      }
    }

    /** `updateBuffer`: 0 when nothing can be read; otherwise the buffer holds
        the byte at `address`, and all of the read when it lies in the window. */
    method UpdateBuffer(address: nat, size: nat, reverse: bool) returns (available: nat)
      requires Valid() && size <= maxBufferSize && Defined(address, size)
      modifies this`buffer, this`bufferAddress, this`bufferValid
      ensures Valid()
      ensures available > 0 ==> bufferValid && bufferAddress <= address < bufferAddress + |buffer|
      ensures available > 0 && !reverse ==> address == bufferAddress || address + size <= bufferAddress + |buffer|
      ensures size > 0 && InWindow(address, size) ==> available > 0 && address + size <= bufferAddress + |buffer|
    {
      hide Plus, Minus;
      Wrapping(address, size);
      Wrapping(bufferAddress, |buffer|);
      if !Hit(address, size) {
        var addressStart, addressEndPlus1 := RefillRange(address, size, reverse);
        if addressStart <= address && address < addressEndPlus1 {
          var remainingBytes := addressEndPlus1 - addressStart;
          buffer := Slice(data, addressStart, remainingBytes);
          bufferAddress := addressStart;
          bufferValid := true;
          return remainingBytes;
        }
        return 0;
      }
      available := size;
    }

    /** Forward read; the caller's bytes are the zeros of a fresh vector. */
    method Read(address: nat, size: nat) returns (result: Bytes, ghost count: nat)
      requires Valid() && Defined(address, size)
      modifies this`buffer, this`bufferAddress, this`bufferValid
      ensures Valid() && |result| == size
      ensures size <= maxBufferSize ==> Delivers(data, address, result, count)
      ensures size > maxBufferSize || InWindow(address, size) ==> result == Slice(data, address, size)
    {
      result, count := Zeros(size), 0;
      if size > maxBufferSize {
        result := Slice(data, address, size);
        return;
      }
      var available := UpdateBuffer(address, size, false);
      if available == 0 {
        return;
      }
      var offset := address - bufferAddress;
      var length := if size < |buffer| then size else |buffer|;
      CopyOut(data, bufferAddress, buffer, address, size, length);
      result, count := buffer[offset..offset + length] + Zeros(size - length), length;
    }

    /** Backward read: refills so that the buffer ends with the read. */
    method ReadReverse(address: nat, size: nat) returns (result: Bytes, ghost count: nat)
      requires Valid() && Defined(address, size)
      modifies this`buffer, this`bufferAddress, this`bufferValid
      ensures Valid() && |result| == size
      ensures size <= maxBufferSize ==> Delivers(data, address, result, count)
      ensures size > maxBufferSize || InWindow(address, size) ==> result == Slice(data, address, size)
    {
      result, count := Zeros(size), 0;
      if size > maxBufferSize {
        result := Slice(data, address, size);
        return;
      }
      var available := UpdateBuffer(address, size, true);
      if available == 0 {
        return;
      }
      var offset := address - bufferAddress;
      var length := if size < |buffer| - offset then size else |buffer| - offset;
      CopyOut(data, bufferAddress, buffer, address, size, length);
      result, count := buffer[offset..offset + length] + Zeros(size - length), length;
    }

    /** Forward iteration: `begin` to `end`. */
    method Forward() returns (result: Bytes)
      requires Valid() && startAddress <= endAddress + 1
      requires endAddress + 1 < TwoTo64 && endAddress + maxBufferSize < TwoTo64
      modifies this`buffer, this`bufferAddress, this`bufferValid
      ensures Valid() && result == Slice(data, startAddress, endAddress + 1 - startAddress)
    {
      result := [];
      var address := startAddress;
      Wrapping(endAddress, 1);
      while address != Plus(endAddress, 1)
        invariant Valid() && startAddress <= address <= endAddress + 1
        invariant result == Slice(data, startAddress, address - startAddress)
        decreases endAddress + 1 - address
      {
        ghost var count;
        var value;
        value, count := Read(address, 1);
        result := result + value;
        Wrapping(address, 1);
        address := Plus(address, 1);
      }
    }

    /** Reverse iteration: `rbegin` down to `rend`, one below the start address. */
    method Backward() returns (result: Bytes)
      requires Valid() && startAddress <= endAddress + 1
      requires endAddress + 1 < TwoTo64 && endAddress + maxBufferSize < TwoTo64
      modifies this`buffer, this`bufferAddress, this`bufferValid
      ensures Valid() && result == Reversed(Slice(data, startAddress, endAddress + 1 - startAddress))
    {
      hide Plus, Minus, Slice, Reversed;
      result := [];
      NoBytes(data, endAddress + 1);
      var address, rend := endAddress, Minus(startAddress, 1);
      Wrapping(startAddress, 1);
      ghost var low := endAddress + 1;
      while address != rend
        invariant Valid() && startAddress <= low <= endAddress + 1
        invariant address == (if low == 0 then TwoTo64 - 1 else low - 1)
        invariant rend == (if startAddress == 0 then TwoTo64 - 1 else startAddress - 1)
        invariant result == Reversed(Slice(data, low, endAddress + 1 - low))
        decreases low
      {
        ghost var count;
        var value;
        value, count := ReadReverse(address, 1);
        OneByteLower(data, low - 1, endAddress + 1 - low);
        result := result + value;
        Wrapping(address, 1);
        low := low - 1;
        address := Minus(address, 1);
      }
    }
  }

  lemma NoBytes(data: Source, address: nat)
    ensures Reversed(Slice(data, address, 0)) == []
  {
  }

  /** A slice that starts one byte lower ends, reversed, with that byte. */
  lemma OneByteLower(data: Source, address: nat, n: nat)
    ensures Reversed(Slice(data, address, n + 1)) == Reversed(Slice(data, address + 1, n)) + Slice(data, address, 1)
  {
    assert Slice(data, address, n + 1)[1..] == Slice(data, address + 1, n);
    assert Slice(data, address, 1) == [data(address)];
  }

  lemma {:induction false} ReversedAt(s: Bytes, k: nat)
    requires k < |s|
    ensures Reversed(s)[k] == s[|s| - 1 - k]
  {
    if k < |s| - 1 {
      ReversedAt(s[1..], k);
    }
  }

  lemma WrappingAbove(x: nat, y: nat)
    requires x < TwoTo64 && y < TwoTo64
    ensures x + y >= TwoTo64 ==> Plus(x, y) == x + y - TwoTo64
  {
  }

  lemma CopyOut(data: Source, bufferAddress: nat, buffer: Bytes, address: nat, size: nat, length: nat)
    requires buffer == Slice(data, bufferAddress, |buffer|)
    requires bufferAddress <= address && length <= size && address - bufferAddress + length <= |buffer|
    ensures var offset := address - bufferAddress;
      && buffer[offset..offset + length] == Slice(data, address, length)
      && Delivers(data, address, buffer[offset..offset + length] + Zeros(size - length), length)
  {
    var offset := address - bufferAddress;
    var piece := buffer[offset..offset + length];
    forall i | 0 <= i < length ensures piece[i] == Slice(data, address, length)[i] {
      assert buffer[offset + i] == data(bufferAddress + (offset + i));
    }
    assert piece == Slice(data, address, length);
    var result := piece + Zeros(size - length);
    assert result[..length] == piece && result[length..] == Zeros(size - length);
  }
}
