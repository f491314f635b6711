/** The byte encoding of literal indices. */
module LiteralCodec {
  import opened Literals
  import opened Wrappers

  // Constants of the JerryScript byte code.
  const MAXIMUM_BYTE_VALUE := 255
  const MAXIMUM_SMALL_VALUE := 510
  const MAXIMUM_FULL_VALUE := 32767
  const SMALL_LITERAL_ENCODING_LIMIT := 255
  const SMALL_LITERAL_ENCODING_DELTA := 0xfe01
  const FULL_LITERAL_ENCODING_LIMIT := 128
  const FULL_LITERAL_ENCODING_DELTA := 0x8000
  const LOWER_SEVEN_BIT_MASK := 0x7f
  const HIGHEST_BIT_MASK := 0x80

  type byte = b: nat | b < 256

  /** The decoding limit and delta, and the largest index the encoder writes as one byte. */
  datatype Encoding = Encoding(limit: nat, delta: nat, oneByteLimit: nat)

  function EncodingOf(full: bool): Encoding {
    if full
    then Encoding(FULL_LITERAL_ENCODING_LIMIT, FULL_LITERAL_ENCODING_DELTA, LOWER_SEVEN_BIT_MASK)
    else Encoding(SMALL_LITERAL_ENCODING_LIMIT, SMALL_LITERAL_ENCODING_DELTA, MAXIMUM_BYTE_VALUE - 1)
  }

  function U8(x: int): byte {
    x % 0x100
  }

  /** A byte with its highest bit set. */
  function WithHighestBit(x: byte): byte {
    if x < HIGHEST_BIT_MASK then x + HIGHEST_BIT_MASK else x
  }

  // ---------------------------------------------------------------- specification

  function Emitted(enc: Encoding, index: nat): seq<byte> {
    if index <= enc.oneByteLimit then [U8(index)]
    else if index <= MAXIMUM_SMALL_VALUE then [MAXIMUM_BYTE_VALUE, U8(index - MAXIMUM_BYTE_VALUE)]
    else [WithHighestBit(U8(index / 0x100)), U8(index)]
  }

  function EmittedAll(enc: Encoding, indices: seq<nat>): seq<byte> {
    if indices == [] then [] else Emitted(enc, indices[0]) + EmittedAll(enc, indices[1..])
  }

  /** One index read from the front of `bytes`, and the number of bytes it took. */
  function Decoded(enc: Encoding, bytes: seq<byte>): Option<(nat, nat)> {
    if bytes == [] then None
    else if bytes[0] < enc.limit then Some((bytes[0], 1))
    else if |bytes| == 1 then None
    else Some((U16(bytes[0] * 0x100 + bytes[1] - enc.delta), 2))
  }

  /** `count` indices read one after the other, and the bytes left over. */
  function DecodedAll(enc: Encoding, bytes: seq<byte>, count: nat): Option<(seq<nat>, seq<byte>)> {
    if count == 0 then Some(([], bytes))
    else
      match Decoded(enc, bytes)
      case None => None
      case Some((index, used)) =>
        if used > |bytes| then None
        else
          match DecodedAll(enc, bytes[used..], count - 1)
          case None => None
          case Some((rest, left)) => Some(([index] + rest, left))
  }

  // ---------------------------------------------------------------- round trip

  /** The indices the encoder and the decoder agree on. In the full encoding the encoder still
      writes the middle range in the small form, which the decoder reads as something else. */
  predicate Agreed(full: bool, index: nat) {
    if full then !(128 <= index <= MAXIMUM_SMALL_VALUE) else index <= MAXIMUM_SMALL_VALUE
  }

  lemma EmittedOneByte(full: bool, index: nat)
    requires index <= EncodingOf(full).oneByteLimit
    ensures Emitted(EncodingOf(full), index) == [index]
  {
  }

  lemma EmittedMiddle(full: bool, index: nat)
    requires EncodingOf(full).oneByteLimit < index <= MAXIMUM_SMALL_VALUE
    ensures Emitted(EncodingOf(full), index) == [MAXIMUM_BYTE_VALUE, if index < 255 then index + 1 else index - 255]
  {
  }

  lemma EmittedLarge(full: bool, index: nat)
    requires MAXIMUM_SMALL_VALUE < index <= MAXIMUM_FULL_VALUE
    ensures index / 0x100 < 128 && Emitted(EncodingOf(full), index) == [index / 0x100 + 128, index % 0x100]
  {
  }

  lemma DecodedBytes(full: bool, bytes: seq<byte>, tail: seq<byte>)
    requires 1 <= |bytes| <= 2 && (|bytes| == 1 ==> bytes[0] < EncodingOf(full).limit)
    ensures Decoded(EncodingOf(full), bytes + tail) ==
      if bytes[0] < EncodingOf(full).limit then Some((bytes[0], 1))
      else Some((U16(bytes[0] * 0x100 + bytes[1] - EncodingOf(full).delta), 2))
  {
    assert (bytes + tail)[0] == bytes[0] && (|bytes| == 2 ==> (bytes + tail)[1] == bytes[1]);
  }

  lemma SingleRoundTripIff(full: bool, index: nat, tail: seq<byte>)
    requires index <= MAXIMUM_FULL_VALUE
    ensures var enc := EncodingOf(full); var bytes := Emitted(enc, index);
      if Agreed(full, index)
      then Decoded(enc, bytes + tail) == Some((index, |bytes|))
      else Decoded(enc, bytes + tail).Some? && Decoded(enc, bytes + tail).value.0 != index
  {
    if index <= EncodingOf(full).oneByteLimit {
      EmittedOneByte(full, index);
    } else if index <= MAXIMUM_SMALL_VALUE {
      EmittedMiddle(full, index);
    } else {
      EmittedLarge(full, index);
    }
    DecodedBytes(full, Emitted(EncodingOf(full), index), tail);
  }

  /** An index of the middle range in full encoding. */
  lemma MiddleRangeExample()
    ensures var enc := EncodingOf(true);
      Emitted(enc, 200) == [255, 201] && Decoded(enc, Emitted(enc, 200)) == Some((32713, 2))
  {
  }

  /** Decoding what was emitted gives back the same indices, and consumes exactly their bytes, if
      and only if encoder and decoder agree on every one of them. */
  lemma {:induction false} RoundTripIff(full: bool, indices: seq<nat>, tail: seq<byte>)
    requires forall i :: 0 <= i < |indices| ==> indices[i] <= MAXIMUM_FULL_VALUE
    ensures var enc := EncodingOf(full);
      DecodedAll(enc, EmittedAll(enc, indices) + tail, |indices|) == Some((indices, tail))
      <==> forall i :: 0 <= i < |indices| ==> Agreed(full, indices[i])
  {
    var enc := EncodingOf(full);
    if indices == [] {
      assert EmittedAll(enc, indices) + tail == tail;
    } else {
      var first, more := Emitted(enc, indices[0]), EmittedAll(enc, indices[1..]) + tail;
      var bytes := EmittedAll(enc, indices) + tail;
      assert bytes == first + more;
      SingleRoundTripIff(full, indices[0], more);
      RoundTripIff(full, indices[1..], tail);
      if Agreed(full, indices[0]) {
        assert bytes[|first|..] == more;
        assert indices == [indices[0]] + indices[1..];
      }
    }
  }

  // ---------------------------------------------------------------- the buffer and the cursor

  class Buffer {
    var data: seq<byte>

    constructor ()
      ensures data == []
    {
      data := [];
    }

    /** Append one index, in the form its size calls for. */
    method Emit(enc: Encoding, index: nat)
      requires index <= MAXIMUM_FULL_VALUE
      modifies this
      ensures data == old(data) + Emitted(enc, index)
    {
      if index <= enc.oneByteLimit {
        data := data + [U8(index)];
        return;
      }
      if index <= MAXIMUM_SMALL_VALUE {
        data := data + [MAXIMUM_BYTE_VALUE];
        data := data + [U8(index - MAXIMUM_BYTE_VALUE)];
        return;
      }
      data := data + [WithHighestBit(U8(index / 0x100))];
      data := data + [U8(index)];
    }
  }

  class Cursor {
    const bytes: seq<byte>
    var pos: nat

    constructor (bytes: seq<byte>)
      ensures this.bytes == bytes && pos == 0
    {
      this.bytes := bytes;
      pos := 0;
    }

    ghost predicate Valid()
      reads this
    {
      pos <= |bytes|
    }

    method Next() returns (b: byte)
      requires Valid() && pos < |bytes|
      modifies this`pos
      ensures Valid() && pos == old(pos) + 1 && b == bytes[old(pos)]
    {
      b := bytes[pos];
      pos := pos + 1;
    }

    /** Read one index; the caller knows that it is there. */
    method DecodeLiteralIndex(enc: Encoding) returns (index: nat)
      requires Valid() && Decoded(enc, bytes[pos..]).Some?
      modifies this`pos
      ensures Valid() && Decoded(enc, bytes[old(pos)..]) == Some((index, pos - old(pos)))
    {
      index := Next();
      if index >= enc.limit {
        var low := Next();
        index := U16(index * 0x100 + low - enc.delta);
      }
    }
  }

  /** Append the indices of an instruction's literals, one after the other. */
  method EmitAll(buffer: Buffer, enc: Encoding, indices: seq<nat>)
    requires forall i :: 0 <= i < |indices| ==> indices[i] <= MAXIMUM_FULL_VALUE
    modifies buffer
    ensures buffer.data == old(buffer.data) + EmittedAll(enc, indices)
  {
    var k := 0;
    while k < |indices|
      invariant 0 <= k <= |indices|
      invariant buffer.data == old(buffer.data) + EmittedAll(enc, indices[..k])
    {
      EmittedAllAppend(enc, indices[..k], indices[k]);
      assert indices[..k + 1] == indices[..k] + [indices[k]];
      buffer.Emit(enc, indices[k]);
      k := k + 1;
    }
    assert indices[..k] == indices;
  }

  /** Read the indices of an instruction's literals, one after the other. */
  method DecodeAll(cursor: Cursor, enc: Encoding, count: nat) returns (indices: seq<nat>)
    requires cursor.Valid() && DecodedAll(enc, cursor.bytes[cursor.pos..], count).Some?
    modifies cursor`pos
    ensures cursor.Valid()
    ensures DecodedAll(enc, cursor.bytes[old(cursor.pos)..], count) == Some((indices, cursor.bytes[cursor.pos..]))
  {
    indices := [];
    ghost var all := DecodedAll(enc, cursor.bytes[cursor.pos..], count).value;
    var k: nat := 0;
    while k < count
      invariant 0 <= k <= count && cursor.Valid()
      invariant DecodedAll(enc, cursor.bytes[cursor.pos..], count - k).Some?
      invariant var rest := DecodedAll(enc, cursor.bytes[cursor.pos..], count - k).value;
        all.0 == indices + rest.0 && all.1 == rest.1
    {
      ghost var before := cursor.pos;
      var index := cursor.DecodeLiteralIndex(enc);
      assert cursor.bytes[before..][cursor.pos - before..] == cursor.bytes[cursor.pos..];
      ghost var rest := DecodedAll(enc, cursor.bytes[cursor.pos..], count - k - 1).value;
      assert indices + ([index] + rest.0) == (indices + [index]) + rest.0;
      indices := indices + [index];
      k := k + 1;
    }
    assert indices + [] == indices;
  }

  /** What is emitted is read back, up to the last byte. */
  method EmitThenDecode(full: bool, indices: seq<nat>) returns (decoded: seq<nat>)
    requires forall i :: 0 <= i < |indices| ==> indices[i] <= MAXIMUM_FULL_VALUE && Agreed(full, indices[i])
    ensures decoded == indices
  {
    var buffer := new Buffer();
    EmitAll(buffer, EncodingOf(full), indices);
    RoundTripIff(full, indices, []);
    assert buffer.data + [] == buffer.data;
    var cursor := new Cursor(buffer.data);
    decoded := DecodeAll(cursor, EncodingOf(full), |indices|);
  }

  lemma {:induction false} EmittedAllAppend(enc: Encoding, indices: seq<nat>, index: nat)
    ensures EmittedAll(enc, indices + [index]) == EmittedAll(enc, indices) + Emitted(enc, index)
  {
    if indices != [] {
      assert (indices + [index])[1..] == indices[1..] + [index];
      EmittedAllAppend(enc, indices[1..], index);
    } else {
      assert EmittedAll(enc, []) == [];
    }
  }
}
