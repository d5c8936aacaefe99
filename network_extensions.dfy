/** The `BitBufferExtensions` helpers: the entity header, the 16-bit and float
    framing, the compressed vector, and packing or reading a synchronized
    variable. Every `Add*` hands back the buffer it was given, so calls chain. */
module NetworkExtensions {
  import opened Wire
  import opened Buffers
  import opened SyncVars

  /** `AddUShort`: a ushort takes one whole word. */
  method AddUShort(buffer: BitBuffer, value: UShort) returns (r: BitBuffer)
    requires buffer.Valid()
    modifies buffer`words
    ensures r == buffer && buffer.Valid()
    ensures buffer.words == old(buffer.words) + [UShortToWord(value)]
  {
    var _ := buffer.AddUInt(UShortToWord(value));
    r := buffer;
  }

  /** `ReadUShort`: one word, cast down to 16 bits. */
  method ReadUShort(buffer: BitBuffer) returns (value: UShort)
    requires buffer.Valid() && buffer.cursor < |buffer.words|
    modifies buffer`cursor
    ensures buffer.Valid()
    ensures value == WordToUShort(buffer.words[old(buffer.cursor)])
    ensures buffer.cursor == old(buffer.cursor) + 1
  {
    var w := buffer.ReadUInt();
    value := WordToUShort(w);
  }

  /** `AddFloat`: the float's bit pattern as one word. */
  method AddFloat(buffer: BitBuffer, value: Float32) returns (r: BitBuffer)
    requires buffer.Valid()
    modifies buffer`words
    ensures r == buffer && buffer.Valid()
    ensures buffer.words == old(buffer.words) + [FloatToWord(value)]
  {
    var _ := buffer.AddUInt(FloatToWord(value));
    r := buffer;
  }

  /** `ReadFloat`: one word reinterpreted as a float. */
  method ReadFloat(buffer: BitBuffer) returns (value: Float32)
    requires buffer.Valid() && buffer.cursor < |buffer.words|
    modifies buffer`cursor
    ensures buffer.Valid()
    ensures value == WordToFloat(buffer.words[old(buffer.cursor)])
    ensures buffer.cursor == old(buffer.cursor) + 1
  {
    var w := buffer.ReadUInt();
    value := WordToFloat(w);
  }

  /** `AddEntityHeader(peer, …)`: optionally clears the buffer, then writes the
      opcode and the peer's id. */
  method AddEntityHeader(buffer: BitBuffer, peer: Peer, opCode: OpCode, clearBuffer: bool) returns (r: BitBuffer)
    requires buffer.Valid()
    modifies buffer
    ensures r == buffer && buffer.Valid()
    ensures buffer.words == (if clearBuffer then [] else old(buffer.words)) + HeaderWords(opCode, peer.id)
    ensures buffer.cursor == if clearBuffer then 0 else old(buffer.cursor)
  {
    if clearBuffer {
      buffer.Clear();
    }
    var b := AddUShort(buffer, opCode);
    var _ := b.AddUInt(peer.id);
    r := buffer;
  }

  /** `AddEntityHeader(entity, …)`: the same, with the entity's network id. */
  method AddEntityHeaderForEntity(buffer: BitBuffer, entity: NetworkEntity, opCode: OpCode, clearBuffer: bool) returns (r: BitBuffer)
    requires buffer.Valid()
    modifies buffer
    ensures r == buffer && buffer.Valid()
    ensures buffer.words == (if clearBuffer then [] else old(buffer.words)) + HeaderWords(opCode, entity.networkId)
    ensures buffer.cursor == if clearBuffer then 0 else old(buffer.cursor)
  {
    if clearBuffer {
      buffer.Clear();
    }
    var b := AddUShort(buffer, opCode);
    var _ := b.AddUInt(entity.networkId);
    r := buffer;
  }

  /** `GetEntityHeader`: the opcode first, then the id. */
  method GetEntityHeader(buffer: BitBuffer) returns (header: PacketHeader)
    requires buffer.Valid() && DecodeHeader(buffer.words, buffer.cursor).Some?
    modifies buffer`cursor
    ensures buffer.Valid()
    ensures old(DecodeHeader(buffer.words, buffer.cursor)) == Some(header)
    ensures buffer.cursor == old(buffer.cursor) + 2
  {
    var opCode := ReadUShort(buffer);
    var id := buffer.ReadUInt();
    header := PacketHeader(id, opCode);
  }

  /** `AddSyncVar`: packs the variable; clears its dirty flag when asked to. */
  method AddSyncVar(buffer: BitBuffer, v: SyncVar, resetDirty: bool) returns (r: BitBuffer)
    requires buffer.Valid() && v.Valid()
    modifies buffer`words, v`dirty
    ensures r == buffer && buffer.Valid() && v.Valid()
    ensures buffer.words == old(buffer.words) + EncodeValue(v.kind, v.value)
    ensures v.dirty == (old(v.dirty) && !resetDirty)
    ensures !resetDirty ==> unchanged(v)
  {
    v.PackVariable(buffer);
    if resetDirty {
      v.ResetDirty();
    }
    r := buffer;
  }

  /** `ReadSyncVar`: the variable reads its own value at the cursor. */
  method ReadSyncVar(buffer: BitBuffer, v: SyncVar)
    requires buffer.Valid() && v.Valid()
    requires DecodeValue(v.kind, buffer.words, buffer.cursor).Some?
    modifies v`value, buffer`cursor
    ensures buffer.Valid() && v.Valid()
    ensures old(DecodeValue(v.kind, buffer.words, buffer.cursor)) == Some((v.value, buffer.cursor))
  {
    v.ReadVariable(buffer);
  }

  /** `AddVector3`: compresses the vector and writes its x, y and z words. */
  method AddVector3(buffer: BitBuffer, value: Vector3, range: BoundedRanges) returns (r: BitBuffer)
    requires buffer.Valid()
    modifies buffer`words
    ensures r == buffer && buffer.Valid()
    ensures buffer.words == old(buffer.words) + Vector3Words(Compress(range, value))
  {
    var compressed := Compress(range, value);
    var b := buffer.AddUInt(compressed.x);
    b := b.AddUInt(compressed.y);
    b := b.AddUInt(compressed.z);
    r := buffer;
  }

  /** `ReadVector3`: reads x, y and z, in that order, and decompresses them. */
  method ReadVector3(buffer: BitBuffer, range: BoundedRanges) returns (value: Vector3)
    requires buffer.Valid() && buffer.cursor + 3 <= |buffer.words|
    modifies buffer`cursor
    ensures buffer.Valid()
    ensures var ws, c := buffer.words, old(buffer.cursor);
      value == Decompress(range, CompressedVector3(ws[c], ws[c + 1], ws[c + 2]))
    ensures buffer.cursor == old(buffer.cursor) + 3
  {
    var x := buffer.ReadUInt();
    var y := buffer.ReadUInt();
    var z := buffer.ReadUInt();
    value := Decompress(range, CompressedVector3(x, y, z));
  }
}
