/** The vocabulary every packet is built from: 32-bit words as the bit buffer
    carries them, opcodes, the entity header, the wire encoding of one
    synchronized value, and the records handed to the command queue. */
module Wire {

  /** One value written by `AddUInt` and read back by `ReadUInt`: a C# `uint`. */
  type Word = x: int | 0 <= x < 0x1_0000_0000

  /** A C# `int` as its 32-bit two's-complement pattern; the operand of `|` and `&`
      in the dirty mask and the bit flags. */
  type Bits = bv32

  /** A C# `ushort`. */
  type UShort = x: int | 0 <= x < 0x1_0000

  /** The IEEE-754 bit pattern of a C# `float`; no float arithmetic is modelled. */
  type Float32 = Word

  datatype Option<T> = None | Some(value: T)

  /** `OpCodes` is cast to and from `ushort`, so every 16-bit value is an opcode. */
  type OpCode = UShort

  const POSITION_UPDATE: OpCode := 1
  const SYNC_UPDATE: OpCode := 2

  /** `PacketHeader`: the entity id and the opcode that open every entity packet. */
  datatype PacketHeader = PacketHeader(id: Word, opCode: OpCode)

  /** The transport's view of a remote peer: its id and whether the handle is set. */
  datatype Peer = Peer(id: Word, isSet: bool)

  /** What `AddEntityHeader` needs of a `NetworkEntity`: the value of its `NetworkId`. */
  datatype NetworkEntity = NetworkEntity(networkId: Word)

  datatype Vector3 = Vector3(x: Float32, y: Float32, z: Float32)

  datatype Vector4 = Vector4(x: Float32, y: Float32, z: Float32, w: Float32)

  datatype CompressedVector3 = CompressedVector3(x: Word, y: Word, z: Word)

  /** The `BoundedRange[]` argument: per-axis quantisation, kept opaque as its two directions. */
  datatype BoundedRanges = BoundedRanges(
    compress: Vector3 -> CompressedVector3,
    decompress: CompressedVector3 -> Vector3)

  /** `BoundedRange.Compress(value, range)`: the range's compression of each axis. */
  function Compress(range: BoundedRanges, v: Vector3): CompressedVector3
  {
    range.compress(v)
  }

  /** `BoundedRange.Decompress(compressed, range)`: the range's decompression of each axis. */
  function Decompress(range: BoundedRanges, c: CompressedVector3): Vector3
  {
    range.decompress(c)
  }

  /** `AddUShort` widens the ushort to a full word. */
  function UShortToWord(v: UShort): Word
  {
    v
  }

  /** `ReadUShort` truncates the word to its low 16 bits (the `(ushort)` cast). */
  function WordToUShort(w: Word): (v: UShort)
    ensures w < 0x1_0000 ==> v == w
  {
    w % 0x1_0000
  }

  lemma UShortRoundTrip(v: UShort)
    ensures WordToUShort(UShortToWord(v)) == v
  {
  }

  /** The `UIntFloat` union reinterprets the bits, so a float crosses the wire unchanged. */
  function FloatToWord(f: Float32): Word { f }

  function WordToFloat(w: Word): Float32 { w }

  lemma FloatRoundTrip(f: Float32)
    ensures WordToFloat(FloatToWord(f)) == f
  {
  }

  /** `AddInt` carries an `int` as its 32-bit pattern. */
  function BitsToWord(b: Bits): Word
  {
    b as int
  }

  /** `ReadInt` gives the `int` whose pattern the word holds. */
  function WordToBits(w: Word): Bits
  {
    w as Bits
  }

  lemma BitsRoundTrip(b: Bits)
    ensures WordToBits(BitsToWord(b)) == b
    ensures BitsToWord(b) == 0 <==> b == 0
  {
  }

  /** The two words `AddEntityHeader` writes: the opcode as a ushort, then the id. */
  function HeaderWords(opCode: OpCode, id: Word): (ws: seq<Word>)
    ensures |ws| == 2 && ws[1] == id
  {
    [UShortToWord(opCode), id]
  }

  /** What `GetEntityHeader` reads at position `pos` of `ws`: opcode first, id
      second. None when fewer than two words remain there. */
  function DecodeHeader(ws: seq<Word>, pos: nat): Option<PacketHeader>
    requires pos <= |ws|
  {
    if |ws| < pos + 2 then None else Some(PacketHeader(ws[pos + 1], WordToUShort(ws[pos])))
  }

  /** The words `e` stand in `ws` starting at position `pos`. */
  predicate At(ws: seq<Word>, pos: nat, e: seq<Word>)
  {
    pos + |e| <= |ws| && ws[pos..pos + |e|] == e
  }

  /** Wherever the two header words stand, they read back as the same header. */
  lemma HeaderRoundTrip(opCode: OpCode, id: Word, ws: seq<Word>, pos: nat)
    requires At(ws, pos, HeaderWords(opCode, id))
    ensures DecodeHeader(ws, pos) == Some(PacketHeader(id, opCode))
  {
    assert ws[pos] == HeaderWords(opCode, id)[0];
    assert ws[pos + 1] == HeaderWords(opCode, id)[1];
    UShortRoundTrip(opCode);
  }

  /** The three words `AddVector3` writes, in x, y, z order. */
  function Vector3Words(c: CompressedVector3): (ws: seq<Word>)
    ensures |ws| == 3
  {
    [c.x, c.y, c.z]
  }

  /** The wire shape of a synchronized variable: a float is one word, a string
      (UTF-16 or ASCII) is a length word followed by its units. */
  datatype VarKind = Scalar | Text

  /** A value the variable's encoding can carry. */
  predicate Fits(kind: VarKind, v: seq<Word>)
  {
    match kind
    case Scalar => |v| == 1
    case Text => |v| < 0x1_0000_0000
  }

  /** The words `PackVariable` appends for value `v`. */
  function EncodeValue(kind: VarKind, v: seq<Word>): (ws: seq<Word>)
    requires Fits(kind, v)
    ensures |ws| == if kind == Scalar then 1 else |v| + 1
  {
    match kind
    case Scalar => v
    case Text => [|v|] + v
  }

  /** What `ReadVariable` consumes at position `pos` of `ws`: the value and the
      position after it. None when `ws` ends before the value does. */
  function DecodeValue(kind: VarKind, ws: seq<Word>, pos: nat): (r: Option<(seq<Word>, nat)>)
    requires pos <= |ws|
    ensures r.Some? ==> pos < r.value.1 <= |ws| && pos + |r.value.0| <= r.value.1 && Fits(kind, r.value.0)
    ensures r.Some? ==> r.value.0 == ws[r.value.1 - |r.value.0|..r.value.1]
    ensures r.None? <==> pos == |ws| || (kind == Text && |ws| < pos + 1 + ws[pos] as int)
  {
    if pos == |ws| then None
    else match kind
      case Scalar => Some(([ws[pos]], pos + 1))
      case Text =>
        var n := ws[pos] as int;
        if |ws| < pos + 1 + n then None else Some((ws[pos + 1..pos + 1 + n], pos + 1 + n))
  }

  /** An encoded value, wherever it stands in `ws`, reads back as itself and ends
      where its encoding ends. */
  lemma ValueRoundTrip(kind: VarKind, v: seq<Word>, ws: seq<Word>, pos: nat)
    requires Fits(kind, v)
    requires At(ws, pos, EncodeValue(kind, v))
    ensures DecodeValue(kind, ws, pos) == Some((v, pos + |EncodeValue(kind, v)|))
  {
    var e := EncodeValue(kind, v);
    assert ws[pos] == e[0];
    match kind
    case Scalar =>
      assert [ws[pos]] == v;
    case Text =>
      assert ws[pos + 1..pos + 1 + |v|] == e[1..];
  }

  /** A snapshot of one synchronized variable: its wire kind, its `BitFlag`, its
      value and its `Dirty` flag. */
  datatype VarState = VarState(kind: VarKind, flag: Bits, value: seq<Word>, dirty: bool)

  /** A snapshot whose value its kind's encoding can carry. */
  type FitState = s: VarState | Fits(s.kind, s.value) witness VarState(Scalar, 0, [0], false)

  /** `PacketFlags`: `None` (unreliable) or `Reliable`. */
  datatype PacketFlags = Unreliable | Reliable

  /** `CommandType`: send to the server, or broadcast to every client. */
  datatype CommandType = Send | BroadcastAll

  /** A command queued for the transport: its target, the packet words, the flags
      and the channel. */
  datatype Command = Command(target: CommandType, packet: seq<Word>, flags: PacketFlags, channel: nat)
}
