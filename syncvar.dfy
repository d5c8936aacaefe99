/** A synchronized variable (`SynchronizedFloat`, `SynchronizedString`,
    `SynchronizedASCII`): a value, a `Dirty` flag and the `BitFlag` that names it
    in the dirty mask. The value is abstracted as the words of its encoding. */
module SyncVars {
  import opened Wire
  import opened Buffers

  class SyncVar {
    const kind: VarKind
    /** The variable's bit in the dirty mask, fixed when it is registered. */
    const bitFlag: Bits
    var value: seq<Word>
    /** Set by a local write, cleared once the value has gone into a packet. */
    var dirty: bool

    ghost predicate Valid()
      reads this
    {
      Fits(kind, value)
    }

    ghost function State(): FitState
      reads this
      requires Valid()
    {
      VarState(kind, bitFlag, value, dirty)
    }

    constructor (kind: VarKind, bitFlag: Bits, initial: seq<Word>)
      requires Fits(kind, initial)
      ensures Valid()
      ensures this.kind == kind && this.bitFlag == bitFlag
      ensures value == initial && !dirty
    {
      this.kind := kind;
      this.bitFlag := bitFlag;
      value := initial;
      dirty := false;
    }

    /** The `Value` setter: writing the value it already holds changes nothing;
        any other value is stored and marks the variable dirty. */
    method SetValue(v: seq<Word>)
      requires Valid() && Fits(kind, v)
      modifies this
      ensures Valid()
      ensures value == v
      ensures dirty == (old(dirty) || v != old(value))
    {
      if v != value {
        value := v;
        dirty := true;
      }
    }

    /** Appends the encoding of the current value; the dirty flag is left alone. */
    method PackVariable(buffer: BitBuffer)
      requires Valid() && buffer.Valid()
      modifies buffer`words
      ensures buffer.Valid()
      ensures buffer.words == old(buffer.words) + EncodeValue(kind, value)
    {
      match kind
      case Scalar =>
        var _ := buffer.AddUInt(value[0]);
      case Text =>
        var _ := buffer.AddUInt(|value|);
        for i := 0 to |value|
          invariant buffer.Valid()
          invariant buffer.words == old(buffer.words) + [|value|] + value[..i]
        {
          var _ := buffer.AddUInt(value[i]);
          assert value[..i + 1] == value[..i] + [value[i]];
        }
        assert value[..|value|] == value;
    }

    /** Consumes one encoded value at the cursor and stores it. Received values
        are not re-broadcast, so the dirty flag is left alone. */
    method ReadVariable(buffer: BitBuffer)
      requires Valid() && buffer.Valid()
      requires DecodeValue(kind, buffer.words, buffer.cursor).Some?
      modifies this`value, buffer`cursor
      ensures Valid() && buffer.Valid()
      ensures old(DecodeValue(kind, buffer.words, buffer.cursor)) == Some((value, buffer.cursor))
    {
      ghost var ws, start := buffer.words, buffer.cursor;
      match kind
      case Scalar =>
        var w := buffer.ReadUInt();
        value := [w];
      case Text =>
        var n := buffer.ReadUInt();
        var units: seq<Word> := [];
        for i := 0 to n
          invariant buffer.Valid() && buffer.words == ws
          invariant buffer.cursor == start + 1 + i
          invariant units == ws[start + 1..start + 1 + i]
        {
          var u := buffer.ReadUInt();
          units := units + [u];
        }
        value := units;
    }

    method ResetDirty()
      modifies this`dirty
      ensures !dirty
    {
      dirty := false;
    }
  }
}
