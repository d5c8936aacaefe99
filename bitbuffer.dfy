/** The NetStack `BitBuffer`, reduced to the contract the core relies on: a
    sequence of written words and a read cursor. Bit-level packing and the
    variable-width encodings are not part of this model. */
module Buffers {
  import opened Wire

  class BitBuffer {
    /** Words written since the last `Clear`. */
    var words: seq<Word>
    /** Index of the next word `ReadUInt` returns. */
    var cursor: nat

    ghost predicate Valid()
      reads this
    {
      cursor <= |words|
    }

    /** `new BitBuffer(capacity)`: the buffer grows, so the capacity is only a hint. */
    constructor (capacity: nat)
      ensures Valid() && words == [] && cursor == 0
    {
      words := [];
      cursor := 0;
    }

    /** Drops every written word and rewinds the read cursor. */
    method Clear()
      modifies this
      ensures Valid() && words == [] && cursor == 0
    {
      words := [];
      cursor := 0;
    }

    method AddUInt(w: Word) returns (r: BitBuffer)
      requires Valid()
      modifies this`words
      ensures r == this && Valid()
      ensures words == old(words) + [w]
    {
      words := words + [w];
      r := this;
    }

    /** Reading past the written words is a protocol violation the caller must rule out. */
    method ReadUInt() returns (w: Word)
      requires Valid() && cursor < |words|
      modifies this`cursor
      ensures Valid()
      ensures w == words[old(cursor)] && cursor == old(cursor) + 1
    {
      w := words[cursor];
      cursor := cursor + 1;
    }

    /** A C# `int` is carried as its 32-bit two's-complement pattern. */
    method AddInt(v: Bits) returns (r: BitBuffer)
      requires Valid()
      modifies this`words
      ensures r == this && Valid()
      ensures words == old(words) + [BitsToWord(v)]
    {
      r := AddUInt(BitsToWord(v));
    }

    method ReadInt() returns (v: Bits)
      requires Valid() && cursor < |words|
      modifies this`cursor
      ensures Valid()
      ensures v == WordToBits(words[old(cursor)]) && cursor == old(cursor) + 1
    {
      var w := ReadUInt();
      v := WordToBits(w);
    }
  }
}
