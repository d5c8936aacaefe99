/** The replication protocol as functions on snapshots of an entity's
    synchronized variables (in `m_syncs` order): the dirty mask, the payload
    of a delta or full packet, and what the receiver makes of those words. */
module Replication {
  import opened Wire

  /** The receiver's test `(dirtyBits & BitFlag) == BitFlag`. */
  predicate Selected(mask: Bits, flag: Bits)
  {
    mask & flag == flag
  }

  predicate SingleBit(f: Bits)
  {
    f != 0 && f & (f - 1) == 0
  }

  /** The registration discipline: every flag is one bit and no two variables
      share one. */
  predicate FlagsWellFormed(vs: seq<FitState>)
  {
    (forall i :: 0 <= i < |vs| ==> SingleBit(vs[i].flag)) &&
    (forall i, j :: 0 <= i < j < |vs| ==> vs[i].flag != vs[j].flag)
  }

  /** Some variable has been written since it was last sent. */
  predicate AnyDirty(vs: seq<FitState>)
  {
    exists i :: 0 <= i < |vs| && vs[i].dirty
  }

  /** Sender and receiver list the same kinds of variable with the same flags. */
  predicate SameLayout(a: seq<FitState>, b: seq<FitState>)
  {
    |a| == |b| &&
    forall i :: 0 <= i < |a| ==> a[i].kind == b[i].kind && a[i].flag == b[i].flag
  }

  /** The dirty mask accumulated by the first loop of `UpdateSyncVars`. */
  function MaskOf(vs: seq<FitState>): Bits
  {
    if vs == [] then 0 else MaskOf(vs[..|vs| - 1]) | Contribution(vs[|vs| - 1])
  }

  /** What one variable adds to the mask: its flag when dirty, nothing otherwise. */
  function Contribution(v: FitState): Bits
  {
    if v.dirty then v.flag else 0
  }

  function Values(vs: seq<FitState>): seq<seq<Word>>
  {
    seq(|vs|, i requires 0 <= i < |vs| => vs[i].value)
  }

  /** The variables once a delta packet has carried them: the same values, none dirty. */
  function Cleaned(vs: seq<FitState>): seq<FitState>
  {
    seq(|vs|, i requires 0 <= i < |vs| => vs[i].(dirty := false))
  }

  /** Which variables a delta packet carries: the dirty ones. */
  function DirtySelection(vs: seq<FitState>): seq<bool>
  {
    seq(|vs|, i requires 0 <= i < |vs| => vs[i].dirty)
  }

  /** Which variables the receiver reads for a given mask. */
  function MaskSelection(vs: seq<FitState>, mask: Bits): seq<bool>
  {
    seq(|vs|, i requires 0 <= i < |vs| => Selected(mask, vs[i].flag))
  }

  /** A full snapshot carries every variable. */
  function AllSelection(n: nat): seq<bool>
  {
    seq(n, _ => true)
  }

  /** The payloads of the selected variables, concatenated in list order. */
  function EncodeVars(vs: seq<FitState>, sel: seq<bool>): seq<Word>
    requires |sel| == |vs|
  {
    Concat(Pieces(vs, sel))
  }

  function Pieces(vs: seq<FitState>, sel: seq<bool>): seq<seq<Word>>
    requires |sel| == |vs|
  {
    seq(|vs|, i requires 0 <= i < |vs| => Piece(vs[i], sel[i]))
  }

  function Concat(ps: seq<seq<Word>>): seq<Word>
  {
    if ps == [] then [] else ps[0] + Concat(ps[1..])
  }

  /** One variable's share of a payload: its encoding when selected. */
  function Piece(v: FitState, selected: bool): seq<Word>
  {
    if selected then EncodeValue(v.kind, v.value) else []
  }

  /** One variable's turn on the receiver: a selected variable reads its value
      at `pos`, any other keeps its own and reads nothing. */
  function ReadSlot(v: FitState, selected: bool, ws: seq<Word>, pos: nat): (r: Option<(seq<Word>, nat)>)
    requires pos <= |ws|
    ensures r.Some? ==> pos <= r.value.1 <= |ws| && Fits(v.kind, r.value.0)
    ensures !selected ==> r == Some((v.value, pos))
  {
    if selected then DecodeValue(v.kind, ws, pos) else Some((v.value, pos))
  }

  /** Reading the selected variables in list order from position `pos` of `ws`:
      the receiver's new value for every variable and the position after the
      last word read. None when `ws` runs out first. */
  function DecodeVars(vs: seq<FitState>, sel: seq<bool>, ws: seq<Word>, pos: nat): (r: Option<(seq<seq<Word>>, nat)>)
    requires |sel| == |vs| && pos <= |ws|
    ensures r.Some? ==> |r.value.0| == |vs| && pos <= r.value.1 <= |ws|
    ensures r.Some? ==> forall i :: 0 <= i < |vs| && !sel[i] ==> r.value.0[i] == vs[i].value
    ensures r.Some? ==> forall i :: 0 <= i < |vs| ==> Fits(vs[i].kind, r.value.0[i])
  {
    if vs == [] then Some(([], pos))
    else
      var head := ReadSlot(vs[0], sel[0], ws, pos);
      if head.None? then None
      else
        var tail := DecodeVars(vs[1..], sel[1..], ws, head.value.1);
        if tail.None? then None
        else Some(([head.value.0] + tail.value.0, tail.value.1))
  }

  /** The receiver's values after a packet built from `send`: each selected variable
      takes the sender's value, every other one keeps its own. */
  function Merge(send: seq<FitState>, recv: seq<FitState>, sel: seq<bool>): seq<seq<Word>>
    requires |send| == |recv| == |sel|
  {
    seq(|recv|, i requires 0 <= i < |recv| => if sel[i] then send[i].value else recv[i].value)
  }

  /** The words `UpdateSyncVars` leaves in its buffer when the mask is not zero:
      header, mask, then the dirty payloads in list order. */
  function SyncPacket(peerId: Word, vs: seq<FitState>): seq<Word>
  {
    HeaderWords(SYNC_UPDATE, peerId) + [BitsToWord(MaskOf(vs))] + EncodeVars(vs, DirtySelection(vs))
  }

  /** What `ProcessSyncUpdate` does at position `pos` of `ws`, just after the
      header: read the mask; zero means nothing else is read; otherwise read
      every variable the mask selects. Gives the new values and the position
      after the last word read. */
  function ApplyUpdate(vs: seq<FitState>, ws: seq<Word>, pos: nat): (r: Option<(seq<seq<Word>>, nat)>)
    requires pos <= |ws|
    ensures r.Some? ==> pos < |ws| && |r.value.0| == |vs| && pos < r.value.1 <= |ws|
  {
    if pos == |ws| then None
    else if WordToBits(ws[pos]) == 0 then Some((Values(vs), pos + 1))
    else DecodeVars(vs, MaskSelection(vs, WordToBits(ws[pos])), ws, pos + 1)
  }

  /** The words `UpdateLocal` queues: header, compressed position, heading. */
  function PositionPacket(peerId: Word, position: CompressedVector3, heading: Float32): (ws: seq<Word>)
    ensures |ws| == 6
  {
    HeaderWords(POSITION_UPDATE, peerId) + Vector3Words(position) + [FloatToWord(heading)]
  }

  /** What the client `Initialize` reads: the compressed position, the heading and
      every variable's value, with the position after the last word read. */
  datatype Snapshot = Snapshot(position: CompressedVector3, heading: Float32, values: seq<seq<Word>>, end: nat)

  /** The layout the client `Initialize` expects: the three position words, the
      heading, then every variable's payload in list order. */
  function SnapshotWords(position: CompressedVector3, heading: Float32, vs: seq<FitState>): seq<Word>
  {
    Vector3Words(position) + [FloatToWord(heading)] + EncodeVars(vs, AllSelection(|vs|))
  }

  /** What the client `Initialize` reads at position `pos` of `ws`: a compressed
      position, a heading, then every variable in list order. */
  function DecodeSnapshot(vs: seq<FitState>, ws: seq<Word>, pos: nat): (r: Option<Snapshot>)
    requires pos <= |ws|
    ensures r.Some? ==> |r.value.values| == |vs| && pos + 4 <= r.value.end <= |ws|
    ensures r.Some? ==> r.value.position == CompressedVector3(ws[pos], ws[pos + 1], ws[pos + 2])
  {
    if |ws| < pos + 4 then None
    else
      var vars := DecodeVars(vs, AllSelection(|vs|), ws, pos + 4);
      if vars.None? then None
      else Some(Snapshot(CompressedVector3(ws[pos], ws[pos + 1], ws[pos + 2]), WordToFloat(ws[pos + 3]), vars.value.0, vars.value.1))
  }

  // ---------------------------------------------------------------------------
  // The dirty mask

  /** `x` and `b` share at least one set bit. */
  predicate Meets(x: Bits, b: Bits)
  {
    x & b != 0
  }

  // The bit-vector facts live in small lemmas of their own: the recursive
  // lemmas below only combine them, which keeps the solver's work small.

  lemma {:induction false} StepMeets(vs: seq<FitState>, b: Bits)
    requires vs != []
    ensures Meets(MaskOf(vs), b) <==> Meets(MaskOf(vs[..|vs| - 1]), b) || Meets(Contribution(vs[|vs| - 1]), b)
  {
    MaskStep(vs);
    OrMeets(MaskOf(vs), MaskOf(vs[..|vs| - 1]), Contribution(vs[|vs| - 1]), b);
  }

  /** The mask loop's step: one more variable ORs in its contribution. */
  lemma {:induction false} MaskStep(vs: seq<FitState>)
    requires vs != []
    ensures MaskOf(vs) == MaskOf(vs[..|vs| - 1]) | Contribution(vs[|vs| - 1])
  {
  }

  /** The mask loop's step over a dirty variable: the mask so far ORs in its flag. */
  lemma {:induction false} MaskStepDirty(vs: seq<FitState>, i: nat, m: Bits)
    requires i < |vs| && m == MaskOf(vs[..i]) && vs[i].dirty
    ensures MaskOf(vs[..i + 1]) == m | vs[i].flag
  {
    MaskStep(vs[..i + 1]);
    assert vs[..i + 1][..i] == vs[..i];
  }

  /** The mask loop's step over a clean variable: the mask is unchanged. */
  lemma {:induction false} MaskStepClean(vs: seq<FitState>, i: nat, m: Bits)
    requires i < |vs| && m == MaskOf(vs[..i]) && !vs[i].dirty
    ensures MaskOf(vs[..i + 1]) == m
  {
    MaskStep(vs[..i + 1]);
    assert vs[..i + 1][..i] == vs[..i];
    OrZero(m);
  }

  lemma OrZero(x: Bits)
    ensures x | 0 == x
  {
  }

  lemma OrMeets(m: Bits, x: Bits, c: Bits, b: Bits)
    requires m == x | c
    ensures Meets(m, b) <==> Meets(x, b) || Meets(c, b)
  {
    AndDistributes(x, c, b);
    OrNonZero(x & b, c & b);
  }

  lemma AndDistributes(x: Bits, c: Bits, b: Bits)
    ensures (x | c) & b == (x & b) | (c & b)
  {
  }

  lemma OrNonZero(x: Bits, c: Bits)
    ensures x | c != 0 <==> x != 0 || c != 0
  {
  }

  lemma ContributionMeets(v: FitState, b: Bits)
    ensures Meets(Contribution(v), b) <==> v.dirty && Meets(v.flag, b)
  {
  }

  /** A dirty variable's flag bits all reach the mask. */
  lemma {:induction false} MaskCoversDirty(vs: seq<FitState>, i: nat, b: Bits)
    requires i < |vs| && vs[i].dirty && Meets(vs[i].flag, b)
    ensures Meets(MaskOf(vs), b)
  {
    StepMeets(vs, b);
    if i == |vs| - 1 {
      ContributionMeets(vs[i], b);
    } else {
      var init := vs[..|vs| - 1];
      assert init[i] == vs[i];
      MaskCoversDirty(init, i, b);
    }
  }

  /** No bit reaches the mask unless some dirty variable's flag carries it. */
  lemma {:induction false} MaskWithinDirty(vs: seq<FitState>, b: Bits)
    requires forall i :: 0 <= i < |vs| && vs[i].dirty ==> !Meets(vs[i].flag, b)
    ensures !Meets(MaskOf(vs), b)
  {
    if vs == [] {
      assert MaskOf(vs) & b == 0;
    } else {
      var init := vs[..|vs| - 1];
      forall i | 0 <= i < |init| && init[i].dirty
        ensures !Meets(init[i].flag, b)
      {
        assert init[i] == vs[i];
      }
      MaskWithinDirty(init, b);
      StepMeets(vs, b);
      ContributionMeets(vs[|vs| - 1], b);
    }
  }

  /** Bit by bit, the mask is the union of the dirty variables' flags: it meets
      `b` exactly when some dirty variable's flag does. */
  lemma {:induction false} MaskMeets(vs: seq<FitState>, b: Bits)
    ensures Meets(MaskOf(vs), b) <==> exists i :: 0 <= i < |vs| && vs[i].dirty && Meets(vs[i].flag, b)
  {
    if i :| 0 <= i < |vs| && vs[i].dirty && Meets(vs[i].flag, b) {
      MaskCoversDirty(vs, i, b);
    } else {
      MaskWithinDirty(vs, b);
    }
  }

  /** A word meets the all-ones mask exactly when it is not zero. */
  lemma MeetsAllBits(x: Bits)
    ensures Meets(x, 0xFFFF_FFFF) <==> x != 0
  {
    assert x & 0xFFFF_FFFF == x;
  }

  /** Whatever the flags, a list with no dirty variable has a zero mask. */
  lemma {:induction false} MaskZeroWhenClean(vs: seq<FitState>)
    requires forall i :: 0 <= i < |vs| ==> !vs[i].dirty
    ensures MaskOf(vs) == 0
  {
    MaskWithinDirty(vs, 0xFFFF_FFFF);
    MeetsAllBits(MaskOf(vs));
  }

  /** With no flag equal to zero, the mask is zero exactly when nothing is dirty. */
  lemma {:induction false} MaskZeroIffClean(vs: seq<FitState>)
    requires forall i :: 0 <= i < |vs| ==> vs[i].flag != 0
    ensures MaskOf(vs) == 0 <==> forall i :: 0 <= i < |vs| ==> !vs[i].dirty
  {
    MaskMeets(vs, 0xFFFF_FFFF);
    forall i | 0 <= i < |vs|
      ensures Meets(vs[i].flag, 0xFFFF_FFFF)
    {
      MeetsAllBits(vs[i].flag);
    }
    MeetsAllBits(MaskOf(vs));
  }

  lemma SingleBitsDisjoint(f: Bits, g: Bits)
    requires SingleBit(f) && SingleBit(g) && f != g
    ensures !Meets(f, g)
  {
  }

  lemma SingleBitSelected(m: Bits, f: Bits)
    requires SingleBit(f)
    ensures Selected(m, f) <==> Meets(m, f)
    ensures Meets(f, f)
  {
  }

  /** With well-formed flags, the receiver's test picks out exactly the
      variables that were dirty on the sender. */
  lemma {:induction false} MaskSelectsDirty(vs: seq<FitState>, j: nat)
    requires FlagsWellFormed(vs) && j < |vs|
    ensures Selected(MaskOf(vs), vs[j].flag) <==> vs[j].dirty
  {
    var f := vs[j].flag;
    MaskMeets(vs, f);
    SingleBitSelected(MaskOf(vs), f);
    if Selected(MaskOf(vs), f) {
      var i :| 0 <= i < |vs| && vs[i].dirty && Meets(vs[i].flag, f);
      if i != j {
        SingleBitsDisjoint(vs[i].flag, f);
      }
    }
  }

  lemma {:induction false} MaskSelectionIsDirtySelection(send: seq<FitState>, recv: seq<FitState>)
    requires SameLayout(send, recv) && FlagsWellFormed(send)
    ensures MaskSelection(recv, MaskOf(send)) == DirtySelection(send)
  {
    forall j | 0 <= j < |send|
      ensures Selected(MaskOf(send), recv[j].flag) == send[j].dirty
    {
      MaskSelectsDirty(send, j);
    }
  }

  // ---------------------------------------------------------------------------
  // Payload encoding and decoding

  /** Appending one more piece, as the writer loops do. */
  lemma {:induction false} ConcatSnoc(ps: seq<seq<Word>>, i: nat)
    requires i < |ps|
    ensures Concat(ps[..i + 1]) == Concat(ps[..i]) + ps[i]
  {
    if i == 0 {
      assert ps[..1] == [ps[0]];
      assert ps[..1][1..] == [];
    } else {
      var a := ps[..i + 1];
      assert a[0] == ps[0];
      assert a[1..] == ps[1..][..i];
      assert ps[..i][1..] == ps[1..][..i - 1];
      ConcatSnoc(ps[1..], i - 1);
    }
  }

  /** The writer loops' step: a buffer that held `prefix` and the first `i`
      pieces holds the first `i + 1` once piece `i` is appended. */
  lemma {:induction false} AppendPiece(prefix: seq<Word>, ps: seq<seq<Word>>, i: nat, before: seq<Word>, after: seq<Word>)
    requires i < |ps| && before == prefix + Concat(ps[..i]) && after == before + ps[i]
    ensures after == prefix + Concat(ps[..i + 1])
  {
    ConcatSnoc(ps, i);
  }

  lemma {:induction false} EncodeVarsCons(vs: seq<FitState>, sel: seq<bool>)
    requires |sel| == |vs| && vs != []
    ensures EncodeVars(vs, sel) == Piece(vs[0], sel[0]) + EncodeVars(vs[1..], sel[1..])
  {
    assert Pieces(vs, sel)[1..] == Pieces(vs[1..], sel[1..]);
  }

  lemma {:induction false} MergeCons(send: seq<FitState>, recv: seq<FitState>, sel: seq<bool>)
    requires |send| == |recv| == |sel| && send != []
    ensures Merge(send, recv, sel) ==
      [if sel[0] then send[0].value else recv[0].value] + Merge(send[1..], recv[1..], sel[1..])
  {
    assert Merge(send, recv, sel)[1..] == Merge(send[1..], recv[1..], sel[1..]);
  }

  /** `x + y` standing at `a` means `x` stands at `a` and `y` right after it. */
  lemma {:induction false} SplitSlice(ws: seq<Word>, a: nat, x: seq<Word>, y: seq<Word>)
    requires At(ws, a, x + y)
    ensures At(ws, a, x) && At(ws, a + |x|, y)
  {
    assert ws[a..a + |x|] == (x + y)[..|x|];
    assert ws[a + |x|..a + |x| + |y|] == (x + y)[|x|..];
  }

  /** One variable's round trip: its piece, where it stands, is read back by a
      receiver variable of the same kind. */
  lemma {:induction false} SlotRoundTrip(send: FitState, recv: FitState, selected: bool, ws: seq<Word>, pos: nat)
    requires send.kind == recv.kind
    requires At(ws, pos, Piece(send, selected))
    ensures ReadSlot(recv, selected, ws, pos) ==
      Some((if selected then send.value else recv.value, pos + |Piece(send, selected)|))
  {
    if selected {
      ValueRoundTrip(send.kind, send.value, ws, pos);
    }
  }

  /** Decoding is the head variable's slot followed by the rest. */
  lemma {:induction false} DecodeVarsCons(vs: seq<FitState>, sel: seq<bool>, ws: seq<Word>, pos: nat, h: seq<Word>, mid: nat, t: seq<seq<Word>>, end: nat)
    requires |sel| == |vs| && vs != [] && pos <= |ws|
    requires ReadSlot(vs[0], sel[0], ws, pos) == Some((h, mid))
    requires mid <= |ws| && DecodeVars(vs[1..], sel[1..], ws, mid) == Some((t, end))
    ensures DecodeVars(vs, sel, ws, pos) == Some(([h] + t, end))
  {
  }

  /** The inductive step of `DecodeEncodeVars`, kept apart so that each proof
      stays small: the head piece and the decoded rest combine. */
  lemma {:induction false} DecodeEncodeStep(send: seq<FitState>, recv: seq<FitState>, sel: seq<bool>, ws: seq<Word>, pos: nat, mid: nat, end: nat)
    requires SameLayout(send, recv) && |sel| == |send| && send != []
    requires At(ws, pos, Piece(send[0], sel[0])) && mid == pos + |Piece(send[0], sel[0])|
    requires mid <= |ws| && DecodeVars(recv[1..], sel[1..], ws, mid) == Some((Merge(send[1..], recv[1..], sel[1..]), end))
    ensures DecodeVars(recv, sel, ws, pos) == Some((Merge(send, recv, sel), end))
  {
    SlotRoundTrip(send[0], recv[0], sel[0], ws, pos);
    DecodeVarsCons(recv, sel, ws, pos, if sel[0] then send[0].value else recv[0].value,
      mid, Merge(send[1..], recv[1..], sel[1..]), end);
    MergeCons(send, recv, sel);
  }

  /** Decoding what was encoded: wherever the payload stands in `ws`, a receiver
      with the same layout reads back the selected values, keeps the rest, and
      stops exactly where the payload ends. */
  lemma {:induction false} DecodeEncodeVars(send: seq<FitState>, recv: seq<FitState>, sel: seq<bool>, ws: seq<Word>, pos: nat)
    requires SameLayout(send, recv) && |sel| == |send|
    requires At(ws, pos, EncodeVars(send, sel))
    ensures DecodeVars(recv, sel, ws, pos) == Some((Merge(send, recv, sel), pos + |EncodeVars(send, sel)|))
  {
    if send == [] {
      assert Merge(send, recv, sel) == [];
      assert Pieces(send, sel) == [];
    } else {
      var p := Piece(send[0], sel[0]);
      var t := EncodeVars(send[1..], sel[1..]);
      EncodeVarsCons(send, sel);
      SplitSlice(ws, pos, p, t);
      DecodeEncodeVars(send[1..], recv[1..], sel[1..], ws, pos + |p|);
      DecodeEncodeStep(send, recv, sel, ws, pos, pos + |p|, pos + |p| + |t|);
    }
  }

  /** A zero mask: the receiver reads the mask word and nothing else, and every
      variable keeps its value. */
  lemma {:induction false} ApplyZeroMask(vs: seq<FitState>, ws: seq<Word>, pos: nat)
    requires pos < |ws| && WordToBits(ws[pos]) == 0
    ensures ApplyUpdate(vs, ws, pos) == Some((Values(vs), pos + 1))
  {
  }

  /** Whatever the mask, a variable it does not select keeps its value. */
  lemma {:induction false} ApplyKeepsUnselected(vs: seq<FitState>, ws: seq<Word>, pos: nat, i: nat)
    requires pos <= |ws| && ApplyUpdate(vs, ws, pos).Some?
    requires i < |vs| && !Selected(WordToBits(ws[pos]), vs[i].flag)
    ensures ApplyUpdate(vs, ws, pos).value.0[i] == vs[i].value
  {
  }

  /** Taking one decoded variable off the front: where its words end, and the
      decoding of the rest from there. */
  lemma {:induction false} DecodeVarsUncons(vs: seq<FitState>, sel: seq<bool>, ws: seq<Word>, pos: nat) returns (mid: nat)
    requires |sel| == |vs| && vs != [] && pos <= |ws| && DecodeVars(vs, sel, ws, pos).Some?
    ensures pos <= mid <= |ws|
    ensures ReadSlot(vs[0], sel[0], ws, pos) == Some((DecodeVars(vs, sel, ws, pos).value.0[0], mid))
    ensures DecodeVars(vs[1..], sel[1..], ws, mid) ==
      Some((DecodeVars(vs, sel, ws, pos).value.0[1..], DecodeVars(vs, sel, ws, pos).value.1))
  {
    var head := ReadSlot(vs[0], sel[0], ws, pos);
    mid := head.value.1;
    var tail := DecodeVars(vs[1..], sel[1..], ws, mid);
    assert ([head.value.0] + tail.value.0)[1..] == tail.value.0;
  }

  /** A non-zero mask word: the receiver reads exactly the variables it selects. */
  lemma {:induction false} ApplyNonZeroMask(vs: seq<FitState>, ws: seq<Word>, pos: nat, mask: Bits)
    requires pos < |ws| && ws[pos] == BitsToWord(mask) && mask != 0
    ensures ApplyUpdate(vs, ws, pos) == DecodeVars(vs, MaskSelection(vs, mask), ws, pos + 1)
  {
    BitsRoundTrip(mask);
  }

  /** Once a delta packet has gone out, the variables keep their values and the
      next mask is zero: nothing is sent again until some variable is written. */
  lemma {:induction false} CleanedMaskZero(vs: seq<FitState>)
    ensures Values(Cleaned(vs)) == Values(vs)
    ensures MaskOf(Cleaned(vs)) == 0
  {
    if vs != [] {
      var init := vs[..|vs| - 1];
      assert Cleaned(vs)[..|vs| - 1] == Cleaned(init);
      CleanedMaskZero(init);
      OrZero(0);
    }
  }

  /** The mask a sender with some dirty variable writes makes the receiver read
      exactly the sender's dirty variables, here from the payload that follows,
      and stop where that payload ends. */
  lemma {:induction false} ApplyDirtyMask(send: seq<FitState>, recv: seq<FitState>, ws: seq<Word>, pos: nat)
    requires SameLayout(send, recv) && FlagsWellFormed(send)
    requires AnyDirty(send)
    requires pos < |ws| && ws[pos] == BitsToWord(MaskOf(send))
    requires At(ws, pos + 1, EncodeVars(send, DirtySelection(send)))
    ensures ApplyUpdate(recv, ws, pos) ==
      Some((Merge(send, recv, DirtySelection(send)), pos + 1 + |EncodeVars(send, DirtySelection(send))|))
  {
    DirtyMaskSelects(send, recv, ws, pos);
    DirtyPayloadRoundTrip(send, recv, ws, pos);
  }

  /** `DecodeEncodeVars` for the payload of a delta packet, which follows the
      mask word at `pos`. */
  lemma {:induction false} DirtyPayloadRoundTrip(send: seq<FitState>, recv: seq<FitState>, ws: seq<Word>, pos: nat)
    requires SameLayout(send, recv)
    requires pos < |ws| && At(ws, pos + 1, EncodeVars(send, DirtySelection(send)))
    ensures DecodeVars(recv, DirtySelection(send), ws, pos + 1) ==
      Some((Merge(send, recv, DirtySelection(send)), pos + 1 + |EncodeVars(send, DirtySelection(send))|))
  {
    DecodeEncodeVars(send, recv, DirtySelection(send), ws, pos + 1);
  }

  /** The mask of a sender with some dirty variable makes the receiver read, just
      after the mask word, exactly the variables that were dirty on the sender. */
  lemma {:induction false} DirtyMaskSelects(send: seq<FitState>, recv: seq<FitState>, ws: seq<Word>, pos: nat)
    requires SameLayout(send, recv) && FlagsWellFormed(send)
    requires AnyDirty(send)
    requires pos < |ws| && ws[pos] == BitsToWord(MaskOf(send))
    ensures ApplyUpdate(recv, ws, pos) == DecodeVars(recv, DirtySelection(send), ws, pos + 1)
  {
    DirtyMaskNonZero(send);
    ApplyNonZeroMask(recv, ws, pos, MaskOf(send));
    MaskSelectionIsDirtySelection(send, recv);
  }

  /** With well-formed flags, a dirty variable makes the mask non-zero. */
  lemma {:induction false} DirtyMaskNonZero(vs: seq<FitState>)
    requires FlagsWellFormed(vs) && AnyDirty(vs)
    ensures MaskOf(vs) != 0
  {
    assert forall i :: 0 <= i < |vs| ==> SingleBit(vs[i].flag);
    MaskZeroIffClean(vs);
  }

  /** The layout of a sync packet: the header, then the mask word, then the payload. */
  lemma {:induction false} SyncPacketLayout(peerId: Word, vs: seq<FitState>, ws: seq<Word>, pos: nat)
    requires At(ws, pos, SyncPacket(peerId, vs))
    ensures At(ws, pos, HeaderWords(SYNC_UPDATE, peerId))
    ensures pos + 2 < |ws| && ws[pos + 2] == BitsToWord(MaskOf(vs))
    ensures At(ws, pos + 3, EncodeVars(vs, DirtySelection(vs)))
    ensures |SyncPacket(peerId, vs)| == 3 + |EncodeVars(vs, DirtySelection(vs))|
  {
    var header := HeaderWords(SYNC_UPDATE, peerId);
    var payload := EncodeVars(vs, DirtySelection(vs));
    assert SyncPacket(peerId, vs) == header + ([BitsToWord(MaskOf(vs))] + payload);
    SplitSlice(ws, pos, header, [BitsToWord(MaskOf(vs))] + payload);
    SplitSlice(ws, pos + 2, [BitsToWord(MaskOf(vs))], payload);
    assert ws[pos + 2] == ws[pos + 2..pos + 3][0];
  }

  /** The header of a sync packet, wherever the packet stands in `ws`, reads back
      as the sync opcode and the id it was written with. */
  lemma {:induction false} SyncHeaderRoundTrip(peerId: Word, send: seq<FitState>, ws: seq<Word>, pos: nat)
    requires At(ws, pos, SyncPacket(peerId, send))
    ensures DecodeHeader(ws, pos) == Some(PacketHeader(peerId, SYNC_UPDATE))
  {
    SyncPacketLayout(peerId, send, ws, pos);
    HeaderRoundTrip(SYNC_UPDATE, peerId, ws, pos);
  }

  /** The delta round trip: wherever a sync packet stands in `ws`, a receiver with
      the same layout and well-formed flags, reading just after the header, gives
      every variable that was dirty on the sender the sender's value, leaves every
      other variable as it was, and stops exactly at the end of the packet. */
  lemma {:induction false} SyncRoundTrip(peerId: Word, send: seq<FitState>, recv: seq<FitState>, ws: seq<Word>, pos: nat)
    requires SameLayout(send, recv) && FlagsWellFormed(send)
    requires AnyDirty(send)
    requires At(ws, pos, SyncPacket(peerId, send))
    ensures ApplyUpdate(recv, ws, pos + 2).Some?
    ensures ApplyUpdate(recv, ws, pos + 2).value.0 == Merge(send, recv, DirtySelection(send))
    ensures ApplyUpdate(recv, ws, pos + 2).value.1 == pos + 3 + |EncodeVars(send, DirtySelection(send))|
  {
    SyncPacketLayout(peerId, send, ws, pos);
    ApplyDirtyMask(send, recv, ws, pos + 2);
  }

  /** The layout of a snapshot: three position words, the heading, the payload. */
  lemma {:induction false} SnapshotLayout(position: CompressedVector3, heading: Float32, vs: seq<FitState>, ws: seq<Word>, pos: nat)
    requires At(ws, pos, SnapshotWords(position, heading, vs))
    ensures pos + 4 <= |ws|
    ensures CompressedVector3(ws[pos], ws[pos + 1], ws[pos + 2]) == position
    ensures WordToFloat(ws[pos + 3]) == heading
    ensures At(ws, pos + 4, EncodeVars(vs, AllSelection(|vs|)))
    ensures |SnapshotWords(position, heading, vs)| == 4 + |EncodeVars(vs, AllSelection(|vs|))|
  {
    var front := Vector3Words(position) + [FloatToWord(heading)];
    SplitSlice(ws, pos, front, EncodeVars(vs, AllSelection(|vs|)));
    assert ws[pos..pos + 4] == front;
    assert ws[pos] == front[0] && ws[pos + 1] == front[1] && ws[pos + 2] == front[2] && ws[pos + 3] == front[3];
  }

  /** The snapshot round trip: wherever a snapshot stands in `ws`, the client
      `Initialize` of an entity with the same layout reads back the position, the
      heading and every variable's value, and stops exactly at its end. */
  lemma {:induction false} SnapshotRoundTrip(position: CompressedVector3, heading: Float32, send: seq<FitState>, recv: seq<FitState>, ws: seq<Word>, pos: nat)
    requires SameLayout(send, recv)
    requires At(ws, pos, SnapshotWords(position, heading, send))
    ensures DecodeSnapshot(recv, ws, pos).Some?
    ensures DecodeSnapshot(recv, ws, pos).value ==
      Snapshot(position, heading, Values(send), pos + |SnapshotWords(position, heading, send)|)
  {
    SnapshotLayout(position, heading, send, ws, pos);
    assert AllSelection(|recv|) == AllSelection(|send|);
    DecodeEncodeVars(send, recv, AllSelection(|send|), ws, pos + 4);
    assert Merge(send, recv, AllSelection(|send|)) == Values(send);
  }
}
