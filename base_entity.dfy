/** `BaseEntity`: a replicated object. On the server it batches the dirty
    synchronized variables into delta packets behind a rate gate; on a client it
    applies those deltas, reads a full snapshot when it is spawned, and, once it
    owns the entity, sends position updates. */
module Entities {
  import opened Wire
  import opened Buffers
  import opened SyncVars
  import opened Replication
  import opened NetworkExtensions

  /** `m_updateRate`, and the delay `UpdateLocal` waits after a position update. */
  const UPDATE_RATE: real := 0.1

  class BaseEntity {
    var isServer: bool
    var isLocal: bool
    var id: Word
    var peer: Peer
    /** `m_buffer`, reused for every outgoing packet. */
    const buffer: BitBuffer
    var nextUpdate: real
    const updateRate: real
    /** `m_syncs`: the synchronized variables in registration order. */
    const syncs: seq<SyncVar>
    var newPos: Option<Vector4>
    /** The root transform's position and its rotation about the vertical axis. */
    var position: Vector3
    var heading: Float32
    /** The renderer's own rotation about the vertical axis, which `UpdateLocal`
        sends; only the Unity lifecycle turns it. */
    var rendererHeading: Float32

    ghost predicate VarsValid()
      reads syncs
    {
      forall i :: 0 <= i < |syncs| ==> syncs[i].Valid()
    }

    /** No variable is registered twice. */
    ghost predicate Distinct()
    {
      forall i, j :: 0 <= i < j < |syncs| ==> syncs[i] != syncs[j]
    }

    ghost predicate Valid()
      reads buffer, syncs
    {
      buffer.Valid() && VarsValid() && Distinct()
    }

    /** The variables as the replication functions see them. */
    ghost function States(): seq<FitState>
      reads syncs
      requires VarsValid()
    {
      seq(|syncs|, i reads syncs requires 0 <= i < |syncs| && syncs[i].Valid() => syncs[i].State())
    }

    constructor (syncs: seq<SyncVar>)
      requires forall i :: 0 <= i < |syncs| ==> syncs[i].Valid()
      requires forall i, j :: 0 <= i < j < |syncs| ==> syncs[i] != syncs[j]
      ensures Valid() && fresh(buffer)
      ensures this.syncs == syncs && buffer.words == []
      ensures !isServer && !isLocal && !peer.isSet && newPos.None?
      ensures nextUpdate == 0.0 && updateRate == UPDATE_RATE
    {
      this.syncs := syncs;
      buffer := new BitBuffer(128);
      updateRate := UPDATE_RATE;
      nextUpdate := 0.0;
      isServer := false;
      isLocal := false;
      id := 0;
      peer := Peer(0, false);
      newPos := None;
      position := Vector3(0, 0, 0);
      heading := 0;
      rendererHeading := 0;
    }

    /** The rate gate: a connected peer and the next update time passed. */
    predicate CanUpdate(now: real)
      reads this
    {
      peer.isSet && now > nextUpdate
    }

    /** The server `Initialize`: takes the peer and id, and places the entity at
        `randomPos` (the `Vector4` loses its fourth component). */
    method InitializeServer(peer: Peer, id: Word, randomPos: Vector4)
      modifies this`peer, this`id, this`position, this`isServer
      ensures this.peer == peer && this.id == id && isServer
      ensures position == Vector3(randomPos.x, randomPos.y, randomPos.z)
    {
      this.peer := peer;
      this.id := id;
      position := Vector3(randomPos.x, randomPos.y, randomPos.z);
      isServer := true;
    }

    /** `AssumeOwnership`: from now on this client drives the entity. */
    method AssumeOwnership()
      modifies this`isLocal
      ensures isLocal
    {
      isLocal := true;
    }

    /** `UpdateSyncVars`: behind the gate, advances the next update time, ORs the
        flags of the dirty variables into a mask and, unless the mask is zero,
        rewrites the buffer with a sync packet, clears every dirty flag and
        hands the server's queue a command that broadcasts the packet reliably
        on channel 0; `queued` is that command, if any. */
    method UpdateSyncVars(now: real) returns (queued: Option<Command>)
      requires Valid()
      modifies this`nextUpdate, buffer, syncs
      ensures Valid()
      ensures !(isServer && old(CanUpdate(now))) ==>
        nextUpdate == old(nextUpdate) && queued.None? && unchanged(buffer) && unchanged(syncs)
      ensures isServer && old(CanUpdate(now)) ==> nextUpdate == old(nextUpdate) + updateRate
      ensures isServer && old(CanUpdate(now)) && MaskOf(old(States())) == 0 ==>
        queued.None? && unchanged(buffer) && unchanged(syncs)
      ensures isServer && old(CanUpdate(now)) && MaskOf(old(States())) != 0 ==>
        buffer.words == SyncPacket(peer.id, old(States())) && buffer.cursor == 0 &&
        queued == Some(Command(BroadcastAll, buffer.words, Reliable, 0)) &&
        States() == Cleaned(old(States()))
    {
      queued := None;
      if isServer && CanUpdate(now) {
        nextUpdate := nextUpdate + updateRate;
        queued := BroadcastDirty();
      }
    }

    /** The part of `UpdateSyncVars` behind the gate: ORs the flags of the dirty
        variables into a mask and, unless the mask is zero, rewrites the buffer
        with a sync packet, clears every dirty flag and gives back the command
        that broadcasts it reliably on channel 0. */
    method BroadcastDirty() returns (queued: Option<Command>)
      requires Valid()
      modifies buffer, syncs
      ensures Valid()
      ensures MaskOf(old(States())) == 0 ==> queued.None? && unchanged(buffer) && unchanged(syncs)
      ensures MaskOf(old(States())) != 0 ==>
        buffer.words == SyncPacket(peer.id, old(States())) && buffer.cursor == 0 &&
        queued == Some(Command(BroadcastAll, buffer.words, Reliable, 0)) &&
        States() == Cleaned(old(States()))
    {
      queued := None;
      var dirtyBits := DirtyMask();
      if dirtyBits != 0 {
        WriteSyncPacket(dirtyBits);
        queued := Some(Command(BroadcastAll, buffer.words, Reliable, 0));
      }
    }

    /** The packet `UpdateSyncVars` builds once the mask is known to be non-zero:
        the header, the mask, then the dirty payloads, which leaves every
        variable clean. */
    method WriteSyncPacket(dirtyBits: Bits)
      requires Valid() && dirtyBits == MaskOf(States())
      modifies buffer, syncs
      ensures Valid()
      ensures buffer.words == SyncPacket(peer.id, old(States())) && buffer.cursor == 0
      ensures States() == Cleaned(old(States()))
    {
      ghost var S := States();
      var b := AddEntityHeader(buffer, peer, SYNC_UPDATE, true);
      b := buffer.AddInt(dirtyBits);
      ghost var header := buffer.words;
      assert header == HeaderWords(SYNC_UPDATE, peer.id) + [BitsToWord(MaskOf(S))];
      assert States() == S;
      PackDirtySyncVars();
      assert buffer.words == header + EncodeVars(S, DirtySelection(S));
    }

    /** The first loop of `UpdateSyncVars`: the OR of the flags of the dirty
        variables. */
    method DirtyMask() returns (dirtyBits: Bits)
      requires VarsValid()
      ensures dirtyBits == MaskOf(States())
    {
      ghost var S := States();
      dirtyBits := 0;
      for i := 0 to |syncs|
        invariant dirtyBits == MaskOf(S[..i])
      {
        assert syncs[i].State() == S[i];
        if syncs[i].dirty {
          MaskStepDirty(S, i, dirtyBits);
          dirtyBits := dirtyBits | syncs[i].bitFlag;
        } else {
          MaskStepClean(S, i, dirtyBits);
        }
      }
      assert S[..|syncs|] == S;
    }

    /** The second loop of `UpdateSyncVars`: appends the payload of every dirty
        variable in list order and clears its dirty flag. */
    method PackDirtySyncVars()
      requires Valid()
      modifies buffer`words, syncs
      ensures Valid()
      ensures buffer.words == old(buffer.words) + EncodeVars(old(States()), DirtySelection(old(States())))
      ensures States() == Cleaned(old(States()))
    {
      ghost var S := States();
      ghost var ps := Pieces(S, DirtySelection(S));
      assert old(buffer.words) + Concat(ps[..0]) == old(buffer.words);
      for i := 0 to |syncs|
        invariant Packing(S, old(buffer.words), i)
      {
        PackSlotAt(S, old(buffer.words), i);
      }
      assert ps[..|syncs|] == ps;
      assert forall j :: 0 <= j < |syncs| ==> syncs[j].State() == S[j].(dirty := false);
    }

    /** Where the loop of `PackDirtySyncVars` stands before variable `i`: the
        buffer holds the payloads of the dirty variables before `i`, those have
        been cleared, and every value is as it was. */
    ghost predicate Packing(S: seq<FitState>, base: seq<Word>, i: nat)
      reads buffer, syncs
    {
      Valid() && |S| == |syncs| && i <= |syncs| &&
      buffer.words == base + Concat(Pieces(S, DirtySelection(S))[..i]) &&
      forall j :: 0 <= j < |syncs| ==>
        syncs[j].kind == S[j].kind && syncs[j].bitFlag == S[j].flag &&
        syncs[j].value == S[j].value && syncs[j].Valid() &&
        syncs[j].dirty == (S[j].dirty && i <= j)
    }

    /** One turn of the loop of `PackDirtySyncVars`: variable `i`, when dirty,
        appends its payload and is cleared. */
    method PackSlotAt(ghost S: seq<FitState>, ghost base: seq<Word>, i: nat)
      requires Packing(S, base, i) && i < |syncs|
      modifies buffer`words, syncs[i]
      ensures Packing(S, base, i + 1)
    {
      ghost var ps := Pieces(S, DirtySelection(S));
      ghost var before := buffer.words;
      if syncs[i].dirty {
        assert ps[i] == EncodeValue(syncs[i].kind, syncs[i].value);
        var _ := AddSyncVar(buffer, syncs[i], true);
      } else {
        assert ps[i] == [];
      }
      AppendPiece(base, ps, i, before, buffer.words);
    }

    /** `AddAllSyncData`: appends every variable's payload in list order, leaving
        every variable, its dirty flag included, as it was. */
    method AddAllSyncData(buf: BitBuffer) returns (r: BitBuffer)
      requires Valid() && buf.Valid()
      modifies buf`words, syncs
      ensures r == buf && Valid() && buf.Valid()
      ensures buf.words == old(buf.words) + EncodeVars(old(States()), AllSelection(|syncs|))
      ensures States() == old(States())
    {
      ghost var S := States();
      ghost var ps := Pieces(S, AllSelection(|syncs|));
      for i := 0 to |syncs|
        invariant buf.Valid()
        invariant buf.words == old(buf.words) + Concat(ps[..i])
        invariant VarsValid() && States() == S
      {
        ghost var before := buf.words;
        assert syncs[i].State() == S[i];
        assert ps[i] == EncodeValue(syncs[i].kind, syncs[i].value);
        var _ := AddSyncVar(buf, syncs[i], false);
        AppendPiece(old(buf.words), ps, i, before, buf.words);
      }
      assert ps[..|syncs|] == ps;
      r := buf;
    }

    /** `ProcessSyncUpdate`, called with the cursor just after the header: reads
        the mask and, unless it is zero, every variable whose flag it covers, in
        list order. Received values leave the dirty flags alone. */
    method ProcessSyncUpdate(buf: BitBuffer)
      requires Valid() && buf.Valid()
      requires ApplyUpdate(States(), buf.words, buf.cursor).Some?
      modifies buf`cursor, syncs
      ensures Valid() && buf.Valid()
      ensures var (vals, end) := old(ApplyUpdate(States(), buf.words, buf.cursor)).value;
        buf.cursor == end &&
        forall i :: 0 <= i < |syncs| ==> syncs[i].value == vals[i] && syncs[i].dirty == old(syncs[i].dirty)
    {
      var dirtyBits := buf.ReadInt();
      if dirtyBits == 0 {
        return;
      }
      ReadMaskedSyncVars(buf, dirtyBits);
    }

    /** The loop of `ProcessSyncUpdate`: every variable the mask selects reads
        its value at the cursor, in list order. */
    method ReadMaskedSyncVars(buf: BitBuffer, dirtyBits: Bits)
      requires Valid() && buf.Valid()
      requires DecodeVars(States(), MaskSelection(States(), dirtyBits), buf.words, buf.cursor).Some?
      modifies buf`cursor, syncs
      ensures Valid() && buf.Valid()
      ensures var (vals, end) := old(DecodeVars(States(), MaskSelection(States(), dirtyBits), buf.words, buf.cursor)).value;
        buf.cursor == end &&
        forall i :: 0 <= i < |syncs| ==> syncs[i].value == vals[i] && syncs[i].dirty == old(syncs[i].dirty)
    {
      ghost var S := States();
      ghost var ws := buf.words;
      ghost var sel := MaskSelection(S, dirtyBits);
      ghost var result := DecodeVars(S, sel, ws, buf.cursor).value;
      assert S[0..] == S && sel[0..] == sel && result.0[0..] == result.0;
      for i := 0 to |syncs|
        invariant Reading(buf, S, sel, ws, result, i)
      {
        ReadSlotAt(buf, Selected(dirtyBits, syncs[i].bitFlag), S, sel, ws, result, i);
      }
    }

    /** The client `Initialize`: takes the id and peer, then reads the snapshot
        the server wrote for the entity. */
    method InitializeClient(id: Word, peer: Peer, buf: BitBuffer, range: BoundedRanges)
      requires Valid() && buf.Valid()
      requires DecodeSnapshot(States(), buf.words, buf.cursor).Some?
      modifies this`id, this`peer, this`position, this`heading, buf`cursor, syncs
      ensures Valid() && buf.Valid()
      ensures this.id == id && this.peer == peer
      ensures var s := old(DecodeSnapshot(States(), buf.words, buf.cursor)).value;
        position == Decompress(range, s.position) && heading == s.heading && buf.cursor == s.end &&
        forall i :: 0 <= i < |syncs| ==> syncs[i].value == s.values[i] && syncs[i].dirty == old(syncs[i].dirty)
    {
      this.peer := peer;
      this.id := id;
      ReadSnapshot(buf, range);
    }

    /** The body of the client `Initialize` after the id and peer: the position
        and the heading, then every variable in list order. */
    method ReadSnapshot(buf: BitBuffer, range: BoundedRanges)
      requires Valid() && buf.Valid()
      requires DecodeSnapshot(States(), buf.words, buf.cursor).Some?
      modifies this`position, this`heading, buf`cursor, syncs
      ensures Valid() && buf.Valid()
      ensures var s := old(DecodeSnapshot(States(), buf.words, buf.cursor)).value;
        position == Decompress(range, s.position) && heading == s.heading && buf.cursor == s.end &&
        forall i :: 0 <= i < |syncs| ==> syncs[i].value == s.values[i] && syncs[i].dirty == old(syncs[i].dirty)
    {
      ghost var S, ws, start := States(), buf.words, buf.cursor;
      ghost var vars := DecodeVars(S, AllSelection(|S|), ws, start + 4).value;
      assert old(DecodeSnapshot(States(), buf.words, buf.cursor)).value ==
        Snapshot(CompressedVector3(ws[start], ws[start + 1], ws[start + 2]), WordToFloat(ws[start + 3]), vars.0, vars.1);
      var pos := ReadVector3(buf, range);
      var rot := ReadFloat(buf);
      position, heading := pos, rot;
      assert States() == S;
      ReadAllSyncVars(buf);
    }

    /** The loop of the client `Initialize`: every variable reads its value at
        the cursor, in list order. */
    method ReadAllSyncVars(buf: BitBuffer)
      requires Valid() && buf.Valid()
      requires DecodeVars(States(), AllSelection(|syncs|), buf.words, buf.cursor).Some?
      modifies buf`cursor, syncs
      ensures Valid() && buf.Valid()
      ensures var (vals, end) := old(DecodeVars(States(), AllSelection(|syncs|), buf.words, buf.cursor)).value;
        buf.cursor == end &&
        forall i :: 0 <= i < |syncs| ==> syncs[i].value == vals[i] && syncs[i].dirty == old(syncs[i].dirty)
      ensures unchanged(this)
    {
      ghost var S := States();
      ghost var ws := buf.words;
      ghost var sel := AllSelection(|syncs|);
      ghost var result := DecodeVars(S, sel, ws, buf.cursor).value;
      assert S[0..] == S && sel[0..] == sel && result.0[0..] == result.0;
      for i := 0 to |syncs|
        invariant Reading(buf, S, sel, ws, result, i)
      {
        ReadSlotAt(buf, true, S, sel, ws, result, i);
      }
    }

    /** Where a reading loop stands before variable `i`: the words are those it
        started on, the rest of them decode to the rest of `result`, the
        variables before `i` hold what was read and the others are untouched. */
    ghost predicate Reading(buf: BitBuffer, S: seq<FitState>, sel: seq<bool>, ws: seq<Word>,
                            result: (seq<seq<Word>>, nat), i: nat)
      reads buffer, buf, syncs
    {
      Valid() && buf.Valid() && buf.words == ws &&
      |S| == |sel| == |syncs| == |result.0| && i <= |syncs| &&
      DecodeVars(S[i..], sel[i..], ws, buf.cursor) == Some((result.0[i..], result.1)) &&
      forall j :: 0 <= j < |syncs| ==>
        syncs[j].kind == S[j].kind && syncs[j].bitFlag == S[j].flag &&
        syncs[j].dirty == S[j].dirty && syncs[j].Valid() &&
        syncs[j].value == if j < i then result.0[j] else S[j].value
    }

    /** One turn of a reading loop: variable `i` reads its value when `read`,
        the receiver's test for it, holds. */
    method ReadSlotAt(buf: BitBuffer, read: bool, ghost S: seq<FitState>, ghost sel: seq<bool>,
                      ghost ws: seq<Word>, ghost result: (seq<seq<Word>>, nat), i: nat)
      requires Reading(buf, S, sel, ws, result, i) && i < |syncs| && read == sel[i]
      modifies buf`cursor, syncs[i]
      ensures Reading(buf, S, sel, ws, result, i + 1)
    {
      ReadStep(S, sel, result.0, result.1, ws, buf.cursor, i);
      if read {
        syncs[i].ReadVariable(buf);
      }
    }

    /** `UpdateLocal`: on the owning client, picks a target position if none is
        pending and, behind the gate, rewrites the buffer with a position packet,
        hands the client's queue a command that sends it unreliably on channel 0
        (`queued`) and waits `UPDATE_RATE` before the next. */
    method UpdateLocal(now: real, randomPos: Vector4, range: BoundedRanges) returns (queued: Option<Command>)
      requires Valid()
      modifies this`newPos, this`nextUpdate, buffer
      ensures Valid()
      ensures !isLocal ==> queued.None? && unchanged(this, buffer)
      ensures isLocal ==> newPos == if old(newPos).None? then Some(randomPos) else old(newPos)
      ensures isLocal && old(CanUpdate(now)) ==>
        buffer.words == PositionPacket(peer.id, Compress(range, position), rendererHeading) && buffer.cursor == 0 &&
        queued == Some(Command(Send, buffer.words, Unreliable, 0)) &&
        nextUpdate == now + UPDATE_RATE
      ensures isLocal && !old(CanUpdate(now)) ==>
        unchanged(buffer) && queued.None? && nextUpdate == old(nextUpdate)
    {
      queued := None;
      if !isLocal {
        return;
      }
      if newPos.None? {
        newPos := Some(randomPos);
      }
      if CanUpdate(now) {
        var b := AddEntityHeader(buffer, peer, POSITION_UPDATE, true);
        b := AddVector3(buffer, position, range);
        b := AddFloat(buffer, rendererHeading);
        queued := Some(Command(Send, buffer.words, Unreliable, 0));
        nextUpdate := now + UPDATE_RATE;
      }
    }
  }

  /** One turn of a reading loop: what the invariant says about position `i`
      splits into the slot of variable `i` and the decoding of the rest. */
  lemma ReadStep(S: seq<FitState>, sel: seq<bool>, vals: seq<seq<Word>>, end: nat, ws: seq<Word>, pos: nat, i: nat)
    requires |sel| == |S| == |vals| && i < |S| && pos <= |ws|
    requires DecodeVars(S[i..], sel[i..], ws, pos) == Some((vals[i..], end))
    ensures ReadSlot(S[i], sel[i], ws, pos).Some?
    ensures var (v, mid) := ReadSlot(S[i], sel[i], ws, pos).value;
      v == vals[i] && mid <= |ws| &&
      DecodeVars(S[i + 1..], sel[i + 1..], ws, mid) == Some((vals[i + 1..], end))
  {
    var mid := DecodeVarsUncons(S[i..], sel[i..], ws, pos);
    assert S[i..][1..] == S[i + 1..] && sel[i..][1..] == sel[i + 1..] && vals[i..][1..] == vals[i + 1..];
  }
}
