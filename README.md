# EnetPrototype state replication, modelled in Dafny

This project models the state-replication core of EnetPrototype, a Unity and
ENet networking prototype. A replicated `BaseEntity` holds a list of
synchronized variables. Each variable has a value, a `Dirty` flag and a
`BitFlag`.

- The server entity runs behind a rate gate. On each permitted tick it ORs the
  flags of its dirty variables into a mask. When the mask is not zero, it
  rewrites its buffer with a sync packet and queues a command that
  broadcasts it. The packet holds
  the `SyncUpdate` header, the mask and the payload of every dirty variable,
  and writing it clears the dirty flags.
- Clients apply such a packet with `ProcessSyncUpdate`, reading only the
  variables the mask selects.
- A newly spawned client reads a full snapshot: a position, a heading and
  every variable.
- The owning client sends position packets.

The `BitBufferExtensions` helpers frame values on top of NetStack's
`BitBuffer`: the entity header, 16-bit and float values, compressed vectors
and synchronized variables.

Modules:

- `Wire`: the word type, opcodes, the header, and the wire encoding of one
  variable, with their round trips.
- `Buffers`: the `BitBuffer` as a class holding the written words and a read
  cursor.
- `SyncVars`: a synchronized variable as a class: value, dirty flag, bit flag,
  pack, read and reset.
- `NetworkExtensions`: the extension methods of `NetworkExtensions.cs`, as
  module-level methods that take the `BitBuffer` as their first parameter,
  as C#'s `this BitBuffer buffer` does.
- `Replication`: the protocol as functions on snapshots of the variable list.
  It covers the mask, the payload, the packet layouts and the receiver's
  decoding. It also holds the lemmas:
  - the mask is exactly the OR of the dirty flags;
  - the receiver's test selects exactly the sender's dirty variables;
  - the delta and snapshot round trips.
- `Entities`: `BaseEntity` as a class. Its methods are proved against the
  `Replication` functions:
  - when the gate is open and the mask is not zero, `UpdateSyncVars` leaves
    `SyncPacket(peer.id, old(States()))` in its buffer and
    `Cleaned(old(States()))` as its variables; otherwise it leaves both
    unchanged;
  - `ProcessSyncUpdate` gives every variable its value from
    `ApplyUpdate(...)`.

  The lemmas in `Replication` then say what those functions mean.

The model follows the code in these points:

- The sync packet's header carries `Peer.ID`, not the entity's own id
  (BaseEntity.cs:159).
- The sender writes the variables whose `Dirty` flag is set.
- The receiver reads the variables for which `(mask & BitFlag) == BitFlag`.
  These are the same variables when every flag is a single bit not shared by
  another variable. That condition is sufficient, not necessary. `FlagsWellFormed`
  states it, and the round trip lemmas assume it.

## Model

| member | source | states |
|---|---|---|
| Wire.WordToUShort | Assets/Scripts/Misc/NetworkExtensions.cs:103-106 | The `(ushort)` cast keeps a ushort-sized word unchanged. |
| Wire.UShortRoundTrip | Assets/Scripts/Misc/NetworkExtensions.cs:97-106 | `ReadUShort` of the word `AddUShort` wrote gives back the same ushort, for every ushort. |
| Wire.FloatRoundTrip | Assets/Scripts/Misc/NetworkExtensions.cs:108-117 | `ReadFloat` of the word `AddFloat` wrote gives back the identical 32-bit pattern. |
| Wire.BitsRoundTrip | Assets/Scripts/BaseEntity.cs:160 | An `int` written with `AddInt` reads back with `ReadInt` as the same pattern, and its word is zero exactly when the int is zero. |
| Wire.HeaderWords | Assets/Scripts/Misc/NetworkExtensions.cs:60 | The header is two words, and the second is the id. |
| Wire.HeaderRoundTrip | Assets/Scripts/Misc/NetworkExtensions.cs:54-80 | Wherever the two header words stand, `GetEntityHeader` reads back the same opcode and id. |
| Wire.Vector3Words | Assets/Scripts/Misc/NetworkExtensions.cs:119-124 | A compressed vector takes exactly three words. |
| Wire.EncodeValue | Assets/Scripts/Misc/NetworkExtensions.cs:82-90 | A scalar's payload is one word. A string's payload is a length word plus its units. |
| Wire.DecodeValue | Assets/Scripts/Misc/NetworkExtensions.cs:92-95 | Reading a value fails exactly when the words end first. On success it consumes at least one word, and the value is the words just before the new position. |
| Wire.ValueRoundTrip | Assets/Scripts/Misc/NetworkExtensions.cs:82-95 | A value written by `AddSyncVar`, wherever it stands, is read back by `ReadSyncVar` as itself, ending just after its encoding. |
| Buffers.BitBuffer.constructor | Assets/Scripts/BaseEntity.cs:26 | A new buffer is empty with its cursor at zero. |
| Buffers.BitBuffer.Clear | Assets/Scripts/Misc/NetworkExtensions.cs:56-59 | Clearing drops every word and rewinds the cursor. |
| Buffers.BitBuffer.AddUInt | Assets/Scripts/Misc/NetworkExtensions.cs:60 | Appends exactly the one word, leaves the earlier words unchanged, and returns the same buffer. |
| Buffers.BitBuffer.ReadUInt | Assets/Scripts/Misc/NetworkExtensions.cs:78 | Returns the word at the cursor and advances the cursor by one. |
| Buffers.BitBuffer.AddInt | Assets/Scripts/BaseEntity.cs:160 | Appends the int's 32-bit pattern as one word. |
| Buffers.BitBuffer.ReadInt | Assets/Scripts/BaseEntity.cs:270 | Returns the pattern of the word at the cursor and advances the cursor by one. |
| SyncVars.SyncVar.constructor | Assets/Scripts/BaseEntity.cs:29-31 | A new variable has its kind, its flag and its initial value, and is clean. |
| SyncVars.SyncVar.SetValue | Assets/Scripts/BaseEntity.cs:298-299 | Writing a value stores it. The variable becomes dirty exactly when the value differs, and a dirty flag stays set. |
| SyncVars.SyncVar.PackVariable | Assets/Scripts/Misc/NetworkExtensions.cs:84 | Appends the value's encoding and leaves the dirty flag alone. |
| SyncVars.SyncVar.ReadVariable | Assets/Scripts/Misc/NetworkExtensions.cs:94 | Takes the value exactly as `DecodeValue` reads it at the cursor, and moves the cursor to the end of it. |
| SyncVars.SyncVar.ResetDirty | Assets/Scripts/Misc/NetworkExtensions.cs:85-88 | Clears the dirty flag. |
| NetworkExtensions.AddUShort | Assets/Scripts/Misc/NetworkExtensions.cs:97-101 | Appends exactly one word, the widened ushort, and returns the same buffer. |
| NetworkExtensions.ReadUShort | Assets/Scripts/Misc/NetworkExtensions.cs:103-106 | Reads one word and truncates it to 16 bits. |
| NetworkExtensions.AddFloat | Assets/Scripts/Misc/NetworkExtensions.cs:108-112 | Appends exactly one word, the float's bit pattern, and returns the same buffer. |
| NetworkExtensions.ReadFloat | Assets/Scripts/Misc/NetworkExtensions.cs:114-117 | Reads one word as a float bit pattern. |
| NetworkExtensions.AddEntityHeader | Assets/Scripts/Misc/NetworkExtensions.cs:54-62 | With `clearBuffer`, the buffer holds exactly `[opCode, peer.ID]` and the cursor is rewound. Without it, the two words follow the old words unchanged and the cursor stays. Returns the same buffer. |
| NetworkExtensions.AddEntityHeaderForEntity | Assets/Scripts/Misc/NetworkExtensions.cs:64-72 | The same, with the entity's `NetworkId.Value` as the id. |
| NetworkExtensions.GetEntityHeader | Assets/Scripts/Misc/NetworkExtensions.cs:74-80 | Returns the header `DecodeHeader` reads at the cursor and consumes two words. |
| NetworkExtensions.AddSyncVar | Assets/Scripts/Misc/NetworkExtensions.cs:82-90 | Appends the variable's encoding. With `resetDirty` the variable ends clean. Without it the variable is untouched. Returns the same buffer. |
| NetworkExtensions.ReadSyncVar | Assets/Scripts/Misc/NetworkExtensions.cs:92-95 | The variable takes the value `DecodeValue` reads at the cursor, and the cursor moves past it. |
| NetworkExtensions.AddVector3 | Assets/Scripts/Misc/NetworkExtensions.cs:119-124 | Appends exactly the three compressed axes, in x, y, z order, and returns the same buffer. |
| NetworkExtensions.ReadVector3 | Assets/Scripts/Misc/NetworkExtensions.cs:126-133 | Consumes exactly three words and decompresses them as x, y, z, in that order. |
| Replication.ReadSlot | Assets/Scripts/BaseEntity.cs:279-282 | An unselected variable keeps its value and consumes nothing. A selected one reads a value its kind can carry. |
| Replication.DecodeVars | Assets/Scripts/BaseEntity.cs:277-283 | Reading the selected variables gives one value per variable. Every unselected variable keeps its value, every value fits its kind, and the cursor never moves back nor past the end. |
| Replication.ApplyUpdate | Assets/Scripts/BaseEntity.cs:268-284 | A successful update always reads the mask word and gives one value per variable. |
| Replication.PositionPacket | Assets/Scripts/BaseEntity.cs:202-204 | A position packet is exactly six words. |
| Replication.DecodeSnapshot | Assets/Scripts/BaseEntity.cs:107-114 | A successful snapshot read consumes the three position words in x, y, z order and the heading, and gives one value per variable. |
| Replication.MaskCoversDirty | Assets/Scripts/BaseEntity.cs:145-153 | Every bit of a dirty variable's flag reaches the mask. |
| Replication.MaskWithinDirty | Assets/Scripts/BaseEntity.cs:145-153 | No bit reaches the mask unless a dirty variable's flag carries it. |
| Replication.MaskMeets | Assets/Scripts/BaseEntity.cs:145-153 | Bit by bit, the mask is the OR of the flags of exactly the dirty variables (both directions). |
| Replication.MaskZeroWhenClean | Assets/Scripts/BaseEntity.cs:145-156 | Whatever the flags, a list with no dirty variable gives a zero mask, so nothing is sent. |
| Replication.MaskZeroIffClean | Assets/Scripts/BaseEntity.cs:145-156 | With non-zero flags, the mask is zero exactly when no variable is dirty, which is when nothing is sent. |
| Replication.MaskSelectsDirty | Assets/Scripts/BaseEntity.cs:149-151 | With single-bit, distinct flags, the receiver's test on the sender's mask holds for a variable exactly when it was dirty. |
| Replication.MaskSelectionIsDirtySelection | Assets/Scripts/BaseEntity.cs:162-168 | With the same layout and well-formed flags, the receiver reads exactly the variables the sender packed. |
| Replication.DecodeEncodeVars | Assets/Scripts/BaseEntity.cs:162-168 | Wherever a payload stands, a receiver with the same layout reads the sender's value for each selected variable. It keeps its own value for the rest and stops exactly at the payload's end. |
| Replication.ApplyZeroMask | Assets/Scripts/BaseEntity.cs:270-275 | A zero mask: only the mask word is read and every variable keeps its value. |
| Replication.ApplyKeepsUnselected | Assets/Scripts/BaseEntity.cs:277-283 | Whatever the mask, a variable it does not select keeps its value. |
| Replication.ApplyNonZeroMask | Assets/Scripts/BaseEntity.cs:270-283 | A non-zero mask: the receiver reads exactly the variables the mask selects, right after the mask word. |
| Replication.CleanedMaskZero | Assets/Scripts/BaseEntity.cs:162-168 | After a delta has gone out the values are unchanged and the next mask is zero, so nothing is resent until a variable is written. |
| Replication.ApplyDirtyMask | Assets/Scripts/BaseEntity.cs:270-283 | The mask of a sender with a dirty variable makes the receiver take the sender's value for exactly the dirty variables. The read stops at the payload's end. |
| Replication.DirtyMaskNonZero | Assets/Scripts/BaseEntity.cs:145-156 | With well-formed flags, a dirty variable makes the mask non-zero, so a packet is sent. |
| Replication.DirtyMaskSelects | Assets/Scripts/BaseEntity.cs:270-283 | A receiver with the same layout, given the mask of a sender with a dirty variable, reads exactly the sender's dirty variables, starting just after the mask word. |
| Replication.SyncPacketLayout | Assets/Scripts/BaseEntity.cs:158-168 | A sync packet is `[SyncUpdate, Peer.ID]`, then the mask word, then the dirty payloads. |
| Replication.SyncHeaderRoundTrip | Assets/Scripts/BaseEntity.cs:159 | The header of a sync packet reads back as the sync opcode and the peer's id. |
| Replication.SyncRoundTrip | Assets/Scripts/BaseEntity.cs:145-168 | Reading just after the header of the packet `UpdateSyncVars` writes: each variable dirty on the sender gets the sender's value, the rest keep theirs, and the read ends at the packet's end. |
| Replication.SnapshotLayout | Assets/Scripts/BaseEntity.cs:107-114 | A snapshot is the three position words, the heading word, then every payload. |
| Replication.SnapshotRoundTrip | Assets/Scripts/BaseEntity.cs:107-114 | A client with the same layout reads back the position, the heading and every value of a snapshot, with `AddAllSyncData` writing the payload. It stops at the snapshot's end. |
| Entities.BaseEntity.constructor | Assets/Scripts/BaseEntity.cs:13-40 | A new entity is neither server nor local and has no peer. It has an empty buffer, no pending position, its update time at zero and a rate of 0.1. |
| Entities.BaseEntity.InitializeServer | Assets/Scripts/BaseEntity.cs:88-97 | The server `Initialize` sets the peer, the id and the position, and makes the entity the server. |
| Entities.BaseEntity.AssumeOwnership | Assets/Scripts/BaseEntity.cs:229-235 | The entity becomes local. |
| Entities.BaseEntity.UpdateSyncVars | Assets/Scripts/BaseEntity.cs:138-179 | Closed gate (not the server, no peer, or the time not past `m_nextUpdate`): nothing changes. Open gate: the next update time grows by exactly the update rate, even when nothing is sent. Zero mask: no packet is queued and the buffer and variables are untouched. Otherwise the buffer holds exactly `SyncPacket(Peer.ID, old variables)`, the queued command broadcasts that packet reliably on channel 0, and every variable is clean with its value unchanged. |
| Entities.BaseEntity.BroadcastDirty | Assets/Scripts/BaseEntity.cs:144-178 | Zero mask: no command is queued and the buffer and variables are untouched. Otherwise the buffer holds exactly the sync packet of the old variables, the queued command broadcasts it reliably on channel 0, and every variable is clean with its value unchanged. |
| Entities.BaseEntity.DirtyMask | Assets/Scripts/BaseEntity.cs:145-153 | The loop computes exactly `MaskOf` of the variables. |
| Entities.BaseEntity.WriteSyncPacket | Assets/Scripts/BaseEntity.cs:158-168 | The buffer holds exactly the sync packet of the old variables, and every variable is then clean with its value unchanged. |
| Entities.BaseEntity.PackDirtySyncVars | Assets/Scripts/BaseEntity.cs:162-168 | Appends the dirty payloads in list order, and leaves every variable clean with its value unchanged. |
| Entities.BaseEntity.AddAllSyncData | Assets/Scripts/BaseEntity.cs:181-188 | Appends every variable's payload in list order. Every variable, its dirty flag included, is left as it was. Returns the same buffer. |
| Entities.BaseEntity.ProcessSyncUpdate | Assets/Scripts/BaseEntity.cs:268-284 | Each variable takes the value `ApplyUpdate` gives, the cursor ends where it says, and no dirty flag changes. |
| Entities.BaseEntity.ReadMaskedSyncVars | Assets/Scripts/BaseEntity.cs:277-283 | The loop reads exactly the variables the mask selects, in list order, as `DecodeVars` says. |
| Entities.BaseEntity.InitializeClient | Assets/Scripts/BaseEntity.cs:99-115 | The client `Initialize` sets the id and the peer and reads the snapshot. The position is the decompressed position words, followed by the heading and every variable's value, and no dirty flag changes. |
| Entities.BaseEntity.ReadSnapshot | Assets/Scripts/BaseEntity.cs:107-114 | The position, the heading, then every variable are read as `DecodeSnapshot` says. |
| Entities.BaseEntity.ReadAllSyncVars | Assets/Scripts/BaseEntity.cs:111-114 | Every variable reads its value in list order, as `DecodeVars` with every variable selected says. |
| Entities.BaseEntity.UpdateLocal | Assets/Scripts/BaseEntity.cs:190-215 | A non-local entity is untouched. A local one picks the random target if none is pending. Behind the gate it rewrites the buffer with exactly the position packet, which carries the renderer's heading, queues a command that sends it unreliably on channel 0 and sets the next update time to `now + 0.1`. Otherwise it queues nothing. |

## Left out

- `GetPacketFromBuffer` and `GetBufferFromPacket` are left out: they create and copy ENet packets and rent from `ByteArrayPool`. A queued command carries the buffer's words instead of a packet.
- `AddInitialState` is left out: it is implemented by `NetworkEntity`, which is not part of this model. `SnapshotWords` gives the layout the client `Initialize` expects.
- NetStack's bit-level packing is not modelled. This covers variable-width encodings, `ToArray` and `FromArray`. Each scalar `Add*`/`Read*` method (ushort, float, int, uint, each vector axis) takes one 32-bit word, and `AddInt`/`ReadInt` carry the int's two's-complement pattern. A text value takes a length word followed by one word per unit.
- `BoundedRange.Compress` and `Decompress` are opaque functions supplied by the caller, so no quantisation arithmetic is modelled.
- Floats are bit patterns only. `Time.time` and `m_nextUpdate` are reals, and `0.1f` is taken as the exact real 0.1.
- Reading past the written words is not modelled as a failure of the buffer methods. Each reading method requires that the words it reads are present. The decoding functions (`DecodeHeader`, `DecodeValue`, `DecodeVars`, `ApplyUpdate`, `DecodeSnapshot`) return `None` in that case.
- The synchronized variable types are not part of this model. `SynchronizedFloat`, `SynchronizedString` and `SynchronizedASCII` become one class, whose value is the words of its encoding. A scalar is one word; a string is a length word followed by its units. ASCII's narrower units are not modelled.
- Flag registration is not part of this model. The lemmas that need distinct single-bit flags take `FlagsWellFormed` as a precondition. The entity's variables are assumed distinct objects (`Distinct`).
- The Unity lifecycle and presentation are left out: `Awake`, `Update`, `OnDestroy`, `OnMouseDown`, `LerpPositionRotation`, materials, `TextMeshPro` and `gameObject.name`. The transform is reduced to a position, the root's heading and the renderer's heading, and the server `Initialize` drops the `Vector4`'s fourth component.
- `heading` and `rendererHeading` are two independent fields. The client `Initialize` sets the root transform's yaw from the float it reads (BaseEntity.cs:108-109). `UpdateLocal` sends the renderer's world yaw (BaseEntity.cs:204), which `LerpPositionRotation` turns on its own (BaseEntity.cs:126). How Unity composes the renderer's world rotation from its parent's is not modelled, and nothing in the model changes `rendererHeading` after construction.
- `GetRandomPos` and the `GenRandom*` helpers use randomness, so the random position is a parameter of `InitializeServer` and `UpdateLocal`.
- The change events and the `*Changed` callbacks are left out. On a client each callback also writes the received value back through the variable's `Value` setter (BaseEntity.cs:242, 251 and 264), besides logging and updating the UI text. Under `SetValue`, a write of the value the variable already holds changes nothing. So the model, which keeps every dirty flag on a read, assumes that the variable stores the received value before it fires `Changed`. The variable types are not part of this model, so that order is assumed, not shown.
- The `Debug.Log` calls in `UpdateSyncVars` and `ProcessSyncUpdate` (BaseEntity.cs:176 and 272) only log, so they are left out.
- The command pool, the server and client objects and `AddCommandToQueue` are external dispatch. The command a method would hand to `AddCommandToQueue` becomes its result `queued` (`None` when nothing is sent), and what the transport does with it is not modelled.
- `CanUpdate` is a predicate with no contract of its own. Its body is the gate `Peer.IsSet && now > m_nextUpdate`, and it takes part in the contracts of `UpdateSyncVars` and `UpdateLocal`.
- `UpdateSyncVars`, `ProcessSyncUpdate` and the client `Initialize` each become a top-level method plus helper methods. The helpers are `BroadcastDirty`, `DirtyMask`, `WriteSyncPacket`, `PackDirtySyncVars`, `PackSlotAt`, `ReadMaskedSyncVars`, `ReadSnapshot`, `ReadAllSyncVars` and `ReadSlotAt`, one per loop, loop body or stage of the source method.
