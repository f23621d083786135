# Block admission in the Infinit storage layer, modelled in Dafny

This project models the single-node block admission engine of the Infinit
distributed file system (the `elle` repository), together with three small
pieces beside it:

- **`Hole.Machine`** (`machine.dfy`) models the local hole machine. It puts,
  gets and kills blocks in a persistence backend held as maps:
  - an immutable (content-hash) block is write-once;
  - a mutable block is validated according to the component of its address
    before it is stored and again after it is loaded. An Object whose
    `meta.access` is not `Null` is validated against the Access block pulled
    at `Version::Last`; an Object without one is validated against
    `Access::Null`; any other known component validates itself;
    `ComponentUnknown` is refused;
  - Kill dispatches on the address family.

  The class invariant `Valid()` says the backend only ever holds mutable
  blocks that passed this validation.
- **`Standalone`** (`region.dfy`) models the byte region `elle::standalone::Region`:
  its archive form (the size as a `uint64_t`, then the bytes) and `Recycle`.
- **`OwnerKey`** (`owner_key_block.dfy`) models the two-way serialiser of an
  owner key block: one sequence of `archive & field` steps serves to save and
  to load it.
- **`Depot`** (`record.dfy`) models a depot record: its expiration arithmetic,
  its timer handling and its location dispatch on destruction.

Shared vocabulary sits in `elle.dfy` (bytes, `Option`, `Natural64`, `Time`)
and in `proton.dfy` (addresses, families, components, versions, blocks, Access
blocks, and the `Validator` whose three predicates stand for the blocks'
signature and content checks).

Where the code is weaker than one might expect, the model follows the code:

- the immutable `Put` does not validate the block before storing it
  (hole/implementations/local/Machine.cc:38-48);
- the immutable `Put` refuses a block only when the existence check answers
  that it exists. When that check itself fails, the block is stored anyway
  and replaces any block already there (hole/implementations/local/Machine.cc:39-46).
  `Hole.OverwriteWhenExistFails` shows a second Put succeeding this way.
  Likewise, both `Get`s only stop when the existence check answers that the
  block is absent;
- the mutable `Put` compares no versions. It stores any block that validates,
  whatever is already stored (hole/implementations/local/Machine.cc:129-138).
  `Hole.LastWriteWins` shows an older version replacing a newer one as
  "Last";
- a failed Access pull and a failed validation are both plain errors. The
  model keeps them apart (`AccessUnavailable`, `ObjectInvalid`), as the
  source's two escape messages do.

## Model

| member | source | states |
|---|---|---|
| `Hole.Admission` | hole/implementations/local/Machine.cc:65-127 | The verdict is Ok exactly when the Access block to check against is available and the block is admissible under it. An Object with a non-Null `meta.access` is checked against the Access block pulled at `Version::Last`; an Object with a Null one against `Access::Null`; other components through their own check. `ComponentUnknown` yields `UnknownComponent`, a failed pull `AccessUnavailable`, and a failed check `ObjectInvalid` or `BlockInvalid`. |
| `Hole.AdmissionDependsOnReferencedAccess` | hole/implementations/local/Machine.cc:75-106 | Only the Access block the Object refers to is consulted: two pull functions that agree on it give the same verdict. |
| `Hole.Machine.PutImmutable` | hole/implementations/local/Machine.cc:31-49 | Refused with `AlreadyExists` and no store when the existence check answers that the block exists. Otherwise, including when that check fails, the block is stored without validation, replacing any block there. Ok is returned exactly when the backend store succeeds, `StoreFailed` otherwise. The mutable store is untouched and the invariant is kept. |
| `Hole.Machine.ExistImmutable` | hole/implementations/local/Machine.cc:39-40 | `ImmutableBlock::Exist`: an error status exactly when the check fails, otherwise True exactly when a block is stored at the address. |
| `Hole.Machine.StoreImmutable` | hole/implementations/local/Machine.cc:44-45 | `ImmutableBlock::Store` writes the block at the address, over any block there, or fails on a backend error leaving everything in place. |
| `Hole.Machine.EraseImmutable` | hole/implementations/local/Machine.cc:261-264 | `ImmutableBlock::Erase` removes the block at the address (an absent block is not an error), or fails on a backend error leaving everything in place. |
| `Hole.Machine.ExistMutable` | hole/implementations/local/Machine.cc:180-181 | `MutableBlock::Exist` at a version: an error status exactly when the check fails, otherwise True exactly when the version the request designates is stored. |
| `Hole.Machine.LoadMutable` | hole/implementations/local/Machine.cc:185-186 | The block `MutableBlock::Load` finds: present exactly when the requested version resolves (a number, or the "Last" pointer) to a stored version, and then the block stored there. |
| `Hole.Machine.PutMutable` | hole/implementations/local/Machine.cc:54-139 | Returns the admission error, with nothing stored, when validation fails; `StoreFailed` when the backend fails. Ok exactly when validation and store succeed. The block is then stored at its own version and becomes "Last", with no comparison against stored versions. `Valid()` (only admitted blocks are stored) is preserved. |
| `Hole.Machine.GetImmutable` | hole/implementations/local/Machine.cc:144-166 | `NotFound` when the existence check answers that the block does not exist. When that check fails the load goes ahead; `LoadFailed` when the load fails or finds nothing. Succeeds exactly when the stored block passes its own validation, and then returns that block; `BlockInvalid` otherwise. |
| `Hole.Machine.GetMutable` | hole/implementations/local/Machine.cc:171-243 | `NotFound` when the existence check answers that nothing exists at the requested (address, version). When that check fails the load goes ahead; `LoadFailed` when the load fails or finds nothing. Otherwise it succeeds exactly when the block loaded at that same version passes the admission check, returns that block, and fails with the admission error otherwise. A stored block validated without a pulled Access block always comes back. |
| `Hole.Machine.Kill` | hole/implementations/local/Machine.cc:248-287 | A content-hash address erases the immutable block. A public-key, owner-key or imprint address erases every version and the "Last" pointer, after which no version can be loaded. Any other family gives `UnknownFamily`, and a backend erase failure gives `EraseFailed`. |
| `Hole.Machine.EraseMutable` | hole/implementations/local/Machine.cc:273-276 | `MutableBlock::Erase` removes every version of the address and its "Last" pointer, or fails on a backend error leaving everything in place. |
| `Hole.Machine.StoreMutable` | hole/implementations/local/Machine.cc:132-134 | `MutableBlock::Store` writes the block at (address, its version) and points "Last" at it, or fails on a backend error leaving everything in place. |
| `Hole.WriteOnce` | hole/implementations/local/Machine.cc:38-48 | With a working existence check, a first immutable Put succeeds, a second one on the same address gets `AlreadyExists`, and a Get still returns the first block. |
| `Hole.OverwriteWhenExistFails` | hole/implementations/local/Machine.cc:38-48 | When the existence check fails, both Puts on the same address succeed, and a Get returns the second block. |
| `Hole.LastWriteWins` | hole/implementations/local/Machine.cc:129-138 | Putting version `newer` and then an older version both succeed, and a Get at `Version::Last` returns the older block. |
| `Hole.KillThenGet` | hole/implementations/local/Machine.cc:256-286 | After a Put and a successful Kill of a key-addressed block, a Get at `Version::Last` returns `NotFound`. |
| `Standalone.Save` | elle/standalone/Region.hxx:60-68 | Requires serialiser version 0. Appends to the archive exactly the eight-byte size followed by the region's `size` bytes. |
| `Standalone.Load` | elle/standalone/Region.hxx:70-82 | Requires serialiser version 0. `TruncatedSize` exactly when fewer than eight bytes remain, with nothing read or changed. `PrepareFailed` exactly when the size read exceeds what the allocator can provide, with the region unchanged and only the size consumed. `TruncatedContents` exactly when the size could be prepared but the archive holds fewer bytes than it announces, with only the size consumed. `Loaded` otherwise: the region then holds those bytes, its size is the size read, and the result agrees with `DecodeRegion`. |
| `Standalone.RegionRoundTrip` | elle/standalone/Region.hxx:60-82 | Decoding what Save writes, followed by anything, gives back the same bytes and consumes exactly the encoding. |
| `Standalone.DecodedIsEncoded` | elle/standalone/Region.hxx:70-82 | Conversely, the prefix a successful decode consumes is exactly the encoding of the bytes it returns. |
| `Standalone.LittleEndianRoundTrip` | elle/standalone/Region.hxx:66-77 | A `uint64_t` written as eight little-endian bytes reads back as the same number. |
| `Standalone.FromLittleEndianRoundTrip` | elle/standalone/Region.hxx:66-77 | Eight bytes read as a `uint64_t` and written again give the same bytes. |
| `Standalone.FromLittleEndian` | elle/standalone/Region.hxx:77 | A size read from `k` bytes is below `256^k`, so a size read from eight bytes fits a `uint64_t`. |
| `Standalone.SaveThenLoad` | elle/standalone/Region.hxx:60-82 | Saving a region into a fresh archive and loading it into a fresh region succeeds, when the allocator can hold it, and gives the same bytes. |
| `Standalone.OutputArchive.SaveNatural64` | elle/standalone/Region.hxx:66 | Appends exactly the eight little-endian bytes of a number below 2^64. |
| `Standalone.OutputArchive.SaveBinary` | elle/standalone/Region.hxx:67 | Appends exactly the first `size` bytes of the buffer. |
| `Standalone.InputArchive.LoadNatural64` | elle/standalone/Region.hxx:77 | Reads the next eight bytes as a little-endian number and advances past them; when fewer than eight remain it fails without advancing. |
| `Standalone.InputArchive.LoadBinary` | elle/standalone/Region.hxx:80 | Copies exactly the next `size` archive bytes into the front of the buffer, leaving the rest of it untouched, and advances past them; when fewer remain it fails, copying nothing. |
| `Standalone.Region.Prepare` | elle/standalone/Region.hxx:78 | Succeeds exactly when the allocator can provide the capacity, leaving a fresh empty buffer of that capacity; on failure the region is unchanged. |
| `Standalone.Region.Recycle` | elle/standalone/Region.hxx:27-45 | Leaves a default (empty) region when given null, and otherwise a region holding a copy of the given region's bytes in a fresh buffer. |
| `OwnerKey.Serialize` | nucleus/proton/OwnerKeyBlock.hxx:8-21 | Requires serialiser version 0. On an output archive it appends exactly the `MutableBlock` part, `K`, `stamp`, `owner.K` and `owner.signature`, in that order. On an input archive it reads them back in the same order, giving `Decode` of the remaining items and consuming exactly five items. |
| `OwnerKey.RoundTrip` | nucleus/proton/OwnerKeyBlock.hxx:15-20 | Decoding the five saved items, followed by anything, restores every field of the block. |
| `OwnerKey.DecodedIsEncoded` | nucleus/proton/OwnerKeyBlock.hxx:15-20 | Whatever decodes was written by a save of that block: five items, no more, in the save order. |
| `OwnerKey.SaveThenLoad` | nucleus/proton/OwnerKeyBlock.hxx:8-21 | Serialising into an output archive and then from an input archive over its items loads the original block back, whatever the destination held. |
| `OwnerKey.Archive.Exchange` | elle/serialize/ArchiveSerializer.hxx:29-45 | One two-way `&` step. An output archive appends the field. An input archive returns the next item when it has the field's type and advances, and otherwise fails without advancing. |
| `Depot.Record.constructor` | etoile/depot/Record.cc:33-37 | A fresh record has location `LocationUnknown` and no timer. |
| `Depot.Record.Create` | etoile/depot/Record.cc:50-75 | Sets the record's address and returns Ok; nothing else changes. |
| `Depot.Record.Monitor` | etoile/depot/Record.cc:81-109 | Without a timer, returns Ok and touches nothing. Otherwise it stops the timer (a failure is an error, with the timer untouched). It then starts the timer with the delay in milliseconds; a failure is an error, with the timer stopped and its delay unchanged. |
| `Depot.DelayMilliseconds` | etoile/depot/Record.cc:101-105 | The timer delay fits a `Natural64` and equals a thousand times the expiration in seconds whenever that product fits. |
| `Depot.ExpirationSeconds` | etoile/depot/Record.cc:99-102 | The expiration in seconds is the time read as years of twelve months, months of thirty days, days of twenty-four hours, hours of sixty minutes and minutes of sixty seconds. |
| `Depot.MonthIsThirtyDays` | etoile/depot/Record.cc:101-102 | One more month adds as much as thirty more days. |
| `Depot.YearIsTwelveMonths` | etoile/depot/Record.cc:101-102 | One more year adds as much as twelve more months. |
| `Depot.CalendarDelayDoesNotWrap` | etoile/depot/Record.cc:101-105 | With fields in calendar ranges and a year below 65536, neither `Natural64` conversion wraps: the timer gets exactly a thousand times the seconds. |
| `Depot.Record.Destroy` | etoile/depot/Record.cc:114-170 | An existing timer is stopped and released first; a stop failure is an error, and nothing is released or changed, the timer's running state and delay included. Then `LocationCache` destroys and releases the cell, and `LocationReserve` the unit; a destroy failure is an error that keeps the cell or unit in place. The other location's cell or unit is left untouched. `LocationUnknown` is an error that touches neither. |
| `Depot.Record.Discard` | etoile/depot/Record.cc:224-233 | Forwards exactly the record's address to `Repository::Discard` and fails exactly when that call fails. |

## Left out

- The network handle, debug `printf` output and log tracing of the machine. The backend is the machine's own maps rather than a process-wide network object.
- The backend's own code (`ImmutableBlock`/`MutableBlock` `Exist`, `Store`, `Load`, `Erase`) is not part of this model. An I/O error is modelled by two fixed sets of faulty addresses: one on which the existence check fails, one on which store, load and erase fail. Erasing an absent block is not an error. "Last" points at the version most recently stored.
- `Hole::Pull` is not part of this model. It is a parameter returning the Access block at `Version::Last`, or nothing when the pull fails.
- The signature, hash and access-control checks (`Validate` of the blocks) are not part of this model. They are the three predicates of `Proton.Validator`.
- Hole.Machine.GetImmutable, Hole.Machine.GetMutable: the caller's out-parameter keeps the loaded block even when validation then fails; the model returns only an error in that case.
- Hole.Machine.PutMutable: the source asserts that a block put under `ComponentObject` is an Object and then casts it. The model takes that assertion as a precondition, and the invariant keeps it true for every stored block.
- Standalone.Region.Prepare: `Region::Prepare` is not part of this model. It is modelled as allocating a fresh empty buffer, failing when the capacity exceeds what the allocator can provide (the `available` parameter).
- Standalone.Region.Recycle: the Region copy constructor is not part of this model. It is modelled as a deep copy of the used bytes, and the always-Ok status is not returned.
- Standalone.Load: the archive's exceptions become the `TruncatedSize`, `PrepareFailed` and `TruncatedContents` outcomes. The contents of a prepared region whose bytes ran short are not stated.
- The binary archive's `uint64_t` byte order is taken as little-endian.
- The field serialisers of `PublicKey`, `Time`, `Signature` and `MutableBlock` are not part of this model. Each `archive & field` step is one typed item in the archive.
- `elle::Timer`, `Cell`, `Unit` and `Repository` are not part of this model. Each is reduced to the state the record's code relies on, plus fixed fault flags for its failures.
- Depot.Record.Monitor: in the source, the `Time` pointer is never assigned, because its assignment is commented out. The model takes the `Time` fields as a parameter. The C++ integer types of the `Time` fields are not part of this model: the sum is computed exactly and then reduced modulo 2^64 explicitly.
- Depot.Record.Destroy: `delete` leaves a dangling pointer in the source; the model sets the released timer, cell or unit to null.
- Concurrency: the fiber scheduler and the ordering of concurrent Puts are not modelled; every operation is sequential.
