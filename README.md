# Zebra address book and inventory hashes, in Dafny

This project models two parts of the Zebra node's networking crate and proves properties of them.

- **The address book** (`zebra-network/src/address_book.rs`) is a registry of known peers. It records the services each peer advertises and the last time each peer was seen. The same records are kept in two indices:
  - `by_addr`, from address to `(last seen, services)`;
  - `by_time`, an ordered map from last-seen time to `(address, services)`.

  The mutating operations are modelled as methods of the `AddressBook` class, whose two fields are Dafny maps:
  - `update` merges one observation;
  - `extend` is a loop of `update`s;
  - `Drain::next`, reached through `drain_recent`, removes the most recent entry.

  Each method is proved against a value-level function: `Updated`, `ExtendAll` and `DrainStep`. The properties are proved about those functions.

  The read-only views, `peers` and `disconnected_peers`, together with `from_by_time_kv`, are functions of the time index. `Peers` lists the time index from its largest key down.
- **Inventory hashes** (`zebra-network/src/protocol/inv.rs`) are the typed 32-byte hashes of the Bitcoin "inventory vector". One is written as a 4-byte little-endian type code followed by the 32 hash bytes.
  - Encoding is a function onto `seq<Byte>`.
  - Decoding consumes a prefix of its input and returns the item together with the remaining bytes.

Addresses and services are type parameters that only need equality. Time is an integer. The current time and `LIVE_PEER_DURATION` are parameters of `DisconnectedPeers`.

## Model

| member | source | states |
|---|---|---|
| AddressBook.AddressBook.Update | zebra-network/src/address_book.rs:46-66 | A new address adds `by_addr[addr] = (t, s)` and `by_time[t] = (addr, s)`. A strictly older observation leaves both maps unchanged. An equal or newer one removes the old time entry and writes both new entries. Together these are exactly `Updated`. The precondition `UpdateDefined` excludes exactly the source's panic: the address is known, the observation is not older than the recorded one, and the recorded time has no time entry. |
| AddressBook.StaleUpdateIgnored | zebra-network/src/address_book.rs:48-55 | A strictly older observation of a known address is discarded before the time index is consulted. It never panics, even when that address has lost its time entry, and it leaves both maps unchanged. |
| AddressBook.AddressBook.constructor | zebra-network/src/address_book.rs:22-26 | The `Default` book has both indices empty, and they mirror each other. |
| AddressBook.UpdatePreservesMirror | zebra-network/src/address_book.rs:46-66 | The two indices start mirrored (`by_addr[a] == (t, s)` iff `by_time[t] == (a, s)`), and no other address holds the event's time. Then `update` does not panic, and the indices stay mirrored. |
| AddressBook.UpdateLosesMirror | zebra-network/src/address_book.rs:56-64 | If another address already holds the event's time, an update that is not dropped overwrites that time entry, and the indices no longer mirror. |
| AddressBook.CollisionThenPanic | zebra-network/src/address_book.rs:53-60 | The following sequence reaches the `expect` panic. Two addresses `a` and `b` are recorded at one time `t`. Then `a` is seen at a later time. Now `b` has no time entry, so its next update at any time `t'' >= t` panics. An update older than `t` is discarded without a panic, as `StaleUpdateIgnored` states. |
| AddressBook.UpdateOrderIndependent | zebra-network/src/address_book.rs:46-66 | Assume the indices are mirrored and neither observation's time is held by another address. Then two observations of one address give the same indices in either order. When the newer one is not stale, it is what `by_addr` records. Without these assumptions the orders can differ: if another address holds the older observation's time, one order overwrites that address's time entry and the other does not. |
| AddressBook.AddressBook.Extend | zebra-network/src/address_book.rs:111-119 | The new state is `update` applied to each event, first to last (`ExtendAll`). |
| AddressBook.ExtendPreservesMirror | zebra-network/src/address_book.rs:111-119 | A batch in which no two addresses share a time, either among the events or against the held records, is ingested without a panic. The indices stay mirrored. |
| AddressBook.Peers | zebra-network/src/address_book.rs:71-73 | `peers` over the time index: the listing has exactly one element per entry. Its contents and order are stated by `PeersIsListing` and `PeersUnique`. |
| AddressBook.FromByTimeKv | zebra-network/src/address_book.rs:102-109 | Turning a time-index entry back into an observation is the inverse of how `update` files one (`ByTimeKv`). The time becomes `last_seen`, and the value becomes the address and the services. |
| AddressBook.FromByTimeKvOfByTimeKv | zebra-network/src/address_book.rs:60-64 | An observation filed under its key and value by `update` is read back unchanged by `from_by_time_kv`. |
| AddressBook.PeersIsListing | zebra-network/src/address_book.rs:71-73 | `peers` lists every time entry exactly once, as `from_by_time_kv` turns it back into an observation, in strictly descending time order. |
| AddressBook.PeersUnique | zebra-network/src/address_book.rs:71-73 | Any listing with those properties equals `Peers`, so they characterise the view. |
| AddressBook.DisconnectedPeers | zebra-network/src/address_book.rs:77-91 | The result is the time entries strictly older than `now - livePeerDuration`, all of them and only those, most recent first. An entry exactly at the cutoff is excluded, because the range `(Unbounded, Excluded(cutoff))` is open at the cutoff. |
| AddressBook.DisconnectedIsSuffix | zebra-network/src/address_book.rs:85-90 | For any `now` and `livePeerDuration`, `DisconnectedPeers` is a suffix of `Peers`. |
| AddressBook.DrainStep | zebra-network/src/address_book.rs:129-142 | The result is `None` iff the time index is empty, and then nothing changes. Otherwise it returns the head of `peers`, the remaining time index lists as the tail of `peers`, and the returned address is removed from `by_addr`. |
| AddressBook.AddressBook.DrainRecent | zebra-network/src/address_book.rs:95-97 | `drain_recent` returns a new drain over this very book, so every `next` changes this book. |
| AddressBook.Drain.Next | zebra-network/src/address_book.rs:129-142 | The method's result and the book's new state are `DrainStep` of the old state. It returns `None` iff `by_time` was empty, and otherwise the most recent peer, with the listing shortened by it. |
| AddressBook.DrainStepPreservesMirror | zebra-network/src/address_book.rs:129-142 | A drain step keeps mirrored indices mirrored. |
| AddressBook.DrainYieldsPeers | zebra-network/src/address_book.rs:93-97 | `n` calls of `next` yield the first `n` entries of `peers`. What is left lists as the rest of `peers`. |
| AddressBook.DrainDescending | zebra-network/src/address_book.rs:129-142 | Successive drain results are strictly descending in time, and each one is an entry of the original time index. |
| AddressBook.DrainToExhaustion | zebra-network/src/address_book.rs:93-97 | On mirrored indices, draining as many times as there are entries yields all of `peers` and leaves both maps empty. |
| AddressBook.DrainKeepsMirror | zebra-network/src/address_book.rs:129-142 | Any number of drain steps keeps the indices mirrored. |
| AddressBook.MaxKey | zebra-network/src/address_book.rs:130 | The most recent key of a non-empty time index is one of its keys and is at least every key. |
| Inventory.Code | zebra-network/src/protocol/inv.rs:50-55 | Every item's code is between 0 and 3, and 0 is the code of the error item and of no other. |
| Inventory.Payload | zebra-network/src/protocol/inv.rs:50-55 | The error item writes the all-zero hash. |
| Inventory.CodeAndPayloadDetermineItem | zebra-network/src/protocol/inv.rs:50-55 | No two items share both a code and a payload, so the encoding is injective. |
| Inventory.WriteU32Le | zebra-network/src/protocol/inv.rs:56 | A 32-bit code is written as four bytes, and they encode it least significant first (`LeValue`). |
| Inventory.Serialize | zebra-network/src/protocol/inv.rs:49-58 | The encoding is always 36 bytes. It is the code (Error 0, Tx 1, Block 2, FilteredBlock 3) as a little-endian `u32`, followed by the hash bytes. An error item writes 32 zero bytes. |
| Inventory.Deserialize | zebra-network/src/protocol/inv.rs:63-73 | Input shorter than 36 bytes fails with an end-of-input error. Otherwise decoding fails exactly when the code exceeds 3, with `ParseError("invalid inventory code")`. On success it consumes exactly 36 bytes, and the item's code is the one read. |
| Inventory.DeserializeSerialize | zebra-network/src/protocol/inv.rs:48-73 | Decoding the encoding of any item, followed by any bytes, gives the item back and leaves those bytes. |
| Inventory.SerializeDeserialize | zebra-network/src/protocol/inv.rs:50-51 | Re-encoding a decoded item gives back the bytes read iff the code is not 0 or the 32 hash bytes are zero. |
| Inventory.DeserializeReadsWholeItem | zebra-network/src/protocol/inv.rs:64-65 | The code and the hash are both read before the code is inspected. The outcome therefore depends only on the first 36 bytes, and an invalid code is reported whatever follows. |
| Inventory.InvalidCodeRejected | zebra-network/src/protocol/inv.rs:66-71 | Every code from 4 to 2^32 - 1, with any hash, is refused with the parse error. |
| Inventory.ReadU32Le | zebra-network/src/protocol/inv.rs:64 | Reading a little-endian `u32` fails iff fewer than 4 bytes remain. Otherwise the input is the encoding of the value read, followed by the rest. |
| Inventory.Read32Bytes | zebra-network/src/protocol/inv.rs:65 | Reading 32 bytes fails iff fewer than 32 remain. Otherwise the input is the bytes read followed by the rest. |
| Inventory.WriteU32LeOfLeValue | zebra-network/src/protocol/inv.rs:56 | Four bytes are determined by the number they encode, so writing that number gives them back. |

Two points about how the code handles timestamps and draining:

- `by_time` is a plain map keyed by time, not a multimap. An update at a time already held by another address overwrites that address's time entry, so timestamp collisions are not tolerated. `UpdatePreservesMirror` therefore takes "no other address holds this time" as a precondition. `UpdateLosesMirror` and `CollisionThenPanic` show what happens without it.
- `Drain::next` removes the `by_addr` entry if there is one (line 136), and it does not abort when that entry is missing.

## Left out

- The `debug!` log line and its count arithmetic (zebra-network/src/address_book.rs:34-38): they have no effect on the state.
- The wall-clock read `Utc::now()` and the chrono conversion of `LIVE_PEER_DURATION` (line 85) become integer parameters. The conversion's `unwrap` failure and chrono's overflow are not modelled. The constant's value is not part of this model.
- `SocketAddr`, `PeerServices` and `DateTime<Utc>` internals: addresses and services are equality types, and times are integers.
- `HashMap` hashing and `BTreeMap` balancing: both are Dafny maps, and the time order comes from the integer keys.
- Iterator laziness and borrow lifetimes: `peers` and `disconnected_peers` are finite sequences. The drain's successive results are the function `Drained`.
- The unused `Arc`, `Mutex`, `mpsc` and tokio imports: they are concurrency plumbing.
- AddressBook.AddressBook.Update: the `expect` on the removed time entry (line 58) is not modelled as a panic. Instead, the precondition `UpdateDefined` excludes exactly the inputs that reach it, and no others: a strictly older observation is accepted regardless. `CollisionThenPanic` shows how that precondition can come to fail.
- `Read`/`Write` streams and their error variants: decoding works on byte sequences, and every short read is the single error `UnexpectedEof`. The reader's position after a failed read is not modelled.
