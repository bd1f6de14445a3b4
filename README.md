# Uninet WebSocket server: directory, routing table and message dispatch

A Dafny model of the overlay-network server in `index.ts`. A server is
reachable at a low address, a WebSocket URL `ws://host` or `wss://host`.
It keeps two pieces of state:

- the directory `_all_servers`, a set of low-address keys seeded with its own URL;
- the routing table `_router`, from overlay address to a set of low-address keys.

Each message is a JSON array whose first element is a packet type:
`Servers=0, GetServers=1, RoutingTable=2, GetRoutingTable=3, ProxyMe=4, Packet=5`.
The handler does one of four things:

- a `Servers` message `[0, [[scheme, host], ...]]` adds entries to the directory;
- `[1]` is answered with the directory as a `Servers` message;
- tags 2 to 5 throw `'WIP'`;
- anything else fails an assertion.

Modules:

- `Wrappers`: `Option`.
- `Messages`: the decoded JSON value `Json` and the packet types with their ordinals (`TagOf`).
- `Codec`: the low-address codec. `Encode` is the `${scheme}://${host}` template and
  `Decode` is `LowAddressStr2LowAddress`. `FromWire`/`ToWire` convert the wire pair
  `[scheme, host]`, and `DecodeAll` decodes the whole directory.
- `Directory`: the directory as an insertion-ordered sequence without duplicates.
  A JavaScript `Set` iterates in insertion order, so the order of the `[1]` reply is fixed.
- `Routing`: the routing table as a `map`, `_router_get` (`Get`) and `_router_add` (`Add`),
  and the object-literal behaviour of the source (see Findings).
- `Protocol`: the handler as a pure function `Handle(state, message)` returning the new state
  and an outcome: `Accepted`, `Replied(reply)` or `Failed(AssertFail | Wip | TypeError)`.
  Its lemmas state what the handler promises. `HandleAsWritten` is the handler as the code
  actually behaves (see Findings).
- `Uninet`: the class `Server`. Its fields are updated in place by the constructor, `RouterAdd`
  and `HandleMessage`. The `Servers` and `GetServers` loops are `while` loops, each proved
  against `Protocol`.

As written, the handler body at index.ts:68 is a plain `async function` called with no
receiver. So `this` inside it is not the server, and its first use throws a TypeError:
`this._console_log` at index.ts:77 and `this._all_servers.forEach` at index.ts:83.
As written, then:

- a `Servers` message whose first entry passes the check fails before anything is logged or added;
- `[1]` is never answered;
- only `[0, []]` is accepted, and no message changes the state.

`Protocol.HandleAsWritten` models exactly that. `Protocol.Handle`, its lemmas and the class
`Server` model the evidently intended handler, with `this` bound to the server. Every
statement below about logging, adding or replying is about that corrected handler.

Where the documented design of the protocol and the code disagree, the corrected handler still follows the code in every other respect:

- `Servers` entries are checked one at a time inside the loop. Entries before a bad one have
  already been added when the assertion fires; there is no all-or-nothing rejection.
- A route lookup for an unknown key yields `undefined` (`None`), not an empty set.
- Neither the own URL nor an announced host is checked beyond the scheme. A host may be
  empty, and the own URL may lack a `ws://`/`wss://` prefix. In that case every later `[1]`
  fails the assertion in the corrected handler (`Protocol.BadSelfUrlBlocksGetServers`).
  Conversely, every announced key is built from a `ws` or `wss` scheme and so decodes;
  a server whose own URL decodes answers every `[1]` (`Protocol.GoodSelfUrlAlwaysListed`).
- Routing-table sync, proxy registration and packet relay do not exist in the code;
  their tags only throw `'WIP'`.

## Model

| member | source | states |
|---|---|---|
| `Messages.TagOf` | index.ts:19-26 | the tag `msg[0]` denotes packet type `p` exactly when it is the number equal to `p`'s ordinal in the enum |
| `Codec.Encode` | index.ts:76 | the key of a `ws` address is exactly one starting with `ws://`, and that of a `wss` address exactly one starting with `wss://` |
| `Codec.ToWire` | index.ts:82-84 | an address sent as `[scheme, host]` passes the entry check of the `Servers` handler |
| `Codec.Decode` | index.ts:34-40 | decoding succeeds exactly when the string starts with `ws://` or `wss://`, and the decoded address re-encodes to that same string |
| `Codec.DecodeEncode` | index.ts:34-40 | decoding inverts encoding for both schemes and every host, including the empty one (`wss://` is not mistaken for `ws://`) |
| `Codec.EncodeInjective` | index.ts:76 | two addresses with the same key are the same address |
| `Codec.FromWire` | index.ts:75 | a wire entry denotes an address exactly when it passes the entry check (two-element array, `'ws'` or `'wss'`, then a string), and then it is that address's `[scheme, host]` pair |
| `Codec.FromWireToWire` | index.ts:82-84 | a `[scheme, host]` pair sent in a reply passes the entry check and denotes the address it was made from |
| `Codec.DecodeAll` | index.ts:82-83 | the directory is listed exactly when every key decodes; the list then has one address per key, in order, each decoded from that key |
| `Directory.Insert` | index.ts:78 | adding a key adds exactly that key to the set, keeps the earlier keys in order and adds no duplicate |
| `Directory.InsertAll` | index.ts:74-79 | adding several keys yields the union of the old keys and the new ones, with the old ones as a prefix and no duplicates |
| `Directory.InsertAllPresent` | index.ts:78 | adding keys that are all present leaves the directory unchanged |
| `Directory.InsertAllIdempotent` | index.ts:74-79 | announcing the same keys a second time leaves the directory unchanged |
| `Routing.Add` | index.ts:104-109 | after adding, the key has an entry containing the new route, its earlier routes are kept, no other route is added, and every other key's entry is unchanged |
| `Routing.AddAllGet` | index.ts:101-109 | after any sequence of additions, a key has an entry exactly when it had one or was added; its routes are the old ones plus every route added for it, so a key never added stays `undefined` |
| `Routing.ObjectAdd` | index.ts:104-109 | as written on an object literal: `_router_add` throws exactly for a key inherited from `Object.prototype` that has no own entry, and whenever it does not throw its result is `Routing.Add`'s |
| `Routing.ObjectGet` | index.ts:101-103 | as written on an object literal: `_router_get` yields `undefined` exactly for a key with no own entry that is not inherited from `Object.prototype`, and an own entry is the route set `Routing.Get` gives |
| `Routing.Get` | index.ts:101-103 | `_router_get` on the corrected table; what it returns after any additions is fixed by `Routing.AddAllGet` and `Routing.Add` |
| `Uninet.Server.RouterGet` | index.ts:101-103 | corrected table: `_router_get` on the server's own table; `Uninet.Server.RouterAdd` and the constructor state what it returns |
| `Routing.PrototypeKeyCounterexample` | index.ts:101-109 | on a fresh server, `_router_get("toString")` is not `undefined` and `_router_add("toString", …)` throws, while `Get`/`Add` give no entry and then store the route |
| `Protocol.AnnouncedAddr` | index.ts:76 | the key built from an accepted entry is the encoding of the address the entry denotes |
| `Protocol.AnnouncedAddrs` | index.ts:74-76 | the keys of a run of accepted entries are, position by position, the encodings of the addresses they denote |
| `Protocol.LogLine` | index.ts:77 | the line `Servers: add <key>` ends with the key it reports |
| `Protocol.LogLines` | index.ts:74-77 | one log line per entry handled, in order, duplicates included |
| `Protocol.FirstInvalid` | index.ts:74-75 | the position where the loop's assertion fires: every earlier entry passes the check and the entry there fails it |
| `Protocol.AnnouncedAddrsElems` | index.ts:74-78 | the keys added by the first `k` entries are exactly the keys built from those entries |
| `Protocol.Announce` | index.ts:74-79 | corrected handler: the `Servers` loop leaves the routes alone, only extends the directory and the log, and ends either accepted or with the assertion failure |
| `Protocol.ServersMessage` | index.ts:83-84 | the reply `[0, pairs]` is itself a well-formed `Servers` message with one pair per address, each denoting that address |
| `Protocol.Handle` | index.ts:69-95 | corrected handler: no message changes the routes; the directory only grows; only a well-formed `Servers` message changes anything; only `[1]` is replied to; no TypeError arises |
| `Protocol.Run` | index.ts:68-69 | corrected handler: over any sequence of messages the routes stay the same and the directory keeps its old keys as a prefix |
| `Protocol.HandleAsWritten` | index.ts:68-95 | as written: no message changes the state, none is replied to, and the handler throws a TypeError exactly for `[1]` and for a `Servers` message whose first entry passes the check |
| `Protocol.AsWrittenAcceptedIff` | index.ts:72-79 | as written: a message is accepted exactly when it is `[0, []]` |
| `Protocol.AsWrittenAgreesElsewhere` | index.ts:69-95 | on every message where the code as written never reads `this`, it has the same outcome and state as the corrected handler |
| `Protocol.UnboundThisCounterexample` | index.ts:68-84 | on a fresh server, `[1]` and `[0, [["wss", "peer1:443"]]]` throw a TypeError as written, while the corrected handler replies and adds the peer |
| `Protocol.HandleFrame` | index.ts:69-95 | no message changes the routing table; only a well-formed `Servers` message changes anything; the directory only grows, keeps its order and has no duplicates |
| `Protocol.AcceptedIff` | index.ts:72-79 | corrected handler: a message is handled without error and without a reply exactly when it is `[0, entries]` and every entry passes the check |
| `Protocol.RepliedIff` | index.ts:80-84 | corrected handler: a reply is sent exactly for the message `[1]`, and only when every stored key decodes |
| `Protocol.WipIff` | index.ts:85-92 | `'WIP'` is thrown exactly for a non-empty array tagged 2, 3, 4 or 5, and nothing changes then |
| `Protocol.AnnounceStopsAtFirstInvalid` | index.ts:74-78 | corrected handler: with `k` the first entry failing the check, the message fails unless `k` is the end, the directory gains exactly the keys of entries `0..k-1` (no rollback, nothing later) and keeps its old keys in order |
| `Protocol.AnnounceIdempotent` | index.ts:74-79 | corrected handler: re-sending a `Servers` message leaves the directory, routes and outcome as after the first time; the log gets the same lines again, one per entry, duplicates included |
| `Protocol.GetServersReply` | index.ts:80-84 | corrected handler: `[1]` changes nothing; it is answered exactly when every stored key decodes, with `[0, pairs]` holding one entry per key, in insertion order, each passing the entry check and re-encoding to its key; otherwise it fails the assertion |
| `Protocol.SyncRoundTrip` | index.ts:72-84 | corrected handler: the reply one server gives to `[1]`, delivered to any server, is accepted and adds exactly the first server's keys, in order |
| `Protocol.RunGrows` | index.ts:68-95 | over any sequence of messages the directory only grows, keeps its order and has no duplicates, and the routing table is untouched |
| `Protocol.SelfStaysFirst` | index.ts:59-63 | whatever a server is sent, its own URL stays the first directory key, and its routing table stays empty |
| `Protocol.BadSelfUrlBlocksGetServers` | index.ts:59-63 | corrected handler: if the own URL has neither prefix, every `[1]` after any sequence of messages fails the assertion and changes nothing |
| `Protocol.HandleKeepsDecoding` | index.ts:72-78 | corrected handler: every key the `Servers` loop adds decodes, so if every key after the own URL decodes before a message, it still does after it, and the own URL stays first |
| `Protocol.RunKeepsDecoding` | index.ts:68-95 | corrected handler: over any sequence of messages the own URL stays first and every later key decodes |
| `Protocol.GoodSelfUrlAlwaysListed` | index.ts:59-63 | corrected handler: if the own URL decodes, `[1]` is answered with a reply after any sequence of messages (the converse of `Protocol.BadSelfUrlBlocksGetServers`) |
| `Protocol.FreshServerListsItself` | index.ts:80-84 | corrected handler: a server started at `ws://A:9000` answers `[1]` with `[0, [["ws", "A:9000"]]]` |
| `Protocol.AnnouncedPeerIsListed` | index.ts:72-84 | corrected handler: after `[0, [["wss", "peer1:443"]]]` that server answers `[1]` with its own pair followed by `["wss", "peer1:443"]` |
| `Uninet.Server.constructor` | index.ts:49-63 | a new server's directory is exactly its own URL, its routing table is empty, and nothing has been logged |
| `Uninet.Server.RouterAdd` | index.ts:104-109 | corrected table: the table becomes `Routing.Add` of the old one: the key routes via the new address, earlier routes are kept, other keys are unchanged, the directory is untouched, and the class invariant is kept |
| `Uninet.Server.AddServer` | index.ts:77-78 | corrected handler: one loop step logs `Servers: add <key>` and adds the key to the directory |
| `Uninet.Server.AnnounceServers` | index.ts:73-79 | corrected handler: the in-place `Servers` loop leaves the state and the outcome that `Protocol.Announce` specifies, and keeps the directory free of duplicates and holding the own URL |
| `Uninet.Server.ListServers` | index.ts:82-83 | corrected handler: the `forEach`/`push` loop returns the directory decoded in insertion order exactly when every key decodes, each address re-encoding to its key |
| `Uninet.Server.HandleMessage` | index.ts:68-95 | corrected handler: handling one message in place leaves the state and the outcome that `Protocol.Handle` specifies |

## Findings

| source | as written | input that shows it | evidently intended | confidence | as-written member | corrected member |
|---|---|---|---|---|---|---|
| index.ts:68-84 | the handler body is `(async function() { … })()`, a plain function called with no receiver, so `this` is `undefined` (the global object in sloppy code); `this._console_log` at :77 and `this._all_servers.forEach` at :83 throw a TypeError | on a fresh server at `ws://A:9000`, `[1]` sends nothing (TypeError at :83), and `[0, [["wss","peer1:443"]]]` adds and logs nothing (TypeError at :77) | an arrow function `async () => { … }`, so that `this` is the server: `[1]` is answered with `[0, [["ws","A:9000"]]]` and the peer is added | high; not executed | `Protocol.HandleAsWritten` | `Protocol.Handle` |
| index.ts:101-109 | `_router` is the object literal `{}`, so `this._router[addr]` also finds members inherited from `Object.prototype` | on a fresh server, `_router_add("toString", "ws://peer:80")` sees a function, not `undefined`, creates no set and calls `.add` on it (TypeError); `_router_get("toString")` returns that function instead of `undefined` | a dictionary with no inherited keys (for example a `Map`), where every key starts without an entry | high; not executed | `Routing.ObjectAdd` | `Routing.Add` |

For the handler, `Protocol.UnboundThisCounterexample` exhibits both inputs, and
`Protocol.AsWrittenAgreesElsewhere` shows that the two handlers differ only where `this` is read.
The class `Server` and all lemmas about `Handle` use the corrected handler.

The class `Server` uses the corrected table (`Routing.Get`/`Routing.Add` on a `map`).
`Routing.PrototypeKeyCounterexample` exhibits the difference, and `Routing.ObjectAdd`
agrees with `Routing.Add` on every other key.

## Left out

Contracts that describe the corrected handler rather than the code as written (see Findings;
as written, `Protocol.HandleAsWritten` holds instead):

- AcceptedIff: as written, only `[0, []]` is accepted (`Protocol.AsWrittenAcceptedIff`).
- RepliedIff: as written, no message is ever replied to.
- AnnounceStopsAtFirstInvalid: as written, the loop throws at the first entry that passes the check and adds nothing.
- AnnounceIdempotent: as written, nothing is ever logged or added, so the directory and log never change.
- GetServersReply: as written, `[1]` always fails with a TypeError and changes nothing.
- SyncRoundTrip: as written, there is no reply to forward, and a non-empty `Servers` message throws.
- BadSelfUrlBlocksGetServers: as written, `[1]` fails with a TypeError whatever the own URL is.
- GoodSelfUrlAlwaysListed: as written, `[1]` fails with a TypeError whatever the own URL is.
- HandleKeepsDecoding: as written, no message adds a key, so the invariant holds trivially.
- RunKeepsDecoding: as written, no message adds a key, so the invariant holds trivially.
- FreshServerListsItself: as written, the server sends nothing for `[1]`.
- AnnouncedPeerIsListed: as written, both the announcement and `[1]` throw a TypeError.
- Announce: as written, the `Servers` loop ends at its first valid entry with a TypeError.
- Handle: as written, `Protocol.HandleAsWritten` is the handler; `Handle` is its corrected form.
- Run: as written, a run of messages never changes the state.
- AddServer: as written, the step throws at `this._console_log` before logging or adding.
- AnnounceServers: as written, the loop throws on its first valid entry.
- ListServers: as written, `this._all_servers.forEach` throws before any key is decoded.
- HandleMessage: it proves the corrected handler's state and outcome; `Protocol.HandleAsWritten` gives those of the code as written.

Contracts that describe the corrected routing table rather than the object literal `{}` as written (see Findings;
as written, `Routing.ObjectGet` and `Routing.ObjectAdd` hold instead):

- RouterAdd: as written, `_router_add` throws a TypeError for a key such as `"toString"` that `{}` inherits and does not own (`Routing.ObjectAdd`).
- RouterGet: as written, `_router_get` yields the inherited member rather than `undefined` for such a key (`Routing.ObjectGet`).

Other parts of the source:

- The WebSocket server, the connection and message events, and `ws.send` (index.ts:67-68, 84). This is transport; the reply is the `Replied` outcome instead.
- `JSON.parse` and `JSON.stringify` (index.ts:69, 84). The handler takes an already decoded `Json` value. JSON numbers are modelled as reals, not IEEE doubles; null, booleans and objects are all one case, `Other`, since the handler rejects each of them wherever it looks.
- The async wrapper and `.catch(this._console_error)` (index.ts:68, 96). A rejected promise is a `Failed` outcome; the error sink is not modelled.
- The startup log line (index.ts:65). It needs the port rendered as text. The handler's `Servers: add` lines are kept as a ghost log.
- The default console sinks (index.ts:56-57) and the unused `uninet-address` import (index.ts:15). The port (index.ts:58) is kept as a field but only the transport and the startup log line use it.
- `send_packet` (index.ts:111-113). It only throws `'WIP'`, and nothing calls it.
- Routing-table sync, proxy registration and packet relay. These are not in the code; their tags throw `'WIP'` (`Protocol.WipIff`).
- The routing table is private and nothing in the code calls `_router_get` or `_router_add`. They are modelled as members of `Server` and proved on their own, but no message reaches them.
- Concurrency between connections. Messages on one server are modelled as handled one at a time (`Protocol.Run`).
