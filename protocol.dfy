/**
  The per-message handler of a server, as a function from the server's state
  and one decoded message to the new state and the outcome. Transport, JSON
  text and the error sink are not part of it: a reply is returned, a rejected
  promise is a `Failed` outcome.
 */
module Protocol {
  import opened Wrappers
  import opened Messages
  import opened Codec
  import opened Directory
  import Routing

  /** Why the handler's promise rejects: a failed `assert`, the string `'WIP'`,
      or a TypeError from a property access on an undefined value. */
  datatype Fault = AssertFail | Wip | TypeError

  /** `Accepted`: handled, nothing sent. `Replied`: the message `ws.send` gets. */
  datatype Outcome = Accepted | Replied(reply: Json) | Failed(fault: Fault)

  /** The fields the handler touches: `_all_servers`, `_router`, and the lines
      written to the log sink by the handler. */
  datatype ServerState = ServerState(servers: seq<string>, router: Routing.Table, log: seq<string>)

  datatype Transition = Transition(state: ServerState, outcome: Outcome)

  /** The state right after construction: the server's own URL and no routes. */
  function Initial(selfUrl: string): ServerState
  {
    ServerState([selfUrl], map[], [])
  }

  /** The address key the `Servers` handler builds: `${x[0]}://${x[1]}`. */
  function AnnouncedAddr(x: Json): (a: string)
    requires IsServerEntry(x)
    ensures a == Encode(FromWire(x).value)
  {
    x.items[0].s + "://" + x.items[1].s
  }

  function AnnouncedAddrs(entries: seq<Json>): (r: seq<string>)
    requires forall i :: 0 <= i < |entries| ==> IsServerEntry(entries[i])
    ensures |r| == |entries|
    ensures forall i :: 0 <= i < |entries| ==> r[i] == Encode(FromWire(entries[i]).value)
    decreases |entries|
  {
    if |entries| == 0 then []
    else
      var n := |entries| - 1;
      AnnouncedAddrs(entries[..n]) + [AnnouncedAddr(entries[n])]
  }

  function LogLine(addr: string): (line: string)
    ensures |line| == 13 + |addr| && line[13..] == addr
  {
    "Servers: add " + addr
  }

  /** One log line per entry handled, duplicates included. */
  function LogLines(addrs: seq<string>): (lines: seq<string>)
    ensures |lines| == |addrs|
    ensures forall i :: 0 <= i < |addrs| ==> lines[i] == LogLine(addrs[i])
    decreases |addrs|
  {
    if |addrs| == 0 then []
    else
      var n := |addrs| - 1;
      LogLines(addrs[..n]) + [LogLine(addrs[n])]
  }

  /** The index of the first entry that fails the entry check, or the length. */
  function FirstInvalid(entries: seq<Json>): (k: nat)
    ensures k <= |entries|
    ensures forall i :: 0 <= i < k ==> IsServerEntry(entries[i])
    ensures k < |entries| ==> !IsServerEntry(entries[k])
  {
    if |entries| == 0 || !IsServerEntry(entries[0]) then 0
    else 1 + FirstInvalid(entries[1..])
  }

  /** The `Servers` loop: each entry is checked and then added, so when the
      assertion fails on an entry, the ones before it have been added already. */
  function Announce(st: ServerState, entries: seq<Json>): (r: Transition)
    ensures r.state.router == st.router
    ensures st.servers <= r.state.servers && st.log <= r.state.log
    ensures r.outcome == Accepted || r.outcome == Failed(AssertFail)
  {
    var k := FirstInvalid(entries);
    var addrs := AnnouncedAddrs(entries[..k]);
    Transition(
      st.(servers := InsertAll(st.servers, addrs), log := st.log + LogLines(addrs)),
      if k == |entries| then Accepted else Failed(AssertFail))
  }

  /** A well-formed `Servers` message: `[0, entries]` with an array of entries. */
  predicate IsServersMessage(msg: Json)
  {
    msg.Arr? && |msg.items| == 2 && TagOf(msg.items[0]) == Some(Servers) && msg.items[1].Arr?
  }

  /** The `Servers` message carrying `addrs`: `[0, [[scheme, host], ...]]`. */
  function ServersMessage(addrs: seq<LowAddress>): (m: Json)
    ensures IsServersMessage(m)
    ensures |m.items[1].items| == |addrs|
    ensures forall i :: 0 <= i < |addrs| ==> FromWire(m.items[1].items[i]) == Some(addrs[i])
  {
    Arr([Num(Ordinal(Servers)), Arr(ToWireAll(addrs))])
  }

  const GetServersRequest: Json := Arr([Num(Ordinal(GetServers))])

  /** The body of the `'message'` handler, after `JSON.parse`, with `this`
      bound to the server (see `HandleAsWritten` for the code as written). */
  function Handle(st: ServerState, msg: Json): (r: Transition)
    ensures r.state.router == st.router
    ensures st.servers <= r.state.servers
    ensures !IsServersMessage(msg) ==> r.state == st
    ensures r.outcome.Replied? ==> msg == GetServersRequest
    ensures r.outcome != Failed(TypeError)
  {
    if !msg.Arr? || |msg.items| == 0 then Transition(st, Failed(AssertFail))
    else
      var tag := TagOf(msg.items[0]);
      if tag == Some(Servers) then
        if |msg.items| == 2 && msg.items[1].Arr? then Announce(st, msg.items[1].items)
        else Transition(st, Failed(AssertFail))
      else if tag == Some(GetServers) then
        if |msg.items| != 1 then Transition(st, Failed(AssertFail))
        else
          match DecodeAll(st.servers)
          case None => Transition(st, Failed(AssertFail))
          case Some(addrs) => Transition(st, Replied(ServersMessage(addrs)))
      else if tag.Some? then Transition(st, Failed(Wip))
      else Transition(st, Failed(AssertFail))
  }

  /** Messages handled one after the other on a server. */
  function Run(st: ServerState, msgs: seq<Json>): (r: ServerState)
    ensures r.router == st.router
    ensures st.servers <= r.servers
    decreases |msgs|
  {
    if |msgs| == 0 then st
    else
      var n := |msgs| - 1;
      Handle(Run(st, msgs[..n]), msgs[n]).state
  }

  // The handler as written. Its body is a plain `async function` called with
  // no receiver, so `this` inside it is not the server: `undefined` in strict
  // code, the global object otherwise, and neither has `_console_log` or
  // `_all_servers`. The first statement that reads one of them throws.

  /** The messages on which the handler as written reaches a use of `this`:
      a `Servers` message whose first entry passes the check (`this._console_log`),
      and `[1]` (`this._all_servers.forEach`). */
  predicate UsesThis(msg: Json)
  {
    (IsServersMessage(msg) && |msg.items[1].items| > 0 && IsServerEntry(msg.items[1].items[0]))
    || msg == GetServersRequest
  }

  /** The `'message'` handler as written: the checks run as in `Handle`, but the
      first use of `this` throws, so nothing is ever logged, added or sent. */
  function HandleAsWritten(st: ServerState, msg: Json): (r: Transition)
    ensures r.state == st
    ensures r.outcome == Failed(TypeError) <==> UsesThis(msg)
    ensures !r.outcome.Replied?
  {
    if !msg.Arr? || |msg.items| == 0 then Transition(st, Failed(AssertFail))
    else
      var tag := TagOf(msg.items[0]);
      if tag == Some(Servers) then
        if |msg.items| == 2 && msg.items[1].Arr? then
          var entries := msg.items[1].items;
          if |entries| == 0 then Transition(st, Accepted)
          else if !IsServerEntry(entries[0]) then Transition(st, Failed(AssertFail))
          else Transition(st, Failed(TypeError))
        else Transition(st, Failed(AssertFail))
      else if tag == Some(GetServers) then
        if |msg.items| != 1 then Transition(st, Failed(AssertFail))
        else
          assert msg.items == [Num(Ordinal(GetServers))];
          Transition(st, Failed(TypeError))
      else if tag.Some? then Transition(st, Failed(Wip))
      else Transition(st, Failed(AssertFail))
  }

  /** As written, a message is accepted only when it is `[0, []]`. */
  lemma AsWrittenAcceptedIff(st: ServerState, msg: Json)
    ensures HandleAsWritten(st, msg).outcome == Accepted <==> IsServersMessage(msg) && msg.items[1].items == []
  {
  }

  /** Where the handler as written does not reach `this`, it behaves exactly as
      the corrected handler: same outcome, same (unchanged) state. */
  lemma AsWrittenAgreesElsewhere(st: ServerState, msg: Json)
    requires !UsesThis(msg)
    ensures HandleAsWritten(st, msg) == Handle(st, msg)
  {
    if IsServersMessage(msg) {
      var entries := msg.items[1].items;
      assert FirstInvalid(entries) == 0;
      assert entries[..0] == [];
      assert st.log + [] == st.log;
    }
  }

  /** On a fresh server, `[1]` and `[0, [["wss", "peer1:443"]]]` throw a TypeError
      as written, where the corrected handler replies and adds the peer. */
  lemma UnboundThisCounterexample()
    ensures HandleAsWritten(Initial("ws://A:9000"), GetServersRequest).outcome == Failed(TypeError)
    ensures Handle(Initial("ws://A:9000"), GetServersRequest).outcome.Replied?
    ensures
      var announce := Arr([Num(0.0), Arr([Arr([Str("wss"), Str("peer1:443")])])]);
      HandleAsWritten(Initial("ws://A:9000"), announce) == Transition(Initial("ws://A:9000"), Failed(TypeError)) &&
      Handle(Initial("ws://A:9000"), announce).outcome == Accepted &&
      Handle(Initial("ws://A:9000"), announce).state.servers == ["ws://A:9000", "wss://peer1:443"]
  {
    var a := LowAddress(Ws, "A:9000");
    var p := LowAddress(Wss, "peer1:443");
    assert Encode(p) == "wss" + "://" + "peer1:443" == "wss://peer1:443";
    assert Encode(a) == "ws://A:9000";
    FreshServerListsItself();
    assert a != p;
    var announce := Arr([Num(0.0), Arr([Arr([Str("wss"), Str("peer1:443")])])]);
    assert ToWireAll([p]) == [ToWire(p)];
    assert announce == ServersMessage([p]);
    PeerAnnounced(a, p);
    var entries := [ToWire(p)];
    AnnounceStopsAtFirstInvalid(Initial(Encode(a)), entries, 1);
  }

  // Steps of the `Servers` loop, as the class method takes them.

  /** Handling entry `i` extends the keys and the log lines of the first `i` entries by one. */
  lemma AnnouncedAddrsSnoc(entries: seq<Json>, i: nat, servers: seq<string>, log: seq<string>)
    requires i < |entries|
    requires forall j :: 0 <= j <= i ==> IsServerEntry(entries[j])
    ensures AnnouncedAddrs(entries[..i + 1]) == AnnouncedAddrs(entries[..i]) + [AnnouncedAddr(entries[i])]
    ensures log + LogLines(AnnouncedAddrs(entries[..i + 1])) ==
      log + LogLines(AnnouncedAddrs(entries[..i])) + [LogLine(AnnouncedAddr(entries[i]))]
    ensures InsertAll(servers, AnnouncedAddrs(entries[..i + 1])) ==
      Insert(InsertAll(servers, AnnouncedAddrs(entries[..i])), AnnouncedAddr(entries[i]))
  {
    assert entries[..i + 1][..i] == entries[..i];
    var addrs := AnnouncedAddrs(entries[..i + 1]);
    assert addrs[..i] == AnnouncedAddrs(entries[..i]);
    var lines := LogLines(AnnouncedAddrs(entries[..i]));
    assert log + lines + [LogLine(addrs[i])] == log + (lines + [LogLine(addrs[i])]);
  }

  /** When entry `i` is the first to fail the check, the loop ends with the first `i` entries applied. */
  lemma AnnounceFailsAt(st: ServerState, entries: seq<Json>, i: nat)
    requires i < |entries|
    requires forall j :: 0 <= j < i ==> IsServerEntry(entries[j])
    requires !IsServerEntry(entries[i])
    ensures Announce(st, entries) == Transition(
      st.(servers := InsertAll(st.servers, AnnouncedAddrs(entries[..i])),
          log := st.log + LogLines(AnnouncedAddrs(entries[..i]))),
      Failed(AssertFail))
  {
    assert FirstInvalid(entries) == i;
  }

  /** When every entry passes, the loop ends with all of them applied. */
  lemma AnnounceSucceeds(st: ServerState, entries: seq<Json>)
    requires forall j :: 0 <= j < |entries| ==> IsServerEntry(entries[j])
    ensures Announce(st, entries) == Transition(
      st.(servers := InsertAll(st.servers, AnnouncedAddrs(entries)),
          log := st.log + LogLines(AnnouncedAddrs(entries))),
      Accepted)
  {
    assert FirstInvalid(entries) == |entries|;
    assert entries[..|entries|] == entries;
  }

  // Properties of the handler.

  /** Only a well-formed `Servers` message changes the state. The routing table
      never changes; the directory only grows, keeping its order and having no
      duplicates; the log only grows. */
  lemma HandleFrame(st: ServerState, msg: Json)
    ensures Handle(st, msg).state.router == st.router
    ensures st.servers <= Handle(st, msg).state.servers
    ensures NoDup(st.servers) ==> NoDup(Handle(st, msg).state.servers)
    ensures st.log <= Handle(st, msg).state.log
    ensures !IsServersMessage(msg) ==> Handle(st, msg).state == st
  {
  }

  /** A message is accepted exactly when it is a `Servers` message all of whose entries pass. */
  lemma AcceptedIff(st: ServerState, msg: Json)
    ensures Handle(st, msg).outcome == Accepted <==>
      IsServersMessage(msg) && forall i :: 0 <= i < |msg.items[1].items| ==> IsServerEntry(msg.items[1].items[i])
  {
  }

  /** A reply is sent exactly for `[1]`, and only when every stored key decodes. */
  lemma RepliedIff(st: ServerState, msg: Json)
    ensures Handle(st, msg).outcome.Replied? <==>
      msg == GetServersRequest && forall i :: 0 <= i < |st.servers| ==> Decode(st.servers[i]).Some?
  {
  }

  /** `'WIP'` is thrown exactly for the tags 2 to 5, whatever follows them, and
      then nothing changes. */
  lemma WipIff(st: ServerState, msg: Json)
    ensures Handle(st, msg).outcome == Failed(Wip) <==>
      msg.Arr? && |msg.items| > 0 &&
      TagOf(msg.items[0]) in {Some(RoutingTable), Some(GetRoutingTable), Some(ProxyMe), Some(Packet)}
    ensures Handle(st, msg).outcome == Failed(Wip) ==> Handle(st, msg).state == st
  {
  }

  /** The `Servers` loop stops at the first entry that fails the check: the
      entries before it are in the directory, nothing else is added, and the
      message fails unless every entry passed. There is no rollback. */
  lemma AnnounceStopsAtFirstInvalid(st: ServerState, entries: seq<Json>, k: nat)
    requires k <= |entries|
    requires forall i :: 0 <= i < k ==> IsServerEntry(entries[i])
    requires k < |entries| ==> !IsServerEntry(entries[k])
    ensures Announce(st, entries).outcome == if k == |entries| then Accepted else Failed(AssertFail)
    ensures forall a :: a in Announce(st, entries).state.servers <==>
      a in st.servers || exists i :: 0 <= i < k && a == AnnouncedAddr(entries[i])
    ensures st.servers <= Announce(st, entries).state.servers
    ensures Announce(st, entries).state.router == st.router
  {
    assert FirstInvalid(entries) == k;
    var addrs := AnnouncedAddrs(entries[..k]);
    var servers := InsertAll(st.servers, addrs);
    assert Announce(st, entries).state.servers == servers;
    assert Elems(servers) == Elems(st.servers) + Elems(addrs);
    AnnouncedAddrsElems(entries, k);
    forall a
      ensures a in servers <==> a in st.servers || exists i :: 0 <= i < k && a == AnnouncedAddr(entries[i])
    {
      assert a in servers <==> a in Elems(servers);
      assert a in st.servers <==> a in Elems(st.servers);
    }
  }

  /** The keys announced by the first `k` entries, as a set. */
  lemma AnnouncedAddrsElems(entries: seq<Json>, k: nat)
    requires k <= |entries|
    requires forall i :: 0 <= i < k ==> IsServerEntry(entries[i])
    ensures forall a :: a in Elems(AnnouncedAddrs(entries[..k])) <==>
      exists i :: 0 <= i < k && a == AnnouncedAddr(entries[i])
  {
  }

  /** Re-announcing a list leaves the directory, the routes and the outcome as
      they were; the log gets the same lines a second time. */
  lemma AnnounceIdempotent(st: ServerState, msg: Json)
    requires IsServersMessage(msg)
    ensures |st.log| <= |Handle(st, msg).state.log|
    ensures
      var once := Handle(st, msg);
      var twice := Handle(once.state, msg);
      twice.state.servers == once.state.servers &&
      twice.state.router == once.state.router &&
      twice.outcome == once.outcome &&
      twice.state.log == once.state.log + once.state.log[|st.log|..]
  {
    var entries := msg.items[1].items;
    var addrs := AnnouncedAddrs(entries[..FirstInvalid(entries)]);
    InsertAllIdempotent(st.servers, addrs);
    var once := Handle(st, msg);
    assert once.state.log[|st.log|..] == LogLines(addrs);
  }

  /** `[1]` changes nothing. It is answered when every stored key decodes, with
      one `[scheme, host]` pair per key, in insertion order, each re-encoding to
      that key; otherwise it fails the assertion. */
  lemma GetServersReply(st: ServerState)
    ensures Handle(st, GetServersRequest).state == st
    ensures Handle(st, GetServersRequest).outcome.Replied? <==>
      forall i :: 0 <= i < |st.servers| ==> Decode(st.servers[i]).Some?
    ensures !Handle(st, GetServersRequest).outcome.Replied? ==>
      Handle(st, GetServersRequest).outcome == Failed(AssertFail)
    ensures Handle(st, GetServersRequest).outcome.Replied? ==>
      var r := Handle(st, GetServersRequest).outcome.reply;
      r.Arr? && |r.items| == 2 && r.items[0] == Num(Ordinal(Servers)) && r.items[1].Arr? &&
      |r.items[1].items| == |st.servers| &&
      forall i :: 0 <= i < |st.servers| ==>
        IsServerEntry(r.items[1].items[i]) && AnnouncedAddr(r.items[1].items[i]) == st.servers[i]
  {
  }

  /** Directory exchange: the reply one server gives to `[1]`, delivered to any
      server, is accepted and adds exactly the first server's keys, in order. */
  lemma SyncRoundTrip(a: ServerState, b: ServerState, reply: Json)
    requires Handle(a, GetServersRequest).outcome == Replied(reply)
    ensures Handle(b, reply).outcome == Accepted
    ensures Handle(b, reply).state.servers == InsertAll(b.servers, a.servers)
    ensures Elems(Handle(b, reply).state.servers) == Elems(b.servers) + Elems(a.servers)
  {
    var addrs := DecodeAll(a.servers).value;
    assert reply == ServersMessage(addrs);
    var entries := reply.items[1].items;
    AnnounceSucceeds(b, entries);
    var keys := AnnouncedAddrs(entries);
    forall i | 0 <= i < |a.servers|
      ensures keys[i] == a.servers[i]
    {
      assert FromWire(entries[i]) == Some(addrs[i]);
    }
    assert keys == a.servers;
  }

  /** Over any run of messages the directory only grows and the routing table is untouched. */
  lemma {:induction false} RunGrows(st: ServerState, msgs: seq<Json>)
    ensures st.servers <= Run(st, msgs).servers
    ensures NoDup(st.servers) ==> NoDup(Run(st, msgs).servers)
    ensures Run(st, msgs).router == st.router
    decreases |msgs|
  {
    if |msgs| > 0 {
      var n := |msgs| - 1;
      RunGrows(st, msgs[..n]);
      HandleFrame(Run(st, msgs[..n]), msgs[n]);
    }
  }

  /** Whatever a server is sent, its own URL stays the first key of the directory. */
  lemma SelfStaysFirst(selfUrl: string, msgs: seq<Json>)
    ensures |Run(Initial(selfUrl), msgs).servers| > 0
    ensures Run(Initial(selfUrl), msgs).servers[0] == selfUrl
    ensures NoDup(Run(Initial(selfUrl), msgs).servers)
    ensures Run(Initial(selfUrl), msgs).router == map[]
  {
  }

  /** The own URL is stored unchecked: if it has neither prefix, every later
      `[1]` fails the assertion. */
  lemma BadSelfUrlBlocksGetServers(selfUrl: string, msgs: seq<Json>)
    requires !StartsWith(selfUrl, "ws://") && !StartsWith(selfUrl, "wss://")
    ensures
      var st := Run(Initial(selfUrl), msgs);
      Handle(st, GetServersRequest) == Transition(st, Failed(AssertFail))
  {
    SelfStaysFirst(selfUrl, msgs);
    var st := Run(Initial(selfUrl), msgs);
    assert Decode(st.servers[0]).None?;
    assert DecodeAll(st.servers).None?;
  }

  /** Every key after the first (the own URL, stored unchecked) decodes. */
  predicate TailDecodes(s: seq<string>)
  {
    forall i :: 1 <= i < |s| ==> Decode(s[i]).Some?
  }

  /** Adding a key that decodes keeps the first key and the invariant. */
  lemma InsertDecodes(s: seq<string>, a: string)
    requires |s| > 0 && TailDecodes(s) && Decode(a).Some?
    ensures |Insert(s, a)| > 0 && Insert(s, a)[0] == s[0]
    ensures TailDecodes(Insert(s, a))
  {
  }

  lemma {:induction false} InsertAllDecodes(s: seq<string>, addrs: seq<string>)
    requires |s| > 0 && TailDecodes(s)
    requires forall i :: 0 <= i < |addrs| ==> Decode(addrs[i]).Some?
    ensures |InsertAll(s, addrs)| > 0 && InsertAll(s, addrs)[0] == s[0]
    ensures TailDecodes(InsertAll(s, addrs))
    decreases |addrs|
  {
    if |addrs| > 0 {
      var n := |addrs| - 1;
      InsertAllDecodes(s, addrs[..n]);
      InsertDecodes(InsertAll(s, addrs[..n]), addrs[n]);
    }
  }

  /** Every key the `Servers` handler adds is `${scheme}://${host}` with a
      scheme of `ws` or `wss`, so it decodes: the handler keeps the invariant. */
  lemma HandleKeepsDecoding(st: ServerState, msg: Json)
    requires |st.servers| > 0 && TailDecodes(st.servers)
    ensures |Handle(st, msg).state.servers| > 0
    ensures Handle(st, msg).state.servers[0] == st.servers[0]
    ensures TailDecodes(Handle(st, msg).state.servers)
  {
    if IsServersMessage(msg) {
      var entries := msg.items[1].items;
      var addrs := AnnouncedAddrs(entries[..FirstInvalid(entries)]);
      forall i | 0 <= i < |addrs|
        ensures Decode(addrs[i]).Some?
      {
        DecodeEncode(FromWire(entries[i]).value);
      }
      InsertAllDecodes(st.servers, addrs);
    }
  }

  lemma {:induction false} RunKeepsDecoding(st: ServerState, msgs: seq<Json>)
    requires |st.servers| > 0 && TailDecodes(st.servers)
    ensures |Run(st, msgs).servers| > 0 && Run(st, msgs).servers[0] == st.servers[0]
    ensures TailDecodes(Run(st, msgs).servers)
    decreases |msgs|
  {
    if |msgs| > 0 {
      var n := |msgs| - 1;
      RunKeepsDecoding(st, msgs[..n]);
      HandleKeepsDecoding(Run(st, msgs[..n]), msgs[n]);
    }
  }

  /** The converse of `BadSelfUrlBlocksGetServers`: a server whose own URL
      decodes answers `[1]` after any run, since announced keys always decode. */
  lemma GoodSelfUrlAlwaysListed(selfUrl: string, msgs: seq<Json>)
    requires Decode(selfUrl).Some?
    ensures Handle(Run(Initial(selfUrl), msgs), GetServersRequest).outcome.Replied?
  {
    RunKeepsDecoding(Initial(selfUrl), msgs);
    var st := Run(Initial(selfUrl), msgs);
    RepliedIff(st, GetServersRequest);
  }

  /** A server started at `ws://A:9000` answers `[1]` with its own address only. */
  lemma FreshServerListsItself()
    ensures Handle(Initial("ws://A:9000"), GetServersRequest).outcome ==
      Replied(Arr([Num(0.0), Arr([Arr([Str("ws"), Str("A:9000")])])]))
  {
    var a := LowAddress(Ws, "A:9000");
    assert Encode(a) == "ws://A:9000";
    DecodeEncode(a);
    var servers := Initial("ws://A:9000").servers;
    assert servers[..0] == [];
    assert Decode(servers[0]) == Some(a);
    assert DecodeAll(servers) == Some([] + [a]);
    assert [] + [a] == [a];
    assert ToWireAll([a]) == [ToWire(a)];
  }

  /** After `[0, [["wss", "peer1:443"]]]` the same server lists both addresses. */
  lemma AnnouncedPeerIsListed()
    ensures
      var st := Handle(Initial("ws://A:9000"), Arr([Num(0.0), Arr([Arr([Str("wss"), Str("peer1:443")])])])).state;
      Handle(st, GetServersRequest).outcome ==
        Replied(Arr([Num(0.0), Arr([Arr([Str("ws"), Str("A:9000")]), Arr([Str("wss"), Str("peer1:443")])])]))
  {
    var a := LowAddress(Ws, "A:9000");
    var p := LowAddress(Wss, "peer1:443");
    assert a != p;
    var msg := Arr([Num(0.0), Arr([Arr([Str("wss"), Str("peer1:443")])])]);
    assert ToWireAll([p]) == [ToWire(p)];
    assert msg == ServersMessage([p]);
    assert Encode(a) == "ws://A:9000";
    PeerAnnounced(a, p);
    var st := Handle(Initial(Encode(a)), msg).state;
    ListedInOrder(st, a, p);
    assert ToWireAll([a, p]) == [ToWire(a), ToWire(p)];
  }

  /** Announcing a second address to a fresh server appends it after the own URL. */
  lemma PeerAnnounced(a: LowAddress, p: LowAddress)
    requires a != p
    ensures Handle(Initial(Encode(a)), ServersMessage([p])).state.servers == [Encode(a), Encode(p)]
  {
    EncodeInjective(a, p);
    var entries := ToWireAll([p]);
    assert entries == [ToWire(p)];
    FromWireToWire(p);
    AnnounceStopsAtFirstInvalid(Initial(Encode(a)), entries, 1);
    assert entries[..1] == entries;
    assert entries[..0] == [];
    assert AnnouncedAddrs(entries) == [] + [Encode(p)];
    var servers := InsertAll([Encode(a)], [Encode(p)]);
    assert [Encode(p)][..0] == [];
    assert InsertAll([Encode(a)], []) == [Encode(a)];
    assert Encode(p) !in [Encode(a)];
    assert servers == [Encode(a), Encode(p)];
  }

  /** A directory holding two decodable keys is listed as their two pairs, in order. */
  lemma ListedInOrder(st: ServerState, a: LowAddress, p: LowAddress)
    requires st.servers == [Encode(a), Encode(p)]
    ensures Handle(st, GetServersRequest).outcome == Replied(ServersMessage([a, p]))
  {
    DecodeEncode(a);
    DecodeEncode(p);
    var servers := st.servers;
    assert servers[..1] == [Encode(a)];
    assert [Encode(a)][..0] == [];
    assert DecodeAll([Encode(a)]) == Some([] + [a]);
    assert [] + [a] == [a];
    assert DecodeAll(servers) == Some([a] + [p]);
    assert [a] + [p] == [a, p];
  }
}
