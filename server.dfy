/**
  The `Server` class: its directory and routing table are fields that the
  message handler and `_router_add` update in place. Every method is proved
  against the pure handler of module Protocol.
 */
module Uninet {
  import opened Wrappers
  import opened Messages
  import opened Codec
  import opened Directory
  import Routing
  import opened Protocol

  class Server {
    const port: int
    const selfUrl: string
    /** `_all_servers`, in insertion order. */
    var allServers: seq<string>
    /** `_router`. */
    var router: Routing.Table
    /** The lines the handler writes to `console_log`. */
    ghost var log: seq<string>

    ghost predicate Valid()
      reads this
    {
      NoDup(allServers) && selfUrl in allServers
    }

    ghost function State(): ServerState
      reads this
    {
      ServerState(allServers, router, log)
    }

    /** The directory starts as the server's own URL alone, unchecked; the routing table empty. */
    constructor (port: int, selfUrl: string)
      ensures this.port == port && this.selfUrl == selfUrl
      ensures State() == Initial(selfUrl)
      ensures Valid()
    {
      this.port := port;
      this.selfUrl := selfUrl;
      router := map[];
      allServers := [selfUrl];
      log := [];
    }

    /** `_router_get`. */
    function RouterGet(addr: string): Option<set<string>>
      reads this
    {
      Routing.Get(router, addr)
    }

    /** `_router_add`: afterwards `addr` routes via `low`, its earlier routes are
        kept, and no other key's entry changes. */
    method RouterAdd(addr: string, low: string)
      requires Valid()
      modifies this
      ensures Valid()
      ensures router == Routing.Add(old(router), addr, low)
      ensures RouterGet(addr).Some? && low in RouterGet(addr).value
      ensures old(RouterGet(addr)).Some? ==> old(RouterGet(addr)).value <= RouterGet(addr).value
      ensures forall k :: k != addr ==> RouterGet(k) == old(RouterGet(k))
      ensures allServers == old(allServers) && log == old(log)
    {
      if addr !in router {
        router := router[addr := {}];
      }
      router := router[addr := router[addr] + {low}];
    }

    /** The `Servers` loop over `msg[1]`: checks an entry, logs it and adds its
        key, then goes on to the next. */
    method AnnounceServers(entries: seq<Json>) returns (out: Outcome)
      requires Valid()
      modifies this
      ensures Valid()
      ensures Transition(State(), out) == Announce(old(State()), entries)
    {
      var i := 0;
      while i < |entries|
        invariant 0 <= i <= |entries|
        invariant forall j :: 0 <= j < i ==> IsServerEntry(entries[j])
        invariant allServers == InsertAll(old(allServers), AnnouncedAddrs(entries[..i]))
        invariant log == old(log) + LogLines(AnnouncedAddrs(entries[..i]))
        invariant router == old(router)
        invariant Valid()
      {
        var x := entries[i];
        if !IsServerEntry(x) {
          AnnounceFailsAt(old(State()), entries, i);
          return Failed(AssertFail);
        }
        var addr := AnnouncedAddr(x);
        AnnouncedAddrsSnoc(entries, i, old(allServers), old(log));
        AddServer(addr);
        i := i + 1;
      }
      AnnounceSucceeds(old(State()), entries);
      out := Accepted;
    }

    /** One step of the `Servers` loop: log the key, then add it to the directory. */
    method AddServer(addr: string)
      requires Valid()
      modifies this
      ensures Valid()
      ensures allServers == Insert(old(allServers), addr)
      ensures log == old(log) + [LogLine(addr)]
      ensures router == old(router)
    {
      log := log + [LogLine(addr)];
      if addr !in allServers {
        allServers := allServers + [addr];
      }
    }

    /** The `GetServers` loop: every stored key decoded, in insertion order;
        `None` when one of them fails the assertion. */
    method ListServers() returns (r: Option<seq<LowAddress>>)
      ensures r.Some? <==> forall i :: 0 <= i < |allServers| ==> Decode(allServers[i]).Some?
      ensures r.Some? ==> |r.value| == |allServers|
      ensures r.Some? ==> forall i :: 0 <= i < |allServers| ==> Encode(r.value[i]) == allServers[i]
      ensures r == DecodeAll(allServers)
    {
      var result: seq<LowAddress> := [];
      var i := 0;
      while i < |allServers|
        invariant 0 <= i <= |allServers|
        invariant DecodeAll(allServers[..i]) == Some(result)
      {
        var d := Decode(allServers[i]);
        if d.None? {
          return None;
        }
        assert allServers[..i + 1][..i] == allServers[..i];
        result := result + [d.value];
        i := i + 1;
      }
      assert allServers[..i] == allServers;
      return Some(result);
    }

    /** The `'message'` handler for one decoded message: the new state and the
        outcome are those of `Handle`. */
    method HandleMessage(msg: Json) returns (out: Outcome)
      requires Valid()
      modifies this
      ensures Valid()
      ensures Transition(State(), out) == Handle(old(State()), msg)
    {
      if !msg.Arr? || |msg.items| == 0 {
        return Failed(AssertFail);
      }
      var tag := TagOf(msg.items[0]);
      if tag == Some(Servers) {
        if |msg.items| == 2 && msg.items[1].Arr? {
          out := AnnounceServers(msg.items[1].items);
        } else {
          out := Failed(AssertFail);
        }
      } else if tag == Some(GetServers) {
        if |msg.items| != 1 {
          return Failed(AssertFail);
        }
        var result := ListServers();
        match result
        case None =>
          out := Failed(AssertFail);
        case Some(addrs) =>
          out := Replied(ServersMessage(addrs));
      } else if tag == Some(RoutingTable) {
        out := Failed(Wip);
      } else if tag == Some(GetRoutingTable) {
        out := Failed(Wip);
      } else if tag == Some(ProxyMe) {
        out := Failed(Wip);
      } else if tag == Some(Packet) {
        out := Failed(Wip);
      } else {
        out := Failed(AssertFail);
      }
    }
  }
}
