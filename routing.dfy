/**
  The routing table `_router`: for each overlay address, the set of
  low-address keys known to reach it, with `_router_get` and `_router_add`.
 */
module Routing {
  import opened Wrappers

  type Table = map<string, set<string>>

  /** `_router_get`: the route set, or `None` for `undefined`. */
  function Get(t: Table, addr: string): Option<set<string>>
  {
    if addr in t then Some(t[addr]) else None
  }

  /** `_router_add`: creates the entry when missing, then adds `low` to it. */
  function Add(t: Table, addr: string, low: string): (r: Table)
    ensures Get(r, addr).Some? && low in Get(r, addr).value
    ensures Get(t, addr).Some? ==> Get(t, addr).value <= Get(r, addr).value
    ensures forall l :: l in Get(r, addr).value <==> l == low || (Get(t, addr).Some? && l in Get(t, addr).value)
    ensures forall k :: k != addr ==> Get(r, k) == Get(t, k)
  {
    var routes := if addr in t then t[addr] else {};
    t[addr := routes + {low}]
  }

  datatype Route = Route(addr: string, low: string)

  /** A sequence of `_router_add` calls, in order. */
  function AddAll(t: Table, routes: seq<Route>): Table
    decreases |routes|
  {
    if |routes| == 0 then t
    else
      var n := |routes| - 1;
      Add(AddAll(t, routes[..n]), routes[n].addr, routes[n].low)
  }

  function LowsFor(routes: seq<Route>, addr: string): set<string>
  {
    set r | r in routes && r.addr == addr :: r.low
  }

  /** After any sequence of additions, a key has an entry exactly when it had
      one or was added, and its routes are the old ones plus every route added
      for it: nothing is ever removed, and a key never added stays `undefined`. */
  lemma {:induction false} AddAllGet(t: Table, routes: seq<Route>, addr: string)
    ensures Get(AddAll(t, routes), addr).Some? <==> Get(t, addr).Some? || exists r :: r in routes && r.addr == addr
    ensures Get(AddAll(t, routes), addr).Some? ==>
      Get(AddAll(t, routes), addr).value == (if addr in t then t[addr] else {}) + LowsFor(routes, addr)
    decreases |routes|
  {
    if |routes| > 0 {
      var n := |routes| - 1;
      assert routes == routes[..n] + [routes[n]];
      AddAllGet(t, routes[..n], addr);
      assert LowsFor(routes, addr) == LowsFor(routes[..n], addr) + (if routes[n].addr == addr then {routes[n].low} else {});
    }
  }

  // As written, `_router` is the object literal `{}`, so `this._router[addr]`
  // also finds the members of `Object.prototype`.

  /** The property names every object literal inherits from `Object.prototype`. */
  const PrototypeKeys: set<string> := {
    "__proto__", "constructor", "hasOwnProperty", "isPrototypeOf", "propertyIsEnumerable",
    "toLocaleString", "toString", "valueOf",
    "__defineGetter__", "__defineSetter__", "__lookupGetter__", "__lookupSetter__"
  }

  /** What `this._router[addr]` yields on the object: an own route set, an
      inherited prototype member, or `undefined`. */
  datatype Slot = Own(routes: set<string>) | Inherited | Undefined

  function ObjectGet(t: Table, addr: string): (r: Slot)
    ensures r == Undefined <==> Get(t, addr) == None && addr !in PrototypeKeys
    ensures r.Own? <==> Get(t, addr).Some?
    ensures r.Own? ==> Get(t, addr) == Some(r.routes)
  {
    if addr in t then Own(t[addr]) else if addr in PrototypeKeys then Inherited else Undefined
  }

  /** `_router_add` as written: an inherited member is not `undefined`, so no
      set is created and calling `.add` on it throws a TypeError (`None`). */
  function ObjectAdd(t: Table, addr: string, low: string): (r: Option<Table>)
    ensures r.None? <==> addr !in t && addr in PrototypeKeys
    ensures addr !in PrototypeKeys ==> r == Some(Add(t, addr, low))
    ensures r.Some? ==> r.value == Add(t, addr, low)
  {
    match ObjectGet(t, addr)
    case Undefined =>
      assert {} + {low} == {low};
      Some(t[addr := {low}])
    case Own(routes) => Some(t[addr := routes + {low}])
    case Inherited => None
  }

  /** On a fresh server, `_router_get("toString")` is not `undefined` and
      `_router_add("toString", l)` throws, where the map-based `Get`/`Add` report
      no entry and then store the route. */
  lemma PrototypeKeyCounterexample()
    ensures ObjectGet(map[], "toString") == Inherited
    ensures ObjectAdd(map[], "toString", "ws://peer:80") == None
    ensures Get(map[], "toString") == None
    ensures Get(Add(map[], "toString", "ws://peer:80"), "toString") == Some({"ws://peer:80"})
  {
    assert {} + {"ws://peer:80"} == {"ws://peer:80"};
  }
}
