/**
  The wire messages a server receives, after `JSON.parse`: a small JSON value
  and the packet-type enumeration whose ordinal is the first array element.
 */
module Messages {
  import opened Wrappers

  /** A decoded JSON value. Numbers are reals; `Other` stands for null, true,
      false and objects, none of which the handler ever accepts where it looks. */
  datatype Json = Num(n: real) | Str(s: string) | Arr(items: seq<Json>) | Other

  /** The packet types, in their wire order (the ordinal is significant). */
  datatype PacketType = Servers | GetServers | RoutingTable | GetRoutingTable | ProxyMe | Packet

  /** The number a `const enum` member compiles to. */
  function Ordinal(p: PacketType): real
  {
    match p
    case Servers => 0.0
    case GetServers => 1.0
    case RoutingTable => 2.0
    case GetRoutingTable => 3.0
    case ProxyMe => 4.0
    case Packet => 5.0
  }

  /** Which packet type, if any, the tag `msg[0]` is strictly equal to. */
  function TagOf(j: Json): (t: Option<PacketType>)
    ensures forall p :: t == Some(p) <==> j == Num(Ordinal(p))
  {
    if !j.Num? then None
    else if j.n == 0.0 then Some(Servers)
    else if j.n == 1.0 then Some(GetServers)
    else if j.n == 2.0 then Some(RoutingTable)
    else if j.n == 3.0 then Some(GetRoutingTable)
    else if j.n == 4.0 then Some(ProxyMe)
    else if j.n == 5.0 then Some(Packet)
    else None
  }
}
