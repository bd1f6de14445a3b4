/**
  The low-address codec: a WebSocket server address as a `(scheme, host)`
  pair, its string key `scheme://host`, and its wire form `[scheme, host]`.
 */
module Codec {
  import opened Wrappers
  import opened Messages

  datatype Scheme = Ws | Wss
  datatype LowAddress = LowAddress(scheme: Scheme, host: string)

  function SchemeName(s: Scheme): string
  {
    match s
    case Ws => "ws"
    case Wss => "wss"
  }

  predicate StartsWith(s: string, prefix: string)
  {
    |prefix| <= |s| && s[..|prefix|] == prefix
  }

  /** The string key of a low address: the template `${scheme}://${host}`. */
  function Encode(a: LowAddress): (r: string)
    ensures StartsWith(r, "ws://") <==> a.scheme == Ws
    ensures StartsWith(r, "wss://") <==> a.scheme == Wss
  {
    var r := SchemeName(a.scheme) + "://" + a.host;
    assert r[..|SchemeName(a.scheme)| + 3] == SchemeName(a.scheme) + "://";
    assert a.scheme == Wss ==> r[2] == 's';
    assert a.scheme == Ws ==> r[2] == ':';
    r
  }

  /** `LowAddressStr2LowAddress`: strips `ws://` or `wss://`; any other string
      fails the assertion, modelled as `None`. */
  function Decode(x: string): (r: Option<LowAddress>)
    ensures r.Some? <==> StartsWith(x, "ws://") || StartsWith(x, "wss://")
    ensures r.Some? ==> Encode(r.value) == x
  {
    if StartsWith(x, "ws://") then
      assert x == "ws://" + x[5..];
      Some(LowAddress(Ws, x[5..]))
    else if StartsWith(x, "wss://") then
      assert x == "wss://" + x[6..];
      Some(LowAddress(Wss, x[6..]))
    else
      None
  }

  /** Decoding inverts encoding, for either scheme and any host, even the empty one. */
  lemma {:induction false} DecodeEncode(a: LowAddress)
    ensures Decode(Encode(a)) == Some(a)
  {
    var x := Encode(a);
    match a.scheme
    case Ws =>
      assert x[..5] == "ws://";
      assert x[5..] == a.host;
    case Wss =>
      assert x[2] == 's';
      assert !StartsWith(x, "ws://");
      assert x[..6] == "wss://";
      assert x[6..] == a.host;
  }

  /** Two addresses share a key only if they are the same address. */
  lemma EncodeInjective(a: LowAddress, b: LowAddress)
    ensures Encode(a) == Encode(b) ==> a == b
  {
    DecodeEncode(a);
    DecodeEncode(b);
  }

  /** The entry check of the `Servers` handler: a two-element array whose first
      element is the string `ws` or `wss` and whose second is a string. */
  predicate IsServerEntry(x: Json)
  {
    x.Arr? && |x.items| == 2 && (x.items[0] == Str("ws") || x.items[0] == Str("wss")) && x.items[1].Str?
  }

  /** The address an entry on the wire denotes, when it passes the entry check. */
  function FromWire(x: Json): (r: Option<LowAddress>)
    ensures r.Some? <==> IsServerEntry(x)
    ensures r.Some? ==> x == ToWire(r.value)
  {
    if !IsServerEntry(x) then None
    else if x.items[0] == Str("ws") then Some(LowAddress(Ws, x.items[1].s))
    else Some(LowAddress(Wss, x.items[1].s))
  }

  /** A low address as it travels in a `Servers` message: `[scheme, host]`. */
  function ToWire(a: LowAddress): (j: Json)
    ensures IsServerEntry(j)
  {
    Arr([Str(SchemeName(a.scheme)), Str(a.host)])
  }

  lemma FromWireToWire(a: LowAddress)
    ensures FromWire(ToWire(a)) == Some(a)
  {
  }

  function ToWireAll(addrs: seq<LowAddress>): seq<Json>
  {
    seq(|addrs|, i requires 0 <= i < |addrs| => ToWire(addrs[i]))
  }

  /** The `GetServers` loop that decodes each directory key in order: the
      decoded addresses, or `None` once one key fails the assertion. */
  function DecodeAll(s: seq<string>): (r: Option<seq<LowAddress>>)
    ensures r.Some? <==> forall i :: 0 <= i < |s| ==> Decode(s[i]).Some?
    ensures r.Some? ==> |r.value| == |s| && forall i :: 0 <= i < |s| ==> Decode(s[i]) == Some(r.value[i])
    decreases |s|
  {
    if |s| == 0 then Some([])
    else
      var n := |s| - 1;
      match DecodeAll(s[..n])
      case None => None
      case Some(init) =>
        match Decode(s[n])
        case None => None
        case Some(a) => Some(init + [a])
  }
}
