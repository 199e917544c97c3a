/** The values every part of the daemon shares: machine integers, addresses, node records,
    tickets and protocol messages. */
module Domain {

  const U64_MAX: nat := 0xFFFF_FFFF_FFFF_FFFF

  type uint8 = x: nat | x < 0x100
  type uint16 = x: nat | x < 0x1_0000
  type uint32 = x: nat | x < 0x1_0000_0000
  type uint64 = x: nat | x <= U64_MAX
  type uint128 = x: nat | x < 0x1_0000_0000_0000_0000_0000_0000_0000_0000

  datatype Option<+T> = None | Some(value: T)

  datatype Result<+T, +E> = Ok(value: T) | Err(error: E)

  function SaturatingAdd(a: uint64, b: uint64): uint64 {
    if a + b > U64_MAX then U64_MAX else a + b
  }

  function SaturatingSub(a: uint64, b: uint64): uint64 {
    if a < b then 0 else a - b
  }

  /** A node id, identified with the text it is displayed as; tables and prefixes use that text. */
  datatype Id = Id(text: string)

  datatype IpAddr = V4(v4: uint32) | V6(v6: uint128)

  datatype SocketAddr = SocketAddr(ip: IpAddr, port: uint16)

  type RelayUrl = string

  /** Contact information of one node: a set of socket addresses and a set of relay URLs. */
  datatype EndpointAddr = EndpointAddr(id: Id, ips: set<SocketAddr>, relays: set<RelayUrl>)

  function NoAddr(id: Id): EndpointAddr {
    EndpointAddr(id, {}, {})
  }

  datatype Node = Node(
    id: Id,
    invitor: Id,
    addr: EndpointAddr,
    domain: string,
    services: map<string, uint32>,
    heartbeat: uint64)

  const CLIENT_MARKER := "_p2p_ddns_client"

  predicate IsDaemon(n: Node) {
    CLIENT_MARKER !in n.services
  }

  /** A bootstrap credential; `topic` and `rnum` are the shared secret part. */
  datatype Ticket = Ticket(topic: seq<uint8>, rnum: seq<uint8>, invitor: Node) {
    predicate Validates(t: seq<uint8>, r: seq<uint8>) {
      topic == t && rnum == r
    }
  }

  datatype Message =
    | Invited(topic: seq<uint8>, rnum: seq<uint8>, addr: EndpointAddr, alias: string,
              services: map<string, uint32>, invitor: Id)
    | AboutMe(addr: EndpointAddr, alias: string, services: map<string, uint32>, invitor: Id)
    | Introduce(invited: Id)
    | SyncRequest(nodes: seq<Node>)
    | SyncResponse(nodes: seq<Node>)
    | Heartbeat
    | Left

  /** A message whose signature has been checked: `from` is the true sender. */
  datatype SignedMessage = SignedMessage(from: Id, timestamp: uint64, body: Message)

  const MAX_AGE_SECS: uint64 := 60
  const MAX_FUTURE_SKEW_SECS: uint64 := 10

  /** The freshness test, in saturating 64-bit arithmetic. */
  predicate IsFresh(timestamp: uint64, now: uint64) {
    if timestamp > SaturatingAdd(now, MAX_FUTURE_SKEW_SECS) then
      false
    else
      SaturatingSub(now, timestamp) <= MAX_AGE_SECS
  }

  function Lookup<K, V>(m: map<K, V>, k: K): Option<V> {
    if k in m then Some(m[k]) else None
  }
}
