/** Address selection: common prefixes by 32- and 128-bit arithmetic, and the scan that picks the one
    address of a remote node that suits the local addresses best. */
module Address {
  import opened Domain
  import opened Order

  // ---- Bit arithmetic ----

  function Pow2(n: nat): (p: nat)
    ensures p > 0
  {
    if n == 0 then 1 else 2 * Pow2(n - 1)
  }

  function Xor(a: nat, b: nat): nat {
    if a == 0 && b == 0 then 0 else 2 * Xor(a / 2, b / 2) + (a + b) % 2
  }

  /** The number of bits needed to write `x`. */
  function BitLength(x: nat): nat {
    if x == 0 then 0 else 1 + BitLength(x / 2)
  }

  function Shr(x: nat, m: nat): nat {
    if m == 0 then x else Shr(x / 2, m - 1)
  }

  lemma {:induction false} ShrIsDivision(x: nat, m: nat)
    ensures Shr(x, m) == x / Pow2(m)
  {
    if m > 0 {
      ShrIsDivision(x / 2, m - 1);
      HalfFirst(x, Pow2(m - 1));
    }
  }

  lemma HalfFirst(x: nat, p: nat)
    requires p > 0
    ensures x / 2 / p == x / (2 * p)
  {
    var q, r := x / 2 / p, x / 2 % p;
    var rest := 2 * r + x % 2;
    assert x / 2 == q * p + r;
    assert x == q * (2 * p) + rest by {
      assert x == 2 * (x / 2) + x % 2;
      assert 2 * (q * p) == q * (2 * p);
    }
    QuotientOf(x, 2 * p, q, rest);
  }

  lemma QuotientOf(x: nat, d: nat, q: nat, r: nat)
    requires x == q * d + r && r < d
    ensures x / d == q
  {
    var e := x / d - q;
    assert x == (x / d) * d + x % d;
    assert (x / d) * d - q * d == e * d;
    assert e * d == r - x % d;
    assert e >= 1 ==> e * d >= d;
    assert e <= -1 ==> e * d + d <= 0;
  }

  lemma {:induction false} ShrZero(m: nat)
    ensures Shr(0, m) == 0
  {
    if m > 0 {
      ShrZero(m - 1);
    }
  }

  lemma {:induction false} BitLengthIsShr(x: nat, m: nat)
    ensures BitLength(x) <= m <==> Shr(x, m) == 0
  {
    if x == 0 {
      ShrZero(m);
    } else if m > 0 {
      BitLengthIsShr(x / 2, m - 1);
    }
  }

  lemma {:induction false} XorZero(a: nat, b: nat)
    ensures Xor(a, b) == 0 <==> a == b
  {
    if a != 0 || b != 0 {
      XorZero(a / 2, b / 2);
    }
  }

  lemma {:induction false} ShrXor(a: nat, b: nat, m: nat)
    ensures Shr(Xor(a, b), m) == Xor(Shr(a, m), Shr(b, m))
  {
    if m > 0 {
      ShrXor(a / 2, b / 2, m - 1);
      assert Xor(a, b) / 2 == Xor(a / 2, b / 2);
    }
  }

  /** Zero bits above the highest one bit of a number written in `width` bits. */
  function LeadingZeros(x: nat, width: nat): int {
    width - BitLength(x)
  }

  /** Counting leading zeros of `a ^ b` is comparing prefixes, at any width. */
  lemma LeadingZerosIsPrefix(a: nat, b: nat, width: nat, k: nat)
    requires k <= width
    ensures LeadingZeros(Xor(a, b), width) >= k <==> a / Pow2(width - k) == b / Pow2(width - k)
  {
    var m := width - k;
    BitLengthIsShr(Xor(a, b), m);
    ShrXor(a, b, m);
    XorZero(Shr(a, m), Shr(b, m));
    ShrIsDivision(a, m);
    ShrIsDivision(b, m);
  }

  // ---- Prefixes of addresses ----

  function Width(ip: IpAddr): nat {
    if ip.V4? then 32 else 128
  }

  function Bits(ip: IpAddr): nat {
    match ip
    case V4(v) => v
    case V6(v) => v
  }

  function CommonPrefixBits(a: IpAddr, b: IpAddr): int {
    match (a, b)
    case (V4(x), V4(y)) => LeadingZeros(Xor(x, y), 32)
    case (V6(x), V6(y)) => LeadingZeros(Xor(x, y), 128)
    case (V4(_), V6(_)) => 0
    case (V6(_), V4(_)) => 0
  }

  /** Both addresses lie in one /k network (section 3.1 of RFC 4632). */
  predicate ShareNetwork(a: IpAddr, b: IpAddr, k: nat) {
    && a.V4? == b.V4?
    && k <= Width(a)
    && Bits(a) / Pow2(Width(a) - k) == Bits(b) / Pow2(Width(b) - k)
  }

  lemma {:induction false} Pow2Doubles(n: nat)
    ensures Pow2(2 * n) == Pow2(n) * Pow2(n)
  {
    if n > 0 {
      Pow2Doubles(n - 1);
      assert Pow2(2 * n) == 4 * Pow2(2 * (n - 1));
      assert Pow2(n) * Pow2(n) == 4 * (Pow2(n - 1) * Pow2(n - 1));
    }
  }

  lemma WordSizes()
    ensures Pow2(32) == 0x1_0000_0000
    ensures Pow2(128) == 0x1_0000_0000_0000_0000_0000_0000_0000_0000
  {
    assert Pow2(2) == 4 by {
      assert Pow2(1) == 2 * Pow2(0);
    }
    Pow2Doubles(2);
    Pow2Doubles(4);
    Pow2Doubles(8);
    Pow2Doubles(16);
    Pow2Doubles(32);
    Pow2Doubles(64);
  }

  /** The score is a number of bits of the address. */
  lemma PrefixBitsInRange(a: IpAddr, b: IpAddr)
    ensures 0 <= CommonPrefixBits(a, b) <= Width(a)
  {
    if a.V4? == b.V4? {
      WordSizes();
      LeadingZerosIsPrefix(Bits(a), Bits(b), Width(a), 0);
      QuotientOf(Bits(a), Pow2(Width(a)), 0, Bits(a));
      QuotientOf(Bits(b), Pow2(Width(a)), 0, Bits(b));
    }
  }

  /** For every prefix length from 1 up, the score reaches it exactly when the network is shared. */
  lemma PrefixIsNetwork(a: IpAddr, b: IpAddr, k: nat)
    requires k >= 1
    ensures CommonPrefixBits(a, b) >= k <==> ShareNetwork(a, b, k)
  {
    if a.V4? == b.V4? && k <= Width(a) {
      LeadingZerosIsPrefix(Bits(a), Bits(b), Width(a), k);
    }
  }

  function BestPrefixScore(ip: IpAddr, locals: seq<IpAddr>): int {
    if locals == [] then 0
    else
      var n := |locals| - 1;
      var score := CommonPrefixBits(ip, locals[n]);
      if n == 0 || score >= BestPrefixScore(ip, locals[..n]) then score else BestPrefixScore(ip, locals[..n])
  }

  lemma {:induction false} ScoreIsMaximum(ip: IpAddr, locals: seq<IpAddr>, l: IpAddr)
    requires l in locals
    ensures BestPrefixScore(ip, locals) >= CommonPrefixBits(ip, l)
    ensures exists m :: m in locals && BestPrefixScore(ip, locals) == CommonPrefixBits(ip, m)
  {
    var n := |locals| - 1;
    if l in locals[..n] {
      ScoreIsMaximum(ip, locals[..n], l);
      var m :| m in locals[..n] && BestPrefixScore(ip, locals[..n]) == CommonPrefixBits(ip, m);
      assert m in locals && locals[n] in locals;
    } else {
      assert l == locals[n];
      if n > 0 {
        ScoreIsMaximum(ip, locals[..n], locals[0]);
        var m :| m in locals[..n] && BestPrefixScore(ip, locals[..n]) == CommonPrefixBits(ip, m);
        assert m in locals;
      }
    }
  }

  /** Loopback, multicast, unspecified and link-local addresses. */
  predicate IsLocalOnly(ip: IpAddr) {
    match ip
    case V4(v) =>
      || v / 0x100_0000 == 127
      || v / 0x1000_0000 == 0xE
      || v == 0
      || v / 0x1_0000 == 0xA9FE
    case V6(v) =>
      || v == 1
      || v / 0x1_0000_0000_0000_0000_0000_0000_0000_00 == 0xFF
      || v == 0
      || v / 0x40_0000_0000_0000_0000_0000_0000_0000 == 0x3FA
  }

  // ---- Ordered listings ----

  function IpRank(ip: IpAddr): nat {
    match ip
    case V4(v) => v
    case V6(v) => 0x1_0000_0000 + v
  }

  function SockRank(s: SocketAddr): nat {
    IpRank(s.ip) * 0x1_0000 + s.port
  }

  lemma SockRankInjective(s: set<SocketAddr>)
    ensures Injective(s, SockRank)
  {
  }

  lemma IpRankInjective(s: set<IpAddr>)
    ensures Injective(s, IpRank)
  {
  }

  /** The socket addresses of a node in the order they are iterated: IPv4 first, ascending. */
  function Listing(addrs: set<SocketAddr>): (l: seq<SocketAddr>)
    ensures forall x :: x in l <==> x in addrs
    ensures forall i, j :: 0 <= i < j < |l| ==> SockRank(l[i]) < SockRank(l[j])
  {
    SockRankInjective(addrs);
    Ascending(addrs, SockRank)
  }

  function IpsOf(socks: seq<SocketAddr>): (ips: seq<IpAddr>)
    ensures |ips| == |socks| && forall i :: 0 <= i < |ips| ==> ips[i] == socks[i].ip
  {
    seq(|socks|, i requires 0 <= i < |socks| => socks[i].ip)
  }

  function Routable(ips: seq<IpAddr>): (kept: seq<IpAddr>)
    ensures forall ip :: ip in kept <==> ip in ips && !IsLocalOnly(ip)
  {
    if ips == [] then []
    else
      var n := |ips| - 1;
      assert ips == ips[..n] + [ips[n]];
      Routable(ips[..n]) + if IsLocalOnly(ips[n]) then [] else [ips[n]]
  }

  /** Which local addresses count, and how: the routable ones, or all if none is routable. */
  datatype Preference = Preference(locals: seq<IpAddr>, localOnly: bool, preferV4: bool)

  function PreferenceOf(local: set<SocketAddr>): Preference {
    var all := IpsOf(Listing(local));
    var routable := Routable(all);
    var localOnly := routable == [];
    var locals := if localOnly then all else routable;
    var hasV4 := exists ip :: ip in locals && ip.V4?;
    var hasV6 := exists ip :: ip in locals && ip.V6?;
    Preference(locals, localOnly, hasV4 || !hasV6)
  }

  predicate Eligible(p: Preference, sock: SocketAddr) {
    p.localOnly || !IsLocalOnly(sock.ip)
  }

  function Score(p: Preference, sock: SocketAddr): int {
    BestPrefixScore(sock.ip, p.locals)
  }

  predicate Preferred(p: Preference, sock: SocketAddr) {
    sock.ip.V4? == p.preferV4
  }

  /** `x` replaces `current` in the scan. */
  predicate Better(p: Preference, x: SocketAddr, current: SocketAddr) {
    || Score(p, x) > Score(p, current)
    || (Score(p, x) == Score(p, current) && Preferred(p, x) && !Preferred(p, current))
  }

  function Pick(p: Preference, socks: seq<SocketAddr>): Option<SocketAddr> {
    if socks == [] then None
    else
      var n := |socks| - 1;
      var best := Pick(p, socks[..n]);
      if Eligible(p, socks[n]) && (best.None? || Better(p, socks[n], best.value)) then Some(socks[n]) else best
  }

  function BestEndpointAddrForLocal(remote: EndpointAddr, local: EndpointAddr): EndpointAddr {
    if local.ips == {} then remote
    else
      match Pick(PreferenceOf(local.ips), Listing(remote.ips))
      case None => remote
      case Some(sock) => EndpointAddr(remote.id, {sock}, {})
  }

  /** The scan, as it runs: score, family and address of the best candidate so far. */
  method Scan(p: Preference, socks: seq<SocketAddr>) returns (found: Option<SocketAddr>)
    ensures found == Pick(p, socks)
  {
    var best: Option<(int, bool, SocketAddr)> := None;
    var i := 0;
    while i < |socks|
      invariant 0 <= i <= |socks|
      invariant Pick(p, socks[..i]) == if best.None? then None else Some(best.value.2)
      invariant best.Some? ==> best.value == (Score(p, best.value.2), best.value.2.ip.V4?, best.value.2)
    {
      assert socks[..i + 1][..i] == socks[..i];
      var sock := socks[i];
      if p.localOnly || !IsLocalOnly(sock.ip) {
        var candidate := (BestPrefixScore(sock.ip, p.locals), sock.ip.V4?, sock);
        if best.Some? {
          var current := best.value;
          var betterFamily := if p.preferV4 then candidate.1 && !current.1 else !candidate.1 && current.1;
          if candidate.0 > current.0 || (candidate.0 == current.0 && betterFamily) {
            best := Some(candidate);
          }
        } else {
          best := Some(candidate);
        }
      }
      i := i + 1;
    }
    assert socks[..i] == socks;
    found := if best.None? then None else Some(best.value.2);
  }

  method ChooseEndpointAddr(remote: EndpointAddr, local: EndpointAddr) returns (r: EndpointAddr)
    ensures r == BestEndpointAddrForLocal(remote, local)
  {
    if local.ips == {} {
      return remote;
    }
    var best := Scan(PreferenceOf(local.ips), Listing(remote.ips));
    if best.None? {
      return remote;
    }
    return EndpointAddr(remote.id, {best.value}, {});
  }

  // ---- What is picked ----

  /** `s` comes before `y` in the order the scan maximises; the listing order settles ties. */
  predicate Precedes(p: Preference, s: SocketAddr, y: SocketAddr) {
    || Better(p, s, y)
    || (!Better(p, y, s) && SockRank(s) <= SockRank(y))
  }

  /** `s` is an eligible one of `socks` and precedes every other. */
  ghost predicate Leads(p: Preference, socks: seq<SocketAddr>, s: SocketAddr) {
    s in socks && Eligible(p, s) && forall y :: y in socks && Eligible(p, y) ==> Precedes(p, s, y)
  }

  lemma LeadHeld(p: Preference, front: seq<SocketAddr>, s: SocketAddr, x: SocketAddr)
    requires Leads(p, front, s) && SockRank(s) < SockRank(x)
    requires Eligible(p, x) ==> !Better(p, x, s)
    ensures Leads(p, front + [x], s)
  {
  }

  lemma LeadTaken(p: Preference, front: seq<SocketAddr>, s: SocketAddr, x: SocketAddr)
    requires Leads(p, front, s) && Eligible(p, x) && Better(p, x, s)
    ensures Leads(p, front + [x], x)
  {
    forall y | y in front && Eligible(p, y) ensures Precedes(p, x, y) {
      BetterPrecedes(p, x, s, y);
    }
  }

  lemma BetterPrecedes(p: Preference, x: SocketAddr, s: SocketAddr, y: SocketAddr)
    requires Better(p, x, s) && Precedes(p, s, y)
    ensures Precedes(p, x, y)
  {
  }

  /** `best` is what a scan of `socks` should find: an eligible one that precedes all others, if there is any. */
  ghost predicate Picked(p: Preference, socks: seq<SocketAddr>, best: Option<SocketAddr>) {
    match best
    case None => forall y :: y in socks ==> !Eligible(p, y)
    case Some(s) => Leads(p, socks, s)
  }

  ghost predicate Ascends(socks: seq<SocketAddr>) {
    forall i, j :: 0 <= i < j < |socks| ==> SockRank(socks[i]) < SockRank(socks[j])
  }

  lemma AscendsFront(front: seq<SocketAddr>, last: SocketAddr)
    requires Ascends(front + [last])
    ensures Ascends(front) && forall x :: x in front ==> SockRank(x) < SockRank(last)
  {
    var socks := front + [last];
    assert forall i :: 0 <= i < |front| ==> front[i] == socks[i];
    assert socks[|front|] == last;
  }

  lemma {:induction false} PickSnoc(p: Preference, front: seq<SocketAddr>, last: SocketAddr)
    ensures Pick(p, front + [last]) ==
      if Eligible(p, last) && (Pick(p, front).None? || Better(p, last, Pick(p, front).value)) then Some(last)
      else Pick(p, front)
  {
    assert (front + [last])[..|front|] == front;
  }

  lemma OnlyEligible(p: Preference, front: seq<SocketAddr>, last: SocketAddr)
    requires Picked(p, front, None)
    ensures Picked(p, front + [last], if Eligible(p, last) then Some(last) else None)
  {
  }

  lemma {:induction false} PickPrecedes(p: Preference, socks: seq<SocketAddr>)
    requires Ascends(socks)
    ensures Picked(p, socks, Pick(p, socks))
  {
    if socks != [] {
      var n := |socks| - 1;
      var front, last := socks[..n], socks[n];
      assert socks == front + [last];
      AscendsFront(front, last);
      PickPrecedes(p, front);
      PickSnoc(p, front, last);
      match Pick(p, front)
      case None => OnlyEligible(p, front, last);
      case Some(s) =>
        if Eligible(p, last) && Better(p, last, s) {
          LeadTaken(p, front, s, last);
        } else {
          LeadHeld(p, front, s, last);
        }
    }
  }

  /** `r` carries, of the eligible addresses of `remote`, the one that precedes all others. */
  ghost predicate Maximal(p: Preference, remote: EndpointAddr, r: EndpointAddr) {
    exists s ::
      && r == EndpointAddr(remote.id, {s}, {}) && s in remote.ips && Eligible(p, s)
      && forall y :: y in remote.ips && Eligible(p, y) ==> Precedes(p, s, y)
  }

  /** Whenever some remote address is eligible the result is exactly one of them: of the longest common
      prefix with a used local address, then of the preferred family, then first in listing order. */
  lemma BestIsMaximal(remote: EndpointAddr, local: EndpointAddr)
    ensures var p := PreferenceOf(local.ips);
      var r := BestEndpointAddrForLocal(remote, local);
      if local.ips != {} && exists y :: y in remote.ips && Eligible(p, y) then Maximal(p, remote, r) else r == remote
  {
    var p := PreferenceOf(local.ips);
    PickPrecedes(p, Listing(remote.ips));
    PickedIsMaximal(p, remote, Pick(p, Listing(remote.ips)));
  }

  lemma PickedIsMaximal(p: Preference, remote: EndpointAddr, best: Option<SocketAddr>)
    requires Picked(p, Listing(remote.ips), best)
    ensures best.None? <==> forall y :: y in remote.ips ==> !Eligible(p, y)
    ensures best.Some? ==> Maximal(p, remote, EndpointAddr(remote.id, {best.value}, {}))
  {
    if best.Some? {
      assert best.value in remote.ips;
      assert forall y :: y in remote.ips && Eligible(p, y) ==> Precedes(p, best.value, y);
    }
  }

  /** Subnets are respected: if any eligible remote address shares a /k with a used local address,
      then so does the chosen one, for every k from 1 up. */
  lemma ChoiceRespectsNetworks(remote: EndpointAddr, local: EndpointAddr, y: SocketAddr, l: IpAddr, k: nat)
    returns (s: SocketAddr, m: IpAddr)
    requires var p := PreferenceOf(local.ips);
      local.ips != {} && y in remote.ips && Eligible(p, y) && l in p.locals
    requires k >= 1 && ShareNetwork(y.ip, l, k)
    ensures BestEndpointAddrForLocal(remote, local) == EndpointAddr(remote.id, {s}, {})
    ensures m in PreferenceOf(local.ips).locals && ShareNetwork(s.ip, m, k)
  {
    var p := PreferenceOf(local.ips);
    PickPrecedes(p, Listing(remote.ips));
    s := Pick(p, Listing(remote.ips)).value;
    PrecedingScore(p, s, y);
    m := NetworkByScore(s.ip, y.ip, p.locals, l, k);
  }

  lemma PrecedingScore(p: Preference, s: SocketAddr, y: SocketAddr)
    requires Precedes(p, s, y)
    ensures BestPrefixScore(s.ip, p.locals) >= BestPrefixScore(y.ip, p.locals)
  {
  }

  lemma NetworkByScore(s: IpAddr, y: IpAddr, locals: seq<IpAddr>, l: IpAddr, k: nat) returns (m: IpAddr)
    requires BestPrefixScore(s, locals) >= BestPrefixScore(y, locals)
    requires l in locals && k >= 1 && ShareNetwork(y, l, k)
    ensures m in locals && ShareNetwork(s, m, k)
  {
    ScoreIsMaximum(y, locals, l);
    PrefixIsNetwork(y, l, k);
    ScoreIsMaximum(s, locals, l);
    m :| m in locals && BestPrefixScore(s, locals) == CommonPrefixBits(s, m);
    PrefixIsNetwork(s, m, k);
  }

  // ---- The choice in terms of networks ----

  /** The networks that are local to a host or a link: loopback, multicast, link-local and unspecified. */
  const LOCAL_NETWORKS: set<(IpAddr, nat)> := {
    (V4(0x7F00_0000), 8), (V4(0xE000_0000), 4), (V4(0xA9FE_0000), 16), (V4(0), 32),
    (V6(0), 128), (V6(1), 128), (V6(0xFF00_0000_0000_0000_0000_0000_0000_0000), 8),
    (V6(0xFE80_0000_0000_0000_0000_0000_0000_0000), 10)}

  ghost predicate InLocalRange(ip: IpAddr) {
    exists net :: net in LOCAL_NETWORKS && ShareNetwork(ip, net.0, net.1)
  }

  lemma Powers()
    ensures Pow2(0) == 1 && Pow2(16) == 0x1_0000 && Pow2(24) == 0x100_0000 && Pow2(28) == 0x1000_0000
    ensures Pow2(118) == 0x40_0000_0000_0000_0000_0000_0000_0000
    ensures Pow2(120) == 0x1_00_0000_0000_0000_0000_0000_0000_0000
  {
    PowersSmall();
    PowersLarge();
  }

  lemma PowersSmall()
    ensures Pow2(16) == 0x1_0000 && Pow2(24) == 0x100_0000 && Pow2(28) == 0x1000_0000
  {
    assert Pow2(4) == 16 && Pow2(2) == 4 && Pow2(3) == 8;
    Pow2Doubles(4);
    Pow2Doubles(8);
    assert Pow2(3) == 8 && Pow2(6) == 64 && Pow2(12) == 0x1000 by {
      Pow2Doubles(3);
      Pow2Doubles(6);
    }
    Pow2Doubles(12);
    Pow2Doubles(14);
    assert Pow2(14) == 4 * Pow2(12);
  }

  lemma PowersLarge()
    ensures Pow2(118) == 0x40_0000_0000_0000_0000_0000_0000_0000
    ensures Pow2(120) == 0x1_00_0000_0000_0000_0000_0000_0000_0000
  {
    PowersSmall();
    assert Pow2(15) == 0x8000 && Pow2(29) == 0x2000_0000;
    Pow2Doubles(15);
    Pow2Doubles(30);
    assert Pow2(60) == 0x1000_0000_0000_0000;
    assert Pow2(59) == 0x800_0000_0000_0000;
    Pow2Doubles(60);
    Pow2Doubles(59);
  }

  /** The tests on addresses are membership in those ranges. */
  lemma LocalRanges(ip: IpAddr)
    ensures IsLocalOnly(ip) <==> InLocalRange(ip)
  {
    match ip
    case V4(v) => LocalRangesV4(v);
    case V6(v) => LocalRangesV6(v);
  }

  lemma LocalRangesV4(v: uint32)
    ensures IsLocalOnly(V4(v)) <==> InLocalRange(V4(v))
  {
    Powers();
    assert ShareNetwork(V4(v), V4(0x7F00_0000), 8) <==> v / 0x100_0000 == 127;
    assert ShareNetwork(V4(v), V4(0xE000_0000), 4) <==> v / 0x1000_0000 == 0xE;
    assert ShareNetwork(V4(v), V4(0xA9FE_0000), 16) <==> v / 0x1_0000 == 0xA9FE;
    assert ShareNetwork(V4(v), V4(0), 32) <==> v == 0;
    LocalRangesAre(V4(v));
  }

  lemma LocalRangesV6(v: uint128)
    ensures IsLocalOnly(V6(v)) <==> InLocalRange(V6(v))
  {
    Powers();
    assert ShareNetwork(V6(v), V6(0), 128) <==> v == 0;
    assert ShareNetwork(V6(v), V6(1), 128) <==> v == 1;
    assert ShareNetwork(V6(v), V6(0xFF00_0000_0000_0000_0000_0000_0000_0000), 8)
      <==> v / 0x1_00_0000_0000_0000_0000_0000_0000_0000 == 0xFF;
    assert ShareNetwork(V6(v), V6(0xFE80_0000_0000_0000_0000_0000_0000_0000), 10)
      <==> v / 0x40_0000_0000_0000_0000_0000_0000_0000 == 0x3FA;
    LocalRangesAre(V6(v));
  }

  lemma LocalRangesAre(ip: IpAddr)
    ensures InLocalRange(ip) <==>
      || ShareNetwork(ip, V4(0x7F00_0000), 8) || ShareNetwork(ip, V4(0xE000_0000), 4)
      || ShareNetwork(ip, V4(0xA9FE_0000), 16) || ShareNetwork(ip, V4(0), 32)
      || ShareNetwork(ip, V6(0), 128) || ShareNetwork(ip, V6(1), 128)
      || ShareNetwork(ip, V6(0xFF00_0000_0000_0000_0000_0000_0000_0000), 8)
      || ShareNetwork(ip, V6(0xFE80_0000_0000_0000_0000_0000_0000_0000), 10)
  {
    Listed(ip, (V4(0x7F00_0000), 8));
    Listed(ip, (V4(0xE000_0000), 4));
    Listed(ip, (V4(0xA9FE_0000), 16));
    Listed(ip, (V4(0), 32));
    Listed(ip, (V6(0), 128));
    Listed(ip, (V6(1), 128));
    Listed(ip, (V6(0xFF00_0000_0000_0000_0000_0000_0000_0000), 8));
    Listed(ip, (V6(0xFE80_0000_0000_0000_0000_0000_0000_0000), 10));
  }

  lemma Listed(ip: IpAddr, net: (IpAddr, nat))
    requires net in LOCAL_NETWORKS
    ensures ShareNetwork(ip, net.0, net.1) ==> InLocalRange(ip)
  {
  }

  /** `ip` is one of the own addresses that count: a routable one, or any if none is routable. */
  ghost predicate Used(local: EndpointAddr, ip: IpAddr) {
    && (exists s :: s in local.ips && s.ip == ip)
    && (InLocalRange(ip) ==> forall s :: s in local.ips ==> InLocalRange(s.ip))
  }

  /** `sock` may be chosen: it is routable, or none of the own addresses is. */
  ghost predicate Choosable(local: EndpointAddr, sock: SocketAddr) {
    InLocalRange(sock.ip) ==> forall s :: s in local.ips ==> InLocalRange(s.ip)
  }

  /** `ip` lies in one /k network with an own address that counts. */
  ghost predicate Reaches(local: EndpointAddr, ip: IpAddr, k: nat) {
    exists l :: Used(local, l) && ShareNetwork(ip, l, k)
  }

  /** Whatever network `y` shares with an own address, `x` shares one of that length too. */
  ghost predicate AsNear(local: EndpointAddr, x: IpAddr, y: IpAddr) {
    forall k: nat :: k >= 1 && Reaches(local, y, k) ==> Reaches(local, x, k)
  }

  /** IPv4 is preferred if some own address that counts is IPv4 or none is IPv6, else IPv6. */
  ghost predicate OfPreferredFamily(local: EndpointAddr, sock: SocketAddr) {
    sock.ip.V4? <==> (exists l :: Used(local, l) && l.V4?) || !exists l :: Used(local, l) && l.V6?
  }

  /** The listing order: IPv4 before IPv6, then by address, then by port. */
  ghost predicate ListedBefore(a: SocketAddr, b: SocketAddr) {
    || (a.ip.V4? && b.ip.V6?)
    || (a.ip.V4? == b.ip.V4? && Bits(a.ip) < Bits(b.ip))
    || (a.ip == b.ip && a.port < b.port)
  }

  lemma RankIsListing(a: SocketAddr, b: SocketAddr)
    ensures SockRank(a) < SockRank(b) <==> ListedBefore(a, b)
    ensures SockRank(a) == SockRank(b) <==> a == b
  {
  }

  lemma PreferenceIs(local: EndpointAddr)
    requires local.ips != {}
    ensures var p := PreferenceOf(local.ips);
      && (forall l :: l in p.locals <==> Used(local, l))
      && p.locals != []
      && (forall sock :: Eligible(p, sock) <==> Choosable(local, sock))
      && (forall sock :: Preferred(p, sock) <==> OfPreferredFamily(local, sock))
  {
    var p := PreferenceOf(local.ips);
    LocalOnlyIs(local);
    LocalsAreUsed(local);
    FamilyFlag(local);
    forall sock ensures Eligible(p, sock) <==> Choosable(local, sock) {
      EligibleIs(local, p, sock);
    }
    forall sock ensures Preferred(p, sock) <==> OfPreferredFamily(local, sock) {
      PreferredIs(local, p, sock);
    }
  }

  lemma EligibleIs(local: EndpointAddr, p: Preference, sock: SocketAddr)
    requires p.localOnly <==> forall s :: s in local.ips ==> InLocalRange(s.ip)
    ensures Eligible(p, sock) <==> Choosable(local, sock)
  {
    LocalRanges(sock.ip);
  }

  lemma PreferredIs(local: EndpointAddr, p: Preference, sock: SocketAddr)
    requires forall l :: l in p.locals <==> Used(local, l)
    requires p.preferV4 <==> (exists l :: l in p.locals && l.V4?) || !exists l :: l in p.locals && l.V6?
    ensures Preferred(p, sock) <==> OfPreferredFamily(local, sock)
  {
    SomeUsed(local, p.locals, true);
    SomeUsed(local, p.locals, false);
  }

  lemma SomeUsed(local: EndpointAddr, locals: seq<IpAddr>, v4: bool)
    requires forall l :: l in locals <==> Used(local, l)
    ensures (exists l :: l in locals && l.V4? == v4) <==> exists l :: Used(local, l) && l.V4? == v4
  {
    if l :| l in locals && l.V4? == v4 {
      assert Used(local, l);
    }
    if l :| Used(local, l) && l.V4? == v4 {
      assert l in locals;
    }
  }

  lemma FamilyFlag(local: EndpointAddr)
    ensures var p := PreferenceOf(local.ips);
      p.preferV4 <==> (exists l :: l in p.locals && l.V4?) || !exists l :: l in p.locals && l.V6?
  {
  }

  lemma LocalOnlyIs(local: EndpointAddr)
    ensures PreferenceOf(local.ips).localOnly <==> forall s :: s in local.ips ==> InLocalRange(s.ip)
  {
    var all := IpsOf(Listing(local.ips));
    OwnIps(local, all);
    if Routable(all) == [] {
      forall s | s in local.ips ensures InLocalRange(s.ip) {
        assert s.ip in all && s.ip !in Routable(all);
        LocalRanges(s.ip);
      }
    } else {
      var ip := Routable(all)[0];
      assert ip in Routable(all);
      LocalRanges(ip);
    }
  }

  lemma LocalsAreUsed(local: EndpointAddr)
    requires local.ips != {}
    ensures forall l :: l in PreferenceOf(local.ips).locals <==> Used(local, l)
    ensures PreferenceOf(local.ips).locals != []
  {
    var p := PreferenceOf(local.ips);
    var all := IpsOf(Listing(local.ips));
    OwnIps(local, all);
    LocalOnlyIs(local);
    forall l ensures l in p.locals <==> Used(local, l) {
      LocalRanges(l);
      assert l in all <==> exists s :: s in local.ips && s.ip == l;
    }
    var sock :| sock in local.ips;
    assert sock.ip in all;
  }

  lemma OwnIps(local: EndpointAddr, all: seq<IpAddr>)
    requires all == IpsOf(Listing(local.ips))
    ensures forall ip :: ip in all <==> exists s :: s in local.ips && s.ip == ip
  {
    var listing := Listing(local.ips);
    forall ip ensures ip in all <==> exists s :: s in local.ips && s.ip == ip {
      if ip in all {
        var i :| 0 <= i < |all| && all[i] == ip;
        assert listing[i] in local.ips && listing[i].ip == ip;
      }
      if s :| s in local.ips && s.ip == ip {
        assert s in listing;
        var i :| 0 <= i < |listing| && listing[i] == s;
        assert all[i] == ip;
      }
    }
  }

  /** A score counts the longest network shared with an own address that counts. */
  lemma ScoreReaches(local: EndpointAddr, sock: SocketAddr, k: nat)
    requires local.ips != {} && k >= 1
    ensures Score(PreferenceOf(local.ips), sock) >= k <==> Reaches(local, sock.ip, k)
  {
    var p := PreferenceOf(local.ips);
    PreferenceIs(local);
    assert p.locals[0] in p.locals;
    ScoreIsMaximum(sock.ip, p.locals, p.locals[0]);
    var m :| m in p.locals && Score(p, sock) == CommonPrefixBits(sock.ip, m);
    PrefixIsNetwork(sock.ip, m, k);
    if Reaches(local, sock.ip, k) {
      var l :| Used(local, l) && ShareNetwork(sock.ip, l, k);
      ScoreIsMaximum(sock.ip, p.locals, l);
      PrefixIsNetwork(sock.ip, l, k);
    }
  }

  lemma ScoreIsNearness(local: EndpointAddr, x: SocketAddr, y: SocketAddr)
    requires local.ips != {}
    ensures Score(PreferenceOf(local.ips), x) >= Score(PreferenceOf(local.ips), y) <==> AsNear(local, x.ip, y.ip)
  {
    var p := PreferenceOf(local.ips);
    if Score(p, x) >= Score(p, y) {
      forall k: nat | k >= 1 && Reaches(local, y.ip, k) ensures Reaches(local, x.ip, k) {
        ScoreReaches(local, y, k);
        ScoreReaches(local, x, k);
      }
    } else {
      ScoreIsNat(local, x);
      var k: nat := Score(p, y);
      ScoreReaches(local, y, k);
      ScoreReaches(local, x, k);
    }
  }

  lemma ScoreIsNat(local: EndpointAddr, sock: SocketAddr)
    requires local.ips != {}
    ensures Score(PreferenceOf(local.ips), sock) >= 0
  {
    var p := PreferenceOf(local.ips);
    PreferenceIs(local);
    assert p.locals[0] in p.locals;
    ScoreIsMaximum(sock.ip, p.locals, p.locals[0]);
    PrefixBitsInRange(sock.ip, p.locals[0]);
  }

  /** `s` suits the own addresses at least as well as `y`: it is as near; where both are equally near it is of
      the preferred family if `y` is; and where that does not decide either it is listed no later. */
  ghost predicate Suits(local: EndpointAddr, s: SocketAddr, y: SocketAddr) {
    && AsNear(local, s.ip, y.ip)
    && (AsNear(local, y.ip, s.ip) ==>
          && (OfPreferredFamily(local, y) ==> OfPreferredFamily(local, s))
          && ((OfPreferredFamily(local, y) <==> OfPreferredFamily(local, s)) ==> s == y || ListedBefore(s, y)))
  }

  ghost predicate IsChoice(remote: EndpointAddr, local: EndpointAddr, r: EndpointAddr) {
    if local.ips != {} && exists y :: y in remote.ips && Choosable(local, y) then
      exists s ::
        && s in remote.ips && Choosable(local, s) && r == EndpointAddr(remote.id, {s}, {})
        && forall y :: y in remote.ips && Choosable(local, y) ==> Suits(local, s, y)
    else r == remote
  }

  /** There is no other choice. */
  lemma ChoiceIsUnique(remote: EndpointAddr, local: EndpointAddr, a: EndpointAddr, b: EndpointAddr)
    requires IsChoice(remote, local, a) && IsChoice(remote, local, b)
    ensures a == b
  {
    if local.ips != {} && exists y :: y in remote.ips && Choosable(local, y) {
      var s :| s in remote.ips && Choosable(local, s) && a == EndpointAddr(remote.id, {s}, {})
        && forall y :: y in remote.ips && Choosable(local, y) ==> Suits(local, s, y);
      var u :| u in remote.ips && Choosable(local, u) && b == EndpointAddr(remote.id, {u}, {})
        && forall y :: y in remote.ips && Choosable(local, y) ==> Suits(local, u, y);
      BothSuit(local, s, u);
    }
  }

  lemma BothSuit(local: EndpointAddr, s: SocketAddr, u: SocketAddr)
    requires Suits(local, s, u) && Suits(local, u, s)
    ensures s == u
  {
  }

  lemma PrecedesSuits(local: EndpointAddr, s: SocketAddr, y: SocketAddr)
    requires local.ips != {} && Precedes(PreferenceOf(local.ips), s, y)
    ensures Suits(local, s, y)
  {
    PreferenceIs(local);
    ScoreIsNearness(local, s, y);
    ScoreIsNearness(local, y, s);
    RankIsListing(s, y);
  }

  /** The choice, in terms of the two address sets and the networks they lie in. */
  lemma ChoiceIs(remote: EndpointAddr, local: EndpointAddr)
    ensures IsChoice(remote, local, BestEndpointAddrForLocal(remote, local))
  {
    if local.ips != {} {
      var p := PreferenceOf(local.ips);
      PreferenceIs(local);
      PickPrecedes(p, Listing(remote.ips));
      PickedIsMaximal(p, remote, Pick(p, Listing(remote.ips)));
      if exists y :: y in remote.ips && Choosable(local, y) {
        var s := Pick(p, Listing(remote.ips)).value;
        forall y | y in remote.ips && Choosable(local, y) ensures Suits(local, s, y) {
          assert y in Listing(remote.ips);
          PrecedesSuits(local, s, y);
        }
      }
    }
  }

  /** Choosing again changes nothing. */
  lemma ChoiceIsStable(remote: EndpointAddr, local: EndpointAddr)
    ensures BestEndpointAddrForLocal(BestEndpointAddrForLocal(remote, local), local)
         == BestEndpointAddrForLocal(remote, local)
  {
    var p := PreferenceOf(local.ips);
    var once := BestEndpointAddrForLocal(remote, local);
    PickPrecedes(p, Listing(remote.ips));
    if once != remote {
      var s := Pick(p, Listing(remote.ips)).value;
      PickPrecedes(p, Listing({s}));
      assert s in Listing({s});
      var again := Pick(p, Listing({s}));
      assert again == Some(s);
    }
  }
}
