/** Which names the daemon publishes, and that the managed section says exactly that. */
module HostsSync {
  import opened Domain
  import opened Order
  import Address
  import opened Hosts
  import Text

  // ---- Host names ----

  predicate IsLabelChar(c: char) {
    '0' <= c <= '9' || 'a' <= c <= 'z' || 'A' <= c <= 'Z' || c == '-'
  }

  /** A label of 1 to 63 letters, digits and inner hyphens (section 2.1 of RFC 1123 and section
      2.3.4 of RFC 1035). */
  predicate IsValidLabel(part: string) {
    && 1 <= |part| <= 63
    && part[0] != '-' && part[|part| - 1] != '-'
    && forall c :: c in part ==> IsLabelChar(c)
  }

  /** Lengths count characters: a name with any non-ASCII character is rejected either way. */
  function CanonicalHostname(name: string): Option<string> {
    var trimmed := Text.ToLower(Text.TrimEndMatches(Text.Trim(name), '.'));
    if trimmed == "" || |trimmed| > 253 then None
    else if forall part :: part in Text.Split(trimmed, '.') ==> IsValidLabel(part) then Some(trimmed)
    else None
  }

  /** The characters of an accepted name, and its ends. */
  lemma CanonicalChars(name: string)
    requires CanonicalHostname(name).Some?
    ensures var t := CanonicalHostname(name).value;
      && t != "" && t[|t| - 1] != '.'
      && forall c :: c in t ==> (IsLabelChar(c) || c == '.') && !('A' <= c <= 'Z')
  {
    var t := CanonicalHostname(name).value;
    var before := Text.TrimEndMatches(Text.Trim(name), '.');
    forall c | c in t ensures (IsLabelChar(c) || c == '.') && !('A' <= c <= 'Z') {
      var i :| 0 <= i < |t| && t[i] == c;
      assert c == Text.ToLowerChar(before[i]);
      if c != '.' {
        Text.CharIsInSomePart(t, '.', c);
      }
    }
    var parts := Text.Split(t, '.');
    assert parts[|parts| - 1] in parts;
    if t[|t| - 1] == '.' {
      Text.TrailingSeparatorLeavesEmptyPart(t, '.');
    }
  }

  /** Accepted names are fixed points: publishing a published name changes nothing. */
  lemma CanonicalIsFixedPoint(name: string)
    requires CanonicalHostname(name).Some?
    ensures CanonicalHostname(CanonicalHostname(name).value) == CanonicalHostname(name)
  {
    var t := CanonicalHostname(name).value;
    CanonicalChars(name);
    assert t[0] in t && t[|t| - 1] in t;
    Text.TrimKeepsInkedEnds(t);
    assert Text.TrimEndMatches(t, '.') == t;
    forall i | 0 <= i < |t| ensures Text.ToLower(t)[i] == t[i] {
      assert t[i] in t;
    }
    assert Text.ToLower(t) == t;
  }

  // ---- Which names are accepted ----

  predicate IsJoint(c: char) {
    c == '.' || c == '-'
  }

  /** There is a dot among the 64 characters from `from`. */
  ghost predicate DotIn(t: string, from: nat) {
    exists i :: from <= i < from + 64 && i < |t| && t[i] == '.'
  }

  /** Letters, digits, hyphens and dots. */
  ghost predicate HostChars(t: string) {
    forall i :: 0 <= i < |t| ==>
      var code := t[i] as int;
      0x30 <= code <= 0x39 || 0x41 <= code <= 0x5A || 0x61 <= code <= 0x7A || t[i] == '-' || t[i] == '.'
  }

  /** No hyphen and no dot at an end or next to a dot. */
  ghost predicate DotsSpaced(t: string) {
    && t != "" && !IsJoint(t[0]) && !IsJoint(t[|t| - 1])
    && forall i :: 0 <= i < |t| && t[i] == '.' ==> 0 < i < |t| - 1 && !IsJoint(t[i - 1]) && !IsJoint(t[i + 1])
  }

  /** At most 63 characters between dots. */
  ghost predicate DotsFrequent(t: string) {
    forall i :: 0 <= i && i + 64 <= |t| ==> DotIn(t, i)
  }

  ghost predicate LabelRules(t: string) {
    HostChars(t) && DotsSpaced(t) && DotsFrequent(t)
  }

  ghost predicate LabelsValid(t: string) {
    forall i :: 0 <= i < |Text.Split(t, '.')| ==> IsValidLabel(Text.Split(t, '.')[i])
  }

  lemma SingleLabel(w: string)
    requires '.' !in w
    ensures IsValidLabel(w) <==> LabelRules(w)
  {
    if IsValidLabel(w) {
      assert forall i :: 0 <= i < |w| ==> w[i] in w && IsLabelChar(w[i]);
      assert HostChars(w) && DotsSpaced(w);
    }
    assert DotsFrequent(w) && |w| >= 64 ==> DotIn(w, 0);
    if LabelRules(w) {
      forall c | c in w ensures IsLabelChar(c) {
        var i :| 0 <= i < |w| && w[i] == c;
      }
    }
  }

  lemma FirstLabel(w: string, rest: string)
    requires '.' !in w
    ensures LabelRules(w + "." + rest) <==> IsValidLabel(w) && LabelRules(rest)
  {
    var t, k := w + "." + rest, |w|;
    SingleLabel(w);
    assert forall i :: 0 <= i < k ==> t[i] == w[i];
    assert t[k] == '.' && forall i :: k < i < |t| ==> t[i] == rest[i - k - 1];
    assert forall i :: 0 <= i < |rest| ==> t[i + k + 1] == rest[i];
    assert forall i :: 0 <= i < k ==> w[i] in w;
    FirstLabelChars(w, rest);
    FirstLabelSpaced(w, rest);
    if LabelRules(t) || (LabelRules(w) && LabelRules(rest)) {
      FirstLabelFrequent(w, rest);
    }
  }

  lemma FirstLabelChars(w: string, rest: string)
    ensures HostChars(w + "." + rest) <==> HostChars(w) && HostChars(rest)
  {
    var t, k := w + "." + rest, |w|;
    assert forall i :: 0 <= i < k ==> t[i] == w[i];
    assert forall i :: 0 <= i < |rest| ==> t[i + k + 1] == rest[i];
    assert t[k] == '.';
  }

  lemma FirstLabelSpaced(w: string, rest: string)
    requires '.' !in w
    ensures DotsSpaced(w + "." + rest) <==> DotsSpaced(w) && DotsSpaced(rest)
  {
    if DotsSpaced(w + "." + rest) {
      SpacedParts(w, rest);
    }
    if DotsSpaced(w) && DotsSpaced(rest) {
      SpacedWhole(w, rest);
    }
  }

  lemma SpacedParts(w: string, rest: string)
    requires '.' !in w && DotsSpaced(w + "." + rest)
    ensures DotsSpaced(w) && DotsSpaced(rest)
  {
    var t, k := w + "." + rest, |w|;
    assert forall i :: 0 <= i < k ==> t[i] == w[i] && w[i] in w;
    assert forall i :: 0 <= i < |rest| ==> t[i + k + 1] == rest[i];
    assert t[k] == '.';
    forall i | 0 <= i < |rest| && rest[i] == '.'
      ensures 0 < i < |rest| - 1 && !IsJoint(rest[i - 1]) && !IsJoint(rest[i + 1])
    {
      assert t[i + k + 1] == '.';
      assert i > 0;
      assert t[i + k] == rest[i - 1] && t[i + k + 2] == rest[i + 1];
    }
  }

  lemma SpacedWhole(w: string, rest: string)
    requires '.' !in w && DotsSpaced(w) && DotsSpaced(rest)
    ensures DotsSpaced(w + "." + rest)
  {
    var t, k := w + "." + rest, |w|;
    assert forall i :: 0 <= i < k ==> t[i] == w[i] && w[i] in w;
    assert forall i :: k < i < |t| ==> t[i] == rest[i - k - 1];
    forall i | 0 <= i < |t| && t[i] == '.' ensures 0 < i < |t| - 1 && !IsJoint(t[i - 1]) && !IsJoint(t[i + 1]) {
      if i == k {
        assert t[k - 1] == w[k - 1] && t[k + 1] == rest[0];
      } else {
        assert i > k && rest[i - k - 1] == '.';
        assert t[i - 1] == rest[i - k - 2] && t[i + 1] == rest[i - k];
      }
    }
  }

  lemma FirstLabelFrequent(w: string, rest: string)
    requires '.' !in w
    ensures DotsFrequent(w + "." + rest) <==> DotsFrequent(w) && DotsFrequent(rest)
  {
    if DotsFrequent(w + "." + rest) {
      FrequentParts(w, rest);
    }
    if DotsFrequent(w) && DotsFrequent(rest) {
      FrequentWhole(w, rest);
    }
  }

  lemma FrequentParts(w: string, rest: string)
    requires '.' !in w && DotsFrequent(w + "." + rest)
    ensures DotsFrequent(w) && DotsFrequent(rest)
  {
    var t, k := w + "." + rest, |w|;
    assert forall i :: 0 <= i < k ==> t[i] == w[i] && w[i] in w;
    assert k >= 64 ==> DotIn(t, 0);
    forall i | 0 <= i && i + 64 <= |rest| ensures DotIn(rest, i) {
      assert DotIn(t, i + k + 1);
      var j :| i + k + 1 <= j < i + k + 1 + 64 && j < |t| && t[j] == '.';
      assert rest[j - k - 1] == '.';
    }
  }

  lemma FrequentWhole(w: string, rest: string)
    requires '.' !in w && DotsFrequent(w) && DotsFrequent(rest)
    ensures DotsFrequent(w + "." + rest)
  {
    var t, k := w + "." + rest, |w|;
    assert k >= 64 ==> DotIn(w, 0);
    assert forall i :: 0 <= i < k ==> w[i] in w;
    assert t[k] == '.';
    forall i | 0 <= i && i + 64 <= |t| ensures DotIn(t, i) {
      if i > k {
        assert DotIn(rest, i - k - 1);
        var j :| i - k - 1 <= j < i - k - 1 + 64 && j < |rest| && rest[j] == '.';
        assert t[j + k + 1] == rest[j];
      }
    }
  }

  lemma FirstDot(t: string) returns (w: string, rest: string)
    requires '.' in t
    ensures '.' !in w && t == w + "." + rest
  {
    var k := FirstDotAt(t);
    w, rest := t[..k], t[k + 1..];
  }

  lemma {:induction false} FirstDotAt(t: string) returns (k: nat)
    requires '.' in t
    ensures k < |t| && t[k] == '.' && '.' !in t[..k]
  {
    if t[0] == '.' {
      k := 0;
    } else {
      var i := FirstDotAt(t[1..]);
      k := i + 1;
      assert t[..k] == [t[0]] + t[1..][..i];
    }
  }

  /** The labels between the dots are all valid exactly if the characters and their places are. */
  lemma {:induction false} LabelsByPlace(t: string)
    ensures LabelsValid(t) <==> LabelRules(t)
    decreases |t|
  {
    if '.' in t {
      var w, rest := FirstDot(t);
      LabelsByPlace(rest);
      Text.SplitFirst(w, '.', rest);
      FirstLabel(w, rest);
      LabelsSnoc(w, rest, t);
    } else {
      Text.SplitOne(t, '.');
      assert Text.Split(t, '.')[0] == t;
      SingleLabel(t);
    }
  }

  lemma LabelsSnoc(w: string, rest: string, t: string)
    requires Text.Split(t, '.') == [w] + Text.Split(rest, '.')
    ensures LabelsValid(t) <==> IsValidLabel(w) && LabelsValid(rest)
  {
    var parts, tail := Text.Split(t, '.'), Text.Split(rest, '.');
    assert forall i :: 0 <= i < |tail| ==> parts[i + 1] == tail[i];
    assert parts[0] == w;
  }

  /** A name is accepted if and only if what is left of it without surrounding whitespace and final dots has at
      most 253 characters, letters, digits, hyphens and dots, with no hyphen and no dot at an end or next to
      a dot and at most 63 characters between dots; and the result is that, letters in lower case
      (section 2.1 of RFC 1123 and section 2.3.4 of RFC 1035). */
  lemma CanonicalIs(name: string)
    ensures var core := Text.TrimEndMatches(Text.Trim(name), '.');
      && (CanonicalHostname(name).Some? <==> |core| <= 253 && LabelRules(core))
      && (CanonicalHostname(name).Some? ==>
            && |CanonicalHostname(name).value| == |core|
            && forall i :: 0 <= i < |core| ==>
                 CanonicalHostname(name).value[i] ==
                   if 'A' <= core[i] <= 'Z' then (core[i] as int + 32) as char else core[i])
  {
    var core := Text.TrimEndMatches(Text.Trim(name), '.');
    var t := Text.ToLower(core);
    LabelsByPlace(t);
    LowerKeepsRules(core);
    assert (forall part :: part in Text.Split(t, '.') ==> IsValidLabel(part)) <==> LabelsValid(t);
  }

  lemma LowerKeepsRules(core: string)
    ensures LabelRules(Text.ToLower(core)) <==> LabelRules(core)
  {
    var t := Text.ToLower(core);
    assert forall i :: 0 <= i < |core| ==> (t[i] == '.' <==> core[i] == '.') && (IsJoint(t[i]) <==> IsJoint(core[i]));
    assert HostChars(t) <==> HostChars(core) by {
      assert forall i :: 0 <= i < |core| ==> (IsLabelChar(t[i]) <==> IsLabelChar(core[i]));
    }
    forall i: nat ensures DotIn(t, i) <==> DotIn(core, i) {
      SameDots(t, core, i);
    }
  }

  lemma SameDots(a: string, b: string, i: nat)
    requires |a| == |b| && forall k :: 0 <= k < |a| ==> (a[k] == '.' <==> b[k] == '.')
    ensures DotIn(a, i) <==> DotIn(b, i)
  {
    if DotIn(a, i) {
      var k :| i <= k < i + 64 && k < |a| && a[k] == '.';
      assert b[k] == '.';
    }
    if DotIn(b, i) {
      var k :| i <= k < i + 64 && k < |b| && b[k] == '.';
      assert a[k] == '.';
    }
  }

  // ---- What is published ----

  function CanonicalSuffix(suffix: Option<string>): Option<string> {
    if suffix.Some? then CanonicalHostname(suffix.value) else None
  }

  /** The names of one node: the host name, and the suffixed one if there is a suffix. */
  function NamesOf(hostname: string, suffix: Option<string>): seq<string> {
    match suffix
    case None => [hostname]
    case Some(s) => [hostname, hostname + "." + s]
  }

  /** The one address a node is published under: the first of the addresses best for `local`. */
  function RecordIp(remote: EndpointAddr, local: EndpointAddr): Option<IpAddr> {
    var best := Address.Listing(Address.BestEndpointAddrForLocal(remote, local).ips);
    if best == [] then None else Some(best[0].ip)
  }

  /** The lines of one node, or nothing for clients, nodes without an IP and invalid names. */
  function Published(n: Node, local: EndpointAddr, suffix: Option<string>): Option<(IpAddr, seq<string>)> {
    var ip := RecordIp(n.addr, local);
    var hostname := CanonicalHostname(n.domain);
    if !IsDaemon(n) || ip.None? || hostname.None? then None
    else Some((ip.value, NamesOf(hostname.value, suffix)))
  }

  function AddHostnames(m: map<IpAddr, seq<string>>, ip: IpAddr, names: seq<string>): map<IpAddr, seq<string>> {
    m[ip := (if ip in m then m[ip] else []) + names]
  }

  function AddNode(m: map<IpAddr, seq<string>>, n: Node, local: EndpointAddr, suffix: Option<string>)
    : map<IpAddr, seq<string>>
  {
    match Published(n, local, suffix)
    case None => m
    case Some((ip, names)) => AddHostnames(m, ip, names)
  }

  function HostnameMap(nodes: seq<Node>, local: EndpointAddr, suffix: Option<string>): map<IpAddr, seq<string>> {
    if nodes == [] then map[]
    else AddNode(HostnameMap(nodes[..|nodes| - 1], local, suffix), nodes[|nodes| - 1], local, suffix)
  }

  function Entry(ip: IpAddr, names: seq<string>, show: IpAddr -> string): string {
    show(ip) + " " + Text.Join(names, " ")
  }

  function EntriesFor(ips: seq<IpAddr>, m: map<IpAddr, seq<string>>, show: IpAddr -> string): (lines: Lines)
    requires forall ip :: ip in ips ==> ip in m
    ensures |lines| == |ips|
    ensures forall i :: 0 <= i < |ips| ==> lines[i] == Entry(ips[i], m[ips[i]], show)
  {
    seq(|ips|, i requires 0 <= i < |ips| => Entry(ips[i], m[ips[i]], show))
  }

  /** One line per address, in address order. */
  function Entries(m: map<IpAddr, seq<string>>, show: IpAddr -> string): Lines {
    Address.IpRankInjective(m.Keys);
    EntriesFor(Ascending(m.Keys, Address.IpRank), m, show)
  }

  /** The address a node is published under is the one chosen among its addresses, or, where there is no choice,
      the first of them in listing order; a node without any has none. */
  lemma RecordIpIs(remote: EndpointAddr, local: EndpointAddr)
    ensures RecordIp(remote, local).None? <==> remote.ips == {}
    ensures forall s :: Address.BestEndpointAddrForLocal(remote, local) == EndpointAddr(remote.id, {s}, {}) ==>
      RecordIp(remote, local) == Some(s.ip)
    ensures Address.BestEndpointAddrForLocal(remote, local) == remote && remote.ips != {} ==>
      exists s :: s in remote.ips && RecordIp(remote, local) == Some(s.ip)
        && forall y :: y in remote.ips ==> y == s || Address.ListedBefore(s, y)
  {
    var best := Address.BestEndpointAddrForLocal(remote, local);
    var listing := Address.Listing(best.ips);
    Address.ChoiceIs(remote, local);
    forall s | best == EndpointAddr(remote.id, {s}, {}) ensures RecordIp(remote, local) == Some(s.ip) {
      assert s in listing;
      assert listing[0] in listing;
    }
    if listing != [] {
      FirstListed(best.ips, listing);
    } else {
      assert best.ips == {} by {
        assert forall x :: x in best.ips ==> x in listing;
      }
    }
  }

  lemma FirstListed(addrs: set<SocketAddr>, listing: seq<SocketAddr>)
    requires listing == Address.Listing(addrs) && listing != []
    ensures listing[0] in addrs && forall y :: y in addrs ==> y == listing[0] || Address.ListedBefore(listing[0], y)
  {
    assert listing[0] in listing;
    forall y | y in addrs ensures y == listing[0] || Address.ListedBefore(listing[0], y) {
      assert y in listing;
      var i :| 0 <= i < |listing| && listing[i] == y;
      Address.RankIsListing(listing[0], y);
    }
  }

  /** The names one node contributes to the line of `ip`. */
  function NamesUnder(n: Node, local: EndpointAddr, suffix: Option<string>, ip: IpAddr): seq<string> {
    if CLIENT_MARKER in n.services || RecordIp(n.addr, local) != Some(ip) || CanonicalHostname(n.domain).None? then []
    else
      var host := CanonicalHostname(n.domain).value;
      if suffix.Some? then [host, host + "." + suffix.value] else [host]
  }

  function AllNamesUnder(nodes: seq<Node>, local: EndpointAddr, suffix: Option<string>, ip: IpAddr): seq<string> {
    if nodes == [] then []
    else NamesUnder(nodes[0], local, suffix, ip) + AllNamesUnder(nodes[1..], local, suffix, ip)
  }

  lemma {:induction false} AllNamesSnoc(nodes: seq<Node>, local: EndpointAddr, suffix: Option<string>, ip: IpAddr)
    requires nodes != []
    ensures var n := |nodes| - 1;
      AllNamesUnder(nodes, local, suffix, ip) ==
        AllNamesUnder(nodes[..n], local, suffix, ip) + NamesUnder(nodes[n], local, suffix, ip)
  {
    var n := |nodes| - 1;
    if n > 0 {
      AllNamesSnoc(nodes[1..], local, suffix, ip);
      assert nodes[1..][..n - 1] == nodes[..n][1..];
    } else {
      assert AllNamesUnder(nodes[1..], local, suffix, ip) == [];
    }
  }

  /** Under each address the names stand in the order of the nodes, the plain one of a node before the suffixed
      one, repetitions included; an address nobody is published under does not appear. */
  lemma {:induction false} NamesInOrder(nodes: seq<Node>, local: EndpointAddr, suffix: Option<string>, ip: IpAddr)
    ensures var m := HostnameMap(nodes, local, suffix);
      && (ip in m <==> AllNamesUnder(nodes, local, suffix, ip) != [])
      && (ip in m ==> m[ip] == AllNamesUnder(nodes, local, suffix, ip))
  {
    if nodes != [] {
      var n := |nodes| - 1;
      NamesInOrder(nodes[..n], local, suffix, ip);
      AllNamesSnoc(nodes, local, suffix, ip);
    }
  }

  /** IPv4 before IPv6, each by value. */
  ghost predicate IpBefore(a: IpAddr, b: IpAddr) {
    (a.V4? && b.V6?) || (a.V4? == b.V4? && Address.Bits(a) < Address.Bits(b))
  }

  lemma RankIsBefore(a: IpAddr, b: IpAddr)
    ensures Address.IpRank(a) < Address.IpRank(b) <==> IpBefore(a, b)
  {
  }

  lemma KeysInOrder(keys: set<IpAddr>) returns (ips: seq<IpAddr>)
    requires Injective(keys, Address.IpRank)
    ensures ips == Ascending(keys, Address.IpRank)
    ensures forall ip :: ip in ips <==> ip in keys
    ensures forall i, j :: 0 <= i < j < |ips| ==> IpBefore(ips[i], ips[j])
  {
    ips := Ascending(keys, Address.IpRank);
    forall i, j | 0 <= i < j < |ips| ensures IpBefore(ips[i], ips[j]) {
      RankIsBefore(ips[i], ips[j]);
    }
  }

  /** The entries are one line for each address, in address order: the address, a space, and its names with
      spaces between them. */
  lemma EntryLines(m: map<IpAddr, seq<string>>, show: IpAddr -> string) returns (ips: seq<IpAddr>)
    ensures forall ip :: ip in ips <==> ip in m
    ensures forall i, j :: 0 <= i < j < |ips| ==> IpBefore(ips[i], ips[j])
    ensures |Entries(m, show)| == |ips|
    ensures forall i :: 0 <= i < |ips| ==>
      ips[i] in m && Entries(m, show)[i] == show(ips[i]) + " " + Text.Join(m[ips[i]], " ")
  {
    Address.IpRankInjective(m.Keys);
    ips := KeysInOrder(m.Keys);
    forall i | 0 <= i < |ips|
      ensures ips[i] in m && Entries(m, show)[i] == show(ips[i]) + " " + Text.Join(m[ips[i]], " ")
    {
      assert ips[i] in ips;
      assert Entries(m, show)[i] == Entry(ips[i], m[ips[i]], show);
    }
  }

  class HostsBuilder {
    var hostnameMap: map<IpAddr, seq<string>>

    constructor ()
      ensures hostnameMap == map[]
    {
      hostnameMap := map[];
    }

    method Add(ip: IpAddr, names: seq<string>)
      modifies this
      ensures hostnameMap == AddHostnames(old(hostnameMap), ip, names)
    {
      if ip !in hostnameMap {
        hostnameMap := hostnameMap[ip := []];
      }
      ghost var start := hostnameMap[ip];
      assert start + names[..0] == start;
      var i := 0;
      while i < |names|
        invariant 0 <= i <= |names|
        invariant hostnameMap == old(hostnameMap)[ip := start + names[..i]]
      {
        assert start + names[..i + 1] == start + names[..i] + [names[i]];
        hostnameMap := hostnameMap[ip := hostnameMap[ip] + [names[i]]];
        i := i + 1;
      }
      assert names[..i] == names;
    }

    /** What the sync loop does with one node. */
    method AddPublished(n: Node, local: EndpointAddr, suffix: Option<string>)
      modifies this
      ensures hostnameMap == AddNode(old(hostnameMap), n, local, suffix)
    {
      if !IsDaemon(n) {
        return;
      }
      var ip := RecordIp(n.addr, local);
      if ip.None? {
        return;
      }
      var hostname := CanonicalHostname(n.domain);
      if hostname.None? {
        return;
      }
      Add(ip.value, NamesOf(hostname.value, suffix));
    }

    method WriteTo(file: HostsFile, show: IpAddr -> string) returns (r: Result<bool, HostsError>)
      modifies file
      ensures var section := Section(Entries(hostnameMap, show));
        && (Splice(old(file.lines), section).Ok? ==> r == Ok(!UpToDate(old(file.lines), section)))
        && (Splice(old(file.lines), section).Err? ==> r == Err(Splice(old(file.lines), section).error))
        && file.lines == if r.Ok? then Splice(old(file.lines), section).value else old(file.lines)
    {
      var section := Render(show);
      r := file.WriteSection(section);
    }

    /** The lines to insert: none at all for an empty map. */
    method Render(show: IpAddr -> string) returns (section: Lines)
      ensures section == Section(Entries(hostnameMap, show))
    {
      Address.IpRankInjective(hostnameMap.Keys);
      var ips := Ascending(hostnameMap.Keys, Address.IpRank);
      if ips == [] {
        return [];
      }
      var entries := RenderEntries(ips, show);
      return [BEGIN_MARKER] + entries + [END_MARKER];
    }

    method RenderEntries(ips: seq<IpAddr>, show: IpAddr -> string) returns (lines: Lines)
      requires forall ip :: ip in ips ==> ip in hostnameMap
      ensures lines == EntriesFor(ips, hostnameMap, show)
    {
      lines := [];
      var i := 0;
      while i < |ips|
        invariant 0 <= i <= |ips|
        invariant lines == EntriesFor(ips, hostnameMap, show)[..i]
      {
        lines := lines + [show(ips[i]) + " " + Text.Join(hostnameMap[ips[i]], " ")];
        i := i + 1;
      }
    }
  }

  method SyncNodesToHosts(file: HostsFile, local: EndpointAddr, nodes: seq<Node>, suffix: Option<string>,
                          show: IpAddr -> string) returns (r: Result<bool, HostsError>)
    modifies file
    ensures file.lines == Synced(old(file.lines), local, nodes, suffix, show)
    ensures r.Ok? <==> Splice(old(file.lines), SectionOf(local, nodes, suffix, show)).Ok?
    ensures r.Ok? ==> r.value == !UpToDate(old(file.lines), SectionOf(local, nodes, suffix, show))
  {
    var builder := new HostsBuilder();
    var canonical := CanonicalSuffix(suffix);
    var i := 0;
    while i < |nodes|
      invariant 0 <= i <= |nodes|
      invariant builder.hostnameMap == HostnameMap(nodes[..i], local, canonical)
      invariant fresh(builder) && file.lines == old(file.lines)
    {
      assert nodes[..i + 1][..i] == nodes[..i];
      builder.AddPublished(nodes[i], local, canonical);
      i := i + 1;
    }
    assert nodes[..i] == nodes;
    r := builder.WriteTo(file, show);
  }

  method ClearManagedHosts(file: HostsFile, show: IpAddr -> string) returns (r: Result<bool, HostsError>)
    modifies file
    ensures file.lines == if Splice(old(file.lines), []).Ok? then Splice(old(file.lines), []).value else old(file.lines)
    ensures r.Ok? <==> Splice(old(file.lines), []).Ok?
  {
    var builder := new HostsBuilder();
    assert Entries(map[], show) == [];
    r := builder.WriteTo(file, show);
  }

  function MapOf(local: EndpointAddr, nodes: seq<Node>, suffix: Option<string>): map<IpAddr, seq<string>> {
    HostnameMap(nodes, local, CanonicalSuffix(suffix))
  }

  function SectionOf(local: EndpointAddr, nodes: seq<Node>, suffix: Option<string>, show: IpAddr -> string): Lines {
    Section(Entries(MapOf(local, nodes, suffix), show))
  }

  /** The file after a sync; a file whose markers do not pair up is left alone. */
  function Synced(lines: Lines, local: EndpointAddr, nodes: seq<Node>, suffix: Option<string>,
                  show: IpAddr -> string): Lines {
    match Splice(lines, SectionOf(local, nodes, suffix, show))
    case Ok(next) => next
    case Err(_) => lines
  }

  // ---- Reading the section back ----

  /** All that is used of how addresses are displayed: distinct, non-empty, without whitespace, and not
      beginning with a comment sign. */
  ghost predicate Displays(show: IpAddr -> string) {
    && (forall ip :: show(ip) != "" && show(ip)[0] != '#')
    && (forall ip, c :: c in show(ip) ==> !Text.IsWhitespace(c))
    && (forall ip, jp :: show(ip) == show(jp) ==> ip == jp)
  }

  /** A resolver's reading of a line: the address, and each name after it. */
  ghost predicate LineSays(line: string, addr: string, name: string) {
    var parts := Text.Split(line, ' ');
    parts[0] == addr && name in parts[1..]
  }

  /** A resolver's reading of the managed section of a file. */
  ghost predicate SectionSays(lines: Lines, addr: string, name: string) {
    var begin, end := Position(lines, IsBegin), Position(lines, IsEnd);
    begin.Some? && end.Some? && begin.value < end.value
    && exists line :: line in lines[begin.value + 1..end.value] && LineSays(line, addr, name)
  }

  /** What the section is to say: the selected address of each daemon, with its names. */
  ghost predicate Wanted(local: EndpointAddr, nodes: seq<Node>, suffix: Option<string>, ip: IpAddr, name: string) {
    exists n :: n in nodes && NodeSays(n, local, suffix, ip, name)
  }

  /** The node is no client, `ip` is its address, and `name` its name or that name with the suffix, if both
      are accepted. */
  ghost predicate NodeSays(n: Node, local: EndpointAddr, suffix: Option<string>, ip: IpAddr, name: string) {
    && CLIENT_MARKER !in n.services && RecordIp(n.addr, local) == Some(ip) && CanonicalHostname(n.domain).Some?
    && var host := CanonicalHostname(n.domain).value;
      || name == host
      || (suffix.Some? && CanonicalHostname(suffix.value).Some?
          && name == host + "." + CanonicalHostname(suffix.value).value)
  }

  ghost predicate GoodMap(m: map<IpAddr, seq<string>>) {
    forall ip :: ip in m ==> m[ip] != [] && forall name :: name in m[ip] ==> Text.IsWord(name)
  }

  lemma CanonicalIsWord(name: string)
    requires CanonicalHostname(name).Some?
    ensures Text.IsWord(CanonicalHostname(name).value)
  {
    CanonicalChars(name);
  }

  lemma DottedIsWord(a: string, b: string)
    requires Text.IsWord(a) && Text.IsWord(b)
    ensures Text.IsWord(a + "." + b)
  {
  }

  lemma NamesAreWords(hostname: string, suffix: Option<string>)
    requires Text.IsWord(hostname) && (suffix.Some? ==> Text.IsWord(suffix.value))
    ensures forall name :: name in NamesOf(hostname, suffix) ==> Text.IsWord(name)
  {
    if suffix.Some? {
      DottedIsWord(hostname, suffix.value);
    }
  }

  predicate NameOf(hostname: string, suffix: Option<string>, name: string) {
    name == hostname || (suffix.Some? && name == hostname + "." + suffix.value)
  }

  ghost predicate NodeWants(n: Node, local: EndpointAddr, suffix: Option<string>, ip: IpAddr, name: string) {
    IsDaemon(n) && RecordIp(n.addr, local) == Some(ip) && CanonicalHostname(n.domain).Some?
    && NameOf(CanonicalHostname(n.domain).value, suffix, name)
  }

  lemma AddNodeHolds(m: map<IpAddr, seq<string>>, n: Node, local: EndpointAddr, suffix: Option<string>, ip: IpAddr,
                     name: string)
    requires GoodMap(m) && (suffix.Some? ==> Text.IsWord(suffix.value))
    ensures var m' := AddNode(m, n, local, suffix);
      && GoodMap(m')
      && (ip in m' && name in m'[ip] <==> (ip in m && name in m[ip]) || NodeWants(n, local, suffix, ip, name))
  {
    var p := Published(n, local, suffix);
    if p.Some? {
      var hostname := CanonicalHostname(n.domain).value;
      CanonicalIsWord(n.domain);
      NamesAreWords(hostname, suffix);
      AddHostnamesHolds(m, p.value.0, p.value.1, ip, name);
      assert name in NamesOf(hostname, suffix) <==> NameOf(hostname, suffix, name);
    }
  }

  lemma AddHostnamesHolds(m: map<IpAddr, seq<string>>, at: IpAddr, names: seq<string>, ip: IpAddr, name: string)
    requires GoodMap(m) && names != [] && forall w :: w in names ==> Text.IsWord(w)
    ensures var m' := AddHostnames(m, at, names);
      && GoodMap(m')
      && (ip in m' && name in m'[ip] <==> (ip in m && name in m[ip]) || (ip == at && name in names))
  {
  }

  lemma {:induction false} HostnameMapHolds(local: EndpointAddr, nodes: seq<Node>, suffix: Option<string>, ip: IpAddr,
                                            name: string)
    requires suffix.Some? ==> Text.IsWord(suffix.value)
    ensures GoodMap(HostnameMap(nodes, local, suffix))
    ensures var m := HostnameMap(nodes, local, suffix);
      ip in m && name in m[ip] <==> exists n :: n in nodes && NodeWants(n, local, suffix, ip, name)
  {
    if nodes != [] {
      var front, last := nodes[..|nodes| - 1], nodes[|nodes| - 1];
      HostnameMapHolds(local, front, suffix, ip, name);
      AddNodeHolds(HostnameMap(front, local, suffix), last, local, suffix, ip, name);
      assert forall n :: n in nodes <==> n in front || n == last by {
        assert nodes == front + [last];
      }
    }
  }

  lemma EntryReadsBack(ip: IpAddr, names: seq<string>, show: IpAddr -> string)
    requires Displays(show) && names != [] && forall name :: name in names ==> Text.IsWord(name)
    ensures Text.Split(Entry(ip, names, show), ' ') == [show(ip)] + names
  {
    assert Text.IsWhitespace(' ');
    assert ' ' !in show(ip);
    forall i | 0 <= i < |names| ensures ' ' !in names[i] {
      assert Text.IsWord(names[i]);
    }
    Text.SplitFirst(show(ip), ' ', Text.Join(names, " "));
    Text.SplitUndoesJoin(names, ' ');
  }

  lemma EntryIsNoMarker(ip: IpAddr, names: seq<string>, show: IpAddr -> string)
    requires Displays(show)
    ensures !IsBegin(Entry(ip, names, show)) && !IsEnd(Entry(ip, names, show))
  {
    assert show(ip)[0] in show(ip);
    Text.TrimKeepsFirst(Entry(ip, names, show));
  }

  /** Entry lines are never taken for markers. */
  lemma EntriesAreClean(m: map<IpAddr, seq<string>>, show: IpAddr -> string)
    requires Displays(show)
    ensures Clean(Entries(m, show))
  {
    Address.IpRankInjective(m.Keys);
    var ips := Ascending(m.Keys, Address.IpRank);
    forall line | line in Entries(m, show) ensures !IsBegin(line) && !IsEnd(line) {
      var i :| 0 <= i < |ips| && Entries(m, show)[i] == line;
      EntryIsNoMarker(ips[i], m[ips[i]], show);
    }
  }

  lemma EntriesSay(m: map<IpAddr, seq<string>>, show: IpAddr -> string, ip: IpAddr, name: string)
    requires Displays(show) && GoodMap(m)
    ensures (exists line :: line in Entries(m, show) && LineSays(line, show(ip), name)) <==> ip in m && name in m[ip]
  {
    if line :| line in Entries(m, show) && LineSays(line, show(ip), name) {
      var i :| 0 <= i < |Entries(m, show)| && Entries(m, show)[i] == line;
      EntrySays(m, show, ip, name, i);
    }
    if ip in m && name in m[ip] {
      var line := EntrySaid(m, show, ip, name);
    }
  }

  /** Whatever an entry says is in the map. */
  lemma EntrySays(m: map<IpAddr, seq<string>>, show: IpAddr -> string, ip: IpAddr, name: string, i: nat)
    requires Displays(show) && GoodMap(m)
    requires i < |Entries(m, show)| && LineSays(Entries(m, show)[i], show(ip), name)
    ensures ip in m && name in m[ip]
  {
    var ips := EntryLines(m, show);
    EntryReadsBack(ips[i], m[ips[i]], show);
  }

  /** Whatever is in the map, some entry says. */
  lemma EntrySaid(m: map<IpAddr, seq<string>>, show: IpAddr -> string, ip: IpAddr, name: string)
    returns (line: string)
    requires Displays(show) && GoodMap(m) && ip in m && name in m[ip]
    ensures line in Entries(m, show) && LineSays(line, show(ip), name)
  {
    var ips := EntryLines(m, show);
    var i :| 0 <= i < |ips| && ips[i] == ip;
    line := Entries(m, show)[i];
    EntryReadsBack(ip, m[ip], show);
    assert line == Entry(ip, m[ip], show);
  }

  lemma SectionSaysItsEntries(before: Lines, entries: Lines, after: Lines, addr: string, name: string)
    requires Clean(before) && Clean(entries) && Clean(after)
    ensures SectionSays(before + Section(entries) + after, addr, name)
       <==> exists line :: line in entries && LineSays(line, addr, name)
  {
    if entries == [] {
      SpliceKeepsShape(before, entries, after);
      CleanPositions(before + Section(entries) + after);
    } else {
      SectionAssoc(before, entries, after);
      OpenSectionSays(before, entries, after, addr, name);
    }
  }

  lemma OpenSectionSays(before: Lines, entries: Lines, after: Lines, addr: string, name: string)
    requires Clean(before) && Clean(entries)
    ensures SectionSays(before + [BEGIN_MARKER] + entries + [END_MARKER] + after, addr, name)
       <==> exists line :: line in entries && LineSays(line, addr, name)
  {
    MarkersAreMarkers();
    SectionPositions(before, BEGIN_MARKER, entries, END_MARKER, after);
    SectionedSlices(before, BEGIN_MARKER, entries, END_MARKER, after);
    var lines := before + [BEGIN_MARKER] + entries + [END_MARKER] + after;
    assert lines[|before| + 1..|before| + 1 + |entries|] == entries;
  }

  /** After a sync of a shaped file, reading the managed section gives exactly the published pairs, in
      whatever order the nodes came. */
  lemma SectionRoundTrip(lines: Lines, local: EndpointAddr, nodes: seq<Node>, suffix: Option<string>,
                         show: IpAddr -> string, ip: IpAddr, name: string)
    requires Shaped(lines) && Displays(show)
    ensures SectionSays(Synced(lines, local, nodes, suffix, show), show(ip), name)
       <==> Wanted(local, nodes, suffix, ip, name)
  {
    var canonical := CanonicalSuffix(suffix);
    if canonical.Some? {
      CanonicalIsWord(suffix.value);
    }
    var m := MapOf(local, nodes, suffix);
    HostnameMapHolds(local, nodes, canonical, ip, name);
    assert forall n :: NodeWants(n, local, canonical, ip, name) <==> NodeSays(n, local, suffix, ip, name);
    EntriesAreClean(m, show);
    EntriesSay(m, show, ip, name);
    var before, after := WriteShaped(lines, Entries(m, show));
    SectionSaysItsEntries(before, Entries(m, show), after, show(ip), name);
  }
}
