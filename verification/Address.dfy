/** IPv4 addresses, their printed form, and the address allocator. */
module Address {
  import opened Counting
  import opened Decimal
  import opened Options
  import opened Firewall

  type Octet = n: int | 0 <= n < 256

  datatype Ipv4 = Ipv4(a: Octet, b: Octet, c: Octet, d: Octet)

  datatype Subnet = Subnet(base: Ipv4, bits: MaskLength)

  const FIRST_HOST := 2
  const END_HOST := 254

  function Number(ip: Ipv4): nat {
    ((ip.a * 256 + ip.b) * 256 + ip.c) * 256 + ip.d
  }

  function Print(ip: Ipv4): string {
    Numeral(ip.a) + "." + (Numeral(ip.b) + "." + (Numeral(ip.c) + "." + Numeral(ip.d)))
  }

  predicate Contains(s: Subnet, ip: Ipv4) {
    InPrefix(Number(ip), Prefix(Number(s.base), s.bits))
  }

  /** The server takes .1, whether or not that lies in the subnet. */
  function ServerAddress(s: Subnet): Ipv4 {
    s.base.(d := 1)
  }

  function Host(s: Subnet, i: Octet): Ipv4 {
    s.base.(d := i)
  }

  /** The part of an allowed-ips string before its first slash. */
  function BeforeSlash(s: string): string {
    if s == "" || s[0] == '/' then "" else [s[0]] + BeforeSlash(s[1..])
  }

  function PeerStrings(allowed: seq<string>): set<string> {
    if allowed == [] then {} else PeerStrings(allowed[..|allowed| - 1]) + {BeforeSlash(allowed[|allowed| - 1])}
  }

  function Used(s: Subnet, allowed: seq<string>): set<string> {
    {Print(ServerAddress(s))} + PeerStrings(allowed)
  }

  predicate Free(s: Subnet, allowed: seq<string>, i: Octet) {
    Contains(s, Host(s, i)) && Print(Host(s, i)) !in Used(s, allowed)
  }

  /** The address handed out: the lowest free host number, if there is one. */
  ghost predicate IsAllocation(s: Subnet, allowed: seq<string>, r: Option<Ipv4>) {
    match r
    case None => forall i: Octet :: FIRST_HOST <= i < END_HOST ==> !Free(s, allowed, i)
    case Some(ip) =>
      && FIRST_HOST <= ip.d < END_HOST && ip == Host(s, ip.d) && Free(s, allowed, ip.d)
      && forall i: Octet :: FIRST_HOST <= i < ip.d ==> !Free(s, allowed, i)
  }

  function LowestFree(s: Subnet, allowed: seq<string>, from: int): Option<Ipv4>
    requires 0 <= from <= END_HOST
    decreases END_HOST - from
  {
    if from == END_HOST then None
    else if Free(s, allowed, from) then Some(Host(s, from))
    else LowestFree(s, allowed, from + 1)
  }

  /** No address at all when the subnet setting did not parse. */
  function Allocate(subnet: Option<Subnet>, allowed: seq<string>): Option<Ipv4> {
    if subnet.None? then None else LowestFree(subnet.value, allowed, FIRST_HOST)
  }

  lemma {:induction false} LowestFreeFrom(s: Subnet, allowed: seq<string>, from: int)
    requires FIRST_HOST <= from <= END_HOST
    requires forall i: Octet :: FIRST_HOST <= i < from ==> !Free(s, allowed, i)
    ensures IsAllocation(s, allowed, LowestFree(s, allowed, from))
    decreases END_HOST - from
  {
    if from < END_HOST && !Free(s, allowed, from) {
      LowestFreeFrom(s, allowed, from + 1);
    }
  }

  method AllocateIP(subnet: Option<Subnet>, allowed: seq<string>) returns (r: Option<Ipv4>)
    ensures r == Allocate(subnet, allowed)
    ensures subnet.Some? ==> IsAllocation(subnet.value, allowed, r)
  {
    if subnet.None? {
      return None;
    }
    var s := subnet.value;
    var used := {Print(ServerAddress(s))};
    for k := 0 to |allowed|
      invariant used == Used(s, allowed[..k])
    {
      used := used + {BeforeSlash(allowed[k])};
      assert allowed[..k + 1][..k] == allowed[..k];
    }
    assert allowed[..|allowed|] == allowed;
    LowestFreeFrom(s, allowed, FIRST_HOST);
    for i := FIRST_HOST to END_HOST
      invariant forall j: Octet :: FIRST_HOST <= j < i ==> !Free(s, allowed, j)
      invariant LowestFree(s, allowed, FIRST_HOST) == LowestFree(s, allowed, i)
    {
      var candidate := s.base.(d := i);
      if Contains(s, candidate) && Print(candidate) !in used {
        return Some(candidate);
      }
    }
    r := None;
  }

  // Printed addresses determine the bytes

  lemma SplitAtDot(p: string, s: string, q: string, t: string)
    requires '.' !in p && '.' !in q && p + "." + s == q + "." + t
    ensures p == q && s == t
  {
    var l, r := p + "." + s, q + "." + t;
    assert l[|p|] == '.' && r[|q|] == '.';
    assert forall i :: 0 <= i < |p| ==> l[i] == p[i] && p[i] in p;
    assert forall i :: 0 <= i < |q| ==> r[i] == q[i] && q[i] in q;
    assert l[..|p|] == p && r[..|q|] == q;
    assert l[|p| + 1..] == s && r[|q| + 1..] == t;
  }

  lemma NumeralThenDot(m: nat, s: string, n: nat, t: string)
    requires Numeral(m) + "." + s == Numeral(n) + "." + t
    ensures m == n && s == t
  {
    SplitAtDot(Numeral(m), s, Numeral(n), t);
    NumeralInjective(m, n);
  }

  lemma PrintInjective(x: Ipv4, y: Ipv4)
    ensures Print(x) == Print(y) <==> x == y
  {
    if Print(x) == Print(y) {
      NumeralThenDot(x.a, Numeral(x.b) + "." + (Numeral(x.c) + "." + Numeral(x.d)),
                     y.a, Numeral(y.b) + "." + (Numeral(y.c) + "." + Numeral(y.d)));
      NumeralThenDot(x.b, Numeral(x.c) + "." + Numeral(x.d), y.b, Numeral(y.c) + "." + Numeral(y.d));
      NumeralThenDot(x.c, Numeral(x.d), y.c, Numeral(y.d));
      NumeralInjective(x.d, y.d);
    }
  }

  lemma {:induction false} BeforeSlashPrefix(p: string, s: string)
    requires '/' !in p
    ensures BeforeSlash(p + "/" + s) == p
  {
    var l := p + "/" + s;
    if p != "" {
      assert l[1..] == p[1..] + "/" + s;
      BeforeSlashPrefix(p[1..], s);
    }
  }

  /** The part before the first slash is the one string without a slash that is all of
      it or is followed by one. */
  lemma BeforeSlashExactly(s: string, p: string)
    requires '/' !in p
    ensures BeforeSlash(s) == p <==> s == p || p + "/" <= s
  {
    if p + "/" <= s {
      var rest := s[|p| + 1..];
      assert s == p + "/" + rest;
      BeforeSlashPrefix(p, rest);
    } else if s == p {
      BeforeSlashWhole(s);
    } else {
      BeforeSlashSplits(s);
    }
  }

  lemma {:induction false} BeforeSlashWhole(s: string)
    requires '/' !in s
    ensures BeforeSlash(s) == s
  {
    if s != "" {
      BeforeSlashWhole(s[1..]);
    }
  }

  lemma {:induction false} BeforeSlashSplits(s: string)
    ensures s == BeforeSlash(s) || BeforeSlash(s) + "/" <= s
  {
    if s != "" && s[0] != '/' {
      BeforeSlashSplits(s[1..]);
    }
  }

  function AllowedIp(ip: Ipv4): string {
    Print(ip) + "/32"
  }

  lemma AllowedIpPrefix(ip: Ipv4)
    ensures BeforeSlash(AllowedIp(ip)) == Print(ip)
  {
    assert '/' !in Print(ip);
    BeforeSlashPrefix(Print(ip), "32");
    assert AllowedIp(ip) == Print(ip) + "/" + "32";
  }

  function AllowedIps(ips: seq<Ipv4>): seq<string> {
    seq(|ips|, i requires 0 <= i < |ips| => AllowedIp(ips[i]))
  }

  lemma {:induction false} InPeerStrings(allowed: seq<string>, x: string)
    ensures x in PeerStrings(allowed) <==> exists i :: 0 <= i < |allowed| && BeforeSlash(allowed[i]) == x
  {
    if allowed != [] {
      InPeerStrings(allowed[..|allowed| - 1], x);
    }
  }

  /** The string-keyed test is comparison of the four bytes. */
  lemma UsedIsBytewise(s: Subnet, ips: seq<Ipv4>, ip: Ipv4)
    ensures Print(ip) in Used(s, AllowedIps(ips)) <==> ip == ServerAddress(s) || ip in ips
  {
    var allowed := AllowedIps(ips);
    PrintInjective(ip, ServerAddress(s));
    forall i | 0 <= i < |ips|
      ensures BeforeSlash(allowed[i]) == Print(ip) <==> ips[i] == ip
    {
      AllowedIpPrefix(ips[i]);
      PrintInjective(ips[i], ip);
    }
    InPeerStrings(allowed, Print(ip));
  }

  /** For stored peers of the usual form: the lowest host number in 2..253 whose
      address is in the subnet and not stored, and none exactly when all are taken. */
  lemma AllocationForPeers(s: Subnet, ips: seq<Ipv4>, r: Option<Ipv4>)
    requires IsAllocation(s, AllowedIps(ips), r)
    ensures r.None? <==> forall i: Octet :: FIRST_HOST <= i < END_HOST && Contains(s, Host(s, i)) ==> Host(s, i) in ips
    ensures r.Some? ==> var ip := r.value;
                        && FIRST_HOST <= ip.d < END_HOST && ip == Host(s, ip.d)
                        && Contains(s, ip) && ip !in ips && ip != ServerAddress(s)
                        && forall i: Octet :: FIRST_HOST <= i < ip.d && Contains(s, Host(s, i)) ==> Host(s, i) in ips
  {
    forall i: Octet | FIRST_HOST <= i < END_HOST
      ensures Free(s, AllowedIps(ips), i) <==> Contains(s, Host(s, i)) && Host(s, i) !in ips
    {
      UsedIsBytewise(s, ips, Host(s, i));
    }
  }

  // Pigeonhole

  lemma DivideInTwoSteps(x: nat, q: nat, d: nat)
    requires q > 0 && d == 256 * q
    ensures x / d == x / 256 / q
  {
    var h, l := x / 256, x % 256;
    var t, r := h / q, h % q;
    assert h == t * q + r;
    assert t * d == 256 * (t * q);
    DivModUnique(x, d, t, 256 * r + l);
  }

  lemma Pow2Plus8(n: nat)
    ensures Pow2(n + 8) == 256 * Pow2(n)
  {
    assert Pow2(n + 2) == 4 * Pow2(n);
    assert Pow2(n + 4) == 4 * Pow2(n + 2);
    assert Pow2(n + 6) == 4 * Pow2(n + 4);
    assert Pow2(n + 8) == 4 * Pow2(n + 6);
  }

  lemma AnyContained(s: Subnet, ip: Ipv4)
    requires s.bits == 0
    ensures Contains(s, ip)
  {
    FullSize();
    DivModUnique(Number(ip), 0x1_0000_0000, 0, Number(ip));
    DivModUnique(Number(s.base), 0x1_0000_0000, 0, Number(s.base));
  }

  lemma FullSize()
    ensures Pow2(32) == 0x1_0000_0000
  {
    assert Pow2(8) == 256;
    Pow2Plus8(8);
    Pow2Plus8(16);
    Pow2Plus8(24);
  }

  /** With at most 24 prefix bits the last byte never leaves the subnet. */
  lemma WideSubnetContains(s: Subnet, i: Octet)
    requires s.bits <= 24
    ensures Contains(s, Host(s, i))
  {
    var q, d := Pow2(24 - s.bits), Pow2(32 - s.bits);
    Pow2Plus8(24 - s.bits);
    var x, y := Number(s.base), Number(Host(s, i));
    assert x / 256 == y / 256;
    DivideInTwoSteps(x, q, d);
    DivideInTwoSteps(y, q, d);
  }

  /** With at least 24 prefix bits a host is in the subnet exactly if its number is in
      the block of the base address's last byte. */
  lemma NarrowSubnetContains(s: Subnet, i: Octet)
    requires s.bits >= 24
    ensures Contains(s, Host(s, i)) <==> InBlock(i, s.base.d, Pow2(32 - s.bits))
  {
    var size, k := Pow2(32 - s.bits), Pow2(s.bits - 24);
    PowersMultiply(32 - s.bits, s.bits - 24);
    assert Pow2(8) == 256;
    var high := (s.base.a * 256 + s.base.b) * 256 + s.base.c;
    assert high * 256 == high * k * size;
    Shifted(s.base.d, high * k, size);
    Shifted(i, high * k, size);
    SameQuotient(i, s.base.d, size);
  }

  lemma {:induction false} PowersMultiply(m: nat, n: nat)
    ensures Pow2(m) * Pow2(n) == Pow2(m + n)
  {
    if n > 0 {
      PowersMultiply(m, n - 1);
    }
  }

  lemma Shifted(x: nat, q: nat, size: nat)
    requires size > 0
    ensures (q * size + x) / size == q + x / size
  {
    var d, r := x / size, x % size;
    assert q * size + x == (q + d) * size + r;
    DivModUnique(q * size + x, size, q + d, r);
  }

  function Hosts(s: Subnet, n: int): set<string>
    requires 0 <= n <= 256
  {
    set i: Octet | FIRST_HOST <= i < n :: Print(Host(s, i))
  }

  lemma {:induction false} HostsAreDistinct(s: Subnet, n: int)
    requires FIRST_HOST <= n <= 256
    ensures |Hosts(s, n)| == n - FIRST_HOST
  {
    if n > FIRST_HOST {
      HostsAreDistinct(s, n - 1);
      var last := Print(Host(s, n - 1));
      assert Hosts(s, n) == Hosts(s, n - 1) + {last};
      forall i: Octet | FIRST_HOST <= i < n - 1
        ensures Print(Host(s, i)) != last
      {
        PrintInjective(Host(s, i), Host(s, n - 1));
      }
    } else {
      assert Hosts(s, n) == {};
    }
  }

  lemma {:induction false} PeerStringsSize(allowed: seq<string>)
    ensures |PeerStrings(allowed)| <= |allowed|
  {
    if allowed != [] {
      PeerStringsSize(allowed[..|allowed| - 1]);
    }
  }

  lemma BlockedByPeer(s: Subnet, allowed: seq<string>, i: Octet)
    requires s.bits <= 24 && FIRST_HOST <= i && !Free(s, allowed, i)
    ensures Print(Host(s, i)) in PeerStrings(allowed)
  {
    WideSubnetContains(s, i);
    PrintInjective(Host(s, i), ServerAddress(s));
  }

  /** Whatever strings are stored, fewer than 252 of them cannot exhaust a subnet of
      at most 24 prefix bits. */
  lemma AllocationSucceeds(s: Subnet, allowed: seq<string>, r: Option<Ipv4>)
    requires IsAllocation(s, allowed, r)
    requires s.bits <= 24 && |allowed| < END_HOST - FIRST_HOST
    ensures r.Some?
  {
    if r.None? {
      var taken := PeerStrings(allowed);
      forall i: Octet | FIRST_HOST <= i < END_HOST
        ensures Print(Host(s, i)) in taken
      {
        BlockedByPeer(s, allowed, i);
      }
      assert Hosts(s, END_HOST) <= taken;
      HostsAreDistinct(s, END_HOST);
      PeerStringsSize(allowed);
      SubsetSize(Hosts(s, END_HOST), taken);
    }
  }
}
