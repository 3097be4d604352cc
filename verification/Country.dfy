/** One SOCKS5 listener per country: grouping the tunnels and assigning ports. */
module Country {
  import opened Lists
  import opened Tunnels

  /** The tunnels of one country, in list order. */
  function Group(ts: seq<Tunnel>, country: string): seq<Tunnel> {
    if ts == [] then []
    else Group(ts[..|ts| - 1], country) + if ts[|ts| - 1].country == country then [ts[|ts| - 1]] else []
  }

  function Countries(ts: seq<Tunnel>): set<string> {
    if ts == [] then {}
    else Countries(ts[..|ts| - 1]) + if ts[|ts| - 1].country != "" then {ts[|ts| - 1].country} else {}
  }

  /** The ports given to the first n countries of this order. */
  function Assigned(order: seq<string>, n: nat, base: int): map<string, int>
    requires n <= |order|
  {
    if n == 0 then map[] else Assigned(order, n - 1, base)[order[n - 1] := base + n - 1]
  }

  /** A listening port and the tunnels it serves. */
  datatype Listener = Listener(port: int, tunnels: seq<Tunnel>)

  /** The listeners opened for the first n countries, skipping failed ports. */
  function Opened(order: seq<string>, n: nat, groups: map<string, seq<Tunnel>>, base: int, failing: set<int>)
    : seq<Listener>
    requires n <= |order| && forall c <- order :: c in groups
  {
    if n == 0 then []
    else
      Opened(order, n - 1, groups, base, failing)
      + if base + n - 1 in failing then [] else [Listener(base + n - 1, groups[order[n - 1]])]
  }

  /** An order of the countries in which each comes once. */
  ghost predicate IsOrderOf(order: seq<string>, countries: set<string>) {
    && (forall c :: c in countries <==> c in order)
    && forall i, j :: 0 <= i < j < |order| ==> order[i] != order[j]
  }

  class CountryProxies {
    var mapping: map<string, int>
    var listeners: seq<Listener>

    constructor ()
      ensures mapping == map[] && listeners == []
    {
      mapping, listeners := map[], [];
    }

    static method GroupByCountry(ts: seq<Tunnel>) returns (groups: map<string, seq<Tunnel>>)
      ensures groups.Keys == Countries(ts)
      ensures forall c <- groups :: groups[c] == Group(ts, c)
    {
      groups := map[];
      for i := 0 to |ts|
        invariant groups.Keys == Countries(ts[..i]) && "" !in groups
        invariant forall c <- groups :: groups[c] == Group(ts[..i], c)
      {
        assert ts[..i + 1][..i] == ts[..i];
        var c := ts[i].country;
        if c != "" {
          if c !in groups {
            NoGroup(ts[..i], c);
          }
          groups := groups[c := (if c in groups then groups[c] else []) + [ts[i]]];
        }
      }
      assert ts[..|ts|] == ts;
    }

    /** The mapping is recorded whether or not the port can be listened on. */
    method Open(country: string, group: seq<Tunnel>, port: int, failing: set<int>)
      modifies this
      ensures mapping == old(mapping)[country := port]
      ensures listeners == old(listeners) + if port in failing then [] else [Listener(port, group)]
    {
      mapping := mapping[country := port];
      if port !in failing {
        listeners := listeners + [Listener(port, group)];
      }
    }

    method OpenAll(order: seq<string>, groups: map<string, seq<Tunnel>>, base: int, failing: set<int>)
      requires forall c <- order :: c in groups
      modifies this
      ensures mapping == old(mapping) + Assigned(order, |order|, base)
      ensures listeners == old(listeners) + Opened(order, |order|, groups, base, failing)
    {
      ghost var was, open := mapping, listeners;
      for i := 0 to |order|
        invariant mapping == was + Assigned(order, i, base)
        invariant listeners == open + Opened(order, i, groups, base, failing)
      {
        Open(order[i], groups[order[i]], base + i, failing);
        Regroup(was, Assigned(order, i, base), order[i], base + i);
      }
    }

    /** The countries are taken in any order and the ports in `failing` cannot be
        listened on. */
    method StartCountryProxies(ts: seq<Tunnel>, base: int, failing: set<int>)
      returns (order: seq<string>, groups: map<string, seq<Tunnel>>)
      modifies this
      ensures IsOrderOf(order, Countries(ts)) && groups.Keys == Countries(ts)
      ensures forall c <- groups :: groups[c] == Group(ts, c)
      ensures mapping == old(mapping) + Assigned(order, |order|, base)
      ensures listeners == old(listeners) + Opened(order, |order|, groups, base, failing)
      ensures old(listeners) <= listeners && Serves(ts, mapping, listeners[|old(listeners)|..], failing)
    {
      groups := GroupByCountry(ts);
      order := IterationOrder(groups.Keys);
      ghost var was := listeners;
      OpenAll(order, groups, base, failing);
      AssignedAt(order, |order|, base);
      ListenersServe(ts, order, groups, base, failing, mapping);
      assert listeners[|was|..] == Opened(order, |order|, groups, base, failing);
    }
  }

  lemma Regroup(a: map<string, int>, b: map<string, int>, c: string, p: int)
    ensures (a + b)[c := p] == a + b[c := p]
  {
  }

  /** Go ranges over a map in an arbitrary order. */
  method IterationOrder(keys: set<string>) returns (order: seq<string>)
    ensures IsOrderOf(order, keys)
  {
    var remaining := keys;
    order := [];
    while remaining != {}
      invariant remaining <= keys && IsOrderOf(order, keys - remaining)
      decreases remaining
    {
      var key :| key in remaining;
      StepOrder(order, keys, remaining, key);
      order, remaining := order + [key], remaining - {key};
    }
    assert keys - remaining == keys;
  }

  lemma StepOrder(order: seq<string>, all: set<string>, remaining: set<string>, c: string)
    requires IsOrderOf(order, all - remaining) && c in remaining && remaining <= all
    ensures IsOrderOf(order + [c], all - (remaining - {c}))
  {
  }

  lemma {:induction false} NoGroup(ts: seq<Tunnel>, c: string)
    requires c !in Countries(ts) && c != ""
    ensures Group(ts, c) == []
  {
    if ts != [] {
      NoGroup(ts[..|ts| - 1], c);
    }
  }

  /** The groups partition the tunnels that have a country: each tunnel is in the group
      of its own country, as often as in the list, and in no other. */
  lemma {:induction false} GroupsPartition(ts: seq<Tunnel>, t: Tunnel, c: string)
    ensures multiset(Group(ts, c))[t] == if t.country == c then multiset(ts)[t] else 0
    ensures t in ts && t.country != "" ==> t.country in Countries(ts)
  {
    if ts != [] {
      var init, last := ts[..|ts| - 1], ts[|ts| - 1];
      assert ts == init + [last];
      GroupsPartition(init, t, c);
    }
  }

  ghost predicate HasTunnel(ts: seq<Tunnel>, country: string) {
    country != "" && exists t <- ts :: t.country == country
  }

  /** `group` holds exactly the tunnels of that country, in list order. */
  ghost predicate IsGroupOf(ts: seq<Tunnel>, country: string, group: seq<Tunnel>) {
    IsSelection(ts, seq(|ts|, i requires 0 <= i < |ts| => ts[i].country == country), group)
  }

  lemma {:induction false} GroupExactly(ts: seq<Tunnel>, country: string)
    ensures IsGroupOf(ts, country, Group(ts, country))
  {
    var flags := seq(|ts|, i requires 0 <= i < |ts| => ts[i].country == country);
    if ts == [] {
      EmptySelection<Tunnel>();
      assert flags == [];
    } else {
      var init, last := ts[..|ts| - 1], ts[|ts| - 1];
      var before := seq(|init|, i requires 0 <= i < |init| => init[i].country == country);
      GroupExactly(init, country);
      SelectionGrows(init, before, Group(init, country), last, last.country == country);
      assert ts == init + [last] && flags == before + [last.country == country];
    }
  }

  lemma {:induction false} CountriesExactly(ts: seq<Tunnel>, country: string)
    ensures country in Countries(ts) <==> HasTunnel(ts, country)
  {
    if ts != [] {
      CountriesExactly(ts[..|ts| - 1], country);
    }
  }

  /** Each opened listener is at the port mapped to some country with tunnels, serves
      that country's tunnels, and is at a port that did not fail; and every such country
      whose port did not fail has exactly one. */
  ghost predicate Serves(ts: seq<Tunnel>, mapping: map<string, int>, listening: seq<Listener>, failing: set<int>) {
    && (forall l <- listening :: l.port !in failing && exists c :: ServesCountry(ts, mapping, l, c))
    && (forall c :: HasTunnel(ts, c) ==>
          c in mapping && (mapping[c] !in failing ==> HasListener(listening, mapping[c])))
    && forall i, j :: 0 <= i < j < |listening| ==> listening[i].port != listening[j].port
  }

  ghost predicate ServesCountry(ts: seq<Tunnel>, mapping: map<string, int>, l: Listener, c: string) {
    HasTunnel(ts, c) && c in mapping && mapping[c] == l.port && IsGroupOf(ts, c, l.tunnels)
  }

  predicate HasListener(listening: seq<Listener>, port: int) {
    exists l <- listening :: l.port == port
  }

  lemma {:induction false} OpenedExactly(order: seq<string>, n: nat, groups: map<string, seq<Tunnel>>, base: int,
                                         failing: set<int>)
    requires n <= |order| && forall c <- order :: c in groups
    ensures var listening := Opened(order, n, groups, base, failing);
            && (forall l <- listening ::
                  base <= l.port < base + n && l.port !in failing && l.tunnels == groups[order[l.port - base]])
            && forall i, j :: 0 <= i < j < |listening| ==> listening[i].port < listening[j].port
  {
    if n > 0 {
      OpenedExactly(order, n - 1, groups, base, failing);
    }
  }

  lemma {:induction false} OpenedUnlessFailing(order: seq<string>, n: nat, groups: map<string, seq<Tunnel>>, base: int,
                                               failing: set<int>, port: int)
    requires n <= |order| && forall c <- order :: c in groups
    requires base <= port < base + n && port !in failing
    ensures HasListener(Opened(order, n, groups, base, failing), port)
  {
    var before := Opened(order, n - 1, groups, base, failing);
    var listening := Opened(order, n, groups, base, failing);
    if port == base + n - 1 {
      assert listening[|before|].port == port;
    } else {
      OpenedUnlessFailing(order, n - 1, groups, base, failing, port);
      var l :| l in before && l.port == port;
      assert l in listening;
    }
  }

  /** The groups of the listed tunnels, opened in this order from port `base`. */
  ghost predicate IsRun(ts: seq<Tunnel>, order: seq<string>, groups: map<string, seq<Tunnel>>, base: int,
                        mapping: map<string, int>)
  {
    && (forall c :: c in Countries(ts) <==> c in order)
    && (forall c <- order :: c in groups && groups[c] == Group(ts, c))
    && forall k :: 0 <= k < |order| ==> order[k] in mapping && mapping[order[k]] == base + k
  }

  lemma ListenerServes(ts: seq<Tunnel>, order: seq<string>, groups: map<string, seq<Tunnel>>, base: int,
                       mapping: map<string, int>, l: Listener)
    requires IsRun(ts, order, groups, base, mapping)
    requires base <= l.port < base + |order| && l.tunnels == groups[order[l.port - base]]
    ensures exists c :: ServesCountry(ts, mapping, l, c)
  {
    var c := order[l.port - base];
    CountriesExactly(ts, c);
    GroupExactly(ts, c);
    assert ServesCountry(ts, mapping, l, c);
  }

  lemma CountryServed(ts: seq<Tunnel>, order: seq<string>, groups: map<string, seq<Tunnel>>, base: int,
                      failing: set<int>, mapping: map<string, int>, c: string)
    requires IsRun(ts, order, groups, base, mapping) && HasTunnel(ts, c)
    ensures c in mapping
    ensures mapping[c] !in failing ==> HasListener(Opened(order, |order|, groups, base, failing), mapping[c])
  {
    CountriesExactly(ts, c);
    var k :| 0 <= k < |order| && order[k] == c;
    assert mapping[order[k]] == base + k;
    if base + k !in failing {
      OpenedUnlessFailing(order, |order|, groups, base, failing, base + k);
    }
  }

  lemma ListenersServe(ts: seq<Tunnel>, order: seq<string>, groups: map<string, seq<Tunnel>>, base: int,
                       failing: set<int>, mapping: map<string, int>)
    requires IsRun(ts, order, groups, base, mapping)
    ensures Serves(ts, mapping, Opened(order, |order|, groups, base, failing), failing)
  {
    var listening := Opened(order, |order|, groups, base, failing);
    OpenedExactly(order, |order|, groups, base, failing);
    forall l <- listening
      ensures exists c :: ServesCountry(ts, mapping, l, c)
    {
      ListenerServes(ts, order, groups, base, mapping, l);
    }
    forall c | HasTunnel(ts, c)
      ensures c in mapping && (mapping[c] !in failing ==> HasListener(listening, mapping[c]))
    {
      CountryServed(ts, order, groups, base, failing, mapping, c);
    }
  }

  ghost predicate HasPort(m: map<string, int>, p: int) {
    exists c <- m :: m[c] == p
  }

  /** Whatever the order and the failures, the k countries are mapped one to one onto
      the k ports from base. */
  lemma PortsBijective(order: seq<string>, countries: set<string>, base: int)
    requires IsOrderOf(order, countries)
    ensures var m := Assigned(order, |order|, base);
            && |order| == |countries| && m.Keys == countries
            && (forall c <- m :: base <= m[c] < base + |countries|)
            && (forall c, d :: c in m && d in m && m[c] == m[d] ==> c == d)
            && forall p :: base <= p < base + |countries| ==> HasPort(m, p)
  {
    AssignedAt(order, |order|, base);
    OrderLength(order, countries);
    var m := Assigned(order, |order|, base);
    forall p | base <= p < base + |countries|
      ensures HasPort(m, p)
    {
      assert order[p - base] in m;
    }
  }

  lemma {:induction false} AssignedAt(order: seq<string>, n: nat, base: int)
    requires n <= |order| && forall i, j :: 0 <= i < j < |order| ==> order[i] != order[j]
    ensures forall c <- Assigned(order, n, base) :: exists k :: 0 <= k < n && order[k] == c
    ensures forall k :: 0 <= k < n ==>
              order[k] in Assigned(order, n, base) && Assigned(order, n, base)[order[k]] == base + k
  {
    if n > 0 {
      AssignedAt(order, n - 1, base);
    }
  }

  lemma {:induction false} OrderLength(order: seq<string>, countries: set<string>)
    requires IsOrderOf(order, countries)
    ensures |order| == |countries|
  {
    if order == [] {
      assert countries == {};
    } else {
      var init, last := order[..|order| - 1], order[|order| - 1];
      assert order == init + [last];
      forall c
        ensures c in countries - {last} <==> c in init
      {
        assert last !in init;
      }
      OrderLength(init, countries - {last});
      assert last in countries;
    }
  }
}
