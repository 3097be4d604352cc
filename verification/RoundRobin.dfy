/** Round-robin selection: the main proxy's counter under one mutex, and the country
    proxies' shared counter under a mutex per connection. */
module RoundRobin {
  import opened Counting
  import opened Decimal
  import opened Tunnels

  // Sequential form

  /** The loop that both pickers start with. */
  method CollectHealthy(all: seq<Tunnel>) returns (healthy: seq<int>)
    ensures healthy == RunningPorts(all) && AreRunningPorts(all, healthy)
    ensures healthy != [] <==> exists t <- all :: t.status == Running
  {
    healthy := [];
    for i := 0 to |all|
      invariant healthy == RunningPorts(all[..i])
    {
      assert all[..i + 1][..i] == all[..i];
      if all[i].status == Running {
        healthy := healthy + [all[i].port];
      }
    }
    assert all[..|all|] == all;
    RunningPortsPresent(all);
    RunningPortsExactly(all);
  }

  class Balancer {
    var counter: nat

    ghost predicate Valid()
      reads this
    {
      counter < TWO_64
    }

    constructor ()
      ensures Valid() && counter == 0
    {
      counter := 0;
    }

    /** The ports of the Running tunnels are indexed by the counter; without any there is
        no port and no ticket is taken. */
    method PickBackend(all: seq<Tunnel>) returns (port: int, found: bool, ghost healthy: seq<int>)
      requires Valid()
      modifies this
      ensures Valid()
      ensures AreRunningPorts(all, healthy) && healthy == RunningPorts(all)
      ensures found <==> exists t <- all :: t.status == Running
      ensures found ==> healthy != [] && port == healthy[old(counter) % |healthy|]
      ensures counter == if found then (old(counter) + 1) % TWO_64 else old(counter)
    {
      var ports := CollectHealthy(all);
      healthy := ports;
      if |ports| == 0 {
        return 0, false, healthy;
      }
      var idx := counter % |ports|;
      counter := (counter + 1) % TWO_64;
      port, found := ports[idx], true;
    }
  }

  // Concurrent calls of PickBackend

  /** A completed pick: the ticket drawn and the number of healthy tunnels it was
      reduced by. */
  datatype Pick = Pick(ticket: nat, size: nat)

  function Index(p: Pick): nat
    requires p.size > 0
  {
    p.ticket % p.size
  }

  /** `seen` maps each call in progress to the size of the healthy list it collected
      before taking the mutex. */
  datatype State = State(counter: nat, seen: map<nat, nat>, log: seq<Pick>)

  datatype Step = Look(call: nat, size: nat) | Take(call: nat)

  /** A step that is not possible changes nothing. */
  function Apply(s: State, step: Step): State {
    match step
    case Look(c, n) => if c in s.seen || n == 0 then s else s.(seen := s.seen[c := n])
    case Take(c) =>
      if c !in s.seen then s
      else State((s.counter + 1) % TWO_64, s.seen - {c}, s.log + [Pick(s.counter, s.seen[c])])
  }

  function Run(s: State, steps: seq<Step>): State {
    if steps == [] then s else Apply(Run(s, steps[..|steps| - 1]), steps[|steps| - 1])
  }

  /** In every interleaving the k-th pick holds the k-th ticket: no increment is lost. */
  lemma {:induction false} NoLostTickets(s: State, steps: seq<Step>)
    requires s.counter < TWO_64 && s.log == []
    ensures var s' := Run(s, steps);
            && s'.counter == (s.counter + |s'.log|) % TWO_64
            && forall k :: 0 <= k < |s'.log| ==> s'.log[k].ticket == (s.counter + k) % TWO_64
  {
    if steps != [] {
      NoLostTickets(s, steps[..|steps| - 1]);
      var mid := Run(s, steps[..|steps| - 1]);
      assert (mid.counter + 1) % TWO_64 == (s.counter + |mid.log| + 1) % TWO_64;
    }
  }

  /** Whatever happened before, a call that finds n healthy tunnels and then takes the
      mutex is logged with the next ticket, and one that finds none draws no ticket. */
  lemma {:induction false} PickCompletes(s: State, steps: seq<Step>, call: nat, n: nat)
    requires call !in Run(s, steps).seen
    ensures var s', s'' := Run(s, steps), Run(s, steps + [Look(call, n), Take(call)]);
            s'' == if n == 0 then s' else State((s'.counter + 1) % TWO_64, s'.seen, s'.log + [Pick(s'.counter, n)])
  {
    RunTwoMore(s, steps, Look(call, n), Take(call));
    LookAndTake(Run(s, steps), call, n);
  }

  lemma LookAndTake(s: State, call: nat, n: nat)
    requires call !in s.seen
    ensures Apply(Apply(s, Look(call, n)), Take(call)) ==
            if n == 0 then s else State((s.counter + 1) % TWO_64, s.seen, s.log + [Pick(s.counter, n)])
  {
    assert s.seen[call := n] - {call} == s.seen;
  }

  lemma RunTwoMore(s: State, steps: seq<Step>, x: Step, y: Step)
    ensures Run(s, steps + [x, y]) == Apply(Apply(Run(s, steps), x), y)
  {
    assert (steps + [x, y])[..|steps| + 1] == steps + [x];
    assert (steps + [x])[..|steps|] == steps;
  }

  /** How many of the tickets start, start + 1, ... (len of them, modulo 2^64) select
      index j of n. */
  function Hits(start: nat, len: nat, n: nat, j: nat): nat
    requires n > 0
  {
    if len == 0 then 0
    else Hits(start, len - 1, n, j) + if (start + len - 1) % TWO_64 % n == j then 1 else 0
  }

  /** The floor or the ceiling of len / n. */
  predicate Even(count: int, len: nat, n: nat)
    requires n > 0
  {
    len / n <= count <= (len + n - 1) / n
  }

  /** Every index gets an even share. */
  ghost predicate Fair(start: nat, len: nat, n: nat)
    requires n > 0
  {
    forall j: nat :: j < n ==> Even(Hits(start, len, n, j), len, n)
  }

  /** The number of y below x with y % n == j. */
  function Below(x: nat, n: nat, j: nat): nat
    requires j < n
  {
    if x == 0 then 0 else Below(x - 1, n, j) + if (x - 1) % n == j then 1 else 0
  }

  lemma {:induction false} BelowClosedForm(x: nat, n: nat, j: nat)
    requires j < n
    ensures Below(x, n, j) == x / n + if x % n > j then 1 else 0
  {
    if x == 0 {
      DivModUnique(0, n, 0, 0);
    } else {
      BelowClosedForm(x - 1, n, j);
      NextDivMod(x - 1, n);
    }
  }

  lemma NextDivMod(x: nat, n: nat)
    requires n > 0
    ensures (x + 1) / n == if x % n + 1 < n then x / n else x / n + 1
    ensures (x + 1) % n == if x % n + 1 < n then x % n + 1 else 0
  {
    var q, r := x / n, x % n;
    assert x == q * n + r;
    if r + 1 < n {
      DivModUnique(x + 1, n, q, r + 1);
    } else {
      assert x + 1 == (q + 1) * n;
      DivModUnique(x + 1, n, q + 1, 0);
    }
  }

  lemma BelowPeriod(x: nat, n: nat, j: nat)
    requires j < n
    ensures Below(x + n, n, j) == Below(x, n, j) + 1
  {
    var q, r := x / n, x % n;
    assert x + n == (q + 1) * n + r;
    DivModUnique(x + n, n, q + 1, r);
    BelowClosedForm(x, n, j);
    BelowClosedForm(x + n, n, j);
  }

  lemma {:induction false} BelowPeriods(x: nat, n: nat, j: nat, a: nat)
    requires j < n
    ensures Below(x + a * n, n, j) == Below(x, n, j) + a
  {
    if a > 0 {
      BelowPeriods(x, n, j, a - 1);
      BelowPeriod(x + (a - 1) * n, n, j);
      assert x + (a - 1) * n + n == x + a * n;
    } else {
      assert x + a * n == x;
    }
  }

  lemma {:induction false} BelowMonotone(x: nat, b: nat, n: nat, j: nat)
    requires j < n
    ensures Below(x, n, j) <= Below(x + b, n, j)
  {
    if b > 0 {
      BelowMonotone(x, b - 1, n, j);
    }
  }

  lemma BelowWindow(x: nat, len: nat, n: nat, j: nat)
    requires j < n
    ensures Even(Below(x + len, n, j) - Below(x, n, j), len, n)
  {
    var a, b := len / n, len % n;
    assert x + len == x + b + a * n;
    BelowPeriods(x + b, n, j, a);
    BelowPart(x, b, n, j);
    Ceiling(len, n);
  }

  lemma Ceiling(len: nat, n: nat)
    requires n > 0
    ensures (len + n - 1) / n == len / n + if len % n == 0 then 0 else 1
  {
    var a, b := len / n, len % n;
    assert len == a * n + b;
    if b == 0 {
      DivModUnique(len + n - 1, n, a, n - 1);
    } else {
      assert len + n - 1 == (a + 1) * n + (b - 1);
      DivModUnique(len + n - 1, n, a + 1, b - 1);
    }
  }

  lemma BelowPart(x: nat, b: nat, n: nat, j: nat)
    requires j < n && b < n
    ensures 0 <= Below(x + b, n, j) - Below(x, n, j) <= 1
  {
    BelowMonotone(x, b, n, j);
    BelowMonotone(x + b, n - b, n, j);
    BelowPeriod(x, n, j);
  }

  predicate ResidueKept(x: nat, n: nat)
    requires n > 0
  {
    x % TWO_64 % n == x % n
  }

  /** As long as reducing modulo 2^64 does not disturb the residues, hits are counted
      by `Below`. */
  lemma {:induction false} HitsAreBelow(start: nat, len: nat, n: nat, j: nat)
    requires j < n
    requires forall x: nat :: start <= x < start + len ==> ResidueKept(x, n)
    ensures Hits(start, len, n, j) == Below(start + len, n, j) - Below(start, n, j)
  {
    if len > 0 {
      HitsAreBelow(start, len - 1, n, j);
      assert ResidueKept(start + len - 1, n);
    }
  }

  /** Before the counter wraps, any run of consecutive tickets is spread evenly. */
  lemma FairBeforeWrap(start: nat, len: nat, n: nat)
    requires n > 0 && start + len <= TWO_64
    ensures Fair(start, len, n)
  {
    assert forall x: nat :: start <= x < start + len ==> ResidueKept(x, n);
    forall j: nat | j < n
      ensures Even(Hits(start, len, n, j), len, n)
    {
      HitsAreBelow(start, len, n, j);
      BelowWindow(start, len, n, j);
    }
  }

  lemma ResidueSurvivesWrap(x: nat, n: nat)
    requires n > 0 && TWO_64 % n == 0
    ensures ResidueKept(x, n)
  {
    var w, k := x / TWO_64, TWO_64 / n;
    var y := x % TWO_64;
    assert TWO_64 == k * n;
    assert x == (w * k + y / n) * n + y % n by {
      assert x == w * TWO_64 + y;
      assert w * (k * n) == (w * k) * n;
    }
    DivModUnique(x, n, w * k + y / n, y % n);
  }

  lemma {:induction false} HitsGrow(start: nat, a: nat, b: nat, n: nat, j: nat)
    requires n > 0 && a <= b
    ensures Hits(start, a, n, j) <= Hits(start, b, n, j)
  {
    if a < b {
      HitsGrow(start, a, b - 1, n, j);
    }
  }

  /** Across the wrap: all windows are fair exactly when n divides 2^64. */
  lemma FairAcrossWrap(n: nat)
    requires 0 < n < TWO_63
    ensures (forall start: nat, len: nat :: start < TWO_64 && len <= TWO_64 ==> Fair(start, len, n))
            <==> TWO_64 % n == 0
  {
    if TWO_64 % n == 0 {
      forall start: nat, len: nat
        ensures Fair(start, len, n)
      {
        DivisorIsFair(start, len, n);
      }
    } else {
      UnfairWindow(n);
    }
  }

  lemma DivisorIsFair(start: nat, len: nat, n: nat)
    requires n > 0 && TWO_64 % n == 0
    ensures Fair(start, len, n)
  {
    forall x: nat | start <= x < start + len
      ensures ResidueKept(x, n)
    {
      ResidueSurvivesWrap(x, n);
    }
    forall j: nat | j < n
      ensures Even(Hits(start, len, n, j), len, n)
    {
      HitsAreBelow(start, len, n, j);
      BelowWindow(start, len, n, j);
    }
  }

  /** The r tickets before the wrap and the one after it select index 0 twice. */
  lemma UnfairWindow(n: nat)
    requires 0 < n < TWO_63 && TWO_64 % n != 0
    ensures var r := TWO_64 % n; !Fair(TWO_64 - r, r + 1, n)
  {
    var r := TWO_64 % n;
    var start := TWO_64 - r;
    assert start == (TWO_64 / n) * n;
    DivModUnique(start, n, TWO_64 / n, 0);
    assert Hits(start, 1, n, 0) == 1;
    HitsGrow(start, 1, r, n, 0);
    DivModUnique(0, n, 0, 0);
    assert Hits(start, r + 1, n, 0) >= 2;
    DivModUnique(r + n, n, 1, r);
  }

  /** How often index j was picked in log[a..b]. */
  function Share(log: seq<Pick>, a: nat, b: nat, j: nat): nat
    requires a <= b <= |log| && forall k :: a <= k < b ==> log[k].size > 0
  {
    if a == b then 0 else Share(log, a, b - 1, j) + if Index(log[b - 1]) == j then 1 else 0
  }

  lemma {:induction false} ShareIsHits(log: seq<Pick>, c: nat, n: nat, a: nat, b: nat, j: nat)
    requires n > 0 && a <= b <= |log|
    requires forall k :: a <= k < b ==> log[k].size == n && log[k].ticket == (c + k) % TWO_64
    ensures Share(log, a, b, j) == Hits(c + a, b - a, n, j)
  {
    if a < b {
      ShareIsHits(log, c, n, a, b - 1, j);
    }
  }

  /** Under any interleaving and until the counter wraps, any stretch of consecutive
      picks during which n tunnels are healthy serves each of them the floor or the
      ceiling of its even share, whatever was healthy before and after. */
  lemma {:induction false} PicksAreFair(s: State, steps: seq<Step>, log: seq<Pick>, n: nat, a: nat, b: nat, j: nat)
    requires s.counter < TWO_64 && s.log == [] && log == Run(s, steps).log
    requires a <= b <= |log| && s.counter + b <= TWO_64
    requires j < n && forall k :: a <= k < b ==> log[k].size == n
    ensures Even(Share(log, a, b, j), b - a, n)
  {
    NoLostTickets(s, steps);
    ShareIsHits(log, s.counter, n, a, b, j);
    FairBeforeWrap(s.counter + a, b - a, n);
  }

  // The country picker

  /** A connection between reading the counter for its index and storing the
      increment; `fetched` is what the increment read. */
  datatype Section = Reading | Fetched(value: nat)

  /** `overlapped` records whether some connection read its ticket inside another's
      section; nothing excludes that, since each connection locks its own mutex. */
  datatype Shared = Shared(counter: nat, inside: map<nat, Section>, tickets: seq<nat>, overlapped: bool)

  datatype Move = Draw(conn: nat) | Fetch(conn: nat) | Store(conn: nat)

  function MoveOn(s: Shared, m: Move): Shared {
    match m
    case Draw(c) =>
      if c in s.inside then s
      else Shared(s.counter, s.inside[c := Reading], s.tickets + [s.counter], s.overlapped || s.inside != map[])
    case Fetch(c) =>
      if c in s.inside && s.inside[c].Reading? then s.(inside := s.inside[c := Fetched(s.counter)]) else s
    case Store(c) =>
      if c in s.inside && s.inside[c].Fetched? then
        s.(counter := (s.inside[c].value + 1) % TWO_64, inside := s.inside - {c})
      else s
  }

  function MoveAll(s: Shared, moves: seq<Move>): Shared {
    if moves == [] then s else MoveOn(MoveAll(s, moves[..|moves| - 1]), moves[|moves| - 1])
  }

  ghost predicate Consecutive(first: nat, tickets: seq<nat>) {
    forall k :: 0 <= k < |tickets| ==> tickets[k] == (first + k) % TWO_64
  }

  /** Before any overlap at most one connection is inside and the counter has followed
      every ticket but its own; after one, two neighbouring tickets are equal. */
  ghost predicate SharedInv(first: nat, s: Shared) {
    if s.overlapped then exists i :: 0 <= i < |s.tickets| - 1 && s.tickets[i] == s.tickets[i + 1]
    else
      && Consecutive(first, s.tickets)
      && (s.inside == map[] ==> s.counter == (first + |s.tickets|) % TWO_64)
      && (s.inside != map[] ==>
            && |s.tickets| > 0 && s.counter == s.tickets[|s.tickets| - 1]
            && exists c :: s.inside.Keys == {c} && (s.inside[c].Fetched? ==> s.inside[c].value == s.counter))
  }

  lemma MoveKeepsInv(first: nat, s: Shared, m: Move)
    requires first < TWO_64 && SharedInv(first, s)
    ensures SharedInv(first, MoveOn(s, m))
  {
    if s.overlapped {
      var s' := MoveOn(s, m);
      var i :| 0 <= i < |s.tickets| - 1 && s.tickets[i] == s.tickets[i + 1];
      assert s'.tickets[i] == s'.tickets[i + 1];
    } else if s.inside == map[] {
      MoveFromOutside(first, s, m);
    } else {
      MoveWithOneInside(first, s, m);
    }
  }

  lemma MoveFromOutside(first: nat, s: Shared, m: Move)
    requires first < TWO_64 && SharedInv(first, s) && !s.overlapped && s.inside == map[]
    ensures SharedInv(first, MoveOn(s, m))
  {
    if m.Draw? {
      assert MoveOn(s, m).inside.Keys == {m.conn};
    }
  }

  lemma MoveWithOneInside(first: nat, s: Shared, m: Move)
    requires first < TWO_64 && SharedInv(first, s) && !s.overlapped && s.inside != map[]
    ensures SharedInv(first, MoveOn(s, m))
  {
    var s', k := MoveOn(s, m), |s.tickets|;
    var c :| s.inside.Keys == {c} && (s.inside[c].Fetched? ==> s.inside[c].value == s.counter);
    assert m.conn in s.inside <==> m.conn in s.inside.Keys;
    match m
    case Draw(_) => assert s'.overlapped ==> s'.tickets[k - 1] == s'.tickets[k];
    case Fetch(_) => assert s'.inside.Keys == {c};
    case Store(_) =>
      if s' != s {
        assert s'.inside == map[];
        NextTicket(first, k - 1);
      }
  }

  lemma NextTicket(first: nat, k: nat)
    ensures ((first + k) % TWO_64 + 1) % TWO_64 == (first + k + 1) % TWO_64
  {
  }

  lemma {:induction false} MovesKeepInv(s: Shared, moves: seq<Move>)
    requires s.counter < TWO_64 && s.tickets == [] && s.inside == map[] && !s.overlapped
    ensures SharedInv(s.counter, MoveAll(s, moves))
  {
    if moves != [] {
      MovesKeepInv(s, moves[..|moves| - 1]);
      MoveKeepsInv(s.counter, MoveAll(s, moves[..|moves| - 1]), moves[|moves| - 1]);
    }
  }

  /** The tickets of a country proxy are consecutive exactly in the runs in which no
      connection draws one while another is between drawing and storing. */
  lemma CountryTicketsExact(s: Shared, moves: seq<Move>)
    requires s.counter < TWO_64 && s.tickets == [] && s.inside == map[] && !s.overlapped
    ensures var s' := MoveAll(s, moves); Consecutive(s.counter, s'.tickets) <==> !s'.overlapped
  {
    MovesKeepInv(s, moves);
    var s' := MoveAll(s, moves);
    if s'.overlapped {
      var i :| 0 <= i < |s'.tickets| - 1 && s'.tickets[i] == s'.tickets[i + 1];
      assert (s.counter + i) % TWO_64 != (s.counter + i + 1) % TWO_64;
    }
  }

  function PicksOf(tickets: seq<nat>, n: nat): (log: seq<Pick>)
    ensures |log| == |tickets|
  {
    seq(|tickets|, i requires 0 <= i < |tickets| => Pick(tickets[i], n))
  }

  /** So a country proxy is fair, too, while its connections do not overlap: any stretch
      of its picks serves each of n healthy tunnels the floor or the ceiling of its
      even share. */
  lemma {:induction false} CountryPicksAreFair(s: Shared, moves: seq<Move>, tickets: seq<nat>, n: nat, a: nat, b: nat,
                                               j: nat)
    requires s.counter < TWO_64 && s.tickets == [] && s.inside == map[] && !s.overlapped
    requires !MoveAll(s, moves).overlapped && tickets == MoveAll(s, moves).tickets
    requires j < n && a <= b <= |tickets| && s.counter + b <= TWO_64
    ensures Even(Share(PicksOf(tickets, n), a, b, j), b - a, n)
  {
    CountryTicketsExact(s, moves);
    ShareIsHits(PicksOf(tickets, n), s.counter, n, a, b, j);
    FairBeforeWrap(s.counter + a, b - a, n);
  }

  /** Every window of these tickets serves each of n tunnels evenly. */
  ghost predicate AllEven(tickets: seq<nat>, n: nat)
    requires n > 0
  {
    forall a: nat, b: nat, j: nat :: a <= b <= |tickets| && j < n ==>
      Even(Share(PicksOf(tickets, n), a, b, j), b - a, n)
  }

  /** And that is exact: with several healthy tunnels, every overlap makes some stretch
      uneven. */
  lemma CountryFairExactly(s: Shared, moves: seq<Move>, tickets: seq<nat>, n: nat)
    requires s.counter < TWO_64 && s.tickets == [] && s.inside == map[] && !s.overlapped
    requires tickets == MoveAll(s, moves).tickets && s.counter + |tickets| <= TWO_64 && n > 0
    ensures AllEven(tickets, n) <==> n == 1 || !MoveAll(s, moves).overlapped
  {
    if n == 1 {
      forall a: nat, b: nat, j: nat | a <= b <= |tickets| && j < n
        ensures Even(Share(PicksOf(tickets, n), a, b, j), b - a, n)
      {
        OneTunnel(tickets, a, b);
      }
    } else if !MoveAll(s, moves).overlapped {
      forall a: nat, b: nat, j: nat | a <= b <= |tickets| && j < n
        ensures Even(Share(PicksOf(tickets, n), a, b, j), b - a, n)
      {
        CountryPicksAreFair(s, moves, tickets, n, a, b, j);
      }
    } else {
      MovesKeepInv(s, moves);
      var i :| 0 <= i < |tickets| - 1 && tickets[i] == tickets[i + 1];
      RepeatedTicket(tickets, n, i);
    }
  }

  lemma {:induction false} OneTunnel(tickets: seq<nat>, a: nat, b: nat)
    requires a <= b <= |tickets|
    ensures Share(PicksOf(tickets, 1), a, b, 0) == b - a
  {
    if a < b {
      OneTunnel(tickets, a, b - 1);
    }
  }

  /** The same ticket twice in a row serves one tunnel twice out of two. */
  lemma RepeatedTicket(tickets: seq<nat>, n: nat, i: nat)
    requires n >= 2 && i + 1 < |tickets| && tickets[i] == tickets[i + 1]
    ensures !AllEven(tickets, n)
  {
    var log, j := PicksOf(tickets, n), tickets[i] % n;
    assert Share(log, i, i + 1, j) == 1;
    assert Share(log, i, i + 2, j) == 2;
    DivModUnique(n + 1, n, 1, 1);
    assert !Even(Share(log, i, i + 2, j), i + 2 - i, n);
  }

  /** Two overlapping connections to a country with two tunnels both get the first one,
      and one increment is lost. */
  lemma CountryPickerUnfair()
    ensures var s' := MoveAll(Shared(0, map[], [], false),
                              [Draw(1), Draw(2), Fetch(1), Fetch(2), Store(1), Store(2)]);
            s'.tickets == [0, 0] && s'.counter == 1
  {
    var s0 := Shared(0, map[], [], false);
    var m: seq<Move> := [Draw(1), Draw(2), Fetch(1), Fetch(2), Store(1), Store(2)];
    assert m[..5][..4] == m[..4] && m[..4][..3] == m[..3] && m[..3][..2] == m[..2] && m[..2][..1] == m[..1]
           && m[..1][..0] == [];
    var s1 := MoveOn(s0, m[0]);
    assert MoveAll(s0, m[..1]) == s1;
    var s2 := MoveOn(s1, m[1]);
    assert MoveAll(s0, m[..2]) == s2;
    var s3 := MoveOn(s2, m[2]);
    assert MoveAll(s0, m[..3]) == s3;
    var s4 := MoveOn(s3, m[3]);
    assert MoveAll(s0, m[..4]) == s4;
    assert s4.inside[1] == Fetched(0) && s4.inside[2] == Fetched(0);
  }
}
