/** The server's own NAT rules: added when it starts, deleted when it stops, with
    routing changes in between. */
module Nat {
  import opened Firewall
  import opened Routing

  /** The kernel keeps a zero-length prefix as no restriction at all. */
  function MasqOut(subnet: Prefix, iface: string): Rule {
    var src := if subnet.Prefix? && subnet.bits == 0 then AnyAddr else subnet;
    Rule(ANYTHING.(src := src, outIf := Iface(iface)), Masquerade)
  }

  const FORWARD_IN := Rule(ANYTHING.(inIf := Iface(SERVER_IF)), Accept)
  const FORWARD_OUT := Rule(ANYTHING.(outIf := Iface(SERVER_IF), establishedOnly := true), Accept)

  /** The four set-up steps: the forwarding switch and three appended rules. */
  const SETUP_STEPS := 4

  /** Set-up when step `failAt` fails (no step does when failAt >= SETUP_STEPS): the
      rules appended before the failure stay. */
  function SetupNat(t: Table, subnet: Prefix, iface: string, failAt: nat): Table {
    t.(post := if failAt > 1 then t.post + [MasqOut(subnet, iface)] else t.post,
       forward := t.forward + (if failAt > 2 then [FORWARD_IN] else [])
                            + (if failAt > 3 then [FORWARD_OUT] else []))
  }

  /** Which of the three deletions succeed if there is something to delete; the others
      fail for a reason outside the tables, such as a held lock. */
  datatype Deletions = Deletions(masqOut: bool, forwardIn: bool, forwardOut: bool)

  const ALL_DELETED := Deletions(true, true, true)

  function RemoveIf(ok: bool, rules: seq<Rule>, r: Rule): seq<Rule> {
    if ok then RemoveFirst(rules, r) else rules
  }

  function TeardownNat(t: Table, subnet: Prefix, iface: string, d: Deletions): Table {
    t.(post := RemoveIf(d.masqOut, t.post, MasqOut(subnet, iface)),
       forward := RemoveIf(d.forwardOut, RemoveIf(d.forwardIn, t.forward, FORWARD_IN), FORWARD_OUT))
  }

  method RunSetup(k: Kernel, subnet: Prefix, iface: string, failAt: nat) returns (ok: bool)
    modifies k
    ensures ok <==> failAt >= SETUP_STEPS
    ensures k.table == SetupNat(old(k.table), subnet, iface, failAt)
  {
    ghost var t := k.table;
    if failAt == 0 {
      assert t.forward + [] + [] == t.forward;
      return false;
    }
    if failAt == 1 {
      assert t.forward + [] + [] == t.forward;
      return false;
    }
    k.table := Exec(k.table, Append(Post, MasqOut(subnet, iface)));
    if failAt == 2 {
      assert t.forward + [] + [] == t.forward;
      return false;
    }
    k.table := Exec(k.table, Append(Chain.Forward, FORWARD_IN));
    if failAt == 3 {
      assert t.forward + [FORWARD_IN] + [] == t.forward + [FORWARD_IN];
      return false;
    }
    k.table := Exec(k.table, Append(Chain.Forward, FORWARD_OUT));
    ok := true;
  }

  /** Failing deletions go unnoticed. */
  method RunTeardown(k: Kernel, subnet: Prefix, iface: string, d: Deletions)
    modifies k
    ensures k.table == TeardownNat(old(k.table), subnet, iface, d)
  {
    if d.masqOut {
      k.table := Exec(k.table, Delete(Post, MasqOut(subnet, iface)));
    }
    if d.forwardIn {
      k.table := Exec(k.table, Delete(Chain.Forward, FORWARD_IN));
    }
    if d.forwardOut {
      k.table := Exec(k.table, Delete(Chain.Forward, FORWARD_OUT));
    }
  }

  /** u is b plus the rules `post` and `fwd`, up to order. */
  ghost predicate Extends(u: Table, b: Table, post: multiset<Rule>, fwd: multiset<Rule>) {
    && u.pre == b.pre && u.proxy == b.proxy
    && multiset(u.post) == multiset(b.post) + post
    && multiset(u.forward) == multiset(b.forward) + fwd
  }

  /** One routing change carries extra rules along, provided the subnet masquerade is
      not among them and the `-o ens5` rule is only if it would not be added anyway. */
  lemma StepCarries(u: Table, b: Table, mode: Mode, post: multiset<Rule>, fwd: multiset<Rule>)
    requires Extends(u, b, post, fwd) && MASQ_SUBNET !in post
    requires MASQ_ENS5 in post && mode == MODE_PROXIED ==> MASQ_ENS5 in b.post
    ensures Extends(Apply(u, mode), Apply(b, mode), post, fwd)
  {
    if mode == MODE_PROXIED {
      ProxiedEffect(u);
      ProxiedEffect(b);
      RemoveCarries(u.post, b.post, MASQ_SUBNET, post);
      RemoveFirstMember(b.post, MASQ_SUBNET, MASQ_ENS5);
      EnsureCarries(RemoveFirst(u.post, MASQ_SUBNET), RemoveFirst(b.post, MASQ_SUBNET), MASQ_ENS5, post);
    } else {
      DirectEffect(u, mode);
      DirectEffect(b, mode);
      EnsureCarries(u.post, b.post, MASQ_SUBNET, post);
    }
  }

  /** Which rules a POSTROUTING chain holds after one routing change. */
  lemma PostMember(t: Table, mode: Mode, r: Rule)
    requires r != MASQ_SUBNET
    ensures r in Apply(t, mode).post <==> r in t.post || (r == MASQ_ENS5 && mode == MODE_PROXIED)
  {
    if mode == MODE_PROXIED {
      ProxiedEffect(t);
      RemoveFirstMember(t.post, MASQ_SUBNET, r);
    } else {
      DirectEffect(t, mode);
    }
  }

  lemma {:induction false} PostMembers(t: Table, modes: seq<Mode>, r: Rule)
    requires r != MASQ_SUBNET
    ensures r in ApplyAll(t, modes).post <==> r in t.post || (r == MASQ_ENS5 && MODE_PROXIED in modes)
  {
    if modes != [] {
      var before, last := modes[..|modes| - 1], modes[|modes| - 1];
      assert modes == before + [last];
      PostMembers(t, before, r);
      PostMember(ApplyAll(t, before), last, r);
    }
  }

  /** Routing changes carry foreign rules along untouched, and an extra `-o ens5` rule
      too if there is another one or proxied mode is never entered. */
  lemma {:induction false} RoutingCarriesExtras(u: Table, b: Table, modes: seq<Mode>, post: multiset<Rule>,
                                                fwd: multiset<Rule>)
    requires Extends(u, b, post, fwd) && MASQ_SUBNET !in post
    requires MASQ_ENS5 in post ==> MASQ_ENS5 in b.post || MODE_PROXIED !in modes
    ensures Extends(ApplyAll(u, modes), ApplyAll(b, modes), post, fwd)
  {
    if modes != [] {
      var before, last := modes[..|modes| - 1], modes[|modes| - 1];
      assert modes == before + [last];
      RoutingCarriesExtras(u, b, before, post, fwd);
      PostMembers(b, before, MASQ_ENS5);
      StepCarries(ApplyAll(u, before), ApplyAll(b, before), last, post, fwd);
    }
  }

  /** A lone extra `-o ens5` rule is taken for the controller's own by the first change
      to proxied mode. */
  lemma {:induction false} RoutingAbsorbs(u: Table, b: Table, modes: seq<Mode>, fwd: multiset<Rule>)
    requires Extends(u, b, multiset{MASQ_ENS5}, fwd) && MASQ_ENS5 !in b.post && MODE_PROXIED in modes
    ensures Extends(ApplyAll(u, modes), ApplyAll(b, modes), multiset{}, fwd)
  {
    var before, last := modes[..|modes| - 1], modes[|modes| - 1];
    var u', b' := ApplyAll(u, before), ApplyAll(b, before);
    assert modes == before + [last];
    if MODE_PROXIED in before {
      RoutingAbsorbs(u, b, before, fwd);
      StepCarries(u', b', last, multiset{}, fwd);
    } else {
      RoutingCarriesExtras(u, b, before, multiset{MASQ_ENS5}, fwd);
      PostMembers(b, before, MASQ_ENS5);
      StepAbsorbs(u', b', fwd);
    }
  }

  lemma StepAbsorbs(u: Table, b: Table, fwd: multiset<Rule>)
    requires Extends(u, b, multiset{MASQ_ENS5}, fwd) && MASQ_ENS5 !in b.post
    ensures Extends(Apply(u, MODE_PROXIED), Apply(b, MODE_PROXIED), multiset{}, fwd)
  {
    ProxiedEffect(u);
    ProxiedEffect(b);
    RemoveCarries(u.post, b.post, MASQ_SUBNET, multiset{MASQ_ENS5});
    RemoveFirstMember(b.post, MASQ_SUBNET, MASQ_ENS5);
    Absorb(RemoveFirst(u.post, MASQ_SUBNET), RemoveFirst(b.post, MASQ_SUBNET), MASQ_ENS5);
  }

  lemma Absorb(u: seq<Rule>, b: seq<Rule>, r: Rule)
    requires multiset(u) == multiset(b) + multiset{r} && r !in b
    ensures multiset(AppendIfAbsent(u, r)) == multiset(AppendIfAbsent(b, r))
  {
    assert r in multiset(u);
  }

  lemma RemoveCarries(u: seq<Rule>, b: seq<Rule>, r: Rule, extra: multiset<Rule>)
    requires multiset(u) == multiset(b) + extra && r !in extra
    ensures multiset(RemoveFirst(u, r)) == multiset(RemoveFirst(b, r)) + extra
  {
    RemoveFirstBag(u, r);
    RemoveFirstBag(b, r);
  }

  lemma EnsureCarries(u: seq<Rule>, b: seq<Rule>, r: Rule, extra: multiset<Rule>)
    requires multiset(u) == multiset(b) + extra && (r in extra ==> r in b)
    ensures multiset(AppendIfAbsent(u, r)) == multiset(AppendIfAbsent(b, r)) + extra
  {
    assert r in u <==> r in multiset(u);
    assert r in b <==> r in multiset(b);
  }

  /** A set-up attempt on `atStart`, any routing changes, and the stop on `atStop` with
      deletions `d` (which does nothing unless the set-up succeeded). */
  function Session(t: Table, subnet: Prefix, atStart: string, failAt: nat, modes: seq<Mode>, atStop: string,
                   d: Deletions): Table
  {
    Closed(ApplyAll(SetupNat(t, subnet, atStart, failAt), modes), subnet, failAt, atStop, d)
  }

  function Closed(u: Table, subnet: Prefix, failAt: nat, atStop: string, d: Deletions): Table {
    if failAt >= SETUP_STEPS then TeardownNat(u, subnet, atStop, d) else u
  }

  lemma SetupExtends(t: Table, subnet: Prefix, iface: string, failAt: nat)
    ensures Extends(SetupNat(t, subnet, iface, failAt), t,
                    if failAt > 1 then multiset{MasqOut(subnet, iface)} else multiset{},
                    if failAt > 3 then multiset{FORWARD_IN, FORWARD_OUT}
                    else if failAt > 2 then multiset{FORWARD_IN} else multiset{})
  {
  }

  ghost predicate SameRules(e: Table, b: Table) {
    && e.pre == b.pre && e.proxy == b.proxy
    && multiset(e.post) == multiset(b.post) && multiset(e.forward) == multiset(b.forward)
  }

  /** The set-up's masquerade is the controller's `-o ens5` rule, which is not there
      yet and which some change to proxied mode asks for. */
  predicate Absorbed(t: Table, subnet: Prefix, iface: string, modes: seq<Mode>) {
    MasqOut(subnet, iface) == MASQ_ENS5 && MASQ_ENS5 !in t.post && MODE_PROXIED in modes
  }

  /** When the rules after a session are those of the routing changes alone. Normally
      the set-up appended nothing, or it completed, the default interface at the stop is
      the one at the start, and no deletion fails. An absorbed masquerade no longer
      counts as an addition, so that the stop must not delete one of its own. */
  predicate Conserves(t: Table, subnet: Prefix, atStart: string, failAt: nat, modes: seq<Mode>, atStop: string,
                      d: Deletions)
  {
    if failAt >= SETUP_STEPS then
      d.forwardIn && d.forwardOut
      && if Absorbed(t, subnet, atStart, modes) then
           !d.masqOut || (atStop != atStart && MasqOut(subnet, atStop) !in t.post)
         else d.masqOut && atStop == atStart
    else failAt <= 1 || (failAt == 2 && Absorbed(t, subnet, atStart, modes))
  }

  /** Whatever rules were there before, a session leaves exactly the rules the routing
      changes alone would have left if and only if this condition on its inputs holds. */
  lemma SessionConserves(t: Table, subnet: Prefix, atStart: string, failAt: nat, modes: seq<Mode>, atStop: string,
                         d: Deletions)
    ensures SameRules(Session(t, subnet, atStart, failAt, modes, atStop, d), ApplyAll(t, modes))
            <==> Conserves(t, subnet, atStart, failAt, modes, atStop, d)
  {
    var s, b := SetupNat(t, subnet, atStart, failAt), ApplyAll(t, modes);
    var m := MasqOut(subnet, atStart);
    var absorbed := Absorbed(t, subnet, atStart, modes);
    var fwd := if failAt > 3 then multiset{FORWARD_IN, FORWARD_OUT}
               else if failAt > 2 then multiset{FORWARD_IN} else multiset{};
    SetupExtends(t, subnet, atStart, failAt);
    var u := ApplyAll(s, modes);
    var post := if failAt > 1 && !absorbed then multiset{m} else multiset{};
    if failAt > 1 && absorbed {
      RoutingAbsorbs(s, t, modes, fwd);
    } else {
      RoutingCarriesExtras(s, t, modes, post, fwd);
    }
    CloseForward(u, b, subnet, failAt, fwd, atStop, d);
    ClosePost(t, u, b, subnet, atStart, failAt, modes, atStop, d);
  }

  lemma CloseForward(u: Table, b: Table, subnet: Prefix, failAt: nat, fwd: multiset<Rule>, atStop: string,
                     d: Deletions)
    requires multiset(u.forward) == multiset(b.forward) + fwd
    requires fwd == if failAt > 3 then multiset{FORWARD_IN, FORWARD_OUT}
                    else if failAt > 2 then multiset{FORWARD_IN} else multiset{}
    ensures multiset(Closed(u, subnet, failAt, atStop, d).forward) == multiset(b.forward)
            <==> failAt <= 2 || (failAt >= SETUP_STEPS && d.forwardIn && d.forwardOut)
  {
    if failAt > 3 {
      DropTwo(u.forward, b.forward, FORWARD_IN, FORWARD_OUT, d.forwardIn, d.forwardOut);
    } else if failAt == 3 {
      assert multiset(u.forward)[FORWARD_IN] == multiset(b.forward)[FORWARD_IN] + 1;
    }
  }

  lemma ClosePost(t: Table, u: Table, b: Table, subnet: Prefix, atStart: string, failAt: nat, modes: seq<Mode>,
                  atStop: string, d: Deletions)
    requires b == ApplyAll(t, modes)
    requires var kept := failAt > 1 && !Absorbed(t, subnet, atStart, modes);
             multiset(u.post) == multiset(b.post) + if kept then multiset{MasqOut(subnet, atStart)} else multiset{}
    ensures multiset(Closed(u, subnet, failAt, atStop, d).post) == multiset(b.post)
            && (failAt <= 2 || (failAt >= SETUP_STEPS && d.forwardIn && d.forwardOut))
            <==> Conserves(t, subnet, atStart, failAt, modes, atStop, d)
  {
    var m, q := MasqOut(subnet, atStart), MasqOut(subnet, atStop);
    assert m == q <==> atStart == atStop;
    var extra := failAt > 1 && !Absorbed(t, subnet, atStart, modes);
    DropOne(u.post, b.post, m, q, extra, failAt >= SETUP_STEPS && d.masqOut);
    PostMembers(t, modes, q);
  }

  /** The chain is the base again if the extra rule, if any, is the one deleted. */
  lemma DropOne(u: seq<Rule>, b: seq<Rule>, m: Rule, q: Rule, extra: bool, ok: bool)
    requires multiset(u) == multiset(b) + if extra then multiset{m} else multiset{}
    ensures multiset(RemoveIf(ok, u, q)) == multiset(b) <==> if extra then ok && m == q else !ok || q !in b
  {
    assert multiset(b) + multiset{m} != multiset(b) by {
      assert (multiset(b) + multiset{m})[m] == multiset(b)[m] + 1;
    }
    RemoveFirstBag(u, q);
    RemoveNone(multiset(b), q);
    SwapBack(multiset(b), m, q);
  }

  lemma RemoveNone(bag: multiset<Rule>, r: Rule)
    ensures bag - multiset{r} == bag <==> r !in bag
  {
    if r in bag {
      assert (bag - multiset{r})[r] == bag[r] - 1;
    }
  }

  /** While the server is up, whatever the modes did, a packet that no earlier FORWARD
      rule decides is let through exactly if it comes from the VPN, or goes to it as part
      of an established connection. */
  lemma ForwardVerdict(t: Table, subnet: Prefix, iface: string, modes: seq<Mode>, p: Packet)
    requires Walk(t.forward, [], p) == Fall
    ensures Walk(ApplyAll(SetupNat(t, subnet, iface, SETUP_STEPS), modes).forward, [], p) ==
            if p.inIf == "wg-server" || (p.outIf == "wg-server" && p.established) then Decided(Accept) else Fall
  {
    var s := SetupNat(t, subnet, iface, SETUP_STEPS);
    FaultlessCalls(s, modes);
    UnrelatedKept(s, Faultless(modes));
    WalkOne(FORWARD_IN, p);
    WalkOne(FORWARD_OUT, p);
    WalkConcat(t.forward, [FORWARD_IN], [], p);
    WalkConcat(t.forward + [FORWARD_IN], [FORWARD_OUT], [], p);
  }

  /** And one that no earlier POSTROUTING rule decides is masqueraded exactly if it comes
      from the server's subnet and leaves by the default interface. */
  lemma MasqueradeVerdict(t: Table, net: nat, bits: MaskLength, iface: string, p: Packet)
    requires Walk(t.post, [], p) == Fall
    ensures Walk(SetupNat(t, Prefix(net, bits), iface, SETUP_STEPS).post, [], p) ==
            if p.outIf == iface && (bits == 0 || InPrefix(p.src, Prefix(net, bits))) then Decided(Masquerade) else Fall
  {
    var r := MasqOut(Prefix(net, bits), iface);
    WalkOne(r, p);
    WalkConcat(t.post, [r], [], p);
  }

  /** A default interface that changes while the server runs leaves its masquerade
      behind. */
  lemma MovedInterfaceLeaks(t: Table, subnet: Prefix)
    requires t.post == []
    ensures Session(t, subnet, "eth0", SETUP_STEPS, [], "wlan0", ALL_DELETED).post == [MasqOut(subnet, "eth0")]
  {
    assert SetupNat(t, subnet, "eth0", SETUP_STEPS).post == [MasqOut(subnet, "eth0")];
    assert "eth0"[0] != "wlan0"[0];
    RemoveFirstChanges([MasqOut(subnet, "eth0")], MasqOut(subnet, "wlan0"));
  }

  /** A server for all addresses on ens5, started before the first change to proxied
      mode, takes the controller's own masquerade away when it stops. */
  lemma AbsorbedMasqueradeLost(t: Table, net: nat)
    requires t.post == []
    ensures MASQ_ENS5 in ApplyAll(t, [MODE_PROXIED]).post
    ensures MASQ_ENS5 !in Session(t, Prefix(net, 0), "ens5", SETUP_STEPS, [MODE_PROXIED], "ens5", ALL_DELETED).post
  {
    var s := SetupNat(t, Prefix(net, 0), "ens5", SETUP_STEPS);
    var u := Apply(s, MODE_PROXIED);
    assert [MODE_PROXIED][..0] == [];
    assert ApplyAll(s, [MODE_PROXIED]) == u && ApplyAll(t, [MODE_PROXIED]) == Apply(t, MODE_PROXIED);
    PostMember(t, MODE_PROXIED, MASQ_ENS5);
    ProxiedEffect(s);
    assert s.post == [MASQ_ENS5];
    RemoveFirstChanges(s.post, MASQ_SUBNET);
    assert RemoveFirst(u.post, MASQ_ENS5) == [];
  }

  lemma SwapBack(bag: multiset<Rule>, added: Rule, removed: Rule)
    ensures bag + multiset{added} - multiset{removed} == bag <==> added == removed
  {
    if added != removed {
      assert (bag + multiset{added} - multiset{removed})[added] == bag[added] + 1;
    }
  }

  lemma DropTwo(u: seq<Rule>, b: seq<Rule>, p: Rule, q: Rule, pOk: bool, qOk: bool)
    requires p != q && multiset(u) == multiset(b) + multiset{p, q}
    ensures multiset(RemoveIf(qOk, RemoveIf(pOk, u, p), q)) == multiset(b) <==> pOk && qOk
  {
    var end := multiset(RemoveIf(qOk, RemoveIf(pOk, u, p), q));
    assert p in multiset(u) && q in multiset(u);
    forall r
      ensures end[r] == multiset(b)[r] + if (r == p && !pOk) || (r == q && !qOk) then 1 else 0
    {
      CountLeft(u, p, q, pOk, qOk, r);
      assert multiset(u)[r] == multiset(b)[r] + multiset{p, q}[r];
    }
    assert end[p] == multiset(b)[p] <==> pOk;
    assert end[q] == multiset(b)[q] <==> qOk;
  }

  lemma CountLeft(u: seq<Rule>, p: Rule, q: Rule, pOk: bool, qOk: bool, r: Rule)
    requires p != q && p in u && q in u
    ensures multiset(RemoveIf(qOk, RemoveIf(pOk, u, p), q))[r]
            == multiset(u)[r] - if (r == p && pOk) || (r == q && qOk) then 1 else 0
  {
    RemoveCount(u, p, r);
    RemoveCount(u, p, q);
    RemoveCount(RemoveIf(pOk, u, p), q, r);
  }
}
