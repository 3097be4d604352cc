/** The routing controller: two command lists over the kernel tables. */
module Routing {
  import opened Lists
  import opened Options
  import opened Firewall

  type Mode = string

  const MODE_DIRECT: Mode := "direct"
  const MODE_PROXIED: Mode := "proxied"
  const DEFAULT_PORT := 10001

  const SERVER_IF := "wg-server"
  const REDSOCKS_PORT := 12345
  const OCTET := 0x100_0000

  const MASQ_SUBNET := Rule(ANYTHING.(src := Prefix(10 * OCTET + 100 * 0x1_0000, 24)), Masquerade)
  const MASQ_ENS5 := Rule(ANYTHING.(outIf := Iface("ens5")), Masquerade)
  const JUMP := Rule(ANYTHING.(inIf := Iface(SERVER_IF), proto := Tcp), JumpProxy)
  const DNS := Rule(ANYTHING.(inIf := Iface(SERVER_IF), proto := Udp, dport := Port(53)),
                    Dnat(OCTET + 0x1_0101, 53))
  const REDIRECT := Rule(ANYTHING.(proto := Tcp), Redirect(REDSOCKS_PORT))

  const PRIVATE_RANGES: seq<Prefix> := [
    Prefix(0, 8), Prefix(10 * OCTET, 8), Prefix(127 * OCTET, 8), Prefix(169 * OCTET + 254 * 0x1_0000, 16),
    Prefix(172 * OCTET + 16 * 0x1_0000, 12), Prefix(192 * OCTET + 168 * 0x1_0000, 16),
    Prefix(224 * OCTET, 4), Prefix(240 * OCTET, 4)]

  /** The rebuilt WG_PROXY chain: eight skipped ranges, then the redirect. */
  const PROXY_CHAIN: seq<Rule> := Skips(PRIVATE_RANGES) + [REDIRECT]

  function ProxiedCmds(masq: Rule, ens5: Rule, jump: Rule, dns: Rule, chain: seq<Rule>): seq<Cmd> {
    [Delete(Post, masq), FlushProxy, CreateProxy]
    + Appends(chain)
    + [Ensure(Pre, jump), Ensure(Pre, dns), Ensure(Post, ens5), External, External]
  }

  function DirectCmds(masq: Rule, jump: Rule, dns: Rule): seq<Cmd> {
    [Delete(Pre, jump), Delete(Pre, dns), FlushProxy, Ensure(Post, masq), External]
  }

  const PROXIED_CMDS: seq<Cmd> := ProxiedCmds(MASQ_SUBNET, MASQ_ENS5, JUMP, DNS, PROXY_CHAIN)
  const DIRECT_CMDS: seq<Cmd> := DirectCmds(MASQ_SUBNET, JUMP, DNS)

  /** Every mode string other than "proxied" means direct. */
  function Cmds(mode: Mode): seq<Cmd> {
    if mode == MODE_PROXIED then PROXIED_CMDS else DIRECT_CMDS
  }

  function Apply(t: Table, mode: Mode): Table {
    ExecAll(t, Cmds(mode))
  }

  function ApplyAll(t: Table, modes: seq<Mode>): Table {
    if modes == [] then t else Apply(ApplyAll(t, modes[..|modes| - 1]), modes[|modes| - 1])
  }

  /** A SetMode call and how its commands fail. */
  datatype Call = Call(mode: Mode, faults: seq<Fault>)

  function ApplyCall(t: Table, call: Call): Table {
    ExecAll(t, Effective(Cmds(call.mode), call.faults))
  }

  function ApplyCalls(t: Table, calls: seq<Call>): Table {
    if calls == [] then t else ApplyCall(ApplyCalls(t, calls[..|calls| - 1]), calls[|calls| - 1])
  }

  class Controller {
    var mode: Mode
    var exitCountry: string
    var proxyPort: int
    const kernel: Kernel

    constructor (kernel: Kernel)
      ensures mode == MODE_DIRECT && proxyPort == DEFAULT_PORT && exitCountry == "" && this.kernel == kernel
    {
      mode, exitCountry, proxyPort := MODE_DIRECT, "", DEFAULT_PORT;
      this.kernel := kernel;
    }

    /** Never reports an error: the command loop swallows them all. */
    method SetMode(mode: Mode, country: string, port: int, faults: seq<Fault>)
      modifies this, kernel
      ensures kernel.table == ApplyCall(old(kernel.table), Call(mode, faults))
      ensures mode == MODE_PROXIED ==>
                this.mode == MODE_PROXIED && exitCountry == country
                && proxyPort == if port == 0 then 10001 else port
      ensures mode != MODE_PROXIED ==> this.mode == MODE_DIRECT && exitCountry == "" && proxyPort == 0
    {
      if mode == MODE_PROXIED {
        kernel.Run(PROXIED_CMDS, faults);
        this.mode, exitCountry := MODE_PROXIED, country;
        proxyPort := if port == 0 then DEFAULT_PORT else port;
      } else {
        kernel.Run(DIRECT_CMDS, faults);
        this.mode, exitCountry, proxyPort := MODE_DIRECT, "", 0;
      }
    }

    method SetProxiedFromGold(goldPorts: seq<int>, country: string, faults: seq<Fault>) returns (ok: bool)
      modifies this, kernel
      ensures ok <==> goldPorts != []
      ensures ok ==> mode == MODE_PROXIED && exitCountry == country
                     && proxyPort == if goldPorts[0] == 0 then 10001 else goldPorts[0]
      ensures kernel.table == if ok then ApplyCall(old(kernel.table), Call(MODE_PROXIED, faults)) else old(kernel.table)
      ensures !ok ==> unchanged(this)
    {
      if |goldPorts| == 0 {
        return false;
      }
      SetMode(MODE_PROXIED, country, goldPorts[0], faults);
      ok := true;
    }
  }

  // What one command list does to an arbitrary table

  lemma ProxiedEffect(t: Table)
    ensures Apply(t, MODE_PROXIED) ==
            Table(AppendIfAbsent(AppendIfAbsent(t.pre, JUMP), DNS),
                  AppendIfAbsent(RemoveFirst(t.post, MASQ_SUBNET), MASQ_ENS5),
                  t.forward, Some(PROXY_CHAIN))
  {
    ProxiedCmdsEffect(t, MASQ_SUBNET, MASQ_ENS5, JUMP, DNS, PROXY_CHAIN);
  }

  lemma ProxiedCmdsEffect(t: Table, masq: Rule, ens5: Rule, jump: Rule, dns: Rule, chain: seq<Rule>)
    ensures ExecAll(t, ProxiedCmds(masq, ens5, jump, dns, chain)) ==
            Table(AppendIfAbsent(AppendIfAbsent(t.pre, jump), dns),
                  AppendIfAbsent(RemoveFirst(t.post, masq), ens5), t.forward, Some(chain))
  {
    var tail := [Ensure(Pre, jump), Ensure(Pre, dns), Ensure(Post, ens5), External, External];
    ExecRebuilt(t, masq, chain, tail);
    ExecFive(Rebuilt(t, masq, chain), tail);
  }

  /** The masquerade deleted and the chain rebuilt. */
  function Rebuilt(t: Table, masq: Rule, chain: seq<Rule>): Table {
    t.(post := RemoveFirst(t.post, masq), proxy := Some(chain))
  }

  lemma ExecRebuilt(t: Table, masq: Rule, chain: seq<Rule>, tail: seq<Cmd>)
    ensures ExecAll(t, [Delete(Post, masq), FlushProxy, CreateProxy] + Appends(chain) + tail)
            == ExecAll(Rebuilt(t, masq, chain), tail)
  {
    var head := [Delete(Post, masq), FlushProxy, CreateProxy];
    var emptied := Rebuilt(t, masq, []);
    assert ExecAll(t, head) == emptied by {
      ExecThree(t, head);
    }
    assert ExecAll(t, head + Appends(chain)) == Rebuilt(t, masq, chain) by {
      ExecConcat(t, head, Appends(chain));
      ExecAppends(emptied, chain);
      assert [] + chain == chain;
    }
    ExecConcat(t, head + Appends(chain), tail);
  }

  lemma ExecThree(t: Table, c: seq<Cmd>)
    requires |c| == 3
    ensures ExecAll(t, c) == Exec(Exec(Exec(t, c[0]), c[1]), c[2])
  {
    assert c[..2][..1] == c[..1] && c[..1][..0] == [];
    assert ExecAll(t, c[..1]) == Exec(t, c[0]);
    assert ExecAll(t, c[..2]) == Exec(ExecAll(t, c[..1]), c[1]);
  }

  lemma ExecFive(t: Table, c: seq<Cmd>)
    requires |c| == 5
    ensures ExecAll(t, c) == Exec(Exec(Exec(Exec(Exec(t, c[0]), c[1]), c[2]), c[3]), c[4])
  {
    ExecThree(t, c[..3]);
    assert c[..4][..3] == c[..3];
    assert ExecAll(t, c[..4]) == Exec(ExecAll(t, c[..3]), c[3]);
  }

  lemma DirectEffect(t: Table, mode: Mode)
    requires mode != MODE_PROXIED
    ensures Apply(t, mode) ==
            Table(RemoveFirst(RemoveFirst(t.pre, JUMP), DNS), AppendIfAbsent(t.post, MASQ_SUBNET), t.forward,
                  if t.proxy.None? then None else Some([]))
  {
    ExecFive(t, DirectCmds(MASQ_SUBNET, JUMP, DNS));
  }

  // Idempotence

  /** On any table at all, setting proxied mode twice equals setting it once exactly
      when the subnet masquerade was there at most once. */
  lemma ProxiedIdempotent(t: Table)
    ensures Apply(Apply(t, MODE_PROXIED), MODE_PROXIED) == Apply(t, MODE_PROXIED)
            <==> multiset(t.post)[MASQ_SUBNET] <= 1
  {
    var once := Apply(t, MODE_PROXIED);
    ProxiedEffect(t);
    ProxiedEffect(once);
    SwapTwice(t.post, MASQ_SUBNET, MASQ_ENS5);
  }

  lemma SwapTwice(rules: seq<Rule>, out: Rule, into: Rule)
    requires out != into
    ensures var once := AppendIfAbsent(RemoveFirst(rules, out), into);
            AppendIfAbsent(RemoveFirst(once, out), into) == once <==> multiset(rules)[out] <= 1
  {
    var once := AppendIfAbsent(RemoveFirst(rules, out), into);
    RemoveFirstMember(rules, out, out);
    RemoveFirstMember(once, out, into);
    RemoveFirstChanges(once, out);
  }

  /** For direct mode the condition is at most one copy of each PREROUTING rule. */
  lemma DirectIdempotent(t: Table, mode: Mode)
    requires mode != MODE_PROXIED
    ensures Apply(Apply(t, mode), mode) == Apply(t, mode)
            <==> multiset(t.pre)[JUMP] <= 1 && multiset(t.pre)[DNS] <= 1
  {
    DirectEffect(t, mode);
    DirectEffect(Apply(t, mode), mode);
    RemoveTwice(t.pre, JUMP, DNS);
  }

  lemma RemoveTwice(rules: seq<Rule>, a: Rule, b: Rule)
    requires a != b
    ensures var once := RemoveFirst(RemoveFirst(rules, a), b);
            RemoveFirst(RemoveFirst(once, a), b) == once
            <==> multiset(rules)[a] <= 1 && multiset(rules)[b] <= 1
  {
    var half := RemoveFirst(rules, a);
    var once := RemoveFirst(half, b);
    RemoveFirstMember(rules, a, a);
    RemoveFirstBag(rules, a);
    RemoveFirstMember(half, b, a);
    RemoveFirstMember(half, b, b);
    RemoveFirstChanges(once, a);
    RemoveFirstChanges(RemoveFirst(once, a), b);
    RemoveFirstMember(once, a, b);
  }

  /** Two tables on which a second call changes the outcome of the first. */
  lemma SecondCallChanges(t: Table)
    ensures t.post == [MASQ_SUBNET, MASQ_SUBNET] ==>
              && Apply(t, MODE_PROXIED).post == [MASQ_SUBNET, MASQ_ENS5]
              && Apply(Apply(t, MODE_PROXIED), MODE_PROXIED).post == [MASQ_ENS5]
    ensures t.pre == [JUMP, JUMP] ==>
              && Apply(t, MODE_DIRECT).pre == [JUMP]
              && Apply(Apply(t, MODE_DIRECT), MODE_DIRECT).pre == []
  {
    ProxiedEffect(t);
    ProxiedEffect(Apply(t, MODE_PROXIED));
    DirectEffect(t, MODE_DIRECT);
    DirectEffect(Apply(t, MODE_DIRECT), MODE_DIRECT);
    RemoveFirstChanges([JUMP], DNS);
    assert t.post == [MASQ_SUBNET, MASQ_SUBNET] ==> t.post[1..] == [MASQ_SUBNET];
    assert t.pre == [JUMP, JUMP] ==> t.pre[1..] == [JUMP];
  }

  // History independence

  const CONTROLLER_RULES: set<Rule> := {MASQ_SUBNET, MASQ_ENS5, JUMP, DNS}

  ghost predicate Clean(t: Table) {
    forall r <- CONTROLLER_RULES :: r !in t.pre && r !in t.post
  }

  /** The tables after any history that ends in mode `last`. */
  function Settled(t: Table, last: Mode, everProxied: bool): Table {
    if last == MODE_PROXIED then
      Table(t.pre + [JUMP, DNS], t.post + [MASQ_ENS5], t.forward, Some(PROXY_CHAIN))
    else
      Table(t.pre, t.post + (if everProxied then [MASQ_ENS5] else []) + [MASQ_SUBNET], t.forward,
            if t.proxy.None? && !everProxied then None else Some([]))
  }

  /** Starting from tables without controller rules, any sequence of SetMode calls
      leaves tables that depend only on the last mode and on whether proxied mode was
      ever entered. Going back to direct mode keeps the `-o ens5` masquerade. */
  lemma {:induction false} HistoryIndependent(t: Table, modes: seq<Mode>)
    requires Clean(t) && modes != []
    ensures ApplyAll(t, modes) == Settled(t, modes[|modes| - 1], MODE_PROXIED in modes)
  {
    var before, last := modes[..|modes| - 1], modes[|modes| - 1];
    var u := ApplyAll(t, before);
    assert ApplyAll(t, modes) == Apply(u, last);
    assert modes == before + [last];
    assert MODE_PROXIED in modes <==> MODE_PROXIED in before || last == MODE_PROXIED;
    if before == [] {
      FromClean(t, last);
    } else {
      HistoryIndependent(t, before);
      FromSettled(t, before[|before| - 1], MODE_PROXIED in before, last);
    }
  }

  lemma FromClean(t: Table, last: Mode)
    requires Clean(t)
    ensures Apply(t, last) == Settled(t, last, last == MODE_PROXIED)
  {
    if last == MODE_PROXIED {
      ProxiedEffect(t);
      RemoveFirstChanges(t.post, MASQ_SUBNET);
      AppendTwo(t.pre, JUMP, DNS);
    } else {
      DirectEffect(t, last);
      RemoveFirstChanges(t.pre, JUMP);
      RemoveFirstChanges(t.pre, DNS);
      assert t.post + [] == t.post;
    }
  }

  lemma AppendTwo(rules: seq<Rule>, a: Rule, b: Rule)
    requires a != b && a !in rules && b !in rules
    ensures AppendIfAbsent(AppendIfAbsent(rules, a), b) == rules + [a, b]
  {
    assert rules + [a] + [b] == rules + [a, b];
  }

  lemma FromSettled(t: Table, prev: Mode, ever: bool, last: Mode)
    requires Clean(t) && (prev == MODE_PROXIED ==> ever)
    ensures Apply(Settled(t, prev, ever), last) == Settled(t, last, ever || last == MODE_PROXIED)
  {
    var u := Settled(t, prev, ever);
    var tail := if ever then [MASQ_ENS5] else [];
    if last == MODE_PROXIED {
      ProxiedEffect(u);
      if prev == MODE_PROXIED {
        RemoveFirstChanges(u.post, MASQ_SUBNET);
      } else {
        RemoveLast(t.post + tail, MASQ_SUBNET);
        AppendTwo(t.pre, JUMP, DNS);
        assert t.post + [] + [MASQ_ENS5] == t.post + [MASQ_ENS5];
      }
    } else {
      DirectEffect(u, last);
      if prev == MODE_PROXIED {
        RemoveFromTail(t.pre, [JUMP, DNS], JUMP);
        assert RemoveFirst([JUMP, DNS], JUMP) == [DNS];
        RemoveLast(t.pre, DNS);
      } else {
        RemoveFirstChanges(t.pre, JUMP);
        RemoveFirstChanges(t.pre, DNS);
      }
    }
  }

  /** The rules that are not the controller's, in their order. */
  function Unrelated(rules: seq<Rule>): seq<Rule> {
    if rules == [] then []
    else (if rules[0] in CONTROLLER_RULES then [] else [rules[0]]) + Unrelated(rules[1..])
  }

  /** They are the rules at exactly the positions that hold none of the controller's. */
  lemma {:induction false} UnrelatedExactly(rules: seq<Rule>)
    ensures IsSelection(rules, seq(|rules|, i requires 0 <= i < |rules| => rules[i] !in CONTROLLER_RULES),
                        Unrelated(rules))
  {
    var flags := seq(|rules|, i requires 0 <= i < |rules| => rules[i] !in CONTROLLER_RULES);
    if rules == [] {
      EmptySelection<Rule>();
      assert flags == [];
    } else {
      var init, last := rules[..|rules| - 1], rules[|rules| - 1];
      var before := seq(|init|, i requires 0 <= i < |init| => init[i] !in CONTROLLER_RULES);
      UnrelatedExactly(init);
      SelectionGrows(init, before, Unrelated(init), last, last !in CONTROLLER_RULES);
      assert rules == init + [last] && flags == before + [last !in CONTROLLER_RULES];
      UnrelatedConcat(init, [last]);
    }
  }

  lemma {:induction false} UnrelatedConcat(a: seq<Rule>, b: seq<Rule>)
    ensures Unrelated(a + b) == Unrelated(a) + Unrelated(b)
  {
    if a == [] {
      assert a + b == b;
    } else {
      assert (a + b)[1..] == a[1..] + b;
      UnrelatedConcat(a[1..], b);
    }
  }

  lemma {:induction false} UnrelatedRemove(rules: seq<Rule>, r: Rule)
    requires r in CONTROLLER_RULES
    ensures Unrelated(RemoveFirst(rules, r)) == Unrelated(rules)
  {
    if rules != [] && rules[0] != r {
      UnrelatedRemove(rules[1..], r);
      UnrelatedConcat([rules[0]], RemoveFirst(rules[1..], r));
    }
  }

  /** A command that touches no rule but the controller's. */
  predicate Tame(cmd: Cmd) {
    cmd.Delete? || cmd.Append? || cmd.Ensure? ==> cmd.chain != Forward && cmd.rule in CONTROLLER_RULES
  }

  lemma ExecSparesUnrelated(t: Table, cmd: Cmd)
    requires Tame(cmd)
    ensures var u := Exec(t, cmd);
            Unrelated(u.pre) == Unrelated(t.pre) && Unrelated(u.post) == Unrelated(t.post) && u.forward == t.forward
  {
    match cmd
    case Delete(c, r) => UnrelatedRemove(Get(t, c), r);
    case Append(c, r) => UnrelatedConcat(Get(t, c), [r]);
    case Ensure(c, r) => UnrelatedConcat(Get(t, c), [r]);
    case _ =>
  }

  lemma {:induction false} ExecAllSparesUnrelated(t: Table, cmds: seq<Cmd>)
    requires forall i :: 0 <= i < |cmds| ==> Tame(cmds[i])
    ensures var u := ExecAll(t, cmds);
            Unrelated(u.pre) == Unrelated(t.pre) && Unrelated(u.post) == Unrelated(t.post) && u.forward == t.forward
  {
    if cmds != [] {
      var before := cmds[..|cmds| - 1];
      ExecAllSparesUnrelated(t, before);
      ExecSparesUnrelated(ExecAll(t, before), cmds[|cmds| - 1]);
    }
  }

  /** The command lists are tame and never append to a chain of their own accord. */
  lemma CmdsAreTame(mode: Mode)
    ensures forall i :: 0 <= i < |Cmds(mode)| ==> Tame(Cmds(mode)[i]) && !Cmds(mode)[i].Append?
  {
    ProxiedAreTame(MASQ_SUBNET, MASQ_ENS5, JUMP, DNS, PROXY_CHAIN);
  }

  lemma ProxiedAreTame(masq: Rule, ens5: Rule, jump: Rule, dns: Rule, chain: seq<Rule>)
    requires forall r <- {masq, ens5, jump, dns} :: r in CONTROLLER_RULES
    ensures var cmds := ProxiedCmds(masq, ens5, jump, dns, chain);
            forall i :: 0 <= i < |cmds| ==> Tame(cmds[i]) && !cmds[i].Append?
  {
  }

  /** On any table, clean or not, no call moves, adds or drops an unrelated rule,
      whichever of its commands fail. */
  lemma {:induction false} UnrelatedKept(t: Table, calls: seq<Call>)
    ensures var u := ApplyCalls(t, calls);
            Unrelated(u.pre) == Unrelated(t.pre) && Unrelated(u.post) == Unrelated(t.post) && u.forward == t.forward
  {
    if calls != [] {
      var before, last := calls[..|calls| - 1], calls[|calls| - 1];
      UnrelatedKept(t, before);
      CallSparesUnrelated(ApplyCalls(t, before), last);
    }
  }

  lemma CallSparesUnrelated(t: Table, call: Call)
    ensures var u := ApplyCall(t, call);
            Unrelated(u.pre) == Unrelated(t.pre) && Unrelated(u.post) == Unrelated(t.post) && u.forward == t.forward
  {
    CmdsAreTame(call.mode);
    ExecAllSparesUnrelated(t, Effective(Cmds(call.mode), call.faults));
  }

  // Failing commands

  ghost predicate Once(t: Table, r: Rule) {
    multiset(t.pre)[r] <= 1 && multiset(t.post)[r] <= 1
  }

  /** A present rule that jumps to WG_PROXY keeps that chain in existence. */
  ghost predicate Linked(t: Table, r: Rule) {
    r in t.pre || r in t.post ==> CanRefer(t, r)
  }

  /** Command i of the call is a check that fails over a present copy of r. */
  predicate DoublesAt(t: Table, call: Call, r: Rule, i: nat) {
    var cmds := Cmds(call.mode);
    && i < |cmds| && i < |call.faults| && call.faults[i] == CheckSkipped
    && cmds[i].Ensure? && cmds[i].rule == r && r in Get(t, cmds[i].chain)
  }

  ghost predicate Doubles(t: Table, call: Call, r: Rule) {
    exists i: nat :: DoublesAt(t, call, r, i)
  }

  function Count(t: Table, c: Chain, r: Rule): nat {
    multiset(Get(t, c))[r]
  }

  lemma ExecCount(t: Table, cmd: Cmd, c: Chain, r: Rule)
    ensures Count(Exec(t, cmd), c, r) == CountAfter(t, cmd, c, r)
  {
    if cmd.Delete? || cmd.Append? || cmd.Ensure? {
      ChainCount(t, cmd, c, r);
    }
  }

  lemma ChainCount(t: Table, cmd: Cmd, c: Chain, r: Rule)
    requires cmd.Delete? || cmd.Append? || cmd.Ensure?
    ensures Count(Exec(t, cmd), c, r) == CountAfter(t, cmd, c, r)
  {
    var rules := Get(t, cmd.chain);
    if cmd.Delete? {
      GetSet(t, cmd.chain, RemoveFirst(rules, cmd.rule), c);
      RemoveCount(rules, cmd.rule, r);
    } else if cmd.Append? {
      GetSet(t, cmd.chain, rules + [cmd.rule], c);
      EnsureCount(rules, cmd.rule, r);
    } else {
      GetSet(t, cmd.chain, AppendIfAbsent(rules, cmd.rule), c);
      EnsureCount(rules, cmd.rule, r);
    }
  }

  function CountAfter(t: Table, cmd: Cmd, c: Chain, r: Rule): nat {
    var n := Count(t, c, r);
    match cmd
    case Delete(d, q) => if d == c && q == r && n > 0 then n - 1 else n
    case Append(d, q) => if d == c && q == r && CanRefer(t, r) then n + 1 else n
    case Ensure(d, q) => if d == c && q == r && CanRefer(t, r) && n == 0 then 1 else n
    case _ => n
  }

  /** A list that never appends unchecked, ensures r in chain c at most once, and does
      not delete what it ensures. */
  ghost predicate Tidy(cmds: seq<Cmd>, c: Chain, r: Rule) {
    && (forall i :: 0 <= i < |cmds| ==> !cmds[i].Append?)
    && (forall i, j :: 0 <= i < |cmds| && 0 <= j < |cmds| && cmds[i] == cmds[j] == Ensure(c, r) ==> i == j)
    && forall i, j :: 0 <= i < |cmds| && 0 <= j < |cmds| && cmds[i] == Ensure(c, r) ==> cmds[j] != Delete(c, r)
  }

  predicate DoubledBy(t: Table, cmds: seq<Cmd>, faults: seq<Fault>, c: Chain, r: Rule, i: nat) {
    i < |cmds| && i < |faults| && faults[i] == CheckSkipped && cmds[i] == Ensure(c, r) && r in Get(t, c)
  }

  /** Whether one of the first k commands ensures r in chain c. */
  predicate Ensured(cmds: seq<Cmd>, c: Chain, r: Rule, k: nat)
    requires k <= |cmds|
  {
    k > 0 && (Ensured(cmds, c, r, k - 1) || cmds[k - 1] == Ensure(c, r))
  }

  /** Whether one of the first k commands is a check that fails over a present r. */
  predicate Doubled(t: Table, cmds: seq<Cmd>, faults: seq<Fault>, c: Chain, r: Rule, k: nat)
    requires k <= |cmds|
  {
    k > 0 && (Doubled(t, cmds, faults, c, r, k - 1) || DoubledBy(t, cmds, faults, c, r, k - 1))
  }

  lemma {:induction false} EnsuredAt(cmds: seq<Cmd>, c: Chain, r: Rule, k: nat)
    requires k <= |cmds|
    ensures Ensured(cmds, c, r, k) <==> exists i :: 0 <= i < k && cmds[i] == Ensure(c, r)
  {
    if k > 0 {
      EnsuredAt(cmds, c, r, k - 1);
    }
  }

  lemma {:induction false} DoubledAt(t: Table, cmds: seq<Cmd>, faults: seq<Fault>, c: Chain, r: Rule, k: nat)
    requires k <= |cmds|
    ensures Doubled(t, cmds, faults, c, r, k) <==> exists i: nat :: i < k && DoubledBy(t, cmds, faults, c, r, i)
    ensures Doubled(t, cmds, faults, c, r, k) ==> Ensured(cmds, c, r, k)
  {
    if k > 0 {
      DoubledAt(t, cmds, faults, c, r, k - 1);
    }
  }

  /** What is known of the copies of r in table u after k commands. Before the one
      command that ensures r they can only be deleted; that command leaves two of them
      if its check fails over a present one, and otherwise at most one. */
  ghost predicate Counted(t: Table, u: Table, cmds: seq<Cmd>, faults: seq<Fault>, c: Chain, r: Rule, k: nat)
    requires k <= |cmds|
  {
    && (t.proxy.Some? ==> u.proxy.Some?)
    && (!Ensured(cmds, c, r, k) ==>
          && Count(u, c, r) <= Count(t, c, r)
          && (Ensure(c, r) in cmds ==> Count(u, c, r) == Count(t, c, r)))
    && (!Doubled(t, cmds, faults, c, r, k) ==> Count(u, c, r) <= 1)
    && (Doubled(t, cmds, faults, c, r, k) && CanRefer(t, r) ==> Count(u, c, r) == 2)
  }

  lemma CountedNext(t: Table, u: Table, cmds: seq<Cmd>, faults: seq<Fault>, c: Chain, r: Rule, k: nat)
    requires Tidy(cmds, c, r) && k < |cmds| && Count(t, c, r) <= 1 && Counted(t, u, cmds, faults, c, r, k)
    ensures Counted(t, Exec(u, Effective(cmds, faults)[k]), cmds, faults, c, r, k + 1)
  {
    var cmd := Effective(cmds, faults)[k];
    ExecCount(u, cmd, c, r);
    DoubledAt(t, cmds, faults, c, r, k);
    EnsuredAt(cmds, c, r, k);
    if cmds[k] == Ensure(c, r) {
      EnsuringCommand(t, u, cmds, faults, c, r, k);
    } else {
      OtherCommand(u, cmds, faults, c, r, k);
    }
  }

  lemma EnsuringCommand(t: Table, u: Table, cmds: seq<Cmd>, faults: seq<Fault>, c: Chain, r: Rule, k: nat)
    requires k < |cmds| && cmds[k] == Ensure(c, r)
    requires Count(u, c, r) == Count(t, c, r) <= 1 && (t.proxy.Some? ==> u.proxy.Some?)
    ensures var n := CountAfter(u, Effective(cmds, faults)[k], c, r);
            if DoubledBy(t, cmds, faults, c, r, k) then CanRefer(t, r) ==> n == 2 else n <= 1
  {
    assert r in Get(t, c) <==> Count(t, c, r) == 1;
  }

  lemma OtherCommand(u: Table, cmds: seq<Cmd>, faults: seq<Fault>, c: Chain, r: Rule, k: nat)
    requires Tidy(cmds, c, r) && k < |cmds| && cmds[k] != Ensure(c, r)
    ensures var n := CountAfter(u, Effective(cmds, faults)[k], c, r);
            n <= Count(u, c, r) && (Ensure(c, r) in cmds ==> n == Count(u, c, r))
  {
  }

  lemma {:induction false} CountPrefix(t: Table, cmds: seq<Cmd>, faults: seq<Fault>, c: Chain, r: Rule, k: nat)
    requires Tidy(cmds, c, r) && k <= |cmds| && Count(t, c, r) <= 1
    ensures Counted(t, ExecAll(t, Effective(cmds, faults)[..k]), cmds, faults, c, r, k)
  {
    if k > 0 {
      var done := Effective(cmds, faults);
      CountPrefix(t, cmds, faults, c, r, k - 1);
      assert done[..k][..k - 1] == done[..k - 1];
      CountedNext(t, ExecAll(t, done[..k - 1]), cmds, faults, c, r, k - 1);
    }
  }

  /** The count in one chain after a whole list. */
  lemma CountAll(t: Table, cmds: seq<Cmd>, faults: seq<Fault>, c: Chain, r: Rule)
    requires Tidy(cmds, c, r) && Count(t, c, r) <= 1
    ensures var n := Count(ExecAll(t, Effective(cmds, faults)), c, r);
            if exists i: nat :: DoubledBy(t, cmds, faults, c, r, i) then CanRefer(t, r) ==> n == 2 else n <= 1
  {
    assert Effective(cmds, faults)[..|cmds|] == Effective(cmds, faults);
    CountPrefix(t, cmds, faults, c, r, |cmds|);
    DoubledAt(t, cmds, faults, c, r, |cmds|);
  }

  lemma CmdsAreTidy(mode: Mode, c: Chain, r: Rule)
    ensures Tidy(Cmds(mode), c, r)
  {
    ProxiedAreTidy(MASQ_SUBNET, MASQ_ENS5, JUMP, DNS, PROXY_CHAIN, c, r);
  }

  lemma ProxiedAreTidy(masq: Rule, ens5: Rule, jump: Rule, dns: Rule, chain: seq<Rule>, c: Chain, r: Rule)
    requires masq != ens5 && jump != dns
    ensures Tidy(ProxiedCmds(masq, ens5, jump, dns, chain), c, r)
  {
  }

  /** The exact cause of duplicates: of a rule that is there at most once, a call makes a
      second copy if and only if one of its checks fails over a present one. */
  lemma CallDoublesExactly(t: Table, call: Call, r: Rule)
    requires Once(t, r)
    ensures !Doubles(t, call, r) ==> Once(ApplyCall(t, call), r)
    ensures Linked(t, r) ==> (Once(ApplyCall(t, call), r) <==> !Doubles(t, call, r))
  {
    CmdsAreTidy(call.mode, Pre, r);
    CmdsAreTidy(call.mode, Post, r);
    CountAll(t, Cmds(call.mode), call.faults, Pre, r);
    CountAll(t, Cmds(call.mode), call.faults, Post, r);
    DoublesInChain(t, call, r);
  }

  lemma DoublesInChain(t: Table, call: Call, r: Rule)
    ensures forall i: nat ::
              DoublesAt(t, call, r, i) <==>
              || DoubledBy(t, Cmds(call.mode), call.faults, Pre, r, i)
              || DoubledBy(t, Cmds(call.mode), call.faults, Post, r, i)
  {
    CmdsAreTame(call.mode);
  }

  lemma ExecKeepsLinked(t: Table, cmd: Cmd, r: Rule)
    requires Linked(t, r)
    ensures Linked(Exec(t, cmd), r)
  {
    if cmd.Delete? {
      RemoveFirstMember(Get(t, cmd.chain), cmd.rule, r);
    }
  }

  lemma {:induction false} ExecAllKeepsLinked(t: Table, cmds: seq<Cmd>, r: Rule)
    requires Linked(t, r)
    ensures Linked(ExecAll(t, cmds), r)
  {
    if cmds != [] {
      ExecAllKeepsLinked(t, cmds[..|cmds| - 1], r);
      ExecKeepsLinked(ExecAll(t, cmds[..|cmds| - 1]), cmds[|cmds| - 1], r);
    }
  }

  /** No check in the history fails over a present copy of r. */
  ghost predicate NeverDoubled(t: Table, calls: seq<Call>, r: Rule) {
    if calls == [] then true
    else
      var before := calls[..|calls| - 1];
      NeverDoubled(t, before, r) && !Doubles(ApplyCalls(t, before), calls[|calls| - 1], r)
  }

  /** At first and after every call r is there at most once. */
  ghost predicate AlwaysOnce(t: Table, calls: seq<Call>, r: Rule) {
    Once(ApplyCalls(t, calls), r) && (calls == [] || AlwaysOnce(t, calls[..|calls| - 1], r))
  }

  /** Whichever commands fail, a rule that was there at most once is there at most once
      after every call of a history exactly if no check fails over a present copy. */
  lemma {:induction false} NoDuplicates(t: Table, calls: seq<Call>, r: Rule)
    requires Once(t, r)
    ensures NeverDoubled(t, calls, r) ==> AlwaysOnce(t, calls, r) && Once(ApplyCalls(t, calls), r)
    ensures Linked(t, r) ==> Linked(ApplyCalls(t, calls), r) && (AlwaysOnce(t, calls, r) <==> NeverDoubled(t, calls, r))
  {
    if calls != [] {
      var before, last := calls[..|calls| - 1], calls[|calls| - 1];
      var mid := ApplyCalls(t, before);
      NoDuplicates(t, before, r);
      if Linked(t, r) {
        ExecAllKeepsLinked(mid, Effective(Cmds(last.mode), last.faults), r);
      }
      if Once(mid, r) {
        CallDoublesExactly(mid, last, r);
      }
    }
  }

  /** A check that fails over a present rule duplicates it, and direct mode then leaves
      the jump to WG_PROXY in place. */
  lemma CheckFaultLeavesJump(t: Table)
    requires t.pre == [JUMP]
    ensures var faults := seq(3 + |PROXY_CHAIN|, _ => Fine) + [CheckSkipped];
            && ApplyCall(t, Call(MODE_PROXIED, faults)).pre == [JUMP, JUMP, DNS]
            && ApplyCalls(t, [Call(MODE_PROXIED, faults), Call(MODE_DIRECT, [])]).pre == [JUMP]
  {
    var faults := seq(3 + |PROXY_CHAIN|, _ => Fine) + [CheckSkipped];
    var proxied, direct := Call(MODE_PROXIED, faults), Call(MODE_DIRECT, []);
    var u := ApplyCall(t, proxied);
    assert u.pre == [JUMP, JUMP, DNS] by {
      CheckFaultEffect(t, MASQ_SUBNET, MASQ_ENS5, JUMP, DNS, PROXY_CHAIN);
    }
    NoFaults(direct.mode);
    DirectEffect(u, direct.mode);
    assert [proxied, direct][..1] == [proxied] && [proxied][..0] == [];
    assert ApplyCalls(t, [proxied]) == u;
    JumpLeft(u.pre, JUMP, DNS);
  }

  lemma JumpLeft(rules: seq<Rule>, jump: Rule, dns: Rule)
    requires rules == [jump, jump, dns] && jump != dns
    ensures RemoveFirst(RemoveFirst(rules, jump), dns) == [jump]
  {
    assert rules[1..] == [jump] + [dns];
    RemoveLast([jump], dns);
  }

  lemma CheckFaultEffect(t: Table, masq: Rule, ens5: Rule, jump: Rule, dns: Rule, chain: seq<Rule>)
    requires jump != dns && t.pre == [jump]
    ensures var faults := seq(3 + |chain|, _ => Fine) + [CheckSkipped];
            ExecAll(t, Effective(ProxiedCmds(masq, ens5, jump, dns, chain), faults)).pre == [jump, jump, dns]
  {
    var faults := seq(3 + |chain|, _ => Fine) + [CheckSkipped];
    var tail := [Append(Pre, jump), Ensure(Pre, dns), Ensure(Post, ens5), External, External];
    assert Effective(ProxiedCmds(masq, ens5, jump, dns, chain), faults)
           == [Delete(Post, masq), FlushProxy, CreateProxy] + Appends(chain) + tail;
    ExecRebuilt(t, masq, chain, tail);
    ExecFive(Rebuilt(t, masq, chain), tail);
  }

  lemma NoFaults(mode: Mode)
    ensures forall t :: ApplyCall(t, Call(mode, [])) == Apply(t, mode)
  {
    assert Effective(Cmds(mode), []) == Cmds(mode);
  }

  function Faultless(modes: seq<Mode>): seq<Call> {
    seq(|modes|, i requires 0 <= i < |modes| => Call(modes[i], []))
  }

  /** Calls of which no command fails are the mode sequences of the results above. */
  lemma {:induction false} FaultlessCalls(t: Table, modes: seq<Mode>)
    ensures ApplyCalls(t, Faultless(modes)) == ApplyAll(t, modes)
  {
    if modes != [] {
      var before := modes[..|modes| - 1];
      FaultlessCalls(t, before);
      NoFaults(modes[|modes| - 1]);
      assert Faultless(modes)[..|modes| - 1] == Faultless(before);
    }
  }

  /** Direct mode clears PREROUTING of the controller's rules exactly when each was
      there at most once. */
  lemma DirectClearsExactly(t: Table, mode: Mode)
    requires mode != MODE_PROXIED
    ensures JUMP !in Apply(t, mode).pre && DNS !in Apply(t, mode).pre
            <==> multiset(t.pre)[JUMP] <= 1 && multiset(t.pre)[DNS] <= 1
  {
    DirectEffect(t, mode);
    RemoveFirstMember(t.pre, JUMP, JUMP);
    RemoveFirstMember(RemoveFirst(t.pre, JUMP), DNS, JUMP);
    RemoveFirstMember(RemoveFirst(t.pre, JUMP), DNS, DNS);
    RemoveFirstBag(t.pre, JUMP);
  }

  /** The controller's rules are where the mode wants them, each as often as it wants. */
  predicate InPlace(t: Table, mode: Mode) {
    if mode == MODE_PROXIED then
      && t.proxy == Some(PROXY_CHAIN) && MASQ_SUBNET !in t.post && Count(t, Post, MASQ_ENS5) == 1
      && Count(t, Pre, JUMP) == 1 && Count(t, Pre, DNS) == 1
    else JUMP !in t.pre && DNS !in t.pre && Count(t, Post, MASQ_SUBNET) == 1
  }

  /** Nothing that a call in this mode deletes or ensures is there twice. */
  predicate Healable(t: Table, mode: Mode) {
    && Count(t, Pre, JUMP) <= 1 && Count(t, Pre, DNS) <= 1 && Count(t, Post, MASQ_SUBNET) <= 1
    && (mode == MODE_PROXIED ==> Count(t, Post, MASQ_ENS5) <= 1)
  }

  lemma ProxiedHealsExactly(t: Table)
    ensures InPlace(Apply(t, MODE_PROXIED), MODE_PROXIED) <==> Healable(t, MODE_PROXIED)
  {
    var post := RemoveFirst(t.post, MASQ_SUBNET);
    ProxiedEffect(t);
    RemoveCount(t.post, MASQ_SUBNET, MASQ_SUBNET);
    RemoveCount(t.post, MASQ_SUBNET, MASQ_ENS5);
    EnsureCount(post, MASQ_ENS5, MASQ_ENS5);
    EnsureCount(t.pre, JUMP, JUMP);
    EnsureCount(t.pre, JUMP, DNS);
    EnsureCount(AppendIfAbsent(t.pre, JUMP), DNS, JUMP);
    EnsureCount(AppendIfAbsent(t.pre, JUMP), DNS, DNS);
    assert MASQ_SUBNET in AppendIfAbsent(post, MASQ_ENS5) <==> MASQ_SUBNET in post;
  }

  lemma DirectHealsExactly(t: Table, mode: Mode)
    requires mode != MODE_PROXIED
    ensures InPlace(Apply(t, mode), mode) <==> Healable(t, mode)
  {
    DirectEffect(t, mode);
    DirectClearsExactly(t, mode);
  }

  /** After any history of calls on any tables, whatever failed in them, one call
      without failures leaves the unrelated rules as they were at first, and puts the
      controller's rules in place exactly when none of them was left there twice. */
  lemma RecoversExactly(t: Table, calls: seq<Call>, mode: Mode)
    ensures var u := Apply(ApplyCalls(t, calls), mode);
            && Unrelated(u.pre) == Unrelated(t.pre) && Unrelated(u.post) == Unrelated(t.post)
            && u.forward == t.forward
            && (InPlace(u, mode) <==> Healable(ApplyCalls(t, calls), mode))
  {
    var mid := ApplyCalls(t, calls);
    UnrelatedKept(t, calls);
    NoFaults(mode);
    CallSparesUnrelated(mid, Call(mode, []));
    if mode == MODE_PROXIED {
      ProxiedHealsExactly(mid);
    } else {
      DirectHealsExactly(mid, mode);
    }
  }

  /** In particular it does so from tables without controller rules after any history in
      which no check failed over a present rule, whatever else failed. */
  lemma RecoversFromSkips(t: Table, calls: seq<Call>, mode: Mode)
    requires Clean(t) && forall r <- CONTROLLER_RULES :: NeverDoubled(t, calls, r)
    ensures InPlace(Apply(ApplyCalls(t, calls), mode), mode)
  {
    forall r <- CONTROLLER_RULES
      ensures Once(ApplyCalls(t, calls), r)
    {
      NoDuplicates(t, calls, r);
    }
    assert Once(ApplyCalls(t, calls), JUMP) && Once(ApplyCalls(t, calls), DNS);
    assert Once(ApplyCalls(t, calls), MASQ_SUBNET) && Once(ApplyCalls(t, calls), MASQ_ENS5);
    RecoversExactly(t, calls, mode);
  }

  // Packets

  /** The eight ranges as intervals of 32-bit addresses. */
  predicate Private(a: nat) {
    || a < OCTET
    || 10 * OCTET <= a < 11 * OCTET
    || 127 * OCTET <= a < 128 * OCTET
    || 169 * OCTET + 254 * 0x1_0000 <= a < 169 * OCTET + 255 * 0x1_0000
    || 172 * OCTET + 16 * 0x1_0000 <= a < 172 * OCTET + 32 * 0x1_0000
    || 192 * OCTET + 168 * 0x1_0000 <= a < 192 * OCTET + 169 * 0x1_0000
    || 224 * OCTET <= a
  }

  lemma Powers()
    ensures Pow2(8) == 256 && Pow2(16) == 0x1_0000 && Pow2(20) == 0x10_0000
    ensures Pow2(24) == OCTET && Pow2(28) == 0x1000_0000
  {
    assert Pow2(4) == 16;
    assert Pow2(8) == 256;
    assert Pow2(12) == 0x1000;
    assert Pow2(16) == 0x1_0000;
    assert Pow2(20) == 0x10_0000;
    assert Pow2(24) == OCTET;
  }

  lemma RangeIs(a: nat, p: Prefix, bits: MaskLength, net: nat, size: nat)
    requires p == Prefix(net, bits)
    requires (bits == 8 && size == OCTET) || (bits == 16 && size == 0x1_0000) || (bits == 24 && size == 256)
             || (bits == 12 && size == 0x10_0000) || (bits == 4 && size == 0x1000_0000)
    requires net % size == 0
    ensures InPrefix(a, p) <==> net <= a < net + size
  {
    Powers();
    PrefixBlock(a, net, bits);
  }

  lemma PrivateRanges(a: nat)
    requires a < 256 * OCTET
    ensures Private(a) <==> exists i :: 0 <= i < |PRIVATE_RANGES| && InPrefix(a, PRIVATE_RANGES[i])
  {
    EightRanges(a, PRIVATE_RANGES);
  }

  lemma EightRanges(a: nat, r: seq<Prefix>)
    requires a < 256 * OCTET && |r| == 8
    requires r[0] == Prefix(0, 8) && r[1] == Prefix(10 * OCTET, 8) && r[2] == Prefix(127 * OCTET, 8)
    requires r[3] == Prefix(169 * OCTET + 254 * 0x1_0000, 16) && r[4] == Prefix(172 * OCTET + 16 * 0x1_0000, 12)
    requires r[5] == Prefix(192 * OCTET + 168 * 0x1_0000, 16)
    requires r[6] == Prefix(224 * OCTET, 4) && r[7] == Prefix(240 * OCTET, 4)
    ensures Private(a) <==> exists i :: 0 <= i < |r| && InPrefix(a, r[i])
  {
    LowRanges(a, r);
    HighRanges(a, r);
    AnyOfEight(r, p => InPrefix(a, p));
  }

  lemma AnyOfEight<T>(s: seq<T>, p: T -> bool)
    requires |s| == 8
    ensures (exists i :: 0 <= i < |s| && p(s[i]))
            <==> p(s[0]) || p(s[1]) || p(s[2]) || p(s[3]) || p(s[4]) || p(s[5]) || p(s[6]) || p(s[7])
  {
  }

  lemma LowRanges(a: nat, r: seq<Prefix>)
    requires |r| == 8
    requires r[0] == Prefix(0, 8) && r[1] == Prefix(10 * OCTET, 8) && r[2] == Prefix(127 * OCTET, 8)
    requires r[3] == Prefix(169 * OCTET + 254 * 0x1_0000, 16)
    ensures InPrefix(a, r[0]) <==> a < OCTET
    ensures InPrefix(a, r[1]) <==> 10 * OCTET <= a < 11 * OCTET
    ensures InPrefix(a, r[2]) <==> 127 * OCTET <= a < 128 * OCTET
    ensures InPrefix(a, r[3]) <==> 169 * OCTET + 254 * 0x1_0000 <= a < 169 * OCTET + 255 * 0x1_0000
  {
    RangeIs(a, r[0], 8, 0, OCTET);
    RangeIs(a, r[1], 8, 10 * OCTET, OCTET);
    RangeIs(a, r[2], 8, 127 * OCTET, OCTET);
    RangeIs(a, r[3], 16, 169 * OCTET + 254 * 0x1_0000, 0x1_0000);
  }

  lemma HighRanges(a: nat, r: seq<Prefix>)
    requires a < 256 * OCTET && |r| == 8
    requires r[4] == Prefix(172 * OCTET + 16 * 0x1_0000, 12) && r[5] == Prefix(192 * OCTET + 168 * 0x1_0000, 16)
    requires r[6] == Prefix(224 * OCTET, 4) && r[7] == Prefix(240 * OCTET, 4)
    ensures InPrefix(a, r[4]) <==> 172 * OCTET + 16 * 0x1_0000 <= a < 172 * OCTET + 32 * 0x1_0000
    ensures InPrefix(a, r[5]) <==> 192 * OCTET + 168 * 0x1_0000 <= a < 192 * OCTET + 169 * 0x1_0000
    ensures InPrefix(a, r[6]) || InPrefix(a, r[7]) <==> 224 * OCTET <= a
  {
    RangeIs(a, r[4], 12, 172 * OCTET + 16 * 0x1_0000, 0x10_0000);
    RangeIs(a, r[5], 16, 192 * OCTET + 168 * 0x1_0000, 0x1_0000);
    RangeIs(a, r[6], 4, 224 * OCTET, 0x1000_0000);
    RangeIs(a, r[7], 4, 240 * OCTET, 0x1000_0000);
  }

  lemma ProxyChainVerdict(p: Packet)
    requires p.dst < 256 * OCTET && p.proto == Tcp
    ensures Walk(PROXY_CHAIN, [], p) == if Private(p.dst) then Back else Decided(Redirect(12345))
  {
    PrivateRanges(p.dst);
    WalkSkips(PRIVATE_RANGES, [REDIRECT], p);
    WalkOne(REDIRECT, p);
  }

  lemma WalkOne(r: Rule, p: Packet)
    requires !r.target.JumpProxy? && !r.target.Return?
    ensures Walk([r], [], p) == if Matches(r.when, p) then Decided(r.target) else Fall
  {
  }

  lemma WalkJump(jump: Rule, other: Rule, sub: seq<Rule>, p: Packet)
    requires jump.target.JumpProxy? && !other.target.JumpProxy? && !other.target.Return?
    ensures var v := Walk(sub, [], p);
            Walk([jump, other], sub, p) ==
            if Matches(jump.when, p) && v.Decided? then v
            else if Matches(other.when, p) then Decided(other.target) else Fall
  {
    var rules := [jump, other];
    assert rules[1..] == [other] && [other][1..] == [];
    assert Walk([other], sub, p) == if Matches(other.when, p) then Decided(other.target) else Fall;
    assert Walk(sub, [], p) == Walk(sub, [], p);
  }

  /** What the nat PREROUTING chain decides for a packet. */
  function Prerouting(t: Table, p: Packet): Verdict {
    Walk(t.pre, if t.proxy.Some? then t.proxy.value else [], p)
  }

  /** After any history ending in proxied mode, a packet no unrelated rule decides is
      redirected exactly when it is TCP from the VPN interface to an address outside
      the eight ranges, and rewritten to the resolver exactly when it is DNS over UDP. */
  lemma {:induction false} ProxiedVerdict(t: Table, modes: seq<Mode>, p: Packet)
    requires Clean(t) && modes != [] && modes[|modes| - 1] == MODE_PROXIED
    requires p.dst < 256 * OCTET
    requires Walk(t.pre, PROXY_CHAIN, p) == Fall
    ensures Prerouting(ApplyAll(t, modes), p) ==
            if p.inIf != "wg-server" then Fall
            else if p.proto == Tcp && !Private(p.dst) then Decided(Redirect(12345))
            else if p.proto == Udp && p.dport == 53 then Decided(Dnat(0x0101_0101, 53))
            else Fall
  {
    HistoryIndependent(t, modes);
    WalkConcat(t.pre, [JUMP, DNS], PROXY_CHAIN, p);
    WalkJump(JUMP, DNS, PROXY_CHAIN, p);
    if p.proto == Tcp {
      ProxyChainVerdict(p);
    }
  }

  /** An address of the VPN's network, 10.100.0.0 to 10.100.0.255. */
  predicate FromVpn(a: nat) {
    10 * OCTET + 100 * 0x1_0000 <= a < 10 * OCTET + 100 * 0x1_0000 + 256
  }

  /** After any history a packet that no unrelated rule decides is masqueraded exactly if
      it leaves by ens5 and proxied mode was ever entered, or comes from the VPN's network
      and the mode is direct. */
  lemma PostroutingVerdict(t: Table, modes: seq<Mode>, p: Packet)
    requires Clean(t) && modes != [] && Walk(t.post, [], p) == Fall
    ensures Walk(ApplyAll(t, modes).post, [], p) ==
            if (p.outIf == "ens5" && MODE_PROXIED in modes) || (FromVpn(p.src) && modes[|modes| - 1] != MODE_PROXIED)
            then Decided(Masquerade) else Fall
  {
    PostAfter(t, modes);
    MasqueradesMatch(p);
    var ever, direct := MODE_PROXIED in modes, modes[|modes| - 1] != MODE_PROXIED;
    TwoMasquerades(t.post, MASQ_ENS5, ever, MASQ_SUBNET, direct, p);
  }

  lemma PostAfter(t: Table, modes: seq<Mode>)
    requires Clean(t) && modes != []
    ensures ApplyAll(t, modes).post ==
            t.post + (if MODE_PROXIED in modes then [MASQ_ENS5] else [])
                   + (if modes[|modes| - 1] != MODE_PROXIED then [MASQ_SUBNET] else [])
  {
    HistoryIndependent(t, modes);
    if modes[|modes| - 1] == MODE_PROXIED {
      assert t.post + [MASQ_ENS5] + [] == t.post + [MASQ_ENS5];
    }
  }

  lemma MasqueradesMatch(p: Packet)
    ensures Matches(MASQ_ENS5.when, p) <==> p.outIf == "ens5"
    ensures Matches(MASQ_SUBNET.when, p) <==> FromVpn(p.src)
  {
    RangeIs(p.src, MASQ_SUBNET.when.src, 24, 10 * OCTET + 100 * 0x1_0000, 256);
  }

  lemma TwoMasquerades(rules: seq<Rule>, q: Rule, qThere: bool, r: Rule, rThere: bool, p: Packet)
    requires q.target == r.target == Masquerade && Walk(rules, [], p) == Fall
    ensures Walk(rules + (if qThere then [q] else []) + (if rThere then [r] else []), [], p) ==
            if (qThere && Matches(q.when, p)) || (rThere && Matches(r.when, p)) then Decided(Masquerade) else Fall
  {
    var first := if qThere then [q] else [];
    WalkOne(q, p);
    WalkOne(r, p);
    WalkConcat(rules, first, [], p);
    WalkConcat(rules + first, if rThere then [r] else [], [], p);
  }

  /** After any history ending in direct mode nothing reaches WG_PROXY: whatever that
      chain held, PREROUTING decides as the unrelated rules alone do. */
  lemma DirectVerdict(t: Table, modes: seq<Mode>, sub: seq<Rule>, p: Packet)
    requires Clean(t) && modes != [] && modes[|modes| - 1] != MODE_PROXIED
    requires forall r <- t.pre :: !r.target.JumpProxy?
    ensures Walk(ApplyAll(t, modes).pre, sub, p) == Prerouting(ApplyAll(t, modes), p) == Walk(t.pre, [], p)
  {
    HistoryIndependent(t, modes);
    WalkIgnoresSub(t.pre, sub, p);
  }
}
