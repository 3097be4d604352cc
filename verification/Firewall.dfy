/** The kernel's rule tables: the commands the program issues on them and
    first-match evaluation of a packet. */
module Firewall {
  import opened Options
  import opened Counting

  type MaskLength = n: nat | n <= 32

  datatype Prefix = AnyAddr | Prefix(net: nat, bits: MaskLength)
  datatype Proto = AnyProto | Tcp | Udp
  datatype Port = AnyPort | Port(number: nat)
  datatype Iface = AnyIface | Iface(name: string)

  datatype Match = Match(src: Prefix, dst: Prefix, inIf: Iface, outIf: Iface, proto: Proto, dport: Port,
                         establishedOnly: bool)

  const ANYTHING := Match(AnyAddr, AnyAddr, AnyIface, AnyIface, AnyProto, AnyPort, false)

  datatype Target = Accept | Return | Masquerade | JumpProxy | Redirect(port: nat) | Dnat(addr: nat, port: nat)
                  | OtherTarget(id: nat)

  datatype Rule = Rule(when: Match, target: Target)

  /** The nat chains PREROUTING, POSTROUTING and WG_PROXY (which may not exist) and
      the filter chain FORWARD. */
  datatype Table = Table(pre: seq<Rule>, post: seq<Rule>, forward: seq<Rule>, proxy: Option<seq<Rule>>)

  datatype Chain = Pre | Post | Forward

  /** -D, -F, -N and -A; `Ensure` is the "-C ... || -A ..." idiom and `External`
      a command that leaves the tables alone. */
  datatype Cmd = Delete(chain: Chain, rule: Rule) | Append(chain: Chain, rule: Rule) | Ensure(chain: Chain, rule: Rule)
               | FlushProxy | CreateProxy | AppendProxy(rule: Rule) | External

  function RemoveFirst(rules: seq<Rule>, r: Rule): seq<Rule> {
    if rules == [] then [] else if rules[0] == r then rules[1..] else [rules[0]] + RemoveFirst(rules[1..], r)
  }

  lemma {:induction false} RemoveFirstBag(rules: seq<Rule>, r: Rule)
    ensures multiset(RemoveFirst(rules, r)) == multiset(rules) - multiset{r}
  {
    if rules != [] {
      assert rules == [rules[0]] + rules[1..];
      if rules[0] != r {
        RemoveFirstBag(rules[1..], r);
      }
    }
  }

  lemma {:induction false} RemoveFirstChanges(rules: seq<Rule>, r: Rule)
    ensures |RemoveFirst(rules, r)| == if r in rules then |rules| - 1 else |rules|
    ensures RemoveFirst(rules, r) == rules <==> r !in rules
  {
    if rules != [] {
      assert rules == [rules[0]] + rules[1..];
      RemoveFirstChanges(rules[1..], r);
    }
  }

  /** Which rules are left after deleting the first copy of r. */
  lemma RemoveFirstMember(rules: seq<Rule>, r: Rule, q: Rule)
    ensures q in RemoveFirst(rules, r) <==> if q == r then multiset(rules)[r] > 1 else q in rules
  {
    RemoveFirstBag(rules, r);
    assert q in rules <==> multiset(rules)[q] > 0;
    assert q in RemoveFirst(rules, r) <==> multiset(RemoveFirst(rules, r))[q] > 0;
  }

  lemma {:induction false} RemoveFromTail(a: seq<Rule>, b: seq<Rule>, r: Rule)
    requires r !in a
    ensures RemoveFirst(a + b, r) == a + RemoveFirst(b, r)
  {
    if a == [] {
      assert a + b == b;
    } else {
      assert (a + b)[1..] == a[1..] + b;
      RemoveFromTail(a[1..], b, r);
    }
  }

  lemma RemoveLast(a: seq<Rule>, r: Rule)
    requires r !in a
    ensures RemoveFirst(a + [r], r) == a
  {
    RemoveFromTail(a, [r], r);
    assert RemoveFirst([r], r) == [];
  }

  function AppendIfAbsent(rules: seq<Rule>, r: Rule): seq<Rule> {
    if r in rules then rules else rules + [r]
  }

  lemma EnsureCount(rules: seq<Rule>, q: Rule, r: Rule)
    ensures multiset(rules + [q])[r] == multiset(rules)[r] + if q == r then 1 else 0
    ensures var n := multiset(rules)[r]; multiset(AppendIfAbsent(rules, q))[r] == if q == r && n == 0 then 1 else n
  {
  }

  lemma RemoveCount(rules: seq<Rule>, q: Rule, r: Rule)
    ensures var n := multiset(rules)[r]; multiset(RemoveFirst(rules, q))[r] == if q == r && n > 0 then n - 1 else n
  {
    RemoveFirstBag(rules, q);
  }

  function Get(t: Table, c: Chain): seq<Rule> {
    match c case Pre => t.pre case Post => t.post case Forward => t.forward
  }

  function Set(t: Table, c: Chain, rules: seq<Rule>): Table {
    match c case Pre => t.(pre := rules) case Post => t.(post := rules) case Forward => t.(forward := rules)
  }

  lemma GetSet(t: Table, d: Chain, rules: seq<Rule>, c: Chain)
    ensures Get(Set(t, d, rules), c) == if c == d then rules else Get(t, c)
  {
  }

  /** A rule can jump to WG_PROXY only while that chain exists. */
  predicate CanRefer(t: Table, r: Rule) {
    r.target.JumpProxy? ==> t.proxy.Some?
  }

  /** The effect of one command; a command that fails changes nothing. */
  function Exec(t: Table, cmd: Cmd): Table {
    match cmd
    case Delete(c, r) => Set(t, c, RemoveFirst(Get(t, c), r))
    case Append(c, r) => if CanRefer(t, r) then Set(t, c, Get(t, c) + [r]) else t
    case Ensure(c, r) => if CanRefer(t, r) then Set(t, c, AppendIfAbsent(Get(t, c), r)) else t
    case FlushProxy => if t.proxy.Some? then t.(proxy := Some([])) else t
    case CreateProxy => if t.proxy.None? then t.(proxy := Some([])) else t
    case AppendProxy(r) => if t.proxy.Some? then t.(proxy := Some(t.proxy.value + [r])) else t
    case External => t
  }

  function ExecAll(t: Table, cmds: seq<Cmd>): Table {
    if cmds == [] then t else Exec(ExecAll(t, cmds[..|cmds| - 1]), cmds[|cmds| - 1])
  }

  lemma {:induction false} ExecConcat(t: Table, a: seq<Cmd>, b: seq<Cmd>)
    ensures ExecAll(t, a + b) == ExecAll(ExecAll(t, a), b)
  {
    if b == [] {
      assert a + b == a;
    } else {
      var b' := b[..|b| - 1];
      ExecConcat(t, a, b');
      assert (a + b)[..|a + b| - 1] == a + b';
      assert (a + b)[|a + b| - 1] == b[|b| - 1];
    }
  }

  function Appends(rules: seq<Rule>): seq<Cmd> {
    seq(|rules|, i requires 0 <= i < |rules| => AppendProxy(rules[i]))
  }

  lemma {:induction false} ExecAppends(t: Table, rules: seq<Rule>)
    requires t.proxy.Some?
    ensures ExecAll(t, Appends(rules)) == t.(proxy := Some(t.proxy.value + rules))
  {
    if rules == [] {
      assert t.proxy.value + rules == t.proxy.value;
    } else {
      var init := rules[..|rules| - 1];
      ExecAppends(t, init);
      assert Appends(rules)[..|rules| - 1] == Appends(init);
      assert t.proxy.value + init + [rules[|rules| - 1]] == t.proxy.value + rules;
    }
  }

  /** How a command fails for a reason outside the tables, such as a held lock: all of
      it, or only the check of a "-C ... || -A ...", which then appends. */
  datatype Fault = Fine | Skipped | CheckSkipped

  /** The command that has the same effect as this one failing in this way. */
  function Faulted(cmd: Cmd, fault: Fault): Cmd {
    match fault
    case Fine => cmd
    case Skipped => External
    case CheckSkipped => if cmd.Ensure? then Append(cmd.chain, cmd.rule) else cmd
  }

  /** The commands as they take effect; those beyond `faults` do not fail. */
  function Effective(cmds: seq<Cmd>, faults: seq<Fault>): seq<Cmd> {
    seq(|cmds|, i requires 0 <= i < |cmds| => if i < |faults| then Faulted(cmds[i], faults[i]) else cmds[i])
  }

  /** The tables as one mutable object; `Run` is the command loop, which logs and
      then ignores every failure. */
  class Kernel {
    var table: Table

    constructor (t: Table)
      ensures table == t
    {
      table := t;
    }

    method Run(cmds: seq<Cmd>, faults: seq<Fault>)
      modifies this
      ensures table == ExecAll(old(table), Effective(cmds, faults))
    {
      ghost var done := Effective(cmds, faults);
      for i := 0 to |cmds|
        invariant table == ExecAll(old(table), done[..i])
      {
        assert done[..i + 1][..i] == done[..i];
        table := Exec(table, if i < |faults| then Faulted(cmds[i], faults[i]) else cmds[i]);
      }
      assert done[..|cmds|] == done;
    }
  }

  // Packets

  /** `outIf` is empty where routing has not chosen an interface yet. */
  datatype Packet = Packet(src: nat, dst: nat, inIf: string, outIf: string, proto: Proto, dport: nat,
                           established: bool)

  function Pow2(n: nat): (p: nat)
    ensures p > 0
  {
    if n == 0 then 1 else 2 * Pow2(n - 1)
  }

  predicate InPrefix(addr: nat, p: Prefix) {
    p.AnyAddr? || addr / Pow2(32 - p.bits) == p.net / Pow2(32 - p.bits)
  }

  predicate Matches(m: Match, p: Packet) {
    && InPrefix(p.src, m.src)
    && InPrefix(p.dst, m.dst)
    && (m.inIf.AnyIface? || m.inIf.name == p.inIf)
    && (m.outIf.AnyIface? || m.outIf.name == p.outIf)
    && (m.proto.AnyProto? || m.proto == p.proto)
    && (m.dport.AnyPort? || m.dport.number == p.dport)
    && (m.establishedOnly ==> p.established)
  }

  /** `Fall`: no rule decided; `Back`: a RETURN was hit; otherwise the terminal target. */
  datatype Verdict = Fall | Back | Decided(target: Target)

  /** First-match evaluation of a chain, with `sub` as the contents of WG_PROXY. A
      sub-chain that returns or is exhausted resumes its caller. */
  function Walk(rules: seq<Rule>, sub: seq<Rule>, p: Packet): Verdict
    decreases |sub|, |rules|
  {
    if rules == [] then Fall
    else if !Matches(rules[0].when, p) then Walk(rules[1..], sub, p)
    else match rules[0].target
      case Return => Back
      case JumpProxy =>
        var v := Walk(sub, [], p);
        if v.Decided? then v else Walk(rules[1..], sub, p)
      case t => Decided(t)
  }

  lemma {:induction false} WalkConcat(a: seq<Rule>, b: seq<Rule>, sub: seq<Rule>, p: Packet)
    ensures Walk(a + b, sub, p) == if Walk(a, sub, p).Fall? then Walk(b, sub, p) else Walk(a, sub, p)
  {
    if a == [] {
      assert a + b == b;
    } else {
      assert (a + b)[0] == a[0] && (a + b)[1..] == a[1..] + b;
      WalkConcat(a[1..], b, sub, p);
    }
  }

  function Skips(ranges: seq<Prefix>): seq<Rule> {
    seq(|ranges|, i requires 0 <= i < |ranges| => Rule(ANYTHING.(dst := ranges[i]), Return))
  }

  lemma {:induction false} WalkSkips(ranges: seq<Prefix>, last: seq<Rule>, p: Packet)
    ensures Walk(Skips(ranges) + last, [], p) ==
            if exists i :: 0 <= i < |ranges| && InPrefix(p.dst, ranges[i]) then Back else Walk(last, [], p)
  {
    if ranges == [] {
      assert Skips(ranges) + last == last;
    } else {
      var rules := Skips(ranges) + last;
      assert rules[1..] == Skips(ranges[1..]) + last;
      WalkSkips(ranges[1..], last, p);
      assert forall i :: 0 < i < |ranges| ==> ranges[i] == ranges[1..][i - 1];
      assert Matches(rules[0].when, p) <==> InPrefix(p.dst, ranges[0]);
    }
  }

  /** Every prefix, aligned or not, is an interval of addresses: the block of its size
      that its network address lies in. */
  lemma PrefixBlock(a: nat, net: nat, bits: MaskLength)
    ensures InPrefix(a, Prefix(net, bits)) <==> InBlock(a, net, Pow2(32 - bits))
  {
    SameQuotient(a, net, Pow2(32 - bits));
  }

  /** A chain without a jump never consults WG_PROXY. */
  lemma {:induction false} WalkIgnoresSub(rules: seq<Rule>, sub: seq<Rule>, p: Packet)
    requires forall r <- rules :: !r.target.JumpProxy?
    ensures Walk(rules, sub, p) == Walk(rules, [], p)
  {
    if rules != [] {
      WalkIgnoresSub(rules[1..], sub, p);
    }
  }
}
