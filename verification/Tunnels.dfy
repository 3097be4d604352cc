/** The tunnel list: a slice over a shared backing array, ports from a counter, and
    snapshots handed to other goroutines. */
module Tunnels {
  import opened Lists

  datatype Status = Stopped | Starting | Running | Unhealthy | Error | Disconnected

  class Tunnel {
    const name: string
    const port: int
    const country: string
    var status: Status

    constructor (name: string, port: int, fold: Fold)
      ensures this.name == name && this.port == port && country == CountryOf(name, fold) && status == Stopped
    {
      this.name, this.port, country, status := name, port, CountryOf(name, fold), Stopped;
    }
  }

  // Country codes. A name is a string of bytes.

  /** Unicode upper-casing, which stays abstract: it is asked only about strings with a
      byte outside ASCII. */
  type Fold = string -> string

  /** The part of a name before its first dash. */
  function FirstPart(name: string): string {
    if name == "" || name[0] == '-' then "" else [name[0]] + FirstPart(name[1..])
  }

  predicate IsAscii(s: string) {
    forall c <- s :: c as int < 128
  }

  function Upper(c: char): char {
    if 'a' <= c <= 'z' then (c as int - 32) as char else c
  }

  function ToUpper(s: string, fold: Fold): string {
    if IsAscii(s) then seq(|s|, i requires 0 <= i < |s| => Upper(s[i])) else fold(s)
  }

  function CountryOf(name: string, fold: Fold): string {
    var p := FirstPart(name);
    if |p| == 2 then ToUpper(p, fold) else ""
  }

  /** A name starts with a country if it starts with two bytes, neither a dash, that are
      followed by a dash or nothing. */
  predicate HasCountry(name: string) {
    |name| >= 2 && name[0] != '-' && name[1] != '-' && (|name| == 2 || name[2] == '-')
  }

  const LOWER_CASE := "abcdefghijklmnopqrstuvwxyz"
  const UPPER_CASE := "ABCDEFGHIJKLMNOPQRSTUVWXYZ"

  lemma UpperExactly(c: char, k: nat)
    requires k < 26
    ensures Upper(LOWER_CASE[k]) == UPPER_CASE[k]
    ensures c !in LOWER_CASE ==> Upper(c) == c
  {
    assert forall i :: 0 <= i < 26 ==> LOWER_CASE[i] == ('a' as int + i) as char;
    if 'a' <= c <= 'z' {
      assert LOWER_CASE[c as int - 'a' as int] == c;
    }
  }

  /** The country is the upper-cased start of such a name, and empty for all others. */
  lemma CountryShape(name: string, fold: Fold)
    ensures CountryOf(name, fold) == if !HasCountry(name) then ""
                                     else if IsAscii(name[..2]) then [Upper(name[0]), Upper(name[1])]
                                     else fold(name[..2])
  {
    if name != "" && name[0] != '-' {
      var tail := name[1..];
      if tail != "" && tail[0] != '-' {
        var rest := tail[1..];
        assert FirstPart(name) == [name[0], name[1]] + FirstPart(rest);
        assert rest != "" ==> rest[0] == name[2];
        assert [name[0], name[1]] == name[..2];
        assert |FirstPart(name)| == 2 <==> HasCountry(name);
        assert HasCountry(name) ==> FirstPart(name) == name[..2];
      } else {
        assert FirstPart(tail) == "";
      }
    }
  }

  // The registry

  datatype Entry = Entry(name: string, port: int)

  datatype Registry = Registry(entries: seq<Entry>, next: int)

  /** A directory entry as the loader sees it. */
  datatype DirEntry = DirEntry(name: string, isDir: bool)

  const SUFFIX := ".conf"

  predicate IsConfig(d: DirEntry) {
    !d.isDir && |d.name| >= |SUFFIX| && d.name[|d.name| - |SUFFIX|..] == SUFFIX
  }

  function TunnelName(d: DirEntry): string
    requires IsConfig(d)
  {
    d.name[..|d.name| - |SUFFIX|]
  }

  function Imported(r: Registry, name: string): Registry {
    Registry(r.entries + [Entry(name, r.next)], r.next + 1)
  }

  function Loaded(r: Registry, dir: seq<DirEntry>): Registry {
    if dir == [] then r
    else
      var before, d := Loaded(r, dir[..|dir| - 1]), dir[|dir| - 1];
      if IsConfig(d) then Imported(before, TunnelName(d)) else before
  }

  /** Position of the first entry of that name, or the number of entries. */
  function IndexOf(entries: seq<Entry>, name: string): nat {
    FirstIndex(entries, (e: Entry) => e.name == name)
  }

  function Deleted(r: Registry, name: string): Registry {
    var i := IndexOf(r.entries, name);
    if i < |r.entries| then r.(entries := WithoutAt(r.entries, i)) else r
  }

  // The manager

  class Manager {
    const basePort: int
    const fold: Fold
    var backing: array<Tunnel>
    var len: nat
    var nextPort: int

    ghost predicate Valid()
      reads this
    {
      len <= backing.Length
    }

    ghost function List(): seq<Tunnel>
      requires Valid()
      reads this, backing
    {
      backing[..len]
    }

    ghost function Abs(): Registry
      requires Valid()
      reads this, backing
    {
      Registry(Entries(List()), nextPort)
    }

    constructor (basePort: int, fold: Fold)
      ensures Valid() && fresh(backing) && List() == []
      ensures nextPort == basePort && this.basePort == basePort && this.fold == fold
    {
      this.basePort, this.fold, nextPort, len := basePort, fold, basePort, 0;
      backing := new Tunnel[0];
    }

    /** Appending to a slice: in place while there is room, else into a larger array. */
    method Append(t: Tunnel)
      requires Valid()
      modifies this`backing, this`len, backing
      ensures Valid() && (backing == old(backing) || fresh(backing))
      ensures List() == old(List()) + [t]
    {
      if len < backing.Length {
        backing[len] := t;
      } else {
        var smaller, n := backing, len;
        backing := new Tunnel[2 * n + 1](i requires 0 <= i reads smaller => if i < n then smaller[i] else t);
      }
      len := len + 1;
      assert backing[..len] == old(backing[..len]) + [t];
    }

    method Register(name: string) returns (t: Tunnel)
      requires Valid()
      modifies this`backing, this`len, this`nextPort, backing
      ensures Valid() && (backing == old(backing) || fresh(backing))
      ensures fresh(t) && t.name == name && t.port == old(nextPort) && t.country == CountryOf(name, fold)
      ensures t.status == Stopped && List() == old(List()) + [t]
      ensures Abs() == Imported(old(Abs()), name)
    {
      t := new Tunnel(name, nextPort, fold);
      Append(t);
      nextPort := nextPort + 1;
    }

    method LoadConfigs(dir: seq<DirEntry>)
      requires Valid()
      modifies this`backing, this`len, this`nextPort, backing
      ensures Valid() && (backing == old(backing) || fresh(backing))
      ensures Abs() == Loaded(old(Abs()), dir)
    {
      for i := 0 to |dir|
        invariant Valid() && (backing == old(backing) || fresh(backing))
        invariant Abs() == Loaded(old(Abs()), dir[..i])
      {
        assert dir[..i + 1][..i] == dir[..i];
        if IsConfig(dir[i]) {
          var t := Register(TunnelName(dir[i]));
        }
      }
      assert dir[..|dir|] == dir;
    }

    method ImportConfig(name: string, writeOk: bool) returns (ok: bool)
      requires Valid()
      modifies this`backing, this`len, this`nextPort, backing
      ensures Valid() && (backing == old(backing) || fresh(backing))
      ensures ok == writeOk
      ensures Abs() == if ok then Imported(old(Abs()), name) else old(Abs())
    {
      ok := writeOk;
      if ok {
        var t := Register(name);
      }
    }

    /** Position of the first tunnel of that name, or the length of the list. */
    method Find(name: string) returns (i: nat)
      requires Valid()
      ensures i == IndexOf(Abs().entries, name)
    {
      i := 0;
      while i < len && backing[i].name != name
        invariant i <= IndexOf(Abs().entries, name)
      {
        assert Abs().entries[i].name == backing[i].name;
        i := i + 1;
      }
      assert i < len ==> Abs().entries[i].name == backing[i].name;
    }

    /** The in-place shift that cuts element i out of the slice. */
    method CutAt(i: nat)
      requires Valid() && i < len
      modifies this`len, backing
      ensures Valid() && List() == WithoutAt(old(List()), i)
    {
      ghost var was := List();
      var j := i;
      while j + 1 < len
        invariant i <= j < len == old(len)
        invariant forall k :: 0 <= k < j ==> backing[k] == was[if k < i then k else k + 1]
        invariant forall k :: j <= k < len ==> backing[k] == was[k]
      {
        backing[j] := backing[j + 1];
        j := j + 1;
      }
      len := len - 1;
    }

    /** Removes the first tunnel of that name; a failed removal of its config file
        leaves the list alone. */
    method Delete(name: string, removeOk: bool) returns (ok: bool)
      requires Valid()
      modifies this`len, backing
      ensures Valid()
      ensures ok <==> removeOk && IndexOf(old(Abs()).entries, name) < |old(Abs()).entries|
      ensures Abs() == if removeOk then Deleted(old(Abs()), name) else old(Abs())
    {
      var i := Find(name);
      if i == len || !removeOk {
        return false;
      }
      ghost var was := List();
      CutAt(i);
      EntriesCut(was, i);
      ok := true;
    }

    method GetTunnels() returns (snapshot: array<Tunnel>)
      requires Valid()
      ensures fresh(snapshot) && snapshot[..] == List()
    {
      var b := backing;
      snapshot := new Tunnel[len](i requires 0 <= i < b.Length reads b => b[i]);
    }

    /** The ports of the tunnels that are Running, in list order. */
    method HealthyBackends() returns (ports: seq<int>)
      requires Valid()
      ensures ports == RunningPorts(List())
      ensures AreRunningPorts(List(), ports)
    {
      ports := [];
      for i := 0 to len
        invariant ports == RunningPorts(backing[..i])
      {
        assert backing[..i + 1][..i] == backing[..i];
        if backing[i].status == Running {
          ports := ports + [backing[i].port];
        }
      }
      RunningPortsExactly(List());
    }
  }

  function Entries(ts: seq<Tunnel>): seq<Entry> {
    seq(|ts|, i requires 0 <= i < |ts| => Entry(ts[i].name, ts[i].port))
  }

  lemma EntriesCut(ts: seq<Tunnel>, i: nat)
    requires i < |ts|
    ensures Entries(WithoutAt(ts, i)) == WithoutAt(Entries(ts), i)
  {
  }

  function RunningPorts(ts: seq<Tunnel>): seq<int>
    reads ts
  {
    if ts == [] then []
    else RunningPorts(ts[..|ts| - 1]) + if ts[|ts| - 1].status == Running then [ts[|ts| - 1].port] else []
  }

  /** `ports` are the ports of exactly the Running tunnels, in list order. */
  ghost predicate AreRunningPorts(ts: seq<Tunnel>, ports: seq<int>)
    reads ts
  {
    IsSelection(seq(|ts|, i requires 0 <= i < |ts| => ts[i].port), RunningFlags(ts), ports)
  }

  ghost function RunningFlags(ts: seq<Tunnel>): (f: seq<bool>)
    reads ts
    ensures |f| == |ts| && forall i :: 0 <= i < |ts| ==> (f[i] <==> ts[i].status == Running)
  {
    seq(|ts|, i requires 0 <= i < |ts| reads ts => ts[i].status == Running)
  }

  lemma {:induction false} RunningPortsExactly(ts: seq<Tunnel>)
    ensures AreRunningPorts(ts, RunningPorts(ts))
  {
    var all := seq(|ts|, i requires 0 <= i < |ts| => ts[i].port);
    if ts == [] {
      EmptySelection<int>();
      assert all == [] && RunningFlags(ts) == [];
    } else {
      var init, last := ts[..|ts| - 1], ts[|ts| - 1];
      var ports := seq(|init|, i requires 0 <= i < |init| => init[i].port);
      RunningPortsExactly(init);
      SelectionGrows(ports, RunningFlags(init), RunningPorts(init), last.port, last.status == Running);
      assert all == ports + [last.port] && RunningFlags(ts) == RunningFlags(init) + [last.status == Running];
    }
  }

  lemma RunningPortsPresent(ts: seq<Tunnel>)
    ensures RunningPorts(ts) != [] <==> exists t <- ts :: t.status == Running
  {
    RunningPortsExactly(ts);
    SelectionEmpty(seq(|ts|, i requires 0 <= i < |ts| => ts[i].port), RunningFlags(ts), RunningPorts(ts));
    assert forall i :: 0 <= i < |ts| ==> ts[i] in ts;
  }

  // Runs

  datatype Op = Load(dir: seq<DirEntry>) | Import(name: string, writeOk: bool) | Remove(name: string, removeOk: bool)

  function Apply(r: Registry, op: Op): Registry {
    match op
    case Load(dir) => Loaded(r, dir)
    case Import(name, ok) => if ok then Imported(r, name) else r
    case Remove(name, ok) => if ok then Deleted(r, name) else r
  }

  function Run(r: Registry, ops: seq<Op>): Registry {
    if ops == [] then r else Apply(Run(r, ops[..|ops| - 1]), ops[|ops| - 1])
  }

  /** Ports strictly increase along the list and lie in [base, next). */
  ghost predicate Ordered(base: int, r: Registry) {
    && base <= r.next
    && (forall e <- r.entries :: base <= e.port < r.next)
    && forall i, j :: 0 <= i < j < |r.entries| ==> r.entries[i].port < r.entries[j].port
  }

  /** The directory entries that are tunnel configs, in directory order. */
  function Configs(dir: seq<DirEntry>): (c: seq<DirEntry>)
    ensures forall d <- c :: IsConfig(d)
  {
    if dir == [] then []
    else Configs(dir[..|dir| - 1]) + if IsConfig(dir[|dir| - 1]) then [dir[|dir| - 1]] else []
  }

  /** A config is a file whose name is the tunnel's name followed by ".conf". */
  lemma ConfigNames(d: DirEntry, name: string)
    ensures IsConfig(d) && TunnelName(d) == name <==> !d.isDir && d.name == name + ".conf"
  {
    if IsConfig(d) {
      assert d.name == TunnelName(d) + SUFFIX;
    } else if d.name == name + ".conf" {
      assert d.name[|d.name| - |SUFFIX|..] == SUFFIX;
    }
  }

  /** The configs are the directory's entries that are one, in order. */
  lemma {:induction false} ConfigsExactly(dir: seq<DirEntry>)
    ensures IsSelection(dir, seq(|dir|, i requires 0 <= i < |dir| => IsConfig(dir[i])), Configs(dir))
  {
    var flags := seq(|dir|, i requires 0 <= i < |dir| => IsConfig(dir[i]));
    if dir == [] {
      EmptySelection<DirEntry>();
      assert flags == [];
    } else {
      var init, last := dir[..|dir| - 1], dir[|dir| - 1];
      ConfigsExactly(init);
      var before := seq(|init|, i requires 0 <= i < |init| => IsConfig(init[i]));
      SelectionGrows(init, before, Configs(init), last, IsConfig(last));
      assert dir == init + [last] && flags == before + [IsConfig(last)];
    }
  }

  /** Loading registers exactly the configs, in order, on consecutive ports. */
  lemma {:induction false} LoadedExactly(r: Registry, dir: seq<DirEntry>)
    ensures var c, r' := Configs(dir), Loaded(r, dir);
            && r'.next == r.next + |c| && |r'.entries| == |r.entries| + |c| && r.entries <= r'.entries
            && forall k :: 0 <= k < |c| ==> r'.entries[|r.entries| + k] == Entry(TunnelName(c[k]), r.next + k)
  {
    if dir != [] {
      LoadedExactly(r, dir[..|dir| - 1]);
    }
  }

  lemma {:induction false} LoadedKeeps(base: int, r: Registry, dir: seq<DirEntry>)
    requires Ordered(base, r)
    ensures Ordered(base, Loaded(r, dir)) && Loaded(r, dir).next >= r.next
    ensures forall e <- Loaded(r, dir).entries :: e.port < r.next ==> e in r.entries
  {
    if dir != [] {
      LoadedKeeps(base, r, dir[..|dir| - 1]);
    }
  }

  lemma CutKeepsOrder(base: int, r: Registry, i: nat)
    requires Ordered(base, r) && i < |r.entries|
    ensures Ordered(base, r.(entries := WithoutAt(r.entries, i)))
    ensures forall e <- WithoutAt(r.entries, i) :: e in r.entries && e != r.entries[i]
  {
    var w := WithoutAt(r.entries, i);
    forall k | 0 <= k < |w|
      ensures w[k] in r.entries && w[k].port != r.entries[i].port
    {
      var k' := if k < i then k else k + 1;
      assert w[k] == r.entries[k'];
    }
  }

  lemma ApplyKeeps(base: int, r: Registry, op: Op)
    requires Ordered(base, r)
    ensures Ordered(base, Apply(r, op)) && Apply(r, op).next >= r.next
    ensures forall e <- Apply(r, op).entries :: e.port < r.next ==> e in r.entries
  {
    match op
    case Load(dir) => LoadedKeeps(base, r, dir);
    case Import(_, _) =>
    case Remove(name, ok) =>
      var i := IndexOf(r.entries, name);
      if i < |r.entries| {
        CutKeepsOrder(base, r, i);
      }
  }

  /** Over any sequence of operations ports stay strictly increasing in list order and
      inside [base, next), and a port handed out before is never given to a new
      tunnel: whoever holds it afterwards already held it. */
  lemma {:induction false} PortsNeverReused(base: int, r: Registry, ops: seq<Op>)
    requires Ordered(base, r)
    ensures Ordered(base, Run(r, ops)) && Run(r, ops).next >= r.next
    ensures forall e <- Run(r, ops).entries :: e.port < r.next ==> e in r.entries
  {
    if ops != [] {
      PortsNeverReused(base, r, ops[..|ops| - 1]);
      ApplyKeeps(base, Run(r, ops[..|ops| - 1]), ops[|ops| - 1]);
    }
  }

  lemma CutKeepsOthers(entries: seq<Entry>, i: nat)
    requires i < |entries|
    ensures forall x <- entries :: x != entries[i] ==> x in WithoutAt(entries, i)
  {
    forall x <- entries | x != entries[i]
      ensures x in WithoutAt(entries, i)
    {
      var k :| 0 <= k < |entries| && entries[k] == x;
      assert WithoutAt(entries, i)[if k < i then k else k - 1] == x;
    }
  }

  /** Deleting takes out the first tunnel of that name and nothing else, and nothing at
      all if there is none. */
  lemma DeletedExactly(r: Registry, name: string)
    ensures (forall e <- r.entries :: e.name != name) ==> Deleted(r, name) == r
    ensures (exists e <- r.entries :: e.name == name) ==>
              exists i :: 0 <= i < |r.entries| && r.entries[i].name == name
                          && (forall k :: 0 <= k < i ==> r.entries[k].name != name)
                          && Deleted(r, name) == Registry(r.entries[..i] + r.entries[i + 1..], r.next)
  {
    var i := IndexOf(r.entries, name);
    assert i < |r.entries| ==> r.entries[i] in r.entries;
    if e :| e in r.entries && e.name == name {
      assert i < |r.entries|;
    }
  }

  /** Once deleted, a tunnel's entry never comes back, whatever happens later. */
  lemma DeletedForGood(base: int, r: Registry, name: string, ops: seq<Op>)
    requires Ordered(base, r) && IndexOf(r.entries, name) < |r.entries|
    ensures var e := r.entries[IndexOf(r.entries, name)];
            && |Deleted(r, name).entries| == |r.entries| - 1
            && (forall x <- r.entries :: x != e ==> x in Deleted(r, name).entries)
            && e !in Run(Deleted(r, name), ops).entries
  {
    var i, r' := IndexOf(r.entries, name), Deleted(r, name);
    CutKeepsOrder(base, r, i);
    PortsNeverReused(base, r', ops);
    CutKeepsOthers(r.entries, i);
    assert r.entries[i] in r.entries;
  }

  /** Every held snapshot still shows what it showed when it was taken, and none of
      them is the manager's own array. */
  ghost predicate Intact(m: Manager, snapshots: seq<array<Tunnel>>, contents: seq<seq<Tunnel>>)
    reads m, snapshots
  {
    && |snapshots| == |contents|
    && forall k :: 0 <= k < |snapshots| ==> snapshots[k] != m.backing && snapshots[k][..] == contents[k]
  }

  method Perform(m: Manager, op: Op, ghost snapshots: seq<array<Tunnel>>, ghost contents: seq<seq<Tunnel>>)
    requires m.Valid() && Intact(m, snapshots, contents)
    modifies m`backing, m`len, m`nextPort, m.backing
    ensures m.Valid() && (m.backing == old(m.backing) || fresh(m.backing))
    ensures m.Abs() == Apply(old(m.Abs()), op)
    ensures Intact(m, snapshots, contents)
  {
    match op
    case Load(dir) => m.LoadConfigs(dir);
    case Import(name, ok) => var done := m.ImportConfig(name, ok);
    case Remove(name, ok) => var done := m.Delete(name, ok);
  }

  method SnapshotAndPerform(m: Manager, op: Op, ghost snapshots: seq<array<Tunnel>>, ghost contents: seq<seq<Tunnel>>)
    returns (s: array<Tunnel>, ghost shown: seq<Tunnel>)
    requires m.Valid() && Intact(m, snapshots, contents)
    modifies m`backing, m`len, m`nextPort, m.backing
    ensures m.Valid() && (m.backing == old(m.backing) || fresh(m.backing))
    ensures m.Abs() == Apply(old(m.Abs()), op)
    ensures Entries(shown) == old(m.Abs()).entries
    ensures Intact(m, snapshots + [s], contents + [shown])
  {
    s := m.GetTunnels();
    shown := m.List();
    Perform(m, op, snapshots + [s], contents + [shown]);
  }

  /** Every operation sequence run on a real manager, with a snapshot taken before each
      operation: the list follows the registry, and no snapshot is ever disturbed by
      the in-place shifts and appends that come after it. */
  method Replay(m: Manager, ops: seq<Op>)
    returns (ghost snapshots: seq<array<Tunnel>>, ghost contents: seq<seq<Tunnel>>)
    requires m.Valid()
    modifies m`backing, m`len, m`nextPort, m.backing
    ensures m.Valid() && m.Abs() == Run(old(m.Abs()), ops)
    ensures |snapshots| == |ops| && Intact(m, snapshots, contents)
    ensures forall k :: 0 <= k < |ops| ==> Entries(contents[k]) == Run(old(m.Abs()), ops[..k]).entries
  {
    ghost var r := m.Abs();
    snapshots, contents := [], [];
    for i := 0 to |ops|
      invariant m.Valid() && (m.backing == old(m.backing) || fresh(m.backing))
      invariant m.Abs() == Run(r, ops[..i])
      invariant |snapshots| == i && Intact(m, snapshots, contents)
      invariant forall k :: 0 <= k < i ==> Entries(contents[k]) == Run(r, ops[..k]).entries
    {
      assert ops[..i + 1][..i] == ops[..i];
      var s, shown := SnapshotAndPerform(m, ops[i], snapshots, contents);
      snapshots, contents := snapshots + [s], contents + [shown];
    }
    assert ops[..|ops|] == ops;
  }
}
