/** The VPN server: the peer list, its file and the interface's allowed-ips table
    kept in step by operations any of whose commands may fail. */
module WgServer {
  import opened Lists
  import opened Options
  import opened Firewall
  import opened Address
  import opened Peers
  import Nat

  /** The interface's allowed-ips table: address to public key. */
  type Routes = map<string, string>

  /** `wg set peer key allowed-ips address`: the address moves to this key and the
      key keeps no other. */
  function SetPeer(r: Routes, key: string, address: string): Routes {
    (map a | a in r && r[a] != key :: r[a])[address := key]
  }

  function RemovePeerKey(r: Routes, key: string): Routes {
    map a | a in r && r[a] != key :: r[a]
  }

  datatype State = State(running: bool, peers: seq<Peer>, file: File, routes: Routes)

  datatype Error = NotRunning | Exists | NotFound | NoKeys | NoAddress | InterfaceFailed | SaveFailed

  /** The address and private key the client is told, or why there is none. */
  datatype Reply = Config(address: string, privateKey: string) | Refused(error: Error)

  /** The interface comes up anew, or stays as an earlier run left it because it could
      not be deleted, or is left unfinished. */
  datatype LinkSetup = SetUp | NotReplaced | Unfinished

  /** How the commands of one Start turn out; `failedAdds` holds the public keys whose
      addition to the interface fails, and `cleanupOk` is about deleting the interface
      after a failed NAT set-up. */
  datatype StartEnv = StartEnv(keysOk: bool, link: LinkSetup, failedAdds: set<string>, iface: string, natFailAt: nat,
                               cleanupOk: bool)

  datatype AddEnv = AddEnv(keys: Option<(string, string)>, interfaceOk: bool, save: SaveOutcome, rollbackOk: bool)

  datatype RemoveEnv = RemoveEnv(interfaceOk: bool, save: SaveOutcome)

  function AddAll(r: Routes, peers: seq<Peer>, failed: set<string>): Routes {
    if peers == [] then r
    else
      var before, p := AddAll(r, peers[..|peers| - 1], failed), peers[|peers| - 1];
      if p.publicKey in failed then before else SetPeer(before, p.publicKey, p.allowedIp)
  }

  function Started(subnet: Option<Subnet>, st: State, env: StartEnv): State {
    if st.running || !env.keysOk then st
    else
      var peers := Loaded(st.peers, st.file);
      var routes := AddAll(map[], peers, env.failedAdds);
      if env.link.NotReplaced? then State(false, peers, st.file, st.routes)
      else if subnet.None? || env.link.Unfinished? then State(false, peers, st.file, map[])
      else if env.natFailAt < Nat.SETUP_STEPS then
        State(false, peers, st.file, if env.cleanupOk then map[] else routes)
      else State(true, peers, st.file, routes)
  }

  /** An interface that cannot be deleted keeps its entries. */
  function Stopped(st: State, linkDeleted: bool): State {
    if st.running then st.(running := false, routes := if linkDeleted then map[] else st.routes) else st
  }

  function AllowedOf(peers: seq<Peer>): seq<string> {
    seq(|peers|, i requires 0 <= i < |peers| => peers[i].allowedIp)
  }

  /** The peer an AddPeer call would create, or the refusal before anything is changed. */
  function Candidate(subnet: Option<Subnet>, st: State, name: string, env: AddEnv): (Option<Peer>, Error) {
    if !st.running then (None, NotRunning)
    else if IndexOf(st.peers, name) < |st.peers| then (None, Exists)
    else if env.keys.None? then (None, NoKeys)
    else
      var ip := Allocate(subnet, AllowedOf(st.peers));
      if ip.None? then (None, NoAddress)
      else if !env.interfaceOk then (None, InterfaceFailed)
      else (Some(Peer(name, env.keys.value.1, env.keys.value.0, Print(ip.value) + "/32")), NotFound)
  }

  function Added(subnet: Option<Subnet>, st: State, name: string, env: AddEnv): (State, Reply) {
    var (peer, error) := Candidate(subnet, st, name, env);
    if peer.None? then (st, Refused(error))
    else
      var p := peer.value;
      var routes := SetPeer(st.routes, p.publicKey, p.allowedIp);
      var st' := State(true, st.peers + [p], AfterSave(st.file, st.peers + [p], env.save), routes);
      if env.save.Saved? then (st', Config(p.allowedIp, p.privateKey))
      else if env.rollbackOk then (st'.(routes := RemovePeerKey(routes, p.publicKey)), Refused(SaveFailed))
      else (st', Refused(SaveFailed))
  }

  function Removed(st: State, name: string, env: RemoveEnv): State {
    var i := IndexOf(st.peers, name);
    if !st.running || i == |st.peers| then st
    else
      State(true, Without(st.peers, name), AfterSave(st.file, Without(st.peers, name), env.save),
            if env.interfaceOk then RemovePeerKey(st.routes, st.peers[i].publicKey) else st.routes)
  }

  class Server {
    const subnet: Option<Subnet>
    const store: PeerStore
    const kernel: Kernel
    var running: bool
    var routes: Routes

    constructor (subnet: Option<Subnet>, store: PeerStore, kernel: Kernel)
      ensures !running && this.subnet == subnet && this.store == store && this.kernel == kernel
    {
      this.subnet, this.store, this.kernel := subnet, store, kernel;
      running, routes := false, map[];
    }

    ghost function Abs(): State
      reads this, store
    {
      State(running, store.peers, store.file, routes)
    }

    function SubnetPrefix(): Prefix {
      if subnet.None? then AnyAddr else Prefix(Number(subnet.value.base), subnet.value.bits)
    }

    method Start(env: StartEnv) returns (ok: bool)
      modifies this, store, kernel
      ensures Abs() == Started(subnet, old(Abs()), env)
      ensures ok == running
      ensures kernel.table == if old(running) || !env.keysOk || subnet.None? || !env.link.SetUp? then old(kernel.table)
                              else Nat.SetupNat(old(kernel.table), SubnetPrefix(), env.iface, env.natFailAt)
    {
      if running {
        return true;
      }
      if !env.keysOk {
        return false;
      }
      var loaded := store.Load();
      if env.link.NotReplaced? {
        return false;
      }
      routes := map[];
      if subnet.None? || env.link.Unfinished? {
        return false;
      }
      var peers := store.peers;
      for i := 0 to |peers|
        invariant unchanged(kernel) && !running && store.peers == peers && store.file == old(store.file)
        invariant routes == AddAll(map[], peers[..i], env.failedAdds)
      {
        var p := peers[i];
        assert peers[..i + 1][..i] == peers[..i];
        if p.publicKey !in env.failedAdds {
          routes := SetPeer(routes, p.publicKey, p.allowedIp);
        }
      }
      assert peers[..|peers|] == peers;
      ok := Nat.RunSetup(kernel, SubnetPrefix(), env.iface, env.natFailAt);
      if !ok {
        if env.cleanupOk {
          routes := map[];
        }
        return;
      }
      running := true;
    }

    method Stop(iface: string, deletions: Nat.Deletions, linkDeleted: bool)
      modifies this, kernel
      ensures Abs() == Stopped(old(Abs()), linkDeleted)
      ensures kernel.table == if old(running) then Nat.TeardownNat(old(kernel.table), SubnetPrefix(), iface, deletions)
                              else old(kernel.table)
    {
      if !running {
        return;
      }
      Nat.RunTeardown(kernel, SubnetPrefix(), iface, deletions);
      if linkDeleted {
        routes := map[];
      }
      running := false;
    }

    method AddPeer(name: string, env: AddEnv) returns (reply: Reply)
      modifies this`routes, store
      ensures (Abs(), reply) == Added(subnet, old(Abs()), name, env)
    {
      if !running {
        return Refused(NotRunning);
      }
      var present := store.Get(name);
      if present.Some? {
        return Refused(Exists);
      }
      if env.keys.None? {
        return Refused(NoKeys);
      }
      var (privateKey, publicKey) := env.keys.value;
      var ip := AllocateIP(subnet, AllowedOf(store.peers));
      if ip.None? {
        return Refused(NoAddress);
      }
      var peer := Peer(name, publicKey, privateKey, Print(ip.value) + "/32");
      if !env.interfaceOk {
        return Refused(InterfaceFailed);
      }
      routes := SetPeer(routes, publicKey, peer.allowedIp);
      var saved := store.Add(peer, env.save);
      if !saved {
        if env.rollbackOk {
          routes := RemovePeerKey(routes, publicKey);
        }
        return Refused(SaveFailed);
      }
      reply := Config(peer.allowedIp, privateKey);
    }

    method RemovePeer(name: string, env: RemoveEnv) returns (error: Option<Error>)
      modifies this`routes, store
      ensures Abs() == Removed(old(Abs()), name, env)
      ensures error == if !running then Some(NotRunning)
                       else if IndexOf(old(store.peers), name) == |old(store.peers)| then Some(NotFound)
                       else if env.save.Saved? then None else Some(SaveFailed)
    {
      if !running {
        return Some(NotRunning);
      }
      var peer := store.Get(name);
      if peer.None? {
        return Some(NotFound);
      }
      if env.interfaceOk {
        routes := RemovePeerKey(routes, peer.value.publicKey);
      }
      var saved := store.Remove(name, env.save);
      error := if saved then None else Some(SaveFailed);
    }
  }

  // The invariant

  ghost predicate HasClientAddress(s: Subnet, p: Peer) {
    exists ip :: p.allowedIp == AllowedIp(ip) && Contains(s, ip) && ip != ServerAddress(s)
  }

  /** Distinct names, keys and in-subnet addresses, none of them the server's. */
  ghost predicate WellFormed(s: Subnet, peers: seq<Peer>) {
    && (forall p <- peers :: HasClientAddress(s, p))
    && forall i, j :: 0 <= i < j < |peers| ==>
         && peers[i].name != peers[j].name
         && peers[i].publicKey != peers[j].publicKey
         && peers[i].allowedIp != peers[j].allowedIp
  }

  /** The interface sends this peer's address to this peer's key. */
  predicate Routed(r: Routes, p: Peer) {
    p.allowedIp in r && r[p.allowedIp] == p.publicKey
  }

  ghost predicate Inv(s: Subnet, st: State) {
    && WellFormed(s, st.peers)
    && (st.file.Holds? ==> WellFormed(s, st.file.peers))
    && (st.running ==> forall p <- st.peers :: Routed(st.routes, p))
  }

  lemma {:induction false} AddAllDomain(peers: seq<Peer>, failed: set<string>, a: string)
    requires a in AddAll(map[], peers, failed)
    ensures exists i :: 0 <= i < |peers| && peers[i].allowedIp == a
  {
    var init, last := peers[..|peers| - 1], peers[|peers| - 1];
    if a != last.allowedIp || last.publicKey in failed {
      AddAllDomain(init, failed, a);
      var i :| 0 <= i < |init| && init[i].allowedIp == a;
      assert peers[i].allowedIp == a;
    }
  }

  lemma {:induction false} AddAllRoutes(s: Subnet, peers: seq<Peer>, failed: set<string>, k: nat)
    requires WellFormed(s, peers) && k < |peers|
    ensures Routed(AddAll(map[], peers, failed), peers[k]) <==> peers[k].publicKey !in failed
  {
    var init, last := peers[..|peers| - 1], peers[|peers| - 1];
    assert peers == init + [last];
    if k < |init| {
      AddAllRoutes(s, init, failed, k);
    } else if last.allowedIp in AddAll(map[], init, failed) {
      AddAllDomain(init, failed, last.allowedIp);
    }
  }

  /** Starting re-establishes the invariant exactly when no stored peer's re-addition
      failed (or the server did not come up). */
  lemma StartKeeps(s: Subnet, st: State, env: StartEnv)
    requires Inv(s, st) && !st.running
    ensures var st' := Started(Some(s), st, env);
            Inv(s, st') <==> (st'.running ==> forall p <- st'.peers :: p.publicKey !in env.failedAdds)
  {
    var st' := Started(Some(s), st, env);
    if st'.running {
      forall k | 0 <= k < |st'.peers|
        ensures Routed(st'.routes, st'.peers[k]) <==> st'.peers[k].publicKey !in env.failedAdds
      {
        AddAllRoutes(s, st'.peers, env.failedAdds, k);
      }
    }
  }

  /** A start, in every case: when the server is up afterwards, what it knows of its
      peers, and when it leaves entries on the interface without being up. */
  lemma StartExactly(subnet: Option<Subnet>, st: State, env: StartEnv)
    ensures var st' := Started(subnet, st, env);
            var cameUp := env.keysOk && env.link.SetUp? && subnet.Some? && env.natFailAt >= 4;
            && (st'.running <==> st.running || cameUp)
            && st'.file == st.file
            && (st.running || !env.keysOk ==> st' == st)
            && (!st.running && env.keysOk ==> st'.peers == if st.file.Holds? then st.file.peers else st.peers)
            && (!st'.running && env.link.NotReplaced? ==> st'.routes == st.routes)
            && (!st'.running && env.keysOk && env.link.Unfinished? ==> st'.routes == map[])
            && (!st'.running && env.keysOk && env.link.SetUp? && (subnet.None? || env.cleanupOk) ==>
                  st'.routes == map[])
            && (!st.running && env.keysOk && env.link.SetUp? && subnet.Some? && (cameUp || !env.cleanupOk)
                ==> st'.routes == AddAll(map[], st'.peers, env.failedAdds))
  {
  }

  lemma CandidateFits(s: Subnet, st: State, name: string, env: AddEnv)
    requires WellFormed(s, st.peers)
    requires env.keys.Some? ==> forall p <- st.peers :: p.publicKey != env.keys.value.1
    requires Candidate(Some(s), st, name, env).0.Some?
    ensures WellFormed(s, st.peers + [Candidate(Some(s), st, name, env).0.value])
  {
    var p := Candidate(Some(s), st, name, env).0.value;
    var allowed := AllowedOf(st.peers);
    LowestFreeFrom(s, allowed, FIRST_HOST);
    var ip := Allocate(Some(s), allowed).value;
    assert p.allowedIp == AllowedIp(ip);
    PrintInjective(ip, ServerAddress(s));
    assert HasClientAddress(s, p);
    InPeerStrings(allowed, Print(ip));
    AllowedIpPrefix(ip);
    forall i | 0 <= i < |st.peers|
      ensures st.peers[i].allowedIp != p.allowedIp && st.peers[i].name != p.name
    {
      assert BeforeSlash(allowed[i]) != Print(ip);
    }
  }

  lemma OthersStayRouted(s: Subnet, peers: seq<Peer>, r: Routes, p: Peer)
    requires WellFormed(s, peers + [p]) && forall q <- peers :: Routed(r, q)
    ensures forall q <- peers :: Routed(SetPeer(r, p.publicKey, p.allowedIp), q) && q.publicKey != p.publicKey
  {
    var all := peers + [p];
    forall i | 0 <= i < |peers|
      ensures Routed(SetPeer(r, p.publicKey, p.allowedIp), peers[i]) && peers[i].publicKey != p.publicKey
    {
      assert all[i] == peers[i] && all[|peers|] == p;
      assert Routed(r, peers[i]);
    }
  }

  /** With a fresh key, AddPeer keeps the invariant except in exactly one case: the
      save failed and the rollback took the new peer off the interface, so that the
      peer still listed is no longer routed. */
  lemma AddKeeps(s: Subnet, st: State, name: string, env: AddEnv)
    requires Inv(s, st)
    requires env.keys.Some? ==> forall p <- st.peers :: p.publicKey != env.keys.value.1
    ensures Inv(s, Added(Some(s), st, name, env).0)
            <==> Candidate(Some(s), st, name, env).0.None? || env.save.Saved? || !env.rollbackOk
  {
    var peer := Candidate(Some(s), st, name, env).0;
    if peer.Some? {
      var p, st' := peer.value, Added(Some(s), st, name, env).0;
      CandidateFits(s, st, name, env);
      var routes := SetPeer(st.routes, p.publicKey, p.allowedIp);
      if st.running {
        OthersStayRouted(s, st.peers, st.routes, p);
      }
      assert p in st'.peers;
      assert !Routed(RemovePeerKey(routes, p.publicKey), p);
    }
  }

  /** The string of a stored peer stands for this address: alone or before a slash. */
  predicate Occupies(p: Peer, ip: Ipv4) {
    p.allowedIp == Print(ip) || Print(ip) + "/" <= p.allowedIp
  }

  /** A host number that can be handed out. */
  predicate FreeHost(s: Subnet, peers: seq<Peer>, i: Octet) {
    2 <= i <= 253 && Contains(s, Host(s, i)) && forall p <- peers :: !Occupies(p, Host(s, i))
  }

  ghost predicate LowestFreeHost(s: Subnet, peers: seq<Peer>, i: Octet) {
    FreeHost(s, peers, i) && forall j: Octet :: j < i ==> !FreeHost(s, peers, j)
  }

  lemma FreeHostExactly(s: Subnet, peers: seq<Peer>, i: Octet)
    requires FIRST_HOST <= i < END_HOST
    ensures Free(s, AllowedOf(peers), i) <==> FreeHost(s, peers, i)
  {
    var allowed, ip := AllowedOf(peers), Host(s, i);
    InPeerStrings(allowed, Print(ip));
    PrintInjective(ip, ServerAddress(s));
    forall k | 0 <= k < |peers|
      ensures BeforeSlash(allowed[k]) == Print(ip) <==> Occupies(peers[k], ip)
    {
      BeforeSlashExactly(allowed[k], Print(ip));
    }
    assert forall p <- peers :: exists k :: 0 <= k < |peers| && allowed[k] == p.allowedIp && peers[k] == p;
  }

  /** The allocation is the lowest free host, and there is none exactly if no host is
      free. */
  lemma AllocationExactly(s: Subnet, peers: seq<Peer>)
    ensures var ip := Allocate(Some(s), AllowedOf(peers));
            && (ip.Some? <==> exists i: Octet :: FreeHost(s, peers, i))
            && (ip.Some? ==> ip.value == Host(s, ip.value.d) && LowestFreeHost(s, peers, ip.value.d))
  {
    var allowed := AllowedOf(peers);
    LowestFreeFrom(s, allowed, FIRST_HOST);
    forall i: Octet | FIRST_HOST <= i < END_HOST
      ensures Free(s, allowed, i) <==> FreeHost(s, peers, i)
    {
      FreeHostExactly(s, peers, i);
    }
  }

  /** AddPeer's answer for every state and pattern of failures, and what it leaves. A
      config comes exactly if nothing stands in the way; it tells the client the lowest
      free address and the generated private key, and the peer is listed, saved and
      routed under the generated public key. Only a failed save changes anything without
      one, and then the same peer is listed. */
  lemma AddExactly(s: Subnet, st: State, name: string, env: AddEnv)
    ensures var (st', reply) := Added(Some(s), st, name, env);
            && (reply == Refused(NotRunning) <==> !st.running)
            && (reply == Refused(Exists) <==> st.running && Names(st.peers, name))
            && (reply == Refused(NoKeys) <==> st.running && !Names(st.peers, name) && env.keys.None?)
            && (reply.Config? || reply in {Refused(NoAddress), Refused(InterfaceFailed), Refused(SaveFailed)} <==>
                  st.running && !Names(st.peers, name) && env.keys.Some?)
  {
    assert Names(st.peers, name) <==> IndexOf(st.peers, name) < |st.peers|;
    AllocationExactly(s, st.peers);
  }

  lemma AddAllocates(s: Subnet, st: State, name: string, env: AddEnv)
    requires st.running && !Names(st.peers, name) && env.keys.Some?
    ensures var (st', reply) := Added(Some(s), st, name, env);
            var free := exists i: Octet :: FreeHost(s, st.peers, i);
            && (reply == Refused(NoAddress) <==> !free)
            && (reply == Refused(InterfaceFailed) <==> free && !env.interfaceOk)
            && (reply == Refused(SaveFailed) <==> free && env.interfaceOk && !env.save.Saved?)
            && (reply.Config? <==> free && env.interfaceOk && env.save.Saved?)
            && (reply.Config? || reply == Refused(SaveFailed) ==>
                  exists i: Octet :: LowestFreeHost(s, st.peers, i) && Enrolled(s, st, name, env, i, st', reply))
            && (!reply.Config? && reply != Refused(SaveFailed) ==> st' == st)
  {
    AllocationExactly(s, st.peers);
    var (st', reply) := Added(Some(s), st, name, env);
    if reply.Config? || reply == Refused(SaveFailed) {
      var ip := Allocate(Some(s), AllowedOf(st.peers)).value;
      assert Enrolled(s, st, name, env, ip.d, st', reply);
    }
  }

  /** The peer at host i is the only change to the list, the file is as its save left it,
      and the interface takes the address from whoever had it unless rolled back. */
  ghost predicate Enrolled(s: Subnet, st: State, name: string, env: AddEnv, i: Octet, st': State, reply: Reply)
    requires env.keys.Some?
  {
    var (privateKey, publicKey) := env.keys.value;
    var address := Print(s.base.(d := i)) + "/32";
    var p := Peer(name, publicKey, privateKey, address);
    && st'.running && st'.peers == st.peers + [p]
    && (env.save.Saved? ==> reply == Config(address, privateKey) && st'.file == Holds(st.peers + [p]))
    && (env.save.KeptOld? ==> st'.file == st.file) && (env.save.Torn? ==> st'.file == Garbage)
    && (forall a :: a in st'.routes && st'.routes[a] != publicKey <==>
                      a in st.routes && a != address && st.routes[a] != publicKey)
    && (forall a :: a in st'.routes && a in st.routes && a != address ==> st'.routes[a] == st.routes[a])
    && (forall a :: a in st'.routes && st'.routes[a] == publicKey <==>
                      a == address && (env.save.Saved? || !env.rollbackOk))
  }

  /** What AddPeer's answer tells: a config names the peer now last in the list and in
      the saved file; a refusal leaves everything as it was, except that after a failed
      save the peer is in the list all the same. */
  lemma AddReply(subnet: Option<Subnet>, st: State, name: string, env: AddEnv)
    ensures var (st', reply) := Added(subnet, st, name, env);
            && (reply.Config? ==>
                  && env.keys.Some? && IndexOf(st.peers, name) == |st.peers|
                  && st'.peers == st.peers + [Peer(name, env.keys.value.1, reply.privateKey, reply.address)]
                  && st'.file == Holds(st'.peers) && Routed(st'.routes, st'.peers[|st.peers|]))
            && (reply.Refused? && reply.error != SaveFailed ==> st' == st)
            && (reply == Refused(SaveFailed) ==> |st'.peers| == |st.peers| + 1 && st'.peers[|st.peers|].name == name)
            && (st.running && IndexOf(st.peers, name) < |st.peers| ==> reply == Refused(Exists))
  {
  }

  lemma DroppingOneKeeps(s: Subnet, peers: seq<Peer>, i: nat)
    requires WellFormed(s, peers) && i < |peers|
    ensures WellFormed(s, WithoutAt(peers, i))
  {
  }

  lemma RestStayRouted(s: Subnet, peers: seq<Peer>, r: Routes, i: nat)
    requires WellFormed(s, peers) && i < |peers| && forall q <- peers :: Routed(r, q)
    ensures forall q <- WithoutAt(peers, i) :: Routed(r, q) && Routed(RemovePeerKey(r, peers[i].publicKey), q)
  {
    var rest := WithoutAt(peers, i);
    forall k | 0 <= k < |rest|
      ensures Routed(r, rest[k]) && Routed(RemovePeerKey(r, peers[i].publicKey), rest[k])
    {
      assert rest[k] == peers[if k < i then k else k + 1];
    }
  }

  /** RemovePeer takes exactly the named peer off the list and keeps the invariant
      whether or not its commands fail: a stale interface entry is overwritten when its
      address is handed out again. */
  lemma RemoveKeeps(s: Subnet, st: State, name: string, env: RemoveEnv)
    requires Inv(s, st)
    ensures Inv(s, Removed(st, name, env))
    ensures st.running ==> forall p :: p in Removed(st, name, env).peers <==> p in st.peers && p.name != name
  {
    var i := IndexOf(st.peers, name);
    if st.running && i < |st.peers| {
      DroppingOneKeeps(s, st.peers, i);
      OthersStayListed(s, st.peers, i);
      RestStayRouted(s, st.peers, st.routes, i);
    }
  }

  /** A removal, in every case: nothing happens to a stopped server or an unknown name;
      otherwise the first peer of that name goes, the file is as the save leaves it, and
      the interface forgets its key unless the command fails. */
  lemma RemoveExactly(st: State, name: string, env: RemoveEnv)
    ensures !st.running || !Names(st.peers, name) ==> Removed(st, name, env) == st
    ensures st.running && Names(st.peers, name) ==>
              exists i: nat :: i < |st.peers| && Discharged(st, name, env, i, Removed(st, name, env))
  {
    var i := IndexOf(st.peers, name);
    assert Names(st.peers, name) <==> i < |st.peers|;
    if st.running && i < |st.peers| {
      assert Discharged(st, name, env, i, Removed(st, name, env));
    }
  }

  ghost predicate Discharged(st: State, name: string, env: RemoveEnv, i: nat, st': State)
    requires i < |st.peers|
  {
    && st.peers[i].name == name && (forall k :: 0 <= k < i ==> st.peers[k].name != name)
    && st'.running && st'.peers == st.peers[..i] + st.peers[i + 1..]
    && (env.save.Saved? ==> st'.file == Holds(st'.peers))
    && (env.save.KeptOld? ==> st'.file == st.file) && (env.save.Torn? ==> st'.file == Garbage)
    && (!env.interfaceOk ==> st'.routes == st.routes)
    && (env.interfaceOk ==> forall a :: a in st'.routes <==> a in st.routes && st.routes[a] != st.peers[i].publicKey)
    && (forall a :: a in st'.routes ==> a in st.routes && st'.routes[a] == st.routes[a])
  }

  lemma OthersStayListed(s: Subnet, peers: seq<Peer>, i: nat)
    requires WellFormed(s, peers) && i < |peers|
    ensures forall p :: p in WithoutAt(peers, i) <==> p in peers && p.name != peers[i].name
  {
    assert peers == peers[..i] + [peers[i]] + peers[i + 1..];
  }

  // Runs

  datatype Op = Start(startEnv: StartEnv) | Stop(linkDeleted: bool) | Add(name: string, addEnv: AddEnv)
              | Remove(name: string, removeEnv: RemoveEnv)

  function Step(subnet: Option<Subnet>, st: State, op: Op): State {
    match op
    case Start(env) => Started(subnet, st, env)
    case Stop(linkDeleted) => Stopped(st, linkDeleted)
    case Add(name, env) => Added(subnet, st, name, env).0
    case Remove(name, env) => Removed(st, name, env)
  }

  function Run(subnet: Option<Subnet>, st: State, ops: seq<Op>): State {
    if ops == [] then st else Step(subnet, Run(subnet, st, ops[..|ops| - 1]), ops[|ops| - 1])
  }

  /** The failures that do not hurt, judged by what the call can see: a generated key
      is new, a starting server re-adds every peer, and a failed save is not followed
      by a successful rollback. */
  ghost predicate Harmless(subnet: Option<Subnet>, st: State, op: Op) {
    match op
    case Start(env) => st.running || forall p <- Loaded(st.peers, st.file) :: p.publicKey !in env.failedAdds
    case Stop(_) => true
    case Add(name, env) =>
      && (env.keys.Some? ==> forall p <- st.peers :: p.publicKey != env.keys.value.1)
      && (Candidate(subnet, st, name, env).0.None? || env.save.Saved? || !env.rollbackOk)
    case Remove(_, _) => true
  }

  ghost predicate HarmlessRun(subnet: Option<Subnet>, st: State, ops: seq<Op>) {
    if ops == [] then true
    else
      var init := ops[..|ops| - 1];
      HarmlessRun(subnet, st, init) && Harmless(subnet, Run(subnet, st, init), ops[|ops| - 1])
  }

  /** In every run of Start, Stop, AddPeer and RemovePeer whose steps are harmless, the
      list, the file and the interface agree after every step. */
  lemma {:induction false} RunKeeps(s: Subnet, st: State, ops: seq<Op>)
    requires Inv(s, st) && HarmlessRun(Some(s), st, ops)
    ensures Inv(s, Run(Some(s), st, ops))
  {
    if ops != [] {
      var init, op := ops[..|ops| - 1], ops[|ops| - 1];
      var mid := Run(Some(s), st, init);
      RunKeeps(s, st, init);
      match op
      case Start(env) => if !mid.running { StartKeeps(s, mid, env); }
      case Stop(_) =>
      case Add(name, env) => AddKeeps(s, mid, name, env);
      case Remove(name, env) => RemoveKeeps(s, mid, name, env);
    }
  }

  /** No interface was ever left behind: every deletion of it succeeds. */
  predicate CleansUp(op: Op) {
    match op
    case Start(env) => env.cleanupOk && !env.link.NotReplaced?
    case Stop(linkDeleted) => linkDeleted
    case _ => true
  }

  /** While the server is down nothing is routed, as long as the interface can be deleted;
      a stop that cannot delete it leaves every entry. */
  lemma {:induction false} DownRoutesNothing(subnet: Option<Subnet>, file: File, ops: seq<Op>)
    requires forall op <- ops :: CleansUp(op)
    ensures var st := Run(subnet, State(false, [], file, map[]), ops);
            && (!st.running ==> st.routes == map[])
            && (st.running ==> Run(subnet, State(false, [], file, map[]), ops + [Stop(false)]) == st.(running := false))
  {
    var st := Run(subnet, State(false, [], file, map[]), ops);
    assert (ops + [Stop(false)])[..|ops|] == ops;
    if ops != [] {
      assert ops[|ops| - 1] in ops && forall op <- ops[..|ops| - 1] :: op in ops;
      DownRoutesNothing(subnet, file, ops[..|ops| - 1]);
    }
  }

  /** Stopping again does not help: what a stop left on the interface stays there. */
  lemma {:induction false} StopTwice(subnet: Option<Subnet>, st: State, first: bool, second: bool)
    ensures var once := Run(subnet, st, [Stop(first)]);
            Run(subnet, st, [Stop(first), Stop(second)]) == once && once.peers == st.peers && once.file == st.file
            && (st.running && !first ==> once.routes == st.routes)
  {
    assert [Stop(first), Stop(second)][..1] == [Stop(first)] && [Stop(first)][..0] == [];
  }

  /** The peer is listed, and is in the file if that can be read. */
  ghost predicate Kept(st: State, p: Peer) {
    p in st.peers && (st.file.Holds? ==> p in st.file.peers)
  }

  lemma StepKeepsPeer(s: Subnet, st: State, op: Op, p: Peer)
    requires Inv(s, st) && Kept(st, p) && (op.Remove? ==> op.name != p.name)
    ensures Kept(Step(Some(s), st, op), p)
  {
    if op.Remove? {
      RemoveKeeps(s, st, op.name, op.removeEnv);
    }
  }

  /** A client that was given a config is served from then on: after any harmless run in
      which nobody removes it, whatever saves fail and however often the server is
      stopped and started, it is still listed and, while the server runs, its address
      is routed to its key. */
  lemma {:induction false} ConfigStaysServed(s: Subnet, st: State, name: string, env: AddEnv, ops: seq<Op>)
    requires Inv(s, st) && Harmless(Some(s), st, Add(name, env)) && Added(Some(s), st, name, env).1.Config?
    requires HarmlessRun(Some(s), Added(Some(s), st, name, env).0, ops)
    requires forall op <- ops :: op.Remove? ==> op.name != name
    ensures var (st', reply) := Added(Some(s), st, name, env);
            var p, end := Peer(name, env.keys.value.1, reply.privateKey, reply.address), Run(Some(s), st', ops);
            Kept(end, p) && (end.running ==> Routed(end.routes, p))
  {
    var (st', reply) := Added(Some(s), st, name, env);
    var p := Peer(name, env.keys.value.1, reply.privateKey, reply.address);
    AddKeeps(s, st, name, env);
    AddReply(Some(s), st, name, env);
    assert st'.peers[|st.peers|] == p;
    PeerStaysKept(s, st', p, ops);
    RunKeeps(s, st', ops);
  }

  lemma {:induction false} PeerStaysKept(s: Subnet, st: State, p: Peer, ops: seq<Op>)
    requires Inv(s, st) && Kept(st, p) && HarmlessRun(Some(s), st, ops)
    requires forall op <- ops :: op.Remove? ==> op.name != p.name
    ensures Kept(Run(Some(s), st, ops), p)
  {
    if ops != [] {
      var init, op := ops[..|ops| - 1], ops[|ops| - 1];
      assert op in ops && forall o <- init :: o in ops;
      PeerStaysKept(s, st, p, init);
      RunKeeps(s, st, init);
      StepKeepsPeer(s, Run(Some(s), st, init), op, p);
    }
  }

  /** A new process, which has only the file to go by, serves that client exactly if the
      file can be read. */
  lemma FreshProcessServes(s: Subnet, st: State, p: Peer, left: Routes, env: StartEnv)
    requires Inv(s, st) && Kept(st, p)
    requires env.keysOk && env.link.SetUp? && env.natFailAt >= Nat.SETUP_STEPS && p.publicKey !in env.failedAdds
    ensures var st' := Started(Some(s), State(false, [], st.file, left), env);
            st'.running && (p in st'.peers && Routed(st'.routes, p) <==> st.file.Holds?)
  {
    if st.file.Holds? {
      var k :| 0 <= k < |st.file.peers| && st.file.peers[k] == p;
      AddAllRoutes(s, st.file.peers, env.failedAdds, k);
    }
  }

  // Removals

  predicate Names(peers: seq<Peer>, name: string) {
    exists p <- peers :: p.name == name
  }

  predicate FileNames(st: State, name: string) {
    st.file.Holds? && Names(st.file.peers, name)
  }

  predicate NeverAdds(ops: seq<Op>, name: string) {
    forall op <- ops :: op.Add? ==> op.name != name
  }

  lemma StepStaysUnlisted(subnet: Option<Subnet>, st: State, op: Op, name: string)
    requires !Names(st.peers, name) && !FileNames(st, name) && (op.Add? ==> op.name != name)
    ensures var st' := Step(subnet, st, op); !Names(st'.peers, name) && !FileNames(st', name)
  {
    if op.Remove? {
      var i := IndexOf(st.peers, op.name);
      if i < |st.peers| {
        assert forall p <- WithoutAt(st.peers, i) :: p in st.peers;
      }
    }
  }

  lemma {:induction false} RunStaysUnlisted(subnet: Option<Subnet>, st: State, ops: seq<Op>, name: string)
    requires !Names(st.peers, name) && !FileNames(st, name) && NeverAdds(ops, name)
    ensures var st' := Run(subnet, st, ops); !Names(st'.peers, name) && !FileNames(st', name)
  {
    if ops != [] {
      var init := ops[..|ops| - 1];
      RunStaysUnlisted(subnet, st, init, name);
      StepStaysUnlisted(subnet, Run(subnet, st, init), ops[|ops| - 1], name);
    }
  }

  function GoodStart(iface: string): StartEnv {
    StartEnv(true, SetUp, {}, iface, Nat.SETUP_STEPS, true)
  }

  /** Stopping and starting brings back, with its route, whoever the file lists. */
  lemma RestartReloads(s: Subnet, st: State, p: Peer, iface: string)
    requires Inv(s, st) && st.running && st.file.Holds? && p in st.file.peers
    ensures var ops := [Stop(true), Start(GoodStart(iface))];
            var st' := Run(Some(s), st, ops);
            HarmlessRun(Some(s), st, ops) && st'.running && p in st'.peers && Routed(st'.routes, p)
  {
    var stop, start := Stop(true), Start(GoodStart(iface));
    assert [stop, start][..1] == [stop] && [stop][..0] == [];
    assert Run(Some(s), st, [stop]) == Stopped(st, true);
    var k :| 0 <= k < |st.file.peers| && st.file.peers[k] == p;
    AddAllRoutes(s, st.file.peers, {}, k);
  }

  /** When a removal is final: if the file it leaves behind does not list the name, no
      run without a new AddPeer of that name lists it again, whatever fails; if the file
      does, some harmless run does. */
  lemma {:induction false} RemovalFinal(s: Subnet, st: State, name: string, env: RemoveEnv)
    requires Inv(s, st) && st.running
    ensures var st' := Removed(st, name, env);
            && (!FileNames(st', name) ==>
                  forall ops :: NeverAdds(ops, name) ==> !Names(Run(Some(s), st', ops).peers, name))
            && (FileNames(st', name) ==>
                  exists ops :: NeverAdds(ops, name) && HarmlessRun(Some(s), st', ops)
                                && Names(Run(Some(s), st', ops).peers, name))
  {
    var st' := Removed(st, name, env);
    RemoveKeeps(s, st, name, env);
    if FileNames(st', name) {
      var p :| p in st'.file.peers && p.name == name;
      RestartReloads(s, st', p, "");
      assert NeverAdds([Stop(true), Start(GoodStart(""))], name);
    } else {
      forall ops | NeverAdds(ops, name)
        ensures !Names(Run(Some(s), st', ops).peers, name)
      {
        RunStaysUnlisted(Some(s), st', ops, name);
      }
    }
  }

  /** A client whose removal could not be saved comes back with its route. */
  lemma UnsavedRemovalReturns(s: Subnet, st: State, p: Peer, iface: string)
    requires Inv(s, st) && st.running && st.peers == [p] && st.file == Holds([p])
    ensures var gone := Removed(st, p.name, RemoveEnv(true, KeptOld));
            var back := Run(Some(s), gone, [Stop(true), Start(GoodStart(iface))]);
            gone.peers == [] && gone.routes == RemovePeerKey(st.routes, p.publicKey)
            && back.peers == [p] && Routed(back.routes, p)
  {
    var gone := Removed(st, p.name, RemoveEnv(true, KeptOld));
    RemoveKeeps(s, st, p.name, RemoveEnv(true, KeptOld));
    assert IndexOf(st.peers, p.name) == 0;
    RestartReloads(s, gone, p, iface);
    assert [Stop(true), Start(GoodStart(iface))][..1] == [Stop(true)] && [Stop(true)][..0] == [];
    assert Run(Some(s), gone, [Stop(true)]) == Stopped(gone, true);
  }

  /** Once the server is up, a packet that no earlier rule decides is masqueraded exactly
      if its source lies in the configured subnet and it leaves by the default interface. */
  lemma ClientsMasqueraded(srv: Server, s: Subnet, t: Table, iface: string, ip: Ipv4, p: Packet)
    requires srv.subnet == Some(s) && p.src == Number(ip) && Walk(t.post, [], p) == Fall
    ensures Walk(Nat.SetupNat(t, srv.SubnetPrefix(), iface, Nat.SETUP_STEPS).post, [], p) ==
            if Contains(s, ip) && p.outIf == iface then Decided(Masquerade) else Fall
  {
    Nat.MasqueradeVerdict(t, Number(s.base), s.bits, iface, p);
    if s.bits == 0 {
      AnyContained(s, ip);
    }
  }

  /** A run from scratch that goes wrong: the save fails and the rollback does not. The
      client is refused, yet its peer stays listed without a route, and asking again is
      refused because the name exists, until it is removed. */
  lemma {:induction false} FailedSaveStrandsPeer(s: Subnet, name: string, keys: (string, string), iface: string,
                                                 again: AddEnv, removal: RemoveEnv)
    requires s.bits <= 24
    ensures var start := Start(GoodStart(iface));
            var add := Add(name, AddEnv(Some(keys), true, KeptOld, true));
            var st := Run(Some(s), State(false, [], Missing, map[]), [start, add]);
            && st.running && st.file == Missing && |st.peers| == 1 && st.peers[0].name == name
            && !Routed(st.routes, st.peers[0])
            && Added(Some(s), st, name, again) == (st, Refused(Exists))
            && Removed(st, name, removal).peers == []
  {
    var start := Start(GoodStart(iface));
    var add := Add(name, AddEnv(Some(keys), true, KeptOld, true));
    var st0, st1 := State(false, [], Missing, map[]), State(true, [], Missing, map[]);
    assert [start, add][..1] == [start] && [start][..0] == [];
    assert Run(Some(s), st0, [start]) == Started(Some(s), st0, start.startEnv) == st1;
    LowestFreeFrom(s, [], FIRST_HOST);
    AllocationSucceeds(s, [], Allocate(Some(s), []));
    assert AllowedOf(st1.peers) == [];
  }

  /** Stopping and starting a server whose last save succeeded brings the same peers
      back on an interface that routes their addresses and nothing else. */
  lemma RestartRecovers(s: Subnet, st: State, linkDeleted: bool, env: StartEnv, a: string)
    requires Inv(s, st) && st.running && st.file == Holds(st.peers)
    requires env.keysOk && env.link.SetUp? && env.natFailAt >= Nat.SETUP_STEPS
    requires forall p <- st.peers :: p.publicKey !in env.failedAdds
    ensures var st' := Started(Some(s), Stopped(st, linkDeleted), env);
            && st'.running && st'.peers == st.peers && Inv(s, st')
            && (a in st'.routes <==> exists p <- st.peers :: p.allowedIp == a)
            && (a in st'.routes ==> a in st.routes && st'.routes[a] == st.routes[a])
  {
    var st' := Started(Some(s), Stopped(st, linkDeleted), env);
    StartKeeps(s, Stopped(st, linkDeleted), env);
    assert forall p <- st.peers :: Routed(st'.routes, p) && Routed(st.routes, p);
    if a in st'.routes {
      AddAllDomain(st.peers, env.failedAdds, a);
      var i :| 0 <= i < |st.peers| && st.peers[i].allowedIp == a;
      assert st.peers[i] in st.peers;
    }
  }

  /** What the invariant means for two clients of a running server: different
      addresses, neither the server's, each delivered to its own key. */
  lemma RunningPeersSeparated(s: Subnet, st: State, i: nat, j: nat, x: Ipv4, y: Ipv4)
    requires Inv(s, st) && st.running && i < j < |st.peers|
    requires st.peers[i].allowedIp == AllowedIp(x) && st.peers[j].allowedIp == AllowedIp(y)
    ensures x != y && x != ServerAddress(s) && Contains(s, x)
    ensures AllowedIp(x) in st.routes && AllowedIp(y) in st.routes && st.routes[AllowedIp(x)] != st.routes[AllowedIp(y)]
  {
    var p, q := st.peers[i], st.peers[j];
    assert p in st.peers && q in st.peers;
    assert Routed(st.routes, p) && Routed(st.routes, q);
    AddressOf(s, p, x);
  }

  lemma AddressOf(s: Subnet, p: Peer, x: Ipv4)
    requires HasClientAddress(s, p) && p.allowedIp == AllowedIp(x)
    ensures Contains(s, x) && x != ServerAddress(s)
  {
    var ip :| p.allowedIp == AllowedIp(ip) && Contains(s, ip) && ip != ServerAddress(s);
    AllowedIpPrefix(ip);
    AllowedIpPrefix(x);
    PrintInjective(ip, x);
  }
}
