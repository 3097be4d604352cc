/** The peer store: the list in memory and the file it is saved to. */
module Peers {
  import opened Options
  import opened Lists

  datatype Peer = Peer(name: string, publicKey: string, privateKey: string, allowedIp: string)

  /** What reading the peers file would find. */
  datatype File = Missing | Unreadable | Garbage | Holds(peers: seq<Peer>)

  /** A failed write leaves the old file or a torn one. */
  datatype SaveOutcome = Saved | KeptOld | Torn

  /** Position of the first peer of that name, or |peers|. */
  function IndexOf(peers: seq<Peer>, name: string): nat {
    FirstIndex(peers, (p: Peer) => p.name == name)
  }

  function Without(peers: seq<Peer>, name: string): seq<Peer> {
    var i := IndexOf(peers, name);
    if i < |peers| then WithoutAt(peers, i) else peers
  }

  function AfterSave(file: File, peers: seq<Peer>, outcome: SaveOutcome): File {
    match outcome
    case Saved => Holds(peers)
    case KeptOld => file
    case Torn => Garbage
  }

  function Loaded(peers: seq<Peer>, file: File): seq<Peer> {
    if file.Holds? then file.peers else peers
  }

  class PeerStore {
    var peers: seq<Peer>
    var file: File

    constructor (file: File)
      ensures peers == [] && this.file == file
    {
      peers, this.file := [], file;
    }

    /** A missing file is not an error; any other failure keeps the peers in memory. */
    method Load() returns (ok: bool)
      modifies this`peers
      ensures ok <==> file.Missing? || file.Holds?
      ensures peers == Loaded(old(peers), file)
    {
      match file
      case Missing => ok := true;
      case Holds(stored) =>
        peers := stored;
        ok := true;
      case _ => ok := false;
    }

    method Save(outcome: SaveOutcome) returns (ok: bool)
      modifies this`file
      ensures ok <==> outcome.Saved?
      ensures file == AfterSave(old(file), peers, outcome)
    {
      file := AfterSave(file, peers, outcome);
      ok := outcome.Saved?;
    }

    /** The peer is in memory even when saving it failed. */
    method Add(peer: Peer, outcome: SaveOutcome) returns (ok: bool)
      modifies this
      ensures ok <==> outcome.Saved?
      ensures peers == old(peers) + [peer]
      ensures file == AfterSave(old(file), peers, outcome)
    {
      peers := peers + [peer];
      ok := Save(outcome);
    }

    method Remove(name: string, outcome: SaveOutcome) returns (ok: bool)
      modifies this
      ensures ok <==> IndexOf(old(peers), name) < |old(peers)| && outcome.Saved?
      ensures peers == Without(old(peers), name)
      ensures file == if IndexOf(old(peers), name) < |old(peers)| then AfterSave(old(file), peers, outcome)
                      else old(file)
    {
      for i := 0 to |peers|
        invariant unchanged(this)
        invariant IndexOf(peers, name) >= i
      {
        if peers[i].name == name {
          peers := peers[..i] + peers[i + 1..];
          ok := Save(outcome);
          return;
        }
      }
      ok := false;
    }

    method Get(name: string) returns (p: Option<Peer>)
      ensures var i := IndexOf(peers, name); p == if i < |peers| then Some(peers[i]) else None
    {
      for i := 0 to |peers|
        invariant IndexOf(peers, name) >= i
      {
        if peers[i].name == name {
          return Some(peers[i]);
        }
      }
      p := None;
    }
  }
}
