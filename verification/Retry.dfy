/** The retrying proxy: one backend handshake with exact reply framing, and the
    cyclic retry over the backend list. */
module Retry {
  import opened Counting
  import opened Decimal
  import opened Socks

  const GREETING: seq<Byte> := [5, 1, 0]
  const MAX_RETRIES := 5

  /** A backend port: nothing listens, or a server that will send `stream`, of which
      the first `arrived` bytes come before the handshake deadline. */
  datatype Backend = Down | Up(stream: seq<Byte>, arrived: nat)

  predicate ValidBackend(b: Backend) {
    b.Up? ==> b.arrived <= |b.stream|
  }

  function Min(a: int, b: int): int {
    if a < b then a else b
  }

  /** Bytes [from, to) of a stream of which `arrived` bytes came in time, with zeros
      for the missing ones: what a short `ReadFull` leaves in a fresh buffer. */
  function Window(stream: seq<Byte>, arrived: nat, from: nat, to: nat): (w: seq<Byte>)
    requires arrived <= |stream| && from <= to
    ensures |w| == to - from
  {
    seq(to - from, i requires 0 <= i < to - from => if from + i < arrived then stream[from + i] else 0)
  }

  class Conn {
    const stream: seq<Byte>
    const arrived: nat
    var pos: nat
    var deadline: bool
    var closed: bool
    var written: seq<Byte>

    constructor (b: Backend)
      requires b.Up?
      ensures stream == b.stream && arrived == b.arrived && pos == 0 && deadline && !closed && written == []
    {
      stream, arrived := b.stream, b.arrived;
      pos, deadline, closed, written := 0, true, false, [];
    }

    method Write(bytes: seq<Byte>)
      modifies this`written
      ensures written == old(written) + bytes
    {
      written := written + bytes;
    }

    method ReadFull(n: nat) returns (buf: seq<Byte>, ok: bool)
      requires deadline && pos <= arrived <= |stream|
      modifies this`pos
      ensures ok <==> old(pos) + n <= arrived
      ensures buf == Window(stream, arrived, old(pos), old(pos) + n)
      ensures pos == Min(old(pos) + n, arrived)
    {
      ok := pos + n <= arrived;
      buf := Window(stream, arrived, pos, pos + n);
      pos := Min(pos + n, arrived);
    }
  }

  /** `Nothing` is a nil connection together with a nil error. */
  datatype Attempt = Connected(reply: seq<Byte>, consumed: nat) | Nothing | Error

  /** Length of the address and port after the four-byte reply header; an unknown
      address type is read as IPv4. */
  function TailLength(addressType: int): nat {
    if addressType == 4 then 18 else 6
  }

  /** The length of the reply as its bytes announce it; a domain length that never
      came counts as zero. */
  function Announced(b: Backend): nat
    requires ValidBackend(b) && b.Up? && b.arrived >= 6
  {
    if b.stream[5] == 3 then 7 + (if b.arrived > 6 then b.stream[6] as int else 0) else 4 + TailLength(b.stream[5])
  }

  function Attempted(b: Backend): Attempt
    requires ValidBackend(b)
  {
    if b.Down? || b.arrived < 2 then Error
    else if b.stream[1] != 0 then Nothing
    else if b.arrived < 6 || b.stream[3] != 0 then Error
    else
      var end := 2 + Announced(b);
      Connected(Window(b.stream, b.arrived, 2, end), Min(end, b.arrived))
  }

  /** The rest of the reply; a read that comes up short is not noticed. */
  method ReadTail(c: Conn, b: Backend, addressType: Byte) returns (tail: seq<Byte>)
    requires ValidBackend(b) && b.Up? && b.arrived >= 6 && addressType == b.stream[5]
    requires c.stream == b.stream && c.arrived == b.arrived && c.deadline && c.pos == 6
    modifies c`pos
    ensures c.pos == Min(2 + Announced(b), b.arrived)
    ensures tail == Window(b.stream, b.arrived, 6, 2 + Announced(b))
  {
    tail := [];
    var size := TailLength(addressType);
    if addressType == 3 {
      var lenBuf, _ := c.ReadFull(1);
      size := lenBuf[0] as int + 2;
      tail := lenBuf;
    }
    var rest, _ := c.ReadFull(size);
    tail := tail + rest;
  }

  method TryBackend(b: Backend, request: seq<Byte>) returns (conn: Conn?, reply: seq<Byte>, failed: bool)
    requires ValidBackend(b)
    ensures failed <==> Attempted(b).Error?
    ensures conn != null <==> Attempted(b).Connected?
    ensures conn != null ==>
              && fresh(conn) && !conn.closed && !conn.deadline && conn.written == [5, 1, 0] + request
              && conn.stream == b.stream && conn.pos == Attempted(b).consumed <= |b.stream|
              && reply == Attempted(b).reply
  {
    if b.Down? {
      return null, [], true;
    }
    var c := new Conn(b);
    c.Write(GREETING);
    var buf, ok := c.ReadFull(2);
    if !ok || buf[1] != 0 {
      c.closed := true;
      return null, [], !ok;
    }
    c.Write(request);
    var headerOk: bool;
    reply, headerOk := c.ReadFull(4);
    if !headerOk {
      c.closed := true;
      return null, [], true;
    }
    if reply[1] != 0 {
      c.closed := true;
      return null, [], true;
    }
    var tail := ReadTail(c, b, reply[3]);
    reply := reply + tail;
    c.deadline := false;
    conn, failed := c, false;
  }

  // Outcomes, read off the bytes

  /** The bytes that come before the deadline begin with these. */
  predicate Arrives(b: Backend, bytes: seq<Byte>)
    requires ValidBackend(b)
  {
    b.Up? && bytes <= b.stream[..b.arrived]
  }

  /** The bytes up to the end of the reply header that a backend has sent in time. */
  function Hello(b: Backend): seq<Byte>
    requires ValidBackend(b) && b.Up?
  {
    b.stream[..Min(6, b.arrived)]
  }

  /** A backend connects exactly if it accepts the method and its whole reply header with
      code 0 comes in time; it ends the retries exactly if it refuses the method in time;
      and it fails exactly if it is down, sends no whole method reply in time, or accepts
      the method and then sends no whole header in time or one with another code. */
  lemma OutcomeExactly(b: Backend)
    requires ValidBackend(b)
    ensures Attempted(b).Connected? <==>
            exists m, v, r, a :: Arrives(b, [m, 0, v, 0, r, a])
    ensures Attempted(b).Nothing? <==> exists m, code :: Arrives(b, [m, code]) && code != 0
    ensures Attempted(b).Error? <==>
            || b.Down?
            || |Hello(b)| < 2
            || (|Hello(b)| < 6 && exists m :: Arrives(b, [m, 0]))
            || exists m, v, code, r, a :: Arrives(b, [m, 0, v, code, r, a]) && code != 0
  {
    if b.Up? {
      forall bytes: seq<Byte> | Arrives(b, bytes)
        ensures b.stream[..|bytes|] == bytes
      {
      }
      if b.arrived >= 2 {
        HelloArrives(b, 2);
      }
      if b.arrived >= 6 {
        HelloArrives(b, 6);
      }
    }
  }

  lemma HelloArrives(b: Backend, n: nat)
    requires ValidBackend(b) && b.Up? && n <= b.arrived
    ensures Arrives(b, b.stream[..n])
    ensures n == 2 ==> b.stream[..2] == [b.stream[0], b.stream[1]]
    ensures n == 6 ==> var s := b.stream; s[..6] == [s[0], s[1], s[2], s[3], s[4], s[5]]
  {
    assert b.stream[..b.arrived][..n] == b.stream[..n];
  }

  /** The bytes handed on by a connected attempt: ten for an IPv4 or unknown address type,
      22 for IPv6, seven and the announced length for a domain (zero if that byte is
      missing), taken from the stream as far as they came in time and zero after that. */
  lemma ReplyExactly(b: Backend)
    requires ValidBackend(b) && Attempted(b).Connected?
    ensures var Connected(reply, consumed) := Attempted(b);
            && |b.stream| >= b.arrived >= 6
            && |reply| == (match b.stream[5]
                           case 3 => if b.arrived == 6 then 7 else 7 + b.stream[6] as int
                           case 4 => 22
                           case _ => 10)
            && (forall i :: 0 <= i < |reply| ==> reply[i] == if 2 + i < b.arrived then b.stream[2 + i] else 0)
            && consumed == if b.arrived < 2 + |reply| then b.arrived else 2 + |reply|
  {
  }

  /** Any acceptance followed by a header with a failure code fails the attempt, whatever
      comes after it. */
  lemma FailureReplyFails(first: Byte, version: Byte, code: Byte, rest: seq<Byte>, arrived: nat)
    requires |rest| >= 2 && code != 0 && arrived <= 4 + |rest|
    ensures Attempted(Up([first, 0, version, code] + rest, arrived)).Error?
  {
  }

  // Framing

  datatype Address = Ip4(a: seq<Byte>) | Name(host: seq<Byte>) | Ip6(a: seq<Byte>)

  predicate ValidAddress(a: Address) {
    match a
    case Ip4(x) => |x| == 4
    case Name(host) => |host| < 256
    case Ip6(x) => |x| == 16
  }

  /** A success reply (section 6 of RFC 1928). */
  function EncodeReply(a: Address, hi: Byte, lo: Byte): seq<Byte>
    requires ValidAddress(a)
  {
    [5, 0, 0] + (match a
                 case Ip4(x) => [1] + x
                 case Name(host) => [3, |host|] + host
                 case Ip6(x) => [4] + x) + [hi, lo]
  }

  /** Every byte of the announced reply came before the deadline. */
  predicate ReplyArrived(b: Backend) {
    b.Up? && ValidBackend(b) && b.arrived >= 6 && b.arrived >= 2 + Announced(b)
  }

  /** What the client is sent: the reply, then everything the connection still delivers. */
  function ClientStream(b: Backend): seq<Byte>
    requires ValidBackend(b) && Attempted(b).Connected?
  {
    Attempted(b).reply + b.stream[Attempted(b).consumed..]
  }

  /** Through a connected backend the client sees the backend's stream without its
      first two bytes exactly when the whole announced reply arrived in time; a reply
      cut short is filled up with zeros. */
  lemma Transparent(b: Backend)
    requires ValidBackend(b) && Attempted(b).Connected?
    ensures ClientStream(b) == b.stream[2..] <==> ReplyArrived(b)
  {
    var end := 2 + Announced(b);
    if ReplyArrived(b) {
      assert Window(b.stream, b.arrived, 2, end) == b.stream[2..end];
      assert b.stream[2..] == b.stream[2..end] + b.stream[end..];
    } else {
      assert |ClientStream(b)| > |b.stream| - 2;
    }
  }

  lemma ReplyHead(a: Address, hi: Byte, lo: Byte)
    requires ValidAddress(a)
    ensures var r := EncodeReply(a, hi, lo);
            && |r| == (match a case Ip4(_) => 10 case Name(host) => 7 + |host| case Ip6(_) => 22)
            && r[1] == 0 && r[3] == (match a case Ip4(_) => 1 case Name(_) => 3 case Ip6(_) => 4)
            && (a.Name? ==> r[4] == |a.host|)
  {
  }

  /** Any acceptance followed by any encoded success reply and any data is consumed up
      to the end of the reply, and the client receives the reply and the data. */
  lemma EncodedReplyRelayed(version: Byte, a: Address, hi: Byte, lo: Byte, data: seq<Byte>, arrived: nat)
    requires ValidAddress(a)
    requires 2 + |EncodeReply(a, hi, lo)| <= arrived <= 2 + |EncodeReply(a, hi, lo)| + |data|
    ensures var reply := EncodeReply(a, hi, lo);
            var b := Up([version, 0] + reply + data, arrived);
            && Attempted(b) == Connected(reply, 2 + |reply|)
            && ClientStream(b) == reply + data
  {
    ReplyHead(a, hi, lo);
    AnyReplyRelayed(version, EncodeReply(a, hi, lo), data, arrived);
  }

  lemma AnyReplyRelayed(version: Byte, reply: seq<Byte>, data: seq<Byte>, arrived: nat)
    requires |reply| >= 5 && reply[1] == 0
    requires |reply| == if reply[3] == 3 then 7 + reply[4] as int else 4 + TailLength(reply[3])
    requires 2 + |reply| <= arrived <= 2 + |reply| + |data|
    ensures var b := Up([version, 0] + reply + data, arrived);
            Attempted(b) == Connected(reply, 2 + |reply|) && ClientStream(b) == reply + data
  {
    var b := Up([version, 0] + reply + data, arrived);
    assert b.stream[2..] == reply + data;
    assert forall i :: 0 <= i < |reply| ==> b.stream[2 + i] == reply[i];
    assert Announced(b) == |reply|;
    assert Window(b.stream, arrived, 2, 2 + |reply|) == reply;
    Transparent(b);
  }

  // Retrying

  /** Go's remainder, which takes the sign of x. */
  function Rem(x: int, n: int): (r: int)
    requires n > 0
    ensures -n < r < n
  {
    if x >= 0 then x % n else -(-x % n)
  }

  datatype Result = Ignored | NoBackends | Panicked | Refused | Relayed(position: nat, sent: seq<Byte>)

  const REFUSAL: seq<Byte> := [5, 5, 0, 1, 0, 0, 0, 0, 0, 0]
  const FAILURE: seq<Byte> := [5, 1, 0, 1, 0, 0, 0, 0, 0, 0]

  /** What the client is sent after the greeting. */
  function Answer(result: Result): seq<Byte> {
    match result
    case Ignored => []
    case NoBackends => [5, 1, 0, 1, 0, 0, 0, 0, 0, 0]
    case Panicked => []
    case Refused => [5, 5, 0, 1, 0, 0, 0, 0, 0, 0]
    case Relayed(_, sent) => sent
  }

  function Cyclic(start: nat, n: nat, k: nat): seq<nat>
    requires n > 0
  {
    seq(k, i requires i >= 0 => (start + i) % n)
  }

  /** What the retry loop did from `start`: the positions it tried, in order, and how
      it ended. Every attempt but the last failed; it stopped early only at one that
      did not. */
  ghost predicate Retried(bs: seq<Backend>, start: nat, tried: seq<nat>, result: Result)
    requires bs != [] && forall b <- bs :: ValidBackend(b)
  {
    var n, k := |bs|, |tried|;
    && 1 <= k <= Min(MAX_RETRIES, n)
    && tried == Cyclic(start, n, k)
    && (forall i :: 0 <= i < k - 1 ==> Attempted(bs[tried[i]]) == Error)
    && match Attempted(bs[tried[k - 1]])
       case Error => k == Min(MAX_RETRIES, n) && result == Refused
       case Nothing => result == Refused
       case Connected(_, _) => result == Relayed(tried[k - 1], ClientStream(bs[tried[k - 1]]))
  }

  class RetryProxy {
    var index: nat

    ghost predicate Valid()
      reads this
    {
      index < TWO_64
    }

    constructor ()
      ensures Valid() && index == 0
    {
      index := 0;
    }

    /** `gold` and `healthy` are the backends at the ports the two pools list. */
    method HandleConn(greeting: Read, request: Read, gold: seq<Backend>, healthy: seq<Backend>)
      returns (result: Result, written: seq<Byte>, ghost tried: seq<nat>, ghost start: int)
      requires Valid() && forall b <- gold + healthy :: ValidBackend(b)
      modifies this
      ensures Valid()
      ensures var pool := if gold == [] then healthy else gold;
              && (result.Ignored? <==> !GreetingOk(greeting) || !request.Got? || |request.bytes| < 7)
              && (!result.Ignored? ==> (result.NoBackends? <==> pool == []))
              && (if result.Ignored? || result.NoBackends? then index == old(index) && tried == []
                  else && index == (old(index) + 1) % TWO_64
                       && start == Rem(Wrap64(index), |pool|)
                       && (result.Panicked? <==> start < 0)
                       && (start >= 0 ==> Retried(pool, start, tried, result)))
      ensures written == if !GreetingOk(greeting) then [] else [5, 0] + Answer(result)
    {
      tried, start, written := [], 0, [];
      if greeting.Failed? || |greeting.bytes| < 2 || greeting.bytes[0] != 5 {
        return Ignored, written, tried, start;
      }
      written := METHOD_NONE;
      if request.Failed? || |request.bytes| < 7 {
        return Ignored, written, tried, start;
      }
      var pool := gold;
      if |pool| == 0 {
        pool := healthy;
      }
      if |pool| == 0 {
        return NoBackends, written + FAILURE, tried, start;
      }
      assert forall b <- pool :: b in gold + healthy;
      index := (index + 1) % TWO_64;
      var startIdx := Rem(Wrap64(index), |pool|);
      start := startIdx;
      result, tried := TryInTurn(pool, startIdx, request.bytes);
      written := written + if result.Relayed? then result.sent else if result.Refused? then REFUSAL else [];
    }
  }

  /** The retry loop. */
  method TryInTurn(pool: seq<Backend>, startIdx: int, request: seq<Byte>)
    returns (result: Result, ghost tried: seq<nat>)
    requires pool != [] && forall b <- pool :: ValidBackend(b)
    requires -|pool| < startIdx < |pool|
    ensures startIdx < 0 ==> result == Panicked
    ensures startIdx >= 0 ==> Retried(pool, startIdx, tried, result)
  {
    tried, result := [], Refused;
    for attempt := 0 to Min(MAX_RETRIES, |pool|)
      invariant attempt > 0 ==> startIdx >= 0
      invariant startIdx >= 0 ==> tried == Cyclic(startIdx, |pool|, attempt)
      invariant forall i :: 0 <= i < |tried| ==> tried[i] < |pool| && Attempted(pool[tried[i]]) == Error
    {
      CyclicStep(startIdx, |pool|, attempt);
      var idx := Rem(startIdx + attempt, |pool|);
      if idx < 0 {
        return Panicked, tried;
      }
      tried := tried + [idx];
      var upstream, reply, failed := TryBackend(pool[idx], request);
      if !failed {
        if upstream != null {
          result := Relayed(idx, reply + upstream.stream[upstream.pos..]);
        }
        return;
      }
    }
  }

  lemma CyclicStep(start: int, n: nat, k: nat)
    requires n > 0 && start + n > 0 && (k > 0 ==> start >= 0)
    ensures start >= 0 ==> Cyclic(start, n, k + 1) == Cyclic(start, n, k) + [(start + k) % n]
    ensures start < 0 ==> Rem(start, n) < 0
  {
    if start < 0 {
      DivModUnique(-start, n, 0, -start);
    }
  }

  /** The process panics exactly for connection counts past 2^63 whose distance to
      2^64 is not a multiple of the pool size. */
  lemma PanicExactly(index: nat, n: nat)
    requires index < TWO_64 && n > 0
    ensures Rem(Wrap64(index), n) < 0 <==> index >= TWO_63 && (TWO_64 - index) % n != 0
  {
  }

  lemma CyclicDistinct(start: nat, n: nat, i: nat, j: nat)
    requires start < n && i < j < n
    ensures (start + i) % n != (start + j) % n
  {
    ModOnce(start + i, n);
    ModOnce(start + j, n);
  }

  lemma ModOnce(x: nat, n: nat)
    requires n > 0 && x < 2 * n
    ensures x % n == if x < n then x else x - n
  {
    DivModUnique(x, n, if x < n then 0 else 1, if x < n then x else x - n);
  }

  function Positions(s: seq<nat>): set<nat> {
    set p | p in s
  }

  lemma {:induction false} CyclicCount(start: nat, n: nat, k: nat)
    requires start < n && k <= n
    ensures |Positions(Cyclic(start, n, k))| == k
  {
    if k > 0 {
      CyclicCount(start, n, k - 1);
      var last := CyclicNext(start, n, k - 1);
      assert Positions(Cyclic(start, n, k)) == Positions(Cyclic(start, n, k - 1)) + {last};
    }
  }

  lemma CyclicNext(start: nat, n: nat, k: nat) returns (next: nat)
    requires start < n && k < n
    ensures Cyclic(start, n, k + 1) == Cyclic(start, n, k) + [next] && next !in Cyclic(start, n, k)
  {
    next := (start + k) % n;
    forall i | 0 <= i < k
      ensures Cyclic(start, n, k)[i] != next
    {
      CyclicDistinct(start, n, i, k);
    }
  }

  function FailingPositions(bs: seq<Backend>): set<nat>
    requires forall b <- bs :: ValidBackend(b)
  {
    set p | 0 <= p < |bs| && Attempted(bs[p]) == Error
  }

  /** The attempts are at distinct positions. With no backend refusing the greeting
      method, a connection is refused only if at least min(5, n) backends fail: with
      fewer failures it is always relayed, and for n at most 5 it is refused exactly
      when all n fail. */
  lemma EnoughWorkingBackends(bs: seq<Backend>, start: nat, tried: seq<nat>, result: Result)
    requires bs != [] && start < |bs| && forall b <- bs :: ValidBackend(b)
    requires Retried(bs, start, tried, result)
    ensures |Positions(tried)| == |tried|
    ensures (forall b <- bs :: !Attempted(b).Nothing?) ==>
              && (|FailingPositions(bs)| < Min(5, |bs|) ==> result.Relayed?)
              && (|bs| <= 5 ==> (result.Refused? <==> forall b <- bs :: Attempted(b) == Error))
  {
    var n, k := |bs|, |tried|;
    CyclicCount(start, n, k);
    assert bs[tried[k - 1]] in bs;
    if (forall b <- bs :: !Attempted(b).Nothing?) && result.Refused? {
      assert Positions(tried) <= FailingPositions(bs);
      SubsetSize(Positions(tried), FailingPositions(bs));
      if n <= MAX_RETRIES {
        AllCovered(tried, n);
        forall b <- bs
          ensures Attempted(b) == Error
        {
          var p :| 0 <= p < n && bs[p] == b;
          assert p in tried;
          assert p in FailingPositions(bs);
        }
      }
    }
  }

  function Below(n: nat): set<nat> {
    if n == 0 then {} else Below(n - 1) + {n - 1}
  }

  lemma {:induction false} BelowIs(n: nat)
    ensures |Below(n)| == n
    ensures forall p: nat :: p in Below(n) <==> p < n
  {
    if n > 0 {
      BelowIs(n - 1);
      assert Below(n) == Below(n - 1) + {n - 1} && n - 1 !in Below(n - 1);
    }
  }

  /** n distinct positions below n are all of them. */
  lemma AllCovered(tried: seq<nat>, n: nat)
    requires |Positions(tried)| == n && forall p <- tried :: p < n
    ensures forall p: nat :: p < n ==> p in tried
  {
    BelowIs(n);
    assert Positions(tried) <= Below(n);
    SubsetSize(Positions(tried), Below(n));
    forall p: nat | p < n
      ensures p in tried
    {
      assert p in Positions(tried);
    }
  }

  /** What attempt number j from `start` meets. */
  function AttemptAt(bs: seq<Backend>, start: nat, j: nat): Attempt
    requires bs != [] && forall b <- bs :: ValidBackend(b)
  {
    Attempted(bs[(start + j) % |bs|])
  }

  /** Attempt number i is the first that does not fail. */
  ghost predicate StopsAt(bs: seq<Backend>, start: nat, i: nat)
    requires bs != [] && forall b <- bs :: ValidBackend(b)
  {
    && i < Min(5, |bs|) && AttemptAt(bs, start, i) != Error
    && forall j: nat :: j < i ==> AttemptAt(bs, start, j) == Error
  }

  lemma TriedAttempts(bs: seq<Backend>, start: nat, tried: seq<nat>, result: Result)
    requires bs != [] && start < |bs| && forall b <- bs :: ValidBackend(b)
    requires Retried(bs, start, tried, result)
    ensures forall j: nat :: j < |tried| ==> Attempted(bs[tried[j]]) == AttemptAt(bs, start, j)
    ensures forall j: nat :: j < |tried| - 1 ==> AttemptAt(bs, start, j) == Error
    ensures forall i: nat :: StopsAt(bs, start, i) ==> i == |tried| - 1
  {
    forall j: nat | j < |tried|
      ensures Attempted(bs[tried[j]]) == AttemptAt(bs, start, j)
    {
      assert tried[j] == Cyclic(start, |bs|, |tried|)[j];
    }
  }

  /** The exact outcome from any start: relayed if the first of the min(5, n) positions
      that does not fail connects, and then through that one; refused otherwise. */
  lemma RelayedExactly(bs: seq<Backend>, start: nat, tried: seq<nat>, result: Result)
    requires bs != [] && start < |bs| && forall b <- bs :: ValidBackend(b)
    requires Retried(bs, start, tried, result)
    ensures result.Relayed? <==> exists i: nat :: StopsAt(bs, start, i) && AttemptAt(bs, start, i).Connected?
    ensures result.Relayed? || result == Refused
    ensures forall i: nat :: StopsAt(bs, start, i) && AttemptAt(bs, start, i).Connected? ==>
              var p := (start + i) % |bs|; result == Relayed(p, ClientStream(bs[p]))
  {
    TriedAttempts(bs, start, tried, result);
    if result.Relayed? {
      assert StopsAt(bs, start, |tried| - 1);
    }
  }

  /** A relayed client is only ever told success: the first four bytes it is sent are a
      reply header with code 0. */
  lemma RelayedSuccess(bs: seq<Backend>, start: nat, tried: seq<nat>, result: Result)
    requires bs != [] && start < |bs| && forall b <- bs :: ValidBackend(b)
    requires Retried(bs, start, tried, result) && result.Relayed?
    ensures |result.sent| >= 4 && result.sent[1] == 0
    ensures var b := bs[result.position]; b.Up? && 6 <= b.arrived <= |b.stream| && result.sent[..4] == b.stream[2..6]
  {
    var b := bs[tried[|tried| - 1]];
    assert Attempted(b).reply == Window(b.stream, b.arrived, 2, 2 + Announced(b));
  }

  /** A backend that answers the request with a failure code costs one attempt: the next
      one is tried, and relayed if it connects. */
  lemma FailureReplyFailsOver(first: Byte, version: Byte, code: Byte, rest: seq<Byte>, good: Backend,
                              others: seq<Backend>, tried: seq<nat>, result: Result)
    requires |rest| >= 2 && code != 0
    requires ValidBackend(good) && Attempted(good).Connected? && forall b <- others :: ValidBackend(b)
    requires var bad := Up([first, 0, version, code] + rest, 4 + |rest|);
             var bs := [bad, good] + others;
             (forall b <- bs :: ValidBackend(b)) && Retried(bs, 0, tried, result)
    ensures tried == [0, 1] && result == Relayed(1, ClientStream(good))
  {
    var bad := Up([first, 0, version, code] + rest, 4 + |rest|);
    var bs := [bad, good] + others;
    FailureReplyFails(first, version, code, rest, 4 + |rest|);
    ModOnce(1, |bs|);
    assert AttemptAt(bs, 0, 0) == Error && AttemptAt(bs, 0, 1).Connected?;
    assert StopsAt(bs, 0, 1);
    TriedAttempts(bs, 0, tried, result);
    RelayedExactly(bs, 0, tried, result);
  }

  /** One backend that refuses the greeting method ends the retries wherever it comes
      up: whatever the backends after it would do, the client is refused. */
  lemma MethodRefusalEndsRetries(bs: seq<Backend>, start: nat, tried: seq<nat>, result: Result, i: nat)
    requires bs != [] && start < |bs| && forall b <- bs :: ValidBackend(b)
    requires Retried(bs, start, tried, result)
    requires StopsAt(bs, start, i) && AttemptAt(bs, start, i).Nothing?
    ensures result == Refused && tried == Cyclic(start, |bs|, i + 1)
  {
    TriedAttempts(bs, start, tried, result);
  }

  /** With fewer than min(5, n) failing backends, a connection is relayed from every
      start exactly when no backend refuses the greeting method. */
  lemma AlwaysRelayedExactly(bs: seq<Backend>)
    requires bs != [] && forall b <- bs :: ValidBackend(b)
    requires |FailingPositions(bs)| < Min(5, |bs|)
    ensures (forall start: nat, tried, result | start < |bs| && Retried(bs, start, tried, result) :: result.Relayed?)
            <==> forall b <- bs :: !Attempted(b).Nothing?
  {
    if forall b <- bs :: !Attempted(b).Nothing? {
      forall start: nat, tried, result | start < |bs| && Retried(bs, start, tried, result)
        ensures result.Relayed?
      {
        EnoughWorkingBackends(bs, start, tried, result);
      }
    } else {
      var p :| 0 <= p < |bs| && Attempted(bs[p]).Nothing?;
      RefusedThere(bs, p);
    }
  }

  lemma RefusedThere(bs: seq<Backend>, p: nat)
    requires p < |bs| && (forall b <- bs :: ValidBackend(b)) && Attempted(bs[p]).Nothing?
    ensures Retried(bs, p, [p], Refused)
  {
    DivModUnique(p, |bs|, 0, p);
    assert Cyclic(p, |bs|, 1) == [p];
  }

  // Inputs that show the failures

  /** No backend fails and all but one work, and yet the client is refused. */
  lemma OneRefusalAmongWorking(good: Backend, n: nat)
    requires ValidBackend(good) && Attempted(good).Connected?
    ensures var bs := [Up([5, 0xff], 2)] + seq(n, _ => good);
            (forall b <- bs :: ValidBackend(b)) && FailingPositions(bs) == {} && Retried(bs, 0, [0], Refused)
  {
    var bs := [Up([5, 0xff], 2)] + seq(n, _ => good);
    assert Attempted(bs[0]) == Nothing;
    RefusedThere(bs, 0);
  }

  /** A reply of which only the four-byte header comes in time is passed on with six
      zeros, before the late bytes. */
  lemma LateReplyIsPadded()
    ensures var b := Up([5, 0, 5, 0, 0, 1, 10, 0, 0, 7, 4, 56], 6);
            && Attempted(b).Connected? && !ReplyArrived(b)
            && ClientStream(b) == [5, 0, 0, 1, 0, 0, 0, 0, 0, 0, 10, 0, 0, 7, 4, 56]
  {
    var b := Up([5, 0, 5, 0, 0, 1, 10, 0, 0, 7, 4, 56], 6);
    assert Attempted(b).reply == [5, 0, 0, 1, 0, 0, 0, 0, 0, 0];
    assert b.stream[6..] == [10, 0, 0, 7, 4, 56];
  }

  /** With three backends the connection after 2^63 - 1 others panics. */
  lemma PanicOnThree()
    ensures Rem(Wrap64(TWO_63), 3) == -2
  {
  }
}
