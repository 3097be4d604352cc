/** SOCKS5 wire handling of the load-balancing proxy: authentication (RFC 1929),
    request parsing (RFC 1928) and the connection handler up to backend selection. */
module Socks {
  import opened Decimal

  type Byte = b: int | 0 <= b < 256

  const BUFFER := 258

  /** Bytes as the characters of a Go string. */
  function Text(b: seq<Byte>): (s: string)
    ensures |s| == |b|
  {
    seq(|b|, i requires 0 <= i < |b| => b[i] as char)
  }

  function Word(hi: int, lo: int): int {
    256 * hi + lo
  }

  // Requests

  datatype Target = V4(a: Byte, b: Byte, c: Byte, d: Byte) | Domain(host: seq<Byte>)

  datatype Request = Request(target: Target, port: nat)

  predicate Encodable(r: Request) {
    r.port < 0x1_0000 && (r.target.Domain? ==> |r.target.host| < 256)
  }

  /** Address type, address and big-endian port (section 4 of RFC 1928). */
  function Encode(r: Request): seq<Byte>
    requires Encodable(r)
  {
    (match r.target
     case V4(a, b, c, d) => [1, a, b, c, d]
     case Domain(host) => [3, |host|] + host) + [r.port / 256, r.port % 256]
  }

  function Show(r: Request): string {
    (match r.target
     case V4(a, b, c, d) => Numeral(a) + "." + Numeral(b) + "." + Numeral(c) + "." + Numeral(d)
     case Domain(host) => Text(host)) + ":" + Numeral(r.port)
  }

  const UNKNOWN := "unknown"

  function ParseTarget(buf: seq<Byte>): string {
    if |buf| < 7 then UNKNOWN
    else if buf[3] == 1 && |buf| >= 10 then
      Numeral(buf[4]) + "." + Numeral(buf[5]) + "." + Numeral(buf[6]) + "." + Numeral(buf[7])
      + ":" + Numeral(Word(buf[8], buf[9]))
    else if buf[3] == 3 && |buf| >= 5 + buf[4] as int + 2 then
      var n := buf[4] as int;
      Text(buf[5..5 + n]) + ":" + Numeral(Word(buf[5 + n], buf[6 + n]))
    else UNKNOWN
  }

  /** buf is three header bytes, an encoding of r and anything after it. */
  ghost predicate Carries(buf: seq<Byte>, r: Request) {
    Encodable(r) && |buf| >= 3 && Encode(r) <= buf[3..]
  }

  lemma WordOf(port: nat)
    requires port < 0x1_0000
    ensures Word(port / 256, port % 256) == port
  {
  }

  /** A buffer that carries a request is printed as that request. */
  lemma ParseCarried(buf: seq<Byte>, r: Request)
    requires Carries(buf, r)
    ensures ParseTarget(buf) == Show(r)
  {
    WordOf(r.port);
    if r.target.Domain? {
      DomainBytes(buf, r);
    } else {
      var e := Encode(r);
      assert buf[3..][..7] == e;
      assert forall i :: 0 <= i < 7 ==> e[i] == buf[3..][i] == buf[3 + i];
    }
  }

  lemma DomainBytes(buf: seq<Byte>, r: Request)
    requires Carries(buf, r) && r.target.Domain?
    ensures var host := r.target.host;
            && |buf| >= 7 + |host| && buf[3] == 3 && buf[4] == |host| && buf[5..5 + |host|] == host
            && buf[5 + |host|] == r.port / 256 && buf[6 + |host|] == r.port % 256
  {
    var e, n := Encode(r), |r.target.host|;
    assert forall i :: 0 <= i < |e| ==> e[i] == buf[3..][i] == buf[3 + i];
    assert e[2..2 + n] == r.target.host;
    assert buf[5..5 + n] == e[2..2 + n];
    assert e[2 + n] == r.port / 256 && e[3 + n] == r.port % 256;
  }

  /** Only a buffer that carries no IPv4 or domain request falls through to "unknown". */
  lemma ParseComplete(buf: seq<Byte>)
    ensures (exists r :: Carries(buf, r)) <==>
            |buf| >= 7 && ((buf[3] == 1 && |buf| >= 10) || (buf[3] == 3 && |buf| >= 7 + buf[4] as int))
    ensures !(exists r :: Carries(buf, r)) ==> ParseTarget(buf) == UNKNOWN
  {
    if |buf| >= 7 {
      if buf[3] == 1 && |buf| >= 10 {
        var r := Request(V4(buf[4], buf[5], buf[6], buf[7]), Word(buf[8], buf[9]));
        assert Encode(r) == buf[3..10];
        assert Carries(buf, r);
      } else if buf[3] == 3 && |buf| >= 7 + buf[4] as int {
        var n := buf[4] as int;
        var r := Request(Domain(buf[5..5 + n]), Word(buf[5 + n], buf[6 + n]));
        assert Encode(r) == buf[3..7 + n];
        assert Carries(buf, r);
      }
    }
    forall r | Carries(buf, r)
      ensures |buf| >= 7 && ((buf[3] == 1 && |buf| >= 10) || (buf[3] == 3 && |buf| >= 7 + buf[4] as int))
    {
      var e := Encode(r);
      assert e[0] == buf[3] && e[1] == buf[4];
    }
  }

  // Authentication

  /** Version, length-prefixed user name and length-prefixed password (section 2 of
      RFC 1929). */
  function EncodeAuth(user: seq<Byte>, pass: seq<Byte>): seq<Byte>
    requires |user| < 256 && |pass| < 256
  {
    [1, |user|] + user + [|pass|] + pass
  }

  ghost predicate BeginsWithAuth(msg: seq<Byte>, user: seq<Byte>, pass: seq<Byte>) {
    |user| < 256 && |pass| < 256 && EncodeAuth(user, pass) <= msg
  }

  /** The check on the first n bytes of the connection buffer, whose remaining bytes
      are left over from the greeting. */
  method CheckAuth(buf: array<Byte>, n: nat, user: seq<Byte>, pass: seq<Byte>) returns (ok: bool)
    requires buf.Length == 258 && n <= 258
    requires user != [] && pass != []
    ensures ok <==> BeginsWithAuth(buf[..n], user, pass)
  {
    if n < 5 || buf[0] != 1 {
      return false;
    }
    var ulen := buf[1] as int;
    if n < 2 + ulen + 1 {
      AuthLayout(buf[..n], user, pass);
      return false;
    }
    var username := buf[2..2 + ulen];
    var plen := buf[2 + ulen] as int;
    if n < 2 + ulen + 1 + plen {
      AuthLayout(buf[..n], user, pass);
      return false;
    }
    var password := buf[2 + ulen + 1..2 + ulen + 1 + plen];
    var msg := buf[..n];
    assert username == msg[2..2 + ulen] && password == msg[3 + ulen..3 + ulen + plen];
    AuthFields(msg, ulen, plen, user, pass);
    ok := username == user && password == pass;
  }

  /** A message that begins with an encoded pair has exactly its fields. */
  lemma AuthLayout(msg: seq<Byte>, user: seq<Byte>, pass: seq<Byte>)
    ensures BeginsWithAuth(msg, user, pass) ==>
              && |msg| >= 3 + |user| + |pass| && msg[0] == 1 && msg[1] == |user| && msg[2..2 + |user|] == user
              && msg[2 + |user|] == |pass| && msg[3 + |user|..3 + |user| + |pass|] == pass
  {
    if BeginsWithAuth(msg, user, pass) {
      var e := EncodeAuth(user, pass);
      assert msg[..|e|] == e;
      assert e[2..2 + |user|] == user && e[3 + |user|..3 + |user| + |pass|] == pass;
      assert msg[2..2 + |user|] == e[2..2 + |user|];
      assert msg[3 + |user|..3 + |user| + |pass|] == e[3 + |user|..3 + |user| + |pass|];
      assert e[0] == msg[0] && e[1] == msg[1] && e[2 + |user|] == msg[2 + |user|];
    }
  }

  lemma AuthFields(msg: seq<Byte>, ulen: int, plen: int, user: seq<Byte>, pass: seq<Byte>)
    requires 0 <= ulen < 256 && 0 <= plen < 256 && |msg| >= 3 + ulen + plen
    requires msg[0] == 1 && msg[1] == ulen && msg[2 + ulen] == plen
    ensures BeginsWithAuth(msg, user, pass) <==>
            msg[2..2 + ulen] == user && msg[3 + ulen..3 + ulen + plen] == pass
  {
    AuthLayout(msg, user, pass);
    if msg[2..2 + ulen] == user && msg[3 + ulen..3 + ulen + plen] == pass {
      assert EncodeAuth(user, pass) == msg[..3 + ulen + plen];
    }
  }

  /** A configured pair can be presented at all only if its encoding fits the buffer. */
  lemma PairFitsBuffer(user: seq<Byte>, pass: seq<Byte>)
    ensures (exists msg :: |msg| <= 258 && BeginsWithAuth(msg, user, pass))
            <==> |user| < 256 && |pass| < 256 && |user| + |pass| <= 255
  {
    if |user| < 256 && |pass| < 256 && |user| + |pass| + 3 <= BUFFER {
      assert BeginsWithAuth(EncodeAuth(user, pass), user, pass);
    }
    forall msg | |msg| <= BUFFER && BeginsWithAuth(msg, user, pass)
      ensures |user| + |pass| + 3 <= BUFFER
    {
      AuthLayout(msg, user, pass);
    }
  }

  // The connection handler

  /** One read from the client: an error, or up to a buffer of bytes. */
  datatype Read = Failed | Got(bytes: seq<Byte>)

  /** What the handler does in the end: give up, or choose a backend for a request. */
  datatype Outcome = Closed | Proceed(request: seq<Byte>, target: string)

  ghost predicate GreetingOk(r: Read) {
    r.Got? && |r.bytes| >= 2 && r.bytes[0] == 5
  }

  ghost predicate RequestOk(r: Read) {
    r.Got? && |r.bytes| >= 7 && r.bytes[0] == 5 && r.bytes[1] == 1
  }

  /** Any CONNECT request (section 4 of RFC 1928) is accepted and understood, whatever its
      reserved byte and whatever follows it; another version or command is refused. */
  lemma ConnectRequests(r: Request, version: Byte, command: Byte, reserved: Byte, extra: seq<Byte>)
    requires Encodable(r)
    ensures var bytes := [version, command, reserved] + Encode(r) + extra;
            && (RequestOk(Got(bytes)) <==> version == 5 && command == 1)
            && ParseTarget(bytes) == Show(r)
  {
    var bytes := [version, command, reserved] + Encode(r) + extra;
    assert bytes[3..] == Encode(r) + extra;
    assert Carries(bytes, r);
    ParseCarried(bytes, r);
  }

  /** A greeting needs the version and at least one more byte; what methods it offers is
      not looked at. */
  lemma Greetings(version: Byte, methods: seq<Byte>)
    ensures GreetingOk(Got([version] + methods)) <==> version == 5 && methods != []
  {
  }

  const METHOD_AUTH: seq<Byte> := [5, 2]
  const METHOD_NONE: seq<Byte> := [5, 0]
  const AUTH_OK: seq<Byte> := [1, 0]
  const AUTH_FAILED: seq<Byte> := [1, 1]
  const NOT_SUPPORTED: seq<Byte> := [5, 7, 0, 1, 0, 0, 0, 0, 0, 0]

  method ReadInto(buf: array<Byte>, r: Read) returns (n: nat, ok: bool)
    requires r.Got? ==> |r.bytes| <= buf.Length
    modifies buf
    ensures ok <==> r.Got?
    ensures ok ==> n == |r.bytes| && buf[..n] == r.bytes
    ensures !ok ==> n == 0 && buf[..] == old(buf[..])
    ensures forall k :: n <= k < buf.Length ==> buf[k] == old(buf[k])
  {
    n, ok := 0, r.Got?;
    if ok {
      while n < |r.bytes|
        invariant n <= |r.bytes|
        invariant buf[..n] == r.bytes[..n]
        invariant forall k :: n <= k < buf.Length ==> buf[k] == old(buf[k])
      {
        buf[n] := r.bytes[n];
        n := n + 1;
      }
      assert r.bytes[..n] == r.bytes;
    }
  }

  /** The three reads of one connection share one buffer. A backend is chosen exactly
      when greeting and request are acceptable and, with credentials configured, the
      message in between begins with the configured pair; `written` is everything the
      client was sent up to that point. */
  method HandleConnection(user: seq<Byte>, pass: seq<Byte>, greeting: Read, auth: Read, request: Read)
    returns (outcome: Outcome, written: seq<seq<Byte>>)
    requires forall r <- [greeting, auth, request] :: r.Got? ==> |r.bytes| <= 258
    ensures var secured := user != [] && pass != [];
            && (outcome.Proceed? <==>
                  && GreetingOk(greeting) && RequestOk(request)
                  && (secured ==> auth.Got? && BeginsWithAuth(auth.bytes, user, pass)))
            && (outcome.Proceed? ==> outcome.request == request.bytes && outcome.target == ParseTarget(request.bytes))
    ensures var secured := user != [] && pass != [];
            var refusal: seq<seq<Byte>> := if outcome.Proceed? then [] else [[5, 7, 0, 1, 0, 0, 0, 0, 0, 0]];
            && written == if !GreetingOk(greeting) then []
                          else if !secured then [[5, 0]] + refusal
                          else if !(auth.Got? && BeginsWithAuth(auth.bytes, user, pass)) then [[5, 2], [1, 1]]
                          else [[5, 2], [1, 0]] + refusal
  {
    assert greeting in [greeting, auth, request] && auth in [greeting, auth, request]
           && request in [greeting, auth, request];
    var buf := new Byte[BUFFER](_ => 0);
    var n, ok := ReadInto(buf, greeting);
    if !ok || n < 2 || buf[..n][0] != 5 {
      return Closed, [];
    }
    if user != [] && pass != [] {
      written := [METHOD_AUTH];
      n, ok := ReadInto(buf, auth);
      if !ok {
        return Closed, written + [AUTH_FAILED];
      }
      ok := CheckAuth(buf, n, user, pass);
      if !ok {
        return Closed, written + [AUTH_FAILED];
      }
      written := written + [AUTH_OK];
    } else {
      written := [METHOD_NONE];
    }
    n, ok := ReadInto(buf, request);
    if !ok || n < 7 || buf[..n][0] != 5 || buf[..n][1] != 1 {
      return Closed, written + [NOT_SUPPORTED];
    }
    var connectReq := buf[..n];
    outcome := Proceed(connectReq, ParseTarget(connectReq));
  }
}
