/** The SOCKS5 handshake of the dynamic proxy (RFC 1928), reading a byte stream that arrives in
    arbitrary pieces. */
module Socks5 {
  import opened Options

  newtype byte = b: int | 0 <= b < 256

  type Bytes = seq<byte>

  /** The destination of a CONNECT request: raw address bytes and port. */
  datatype Addr = V4(ip: Bytes) | Domain(name: Bytes) | V6(ip: Bytes)
  datatype Dest = Dest(addr: Addr, port: nat)

  /** How one connection ends: closed by the handler, or handed to the relay. */
  datatype Outcome = Closed | DialFailed(dest: Dest) | Relayed(dest: Dest)

  /** How much of one write the peer gets. */
  datatype Written = Whole | Cut(n: nat)

  function Gone(data: Bytes, w: Written): Bytes {
    if w.Cut? && w.n < |data| then data[..w.n] else data
  }

  // ---- the stream ----

  function Flat(chunks: seq<Bytes>): Bytes {
    if chunks == [] then [] else chunks[0] + Flat(chunks[1..])
  }

  class Conn {
    var chunks: seq<Bytes>   // what the peer has sent and will send, as it arrives
    var sent: Bytes          // what this side has written

    constructor (chunks: seq<Bytes>)
      ensures this.chunks == chunks && sent == []
    {
      this.chunks, this.sent := chunks, [];
    }

    /** One Read: some bytes of the next piece, at most n; none at the end of the stream. */
    method Read(n: nat) returns (got: Bytes)
      requires n > 0
      modifies this`chunks
      ensures |got| <= n && Flat(old(chunks)) == got + Flat(chunks)
      ensures got == [] ==> Flat(old(chunks)) == []
    {
      while chunks != [] && chunks[0] == []
        invariant Flat(chunks) == Flat(old(chunks))
        decreases |chunks|
      {
        chunks := chunks[1..];
      }
      if chunks == [] {
        return [];
      }
      var piece := chunks[0];
      if |piece| <= n {
        got, chunks := piece, chunks[1..];
      } else {
        got := piece[..n];
        assert piece == got + piece[n..];
        ghost var tail := chunks[1..];
        chunks := [piece[n..]] + chunks[1..];
        assert chunks[1..] == tail;
        assert got + (piece[n..] + Flat(tail)) == piece + Flat(tail);
      }
    }

    /** io.ReadFull: exactly n bytes, or None with the stream drained. */
    method ReadFull(n: nat) returns (r: Option<Bytes>)
      modifies this`chunks
      ensures var was := Flat(old(chunks));
              if |was| >= n then r == Some(was[..n]) && Flat(chunks) == was[n..]
              else r == None && Flat(chunks) == []
    {
      var buf: Bytes := [];
      ghost var was := Flat(chunks);
      while |buf| < n
        invariant |buf| <= n && was == buf + Flat(chunks)
        decreases n - |buf|
      {
        var got := Read(n - |buf|);
        if got == [] {
          assert was == buf;
          return None;
        }
        buf := buf + got;
      }
      assert was[..n] == buf && was[n..] == Flat(chunks);
      return Some(buf);
    }

    /** One Write: all of data, or an error after some of it. */
    method Write(data: Bytes, w: Written) returns (ok: bool)
      modifies this`sent
      ensures sent == old(sent) + Gone(data, w) && (ok <==> w.Whole?)
    {
      sent := sent + Gone(data, w);
      ok := w.Whole?;
    }
  }

  // ---- the handler ----

  function Reply(status: byte): Bytes {
    [5, status, 0, 1, 0, 0, 0, 0, 0, 0]
  }

  function PortOf(hi: byte, lo: byte): nat {
    hi as int * 256 + lo as int
  }

  /** The parse of a byte stream: how far the handshake gets. */
  datatype Parse =
    | NoGreeting                            // closed before the method answer
    | NoRequest                             // answered, then closed silently
    | BadCommand                            // reply 7
    | BadAddress                            // reply 8
    | Connect(dest: Dest, rest: Bytes)

  /** The address of the given type at the front of b, and what follows it. */
  function TakeAddress(atyp: byte, b: Bytes): Option<(Addr, Bytes)>
    requires atyp == 1 || atyp == 3 || atyp == 4
  {
    if atyp == 3 then
      if |b| < 1 || |b| - 1 < b[0] as int then None
      else Some((Domain(b[1..][..b[0] as int]), b[1..][b[0] as int..]))
    else
      var n := if atyp == 1 then 4 else 16;
      if |b| < n then None
      else Some((if atyp == 1 then V4(b[..n]) else V6(b[..n]), b[n..]))
  }

  function ParsePort(addr: Addr, b: Bytes): Parse {
    if |b| < 2 then NoRequest else Connect(Dest(addr, PortOf(b[0], b[1])), b[2..])
  }

  function ParseRequest(b: Bytes): Parse {
    if |b| < 4 || b[0] != 5 then NoRequest
    else if b[1] != 1 then BadCommand
    else if b[3] != 1 && b[3] != 3 && b[3] != 4 then BadAddress
    else
      var a := TakeAddress(b[3], b[4..]);
      if a == None then NoRequest else ParsePort(a.value.0, a.value.1)
  }

  function ParseStream(b: Bytes): Parse {
    if |b| < 2 || b[0] != 5 || |b| - 2 < b[1] as int then NoGreeting
    else ParseRequest(b[2..][b[1] as int..])
  }

  /** What the handler answers a request with, dialling having answered dial. */
  function ReplyTo(p: Parse, dial: bool): Bytes {
    match p
    case NoGreeting | NoRequest => []
    case BadCommand => Reply(7)
    case BadAddress => Reply(8)
    case Connect(_, _) => Reply(if dial then 0 else 5)
  }

  function OutcomeOf(p: Parse, dial: bool): Outcome {
    match p
    case Connect(dest, _) => if dial then Relayed(dest) else DialFailed(dest)
    case _ => Closed
  }

  // ---- the request byte by byte (RFC 1928, sections 4 to 6) ----

  /** b begins with a complete CONNECT request for dest, and rest follows it. */
  predicate Requests(b: Bytes, dest: Dest, rest: Bytes) {
    && |b| >= 5 && b[0] == 5 && b[1] == 1
    && match dest.addr
       case V4(ip) =>
         && b[3] == 1 && |b| >= 10 && ip == b[4..8]
         && dest.port == b[8] as int * 256 + b[9] as int && rest == b[10..]
       case Domain(name) =>
         var n := b[4] as int;
         && b[3] == 3 && |b| >= n + 7 && name == b[5..n + 5]
         && dest.port == b[n + 5] as int * 256 + b[n + 6] as int && rest == b[n + 7..]
       case V6(ip) =>
         && b[3] == 4 && |b| >= 22 && ip == b[4..20]
         && dest.port == b[20] as int * 256 + b[21] as int && rest == b[22..]
  }

  /** Version 5 and a command other than CONNECT. */
  predicate OtherCommand(b: Bytes) {
    |b| >= 4 && b[0] == 5 && b[1] != 1
  }

  /** CONNECT with an address type other than IPv4, domain name and IPv6. */
  predicate OtherAddress(b: Bytes) {
    |b| >= 4 && b[0] == 5 && b[1] == 1 && b[3] != 1 && b[3] != 3 && b[3] != 4
  }

  /** How a request b is answered, by outcome: the bytes of the reply and what is left for the relay. */
  ghost predicate AnsweredBy(b: Bytes, dial: bool, r: Outcome, sent: Bytes, left: Bytes) {
    match r
    case Relayed(dest) => dial && Requests(b, dest, left) && sent == [5, 0, 0, 1, 0, 0, 0, 0, 0, 0]
    case DialFailed(dest) => !dial && Requests(b, dest, left) && sent == [5, 5, 0, 1, 0, 0, 0, 0, 0, 0]
    case Closed =>
      && (forall dest, rest :: !Requests(b, dest, rest))
      && sent == (if OtherCommand(b) then [5, 7, 0, 1, 0, 0, 0, 0, 0, 0]
                  else if OtherAddress(b) then [5, 8, 0, 1, 0, 0, 0, 0, 0, 0]
                  else [])
  }

  lemma ParseIsRequest(b: Bytes)
    ensures var p := ParseRequest(b);
            && (p.Connect? ==> Requests(b, p.dest, p.rest))
            && (p.BadCommand? <==> OtherCommand(b)) && (p.BadAddress? <==> OtherAddress(b)) && !p.NoGreeting?
  {
    if ParseRequest(b).Connect? {
      var tail := b[4..];
      if b[3] == 1 { assert tail[..4] == b[4..8] && tail[4..] == b[8..]; }
      else if b[3] == 3 {
        var n := b[4] as int;
        assert tail[1..][..n] == b[5..n + 5] && tail[1..][n..] == b[n + 5..];
      } else { assert tail[..16] == b[4..20] && tail[16..] == b[20..]; }
    }
  }

  lemma RequestIsParsed(b: Bytes, dest: Dest, rest: Bytes)
    requires Requests(b, dest, rest)
    ensures ParseRequest(b) == Connect(dest, rest)
  {
    var tail := b[4..];
    if b[3] == 1 { assert tail[..4] == b[4..8] && tail[4..] == b[8..]; }
    else if b[3] == 3 {
      var n := b[4] as int;
      assert tail[1..][..n] == b[5..n + 5] && tail[1..][n..] == b[n + 5..];
    } else { assert tail[..16] == b[4..20] && tail[16..] == b[20..]; }
  }

  /** The replies and outcomes of the handler, read off the bytes of the request. */
  lemma RepliesByByte(b: Bytes, dial: bool, left: Bytes)
    requires ParseRequest(b).Connect? ==> left == ParseRequest(b).rest
    ensures AnsweredBy(b, dial, OutcomeOf(ParseRequest(b), dial), ReplyTo(ParseRequest(b), dial), left)
  {
    ParseIsRequest(b);
    if !ParseRequest(b).Connect? {
      forall dest, rest ensures !Requests(b, dest, rest) {
        if Requests(b, dest, rest) { RequestIsParsed(b, dest, rest); }
      }
    }
  }

  /** A complete greeting: version 5, a number of methods and that many methods; then the request. */
  predicate Greets(b: Bytes, request: Bytes) {
    |b| >= 2 && b[0] == 5 && |b| >= 2 + b[1] as int && request == b[2 + b[1] as int..]
  }

  lemma GreetingByByte(b: Bytes)
    ensures ParseStream(b).NoGreeting? <==> forall request :: !Greets(b, request)
    ensures forall request | Greets(b, request) :: ParseStream(b) == ParseRequest(request)
  {
    if |b| >= 2 && b[0] == 5 && |b| >= 2 + b[1] as int {
      var request := b[2 + b[1] as int..];
      assert b[2..][b[1] as int..] == request;
      assert Greets(b, request);
      ParseIsRequest(request);
    }
  }

  /** The handler on any stream, however it is split: what it writes, how it ends and which bytes it
      leaves for the relay are determined by the concatenation of the pieces. A failing method answer ends
      the connection; a failing reply is ignored. */
  method HandleSocks5Conn(conn: Conn, answer: Written, reply: Written, dial: bool) returns (r: Outcome)
    modifies conn
    ensures var p := ParseStream(Flat(old(conn.chunks)));
            if p.NoGreeting? then r == Closed && conn.sent == old(conn.sent)
            else if answer.Cut? then r == Closed && conn.sent == old(conn.sent) + Gone([5, 0], answer)
            else
              && r == OutcomeOf(p, dial)
              && conn.sent == old(conn.sent) + [5, 0] + Gone(ReplyTo(p, dial), reply)
              && (p.Connect? ==> Flat(conn.chunks) == p.rest)
    // The same read off the bytes, when the writes get through.
    ensures (forall request :: !Greets(Flat(old(conn.chunks)), request)) ==> r == Closed && conn.sent == old(conn.sent)
    ensures answer.Whole? && reply.Whole? ==>
              forall request | Greets(Flat(old(conn.chunks)), request) ::
                && old(conn.sent) + [5, 0] <= conn.sent
                && AnsweredBy(request, dial, r, conn.sent[|old(conn.sent)| + 2..], Flat(conn.chunks))
  {
    ghost var b, was := Flat(conn.chunks), conn.sent;
    GreetingByByte(b);
    var greeted := Greet(conn, answer);
    if !greeted {
      return Closed;
    }
    ghost var request := Flat(conn.chunks);
    assert Greets(b, request);
    r := HandleRequest(conn, reply, dial);
    assert conn.sent[..|was| + 2] == was + [5, 0];
  }

  /** Version, methods and the answer to them; false if the connection is to be closed. */
  method Greet(conn: Conn, answer: Written) returns (ok: bool)
    modifies conn
    ensures var b := Flat(old(conn.chunks));
            if |b| < 2 || b[0] != 5 || |b| < 2 + b[1] as int then !ok && conn.sent == old(conn.sent)
            else
              && ok == answer.Whole? && conn.sent == old(conn.sent) + Gone([5, 0], answer)
              && Flat(conn.chunks) == b[2 + b[1] as int..]
  {
    ghost var b := Flat(conn.chunks);
    var header := conn.ReadFull(2);
    if header == None || header.value[0] != 5 {
      return false;
    }
    var methods := conn.ReadFull(header.value[1] as int);
    if methods == None {
      return false;
    }
    assert b[2..][b[1] as int..] == b[2 + b[1] as int..];
    ok := conn.Write([5, 0], answer);
  }

  /** The request part; whether the reply gets through makes no difference to it. */
  method HandleRequest(conn: Conn, reply: Written, dial: bool) returns (r: Outcome)
    modifies conn
    ensures var p := ParseRequest(Flat(old(conn.chunks)));
            && r == OutcomeOf(p, dial)
            && conn.sent == old(conn.sent) + Gone(ReplyTo(p, dial), reply)
            && (p.Connect? ==> Flat(conn.chunks) == p.rest)
    ensures old(conn.sent) <= conn.sent
    ensures reply.Whole? ==>
              AnsweredBy(Flat(old(conn.chunks)), dial, r, conn.sent[|old(conn.sent)|..], Flat(conn.chunks))
  {
    ghost var b, was := Flat(conn.chunks), conn.sent;
    r := ServeRequest(conn, reply, dial);
    RepliesByByte(b, dial, Flat(conn.chunks));
    assert conn.sent[|was|..] == Gone(ReplyTo(ParseRequest(b), dial), reply);
  }

  method ServeRequest(conn: Conn, reply: Written, dial: bool) returns (r: Outcome)
    modifies conn
    ensures var p := ParseRequest(Flat(old(conn.chunks)));
            && r == OutcomeOf(p, dial)
            && conn.sent == old(conn.sent) + Gone(ReplyTo(p, dial), reply)
            && (p.Connect? ==> Flat(conn.chunks) == p.rest)
  {
    var req := conn.ReadFull(4);
    if req == None || req.value[0] != 5 {
      return Closed;
    }
    if req.value[1] != 1 {
      var _ := conn.Write(Reply(7), reply);
      return Closed;
    }
    if req.value[3] != 1 && req.value[3] != 3 && req.value[3] != 4 {
      var _ := conn.Write(Reply(8), reply);
      return Closed;
    }
    var addr := ReadAddress(conn, req.value[3]);
    if addr == None {
      return Closed;
    }
    var port := conn.ReadFull(2);
    if port == None {
      return Closed;
    }
    var dest := Dest(addr.value, PortOf(port.value[0], port.value[1]));
    if !dial {
      var _ := conn.Write(Reply(5), reply);
      return DialFailed(dest);
    }
    var _ := conn.Write(Reply(0), reply);
    return Relayed(dest);
  }

  /** The branches of the address-type switch that read. */
  method ReadAddress(conn: Conn, atyp: byte) returns (addr: Option<Addr>)
    requires atyp == 1 || atyp == 3 || atyp == 4
    modifies conn`chunks
    ensures var a := TakeAddress(atyp, Flat(old(conn.chunks)));
            if a == None then addr == None else addr == Some(a.value.0) && Flat(conn.chunks) == a.value.1
  {
    if atyp == 1 {
      var ip := conn.ReadFull(4);
      if ip == None { return None; }
      return Some(V4(ip.value));
    } else if atyp == 3 {
      var len := conn.ReadFull(1);
      if len == None { return None; }
      var name := conn.ReadFull(len.value[0] as int);
      if name == None { return None; }
      return Some(Domain(name.value));
    } else {
      var ip := conn.ReadFull(16);
      if ip == None { return None; }
      return Some(V6(ip.value));
    }
  }

  // ---- the wire format ----

  /** Destinations a SOCKS5 client can name. */
  predicate Encodable(d: Dest) {
    && d.port < 65536
    && match d.addr
       case V4(ip) => |ip| == 4
       case Domain(name) => |name| < 256
       case V6(ip) => |ip| == 16
  }

  function EncodePort(port: nat): Bytes
    requires port < 65536
  {
    [(port / 256) as byte, (port % 256) as byte]
  }

  /** Section 3: version, number of methods, methods. */
  function EncodeGreeting(methods: Bytes): Bytes
    requires |methods| < 256
  {
    [5, |methods| as byte] + methods
  }

  function EncodeAddress(a: Addr): Bytes
    requires a.Domain? ==> |a.name| < 256
  {
    match a
    case V4(ip) => ip
    case Domain(name) => [|name| as byte] + name
    case V6(ip) => ip
  }

  function Atyp(a: Addr): byte {
    match a case V4(_) => 1 case Domain(_) => 3 case V6(_) => 4
  }

  /** Sections 4 and 5: version, CONNECT, reserved byte, address type, address, port. */
  function EncodeRequest(rsv: byte, d: Dest): Bytes
    requires Encodable(d)
  {
    [5, 1, rsv, Atyp(d.addr)] + (EncodeAddress(d.addr) + EncodePort(d.port))
  }

  lemma PortRoundTrip(port: nat, hi: byte, lo: byte)
    ensures port < 65536 ==> PortOf(EncodePort(port)[0], EncodePort(port)[1]) == port
    ensures PortOf(hi, lo) < 65536 && EncodePort(PortOf(hi, lo)) == [hi, lo]
  {
    var p := PortOf(hi, lo);
    assert p / 256 == hi as int && p % 256 == lo as int;
  }

  lemma AddressRoundTrip(d: Dest, rest: Bytes)
    requires Encodable(d)
    ensures TakeAddress(Atyp(d.addr), EncodeAddress(d.addr) + rest) == Some((d.addr, rest))
  {
    var b := EncodeAddress(d.addr) + rest;
    if d.addr.Domain? {
      assert b[1..] == d.addr.name + rest;
    }
  }

  lemma PortDecodes(addr: Addr, port: nat, rest: Bytes)
    requires port < 65536
    ensures ParsePort(addr, EncodePort(port) + rest) == Connect(Dest(addr, port), rest)
  {
    PortRoundTrip(port, 0, 0);
    assert (EncodePort(port) + rest)[2..] == rest;
  }

  lemma RequestDecodes(rsv: byte, d: Dest, rest: Bytes)
    requires Encodable(d)
    ensures ParseRequest(EncodeRequest(rsv, d) + rest) == Connect(d, rest)
  {
    var req := EncodeRequest(rsv, d) + rest;
    var tail := EncodePort(d.port) + rest;
    assert req[4..] == EncodeAddress(d.addr) + tail;
    AddressRoundTrip(d, tail);
    PortDecodes(d.addr, d.port, rest);
  }

  /** Every well-formed greeting and CONNECT request is decoded to its destination, and exactly the bytes
      after the frame are left. */
  lemma DecodeInvertsEncode(methods: Bytes, rsv: byte, d: Dest, rest: Bytes)
    requires |methods| < 256 && Encodable(d)
    ensures ParseStream(EncodeGreeting(methods) + (EncodeRequest(rsv, d) + rest)) == Connect(d, rest)
  {
    var req := EncodeRequest(rsv, d) + rest;
    var b := EncodeGreeting(methods) + req;
    assert b[2..] == methods + req && b[2..][|methods|..] == req;
    RequestDecodes(rsv, d, rest);
  }

  lemma AddressIsEncoding(atyp: byte, b: Bytes)
    requires atyp == 1 || atyp == 3 || atyp == 4
    requires TakeAddress(atyp, b).Some?
    ensures var (a, rest) := TakeAddress(atyp, b).value;
            && Atyp(a) == atyp && Encodable(Dest(a, 0)) && b == EncodeAddress(a) + rest
  {
    var (a, rest) := TakeAddress(atyp, b).value;
    if atyp == 3 {
      assert b == [b[0]] + b[1..] && b[1..] == a.name + rest;
    }
  }

  lemma PortIsEncoding(addr: Addr, b: Bytes)
    requires ParsePort(addr, b).Connect?
    ensures var p := ParsePort(addr, b);
            p.dest.addr == addr && p.dest.port < 65536 && b == EncodePort(p.dest.port) + p.rest
  {
    PortRoundTrip(0, b[0], b[1]);
    assert b == [b[0], b[1]] + b[2..];
  }

  lemma RequestIsEncoding(b: Bytes)
    requires ParseRequest(b).Connect?
    ensures var p := ParseRequest(b);
            Encodable(p.dest) && b == EncodeRequest(b[2], p.dest) + p.rest
  {
    var p := ParseRequest(b);
    var (addr, tail) := TakeAddress(b[3], b[4..]).value;
    AddressIsEncoding(b[3], b[4..]);
    PortIsEncoding(addr, tail);
    Glue(b, [5, 1, b[2], b[3]], EncodeAddress(addr), EncodePort(p.dest.port), p.rest);
  }

  lemma Glue(b: Bytes, head: Bytes, x: Bytes, y: Bytes, z: Bytes)
    requires |b| >= 4 && head == b[..4] && b[4..] == x + (y + z)
    ensures b == head + (x + y) + z
  {
    assert b == b[..4] + b[4..];
  }

  /** Conversely, every accepted stream is such a frame followed by what is left, so the accepted streams
      are exactly the encodings and two frames never decode alike unless they name the same destination. */
  lemma AcceptedIsEncoding(b: Bytes) returns (methods: Bytes, rsv: byte)
    requires ParseStream(b).Connect?
    ensures |methods| < 256 && Encodable(ParseStream(b).dest)
    ensures b == EncodeGreeting(methods) + (EncodeRequest(rsv, ParseStream(b).dest) + ParseStream(b).rest)
  {
    var n := b[1] as int;
    var req := b[2..][n..];
    methods, rsv := b[2..][..n], req[2];
    RequestIsEncoding(req);
    assert b == [b[0], b[1]] + b[2..] && b[2..] == methods + req;
    assert b == EncodeGreeting(methods) + req;
  }
}
