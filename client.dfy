/** The minissdpd client: a service record, its registration encoding, and a
    client that owns at most one connection to the daemon's socket and writes
    requests onto it. */
module Minissdpc {
  import opened GoBits
  import opened Errors
  import opened LengthCodec
  import opened Streams
  import opened Encoders

  /** The request-kind byte that starts a registration (minissdpd's "submit"). */
  const RequestTypeRegister: byte := 4

  /** A service to advertise. Each field is the raw bytes of a Go string. */
  datatype Service = Service(typ: seq<byte>, usn: seq<byte>, server: seq<byte>, location: seq<byte>)
  {
    /** Every field is a Go slice, so its length is a Go int. */
    predicate Sized() {
      |typ| <= MaxInt && |usn| <= MaxInt && |server| <= MaxInt && |location| <= MaxInt
    }

    /** Every field length is within the range the prefix encodes exactly. */
    predicate Encodable() {
      |typ| < Bound && |usn| < Bound && |server| < Bound && |location| < Bound
    }

    /** The registration body: Type, USN, Server, Location, each length-prefixed;
        the four payloads plus one to five prefix bytes each. */
    function Bytes(): (r: seq<byte>)
      ensures var payload := |typ| + |usn| + |server| + |location|;
              payload + 4 <= |r| <= payload + 4 * MaxLengthBytes
    {
      Framed(typ) + Framed(usn) + Framed(server) + Framed(location)
    }

    /** Writes the registration body to `w` and reports how many bytes it wrote. */
    method EncodeTo(w: Stream) returns (n: nat, err: Outcome)
      requires Sized()
      modifies w
      ensures old(w.Writable()) ==> err == Pass && n == |Bytes()| && w.data == old(w.data) + Bytes()
      ensures !old(w.Writable()) ==> err.Fail? && n == 0 && w.data == old(w.data)
      ensures w.closed == old(w.closed)
    {
      var m: nat;
      n, err := EncodeString(typ, w);
      if err.Fail? {
        return;
      }
      m, err := EncodeString(usn, w);
      n := n + m;
      if err.Fail? {
        return;
      }
      m, err := EncodeString(server, w);
      n := n + m;
      if err.Fail? {
        return;
      }
      m, err := EncodeString(location, w);
      n := n + m;
      assert Bytes() == Framed(typ) + Framed(usn) + Framed(server) + Framed(location);
    }
  }

  /** How the daemon reads a registration body: four strings in the order written. */
  function ReadService(s: seq<byte>): (r: Result<(Service, seq<byte>)>)
    ensures r.Success? ==> |r.value.1| + 4 <= |s|
  {
    match ReadString(s)
    case Failure(e) => Failure(e)
    case Success((typ, s1)) =>
      match ReadString(s1)
      case Failure(e) => Failure(e)
      case Success((usn, s2)) =>
        match ReadString(s2)
        case Failure(e) => Failure(e)
        case Success((server, s3)) =>
          match ReadString(s3)
          case Failure(e) => Failure(e)
          case Success((location, s4)) => Success((Service(typ, usn, server, location), s4))
  }

  /** The daemon gets back the service that was registered, and the stream after it. */
  lemma ServiceRoundTrip(svc: Service, rest: seq<byte>)
    requires svc.Encodable()
    ensures ReadService(svc.Bytes() + rest) == Success((svc, rest))
  {
    var Service(t, u, v, l) := svc;
    var s4 := rest;
    var s3 := Framed(l) + s4;
    var s2 := Framed(v) + s3;
    var s1 := Framed(u) + s2;
    assert svc.Bytes() + rest == Framed(t) + s1;
    ReadFramed(t, s1);
    ReadFramed(u, s2);
    ReadFramed(v, s3);
    ReadFramed(l, s4);
  }

  /** A client of the daemon at `socketPath`; `conn` is null while it is closed. */
  class Client {
    const socketPath: seq<char>
    var conn: Stream?

    /** An open client's connection has not been closed under it. */
    ghost predicate Valid()
      reads this, conn
    {
      conn != null ==> !conn.closed
    }

    /** The zero-value client: not connected. */
    constructor (socketPath: seq<char>)
      ensures this.socketPath == socketPath && conn == null && Valid()
    {
      this.socketPath := socketPath;
      conn := null;
    }

    /** Opens a connection to the socket. `listening` stands for whether dialing
        the socket succeeds, `healthy` for whether the daemon keeps its end open
        afterwards. An open client keeps its connection and refuses. */
    method Connect(listening: bool, healthy: bool) returns (err: Outcome)
      requires Valid()
      modifies this
      ensures Valid()
      ensures old(conn) != null ==> err == Fail(AlreadyOpen) && conn == old(conn)
      ensures old(conn) == null && listening ==>
        err == Pass && conn != null && fresh(conn) && conn.data == [] && !conn.closed && conn.broken == !healthy
      ensures old(conn) == null && !listening ==> err == Fail(DialFailed) && conn == null
    {
      if conn != null {
        return Fail(AlreadyOpen);
      }
      if !listening {
        return Fail(DialFailed);
      }
      conn := new Stream(!healthy);
      err := Pass;
    }

    /** Closes and forgets the connection; closing a closed client does nothing. */
    method Close() returns (err: Outcome)
      modifies this, conn
      ensures err == Pass && conn == null && Valid()
      ensures old(conn) != null ==> old(conn).closed && old(conn).data == old(conn.data)
    {
      if conn != null {
        conn.Close();
        conn := null;
      }
      err := Pass;
    }

    /** Raw write to the connection; refused before touching anything when closed. */
    method Write(b: seq<byte>) returns (n: nat, err: Outcome)
      requires Valid()
      modifies conn
      ensures Valid()
      ensures conn == null ==> n == 0 && err == Fail(NilConn)
      ensures conn != null && old(conn.Writable()) ==> n == |b| && err == Pass && conn.data == old(conn.data) + b
      ensures conn != null && !old(conn.Writable()) ==> n == 0 && err == Fail(Transport) && conn.data == old(conn.data)
    {
      if conn == null {
        return 0, Fail(NilConn);
      }
      n, err := conn.Write(b);
    }

    /** Writes `s` as a length-prefixed string; `n` counts prefix and payload. */
    method WriteString(s: seq<byte>) returns (n: nat, err: Outcome)
      requires Valid() && |s| <= MaxInt
      modifies conn
      ensures Valid()
      ensures conn == null ==> n == 0 && err == Fail(NilConn)
      ensures conn != null && old(conn.Writable()) ==>
        err == Pass && n == |Framed(s)| && conn.data == old(conn.data) + Framed(s)
      ensures conn != null && !old(conn.Writable()) ==> err.Fail? && n == 0 && conn.data == old(conn.data)
    {
      if conn == null {
        return 0, Fail(NilConn);
      }
      n, err := EncodeString(s, conn);
    }

    /** Sends a registration request; the daemon sends no reply, so nothing is read. */
    method RegisterService(svc: Service) returns (err: Outcome)
      requires Valid() && svc.Sized()
      modifies conn
      ensures Valid()
      ensures conn == null ==> err == Fail(NilConn)
      ensures conn != null && old(conn.Writable()) ==>
        err == Pass && conn.data == old(conn.data) + [RequestTypeRegister] + svc.Bytes()
      ensures conn != null && !old(conn.Writable()) ==> err.Fail? && conn.data == old(conn.data)
    {
      if conn == null {
        return Fail(NilConn);
      }
      var _, e := conn.Write([RequestTypeRegister]);
      if e.Fail? {
        return e;
      }
      var _, e' := svc.EncodeTo(conn);
      err := e';
    }
  }
}
