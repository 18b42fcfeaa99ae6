/** The client's observable behaviour in the four exchanges its tests drive
    against a mock daemon. The daemon side is the peer's reading of the bytes
    the client wrote. */
module ClientScenarios {
  import opened GoBits
  import opened Errors
  import opened LengthCodec
  import opened Minissdpc

  /** The mock daemon's request kinds, numbered from zero. */
  const MockRequestTypeString: byte := 0
  const MockRequestTypeGet: byte := 1
  const MockRequestTypeRegister: byte := 2

  /** The bytes of a string, one per character: its UTF-8 encoding when every
      character is ASCII, as in every string below. */
  function Ascii(s: string): (r: seq<byte>)
    ensures |r| == |s| && forall i :: 0 <= i < |s| ==> r[i] == (s[i] as int) % 0x100
  {
    if s == [] then [] else [(s[0] as int) % 0x100] + Ascii(s[1..])
  }

  function Minissdp(): seq<byte> {
    Ascii("minissdp")
  }

  function Dummy(): Service {
    Service(Ascii("urn:Dummy:device:controllee:1"), Ascii("1234-1234-1234-1234"),
            Ascii("Dummy 1.0"), Ascii("http://127.0.0.1/setup.xml"))
  }

  /** Connect, Connect again, Close, Connect: the second call is refused with
      AlreadyOpen and the client is reusable after Close. */
  method Connections() returns (first: Outcome, second: Outcome, closing: Outcome, again: Outcome)
    ensures first == Pass && second == Fail(AlreadyOpen) && closing == Pass && again == Pass
  {
    var c := new Client("test.sock");
    first := c.Connect(true, true);
    second := c.Connect(true, true);
    closing := c.Close();
    again := c.Connect(true, true);
    var _ := c.Close();
  }

  /** Writing on a client that never connected fails with NilConn. */
  method NilConnWrite() returns (n: nat, err: Outcome)
    ensures n == 0 && err == Fail(NilConn)
  {
    var c := new Client([]);
    n, err := c.Write([]);
  }

  /** On a connection whose far end has gone away, every write fails with a
      transport error and nothing is sent. */
  method BrokenConnWrite() returns (n: nat, err: Outcome, wire: seq<byte>)
    ensures n == 0 && err == Fail(Transport) && wire == []
  {
    var c := new Client("test.sock");
    var _ := c.Connect(true, false);
    n, err := c.Write([MockRequestTypeString]);
    wire := c.conn.data;
    var _ := c.Close();
  }

  /** After the request-kind byte, WriteString("minissdp") reports nine bytes, one
      prefix byte and eight payload bytes, and the peer reads the string back. */
  method WriteStringExchange() returns (n: nat, err: Outcome, wire: seq<byte>)
    ensures err == Pass && n == |Minissdp()| + 1 == 9
    ensures |wire| > 0 && wire[0] == MockRequestTypeString
    ensures ReadString(wire[1..]) == Success((Minissdp(), []))
  {
    var c := new Client("test.sock");
    var _ := c.Connect(true, true);
    var _, _ := c.Write([MockRequestTypeString]);
    n, err := c.WriteString(Minissdp());
    wire := c.conn.data;
    PrefixLength(8);
    assert wire[1..] == Framed(Minissdp()) + [];
    ReadFramed(Minissdp(), []);
    var _ := c.Close();
  }

  /** The service the registration test sends fits the prefix encoding. */
  lemma DummyEncodable()
    ensures Dummy().Sized() && Dummy().Encodable()
  {
    BoundIsPow();
  }

  /** After the mock's request-kind byte, RegisterService succeeds on any service
      the prefix encodes exactly (the test's service is one, by DummyEncodable);
      the daemon sees the register kind and gets the service back from the body. */
  method RegisterExchange(svc: Service) returns (err: Outcome, wire: seq<byte>)
    requires svc.Encodable()
    ensures err == Pass
    ensures |wire| > 1 && wire[0] == MockRequestTypeRegister && wire[1] == RequestTypeRegister
    ensures ReadService(wire[2..]) == Success((svc, []))
  {
    assert svc.Sized() by {
      BoundIsPow();
    }
    var c := new Client("test.sock");
    var _ := c.Connect(true, true);
    var _, _ := c.Write([MockRequestTypeRegister]);
    err := c.RegisterService(svc);
    wire := c.conn.data;
    assert wire[2..] == svc.Bytes() + [];
    ServiceRoundTrip(svc, []);
    var _ := c.Close();
  }
}
