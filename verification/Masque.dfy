/** A proxy request from the client that builds it to the server that classifies it. */
module Masque {
  import opened Bytes
  import opened Qpack
  import ConnectUdp
  import Http3
  import Text
  import Varint

  /** What a request's field section asks of the proxy. */
  datatype ProxyRequest =
    | Connect(authority: bytes, authorization: Option<bytes>)
    | ConnectUdp(path: bytes, authorization: Option<bytes>, capsuleProtocol: bool)
    | Other

  /** The value of the first field with this name. */
  function Header(fields: seq<Field>, name: bytes): (value: Option<bytes>)
  {
    if fields == [] then None
    else if fields[0].name == name then Some(fields[0].value)
    else Header(fields[1..], name)
  }

  function OrEmpty(value: Option<bytes>): (s: bytes)
  {
    match value
    case None => []
    case Some(s) => s
  }

  /** An empty value counts as none. */
  function NonEmpty(value: Option<bytes>): (r: Option<bytes>)
  {
    if value == Some([]) then None else value
  }

  function ClassifyFields(fields: seq<Field>): (r: ProxyRequest)
  {
    if Header(fields, Ascii(":method")) != Some(Ascii("CONNECT")) then Other
    else
      var authorization := NonEmpty(Header(fields, Ascii("proxy-authorization")));
      match Header(fields, Ascii(":protocol"))
      case None => Connect(OrEmpty(Header(fields, Ascii(":authority"))), authorization)
      case Some(protocol) =>
        if protocol == Ascii("connect-udp") then
          ConnectUdp(OrEmpty(Header(fields, Ascii(":path"))), authorization,
                     Header(fields, Ascii("capsule-protocol")) == Some(Ascii("?1")))
        else Other
  }

  function Classify(section: bytes): (r: Result<ProxyRequest, EdgeError>)
  {
    match Decode(section)
    case Err(e) => Err(e)
    case Ok(fields) => Ok(ClassifyFields(fields))
  }

  // ---- The client's requests ----

  function Authorization(credential: Option<bytes>): (fields: seq<Field>)
  {
    match credential
    case None => []
    case Some(c) => [Field(Ascii("proxy-authorization"), c)]
  }

  function TcpRequest(authority: bytes, credential: Option<bytes>): (fields: seq<Field>)
  {
    [Field(Ascii(":method"), Ascii("CONNECT")), Field(Ascii(":authority"), authority)] + Authorization(credential)
  }

  function UdpRequest(path: bytes, credential: Option<bytes>): (fields: seq<Field>)
  {
    [Field(Ascii(":method"), Ascii("CONNECT")),
     Field(Ascii(":protocol"), Ascii("connect-udp")),
     Field(Ascii(":scheme"), Ascii("https")),
     Field(Ascii(":authority"), Ascii("proxy")),
     Field(Ascii(":path"), path),
     Field(Ascii("capsule-protocol"), Ascii("?1"))] + Authorization(credential)
  }

  lemma {:induction false} HeaderSkips(front: seq<Field>, rest: seq<Field>, name: bytes)
    requires forall i | 0 <= i < |front| :: front[i].name != name
    ensures Header(front + rest, name) == Header(rest, name)
  {
    if front == [] {
      assert front + rest == rest;
    } else {
      assert (front + rest)[1..] == front[1..] + rest;
      HeaderSkips(front[1..], rest, name);
    }
  }

  /** A field is found behind fields whose names have other lengths. */
  lemma HeaderAt(fields: seq<Field>, i: nat)
    requires i < |fields| && forall j | 0 <= j < i :: |fields[j].name| != |fields[i].name|
    ensures Header(fields, fields[i].name) == Some(fields[i].value)
  {
    assert fields == fields[..i] + fields[i..];
    HeaderSkips(fields[..i], fields[i..], fields[i].name);
  }

  lemma HeaderMissing(fields: seq<Field>, name: bytes)
    requires forall j | 0 <= j < |fields| :: |fields[j].name| != |name|
    ensures Header(fields, name).None?
  {
    assert fields == fields + [];
    HeaderSkips(fields, [], name);
  }

  lemma ClassifyUdp(path: bytes, credential: Option<bytes>)
    ensures ClassifyFields(UdpRequest(path, credential)) ==
            ConnectUdp(path, if credential == Some([]) then None else credential, true)
  {
    hide Header;
    var fields := UdpRequest(path, credential);
    HeaderAt(fields, 0);
    HeaderAt(fields, 1);
    HeaderAt(fields, 4);
    HeaderAt(fields, 5);
    if credential.Some? {
      HeaderAt(fields, 6);
    } else {
      HeaderMissing(fields, Ascii("proxy-authorization"));
    }
  }

  lemma ClassifyTcp(authority: bytes, credential: Option<bytes>)
    ensures ClassifyFields(TcpRequest(authority, credential)) ==
            Connect(authority, if credential == Some([]) then None else credential)
  {
    hide Header;
    var fields := TcpRequest(authority, credential);
    HeaderAt(fields, 0);
    HeaderAt(fields, 1);
    HeaderMissing(fields, Ascii(":protocol"));
    if credential.Some? {
      HeaderAt(fields, 2);
    } else {
      HeaderMissing(fields, Ascii("proxy-authorization"));
    }
  }

  predicate Fits(s: bytes) {
    |s| < 0x8000_0000_0000_0000
  }

  predicate CredentialFits(credential: Option<bytes>) {
    credential.Some? ==> Fits(credential.value)
  }

  lemma RequestsFit(s: bytes, credential: Option<bytes>)
    requires Fits(s) && CredentialFits(credential)
    ensures forall i | 0 <= i < |UdpRequest(s, credential)| :: FieldFits(UdpRequest(s, credential)[i])
    ensures forall i | 0 <= i < |TcpRequest(s, credential)| :: FieldFits(TcpRequest(s, credential)[i])
  {
  }

  /** A TCP tunnel request is understood as sent. */
  lemma TcpRequestArrives(authority: bytes, credential: Option<bytes>)
    requires Fits(authority) && CredentialFits(credential)
    ensures Classify(Encode(TcpRequest(authority, credential))) ==
            Ok(Connect(authority, if credential == Some([]) then None else credential))
  {
    hide Decode, Encode, TcpRequest, ClassifyFields;
    RequestsFit(authority, credential);
    FieldSectionRoundTrip(TcpRequest(authority, credential));
    ClassifyTcp(authority, credential);
  }

  /**
    * A UDP tunnel request, end to end. The client percent-encodes the host into the
    * path, packs the fields with QPACK and frames them; the server finds the frame,
    * unpacks and classifies it, and parses the path. It ends with the host, port and
    * credentials the client started from, and with the tunnel bytes that follow.
    */
  lemma UdpRequestArrives(
    host: bytes, port: nat, password: Option<bytes>, credential: Option<bytes>, tunnel: bytes)
    requires Text.IsUtf8(host) && ConnectUdp.IsHost(host) && 0 < port < 65536
    requires password.Some? ==> ConnectUdp.IsCredential(password.value)
    requires Fits(ConnectUdp.BuildPath(host, port, password)) && CredentialFits(credential)
    requires
      |Encode(UdpRequest(ConnectUdp.BuildPath(host, port, password), credential))| <= Http3.MAX_CONTROL_FRAME_BYTES
    ensures var path := ConnectUdp.BuildPath(host, port, password);
            var section := Encode(UdpRequest(path, credential));
            var head := Http3.Frame(Http3.FRAME_HEADERS, section);
            && Http3.FindFrame(Http3.EncodeFrame(head) + tunnel, Http3.FRAME_HEADERS)
               == Http3.Found(section, tunnel)
            && Classify(section) == Ok(ConnectUdp(path, if credential == Some([]) then None else credential, true))
            && ConnectUdp.ParseTarget(path) == Some(ConnectUdp.Target(host, port, password))
  {
    hide Decode, Encode, UdpRequest, ClassifyFields, ConnectUdp.BuildPath, ConnectUdp.ParseTarget, Http3.FindFrame;
    var path := ConnectUdp.BuildPath(host, port, password);
    var section := Encode(UdpRequest(path, credential));
    Http3.FindFirstFrame(Http3.Frame(Http3.FRAME_HEADERS, section), tunnel);
    RequestsFit(path, credential);
    FieldSectionRoundTrip(UdpRequest(path, credential));
    ClassifyUdp(path, credential);
    ConnectUdp.PathRoundTrip(host, port, password);
    if password.Some? {
      ConnectUdp.CredentialArrives(password.value);
    }
  }

  // ---- What is not a tunnel request ----

  /** Any method but CONNECT. */
  lemma OtherMethod(verb: bytes, rest: seq<Field>)
    requires verb != [67, 79, 78, 78, 69, 67, 84]
    ensures ClassifyFields([Field(Ascii(":method"), verb)] + rest) == Other
  {
    hide Header;
    var fields := [Field(Ascii(":method"), verb)] + rest;
    HeaderAt(fields, 0);
    assert Ascii("CONNECT") == [67, 79, 78, 78, 69, 67, 84];
  }

  /** A CONNECT with any protocol but connect-udp, a WebTransport session for one. */
  lemma OtherProtocol(protocol: bytes, rest: seq<Field>)
    requires protocol != Ascii("connect-udp")
    ensures ClassifyFields([Field(Ascii(":method"), Ascii("CONNECT")),
                            Field(Ascii(":protocol"), protocol)] + rest) == Other
  {
    hide Header;
    var fields := [Field(Ascii(":method"), Ascii("CONNECT")), Field(Ascii(":protocol"), protocol)] + rest;
    HeaderAt(fields, 0);
    HeaderAt(fields, 1);
  }

  /** A CONNECT without anything else names the empty authority and carries no credential. */
  lemma BareConnect()
    ensures ClassifyFields([Field(Ascii(":method"), Ascii("CONNECT"))]) == Connect([], None)
  {
    hide Header;
    var fields := [Field(Ascii(":method"), Ascii("CONNECT"))];
    HeaderAt(fields, 0);
    HeaderMissing(fields, Ascii(":protocol"));
    HeaderMissing(fields, Ascii(":authority"));
    HeaderMissing(fields, Ascii("proxy-authorization"));
  }

  /** Capsules are understood only when asked for as "?1". */
  lemma CapsuleFlag(path: bytes, flag: bytes)
    ensures ClassifyFields([Field(Ascii(":method"), Ascii("CONNECT")),
                            Field(Ascii(":protocol"), Ascii("connect-udp")),
                            Field(Ascii(":path"), path),
                            Field(Ascii("capsule-protocol"), flag)]) == ConnectUdp(path, None, flag == [63, 49])
  {
    hide Header;
    var fields := [Field(Ascii(":method"), Ascii("CONNECT")), Field(Ascii(":protocol"), Ascii("connect-udp")),
                   Field(Ascii(":path"), path), Field(Ascii("capsule-protocol"), flag)];
    HeaderAt(fields, 0);
    HeaderAt(fields, 1);
    HeaderAt(fields, 2);
    HeaderAt(fields, 3);
    HeaderMissing(fields, Ascii("proxy-authorization"));
    assert Ascii("?1") == [63, 49];
  }

  /** The template's fixed parts, spelled out. */
  lemma TemplateText()
    ensures ConnectUdp.PATH_PREFIX == Ascii("/.well-known/masque/udp/")
    ensures ConnectUdp.CREDENTIAL_PARAM == Ascii("credential=")
  {
  }
}
