/** The CONNECT-UDP path template (RFC 9298), from the client that writes it to the authority the server dials. */
module ConnectUdp {
  import opened Bytes
  import opened Text

  const QUESTION: byte := 63
  const SLASH: byte := 47
  const PERCENT: byte := 37
  const AMPERSAND: byte := 38
  const COLON: byte := 58
  const OPEN_BRACKET: byte := 91
  const CLOSE_BRACKET: byte := 93

  /** "/.well-known/masque/udp/" */
  const PATH_PREFIX: bytes :=
    [47, 46, 119, 101, 108, 108, 45, 107, 110, 111, 119, 110, 47, 109, 97, 115, 113, 117, 101, 47, 117, 100, 112, 47]

  /** "credential" followed by the equals sign. */
  const CREDENTIAL_PARAM: bytes := [99, 114, 101, 100, 101, 110, 116, 105, 97, 108, 61]

  datatype Target = Target(host: bytes, port: nat, credential: Option<bytes>)

  // ---- Percent coding ----

  predicate IsAlphanumeric(b: byte) {
    97 <= b <= 122 || 65 <= b <= 90 || 48 <= b <= 57
  }

  /** Letters, digits, and "-._~". */
  predicate IsUnreserved(b: byte) {
    IsAlphanumeric(b) || b == 45 || b == 46 || b == 95 || b == 126
  }

  function HexDigit(n: nat): (b: byte)
    requires n < 16
  {
    if n < 10 then 48 + n else 55 + n
  }

  function HexValue(b: byte): (r: Option<nat>)
    ensures r.Some? ==> r.value < 16
  {
    if 48 <= b <= 57 then Some(b - 48)
    else if 65 <= b <= 70 then Some(b - 55)
    else if 97 <= b <= 102 then Some(b - 87)
    else None
  }

  /** The byte two characters name in base 16; the standard parser also takes a plus sign and one digit. */
  function HexPair(a: byte, b: byte): (r: Option<nat>)
    ensures r.Some? ==> r.value < 256
  {
    if a == PLUS then HexValue(b)
    else if HexValue(a).Some? && HexValue(b).Some? then Some(16 * HexValue(a).value + HexValue(b).value)
    else None
  }

  function EncodeByte(b: byte): (s: bytes)
  {
    if IsUnreserved(b) then [b] else [PERCENT, HexDigit(b / 16), HexDigit(b % 16)]
  }

  function PercentEncoded(host: bytes): (s: bytes)
  {
    if host == [] then [] else EncodeByte(host[0]) + PercentEncoded(host[1..])
  }

  lemma EncodedRound(host: bytes, i: nat, out: bytes)
    requires i < |host|
    ensures out + PercentEncoded(host[i..]) == out + EncodeByte(host[i]) + PercentEncoded(host[i + 1..])
  {
    hide EncodeByte;
    assert host[i..][0] == host[i] && host[i..][1..] == host[i + 1..];
    assert PercentEncoded(host[i..]) == EncodeByte(host[i]) + PercentEncoded(host[i + 1..]);
  }

  method PercentEncode(host: bytes) returns (out: bytes)
    ensures out == PercentEncoded(host)
  {
    out := [];
    assert host[0..] == host;
    for i := 0 to |host|
      invariant PercentEncoded(host) == out + PercentEncoded(host[i..])
    {
      hide PercentEncoded;
      EncodedRound(host, i, out);
      var b := host[i];
      if IsUnreserved(b) {
        out := out + [b];
      } else {
        out := out + [PERCENT, HexDigit(b / 16), HexDigit(b % 16)];
      }
    }
  }

  /** The bytes `s` escapes; None on a malformed escape. */
  function Unescaped(s: bytes): (r: Option<bytes>)
    decreases |s|
  {
    if s == [] then Some([])
    else if s[0] != PERCENT then PrependByte(s[0], Unescaped(s[1..]))
    else if |s| < 3 || HexPair(s[1], s[2]).None? then None
    else PrependByte(HexPair(s[1], s[2]).value, Unescaped(s[3..]))
  }

  function PrependByte(b: byte, r: Option<bytes>): (r': Option<bytes>)
  {
    match r
    case None => None
    case Some(s) => Some([b] + s)
  }

  function PrependBytes(a: bytes, r: Option<bytes>): (r': Option<bytes>)
  {
    match r
    case None => None
    case Some(s) => Some(a + s)
  }

  function PercentDecoded(s: bytes): (r: Option<bytes>)
  {
    match Unescaped(s)
    case None => None
    case Some(out) => if IsUtf8(out) then Some(out) else None
  }

  method PercentDecode(input: bytes) returns (r: Option<bytes>)
    ensures r == PercentDecoded(input)
  {
    var out: bytes := [];
    var i := 0;
    assert input[0..] == input;
    assert Unescaped(input) == PrependBytes([], Unescaped(input)) by {
      if Unescaped(input).Some? {
        assert [] + Unescaped(input).value == Unescaped(input).value;
      }
    }
    while i < |input|
      invariant 0 <= i <= |input|
      invariant Unescaped(input) == PrependBytes(out, Unescaped(input[i..]))
    {
      ghost var s := input[i..];
      if input[i] == PERCENT {
        if i + 3 > |input| {
          return None;
        }
        var b := HexPair(input[i + 1], input[i + 2]);
        if b.None? {
          return None;
        }
        assert s[3..] == input[i + 3..];
        PrependTwice(out, b.value, Unescaped(input[i + 3..]));
        out := out + [b.value];
        i := i + 3;
      } else {
        assert s[1..] == input[i + 1..];
        PrependTwice(out, input[i], Unescaped(input[i + 1..]));
        out := out + [input[i]];
        i := i + 1;
      }
    }
    assert input[i..] == [] && out + [] == out;
    return if IsUtf8(out) then Some(out) else None;
  }

  lemma PrependTwice(a: bytes, b: byte, r: Option<bytes>)
    ensures PrependBytes(a, PrependByte(b, r)) == PrependBytes(a + [b], r)
  {
    if r.Some? {
      assert a + ([b] + r.value) == a + [b] + r.value;
    }
  }

  lemma HexRoundTrip(b: byte)
    ensures HexPair(HexDigit(b / 16), HexDigit(b % 16)) == Some(b as nat)
  {
  }

  /** Percent-decoding undoes percent-encoding, and encoded text holds no delimiter. */
  lemma {:induction false} DecodeEncoded(host: bytes)
    ensures Unescaped(PercentEncoded(host)) == Some(host)
    ensures forall b | b in PercentEncoded(host) :: IsUnreserved(b) || b == PERCENT
    ensures host != [] ==> PercentEncoded(host) != []
  {
    if host != [] {
      var head, tail := EncodeByte(host[0]), PercentEncoded(host[1..]);
      DecodeEncoded(host[1..]);
      HexRoundTrip(host[0]);
      assert (head + tail)[|head|..] == tail;
      assert host == [host[0]] + host[1..];
      assert forall b | b in head :: IsUnreserved(b) || b == PERCENT;
    }
  }

  // ---- The path ----

  /** The path the client asks for. */
  function BuildPath(host: bytes, port: nat, password: Option<bytes>): (path: bytes)
  {
    var base := PATH_PREFIX + PercentEncoded(host) + [SLASH] + Decimal(port) + [SLASH];
    match password
    case None => base
    case Some(p) => base + [QUESTION] + (CREDENTIAL_PARAM + p)
  }

  /** Control bytes and space, "/", "@", backslash and DEL are not part of a host. */
  predicate IsRefused(b: byte) {
    b <= 32 || b == SLASH || b == 64 || b == 92 || b == 127
  }

  predicate IsHost(host: bytes) {
    1 <= |host| <= 255 && forall b | b in host :: !IsRefused(b)
  }

  /** The credential alphabet: letters, digits, "-", "_" and "=". */
  predicate IsCredential(s: bytes) {
    s != [] && forall b | b in s :: IsAlphanumeric(b) || b == 45 || b == 95 || b == 61
  }

  /** The value of the first credential parameter of a query. */
  function FindCredential(query: bytes): (r: Option<bytes>)
    decreases |query|
  {
    match SplitOnce(query, AMPERSAND)
    case None => StripPrefix(query, CREDENTIAL_PARAM)
    case Some((pair, rest)) =>
      if StripPrefix(pair, CREDENTIAL_PARAM).Some? then StripPrefix(pair, CREDENTIAL_PARAM) else FindCredential(rest)
  }

  function QueryCredential(query: Option<bytes>): (r: Option<bytes>)
  {
    match query
    case None => None
    case Some(q) =>
      match FindCredential(q)
      case None => None
      case Some(v) => if IsCredential(v) then Some(v) else None
  }

  /** The escaped host and the port text of a path proper. */
  function PathParts(path: bytes): (r: Option<(bytes, bytes)>)
  {
    match StripPrefix(path, PATH_PREFIX)
    case None => None
    case Some(tail) => SplitOnce(TrimEnd(tail, SLASH), SLASH)
  }

  /** Host and port of the path proper. */
  function ParseHostPort(path: bytes): (r: Option<(bytes, nat)>)
  {
    match PathParts(path)
    case None => None
    case Some((host, port)) =>
      if host == [] || port == [] || SLASH in port then None
      else
        match (ParseU16(port), PercentDecoded(host))
        case (Some(p), Some(h)) => if p != 0 && IsHost(h) then Some((h, p)) else None
        case _ => None
  }

  function ParseTarget(path: bytes): (r: Option<Target>)
  {
    var (p, query) :=
      match SplitOnce(path, QUESTION)
      case None => (path, None)
      case Some((p, q)) => (p, Some(q));
    match ParseHostPort(p)
    case None => None
    case Some((host, port)) => Some(Target(host, port, QueryCredential(query)))
  }

  /** What the server makes of a password the client put into the query. */
  function CredentialRead(password: Option<bytes>): (r: Option<bytes>)
  {
    match password
    case None => None
    case Some(p) =>
      var v := match SplitOnce(p, AMPERSAND) case None => p case Some((a, _)) => a;
      if IsCredential(v) then Some(v) else None
  }

  lemma ReadHostPortText(host: bytes, text: bytes, port: nat)
    requires IsUtf8(host) && text != [] && SLASH !in text && QUESTION !in text && ParseU16(text) == Some(port)
    ensures var path := PATH_PREFIX + PercentEncoded(host) + [SLASH] + text + [SLASH];
            QUESTION !in path &&
            ParseHostPort(path) == if IsHost(host) && port != 0 then Some((host, port)) else None
  {
    hide PATH_PREFIX, PercentEncoded, Unescaped, IsUtf8, ParseU16, SplitOnce, IsHost;
    var e := PercentEncoded(host);
    DecodeEncoded(host);
    NoDelimiters(host, port);
    NoQuestionInPrefix();
    var path := PATH_PREFIX + e + [SLASH] + text + [SLASH];
    var tail := e + [SLASH] + text + [SLASH];
    assert path == PATH_PREFIX + tail;
    CutPrefix(PATH_PREFIX, tail);
    assert TrimEnd(tail, SLASH) == e + [SLASH] + text;
    SplitAt(e, SLASH, text);
    EmptyHost(host);
  }

  lemma ReadHostPort(host: bytes, port: nat)
    requires IsUtf8(host) && port < 65536
    ensures var path := PATH_PREFIX + PercentEncoded(host) + [SLASH] + Decimal(port) + [SLASH];
            QUESTION !in path &&
            ParseHostPort(path) == if IsHost(host) && port != 0 then Some((host, port)) else None
  {
    hide PATH_PREFIX, PercentEncoded, Decimal, IsUtf8, ParseU16, IsHost, ParseHostPort;
    ParseDecimal(port);
    NoDelimiters(host, port);
    ReadHostPortText(host, Decimal(port), port);
  }

  lemma EmptyHost(host: bytes)
    ensures PercentEncoded(host) == [] ==> !IsHost(host)
  {
    if host != [] {
      DecodeEncoded(host);
    }
  }

  lemma NoDelimiters(host: bytes, port: nat)
    ensures SLASH !in PercentEncoded(host) && QUESTION !in PercentEncoded(host)
    ensures SLASH !in Decimal(port) && QUESTION !in Decimal(port) && COLON !in Decimal(port)
  {
    hide PercentEncoded, Decimal;
    DecodeEncoded(host);
  }

  lemma NoQuestionInPrefix()
    ensures QUESTION !in PATH_PREFIX
  {
  }

  lemma ReadCredential(p: bytes)
    ensures QueryCredential(Some(CREDENTIAL_PARAM + p)) == CredentialRead(Some(p))
  {
    var q := CREDENTIAL_PARAM + p;
    CutPrefix(CREDENTIAL_PARAM, p);
    assert CREDENTIAL_PARAM <= q;
    assert AMPERSAND !in CREDENTIAL_PARAM;
    hide CREDENTIAL_PARAM;
    if AMPERSAND in p {
      var (a, b) := SplitOnce(p, AMPERSAND).value;
      assert q == (CREDENTIAL_PARAM + a) + [AMPERSAND] + b;
      SplitAt(CREDENTIAL_PARAM + a, AMPERSAND, b);
      CutPrefix(CREDENTIAL_PARAM, a);
      assert CREDENTIAL_PARAM <= CREDENTIAL_PARAM + a;
    }
  }

  /**
    * The server recovers exactly what the client wrote, for every host, port and
    * password: the target when the host is acceptable and the port is not zero,
    * nothing otherwise, with the password up to its first "&" as the credential
    * when it is in the credential alphabet.
    */
  lemma PathRoundTrip(host: bytes, port: nat, password: Option<bytes>)
    requires IsUtf8(host) && port < 65536
    ensures ParseTarget(BuildPath(host, port, password)) ==
            if IsHost(host) && port != 0 then Some(Target(host, port, CredentialRead(password))) else None
  {
    hide ParseHostPort, QueryCredential, PercentEncoded, Decimal, PATH_PREFIX, CREDENTIAL_PARAM, CredentialRead;
    var base := PATH_PREFIX + PercentEncoded(host) + [SLASH] + Decimal(port) + [SLASH];
    ReadHostPort(host, port);
    if password.Some? {
      SplitAt(base, QUESTION, CREDENTIAL_PARAM + password.value);
      ReadCredential(password.value);
    }
    NoCredential();
  }

  lemma NoCredential()
    ensures QueryCredential(None).None? && CredentialRead(None).None?
  {
  }

  /** A password in the credential alphabet arrives unchanged. */
  lemma CredentialArrives(password: bytes)
    requires IsCredential(password)
    ensures CredentialRead(Some(password)) == Some(password)
  {
  }

  // ---- The authority ----

  /** The two halves of an authority, without the brackets a host may stand in. */
  function AuthorityParts(raw: bytes): (r: Option<(bytes, bytes)>)
  {
    if raw != [] && raw[0] == OPEN_BRACKET then
      match SplitOnce(raw[1..], CLOSE_BRACKET)
      case None => None
      case Some((inside, after)) =>
        if after != [] && after[0] == COLON then Some((inside, after[1..])) else None
    else RSplitOnce(raw, COLON)
  }

  function ParseAuthority(raw: bytes): (r: Option<(bytes, nat)>)
  {
    match AuthorityParts(raw)
    case None => None
    case Some((host, port)) =>
      if !IsHost(host) then None
      else
        match ParseU16(port)
        case None => None
        case Some(p) => if p == 0 then None else Some((host, p))
  }

  /** The authority dialed for a CONNECT-UDP target: an IPv6 literal gets its brackets back. */
  function UdpAuthority(host: bytes, port: nat): (r: Option<(bytes, nat)>)
  {
    ParseAuthority(
      if COLON in host then [OPEN_BRACKET] + host + [CLOSE_BRACKET, COLON] + Decimal(port)
      else host + [COLON] + Decimal(port))
  }

  /** A host the authority form can carry as it is. */
  predicate IsCarried(host: bytes) {
    if COLON in host then CLOSE_BRACKET !in host else host == [] || host[0] != OPEN_BRACKET
  }

  /** A host without a colon that stands in brackets of its own. */
  predicate IsBracketed(host: bytes) {
    && |host| >= 3 && host[0] == OPEN_BRACKET && host[|host| - 1] == CLOSE_BRACKET
    && COLON !in host && CLOSE_BRACKET !in host[1..|host| - 1]
  }

  /** What is dialed for a host: itself, what its own brackets enclose, or nothing. */
  function Dialed(host: bytes, port: nat): (r: Option<(bytes, nat)>)
  {
    if IsCarried(host) then Some((host, port))
    else if IsBracketed(host) then Some((host[1..|host| - 1], port))
    else None
  }

  /** A text with a byte that is neither a digit nor a plus sign is no port. */
  lemma NoPort(s: bytes, b: byte)
    requires b in s && !IsDigit(b) && b != PLUS
    ensures ParseU16(s).None?
  {
    var digits := if |s| > 1 && s[0] == PLUS then s[1..] else s;
    assert s != [] && s == [s[0]] + s[1..];
    NoDigits(digits, b);
  }

  lemma {:induction false} NoDigits(s: bytes, b: byte)
    requires b in s && !IsDigit(b)
    ensures DigitsValue(s).None?
  {
    var n := |s| - 1;
    assert s == s[..n] + [s[n]];
    if s[n] != b {
      NoDigits(s[..n], b);
    }
  }

  /** An IPv6 literal is dialed as it is; a closing bracket within leaves no port. */
  lemma BracketedAuthority(host: bytes, port: nat)
    requires IsHost(host) && 0 < port < 65536 && COLON in host
    ensures UdpAuthority(host, port) == if CLOSE_BRACKET !in host then Some((host, port)) else None
  {
    hide Decimal, SplitOnce, IsHost, ParseU16;
    ParseDecimal(port);
    var d := Decimal(port);
    var raw := [OPEN_BRACKET] + host + [CLOSE_BRACKET, COLON] + d;
    var after := [COLON] + d;
    assert raw[1..] == host + [CLOSE_BRACKET] + after;
    assert after[1..] == d;
    if CLOSE_BRACKET !in host {
      SplitAt(host, CLOSE_BRACKET, after);
    } else {
      var (a, b) := SplitOnce(host, CLOSE_BRACKET).value;
      var rest := b + [CLOSE_BRACKET] + after;
      assert raw[1..] == a + [CLOSE_BRACKET] + rest;
      SplitAt(a, CLOSE_BRACKET, rest);
      if rest[0] == COLON {
        assert rest[|b|] == CLOSE_BRACKET && rest[1..][|b| - 1] == rest[|b|];
        NoPort(rest[1..], CLOSE_BRACKET);
      }
    }
  }

  lemma Enclosed(host: bytes, a: bytes, b: bytes)
    requires host != [] && host[0] == OPEN_BRACKET && COLON !in host
    requires host[1..] == a + [CLOSE_BRACKET] + b && CLOSE_BRACKET !in a
    ensures IsBracketed(host) <==> a != [] && b == []
    ensures b == [] ==> host[1..|host| - 1] == a
    ensures IsHost(host) ==> (IsHost(a) <==> a != [])
  {
    assert host == [OPEN_BRACKET] + (a + [CLOSE_BRACKET] + b);
    assert host[|a| + 1] == CLOSE_BRACKET;
    if b != [] {
      assert host[1..|host| - 1][|a|] == CLOSE_BRACKET;
    }
  }

  lemma NotEnclosed(host: bytes)
    requires host != [] && CLOSE_BRACKET !in host[1..]
    ensures !IsBracketed(host)
  {
    assert |host| >= 3 ==> host[|host| - 1] == host[1..][|host| - 2];
  }

  /** A leading bracket is taken for an IPv6 literal's: what it encloses is dialed if nothing follows. */
  lemma LeadingBracket(host: bytes, port: nat)
    requires IsHost(host) && 0 < port < 65536 && COLON !in host && host[0] == OPEN_BRACKET
    ensures UdpAuthority(host, port) == if IsBracketed(host) then Some((host[1..|host| - 1], port)) else None
  {
    assert host != [];
    hide Decimal, SplitOnce, ParseU16, IsHost, IsBracketed;
    ParseDecimal(port);
    var d, inner := Decimal(port), host[1..];
    var raw := host + [COLON] + d;
    assert raw[0] == OPEN_BRACKET && raw[1..] == inner + [COLON] + d;
    if CLOSE_BRACKET in inner {
      var (a, b) := SplitOnce(inner, CLOSE_BRACKET).value;
      var rest := b + [COLON] + d;
      assert raw[1..] == a + [CLOSE_BRACKET] + rest;
      SplitAt(a, CLOSE_BRACKET, rest);
      Enclosed(host, a, b);
      if b == [] {
        assert rest[1..] == d;
      } else {
        assert rest[0] == b[0] && b[0] in inner;
        assert forall x | x in inner :: x in host;
      }
    } else {
      NotEnclosed(host);
    }
  }

  /** The dialed authority for every acceptable host: the host as given exactly when the authority form carries it. */
  lemma AuthorityExact(host: bytes, port: nat)
    requires IsHost(host) && 0 < port < 65536
    ensures UdpAuthority(host, port) == Dialed(host, port)
    ensures UdpAuthority(host, port) == Some((host, port)) <==> IsCarried(host)
  {
    hide UdpAuthority;
    if COLON in host {
      BracketedAuthority(host, port);
    } else if host[0] == OPEN_BRACKET {
      LeadingBracket(host, port);
    } else {
      PlainAuthority(host, port);
    }
  }

  lemma PlainAuthority(host: bytes, port: nat)
    requires IsHost(host) && 0 < port < 65536 && COLON !in host && host[0] != OPEN_BRACKET
    ensures UdpAuthority(host, port) == Some((host, port))
  {
    assert host != [];
    hide Decimal, SplitOnce, RSplitOnce, IsHost, ParseU16;
    ParseDecimal(port);
    NoDelimiters(host, port);
    RSplitAt(host, COLON, Decimal(port));
  }

  /** From the client's host and port to the server's dial, for every acceptable host. */
  lemma HostReachesDialer(host: bytes, port: nat, password: Option<bytes>)
    requires IsUtf8(host) && IsHost(host) && 0 < port < 65536
    ensures var t := ParseTarget(BuildPath(host, port, password));
            t.Some? && UdpAuthority(t.value.host, t.value.port) == Dialed(host, port)
  {
    hide ParseTarget, UdpAuthority, Dialed;
    PathRoundTrip(host, port, password);
    AuthorityExact(host, port);
  }

  /** The host "[a]" is dialed as "a", and "[a]b" is not dialed. */
  lemma BracketsAreTakenOff()
    ensures UdpAuthority([91, 97, 93], 443) == Some(([97], 443))
    ensures UdpAuthority([91, 97, 93, 98], 443) == None
  {
    hide UdpAuthority;
    var a, b := [91, 97, 93], [91, 97, 93, 98];
    AuthorityExact(a, 443);
    AuthorityExact(b, 443);
    assert a[1..2] == [97];
  }

  // ---- The plus sign of the standard integer parser ----

  /** Decoding that insists on two hexadecimal digits. */
  function StrictlyUnescaped(s: bytes): (r: Option<bytes>)
    decreases |s|
  {
    if s == [] then Some([])
    else if s[0] != PERCENT then PrependByte(s[0], StrictlyUnescaped(s[1..]))
    else if |s| < 3 || s[1] == PLUS || HexPair(s[1], s[2]).None? then None
    else PrependByte(HexPair(s[1], s[2]).value, StrictlyUnescaped(s[3..]))
  }

  /** Some escape, read from the left, has a plus sign for its first digit. */
  predicate HasPlusEscape(s: bytes)
    decreases |s|
  {
    && s != []
    && if s[0] != PERCENT then HasPlusEscape(s[1..]) else |s| >= 3 && (s[1] == PLUS || HasPlusEscape(s[3..]))
  }

  predicate HasRefused(s: bytes) {
    exists b | b in s :: IsRefused(b)
  }

  /**
    * The decoder agrees with a strict one exactly when it refuses too or no escape has
    * a plus sign. Where they differ, what is decoded holds a byte no host may hold.
    */
  lemma {:induction false} PlusEscapeExact(s: bytes)
    ensures Unescaped(s) == StrictlyUnescaped(s) <==> Unescaped(s).None? || !HasPlusEscape(s)
    ensures Unescaped(s) != StrictlyUnescaped(s) ==> StrictlyUnescaped(s).None? && HasRefused(Unescaped(s).value)
    decreases |s|
  {
    if s != [] && (s[0] != PERCENT || (|s| >= 3 && HexPair(s[1], s[2]).Some?)) {
      var n := if s[0] == PERCENT then 3 else 1;
      var head := if s[0] == PERCENT then HexPair(s[1], s[2]).value else s[0];
      PlusEscapeExact(s[n..]);
      if Unescaped(s).Some? {
        var tail := Unescaped(s[n..]).value;
        assert Unescaped(s).value == [head] + tail;
        assert head in Unescaped(s).value && forall b | b in tail :: b in Unescaped(s).value;
        assert StrictlyUnescaped(s[n..]).Some? && StrictlyUnescaped(s).Some? ==>
                 StrictlyUnescaped(s).value == [head] + StrictlyUnescaped(s[n..]).value;
      }
    }
  }

  /** A plus sign before the digits changes nothing. */
  lemma PlusPort(port: nat)
    ensures ParseU16([PLUS] + Decimal(port)) == ParseU16(Decimal(port))
  {
    var d := Decimal(port);
    assert d[0] in d;
    assert ([PLUS] + d)[1..] == d;
  }

  /** "%+A" decodes to a line feed, which no strict decoder accepts and no host may hold. */
  lemma PlusEscapeAccepted()
    ensures PercentDecoded([37, 43, 65]) == Some([10]) && !IsHost([10])
    ensures StrictlyUnescaped([37, 43, 65]).None?
  {
    var s: bytes := [PERCENT, PLUS, 65];
    assert s[3..] == [] && Unescaped([]) == Some([]);
    assert HexPair(PLUS, 65) == Some(10);
    assert [10] + [] == [10];
    assert Unescaped(s) == Some([10]);
    assert [10][1..] == [] && SequenceLength([10]) == 1;
    assert 10 in [10] && IsRefused(10);
  }

  /** A 16-bit number of digits only. */
  function StrictU16(s: bytes): (r: Option<nat>)
  {
    match DigitsValue(s)
    case None => None
    case Some(v) => if v < 65536 then Some(v) else None
  }

  predicate StartsWithPlus(s: bytes) {
    s != [] && s[0] == PLUS
  }

  lemma StrictU16Exact(s: bytes)
    ensures ParseU16(s) == StrictU16(s) <==> ParseU16(s).None? || !StartsWithPlus(s)
    ensures StrictU16(s).Some? ==> ParseU16(s) == StrictU16(s)
  {
    if StartsWithPlus(s) {
      NoDigits(s, PLUS);
    }
  }

  /** The path parser as the template has it: two digits to an escape, and digits for a port. */
  function StrictHostPort(path: bytes): (r: Option<(bytes, nat)>)
  {
    match PathParts(path)
    case None => None
    case Some((host, port)) =>
      if host == [] || port == [] || SLASH in port then None
      else
        match (StrictU16(port), StrictlyUnescaped(host))
        case (Some(p), Some(h)) => if p != 0 && IsUtf8(h) && IsHost(h) then Some((h, p)) else None
        case _ => None
  }

  function StrictTarget(path: bytes): (r: Option<Target>)
  {
    var (p, query) :=
      match SplitOnce(path, QUESTION)
      case None => (path, None)
      case Some((p, q)) => (p, Some(q));
    match StrictHostPort(p)
    case None => None
    case Some((host, port)) => Some(Target(host, port, QueryCredential(query)))
  }

  predicate HasPlusPort(path: bytes) {
    PathParts(path).Some? && StartsWithPlus(PathParts(path).value.1)
  }

  lemma StrictHostPortExact(path: bytes)
    ensures ParseHostPort(path) == StrictHostPort(path) <==> ParseHostPort(path).None? || !HasPlusPort(path)
    ensures StrictHostPort(path).Some? ==> ParseHostPort(path) == StrictHostPort(path)
  {
    hide SplitOnce, TrimEnd, StripPrefix, ParseU16, StrictU16, Unescaped, StrictlyUnescaped, IsUtf8, PATH_PREFIX;
    if PathParts(path).Some? {
      var (host, port) := PathParts(path).value;
      PlusEscapeExact(host);
      StrictU16Exact(port);
    }
  }

  /** A path up to its query. */
  function BeforeQuery(path: bytes): (p: bytes)
  {
    match SplitOnce(path, QUESTION)
    case None => path
    case Some((p, _)) => p
  }

  /**
    * For every path, with or without a query: the parser agrees with the strict one
    * exactly when it refuses too or the port has no plus sign, and it accepts whatever
    * the strict one accepts, alike.
    */
  lemma StrictTargetExact(path: bytes)
    ensures ParseTarget(path) == StrictTarget(path) <==>
            ParseTarget(path).None? || !HasPlusPort(BeforeQuery(path))
    ensures StrictTarget(path).Some? ==> ParseTarget(path) == StrictTarget(path)
  {
    hide SplitOnce, ParseHostPort, StrictHostPort, HasPlusPort, QueryCredential;
    StrictHostPortExact(BeforeQuery(path));
  }

  /** The authority parser with digits only for a port. */
  function StrictAuthority(raw: bytes): (r: Option<(bytes, nat)>)
  {
    match AuthorityParts(raw)
    case None => None
    case Some((host, port)) =>
      if !IsHost(host) then None
      else
        match StrictU16(port)
        case None => None
        case Some(p) => if p == 0 then None else Some((host, p))
  }

  /** For every authority, the same condition on its port text. */
  lemma StrictAuthorityExact(raw: bytes)
    ensures ParseAuthority(raw) == StrictAuthority(raw) <==>
            ParseAuthority(raw).None? || !StartsWithPlus(AuthorityParts(raw).value.1)
    ensures StrictAuthority(raw).Some? ==> ParseAuthority(raw) == StrictAuthority(raw)
  {
    hide AuthorityParts, ParseU16, StrictU16;
    if AuthorityParts(raw).Some? {
      StrictU16Exact(AuthorityParts(raw).value.1);
    }
  }

  /** The client's path with a plus sign before its port, "+443" for one, reads as without it. */
  lemma PlusPortAccepted(host: bytes, port: nat)
    requires IsUtf8(host) && port < 65536
    ensures ParseTarget(PATH_PREFIX + PercentEncoded(host) + [SLASH] + ([PLUS] + Decimal(port)) + [SLASH]) ==
            ParseTarget(BuildPath(host, port, None))
    ensures Decimal(443) == [52, 52, 51]
  {
    hide ParseHostPort, PercentEncoded, PATH_PREFIX;
    assert Decimal(44) == [52, 52];
    hide Decimal;
    ParseDecimal(port);
    PlusPort(port);
    NoDelimiters(host, port);
    ReadHostPortText(host, [PLUS] + Decimal(port), port);
    ReadHostPort(host, port);
  }

  // ---- Literal byte classes ----

  /** The bytes a host may hold. */
  lemma HostBytes(b: byte)
    ensures IsHost([b]) <==>
            33 <= b <= 46 || 48 <= b <= 63 || 65 <= b <= 91 || 93 <= b <= 126 || 128 <= b
  {
    assert b in [b];
  }

  /** A host is one to 255 bytes, each of which may stand in one. */
  lemma HostLength(host: bytes)
    requires forall b | b in host :: IsHost([b])
    ensures IsHost(host) <==> 1 <= |host| <= 255
  {
    forall b | b in host
      ensures !IsRefused(b)
    {
      assert IsHost([b]) && b in [b];
    }
  }

  /** The bytes a credential may hold. */
  lemma CredentialBytes(b: byte)
    ensures IsCredential([b]) <==>
            b == 45 || 48 <= b <= 57 || b == 61 || 65 <= b <= 90 || b == 95 || 97 <= b <= 122
  {
    assert b in [b];
  }

  /** The bytes a path carries as they are; any other is a percent sign and two upper-case digits. */
  lemma EscapedBytes(b: byte)
    ensures EncodeByte(b) ==
            if b == 45 || b == 46 || 48 <= b <= 57 || 65 <= b <= 90 || b == 95 || 97 <= b <= 122 || b == 126 then [b]
            else [37, (if b < 160 then 48 else 55) + b / 16, (if b % 16 < 10 then 48 else 55) + b % 16]
  {
  }

  /** Hexadecimal digits of both cases, and nothing else. */
  lemma HexDigits(b: byte, n: nat)
    ensures HexValue(b) == Some(n) <==>
            (48 <= b <= 57 && n == b - 48) || (65 <= b <= 70 && n == b - 55) || (97 <= b <= 102 && n == b - 87)
  {
  }

  /** A credential behind other parameters is found, and of several the first. */
  lemma CredentialBehind(other: bytes, query: bytes)
    requires 38 !in other
    ensures FindCredential(other + [38] + query) ==
            if CREDENTIAL_PARAM <= other then Some(other[|CREDENTIAL_PARAM|..]) else FindCredential(query)
    ensures FindCredential(other) == if CREDENTIAL_PARAM <= other then Some(other[|CREDENTIAL_PARAM|..]) else None
  {
    hide CREDENTIAL_PARAM, SplitOnce;
    SplitAt(other, AMPERSAND, query);
  }

  /** The path to "a b", port 443, with the password "x", byte for byte behind the prefix. */
  lemma PathBytes()
    ensures BuildPath([97, 32, 98], 443, Some([120])) ==
            PATH_PREFIX + [97, 37, 50, 48, 98, 47, 52, 52, 51, 47, 63] + CREDENTIAL_PARAM + [120]
  {
    hide PATH_PREFIX, CREDENTIAL_PARAM;
    assert Decimal(44) == [52, 52] && Decimal(443) == [52, 52, 51];
    var s: bytes := [97, 32, 98];
    assert EncodeByte(97) == [97] && EncodeByte(32) == [37, 50, 48] && EncodeByte(98) == [98];
    assert s[1..] == [32, 98] && s[1..][1..] == [98] && s[1..][1..][1..] == [];
    assert PercentEncoded([98]) == [98];
    assert PercentEncoded(s) == [97, 37, 50, 48, 98];
  }

  lemma AuthorityText(host: bytes)
    ensures UdpAuthority(host, 443) ==
            ParseAuthority(if 58 in host then [91] + host + [93, 58, 52, 52, 51] else host + [58, 52, 52, 51])
  {
    hide ParseAuthority;
    assert Decimal(44) == [52, 52] && Decimal(443) == [52, 52, 51];
    assert [93, 58] + [52, 52, 51] == [93, 58, 52, 52, 51];
    assert [91] + host + [93, 58] + [52, 52, 51] == [91] + host + [93, 58, 52, 52, 51];
    assert host + [58] + [52, 52, 51] == host + [58, 52, 52, 51];
  }

  /** The authorities "a:443" and "[::1]:443". */
  lemma AuthorityBytes()
    ensures ParseAuthority([97, 58, 52, 52, 51]) == Some(([97], 443))
    ensures ParseAuthority([91, 58, 58, 49, 93, 58, 52, 52, 51]) == Some(([58, 58, 49], 443))
  {
    hide ParseAuthority, UdpAuthority;
    AuthorityText([97]);
    AuthorityText([58, 58, 49]);
    assert [97] + [58, 52, 52, 51] == [97, 58, 52, 52, 51];
    assert [91] + [58, 58, 49] + [93, 58, 52, 52, 51] == [91, 58, 58, 49, 93, 58, 52, 52, 51];
    AuthorityExact([97], 443);
    AuthorityExact([58, 58, 49], 443);
  }
}
