/** IPv4 endpoints (common/net/net.cpp, Endpoint::parse and toString). */
module Endpoints {
  import opened Text

  datatype Endpoint = Endpoint(ip: Bytes, port: int) {
    function ToString(): Bytes {
      ip + Sep(':') + DecInt(port)
    }

    /** The endpoints that Parse can produce. */
    predicate Valid() {
      ip != [] && ':' !in ip && 1 <= port <= 65535 && IsDottedQuad(CString(ip))
    }
  }

  /** inet_pton is given a C string, so it sees the text up to the first NUL. */
  function CString(text: Bytes): Bytes {
    text[..IndexOf(text, '\0')]
  }

  /** What inet_pton(AF_INET) accepts: four decimal octets without leading zeros. */
  predicate IsDottedQuad(text: Bytes) {
    var octets := Split(text, '.');
    |octets| == 4 && forall octet | octet in octets :: IsOctet(octet)
  }

  predicate IsOctet(text: Bytes) {
    text != [] && AllDigits(text) && DecValue(text) <= 255 && (|text| == 1 || text[0] != '0')
  }

  function Parse(text: Bytes): Option<Endpoint> {
    var colon := IndexOf(text, ':');
    if colon == |text| || colon == 0 || ':' in text[colon + 1..] then None
    else
      match ParseU64(text[colon + 1..])
      case None => None
      case Some(port) =>
        if port == 0 || port > 65535 || !IsDottedQuad(CString(text[..colon])) then None
        else Some(Endpoint(text[..colon], port))
  }

  lemma ParseToString(endpoint: Endpoint)
    ensures Parse(endpoint.ToString()) == Some(endpoint) <==> endpoint.Valid()
  {
    var Endpoint(ip, port) := endpoint;
    DecIntParses(port);
    assert !IsDigit(':') && ':' !in DecInt(port);
    if ':' !in ip {
      assert endpoint.ToString() == ip + [':'] + DecInt(port);
      IndexOfFirst(ip, ':', DecInt(port));
      assert endpoint.ToString()[..|ip|] == ip && endpoint.ToString()[|ip| + 1..] == DecInt(port);
    }
  }

  lemma ParseValid(text: Bytes)
    ensures Parse(text).Some? ==> Parse(text).value.Valid()
    ensures Parse(text).Some? ==> Parse(text).value.ip <= text
  {
  }

  lemma DottedQuadChars(text: Bytes, c: Byte)
    requires IsDottedQuad(text) && c in text
    ensures IsDigit(c) || c == '.'
  {
    JoinSplit(text, '.');
    JoinChars(Split(text, '.'), '.', c);
  }

  /** Without an embedded NUL the address is just digits and dots. */
  lemma PlainAddress(endpoint: Endpoint)
    requires endpoint.Valid() && '\0' !in endpoint.ip
    ensures IsWord(endpoint.ip) && '/' !in endpoint.ip && ',' !in endpoint.ip
  {
    var ip := endpoint.ip;
    assert forall i | 0 <= i < |ip| :: ip[i] in ip;
    assert CString(ip) == ip;
    forall c | c in ip ensures !IsSpace(c) && c != '/' && c != ',' {
      DottedQuadChars(ip, c);
    }
  }

  /** Behind a NUL an address text may hold anything but ':', since inet_pton does not see it. */
  lemma AddressBehindNul(rest: Bytes, port: int)
    requires ':' !in rest && 1 <= port <= 65535
    ensures Endpoint(B("1.1.1.1") + ['\0'] + rest, port).Valid()
  {
    hide Split, IndexOf;
    var quad, one := B("1.1.1.1"), B("1");
    assert quad == one + ['.'] + one + ['.'] + one + ['.'] + one;
    assert '.' !in one && '\0' !in quad && ':' !in quad;
    IndexOfFirst(quad, '\0', rest);
    assert (quad + ['\0'] + rest)[..|quad|] == quad;
    SplitFour(one, one, one, one, '.');
    assert DecValue(one) == 1;
  }

  lemma {:induction false} DecLeading(n: nat)
    ensures n > 0 ==> Dec(n)[0] != '0'
    ensures |Dec(n)| >= 1
  {
    if n >= 10 {
      DecLeading(n / 10);
    }
  }

  /** An octet is a number up to 255, printed plainly. */
  lemma OctetExact(text: Bytes)
    ensures IsOctet(text) <==> exists n: nat :: n <= 255 && text == Dec(n)
  {
    hide Dec, DecValue;
    if IsOctet(text) {
      var zeros := DigitsAreNumber(text);
      DecDigits(DecValue(text));
      LeadingZeros(zeros, DecValue(text));
      assert zeros == 0;
      assert text == Dec(DecValue(text));
    }
    if n: nat :| n <= 255 && text == Dec(n) {
      DecDigits(n);
      DecLeading(n);
      ZeroText();
    }
  }

  lemma LeadingZeros(zeros: nat, n: nat)
    ensures zeros > 0 ==> |Zeros(zeros) + Dec(n)| >= 2 && (Zeros(zeros) + Dec(n))[0] == '0'
    ensures zeros == 0 ==> Zeros(zeros) + Dec(n) == Dec(n)
  {
    DecDigits(n);
  }

  lemma ZeroText()
    ensures Dec(0) == ['0']
  {
  }

  function QuadText(a: nat, b: nat, c: nat, d: nat): Bytes {
    Dec(a) + ['.'] + Dec(b) + ['.'] + Dec(c) + ['.'] + Dec(d)
  }

  /** An address is four such numbers with dots between them. */
  lemma QuadExact(text: Bytes)
    ensures IsDottedQuad(text) <==>
            exists a: nat, b: nat, c: nat, d: nat ::
              a <= 255 && b <= 255 && c <= 255 && d <= 255 && text == QuadText(a, b, c, d)
  {
    hide Dec, IsOctet, Split;
    if IsDottedQuad(text) {
      var parts := Split(text, '.');
      JoinSplit(text, '.');
      assert parts[0] in parts && parts[1] in parts && parts[2] in parts && parts[3] in parts;
      OctetExact(parts[0]);
      OctetExact(parts[1]);
      OctetExact(parts[2]);
      OctetExact(parts[3]);
      var a: nat :| a <= 255 && parts[0] == Dec(a);
      var b: nat :| b <= 255 && parts[1] == Dec(b);
      var c: nat :| c <= 255 && parts[2] == Dec(c);
      var d: nat :| d <= 255 && parts[3] == Dec(d);
      JoinFour(parts, '.');
      assert text == QuadText(a, b, c, d);
    }
    if a: nat, b: nat, c: nat, d: nat :| a <= 255 && b <= 255 && c <= 255 && d <= 255 && text == QuadText(a, b, c, d) {
      DecDigits(a);
      DecDigits(b);
      DecDigits(c);
      DecDigits(d);
      assert !IsDigit('.');
      SplitFour(Dec(a), Dec(b), Dec(c), Dec(d), '.');
      OctetExact(Dec(a));
      OctetExact(Dec(b));
      OctetExact(Dec(c));
      OctetExact(Dec(d));
    }
  }

  lemma JoinFour(parts: seq<Bytes>, c: Byte)
    requires |parts| == 4
    ensures Join(parts, c) == parts[0] + [c] + parts[1] + [c] + parts[2] + [c] + parts[3]
  {
    assert parts[1..][1..] == parts[2..] && parts[2..][1..] == parts[3..] && parts[3..][1..] == [];
    assert Join(parts[3..], c) == parts[3];
    assert Join(parts[2..], c) == parts[2] + [c] + parts[3];
    assert Join(parts[1..], c) == parts[1] + [c] + (parts[2] + [c] + parts[3]);
    assert Join(parts, c) == parts[0] + [c] + (parts[1] + [c] + (parts[2] + [c] + parts[3]));
  }

  /** What parses is a valid address, a colon, and its port in decimal, with any leading zeros. */
  lemma ParseExact(text: Bytes, endpoint: Endpoint)
    ensures Parse(text) == Some(endpoint) <==>
            endpoint.Valid() && exists port ::
              text == endpoint.ip + [':'] + port && ParseU64(port) == Some(endpoint.port)
  {
    hide IsDottedQuad, CString, ParseU64;
    if Parse(text) == Some(endpoint) {
      var colon := IndexOf(text, ':');
      assert text == endpoint.ip + [':'] + text[colon + 1..];
    }
    if port :| endpoint.Valid() && text == endpoint.ip + [':'] + port && ParseU64(port) == Some(endpoint.port) {
      IndexOfFirst(endpoint.ip, ':', port);
      assert text[..|endpoint.ip|] == endpoint.ip && text[|endpoint.ip| + 1..] == port;
      ParsedDigits(port);
    }
  }

  lemma ParsedDigits(text: Bytes)
    requires ParseU64(text).Some?
    ensures ':' !in text
  {
    assert !IsDigit(':');
  }
}
