/** Peer tickets and seeder access records (common/peer_ticket.cpp). */
module Tickets {
  import opened Text
  import opened Endpoints

  const LIFETIME_SECONDS: nat := 300
  const MAX_EXPIRES: nat := 0x4000_0000_0000_0000

  /** HMAC-SHA256, from outside the model: 32 bytes, or empty on failure. */
  type Hmac = (Bytes, Bytes) -> Bytes

  datatype PeerTicket = PeerTicket(user: Bytes, group: Bytes, file: Bytes, expires: int) {
    function Encode(): Bytes {
      ToHex(user) + Sep('.') + ToHex(group) + Sep('.') + ToHex(file) + Sep('.') + DecInt(expires)
    }

    predicate Expired(now: int) {
      now >= expires
    }

    function Key(hmac: Hmac, peerKey: Bytes): Bytes {
      hmac(peerKey, KeyInput(Encode()))
    }

    /** The tickets that Decode can produce. */
    predicate Valid() {
      user != [] && group != [] && file != [] && 0 <= expires <= MAX_EXPIRES
    }
  }

  /** What the ticket key authenticates. */
  function KeyInput(ticket: Bytes): Bytes {
    B("torrent-peer-ticket-v1|") + ticket
  }

  function Decode(text: Bytes): Option<PeerTicket> {
    var fields := Split(text, '.');
    if |fields| != 4 then None
    else
      match (FromHex(fields[0]), FromHex(fields[1]), FromHex(fields[2]), ParseU64(fields[3]))
      case (Some(user), Some(group), Some(file), Some(expires)) =>
        if user == [] || group == [] || file == [] || expires > MAX_EXPIRES then None
        else Some(PeerTicket(user, group, file, expires))
      case _ => None
  }

  ghost function TicketFields(ticket: PeerTicket): seq<Bytes> {
    [ToHex(ticket.user), ToHex(ticket.group), ToHex(ticket.file), DecInt(ticket.expires)]
  }

  lemma EncodeFields(ticket: PeerTicket)
    ensures Split(ticket.Encode(), '.') == TicketFields(ticket)
  {
    var f := TicketFields(ticket);
    ToHexDigits(ticket.user);
    ToHexDigits(ticket.group);
    ToHexDigits(ticket.file);
    DecIntParses(ticket.expires);
    assert !IsHexDigit('.') && !IsDigit('.');
    SplitFour(f[0], f[1], f[2], f[3], '.');
  }

  /** The wire form determines the ticket, whatever the field values. */
  lemma EncodeInjective(a: PeerTicket, b: PeerTicket)
    requires a.Encode() == b.Encode()
    ensures a == b
  {
    EncodeFields(a);
    EncodeFields(b);
    assert TicketFields(a)[0] == TicketFields(b)[0] && TicketFields(a)[1] == TicketFields(b)[1]
        && TicketFields(a)[2] == TicketFields(b)[2] && TicketFields(a)[3] == TicketFields(b)[3];
    ToHexInjective(a.user, b.user);
    ToHexInjective(a.group, b.group);
    ToHexInjective(a.file, b.file);
    DecIntInjective(a.expires, b.expires);
  }

  lemma DecodeEncode(ticket: PeerTicket)
    ensures Decode(ticket.Encode()) == Some(ticket) <==> ticket.Valid()
  {
    EncodeFields(ticket);
    HexRoundTrip(ticket.user);
    HexRoundTrip(ticket.group);
    HexRoundTrip(ticket.file);
    DecIntParses(ticket.expires);
  }

  lemma DecodedText(text: Bytes)
    requires Decode(text).Some?
    ensures Decode(text).value.Valid()
    ensures forall c | c in text :: IsHexDigit(c) || c == '.'
  {
    var fields := Split(text, '.');
    FromHexDigits(fields[0]);
    FromHexDigits(fields[1]);
    FromHexDigits(fields[2]);
    assert forall part | part in fields :: AllHex(part);
    JoinSplit(text, '.');
    forall c | c in text ensures IsHexDigit(c) || c == '.' {
      JoinChars(fields, '.', c);
    }
  }

  // ---------------------------------------------------------------- seeder access

  datatype SeederAccess = SeederAccess(endpoint: Endpoint, ticket: Bytes, key: Bytes) {
    function Encode(): Bytes {
      endpoint.ToString() + Sep('/') + ticket + Sep('/') + ToHex(key)
    }

    function Expires(): int {
      match Decode(ticket)
      case Some(decoded) => decoded.expires
      case None => 0
    }
  }

  function DecodeAccess(text: Bytes): Option<SeederAccess> {
    var fields := Split(text, '/');
    if |fields| != 3 then None
    else
      match (Parse(fields[0]), Decode(fields[1]), FromHex(fields[2]))
      case (Some(endpoint), Some(_), Some(key)) =>
        if |key| != 32 then None else Some(SeederAccess(endpoint, fields[1], key))
      case _ => None
  }

  /** An access record survives the wire exactly when its address text holds no '/'; otherwise it does not decode at
      all. */
  lemma AccessRoundTrip(access: SeederAccess)
    requires access.endpoint.Valid() && Decode(access.ticket).Some? && |access.key| == 32
    ensures DecodeAccess(access.Encode()) == if '/' in access.endpoint.ip then None else Some(access)
  {
    hide Split, ToHex, FromHex, Decode, Parse, DecInt;
    if '/' !in access.endpoint.ip {
      var address, key := access.endpoint.ToString(), ToHex(access.key);
      DecIntParses(access.endpoint.port);
      DecodedText(access.ticket);
      ToHexDigits(access.key);
      assert !IsHexDigit('/') && !IsDigit('/') && '/' !in address;
      SplitThree(address, access.ticket, key, '/');
      ParseToString(access.endpoint);
      HexRoundTrip(access.key);
    } else {
      ExtraSlash(access.endpoint.ToString(), access.ticket + ['/'] + ToHex(access.key));
      assert access.Encode() == access.endpoint.ToString() + ['/'] + (access.ticket + ['/'] + ToHex(access.key));
      DecodedText(access.ticket);
      ToHexDigits(access.key);
      assert !IsHexDigit('/');
      SplitTwo(access.ticket, ToHex(access.key), '/');
    }
  }

  lemma ExtraSlash(address: Bytes, rest: Bytes)
    requires '/' in address
    ensures |Split(address + ['/'] + rest, '/')| >= 2 + |Split(rest, '/')|
  {
    SplitConcat(address, '/', rest);
  }

  lemma DecodedAccess(text: Bytes)
    ensures DecodeAccess(text).Some? ==>
              var access := DecodeAccess(text).value;
              && access.endpoint.Valid() && Decode(access.ticket).Some? && |access.key| == 32
              && '/' !in access.endpoint.ip && access.endpoint.ip <= text
  {
    var fields := Split(text, '/');
    JoinSplit(text, '/');
    assert fields[0] in fields;
    ParseValid(fields[0]);
  }

  /** The expiry of an access record is its ticket's, and 0 without one. */
  lemma ExpiresExact(access: SeederAccess, ticket: PeerTicket)
    ensures access.ticket == ticket.Encode() && ticket.Valid() ==> access.Expires() == ticket.expires
    ensures Decode(access.ticket).None? ==> access.Expires() == 0
  {
    hide PeerTicket.Encode, Decode;
    DecodeEncode(ticket);
  }

  /** A ticket is valid while the clock is below its expiry, and no longer. */
  lemma ExpiredExact(ticket: PeerTicket, now: int)
    ensures ticket.Expired(now) <==> now >= ticket.expires
    ensures ticket.Valid() <==>
            ticket.user != [] && ticket.group != [] && ticket.file != [] && 0 <= ticket.expires <= 4611686018427387904
  {
  }
}
