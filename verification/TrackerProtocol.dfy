/** The client's side of the tracker protocol (client/tracker_client.cpp), the tracker's request
    framing (tracker/tracker_service.cpp), and the round trips between the two programs. */
module TrackerProtocol {
  import opened Text
  import opened Metadata
  import opened Endpoints
  import opened Tickets
  import opened Order
  import opened TrackerModel

  // ---------------------------------------------------------------- one request and its reply

  function Message(session: U64, command: Bytes): Bytes {
    Sep('C') + Sep('\t') + Dec(session) + Sep('\t') + command
  }

  ghost function HandleRequest(p: Primitives, t: Tracker, request: Bytes, context: ApplyContext): (Tracker, Bytes) {
    var fields := Split(request, '\t');
    if |fields| < 3 || fields[0] != Sep('C') || ParseU64(fields[1]).None? then
      (t, B("ERR malformed request\t0"))
    else
      var outcome := Apply(p, t, ParseU64(fields[1]).value, Join(fields[2..], '\t'), context);
      (outcome.tracker, outcome.result.response.Text() + Sep('\t') + Dec(outcome.result.session))
  }

  /** rfind: the position of the last `c`, or -1. */
  function LastIndexOf(text: Bytes, c: Byte): (i: int)
    ensures -1 <= i < |text|
    ensures 0 <= i ==> text[i] == c
  {
    if text == [] then -1
    else if text[|text| - 1] == c then |text| - 1
    else LastIndexOf(text[..|text| - 1], c)
  }

  /** The reply without its trailing "\t<session>", and that session. */
  function StripSession(reply: Bytes): Option<(Bytes, U64)> {
    var tab := LastIndexOf(reply, '\t');
    if tab < 0 then None
    else
      match ParseU64(reply[tab + 1..])
      case None => None
      case Some(session) => Some((reply[..tab], session))
  }

  lemma {:induction false} LastIndexOfAppended(front: Bytes, c: Byte, rest: Bytes)
    requires c !in rest
    ensures LastIndexOf(front + [c] + rest, c) == |front|
  {
    var text := front + [c] + rest;
    if rest != [] {
      var last := |rest| - 1;
      assert text[|text| - 1] == rest[last] && rest[last] in rest;
      assert text[..|text| - 1] == front + [c] + rest[..last];
      LastIndexOfAppended(front, c, rest[..last]);
    }
  }

  lemma StripAppended(text: Bytes, session: U64)
    ensures StripSession(text + Sep('\t') + Dec(session)) == Some((text, session))
  {
    DecDigits(session);
    ParseDec(session);
    assert !IsDigit('\t');
    LastIndexOfAppended(text, '\t', Dec(session));
    var reply := text + ['\t'] + Dec(session);
    assert reply[..|text|] == text && reply[|text| + 1..] == Dec(session);
  }

  /** The tracker applies exactly the command the client sent, under the session it sent, and the
      client reads back exactly the reply and the new session, whatever bytes either contains. */
  lemma RequestReplyRoundTrip(p: Primitives, t: Tracker, session: U64, command: Bytes, context: ApplyContext)
    ensures var outcome := Apply(p, t, session, command, context);
            var (t', reply) := HandleRequest(p, t, Message(session, command), context);
            && t' == outcome.tracker
            && StripSession(reply) == Some((outcome.result.response.Text(), outcome.result.session))
  {
    hide Apply, Split, Join, Dec, ParseU64, Response.Text, StripSession;
    DecDigits(session);
    ParseDec(session);
    assert !IsDigit('\t');
    SplitTwo(Sep('C'), Dec(session), '\t');
    SplitConcat(Sep('C') + ['\t'] + Dec(session), '\t', command);
    var fields := Split(Message(session, command), '\t');
    assert fields[2..] == Split(command, '\t');
    JoinSplit(command, '\t');
    var result := Apply(p, t, session, command, context).result;
    StripAppended(result.response.Text(), result.session);
  }

  /** The client object: it remembers the session the tracker last gave it. */
  class TrackerClient {
    var session: U64

    constructor ()
      ensures session == 0
    {
      session := 0;
    }

    /** `reply` is what the channel delivered, or None when the tracker could not be reached. */
    method Request(reply: Option<Bytes>) returns (ok: bool, response: Bytes)
      modifies this
      ensures ok <==> reply.Some? && StripSession(reply.value).Some?
      ensures ok ==> Some((response, session)) == StripSession(reply.value)
      ensures !ok ==> session == old(session) && "ERR" <= response
    {
      if reply.None? {
        response := B("ERR tracker unavailable");
        assert response[..3] == "ERR";
        return false, response;
      }
      response := reply.value;
      var tab := LastIndexOf(response, '\t');
      if tab < 0 || ParseU64(response[tab + 1..]).None? {
        response := B("ERR invalid tracker reply");
        assert response[..3] == "ERR";
        return false, response;
      }
      session := ParseU64(response[tab + 1..]).value;
      response := response[..tab];
      return true, response;
    }
  }

  // ---------------------------------------------------------------- locate: reading META

  datatype Location = Located(metadata: FileMetadata, seeders: seq<SeederAccess>) | NotLocated(error: Bytes)

  /** The entries that parse, in order. */
  function DecodeAll(texts: seq<Bytes>): seq<SeederAccess> {
    if texts == [] then []
    else
      (match DecodeAccess(texts[0])
       case None => []
       case Some(access) => [access]) + DecodeAll(texts[1..])
  }

  method ReadSeeders(texts: seq<Bytes>) returns (seeders: seq<SeederAccess>)
    ensures seeders == DecodeAll(texts)
  {
    hide DecodeAccess;
    seeders := [];
    for i := 0 to |texts|
      invariant seeders + DecodeAll(texts[i..]) == DecodeAll(texts)
    {
      ghost var rest := texts[i..];
      assert rest[0] == texts[i] && rest[1..] == texts[i + 1..];
      var access := DecodeAccess(texts[i]);
      if access.Some? {
        Regroup(seeders, [access.value], DecodeAll(rest[1..]));
        seeders := seeders + [access.value];
      } else {
        assert [] + DecodeAll(rest[1..]) == DecodeAll(rest[1..]);
      }
    }
  }

  function Locate(response: Bytes): Location {
    if !(B("META ") <= response) then NotLocated(response)
    else
      var fields := Words(response);
      if |fields| != 5 || ParseU64(fields[1]).None? then NotLocated(B("ERR invalid tracker metadata"))
      else
        var metadata := FileMetadata(ParseU64(fields[1]).value, fields[2], ParsePieceHashList(fields[3]));
        if !metadata.Valid() then NotLocated(B("ERR invalid tracker metadata"))
        else
          var seeders := DecodeAll(Split(fields[4], ','));
          if seeders == [] then NotLocated(B("ERR no valid peer endpoints")) else Located(metadata, seeders)
  }

  /** A located file always has a seeder to ask. */
  lemma LocatedHasSeeder(response: Bytes)
    ensures Locate(response).Located? ==> |Locate(response).seeders| >= 1 && Locate(response).metadata.Valid()
  {
  }

  // ---------------------------------------------------------------- META round trip

  /** Access records as the tracker builds them. */
  ghost predicate Issued(access: SeederAccess) {
    && access.endpoint.Valid() && IsWord(access.endpoint.ip)
    && Decode(access.ticket).Some? && |access.key| == 32
  }

  /** The address text holds neither separator of the META line. */
  predicate Plain(access: SeederAccess) {
    '/' !in access.endpoint.ip && ',' !in access.endpoint.ip
  }

  function InsertAccess(access: SeederAccess, sorted: seq<SeederAccess>): seq<SeederAccess> {
    if sorted == [] || LexLe(access.Encode(), sorted[0].Encode()) then [access] + sorted
    else [sorted[0]] + InsertAccess(access, sorted[1..])
  }

  /** The records in the order of their encoded texts. */
  function SortAccesses(accesses: seq<SeederAccess>): seq<SeederAccess> {
    if accesses == [] then [] else InsertAccess(accesses[0], SortAccesses(accesses[1..]))
  }

  lemma {:induction false} InsertAccessEncodes(access: SeederAccess, sorted: seq<SeederAccess>)
    ensures EncodeAll(InsertAccess(access, sorted)) == Insert(access.Encode(), EncodeAll(sorted))
  {
    hide SeederAccess.Encode, LexLe;
    if sorted == [] {
    } else if LexLe(access.Encode(), sorted[0].Encode()) {
      assert EncodeAll([access] + sorted) == [access.Encode()] + EncodeAll(sorted);
    } else {
      InsertAccessEncodes(access, sorted[1..]);
      assert sorted == [sorted[0]] + sorted[1..];
      assert EncodeAll(sorted)[1..] == EncodeAll(sorted[1..]);
      var rest := InsertAccess(access, sorted[1..]);
      assert EncodeAll([sorted[0]] + rest) == [sorted[0].Encode()] + EncodeAll(rest);
    }
  }

  lemma {:induction false} InsertAccessKeeps(access: SeederAccess, sorted: seq<SeederAccess>)
    ensures multiset(InsertAccess(access, sorted)) == multiset(sorted) + multiset{access}
  {
    hide SeederAccess.Encode, LexLe;
    if sorted != [] {
      InsertAccessKeeps(access, sorted[1..]);
      assert sorted == [sorted[0]] + sorted[1..];
    }
  }

  lemma {:induction false} SortAccessesEncodes(accesses: seq<SeederAccess>)
    ensures EncodeAll(SortAccesses(accesses)) == SortTexts(EncodeAll(accesses))
    ensures multiset(SortAccesses(accesses)) == multiset(accesses)
  {
    hide SeederAccess.Encode;
    if accesses != [] {
      SortAccessesEncodes(accesses[1..]);
      InsertAccessEncodes(accesses[0], SortAccesses(accesses[1..]));
      InsertAccessKeeps(accesses[0], SortAccesses(accesses[1..]));
      assert accesses == [accesses[0]] + accesses[1..];
      assert EncodeAll(accesses)[1..] == EncodeAll(accesses[1..]);
    }
  }

  lemma {:induction false} DecodeAllEncodeAll(accesses: seq<SeederAccess>)
    requires forall access | access in accesses :: Issued(access) && Plain(access)
    ensures DecodeAll(EncodeAll(accesses)) == accesses
  {
    hide SeederAccess.Encode, DecodeAccess;
    if accesses != [] {
      assert accesses[0] in accesses;
      AccessRoundTrip(accesses[0]);
      assert EncodeAll(accesses)[1..] == EncodeAll(accesses[1..]);
      DecodeAllEncodeAll(accesses[1..]);
    }
  }

  lemma {:induction false} DecodedArePlain(texts: seq<Bytes>, access: SeederAccess)
    requires Without(texts, ',') && access in DecodeAll(texts)
    ensures Plain(access)
  {
    hide DecodeAccess;
    assert texts[0] in texts;
    DecodedAccess(texts[0]);
    if access in DecodeAll(texts[1..]) {
      assert forall text | text in texts[1..] :: text in texts;
      DecodedArePlain(texts[1..], access);
    }
  }

  lemma AccessText(access: SeederAccess)
    requires Issued(access)
    ensures IsWord(access.Encode())
    ensures ',' !in access.endpoint.ip ==> ',' !in access.Encode()
  {
    hide Decode, ToHex, DecInt, IsDottedQuad;
    DecIntParses(access.endpoint.port);
    DecodedText(access.ticket);
    ToHexDigits(access.key);
    assert !IsHexDigit(',') && !IsDigit(',');
    assert access.Encode()[0] == access.endpoint.ip[0];
  }

  lemma SeederListWord(texts: seq<Bytes>)
    requires texts != [] && forall text | text in texts :: IsWord(text)
    ensures IsWord(Join(texts, ','))
  {
    assert texts[0] in texts && texts[0] != [];
    forall c | c in Join(texts, ',') ensures !IsSpace(c) {
      JoinChars(texts, ',', c);
    }
  }

  /** The five words of a META line. */
  lemma MetaWords(metadata: FileMetadata, accesses: seq<SeederAccess>)
    requires metadata.Valid() && accesses != [] && forall access | access in accesses :: Issued(access)
    ensures B("META ") <= MetaText(metadata, accesses)
    ensures Words(MetaText(metadata, accesses)) ==
            [B("META"), Dec(metadata.size), metadata.fullHash, metadata.PieceHashList(),
             Join(SortTexts(EncodeAll(accesses)), ',')]
  {
    hide Words, SeederAccess.Encode, Issued;
    var texts := SortTexts(EncodeAll(accesses));
    SortAccessesEncodes(accesses);
    assert texts == EncodeAll(SortAccesses(accesses));
    forall text | text in texts ensures IsWord(text) {
      var i :| 0 <= i < |texts| && texts[i] == text;
      var access := SortAccesses(accesses)[i];
      assert access in multiset(accesses);
      AccessText(access);
    }
    assert |SortAccesses(accesses)| == |multiset(accesses)| > 0;
    SeederListWord(texts);
    FiveWords(metadata, Join(texts, ','));
  }

  lemma FiveWords(metadata: FileMetadata, list: Bytes)
    requires metadata.Valid() && IsWord(list)
    ensures var size, hash, pieces := Dec(metadata.size), metadata.fullHash, metadata.PieceHashList();
            Words(B("META ") + size + Sep(' ') + hash + Sep(' ') + pieces + Sep(' ') + list) ==
            [B("META"), size, hash, pieces, list]
  {
    hide Words, Dec, FileMetadata.PieceHashList;
    var size, hash, pieces := Dec(metadata.size), metadata.fullHash, metadata.PieceHashList();
    DecDigits(metadata.size);
    PieceHashListRoundTrip(metadata);
    assert B("META ") == B("META") + [' '];
    assert IsWord(size) && IsWord(hash) && IsWord(B("META"));
    WordsOne(list);
    WordsCons(pieces, list);
    WordsCons(hash, pieces + [' '] + list);
    WordsCons(size, hash + [' '] + (pieces + [' '] + list));
    WordsCons(B("META"), size + [' '] + (hash + [' '] + (pieces + [' '] + list)));
    assert B("META ") + size + Sep(' ') + hash + Sep(' ') + pieces + Sep(' ') + list ==
           B("META") + [' '] + (size + [' '] + (hash + [' '] + (pieces + [' '] + list)));
  }

  /** Reading `response` never yields other metadata; it yields every access record, in the order
      of their texts, if and only if no address text holds a '/' or ','. */
  ghost predicate Recovers(response: Bytes, metadata: FileMetadata, accesses: seq<SeederAccess>) {
    var found := Locate(response);
    && (found.Located? ==> found.metadata == metadata)
    && (found.Located? && multiset(found.seeders) == multiset(accesses) <==>
        forall access | access in accesses :: Plain(access))
    && ((forall access | access in accesses :: Plain(access)) ==> found.seeders == SortAccesses(accesses))
  }

  lemma MetaLocates(metadata: FileMetadata, accesses: seq<SeederAccess>)
    requires metadata.Valid() && accesses != [] && forall access | access in accesses :: Issued(access)
    ensures var seeders := DecodeAll(Split(Join(SortTexts(EncodeAll(accesses)), ','), ','));
            Locate(MetaText(metadata, accesses)) ==
            if seeders == [] then NotLocated(B("ERR no valid peer endpoints")) else Located(metadata, seeders)
  {
    hide Words, Split, Join, SortTexts, EncodeAll, Issued, Dec, ParseU64, MetaText, DecodeAll,
      FileMetadata.PieceHashList, FileMetadata.Valid;
    MetaWords(metadata, accesses);
    ParseDec(metadata.size);
    PieceHashListRoundTrip(metadata);
  }

  /** The client's META parser inverts the tracker's printer, to exactly that extent. */
  lemma MetaRoundTrip(metadata: FileMetadata, accesses: seq<SeederAccess>)
    requires metadata.Valid() && accesses != [] && forall access | access in accesses :: Issued(access)
    ensures Recovers(MetaText(metadata, accesses), metadata, accesses)
  {
    hide Locate, Split, Join, SortTexts, EncodeAll, Issued, MetaText, FileMetadata.Valid, Plain, DecodeAll;
    var texts := SortTexts(EncodeAll(accesses));
    MetaLocates(metadata, accesses);
    SortAccessesEncodes(accesses);
    assert |SortAccesses(accesses)| == |multiset(accesses)| > 0;
    var fields := Split(Join(texts, ','), ',');
    if forall access | access in accesses :: Plain(access) {
      PlainTexts(accesses);
      assert |texts| > 0 by {
        assert |EncodeAll(SortAccesses(accesses))| == |SortAccesses(accesses)|;
      }
      SplitJoin(texts, ',');
      forall access | access in SortAccesses(accesses) ensures Issued(access) && Plain(access) {
        assert access in multiset(accesses);
      }
      DecodeAllEncodeAll(SortAccesses(accesses));
    } else if multiset(DecodeAll(fields)) == multiset(accesses) {
      JoinSplit(Join(texts, ','), ',');
      forall access | access in accesses ensures Plain(access) {
        assert access in multiset(DecodeAll(fields));
        DecodedArePlain(fields, access);
      }
    }
  }

  lemma PlainTexts(accesses: seq<SeederAccess>)
    requires forall access | access in accesses :: Issued(access) && Plain(access)
    ensures Without(SortTexts(EncodeAll(accesses)), ',')
  {
    hide SeederAccess.Encode, Issued;
    SortTextsSorts(EncodeAll(accesses));
    forall text | text in SortTexts(EncodeAll(accesses)) ensures ',' !in text {
      assert text in multiset(EncodeAll(accesses));
      var i :| 0 <= i < |accesses| && EncodeAll(accesses)[i] == text;
      assert accesses[i] in accesses;
      AccessText(accesses[i]);
    }
  }

  /** The condition of the round trip does fail: a META line whose one record has the address text "1.1.1.1", NUL, '/'
      is read as having no seeders. */
  lemma AddressWithNulIsLost(metadata: FileMetadata, ticket: Bytes, key: Bytes)
    requires metadata.Valid() && Decode(ticket).Some? && |key| == 32
    ensures var access := SeederAccess(Endpoint(B("1.1.1.1") + ['\0'] + ['/'], 1), ticket, key);
            Issued(access) && Locate(MetaText(metadata, [access])) == NotLocated(B("ERR no valid peer endpoints"))
  {
    hide Locate, MetaText, Decode, FileMetadata.Valid, SeederAccess.Encode, DecodeAccess, Split, Join, LexLe;
    var ip := B("1.1.1.1") + ['\0'] + ['/'];
    var access := SeederAccess(Endpoint(ip, 1), ticket, key);
    NulAddressIsTaken();
    AccessRoundTrip(access);
    AccessText(access);
    MetaLocates(metadata, [access]);
    OneText(access);
  }

  lemma NulAddressIsTaken()
    ensures var ip := B("1.1.1.1") + ['\0'] + ['/'];
            Endpoint(ip, 1).Valid() && IsWord(ip) && '/' in ip && ',' !in ip
  {
    hide IsDottedQuad, CString;
    var ip := B("1.1.1.1") + ['\0'] + ['/'];
    AddressBehindNul(['/'], 1);
    assert ip[0] == '1' && ip[8] == '/';
  }

  lemma OneText(access: SeederAccess)
    requires ',' !in access.Encode() && DecodeAccess(access.Encode()).None?
    ensures DecodeAll(Split(Join(SortTexts(EncodeAll([access])), ','), ',')) == []
  {
    hide SeederAccess.Encode, DecodeAccess, LexLe;
    var text := access.Encode();
    var texts: seq<Bytes> := [text];
    assert EncodeAll([access]) == texts && texts[1..] == [];
    assert SortTexts(texts) == texts && Join(texts, ',') == text;
    SplitOne(text, ',');
  }

  // ---------------------------------------------------------------- exactly what is read

  function Requested(digits: Bytes, command: Bytes): Bytes {
    Sep('C') + Sep('\t') + digits + Sep('\t') + command
  }

  /** A request in the protocol's form is applied under the session its digits say; the rest of it, tabs included, is
      the command. */
  lemma RequestExact(p: Primitives, t: Tracker, digits: Bytes, session: U64, command: Bytes, context: ApplyContext)
    requires ParseU64(digits) == Some(session)
    ensures var outcome := Apply(p, t, session, command, context);
            HandleRequest(p, t, Requested(digits, command), context) ==
            (outcome.tracker, outcome.result.response.Text() + Sep('\t') + Dec(outcome.result.session))
  {
    hide Apply, Split, Join, Dec, ParseU64, Response.Text;
    ParsedHasNoTab(digits);
    SplitTwo(Sep('C'), digits, '\t');
    SplitConcat(Sep('C') + ['\t'] + digits, '\t', command);
    var fields := Split(Requested(digits, command), '\t');
    assert fields[2..] == Split(command, '\t');
    JoinSplit(command, '\t');
  }

  lemma ParsedHasNoTab(text: Bytes)
    requires ParseU64(text).Some?
    ensures '\t' !in text
  {
    assert !IsDigit('\t');
  }

  /** Anything else is malformed: no command is applied, and the reply takes the caller's session away. */
  lemma MalformedExact(p: Primitives, t: Tracker, request: Bytes, context: ApplyContext)
    requires forall digits, command | ParseU64(digits).Some? :: request != Requested(digits, command)
    ensures HandleRequest(p, t, request, context) == (t, B("ERR malformed request\t0"))
  {
    hide Apply, Split, Join, Dec, ParseU64, Response.Text;
    var fields := Split(request, '\t');
    if |fields| >= 3 && fields[0] == Sep('C') && ParseU64(fields[1]).Some? {
      JoinSplit(request, '\t');
      JoinThree(fields, '\t');
      assert request == Requested(fields[1], Join(fields[2..], '\t'));
      assert false;
    }
  }

  lemma JoinThree(parts: seq<Bytes>, c: Byte)
    requires |parts| >= 3
    ensures Join(parts, c) == parts[0] + [c] + parts[1] + [c] + Join(parts[2..], c)
  {
    assert parts[1..][1..] == parts[2..];
    assert Join(parts[1..], c) == parts[1] + [c] + Join(parts[2..], c);
    assert Join(parts, c) == parts[0] + [c] + (parts[1] + [c] + Join(parts[2..], c));
  }

  /** A reply is read exactly when it ends in a tab and a session number: the text is all before the last tab. */
  lemma StripExact(reply: Bytes, text: Bytes, session: U64)
    ensures StripSession(reply) == Some((text, session)) <==>
            exists digits :: reply == text + ['\t'] + digits && ParseU64(digits) == Some(session)
  {
    hide ParseU64;
    if StripSession(reply) == Some((text, session)) {
      assert reply == text + ['\t'] + reply[|text| + 1..];
    }
    if digits :| reply == text + ['\t'] + digits && ParseU64(digits) == Some(session) {
      ParsedHasNoTab(digits);
      LastIndexOfAppended(text, '\t', digits);
      assert reply[..|text|] == text && reply[|text| + 1..] == digits;
    }
  }

  /** locate succeeds exactly on a META line of five words with valid metadata and some readable record. */
  lemma LocateExact(response: Bytes, metadata: FileMetadata, seeders: seq<SeederAccess>)
    ensures Locate(response) == Located(metadata, seeders) <==>
              && B("META ") <= response && |Words(response)| == 5
              && ParseU64(Words(response)[1]) == Some(metadata.size) && Words(response)[2] == metadata.fullHash
              && ParsePieceHashList(Words(response)[3]) == metadata.pieceHashes && metadata.Valid()
              && seeders == DecodeAll(Split(Words(response)[4], ',')) && seeders != []
    ensures !(B("META ") <= response) ==> Locate(response) == NotLocated(response)
  {
    hide Words, ParseU64, ParsePieceHashList, FileMetadata.Valid, DecodeAll, Split;
  }

  /** Reading a list of records reads each on its own: one that does not decode is skipped and spoils no other. */
  lemma {:induction false} DecodeAllConcat(a: seq<Bytes>, b: seq<Bytes>)
    ensures DecodeAll(a + b) == DecodeAll(a) + DecodeAll(b)
  {
    hide DecodeAccess;
    if a == [] {
      assert a + b == b;
    } else {
      assert (a + b)[1..] == a[1..] + b;
      DecodeAllConcat(a[1..], b);
    }
  }

  lemma DecodeAllOne(text: Bytes)
    ensures DecodeAll([text]) == if DecodeAccess(text).Some? then [DecodeAccess(text).value] else []
  {
    hide DecodeAccess;
    var texts: seq<Bytes> := [text];
    assert texts[1..] == [];
  }
}
