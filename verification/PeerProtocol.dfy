/** Peer requests and replies (client/peer/peer_protocol.cpp) and the seeder's decision
    (client/peer/peer_server.cpp). */
module PeerProtocol {
  import opened Text
  import opened Metadata
  import opened Tickets
  import opened Aead
  import opened SharedFilesClass

  const FRESH_WINDOW: int := 300

  /** isFreshTimestamp at clock value `now`, with the casts between signed and unsigned 64 bits. */
  predicate IsFresh(text: Bytes, now: int) {
    match ParseU64(text)
    case None => false
    case Some(value) =>
      && value <= (now + FRESH_WINDOW) % U64_LIMIT
      && now - (if value < U64_LIMIT / 2 then value else value - U64_LIMIT) <= FRESH_WINDOW
  }

  /** On any clock between 1970 and the far future this is a symmetric window. */
  lemma FreshWindow(text: Bytes, now: int)
    requires 0 <= now < MAX_EXPIRES
    ensures IsFresh(text, now) <==>
            ParseU64(text).Some? && now - 300 <= ParseU64(text).value <= now + 300
  {
    hide ParseU64;
  }

  function EncodeMessage(prefix: Bytes, message: GcmMessage): Bytes {
    prefix + Sep('|') + ToHex(message.nonce) + Sep('|') + ToHex(message.ciphertext) + Sep('|') + ToHex(message.tag)
  }

  function DecodeMessage(fields: seq<Bytes>, first: nat): Option<GcmMessage> {
    if |fields| < first + 3 then None
    else
      match (FromHex(fields[first]), FromHex(fields[first + 1]), FromHex(fields[first + 2]))
      case (Some(nonce), Some(ciphertext), Some(tag)) => Some(GcmMessage(nonce, ciphertext, tag))
      case _ => None
  }

  function RequestAad(ticket: Bytes): Bytes {
    B("21") + Sep('|') + ticket
  }

  function ReplyAad(requestAad: Bytes, hexNonce: Bytes): Bytes {
    B("30") + Sep('|') + requestAad + Sep('|') + hexNonce
  }

  function RequestPlain(operation: Bytes, piece: nat, now: int): Bytes {
    operation + Sep('\n') + Dec(piece) + Sep('\n') + DecInt(now)
  }

  /** A request that passes every check made before the shared files are looked at. */
  datatype Genuine = Genuine(ticket: PeerTicket, key: Bytes, aad: Bytes, hexNonce: Bytes, operation: Bytes, piece: U64)

  function CheckRequest(hmac: Hmac, peerKey: Bytes, log: SealLog, request: Bytes, now: int): Option<Genuine> {
    var fields := Split(request, '|');
    if |fields| != 5 || fields[0] != B("21") then None
    else
      match (Decode(fields[1]), DecodeMessage(fields, 2))
      case (Some(ticket), Some(received)) =>
        var key, aad := ticket.Key(hmac, peerKey), RequestAad(fields[1]);
        if ticket.Expired(now) then None
        else
          (match Open(log, key, aad, received)
           case None => None
           case Some(plain) =>
             var parts := Split(plain, '\n');
             if |parts| != 3 || !IsFresh(parts[2], now) || ParseU64(parts[1]).None? then None
             else Some(Genuine(ticket, key, aad, fields[2], parts[0], ParseU64(parts[1]).value)))
      case _ => None
  }

  datatype Answer = Denied | Unavailable | Reply(key: Bytes, aad: Bytes, plain: Bytes)

  /** One byte per piece. */
  function Bitmap(available: seq<bool>): Bytes {
    if available == [] then [] else [if available[0] then 1 as char else '\0'] + Bitmap(available[1..])
  }

  /** A successful read of `length` bytes at a piece's offset. */
  function ReadPiece(content: Bytes, index: nat, length: nat): Option<Bytes> {
    if length == 0 then Some([])
    else if PieceOffset(index) + length > |content| then None
    else Some(content[PieceOffset(index)..PieceOffset(index) + length])
  }

  /** The stored bytes of a piece the entry offers, if they can be read. `disk` maps paths to contents. */
  function Stored(file: LocalFile, disk: map<Bytes, Bytes>, piece: nat): Option<Bytes> {
    if piece >= |file.available| || !file.available[piece] || file.path !in disk then None
    else ReadPiece(disk[file.path], piece, file.metadata.PieceLength(piece))
  }

  function Decide(hmac: Hmac, peerKey: Bytes, files: map<Key, LocalFile>, disk: map<Bytes, Bytes>,
                  log: SealLog, request: Bytes, now: int): Answer {
    match CheckRequest(hmac, peerKey, log, request, now)
    case None => Denied
    case Some(g) =>
      if (g.ticket.group, g.ticket.file) !in files then Denied
      else
        var file, aad := files[(g.ticket.group, g.ticket.file)], ReplyAad(g.aad, g.hexNonce);
        if g.operation == B("BITMAP") then Reply(g.key, aad, Bitmap(file.available))
        else if g.operation == B("GET") && Stored(file, disk, g.piece).Some? then
          Reply(g.key, aad, Stored(file, disk, g.piece).value)
        else Unavailable
  }

  /** The frame sent back; `sent` is the outcome of encrypting a reply. */
  function ResponseFrame(answer: Answer, sent: Option<GcmMessage>): Bytes {
    match answer
    case Denied => B("60|denied")
    case Unavailable => B("60|unavailable")
    case Reply(_, _, _) => if sent.None? then B("60|unavailable") else EncodeMessage(B("30"), sent.value)
  }

  method BuildBitmap(available: seq<bool>) returns (reply: Bytes)
    ensures reply == Bitmap(available)
  {
    reply := [];
    for i := 0 to |available|
      invariant reply + Bitmap(available[i..]) == Bitmap(available)
    {
      ghost var rest := available[i..];
      var flag: Byte := if available[i] then 1 as char else '\0';
      assert rest[0] == available[i] && rest[1..] == available[i + 1..];
      assert reply + ([flag] + Bitmap(rest[1..])) == reply + [flag] + Bitmap(rest[1..]);
      reply := reply + [flag];
    }
  }

  /** PeerServer::respond as written: one early return per failed check. */
  method Respond(hmac: Hmac, peerKey: Bytes, shared: SharedFiles, disk: map<Bytes, Bytes>, log: SealLog,
                 request: Bytes, now: int, sent: Option<GcmMessage>) returns (frame: Bytes)
    ensures frame == ResponseFrame(Decide(hmac, peerKey, shared.files, disk, log, request, now), sent)
  {
    hide Split, Decode, DecodeMessage, Open, IsFresh, ParseU64, ReadPiece, Bitmap, EncodeMessage, ReplyAad, RequestAad,
      PeerTicket.Key;
    var fields := SplitText(request, '|');
    if |fields| != 5 || fields[0] != B("21") {
      return B("60|denied");
    }
    var ticket := Decode(fields[1]);
    if ticket.None? || ticket.value.Expired(now) {
      return B("60|denied");
    }
    var key, aad := ticket.value.Key(hmac, peerKey), RequestAad(fields[1]);
    var received := DecodeMessage(fields, 2);
    if received.None? {
      return B("60|denied");
    }
    var plain := Open(log, key, aad, received.value);
    if plain.None? {
      return B("60|denied");
    }
    var parts := SplitText(plain.value, '\n');
    if |parts| != 3 || !IsFresh(parts[2], now) || ParseU64(parts[1]).None? {
      return B("60|denied");
    }
    var piece := ParseU64(parts[1]).value;
    var found := shared.Find(ticket.value.group, ticket.value.file);
    if found.None? {
      return B("60|denied");
    }
    var file := found.value;
    var reply: Bytes := [];
    if parts[0] == B("BITMAP") {
      reply := BuildBitmap(file.available);
    } else if parts[0] == B("GET") && piece < |file.available| && file.available[piece] {
      if file.path !in disk {
        return B("60|unavailable");
      }
      var read := ReadPiece(disk[file.path], piece, file.metadata.PieceLength(piece));
      if read.None? {
        return B("60|unavailable");
      }
      reply := read.value;
    } else {
      return B("60|unavailable");
    }
    if sent.None? {
      return B("60|unavailable");
    }
    return EncodeMessage(B("30"), sent.value);
  }

  function OpenReply(log: SealLog, ticket: Bytes, key: Bytes, nonce: Bytes, frame: Bytes): Option<Bytes> {
    var fields := Split(frame, '|');
    if |fields| != 4 || fields[0] != B("30") then None
    else
      match DecodeMessage(fields, 1)
      case None => None
      case Some(message) => Open(log, key, ReplyAad(RequestAad(ticket), ToHex(nonce)), message)
  }

  // ---------------------------------------------------------------- the exchange

  lemma DecodeMessageRoundTrip(front: seq<Bytes>, message: GcmMessage)
    ensures DecodeMessage(front + [ToHex(message.nonce), ToHex(message.ciphertext), ToHex(message.tag)], |front|) ==
            Some(message)
  {
    hide ToHex, FromHex;
    HexRoundTrip(message.nonce);
    HexRoundTrip(message.ciphertext);
    HexRoundTrip(message.tag);
  }

  lemma EncodedFields(prefix: Bytes, message: GcmMessage)
    ensures Split(EncodeMessage(prefix, message), '|') ==
            Split(prefix, '|') + [ToHex(message.nonce), ToHex(message.ciphertext), ToHex(message.tag)]
  {
    hide Split, ToHex;
    var n, c, t := ToHex(message.nonce), ToHex(message.ciphertext), ToHex(message.tag);
    ToHexDigits(message.nonce);
    ToHexDigits(message.ciphertext);
    ToHexDigits(message.tag);
    assert !IsHexDigit('|');
    SplitThree(n, c, t, '|');
    SplitConcat(prefix, '|', n + ['|'] + c + ['|'] + t);
    assert EncodeMessage(prefix, message) == prefix + ['|'] + (n + ['|'] + c + ['|'] + t);
  }

  lemma RequestFields(ticket: PeerTicket, message: GcmMessage)
    ensures Split(EncodeMessage(RequestAad(ticket.Encode()), message), '|') ==
            [B("21"), ticket.Encode(), ToHex(message.nonce), ToHex(message.ciphertext), ToHex(message.tag)]
  {
    hide Split, ToHex, PeerTicket.Encode;
    EncodedFields(RequestAad(ticket.Encode()), message);
    TicketChars(ticket);
    SplitTwo(B("21"), ticket.Encode(), '|');
  }

  lemma TicketChars(ticket: PeerTicket)
    ensures '|' !in ticket.Encode()
  {
    hide ToHex, DecInt;
    ToHexDigits(ticket.user);
    ToHexDigits(ticket.group);
    ToHexDigits(ticket.file);
    DecIntParses(ticket.expires);
    assert !IsHexDigit('|') && !IsDigit('|');
  }

  lemma PlainFields(operation: Bytes, piece: nat, now: int)
    requires '\n' !in operation
    ensures Split(RequestPlain(operation, piece, now), '\n') == [operation, Dec(piece), DecInt(now)]
  {
    hide Split, Dec, DecInt;
    DecDigits(piece);
    DecIntParses(now);
    assert !IsDigit('\n');
    SplitThree(operation, Dec(piece), DecInt(now), '\n');
  }

  /** Every request made with a live ticket and that ticket's key at this seeder passes the checks. */
  lemma RequestIsGenuine(hmac: Hmac, peerKey: Bytes, log: SealLog, ticket: PeerTicket, operation: Bytes, piece: U64,
                         sentAt: nat, now: int, message: GcmMessage)
    requires ticket.Valid() && 0 <= now < ticket.expires && '\n' !in operation
    requires now - 300 <= sentAt <= now + 300
    requires MaySeal(log, ticket.Key(hmac, peerKey), RequestAad(ticket.Encode()),
             RequestPlain(operation, piece, sentAt), message)
    ensures var key, aad, plain := ticket.Key(hmac, peerKey), RequestAad(ticket.Encode()),
            RequestPlain(operation, piece, sentAt);
            CheckRequest(hmac, peerKey, Seal(log, key, aad, plain, message), EncodeMessage(aad, message), now) ==
            Some(Genuine(ticket, key, aad, ToHex(message.nonce), operation, piece))
  {
    hide Split, ToHex, FromHex, Dec, DecInt, ParseU64, Decode, PeerTicket.Encode, PeerTicket.Key, DecodeMessage,
      EncodeMessage, RequestAad, RequestPlain, IsFresh;
    RequestFields(ticket, message);
    DecodeEncode(ticket);
    DecodeMessageRoundTrip([B("21"), ticket.Encode()], message);
    assert [B("21"), ticket.Encode()] + [ToHex(message.nonce), ToHex(message.ciphertext), ToHex(message.tag)] ==
           Split(EncodeMessage(RequestAad(ticket.Encode()), message), '|');
    PlainFields(operation, piece, sentAt);
    DecIntParses(sentAt);
    ParseDec(piece);
    FreshWindow(DecInt(sentAt), now);
  }

  /** The downloader opens exactly what the seeder sealed for this request. */
  lemma ReplyOpens(log: SealLog, ticket: Bytes, key: Bytes, nonce: Bytes, plain: Bytes, sent: GcmMessage)
    requires MaySeal(log, key, ReplyAad(RequestAad(ticket), ToHex(nonce)), plain, sent)
    ensures OpenReply(Seal(log, key, ReplyAad(RequestAad(ticket), ToHex(nonce)), plain, sent),
                      ticket, key, nonce, EncodeMessage(B("30"), sent)) == Some(plain)
  {
    hide Split, ToHex, FromHex, DecodeMessage, EncodeMessage, RequestAad, ReplyAad;
    EncodedFields(B("30"), sent);
    SplitOne(B("30"), '|');
    DecodeMessageRoundTrip([B("30")], sent);
    assert [B("30")] + [ToHex(sent.nonce), ToHex(sent.ciphertext), ToHex(sent.tag)] ==
      Split(EncodeMessage(B("30"), sent), '|');
  }

  lemma RefusalsDoNotOpen(log: SealLog, ticket: Bytes, key: Bytes, nonce: Bytes)
    ensures OpenReply(log, ticket, key, nonce, B("60|denied")).None?
    ensures OpenReply(log, ticket, key, nonce, B("60|unavailable")).None?
  {
    hide Split;
    SplitTwo(B("60"), B("denied"), '|');
    SplitTwo(B("60"), B("unavailable"), '|');
    assert B("60|denied") == B("60") + ['|'] + B("denied");
    assert B("60|unavailable") == B("60") + ['|'] + B("unavailable");
  }

  /** The seeder has the piece and can read all of it: its flag is up and the file on disk reaches to its end. */
  predicate Readable(file: LocalFile, disk: map<Bytes, Bytes>, piece: nat) {
    var length := file.metadata.PieceLength(piece);
    && piece < |file.available| && file.available[piece] && file.path in disk
    && (length > 0 ==> piece * PIECE_SIZE + length <= |disk[file.path]|)
  }

  /** What the seeder should give a holder of a live ticket: nothing for a file it does not share,
      the availability flags for BITMAP, and for GET the bytes of a piece it has. */
  ghost function Entitlement(files: map<Key, LocalFile>, disk: map<Bytes, Bytes>, ticket: PeerTicket,
                             operation: Bytes, piece: nat): Option<Bytes> {
    if (ticket.group, ticket.file) !in files then None
    else
      var file := files[(ticket.group, ticket.file)];
      var length := file.metadata.PieceLength(piece);
      if operation == B("BITMAP") then Some(Bitmap(file.available))
      else if operation != B("GET") || !Readable(file, disk, piece) then None
      else if length == 0 then Some([])
      else Some(disk[file.path][piece * PIECE_SIZE..piece * PIECE_SIZE + length])
  }

  /** A stored piece is the right slice of the file, and is there exactly when it is readable. */
  lemma StoredExact(file: LocalFile, disk: map<Bytes, Bytes>, piece: nat)
    ensures Stored(file, disk, piece).Some? <==> Readable(file, disk, piece)
    ensures Readable(file, disk, piece) ==>
              var length := file.metadata.PieceLength(piece);
              Stored(file, disk, piece).value ==
              if length == 0 then [] else disk[file.path][piece * PIECE_SIZE..piece * PIECE_SIZE + length]
  {
  }

  /** A whole exchange with a live ticket: the downloader's openReply on the seeder's frame yields
      exactly what the ticket entitles it to, and fails exactly when that is nothing. */
  lemma PeerExchange(hmac: Hmac, peerKey: Bytes, files: map<Key, LocalFile>, disk: map<Bytes, Bytes>, log: SealLog,
                     ticket: PeerTicket, operation: Bytes, piece: U64, sentAt: nat, now: int, message: GcmMessage,
                     sent: GcmMessage)
    requires ticket.Valid() && 0 <= now < ticket.expires && '\n' !in operation
    requires now - 300 <= sentAt <= now + 300
    requires MaySeal(log, ticket.Key(hmac, peerKey), RequestAad(ticket.Encode()),
             RequestPlain(operation, piece, sentAt), message)
    requires var key, aad := ticket.Key(hmac, peerKey), RequestAad(ticket.Encode());
             var log1 := Seal(log, key, aad, RequestPlain(operation, piece, sentAt), message);
             match Entitlement(files, disk, ticket, operation, piece)
             case None => true
             case Some(plain) => MaySeal(log1, key, ReplyAad(aad, ToHex(message.nonce)), plain, sent)
    ensures var key, aad := ticket.Key(hmac, peerKey), RequestAad(ticket.Encode());
            var log1 := Seal(log, key, aad, RequestPlain(operation, piece, sentAt), message);
            var answer := Decide(hmac, peerKey, files, disk, log1, EncodeMessage(aad, message), now);
            var log2 := if answer.Reply? then Seal(log1, answer.key, answer.aad, answer.plain, sent) else log1;
            && OpenReply(log2, ticket.Encode(), key, message.nonce, ResponseFrame(answer, Some(sent))) ==
               Entitlement(files, disk, ticket, operation, piece)
            && (answer == Denied <==> (ticket.group, ticket.file) !in files)
            && (answer.Reply? <==> Entitlement(files, disk, ticket, operation, piece).Some?)
  {
    hide CheckRequest, OpenReply, EncodeMessage, RequestPlain, RequestAad, ReplyAad, ToHex, Bitmap, Stored,
      PeerTicket.Encode, PeerTicket.Key, MaySeal, Seal;
    var key, aad := ticket.Key(hmac, peerKey), RequestAad(ticket.Encode());
    var log1 := Seal(log, key, aad, RequestPlain(operation, piece, sentAt), message);
    RequestIsGenuine(hmac, peerKey, log, ticket, operation, piece, sentAt, now, message);
    RefusalsDoNotOpen(log1, ticket.Encode(), key, message.nonce);
    var entitled := Entitlement(files, disk, ticket, operation, piece);
    if (ticket.group, ticket.file) in files {
      StoredExact(files[(ticket.group, ticket.file)], disk, piece);
    }
    if entitled.Some? {
      ReplyOpens(log1, ticket.Encode(), key, message.nonce, entitled.value, sent);
    }
  }

  /** A genuine GET of a shared file is answered with a piece if and only if the seeder has that piece and can read
      all of it, and then with exactly its bytes; otherwise it is unavailable. */
  lemma GetExact(hmac: Hmac, peerKey: Bytes, files: map<Key, LocalFile>, disk: map<Bytes, Bytes>, log: SealLog,
                 request: Bytes, now: int)
    requires CheckRequest(hmac, peerKey, log, request, now).Some?
    requires var g := CheckRequest(hmac, peerKey, log, request, now).value;
             g.operation == B("GET") && (g.ticket.group, g.ticket.file) in files
    ensures var g := CheckRequest(hmac, peerKey, log, request, now).value;
            var file := files[(g.ticket.group, g.ticket.file)];
            var answer := Decide(hmac, peerKey, files, disk, log, request, now);
            var length := file.metadata.PieceLength(g.piece);
            && (length > 0 ==> (answer.Reply? <==>
                  && g.piece < |file.available| && file.available[g.piece] && file.path in disk
                  && g.piece * PIECE_SIZE + length <= |disk[file.path]|))
            && (length > 0 && answer.Reply? ==>
                  answer.plain == disk[file.path][g.piece * PIECE_SIZE..g.piece * PIECE_SIZE + length])
            && (!answer.Reply? ==> answer == Unavailable)
  {
    hide CheckRequest, Stored;
    var g := CheckRequest(hmac, peerKey, log, request, now).value;
    StoredExact(files[(g.ticket.group, g.ticket.file)], disk, g.piece);
    assert B("GET") != B("BITMAP") by {
      assert |B("GET")| != |B("BITMAP")|;
    }
  }

  /** Where the encryption of a reply fails, and for a request that is neither GET nor BITMAP, the frame says
      unavailable. */
  lemma OtherAnswers(hmac: Hmac, peerKey: Bytes, files: map<Key, LocalFile>, disk: map<Bytes, Bytes>, log: SealLog,
                     request: Bytes, now: int)
    ensures var answer := Decide(hmac, peerKey, files, disk, log, request, now);
            answer != Denied ==> ResponseFrame(answer, None) == B("60|unavailable")
    ensures forall sent :: ResponseFrame(Denied, sent) == B("60|denied")
    ensures var checked := CheckRequest(hmac, peerKey, log, request, now);
            checked.Some? && checked.value.operation != B("GET") && checked.value.operation != B("BITMAP")
            && (checked.value.ticket.group, checked.value.ticket.file) in files ==>
              Decide(hmac, peerKey, files, disk, log, request, now) == Unavailable
  {
    hide CheckRequest, Stored;
  }

  /** The ticket a request shows, if it shows one. */
  function ShownTicket(request: Bytes): Option<PeerTicket> {
    var fields := Split(request, '|');
    if |fields| != 5 then None else Decode(fields[1])
  }

  /** The sealed message that a request stands on: its own message, under the key its own ticket has at this seeder,
      bound to that ticket's text. */
  function OwnSeal(hmac: Hmac, peerKey: Bytes, request: Bytes): Option<Sealed> {
    var fields := Split(request, '|');
    if |fields| != 5 || fields[0] != B("21") then None
    else
      match (Decode(fields[1]), DecodeMessage(fields, 2))
      case (Some(ticket), Some(message)) => Some(Sealed(ticket.Key(hmac, peerKey), RequestAad(fields[1]), message))
      case _ => None
  }

  /** A sealed request text: operation, piece number and a time within the window. */
  predicate Timely(plain: Bytes, now: int) {
    var parts := Split(plain, '\n');
    |parts| == 3 && IsFresh(parts[2], now) && ParseU64(parts[1]).Some?
  }

  /** Every answer but DENIED was asked for in this very request: its message was sealed, under the key that the shown
      ticket has at this very seeder and for that ticket's text, while the ticket was live, no more than the window
      ago. */
  lemma AnsweredWasSealed(hmac: Hmac, peerKey: Bytes, files: map<Key, LocalFile>, disk: map<Bytes, Bytes>,
                          log: SealLog, request: Bytes, now: int) returns (id: Sealed)
    requires Decide(hmac, peerKey, files, disk, log, request, now) != Denied
    ensures OwnSeal(hmac, peerKey, request) == Some(id) && id in log && Timely(log[id], now)
    ensures ShownTicket(request).Some? && ShownTicket(request).value.Valid() && now < ShownTicket(request).value.expires
    ensures id.key == ShownTicket(request).value.Key(hmac, peerKey)
    ensures |Split(request, '|')| == 5 && id.aad == RequestAad(Split(request, '|')[1])
    ensures B("21") + Sep('|') <= id.aad
  {
    hide Split, Decode, DecodeMessage, IsFresh, ParseU64, PeerTicket.Key, Bitmap, Stored;
    var fields := Split(request, '|');
    DecodedText(fields[1]);
    id := OwnSeal(hmac, peerKey, request).value;
  }

  /** So a request whose own message was not sealed under its ticket's key for that ticket gets the same answer whatever
      the seeder shares and stores, however many other requests were sealed under that key. */
  lemma UnsealedRevealsNothing(hmac: Hmac, peerKey: Bytes, log: SealLog, request: Bytes, now: int)
    requires OwnSeal(hmac, peerKey, request).Some? ==> OwnSeal(hmac, peerKey, request).value !in log
    ensures forall files, disk :: Decide(hmac, peerKey, files, disk, log, request, now) == Denied
  {
    hide Decide, ShownTicket, OwnSeal;
    forall files, disk ensures Decide(hmac, peerKey, files, disk, log, request, now) == Denied {
      if Decide(hmac, peerKey, files, disk, log, request, now) != Denied {
        var id := AnsweredWasSealed(hmac, peerKey, files, disk, log, request, now);
        assert false;
      }
    }
  }

  /** The request's own message is a sealed, timely request on a live ticket. */
  predicate Stands(hmac: Hmac, peerKey: Bytes, log: SealLog, request: Bytes, now: int) {
    var own := OwnSeal(hmac, peerKey, request);
    && own.Some? && SizesOk(own.value.key, own.value.message) && own.value in log && Timely(log[own.value], now)
    && ShownTicket(request).Some? && now < ShownTicket(request).value.expires
  }

  /** Exactly: the answer is the same for all contents of the shared files and the disk if and only if the request does
      not stand on a sealed message of its own. */
  lemma RevealsExactly(hmac: Hmac, peerKey: Bytes, log: SealLog, request: Bytes, now: int)
    ensures (forall files, disk, files', disk' ::
               Decide(hmac, peerKey, files, disk, log, request, now) ==
                 Decide(hmac, peerKey, files', disk', log, request, now))
            <==> !Stands(hmac, peerKey, log, request, now)
  {
    hide Split, Decode, DecodeMessage, IsFresh, ParseU64, PeerTicket.Key, Bitmap, Stored, CheckRequest;
    StandsIsChecked(hmac, peerKey, log, request, now);
    if Stands(hmac, peerKey, log, request, now) {
      var g := CheckRequest(hmac, peerKey, log, request, now).value;
      var key, file := (g.ticket.group, g.ticket.file), LocalFile([], FileMetadata(0, [], []), []);
      assert Decide(hmac, peerKey, map[], map[], log, request, now) == Denied;
      assert Decide(hmac, peerKey, map[key := file], map[], log, request, now) != Denied;
    }
  }

  lemma StandsIsChecked(hmac: Hmac, peerKey: Bytes, log: SealLog, request: Bytes, now: int)
    ensures Stands(hmac, peerKey, log, request, now) <==> CheckRequest(hmac, peerKey, log, request, now).Some?
  {
    hide Split, Decode, DecodeMessage, IsFresh, ParseU64, PeerTicket.Key;
  }

  // ---------------------------------------------------------------- replies

  lemma ReplyAadFields(ticket: Bytes, nonce: Bytes)
    requires '|' !in ticket
    ensures Split(ReplyAad(RequestAad(ticket), ToHex(nonce)), '|') == [B("30"), B("21"), ticket, ToHex(nonce)]
  {
    hide Split, ToHex;
    ToHexDigits(nonce);
    assert !IsHexDigit('|');
    SplitFour(B("30"), B("21"), ticket, ToHex(nonce), '|');
    Regroup(B("30") + Sep('|'), B("21") + Sep('|'), ticket);
    Regroup(B("30") + Sep('|'), B("21"), Sep('|'));
  }

  /** The additional data of a reply determines the ticket and the nonce of the request it answers. */
  lemma ReplyAadInjective(ticket: Bytes, nonce: Bytes, ticket': Bytes, nonce': Bytes)
    requires '|' !in ticket && '|' !in ticket'
    requires ReplyAad(RequestAad(ticket), ToHex(nonce)) == ReplyAad(RequestAad(ticket'), ToHex(nonce'))
    ensures ticket == ticket' && nonce == nonce'
  {
    hide Split, ToHex, ReplyAad;
    ReplyAadFields(ticket, nonce);
    ReplyAadFields(ticket', nonce');
    var fields := [B("30"), B("21"), ticket, ToHex(nonce)];
    assert fields == [B("30"), B("21"), ticket', ToHex(nonce')];
    assert fields[2] == ticket' && fields[3] == ToHex(nonce');
    ToHexInjective(nonce, nonce');
  }

  /** Whatever opens is a reply that was sealed under this key for this ticket and this nonce. */
  lemma OpenedWasSealed(log: SealLog, ticket: Bytes, key: Bytes, nonce: Bytes, frame: Bytes)
    returns (message: GcmMessage)
    requires OpenReply(log, ticket, key, nonce, frame).Some?
    ensures DecodeMessage(Split(frame, '|'), 1) == Some(message)
    ensures var id := Sealed(key, ReplyAad(RequestAad(ticket), ToHex(nonce)), message);
            id in log && OpenReply(log, ticket, key, nonce, frame) == Some(log[id])
  {
    hide Split, ToHex, DecodeMessage, ReplyAad;
    message := DecodeMessage(Split(frame, '|'), 1).value;
  }

  /** A reply cannot be taken for the answer to another request: sealing one for any other ticket, nonce or key changes
      nothing about what any frame opens to here. */
  lemma ReplyIsNotReused(log: SealLog, ticket: Bytes, key: Bytes, nonce: Bytes, frame: Bytes, ticket': Bytes,
                         key': Bytes, nonce': Bytes, plain: Bytes, sent: GcmMessage)
    requires '|' !in ticket && '|' !in ticket' && (ticket' != ticket || key' != key || nonce' != nonce)
    ensures var log' := Seal(log, key', ReplyAad(RequestAad(ticket'), ToHex(nonce')), plain, sent);
            OpenReply(log', ticket, key, nonce, frame) == OpenReply(log, ticket, key, nonce, frame)
  {
    hide Split, ToHex, DecodeMessage, ReplyAad;
    if ReplyAad(RequestAad(ticket), ToHex(nonce)) == ReplyAad(RequestAad(ticket'), ToHex(nonce')) {
      ReplyAadInjective(ticket, nonce, ticket', nonce');
    }
  }
}
