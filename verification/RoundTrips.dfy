/** Whole exchanges between the two programs: download_file and upload_file, from the client's
    call through the tracker's handler and back. */
module RoundTrips {
  import opened Text
  import opened Metadata
  import opened Endpoints
  import opened Tickets
  import opened Order
  import opened TrackerModel
  import opened TrackerLaws
  import opened TrackerEffects
  import opened TrackerRuns
  import opened TrackerProtocol

  function DownloadLine(group: Bytes, name: Bytes): Bytes {
    B("download_file") + Sep(' ') + group + Sep(' ') + ToHex(name)
  }

  lemma DownloadName()
    ensures Lookup(B("download_file")) == Some(DownloadFile) && IsWord(B("download_file"))
  {
    var text := B("download_file");
    assert text[0] == 'd' && text == "download_file";
  }

  lemma UploadName()
    ensures Lookup(B("upload_file")) == Some(UploadFile) && IsWord(B("upload_file"))
  {
    var text := B("upload_file");
    assert text[0] == 'u' && text == "upload_file";
  }

  lemma HexWord(bytes: Bytes)
    requires bytes != []
    ensures IsWord(ToHex(bytes))
  {
    ToHexDigits(bytes);
  }

  lemma DownloadWords(group: Bytes, name: Bytes)
    requires IsWord(group) && name != []
    ensures Words(DownloadLine(group, name)) == [B("download_file"), group, ToHex(name)]
  {
    hide Words, ToHex, Lookup;
    DownloadName();
    HexWord(name);
    WordsOne(ToHex(name));
    WordsCons(group, ToHex(name));
    WordsCons(B("download_file"), group + [' '] + ToHex(name));
    assert DownloadLine(group, name) == B("download_file") + [' '] + (group + [' '] + ToHex(name));
  }

  /** The ticket a download_file of `name` at time `now` writes for `user`. */
  function TicketAt(user: Bytes, group: Bytes, name: Bytes, now: int): PeerTicket {
    PeerTicket(user, group, name, now + LIFETIME_SECONDS)
  }

  /** One access record per seeder of a file, under that ticket. */
  ghost function Offer(hmac: Hmac, file: SharedFile, ticket: PeerTicket): seq<SeederAccess> {
    Accesses(hmac, ticket, file.seeders, KeysInOrder(file.seeders.Keys))
  }

  ghost predicate Listed(t: Tracker, session: U64, group: Bytes, name: Bytes) {
    session in t.sessions && IsMember(t, group, t.sessions[session]) && name in t.groups[group].files
  }

  /** What a member's download_file for a listed file does in state `t`. */
  lemma DownloadApplies(p: Primitives, t: Tracker, session: U64, group: Bytes, name: Bytes, context: ApplyContext)
    requires Inv(t) && Listed(t, session, group, name)
    ensures var file := t.groups[group].files[name];
            var accesses := Offer(p.hmac, file, TicketAt(t.sessions[session], group, name, context.now));
            (forall access | access in accesses :: access.key != []) ==>
            Apply(p, t, session, DownloadLine(group, name), context) ==
            Outcome(t, CommandResult(Meta(file.metadata, accesses), session))
  {
    hide Words, ToHex, FromHex, Lookup, Accesses, KeysInOrder, DownloadLine, SeederOk, FileMetadata.Valid;
    assert GroupOk(t.users.Keys, Live(t), t.groups[group]);
    assert FileOk(t.groups[group].members, Live(t), name, t.groups[group].files[name]);
    DownloadName();
    DownloadWords(group, name);
    HexRoundTrip(name);
    var r := Request(session, t.sessions[session], [group, ToHex(name)], context);
    assert Words(DownloadLine(group, name))[1..] == r.args;
    assert r.user in t.users && r.user != [];
    assert t.groups[group].files[name].seeders.Keys != {};
  }

  lemma OfferIssued(hmac: Hmac, file: SharedFile, ticket: PeerTicket)
    requires ticket.Valid() && file.seeders.Keys != {} && forall user | user in file.seeders ::
             SeederOk(file.seeders[user])
    requires forall user | user in file.seeders :: |ticket.Key(hmac, file.seeders[user].peerKey)| == 32
    ensures var accesses := Offer(hmac, file, ticket);
            accesses != [] && forall access | access in accesses :: Issued(access)
  {
    hide Decode, PeerTicket.Encode, PeerTicket.Key, Endpoint.Valid, IsWord, PeerTicket.Valid;
    var order := KeysInOrder(file.seeders.Keys);
    var accesses := Offer(hmac, file, ticket);
    DecodeEncode(ticket);
    forall access | access in accesses ensures Issued(access) {
      var i :| 0 <= i < |accesses| && accesses[i] == access;
      assert order[i] in order && SeederOk(file.seeders[order[i]]);
    }
  }

  /** A member asking for a listed file gets back, through both programs' codecs, its own session
      and what `Recovers` says of the file's metadata and of one access record per seeder: its
      address, the ticket, and the ticket's key there. */
  lemma DownloadRoundTrip(p: Primitives, t: Tracker, session: U64, group: Bytes, name: Bytes, context: ApplyContext)
    requires Inv(t) && Listed(t, session, group, name)
    requires 0 <= context.now + LIFETIME_SECONDS <= MAX_EXPIRES
    requires var file := t.groups[group].files[name];
             forall user | user in file.seeders ::
               |TicketAt(t.sessions[session], group, name, context.now).Key(p.hmac, file.seeders[user].peerKey)| == 32
    ensures var (t', reply) := HandleRequest(p, t, Message(session, DownloadLine(group, name)), context);
            var file := t.groups[group].files[name];
            && t' == t && StripSession(reply).Some? && StripSession(reply).value.1 == session
            && Recovers(StripSession(reply).value.0, file.metadata,
                        Offer(p.hmac, file, TicketAt(t.sessions[session], group, name, context.now)))
  {
    hide Recovers, Apply, HandleRequest, StripSession, DownloadLine, PeerTicket.Key, Offer, MetaText, Message, SeederOk;
    var file := t.groups[group].files[name];
    var ticket := TicketAt(t.sessions[session], group, name, context.now);
    var accesses := Offer(p.hmac, file, ticket);
    assert GroupOk(t.users.Keys, Live(t), t.groups[group]);
    assert FileOk(t.groups[group].members, Live(t), name, file);
    assert t.sessions[session] in t.users && ticket.Valid();
    OfferIssued(p.hmac, file, ticket);
    assert forall access | access in accesses :: Issued(access) && access.key != [];
    DownloadApplies(p, t, session, group, name, context);
    RequestReplyRoundTrip(p, t, session, DownloadLine(group, name), context);
    MetaRoundTrip(file.metadata, accesses);
    assert Meta(file.metadata, accesses).Text() == MetaText(file.metadata, accesses);
  }

  // ---------------------------------------------------------------- upload_file

  function ShareArgs(group: Bytes, name: Bytes, metadata: FileMetadata, self: Endpoint, peerKey: Bytes): seq<Bytes> {
    [group, ToHex(name), Dec(metadata.size), metadata.fullHash, metadata.PieceHashList(), self.ip, DecInt(self.port),
      ToHex(peerKey)]
  }

  /** The line TrackerClient::share sends. */
  function ShareLine(group: Bytes, name: Bytes, metadata: FileMetadata, self: Endpoint, peerKey: Bytes): Bytes {
    Join([B("upload_file")] + ShareArgs(group, name, metadata, self, peerKey), ' ')
  }

  /** What a client may share: a named valid file, from an address whose text is one word. */
  ghost predicate Shareable(group: Bytes, name: Bytes, metadata: FileMetadata, self: Endpoint, peerKey: Bytes) {
    && IsWord(group) && name != [] && metadata.Valid()
    && self.Valid() && IsWord(self.ip) && |peerKey| == 32
  }

  lemma ShareArgsAreWords(group: Bytes, name: Bytes, metadata: FileMetadata, self: Endpoint, peerKey: Bytes)
    requires Shareable(group, name, metadata, self, peerKey)
    ensures forall arg | arg in ShareArgs(group, name, metadata, self, peerKey) :: IsWord(arg)
  {
    hide ToHex, Dec, DecInt, FileMetadata.PieceHashList;
    HexWord(name);
    HexWord(peerKey);
    DecDigits(metadata.size);
    DecIntParses(self.port);
    PieceHashListRoundTrip(metadata);
  }

  lemma ShareWords(group: Bytes, name: Bytes, metadata: FileMetadata, self: Endpoint, peerKey: Bytes)
    requires Shareable(group, name, metadata, self, peerKey)
    ensures Words(ShareLine(group, name, metadata, self, peerKey)) ==
            [B("upload_file")] + ShareArgs(group, name, metadata, self, peerKey)
  {
    hide Words, Join, ShareArgs, Lookup;
    UploadName();
    ShareArgsAreWords(group, name, metadata, self, peerKey);
    WordsJoin([B("upload_file")] + ShareArgs(group, name, metadata, self, peerKey));
  }

  /** The tracker's parser reads back exactly the record the client described. */
  lemma ShareParses(group: Bytes, name: Bytes, metadata: FileMetadata, self: Endpoint, peerKey: Bytes)
    requires Shareable(group, name, metadata, self, peerKey)
    ensures ParseUpload(ShareArgs(group, name, metadata, self, peerKey)) ==
            Some(Upload(name, metadata, Seeder(self, peerKey)))
  {
    hide ToHex, FromHex, Dec, DecInt, ParseU64, FileMetadata.PieceHashList, FileMetadata.Valid, Endpoint.Valid;
    HexRoundTrip(name);
    HexRoundTrip(peerKey);
    ParseDec(metadata.size);
    ParseToString(self);
    PieceHashListRoundTrip(metadata);
  }

  /** From `t` to `t'`, `user` became a seeder of this file with this record, and nothing else changed. */
  ghost predicate Registers(t: Tracker, t': Tracker, group: Bytes, user: Bytes, name: Bytes,
                            metadata: FileMetadata, seeder: Seeder)
    requires group in t.groups
  {
    && t'.users == t.users && t'.sessions == t.sessions && t'.groups.Keys == t.groups.Keys
    && (forall other | other in t.groups && other != group :: t'.groups[other] == t.groups[other])
    && var before, after := t.groups[group], t'.groups[group];
       && after.owner == before.owner && after.members == before.members && after.pending == before.pending
       && after.files.Keys == before.files.Keys + {name}
       && (forall other | other in before.files && other != name :: after.files[other] == before.files[other])
       && after.files[name].metadata == metadata
       && after.files[name].seeders ==
          (if name in before.files then before.files[name].seeders else map[])[user := seeder]
  }

  /** Sharing from a member's session registers exactly this seeder under exactly this metadata;
      or, when the file is listed with other content, it is refused and nothing changes. */
  lemma ShareRoundTrip(p: Primitives, t: Tracker, session: U64, group: Bytes, name: Bytes, metadata: FileMetadata,
                       self: Endpoint, peerKey: Bytes, context: ApplyContext)
    requires Inv(t) && session in t.sessions && IsMember(t, group, t.sessions[session])
    requires Shareable(group, name, metadata, self, peerKey)
    ensures var (t', reply) := HandleRequest(p, t, Message(session, ShareLine(group, name, metadata, self, peerKey)),
            context);
            var files := t.groups[group].files;
            var conflict := name in files && files[name].metadata != metadata;
            && StripSession(reply) ==
               Some(((if conflict then Err(ConflictingMetadata) else Ok(FileShared)).Text(), session))
            && (conflict ==> t' == t)
            && (!conflict ==> Registers(t, t', group, t.sessions[session], name, metadata, Seeder(self, peerKey)))
  {
    hide HandleRequest, StripSession, ShareLine, Message, Response.Text, HandleUploadFile, ShareArgs, Words, Lookup,
      Shareable, Registers, GroupOk;
    var line, args := ShareLine(group, name, metadata, self, peerKey), ShareArgs(group, name, metadata, self, peerKey);
    UploadName();
    ShareWords(group, name, metadata, self, peerKey);
    assert Words(line)[1..] == args;
    assert t.sessions[session] in t.users && t.sessions[session] != [];
    var r := Request(session, t.sessions[session], args, context);
    assert Apply(p, t, session, line, context) == HandleUploadFile(t, r);
    RequestReplyRoundTrip(p, t, session, line, context);
    UploadRegisters(t, r, group, name, metadata, Seeder(self, peerKey));
  }

  lemma ShareArgsShape(group: Bytes, name: Bytes, metadata: FileMetadata, self: Endpoint, peerKey: Bytes)
    ensures |ShareArgs(group, name, metadata, self, peerKey)| == 8
    ensures ShareArgs(group, name, metadata, self, peerKey)[0] == group
  {
  }

  lemma UploadRegisters(t: Tracker, r: Request, group: Bytes, name: Bytes, metadata: FileMetadata, seeder: Seeder)
    requires Inv(t) && IsMember(t, group, r.user)
    requires Shareable(group, name, metadata, seeder.endpoint, seeder.peerKey)
    requires r.args == ShareArgs(group, name, metadata, seeder.endpoint, seeder.peerKey)
    ensures var Outcome(t', result) := HandleUploadFile(t, r);
            var files := t.groups[group].files;
            var conflict := name in files && files[name].metadata != metadata;
            && result == CommandResult(if conflict then Err(ConflictingMetadata) else Ok(FileShared), r.session)
            && (conflict ==> t' == t)
            && (!conflict ==> Registers(t, t', group, r.user, name, metadata, seeder))
  {
    hide ParseUpload, ShareArgs, Shareable, Inv;
    ShareArgsShape(group, name, metadata, seeder.endpoint, seeder.peerKey);
    ShareParses(group, name, metadata, seeder.endpoint, seeder.peerKey);
    var files := t.groups[group].files;
    if name in files {
      ListedHash(t, group, name);
      assert files[name := files[name]] == files;
      assert t.groups[group].(files := files) == t.groups[group] && t.groups[group := t.groups[group]] == t.groups;
    }
  }

  lemma ListedHash(t: Tracker, group: Bytes, name: Bytes)
    requires Inv(t) && group in t.groups && name in t.groups[group].files
    ensures t.groups[group].files[name].metadata.fullHash != []
  {
    assert GroupOk(t.users.Keys, Live(t), t.groups[group]);
    assert FileOk(t.groups[group].members, Live(t), name, t.groups[group].files[name]);
  }

  /** The one condition that does fail, through both programs: a member shares a new file from the address text
      "1.1.1.1", NUL, '/'; the tracker takes and lists it, and whoever then asks for the file is told that it has no
      seeders. */
  lemma SharedButNotLocated(p: Primitives, t: Tracker, session: U64, group: Bytes, name: Bytes, metadata: FileMetadata,
                            peerKey: Bytes, context: ApplyContext, later: ApplyContext)
    requires Inv(t) && session in t.sessions && IsMember(t, group, t.sessions[session]) &&
             name !in t.groups[group].files
    requires name != [] && metadata.Valid() && |peerKey| == 32 && 0 <= later.now + LIFETIME_SECONDS <= MAX_EXPIRES
    requires |TicketAt(t.sessions[session], group, name, later.now).Key(p.hmac, peerKey)| == 32
    ensures var self := Endpoint(B("1.1.1.1") + ['\0'] + ['/'], 1);
            var (t1, reply) := HandleRequest(p, t, Message(session, ShareLine(group, name, metadata, self, peerKey)),
              context);
            var (t2, answer) := HandleRequest(p, t1, Message(session, DownloadLine(group, name)), later);
            && Registers(t, t1, group, t.sessions[session], name, metadata, Seeder(self, peerKey))
            && StripSession(answer).Some?
            && Locate(StripSession(answer).value.0) == NotLocated(B("ERR no valid peer endpoints"))
  {
    hide Apply, HandleRequest, StripSession, ShareLine, DownloadLine, Message, PeerTicket.Key, PeerTicket.Encode,
      MetaText, Locate, Decode, FileMetadata.Valid, Endpoint.Valid, GroupOk;
    var user, self := t.sessions[session], Endpoint(B("1.1.1.1") + ['\0'] + ['/'], 1);
    var line := ShareLine(group, name, metadata, self, peerKey);
    NulAddressIsTaken();
    assert IsWord(group);
    ShareRoundTrip(p, t, session, group, name, metadata, self, peerKey, context);
    RequestReplyRoundTrip(p, t, session, line, context);
    ApplyKeepsInv(p, t, session, line, context);
    var t1 := HandleRequest(p, t, Message(session, line), context).0;
    var file, ticket := t1.groups[group].files[name], TicketAt(user, group, name, later.now);
    assert file.seeders == map[user := Seeder(self, peerKey)];
    assert user in t.users && user != [];
    OneOffer(p.hmac, file, ticket, user);
    DownloadApplies(p, t1, session, group, name, later);
    RequestReplyRoundTrip(p, t1, session, DownloadLine(group, name), later);
    var access := SeederAccess(self, ticket.Encode(), ticket.Key(p.hmac, peerKey));
    assert Meta(metadata, [access]).Text() == MetaText(metadata, [access]);
    DecodeEncode(ticket);
    AddressWithNulIsLost(metadata, ticket.Encode(), access.key);
  }

  lemma OneOffer(hmac: Hmac, file: SharedFile, ticket: PeerTicket, user: Bytes)
    requires file.seeders.Keys == {user}
    ensures var seeder := file.seeders[user];
            Offer(hmac, file, ticket) ==
              [SeederAccess(seeder.endpoint, ticket.Encode(), ticket.Key(hmac, seeder.peerKey))]
  {
    hide PeerTicket.Encode, PeerTicket.Key, KeysInOrder;
    var order := KeysInOrder({user});
    assert |order| == 1 && order[0] in order;
  }
}
