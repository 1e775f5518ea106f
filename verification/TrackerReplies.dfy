/** Exactly what each command replies: which session, which success, which refusal, which list, and that the reply tells
    the truth about the state (tracker/state/tracker_state.cpp). */
module TrackerReplies {
  import opened Text
  import opened Metadata
  import Endpoints
  import opened Tickets
  import opened Order
  import opened Password
  import opened TrackerModel
  import opened TrackerLaws
  import opened TrackerEffects

  ghost function ResultOf(p: Primitives, t: Tracker, input: Input): CommandResult {
    Apply(p, t, input.session, input.line, input.context).result
  }

  // ---------------------------------------------------------------- before the handlers

  /** The fourteen commands under their names, and no other name is a command. */
  lemma CommandNames(name: Bytes)
    ensures Lookup(name) == Some(CreateUser) <==> name == "create_user"
    ensures Lookup(name) == Some(Login) <==> name == "login"
    ensures Lookup(name) == Some(Logout) <==> name == "logout"
    ensures Lookup(name) == Some(CreateGroup) <==> name == "create_group"
    ensures Lookup(name) == Some(JoinGroup) <==> name == "join_group"
    ensures Lookup(name) == Some(LeaveGroup) <==> name == "leave_group"
    ensures Lookup(name) == Some(ListGroups) <==> name == "list_groups"
    ensures Lookup(name) == Some(ListRequests) <==> name == "list_requests"
    ensures Lookup(name) == Some(AcceptRequest) <==> name == "accept_request"
    ensures Lookup(name) == Some(RemoveMember) <==> name == "remove_member"
    ensures Lookup(name) == Some(UploadFile) <==> name == "upload_file"
    ensures Lookup(name) == Some(ListFiles) <==> name == "list_files"
    ensures Lookup(name) == Some(DownloadFile) <==> name == "download_file"
    ensures Lookup(name) == Some(StopShare) <==> name == "stop_share"
  {
  }

  /** The refusals before a handler is called, each exactly when its reason holds. */
  lemma EarlyRefusals(p: Primitives, t: Tracker, input: Input)
    ensures var words, result := Words(input.line), ResultOf(p, t, input);
            && (words == [] ==> result == CommandResult(Err(EmptyCommand), input.session))
            && (words != [] && Lookup(words[0]).None? ==> result == CommandResult(Err(UnknownCommand), input.session))
            && (words != [] && Lookup(words[0]).Some? ==>
                  var command := Lookup(words[0]).value;
                  if command !in {CreateUser, Login, Logout} && UserOf(t, input.session) == [] then
                    result == CommandResult(Err(LoginRequired), input.session)
                  else if !command.UploadFile? &&
                          |words| != (if command in {Logout, ListGroups} then 1
                                      else if command in {CreateGroup, JoinGroup, LeaveGroup, ListRequests, ListFiles}
                                      then 2 else 3) then
                    result == CommandResult(Err(WrongUsage(command)), input.session)
                  else Reaches(t, input, command))
  {
    hide Lookup, Words, Handle;
  }

  lemma ReachesReply(p: Primitives, t: Tracker, input: Input, command: Command) returns (r: Request)
    requires Reaches(t, input, command)
    ensures Carries(t, input, command, r) && ResultOf(p, t, input) == Handle(p, t, command, r).result
  {
    hide Handle, Lookup, Words;
    r := RequestOf(t, input);
  }

  // ---------------------------------------------------------------- refusals

  function GroupArg(r: Request): Bytes {
    if r.args == [] then [] else r.args[0]
  }

  predicate NamesGroup(command: Command) {
    || command.JoinGroup? || command.LeaveGroup? || command.ListRequests? || command.AcceptRequest?
    || command.RemoveMember? || command.UploadFile? || command.ListFiles? || command.DownloadFile?
  }

  ghost predicate IsOwner(t: Tracker, group: Bytes, user: Bytes) {
    group in t.groups && t.groups[group].owner == user
  }

  /** What each refusal by a handler says about the state. */
  ghost predicate Refused(p: Primitives, t: Tracker, command: Command, r: Request, refusal: Refusal)
    requires command.Accepts(r.args)
  {
    var group := GroupArg(r);
    match refusal
    case UserExists => command.CreateUser? && r.args[0] in t.users
    case RandomFailed =>
      || (command.CreateUser? && r.args[0] !in t.users && Hash(p.kdf, r.args[1], r.context.salt) == [])
      || (command.Login? && r.user == [] && r.args[0] in t.users && Verify(p.kdf, r.args[1], t.users[r.args[0]])
          && r.session == 0 && (r.context.newSession == 0 || r.context.newSession in t.sessions))
    case AlreadyLoggedIn => command.Login? && r.user != []
    case NoSuchUser => command.Login? && r.user == [] && r.args[0] !in t.users
    case InvalidPassword =>
      command.Login? && r.user == [] && r.args[0] in t.users && !Verify(p.kdf, r.args[1], t.users[r.args[0]])
    case NotLoggedIn => command.Logout? && r.user == []
    case GroupExists => command.CreateGroup? && group in t.groups
    case NoSuchGroup => NamesGroup(command) && group !in t.groups
    case AlreadyMember => command.JoinGroup? && IsMember(t, group, r.user)
    case AlreadyPending => command.JoinGroup? && IsPending(t, group, r.user)
    case OwnerCannotLeave => command.LeaveGroup? && IsOwner(t, group, r.user)
    case NotMember =>
      || (command.LeaveGroup? && group in t.groups && !IsMember(t, group, r.user))
      || (command.RemoveMember? && IsOwner(t, group, r.user) && !IsMember(t, group, r.args[1]))
    case OnlyOwnerLists => command.ListRequests? && group in t.groups && !IsOwner(t, group, r.user)
    case OnlyOwnerAccepts => command.AcceptRequest? && group in t.groups && !IsOwner(t, group, r.user)
    case OnlyOwnerRemoves => command.RemoveMember? && group in t.groups && !IsOwner(t, group, r.user)
    case NoSuchRequest => command.AcceptRequest? && IsOwner(t, group, r.user) && !IsPending(t, group, r.args[1])
    case OwnerCannotBeRemoved => command.RemoveMember? && IsOwner(t, group, r.user) && r.args[1] == r.user
    case NotGroupMember =>
      (command.UploadFile? || command.ListFiles? || command.DownloadFile?) && group in t.groups &&
        !IsMember(t, group, r.user)
    case InvalidUpload => command.UploadFile? && IsMember(t, group, r.user) && ParseUpload(r.args).None?
    case ConflictingMetadata =>
      command.UploadFile? && IsMember(t, group, r.user) && ParseUpload(r.args).Some?
      && var upload := ParseUpload(r.args).value;
         upload.name in t.groups[group].files && t.groups[group].files[upload.name].metadata != upload.metadata
    case InvalidFileName => command.DownloadFile? && IsMember(t, group, r.user) && FromHex(r.args[1]).None?
    case NoSeeders =>
      command.DownloadFile? && IsMember(t, group, r.user) && FromHex(r.args[1]).Some?
      && FromHex(r.args[1]).value !in t.groups[group].files
    case TicketsFailed => command.DownloadFile? && Findable(t, r) && !Issuable(p, t, r)
    case InvalidGroupOrFile => command.StopShare? && (group !in t.groups || FromHex(r.args[1]).None?)
    case NotSharing =>
      command.StopShare? && group in t.groups && FromHex(r.args[1]).Some?
      && ShareOf(t, group, FromHex(r.args[1]).value, r.user).None?
    case _ => false
  }

  /** A member asks for a listed file. */
  ghost predicate Findable(t: Tracker, r: Request)
    requires |r.args| == 2
  {
    && IsMember(t, r.args[0], r.user) && FromHex(r.args[1]).Some?
    && FromHex(r.args[1]).value in t.groups[r.args[0]].files
  }

  /** The ticket has a key at every seeder of the file. */
  ghost predicate Issuable(p: Primitives, t: Tracker, r: Request)
    requires |r.args| == 2 && Findable(t, r)
  {
    var name := FromHex(r.args[1]).value;
    var seeders := t.groups[r.args[0]].files[name].seeders;
    forall user | user in seeders ::
      PeerTicket(r.user, r.args[0], name, r.context.now + 300).Key(p.hmac, seeders[user].peerKey) != []
  }

  /** What each success says. */
  ghost predicate Succeeded(p: Primitives, t: Tracker, command: Command, r: Request, success: Success)
    requires command.Accepts(r.args)
  {
    var group := GroupArg(r);
    match success
    case UserCreated =>
      command.CreateUser? && r.args[0] !in t.users && Hash(p.kdf, r.args[1], r.context.salt) != []
    case LoggedIn =>
      command.Login? && r.user == [] && r.args[0] in t.users && Verify(p.kdf, r.args[1], t.users[r.args[0]])
      && (r.session == 0 ==> r.context.newSession != 0 && r.context.newSession !in t.sessions)
    case LoggedOut => command.Logout? && r.user != []
    case GroupCreated => command.CreateGroup? && group !in t.groups
    case JoinRequested =>
      command.JoinGroup? && group in t.groups && !IsMember(t, group, r.user) && !IsPending(t, group, r.user)
    case LeftGroup => command.LeaveGroup? && IsMember(t, group, r.user) && !IsOwner(t, group, r.user)
    case RequestAccepted => command.AcceptRequest? && IsOwner(t, group, r.user) && IsPending(t, group, r.args[1])
    case MemberRemoved =>
      command.RemoveMember? && IsOwner(t, group, r.user) && IsMember(t, group, r.args[1]) && r.args[1] != r.user
    case FileShared =>
      command.UploadFile? && IsMember(t, group, r.user) && ParseUpload(r.args).Some?
      && var upload := ParseUpload(r.args).value;
         upload.name in t.groups[group].files ==> t.groups[group].files[upload.name].metadata == upload.metadata
    case SharingStopped =>
      command.StopShare? && FromHex(r.args[1]).Some? && ShareOf(t, group, FromHex(r.args[1]).value, r.user).Some?
  }

  /** The response is a refusal or a success exactly when what that says is so. */
  ghost predicate Truthful(p: Primitives, t: Tracker, command: Command, r: Request, response: Response)
    requires command.Accepts(r.args)
  {
    && (forall refusal :: response == Err(refusal) <==> Refused(p, t, command, r, refusal))
    && (forall success :: response == Ok(success) <==> Succeeded(p, t, command, r, success))
    && (response.Listing? ==> command.ListGroups? || command.ListRequests? || command.ListFiles?)
    && (response.Meta? ==> command.DownloadFile?)
  }

  lemma RegisterReplies(p: Primitives, t: Tracker, r: Request)
    requires |r.args| == 2
    ensures Truthful(p, t, CreateUser, r, HandleCreateUser(p.kdf, t, r).result.response)
  {
    hide Hash, Verify, ParseUpload, FromHex, Issuable, Findable;
  }

  lemma LoginReplies(p: Primitives, t: Tracker, r: Request)
    requires |r.args| == 2
    ensures Truthful(p, t, Login, r, HandleLogin(p.kdf, t, r).result.response)
  {
    hide Hash, Verify, ParseUpload, FromHex, Issuable, Findable;
  }

  lemma LogoutReplies(p: Primitives, t: Tracker, r: Request)
    requires r.args == []
    ensures Truthful(p, t, Logout, r, HandleLogout(t, r).result.response)
  {
    hide Hash, Verify, ParseUpload, FromHex, RemoveShares;
  }

  /** What Inv says of a group's roster. */
  lemma RosterOk(t: Tracker, group: Bytes)
    requires Inv(t) && group in t.groups
    ensures t.groups[group].owner in t.groups[group].members && t.groups[group].members !! t.groups[group].pending
    ensures forall name | name in t.groups[group].files ::
              t.groups[group].files[name].metadata.fullHash != [] && t.groups[group].files[name].seeders != map[]
  {
    assert GroupOk(t.users.Keys, Live(t), t.groups[group]);
    forall name | name in t.groups[group].files
      ensures t.groups[group].files[name].metadata.fullHash != [] && t.groups[group].files[name].seeders != map[]
    {
      assert FileOk(t.groups[group].members, Live(t), name, t.groups[group].files[name]);
    }
  }

  lemma FoundReplies(p: Primitives, t: Tracker, r: Request)
    requires Inv(t) && |r.args| == 1
    ensures Truthful(p, t, CreateGroup, r, HandleCreateGroup(t, r).result.response)
  {
    hide Hash, Verify, ParseUpload, FromHex, RemoveShares, Inv, Issuable, Findable;
    if GroupArg(r) in t.groups {
      RosterOk(t, GroupArg(r));
    }
  }

  lemma JoinReplies(p: Primitives, t: Tracker, r: Request)
    requires Inv(t) && |r.args| == 1
    ensures Truthful(p, t, JoinGroup, r, HandleJoinGroup(t, r).result.response)
  {
    hide Hash, Verify, ParseUpload, FromHex, RemoveShares, Inv, Issuable, Findable;
    if GroupArg(r) in t.groups {
      RosterOk(t, GroupArg(r));
    }
  }

  lemma LeaveReplies(p: Primitives, t: Tracker, r: Request)
    requires Inv(t) && |r.args| == 1
    ensures Truthful(p, t, LeaveGroup, r, HandleLeaveGroup(t, r).result.response)
  {
    hide Hash, Verify, ParseUpload, FromHex, RemoveShares, Inv, Issuable, Findable;
    if GroupArg(r) in t.groups {
      RosterOk(t, GroupArg(r));
    }
  }

  lemma RequestsReplies(p: Primitives, t: Tracker, r: Request)
    requires |r.args| == 1
    ensures Truthful(p, t, ListRequests, r, HandleListRequests(t, r).result.response)
  {
    hide Hash, Verify, ParseUpload, FromHex, KeysInOrder, Issuable, Findable;
  }

  lemma FilesReplies(p: Primitives, t: Tracker, r: Request)
    requires |r.args| == 1
    ensures Truthful(p, t, ListFiles, r, HandleListFiles(t, r).result.response)
  {
    hide Hash, Verify, ParseUpload, FromHex, KeysInOrder, Issuable, Findable;
  }

  lemma AcceptReplies(p: Primitives, t: Tracker, r: Request)
    requires Inv(t) && |r.args| == 2
    ensures Truthful(p, t, AcceptRequest, r, HandleAcceptRequest(t, r).result.response)
  {
    hide Hash, Verify, ParseUpload, FromHex, RemoveShares, Inv, Issuable, Findable;
    if GroupArg(r) in t.groups {
      RosterOk(t, GroupArg(r));
    }
  }

  lemma RemoveReplies(p: Primitives, t: Tracker, r: Request)
    requires Inv(t) && |r.args| == 2
    ensures Truthful(p, t, RemoveMember, r, HandleRemoveMember(t, r).result.response)
  {
    hide Hash, Verify, ParseUpload, FromHex, RemoveShares, Inv, Issuable, Findable;
    if GroupArg(r) in t.groups {
      RosterOk(t, GroupArg(r));
    }
  }

  lemma UploadReplies(p: Primitives, t: Tracker, r: Request)
    requires Inv(t)
    ensures Truthful(p, t, UploadFile, r, HandleUploadFile(t, r).result.response)
  {
    hide Hash, Verify, ParseUpload, FromHex, Inv, Issuable, Findable;
    if GroupArg(r) in t.groups {
      RosterOk(t, GroupArg(r));
    }
  }

  lemma StopReplies(p: Primitives, t: Tracker, r: Request)
    requires |r.args| == 2
    ensures Truthful(p, t, StopShare, r, HandleStopShare(t, r).result.response)
  {
    hide Hash, Verify, ParseUpload, FromHex;
  }

  /** What download_file says, case by case. */
  lemma DownloadCases(p: Primitives, t: Tracker, r: Request)
    requires Inv(t) && |r.args| == 2
    ensures var group, name := r.args[0], FromHex(r.args[1]);
            var response := HandleDownloadFile(p.hmac, t, r).result.response;
            if group !in t.groups then response == Err(NoSuchGroup)
            else if !IsMember(t, group, r.user) then response == Err(NotGroupMember)
            else if name.None? then response == Err(InvalidFileName)
            else if name.value !in t.groups[group].files then response == Err(NoSeeders)
            else if !Issuable(p, t, r) then response == Err(TicketsFailed)
            else response.Meta?
  {
    hide FromHex, Inv, Accesses, KeysInOrder, PeerTicket.Key, Issuable;
    if r.args[0] in t.groups {
      RosterOk(t, r.args[0]);
    }
    if Findable(t, r) {
      KeysIssued(p, t, r);
    }
  }

  lemma DownloadReplies(p: Primitives, t: Tracker, r: Request)
    requires Inv(t) && |r.args| == 2
    ensures Truthful(p, t, DownloadFile, r, HandleDownloadFile(p.hmac, t, r).result.response)
  {
    hide Hash, Verify, ParseUpload, FromHex, Inv, HandleDownloadFile, Issuable;
    DownloadCases(p, t, r);
  }

  /** Every access record has a key exactly when the ticket has one at every seeder. */
  lemma KeysIssued(p: Primitives, t: Tracker, r: Request)
    requires |r.args| == 2 && Findable(t, r)
    ensures var seeders := t.groups[r.args[0]].files[FromHex(r.args[1]).value].seeders;
            var proto := TicketFor(r, FromHex(r.args[1]).value);
            var accesses := Accesses(p.hmac, proto, seeders, KeysInOrder(seeders.Keys));
            Issuable(p, t, r) <==> forall access | access in accesses :: access.key != []
  {
    hide KeysInOrder, PeerTicket.Key, PeerTicket.Encode, FromHex;
    var name := FromHex(r.args[1]).value;
    var seeders := t.groups[r.args[0]].files[name].seeders;
    var order := KeysInOrder(seeders.Keys);
    var accesses := Accesses(p.hmac, TicketFor(r, name), seeders, order);
    if forall access | access in accesses :: access.key != [] {
      forall user | user in seeders ensures TicketFor(r, name).Key(p.hmac, seeders[user].peerKey) != [] {
        assert user in order;
        var i :| 0 <= i < |order| && order[i] == user;
        assert accesses[i] in accesses;
      }
    } else {
      var access :| access in accesses && access.key == [];
      var i :| 0 <= i < |accesses| && accesses[i] == access;
      assert order[i] in order;
    }
  }

  lemma HandledReplies(p: Primitives, t: Tracker, command: Command, r: Request)
    requires Inv(t) && command.Accepts(r.args)
    ensures Truthful(p, t, command, r, Handle(p, t, command, r).result.response)
  {
    hide Truthful, Inv, HandleCreateUser, HandleLogin, HandleLogout, HandleCreateGroup, HandleJoinGroup,
      HandleLeaveGroup, HandleListRequests, HandleAcceptRequest, HandleRemoveMember, HandleUploadFile, HandleListFiles,
      HandleDownloadFile, HandleStopShare;
    match command
    case CreateUser => RegisterReplies(p, t, r);
    case Login => LoginReplies(p, t, r);
    case Logout => LogoutReplies(p, t, r);
    case CreateGroup => FoundReplies(p, t, r);
    case JoinGroup => JoinReplies(p, t, r);
    case LeaveGroup => LeaveReplies(p, t, r);
    case ListRequests => RequestsReplies(p, t, r);
    case ListFiles => FilesReplies(p, t, r);
    case AcceptRequest => AcceptReplies(p, t, r);
    case RemoveMember => RemoveReplies(p, t, r);
    case UploadFile => UploadReplies(p, t, r);
    case DownloadFile => DownloadReplies(p, t, r);
    case StopShare => StopReplies(p, t, r);
    case ListGroups => GroupsReply(p, t, r);
  }

  lemma GroupsReply(p: Primitives, t: Tracker, r: Request)
    requires r.args == []
    ensures Truthful(p, t, ListGroups, r, Handle(p, t, ListGroups, r).result.response)
  {
    hide Hash, Verify, ParseUpload, FromHex, KeysInOrder;
  }

  /** Every refusal and every success tells the truth, and where it would be the truth it is what is replied. */
  lemma RepliesExact(p: Primitives, t: Tracker, input: Input, command: Command) returns (r: Request)
    requires Inv(t) && Reaches(t, input, command)
    ensures Carries(t, input, command, r) && Truthful(p, t, command, r, ResultOf(p, t, input).response)
  {
    hide Inv, Reaches, Truthful, Carries;
    r := ReachesReply(p, t, input, command);
    assert command.Accepts(r.args) by {
      CarriesAccepts(t, input, command, r);
    }
    HandledReplies(p, t, command, r);
  }

  lemma CarriesAccepts(t: Tracker, input: Input, command: Command, r: Request)
    requires Carries(t, input, command, r)
    ensures command.Accepts(r.args)
  {
  }

  // ---------------------------------------------------------------- sessions

  /** A login that is taken replies with the session it has bound; a logout that is taken replies with none; every other
      reply leaves the caller's session as it was. */
  lemma SessionReplies(p: Primitives, t: Tracker, input: Input)
    requires Inv(t)
    ensures forall session: U64, user | LogsIn(p, t, input, session, user) ::
              ResultOf(p, t, input) == CommandResult(Ok(LoggedIn), session)
    ensures Says(input, Logout, []) && input.session in t.sessions ==>
            ResultOf(p, t, input) == CommandResult(Ok(LoggedOut), 0)
    ensures var result := ResultOf(p, t, input);
            && (result.response == Ok(LoggedIn) ==> exists user :: LogsIn(p, t, input, result.session, user))
            && (result.response == Ok(LoggedOut) ==> Says(input, Logout, []) && input.session in t.sessions)
            && (result.response != Ok(LoggedIn) && result.response != Ok(LoggedOut) ==> result.session == input.session)
  {
    hide Inv, Lookup, Words, Apply, Handle, LogsIn, Says;
    if command :| Reaches(t, input, command) {
      var r := ReachesReply(p, t, input, command);
      HandledSession(p, t, input, command, r);
    } else {
      UnhandledSession(p, t, input);
    }
  }

  lemma LoginSession(p: Primitives, t: Tracker, input: Input, r: Request)
    requires Inv(t) && Carries(t, input, Login, r)
    ensures var result := HandleLogin(p.kdf, t, r).result;
            && (forall session: U64, user | LogsIn(p, t, input, session, user) ::
                 result == CommandResult(Ok(LoggedIn), session))
            && (result.response == Ok(LoggedIn) ==> exists user :: LogsIn(p, t, input, result.session, user))
            && result.response != Ok(LoggedOut)
            && (result.response != Ok(LoggedIn) ==> result.session == input.session)
  {
    hide Says, Issues, Hash, Verify, GroupOk, Args;
    assert r.args == [r.args[0], r.args[1]];
    assert Says(input, Login, [r.args[0], r.args[1]]);
    assert r.session in t.sessions <==> r.user != [];
    var result := HandleLogin(p.kdf, t, r).result;
    if result.response == Ok(LoggedIn) {
      assert LogsIn(p, t, input, result.session, r.args[0]);
    }
  }

  lemma HandledSession(p: Primitives, t: Tracker, input: Input, command: Command, r: Request)
    requires Inv(t) && Carries(t, input, command, r)
    ensures var result := Handle(p, t, command, r).result;
            && (forall session: U64, user | LogsIn(p, t, input, session, user) ::
                 result == CommandResult(Ok(LoggedIn), session))
            && (Says(input, Logout, []) && input.session in t.sessions ==> result == CommandResult(Ok(LoggedOut), 0))
            && (result.response == Ok(LoggedIn) ==> exists user :: LogsIn(p, t, input, result.session, user))
            && (result.response == Ok(LoggedOut) ==> Says(input, Logout, []) && input.session in t.sessions)
            && (result.response != Ok(LoggedIn) && result.response != Ok(LoggedOut) ==> result.session == input.session)
  {
    hide Says, Issues, Hash, Verify, ParseUpload, FromHex, KeysInOrder, Accesses, RemoveShares, GroupOk, Args,
      HandleLogin;
    if command.Login? {
      LoginSession(p, t, input, r);
    } else if command.Logout? {
      assert r.session in t.sessions <==> r.user != [];
    }
  }

  lemma UnhandledSession(p: Primitives, t: Tracker, input: Input)
    requires forall command :: !Reaches(t, input, command)
    ensures forall session: U64, user :: !LogsIn(p, t, input, session, user)
    ensures !Says(input, Logout, [])
    ensures ResultOf(p, t, input).response.Err? && ResultOf(p, t, input).session == input.session
  {
    hide Lookup, Words, Hash, Verify, Handle;
    assert !Reaches(t, input, Login) && !Reaches(t, input, Logout);
    var words := Words(input.line);
    if words != [] && Lookup(words[0]).Some? {
      assert !Reaches(t, input, Lookup(words[0]).value);
    }
  }

  // ---------------------------------------------------------------- lists

  /** A list in ascending order with each name once. */
  ghost predicate Lists(names: seq<Bytes>, of: set<Bytes>) {
    && (forall name :: name in names <==> name in of)
    && (forall i, j | 0 <= i < j < |names| :: LexLe(names[i], names[j]) && names[i] != names[j])
  }

  lemma InOrderLists(keys: set<Bytes>)
    ensures Lists(KeysInOrder(keys), keys)
  {
    hide KeysInOrder, LexLe;
    KeysInOrderSorted(keys);
  }

  /** list_groups lists the groups; list_requests, for the owner, the waiting users; list_files, for members, the
      files of the group, in hex; each in ascending order, once. */
  lemma ListsExact(p: Primitives, t: Tracker, input: Input, command: Command) returns (r: Request)
    requires Inv(t) && Reaches(t, input, command)
    ensures Carries(t, input, command, r)
    ensures var response := ResultOf(p, t, input).response;
            && (command.ListGroups? ==> response.Listing? && Lists(response.words, t.groups.Keys))
            && (command.ListRequests? && IsOwner(t, r.args[0], r.user) ==>
                  response.Listing? && Lists(response.words, t.groups[r.args[0]].pending))
            && (command.ListFiles? && IsMember(t, r.args[0], r.user) ==>
                  exists names :: Lists(names, t.groups[r.args[0]].files.Keys) && response == Listing(HexNames(names)))
  {
    hide Inv, Lookup, Words, Apply, KeysInOrder, LexLe, FromHex, Accesses, Hash, Verify, ParseUpload, Lists, Says,
      Issues, Args;
    r := ReachesReply(p, t, input, command);
    InOrderLists(t.groups.Keys);
    if (command.ListRequests? || command.ListFiles?) && r.args[0] in t.groups {
      InOrderLists(t.groups[r.args[0]].pending);
      InOrderLists(t.groups[r.args[0]].files.Keys);
    }
  }

  /** A list reply read back word by word. */
  lemma {:induction false} ListingReadsBack(words: seq<Bytes>)
    requires forall word | word in words :: IsWord(word)
    ensures ListingText(words) == if words == [] then [] else [' '] + Join(words, ' ')
  {
    if |words| > 1 {
      assert forall word | word in words[1..] :: word in words;
      ListingReadsBack(words[1..]);
      var rest := Join(words[1..], ' ');
      Regroup([' '], words[0], [' '] + rest);
      Regroup(words[0], [' '], rest);
    } else if |words| == 1 {
      assert words[1..] == [] && [' '] + words[0] + [] == [' '] + words[0];
    }
  }

  lemma ListRoundTrip(words: seq<Bytes>)
    requires forall word | word in words :: IsWord(word)
    ensures Words(Listing(words).Text()) == [B("OK")] + words
  {
    hide Words, Join, ListingText;
    ListingReadsBack(words);
    assert IsWord(B("OK")) by {
      assert B("OK")[0] == 'O' && B("OK")[1] == 'K';
    }
    if words == [] {
      assert B("OK") + [] == B("OK");
      WordsOne(B("OK"));
    } else {
      Regroup(B("OK"), [' '], Join(words, ' '));
      WordsCons(B("OK"), Join(words, ' '));
      WordsJoin(words);
    }
  }

  // ---------------------------------------------------------------- reading an upload

  /** An upload line is taken exactly when its eight fields parse to a named file, valid metadata, an endpoint and a
      32-byte key, and it is then exactly that. */
  lemma UploadExact(args: seq<Bytes>, upload: Upload)
    ensures ParseUpload(args) == Some(upload) <==>
              && |args| == 8 && FromHex(args[1]) == Some(upload.name) && upload.name != []
              && ParseU64(args[2]) == Some(upload.metadata.size) && args[3] == upload.metadata.fullHash
              && ParsePieceHashList(args[4]) == upload.metadata.pieceHashes && upload.metadata.Valid()
              && Endpoints.Parse(args[5] + [':'] + args[6]) == Some(upload.seeder.endpoint)
              && FromHex(args[7]) == Some(upload.seeder.peerKey) && |upload.seeder.peerKey| == 32
  {
    hide FromHex, ParseU64, ParsePieceHashList, FileMetadata.Valid, Endpoints.Parse;
  }

  // ---------------------------------------------------------------- what is said

  /** A success is told with OK and what was done, a refusal with ERR and why, a wrong number of arguments with the
      usage of that very command. */
  lemma ReplyText(success: Success, refusal: Refusal, command: Command)
    ensures Ok(success).Text() == B("OK " + success.Text()) && Err(refusal).Text() == B("ERR " + refusal.Text())
    ensures WrongUsage(command).Text() == "usage: " + command.Usage()
  {
    hide Success.Text, Command.Usage, B;
    UsageText(command);
  }

  lemma UsageText(command: Command)
    ensures WrongUsage(command).Text() == "usage: " + command.Usage()
  {
    hide Command.Usage;
  }

  /** The words that the tests of the tracker expect after a success. */
  lemma ExpectedSuccesses()
    ensures UserCreated.Text() == "user created" && LoggedIn.Text() == "logged in"
    ensures GroupCreated.Text() == "group created" && JoinRequested.Text() == "join requested"
    ensures RequestAccepted.Text() == "request accepted" && MemberRemoved.Text() == "member removed"
    ensures FileShared.Text() == "file shared"
  {
  }

  /** The words that the tests of the tracker expect when a command or an account is refused. */
  lemma ExpectedRefusals()
    ensures EmptyCommand.Text() == "empty command" && UnknownCommand.Text() == "unknown command"
    ensures LoginRequired.Text() == "login required" && NotLoggedIn.Text() == "not logged in"
    ensures InvalidPassword.Text() == "invalid password" && NoSuchUser.Text() == "no such user"
  {
    hide Command.Usage;
  }

  /** The words that they expect when a member, or somebody who is none, is refused. */
  lemma ExpectedMemberRefusals()
    ensures NotGroupMember.Text() == "not a group member" && NotMember.Text() == "not a member"
    ensures AlreadyPending.Text() == "request already pending" && OwnerCannotLeave.Text() == "owner cannot leave group"
  {
    hide Command.Usage;
  }

  /** The words that they expect about what only an owner may do. */
  lemma ExpectedOwnerRefusals()
    ensures OnlyOwnerAccepts.Text() == "only owner may accept requests"
    ensures OnlyOwnerLists.Text() == "only owner may list requests"
    ensures OnlyOwnerRemoves.Text() == "only owner may remove members"
  {
    hide Command.Usage;
  }
}
