/** The tracker as the program writes it (tracker/state/tracker_state.cpp): three maps updated in
    place by one handler per command. Every method is proved to leave exactly the state, and give
    exactly the reply, of the corresponding function in TrackerModel. */
module TrackerStateClass {
  import opened Text
  import opened Tickets
  import opened Order
  import opened Password
  import opened TrackerModel

  /** Group::removeSharesOf: erases while walking the files. */
  method RemoveSharesOf(files: map<Bytes, SharedFile>, user: Bytes) returns (left: map<Bytes, SharedFile>)
    ensures left == RemoveShares(files, user)
  {
    left := files;
    var ahead := files.Keys;
    while ahead != {}
      invariant ahead <= files.Keys
      invariant forall name | name in ahead :: name in left && left[name] == files[name]
      invariant forall name | name !in ahead ::
                  (name in left <==> name in RemoveShares(files, user))
                  && (name in left ==> left[name] == RemoveShares(files, user)[name])
    {
      var name :| name in ahead;
      ahead := ahead - {name};
      var seeders := left[name].seeders - {user};
      assert seeders.Keys == files[name].seeders.Keys - {user};
      if seeders == map[] {
        left := left - {name};
      } else {
        assert seeders.Keys != {};
        left := left[name := left[name].(seeders := seeders)];
      }
    }
  }

  method HexWords(names: seq<Bytes>) returns (words: seq<Bytes>)
    ensures words == HexNames(names)
  {
    hide ToHex;
    words := [];
    for i := 0 to |names|
      invariant |words| == i && forall k | 0 <= k < i :: words[k] == ToHex(names[k])
    {
      var hex := EncodeHex(names[i]);
      words := words + [hex];
    }
  }

  /** The loop of download_file: one access per seeder, giving up on the first key that fails. */
  method IssueTickets(hmac: Hmac, ticket: PeerTicket, seeders: map<Bytes, Seeder>, order: seq<Bytes>)
    returns (ok: bool, accesses: seq<SeederAccess>)
    requires forall user | user in order :: user in seeders
    ensures ok <==> forall access | access in Accesses(hmac, ticket, seeders, order) :: access.key != []
    ensures ok ==> accesses == Accesses(hmac, ticket, seeders, order)
  {
    hide PeerTicket.Encode, PeerTicket.Key;
    ghost var all := Accesses(hmac, ticket, seeders, order);
    accesses := [];
    for i := 0 to |order|
      invariant accesses == all[..i]
      invariant forall access | access in accesses :: access.key != []
    {
      var seeder := seeders[order[i]];
      var access := SeederAccess(seeder.endpoint, ticket.Encode(), ticket.Key(hmac, seeder.peerKey));
      assert access == all[i] && access in all;
      if access.key == [] {
        return false, accesses;
      }
      accesses := accesses + [access];
    }
    return true, accesses;
  }

  class TrackerState {
    var users: map<Bytes, Bytes>
    var sessions: map<U64, Bytes>
    var groups: map<Bytes, Group>

    ghost function Model(): Tracker
      reads this
    {
      Tracker(users, sessions, groups)
    }

    constructor ()
      ensures Model() == EMPTY
    {
      users, sessions, groups := map[], map[], map[];
    }

    method Apply(p: Primitives, session: U64, line: Bytes, context: ApplyContext) returns (result: CommandResult)
      modifies this
      ensures Outcome(Model(), result) == TrackerModel.Apply(p, old(Model()), session, line, context)
    {
      hide Handle, Lookup;
      var words := ReadWords(line);
      if words == [] {
        return CommandResult(Err(EmptyCommand), session);
      }
      var found := Lookup(words[0]);
      if found.None? {
        return CommandResult(Err(UnknownCommand), session);
      }
      var command := found.value;
      var user := if session in sessions then sessions[session] else [];
      var r := Request(session, user, words[1..], context);
      if command.NeedsLogin() && r.user == [] {
        return CommandResult(Err(LoginRequired), session);
      }
      if !command.Accepts(r.args) {
        return CommandResult(Err(WrongUsage(command)), session);
      }
      result := Dispatch(p, command, r);
    }

    /** The call through the command table's handler pointer. */
    method Dispatch(p: Primitives, command: Command, r: Request) returns (result: CommandResult)
      requires command.Accepts(r.args)
      modifies this
      ensures Outcome(Model(), result) == Handle(p, old(Model()), command, r)
    {
      hide HandleCreateUser, HandleLogin, HandleLogout, HandleCreateGroup, HandleJoinGroup, HandleLeaveGroup,
        HandleListRequests, HandleAcceptRequest, HandleRemoveMember, HandleUploadFile, HandleListFiles,
        HandleDownloadFile, HandleStopShare;
      match command
      case CreateUser => result := CreateUser(p.kdf, r);
      case Login => result := Login(p.kdf, r);
      case Logout => result := Logout(r);
      case CreateGroup => result := CreateGroup(r);
      case JoinGroup => result := JoinGroup(r);
      case LeaveGroup => result := LeaveGroup(r);
      case ListGroups => result := ListGroups(r);
      case ListRequests => result := ListRequests(r);
      case AcceptRequest => result := AcceptRequest(r);
      case RemoveMember => result := RemoveMember(r);
      case UploadFile => result := UploadFile(r);
      case ListFiles => result := ListFiles(r);
      case DownloadFile => result := DownloadFile(p.hmac, r);
      case StopShare => result := StopShare(r);
    }

    method CreateUser(kdf: Kdf, r: Request) returns (result: CommandResult)
      requires |r.args| == 2
      modifies this`users
      ensures Outcome(Model(), result) == HandleCreateUser(kdf, old(Model()), r)
    {
      var name := r.args[0];
      if name in users {
        return CommandResult(Err(UserExists), r.session);
      }
      var stored := Hash(kdf, r.args[1], r.context.salt);
      if stored == [] {
        return CommandResult(Err(RandomFailed), r.session);
      }
      users := users[name := stored];
      return CommandResult(Ok(UserCreated), r.session);
    }

    method Login(kdf: Kdf, r: Request) returns (result: CommandResult)
      requires |r.args| == 2
      modifies this`sessions
      ensures Outcome(Model(), result) == HandleLogin(kdf, old(Model()), r)
    {
      var name := r.args[0];
      if r.user != [] {
        return CommandResult(Err(AlreadyLoggedIn), r.session);
      }
      if name !in users {
        return CommandResult(Err(NoSuchUser), r.session);
      }
      if !Verify(kdf, r.args[1], users[name]) {
        return CommandResult(Err(InvalidPassword), r.session);
      }
      var session := r.session;
      if session == 0 {
        session := r.context.newSession;
        if session == 0 || session in sessions {
          return CommandResult(Err(RandomFailed), 0);
        }
      }
      sessions := sessions[session := name];
      return CommandResult(Ok(LoggedIn), session);
    }

    method Logout(r: Request) returns (result: CommandResult)
      modifies this`groups, this`sessions
      ensures Outcome(Model(), result) == HandleLogout(old(Model()), r)
    {
      if r.user == [] {
        return CommandResult(Err(NotLoggedIn), r.session);
      }
      var ahead := groups.Keys;
      while ahead != {}
        invariant ahead <= groups.Keys == old(groups).Keys
        invariant sessions == old(sessions)
        invariant forall name | name in ahead :: groups[name] == old(groups)[name]
        invariant forall name | name in groups.Keys - ahead ::
                    groups[name] == WithoutSharesOf(old(groups)[name], r.user)
      {
        var name :| name in ahead;
        var files := RemoveSharesOf(groups[name].files, r.user);
        groups := groups[name := groups[name].(files := files)];
        ahead := ahead - {name};
      }
      assert groups == HandleLogout(old(Model()), r).tracker.groups;
      sessions := sessions - {r.session};
      return CommandResult(Ok(LoggedOut), 0);
    }

    method CreateGroup(r: Request) returns (result: CommandResult)
      requires |r.args| == 1
      modifies this`groups
      ensures Outcome(Model(), result) == HandleCreateGroup(old(Model()), r)
    {
      var name := r.args[0];
      if name in groups {
        return CommandResult(Err(GroupExists), r.session);
      }
      var group := Group([], {}, {}, map[]);
      group := group.(owner := r.user);
      group := group.(members := group.members + {r.user});
      assert group.members == {r.user};
      groups := groups[name := group];
      return CommandResult(Ok(GroupCreated), r.session);
    }

    method JoinGroup(r: Request) returns (result: CommandResult)
      requires |r.args| == 1
      modifies this`groups
      ensures Outcome(Model(), result) == HandleJoinGroup(old(Model()), r)
    {
      var name := r.args[0];
      if name !in groups {
        return CommandResult(Err(NoSuchGroup), r.session);
      }
      if r.user in groups[name].members {
        return CommandResult(Err(AlreadyMember), r.session);
      }
      if r.user in groups[name].pending {
        return CommandResult(Err(AlreadyPending), r.session);
      }
      groups := groups[name := groups[name].(pending := groups[name].pending + {r.user})];
      return CommandResult(Ok(JoinRequested), r.session);
    }

    method LeaveGroup(r: Request) returns (result: CommandResult)
      requires |r.args| == 1
      modifies this`groups
      ensures Outcome(Model(), result) == HandleLeaveGroup(old(Model()), r)
    {
      var name := r.args[0];
      if name !in groups {
        return CommandResult(Err(NoSuchGroup), r.session);
      }
      if groups[name].owner == r.user {
        return CommandResult(Err(OwnerCannotLeave), r.session);
      }
      if r.user !in groups[name].members {
        return CommandResult(Err(NotMember), r.session);
      }
      groups := groups[name := groups[name].(members := groups[name].members - {r.user})];
      var files := RemoveSharesOf(groups[name].files, r.user);
      groups := groups[name := groups[name].(files := files)];
      return CommandResult(Ok(LeftGroup), r.session);
    }

    method ListGroups(r: Request) returns (result: CommandResult)
      ensures Outcome(Model(), result) == Reply(Model(), r, Listing(KeysInOrder(groups.Keys)))
    {
      var names := InKeyOrder(groups.Keys);
      return CommandResult(Listing(names), r.session);
    }

    method ListRequests(r: Request) returns (result: CommandResult)
      requires |r.args| == 1
      ensures Outcome(Model(), result) == HandleListRequests(Model(), r)
    {
      var name := r.args[0];
      if name !in groups {
        return CommandResult(Err(NoSuchGroup), r.session);
      }
      if groups[name].owner != r.user {
        return CommandResult(Err(OnlyOwnerLists), r.session);
      }
      var waiting := InKeyOrder(groups[name].pending);
      return CommandResult(Listing(waiting), r.session);
    }

    method AcceptRequest(r: Request) returns (result: CommandResult)
      requires |r.args| == 2
      modifies this`groups
      ensures Outcome(Model(), result) == HandleAcceptRequest(old(Model()), r)
    {
      var name, user := r.args[0], r.args[1];
      if name !in groups {
        return CommandResult(Err(NoSuchGroup), r.session);
      }
      if groups[name].owner != r.user {
        return CommandResult(Err(OnlyOwnerAccepts), r.session);
      }
      if user !in groups[name].pending {
        return CommandResult(Err(NoSuchRequest), r.session);
      }
      groups := groups[name := groups[name].(pending := groups[name].pending - {user})];
      groups := groups[name := groups[name].(members := groups[name].members + {user})];
      return CommandResult(Ok(RequestAccepted), r.session);
    }

    method RemoveMember(r: Request) returns (result: CommandResult)
      requires |r.args| == 2
      modifies this`groups
      ensures Outcome(Model(), result) == HandleRemoveMember(old(Model()), r)
    {
      var name, user := r.args[0], r.args[1];
      if name !in groups {
        return CommandResult(Err(NoSuchGroup), r.session);
      }
      if groups[name].owner != r.user {
        return CommandResult(Err(OnlyOwnerRemoves), r.session);
      }
      if user == groups[name].owner {
        return CommandResult(Err(OwnerCannotBeRemoved), r.session);
      }
      if user !in groups[name].members {
        return CommandResult(Err(NotMember), r.session);
      }
      groups := groups[name := groups[name].(members := groups[name].members - {user})];
      var files := RemoveSharesOf(groups[name].files, user);
      groups := groups[name := groups[name].(files := files)];
      return CommandResult(Ok(MemberRemoved), r.session);
    }

    method UploadFile(r: Request) returns (result: CommandResult)
      modifies this`groups
      ensures Outcome(Model(), result) == HandleUploadFile(old(Model()), r)
    {
      hide ParseUpload, FromHex;
      var groupName := if r.args == [] then [] else r.args[0];
      if groupName !in groups {
        return CommandResult(Err(NoSuchGroup), r.session);
      }
      if r.user !in groups[groupName].members {
        return CommandResult(Err(NotGroupMember), r.session);
      }
      var parsed := ParseUpload(r.args);
      if parsed.None? {
        return CommandResult(Err(InvalidUpload), r.session);
      }
      var Upload(name, metadata, seeder) := parsed.value;
      var files := groups[groupName].files;
      if name !in files {
        files := files[name := FileOrNew(files, name)];
      }
      if files[name].metadata.fullHash == [] {
        files := files[name := files[name].(metadata := metadata)];
      } else if files[name].metadata != metadata {
        groups := groups[groupName := groups[groupName].(files := files)];
        assert files == old(groups)[groupName].files[name := files[name]];
        return CommandResult(Err(ConflictingMetadata), r.session);
      }
      files := files[name := files[name].(seeders := files[name].seeders[r.user := seeder])];
      groups := groups[groupName := groups[groupName].(files := files)];
      assert files == old(groups)[groupName].files[name := files[name]];
      return CommandResult(Ok(FileShared), r.session);
    }

    method ListFiles(r: Request) returns (result: CommandResult)
      requires |r.args| == 1
      ensures Outcome(Model(), result) == HandleListFiles(Model(), r)
    {
      var name := r.args[0];
      if name !in groups {
        return CommandResult(Err(NoSuchGroup), r.session);
      }
      if r.user !in groups[name].members {
        return CommandResult(Err(NotGroupMember), r.session);
      }
      var names := InKeyOrder(groups[name].files.Keys);
      var words := HexWords(names);
      return CommandResult(Listing(words), r.session);
    }

    method DownloadFile(hmac: Hmac, r: Request) returns (result: CommandResult)
      requires |r.args| == 2
      ensures Outcome(Model(), result) == HandleDownloadFile(hmac, Model(), r)
    {
      hide FromHex, Accesses, KeysInOrder;
      var groupName := r.args[0];
      if groupName !in groups {
        return CommandResult(Err(NoSuchGroup), r.session);
      }
      if r.user !in groups[groupName].members {
        return CommandResult(Err(NotGroupMember), r.session);
      }
      var decoded := FromHex(r.args[1]);
      if decoded.None? {
        return CommandResult(Err(InvalidFileName), r.session);
      }
      var name := decoded.value;
      var files := groups[groupName].files;
      if name !in files || files[name].seeders == map[] {
        return CommandResult(Err(NoSeeders), r.session);
      }
      var metadata, seeders := files[name].metadata, files[name].seeders;
      var ticket := PeerTicket(r.user, groupName, name, r.context.now + LIFETIME_SECONDS);
      var order := InKeyOrder(seeders.Keys);
      var issued, accesses := IssueTickets(hmac, ticket, seeders, order);
      if !issued {
        return CommandResult(Err(TicketsFailed), r.session);
      }
      return CommandResult(Meta(metadata, accesses), r.session);
    }

    method StopShare(r: Request) returns (result: CommandResult)
      requires |r.args| == 2
      modifies this`groups
      ensures Outcome(Model(), result) == HandleStopShare(old(Model()), r)
    {
      hide FromHex;
      var groupName, decoded := r.args[0], FromHex(r.args[1]);
      if groupName !in groups || decoded.None? {
        return CommandResult(Err(InvalidGroupOrFile), r.session);
      }
      var name, files := decoded.value, groups[groupName].files;
      if name !in files || r.user !in files[name].seeders {
        return CommandResult(Err(NotSharing), r.session);
      }
      files := files[name := files[name].(seeders := files[name].seeders - {r.user})];
      if files[name].seeders == map[] {
        files := files - {name};
        assert files == old(groups)[groupName].files - {name};
      }
      groups := groups[groupName := groups[groupName].(files := files)];
      return CommandResult(Ok(SharingStopped), r.session);
    }
  }
}
