/** Exactly what each command does: the tracker's state as relations (who is registered, logged in, waiting, a member,
    sharing), and for each of them when a tuple is there after a command (tracker/state/tracker_state.cpp). */
module TrackerEffects {
  import opened Text
  import opened Order
  import opened Password
  import opened TrackerModel
  import opened TrackerLaws

  datatype Input = Input(session: U64, line: Bytes, context: ApplyContext)

  ghost function After(p: Primitives, t: Tracker, input: Input): Tracker {
    Apply(p, t, input.session, input.line, input.context).tracker
  }

  /** In state `t`, `input` is this command with these arguments from a session of `user`. */
  ghost predicate Issues(t: Tracker, input: Input, user: Bytes, command: Command, args: seq<Bytes>) {
    var words := Words(input.line);
    && words != [] && Lookup(words[0]) == Some(command) && words[1..] == args
    && input.session in t.sessions && t.sessions[input.session] == user
  }

  ghost predicate IsMember(t: Tracker, group: Bytes, user: Bytes) {
    group in t.groups && user in t.groups[group].members
  }

  ghost predicate IsPending(t: Tracker, group: Bytes, user: Bytes) {
    group in t.groups && user in t.groups[group].pending
  }

  /** The same groups, with the same owner, members and waiting users. */
  ghost predicate SameRoster(t: Tracker, t': Tracker) {
    && t'.groups.Keys == t.groups.Keys
    && forall name | name in t.groups ::
         && t'.groups[name].members == t.groups[name].members && t'.groups[name].pending == t.groups[name].pending
         && t'.groups[name].owner == t.groups[name].owner
  }

  lemma AccountsRoster(p: Primitives, t: Tracker, command: Command, r: Request)
    requires command.Accepts(r.args) && (command.CreateUser? || command.Login? || command.Logout?)
    ensures SameRoster(t, Handle(p, t, command, r).tracker)
  {
    hide Hash, Verify, ParseUpload, FromHex, KeysInOrder, Accesses;
  }

  lemma FilesRoster(p: Primitives, t: Tracker, command: Command, r: Request)
    requires command.Accepts(r.args) && (command.UploadFile? || command.StopShare?)
    ensures SameRoster(t, Handle(p, t, command, r).tracker)
  {
    hide Hash, Verify, ParseUpload, FromHex, KeysInOrder, Accesses;
  }

  /** The line is this command with these arguments, from whatever session. */
  predicate Says(input: Input, command: Command, args: seq<Bytes>) {
    var words := Words(input.line);
    words != [] && Lookup(words[0]) == Some(command) && words[1..] == args
  }

  /** The words after the command. */
  function Args(input: Input): seq<Bytes> {
    if Words(input.line) == [] then [] else Words(input.line)[1..]
  }

  function RequestOf(t: Tracker, input: Input): Request
    requires Words(input.line) != []
  {
    Request(input.session, UserOf(t, input.session), Words(input.line)[1..], input.context)
  }

  /** A command that reaches its handler. */
  ghost predicate Reaches(t: Tracker, input: Input, command: Command) {
    && Words(input.line) != [] && Lookup(Words(input.line)[0]) == Some(command)
    && command.Accepts(Words(input.line)[1..]) && (command.NeedsLogin() ==> UserOf(t, input.session) != [])
  }

  /** The request that `command` is handled with, and that nothing else is being said. */
  ghost predicate Carries(t: Tracker, input: Input, command: Command, r: Request) {
    && r.session == input.session && r.context == input.context && r.user == UserOf(t, r.session) &&
       r.args == Args(input)
    && command.Accepts(r.args) && (command.NeedsLogin() ==> r.user != [])
    && (forall other, args :: Says(input, other, args) <==> other == command && args == r.args)
    && (forall user, other, args :: Issues(t, input, user, other, args) <==>
          other == command && args == r.args && r.session in t.sessions && t.sessions[r.session] == user)
  }

  lemma ReachesHandler(p: Primitives, t: Tracker, input: Input, command: Command) returns (r: Request)
    requires Reaches(t, input, command)
    ensures Carries(t, input, command, r) && After(p, t, input) == Handle(p, t, command, r).tracker
  {
    hide Handle, Lookup, Words;
    r := RequestOf(t, input);
  }

  lemma NotReached(p: Primitives, t: Tracker, input: Input)
    requires forall command :: !Reaches(t, input, command)
    ensures After(p, t, input) == t
  {
    hide Handle, Lookup;
    var words := Words(input.line);
    if words != [] && Lookup(words[0]).Some? {
      assert !Reaches(t, input, Lookup(words[0]).value);
    }
  }

  // ---------------------------------------------------------------- members and waiting users

  ghost predicate Departs(t: Tracker, input: Input, group: Bytes, user: Bytes)
    requires group in t.groups
  {
    && user != t.groups[group].owner
    && (Issues(t, input, user, LeaveGroup, [group]) ||
       Issues(t, input, t.groups[group].owner, RemoveMember, [group, user]))
  }

  ghost predicate Accepted(t: Tracker, input: Input, group: Bytes, user: Bytes) {
    IsPending(t, group, user) && Issues(t, input, t.groups[group].owner, AcceptRequest, [group, user])
  }

  ghost predicate Founds(t: Tracker, input: Input, group: Bytes, user: Bytes) {
    group !in t.groups && Issues(t, input, user, CreateGroup, [group])
  }

  ghost predicate Asks(t: Tracker, input: Input, group: Bytes, user: Bytes) {
    group in t.groups && !IsMember(t, group, user) && Issues(t, input, user, JoinGroup, [group])
  }

  /** The roster of one group after a command, from the roster before. */
  ghost predicate RosterExact(t: Tracker, input: Input, t': Tracker, group: Bytes, user: Bytes) {
    && (IsMember(t', group, user) <==>
          (IsMember(t, group, user) && !Departs(t, input, group, user)) || Accepted(t, input, group, user) ||
            Founds(t, input, group, user))
    && (IsPending(t', group, user) <==>
          (IsPending(t, group, user) && !Accepted(t, input, group, user)) || Asks(t, input, group, user))
    && (group in t.groups ==> group in t'.groups && t'.groups[group].owner == t.groups[group].owner)
    && (group in t'.groups && t'.groups[group].owner == user <==>
          (group in t.groups && t.groups[group].owner == user) || Founds(t, input, group, user))
  }

  lemma FoundRoster(t: Tracker, input: Input, r: Request, group: Bytes, user: Bytes)
    requires Carries(t, input, CreateGroup, r)
    ensures RosterExact(t, input, HandleCreateGroup(t, r).tracker, group, user)
  {
    hide Says, Issues;
  }

  lemma JoinRoster(t: Tracker, input: Input, r: Request, group: Bytes, user: Bytes)
    requires Carries(t, input, JoinGroup, r)
    ensures RosterExact(t, input, HandleJoinGroup(t, r).tracker, group, user)
  {
    hide Says, Issues;
  }

  lemma AcceptRoster(t: Tracker, input: Input, r: Request, group: Bytes, user: Bytes)
    requires Carries(t, input, AcceptRequest, r)
    ensures RosterExact(t, input, HandleAcceptRequest(t, r).tracker, group, user)
  {
    hide Says, Issues;
    assert r.args == [r.args[0], r.args[1]];
  }

  lemma LeaveRoster(t: Tracker, input: Input, r: Request, group: Bytes, user: Bytes)
    requires Carries(t, input, LeaveGroup, r)
    ensures RosterExact(t, input, HandleLeaveGroup(t, r).tracker, group, user)
  {
    hide Says, Issues, RemoveShares;
  }

  lemma RemoveRoster(t: Tracker, input: Input, r: Request, group: Bytes, user: Bytes)
    requires Carries(t, input, RemoveMember, r)
    ensures RosterExact(t, input, HandleRemoveMember(t, r).tracker, group, user)
  {
    hide Says, Issues, RemoveShares;
    assert r.args == [r.args[0], r.args[1]];
  }

  lemma NoRosterCommand(t: Tracker, input: Input, command: Command, r: Request, group: Bytes, user: Bytes)
    requires Carries(t, input, command, r)
    requires !command.CreateGroup? && !command.JoinGroup? && !command.AcceptRequest? && !command.LeaveGroup? &&
             !command.RemoveMember?
    ensures !Accepted(t, input, group, user) && !Founds(t, input, group, user) && !Asks(t, input, group, user)
    ensures group in t.groups ==> !Departs(t, input, group, user)
  {
    hide Says, Issues;
  }

  lemma KeptRoster(t: Tracker, input: Input, command: Command, r: Request, t': Tracker, group: Bytes, user: Bytes)
    requires Carries(t, input, command, r) && SameRoster(t, t')
    requires !command.CreateGroup? && !command.JoinGroup? && !command.AcceptRequest? && !command.LeaveGroup? &&
             !command.RemoveMember?
    ensures RosterExact(t, input, t', group, user)
  {
    hide Accepted, Founds, Asks, Departs, Carries;
    NoRosterCommand(t, input, command, r, group, user);
    assert group in t.groups.Keys <==> group in t'.groups.Keys;
  }

  lemma HandledRoster(p: Primitives, t: Tracker, input: Input, command: Command, r: Request, group: Bytes, user: Bytes)
    requires Carries(t, input, command, r)
    ensures RosterExact(t, input, Handle(p, t, command, r).tracker, group, user)
  {
    hide Says, Issues, RosterExact, SameRoster, HandleCreateUser, HandleLogin, HandleLogout, HandleCreateGroup,
      HandleJoinGroup, HandleLeaveGroup, HandleAcceptRequest, HandleRemoveMember, HandleUploadFile, HandleStopShare;
    match command
    case CreateGroup => FoundRoster(t, input, r, group, user);
    case JoinGroup => JoinRoster(t, input, r, group, user);
    case AcceptRequest => AcceptRoster(t, input, r, group, user);
    case LeaveGroup => LeaveRoster(t, input, r, group, user);
    case RemoveMember => RemoveRoster(t, input, r, group, user);
    case CreateUser | Login | Logout =>
      AccountsRoster(p, t, command, r);
      KeptRoster(t, input, command, r, Handle(p, t, command, r).tracker, group, user);
    case UploadFile | StopShare =>
      FilesRoster(p, t, command, r);
      KeptRoster(t, input, command, r, Handle(p, t, command, r).tracker, group, user);
    case ListGroups | ListRequests | ListFiles | DownloadFile =>
      ReadersRoster(p, t, command, r);
      KeptRoster(t, input, command, r, Handle(p, t, command, r).tracker, group, user);
  }

  lemma ReadersRoster(p: Primitives, t: Tracker, command: Command, r: Request)
    requires command.Accepts(r.args) &&
             (command.ListGroups? || command.ListRequests? || command.ListFiles? || command.DownloadFile?)
    ensures Handle(p, t, command, r).tracker == t && SameRoster(t, t)
  {
    hide FromHex, KeysInOrder, Accesses;
  }

  /** A user is a member after a command exactly when they were and it is not their leaving or their removal, or the
      owner accepts them, or they found the group; they wait exactly when they did and are not accepted,
      or they ask. */
  lemma MembershipExact(p: Primitives, t: Tracker, input: Input, group: Bytes, user: Bytes)
    requires Inv(t)
    ensures RosterExact(t, input, After(p, t, input), group, user)
  {
    hide Inv, Lookup, Words, Apply, Handle, RosterExact;
    if command :| Reaches(t, input, command) {
      var r := ReachesHandler(p, t, input, command);
      HandledRoster(p, t, input, command, r, group, user);
    } else {
      NotReached(p, t, input);
      RosterUntouched(t, input, group, user);
    }
  }

  /** Nothing is issued that would be taken. */
  lemma NothingIssued(t: Tracker, input: Input)
    requires Inv(t) && forall command :: !Reaches(t, input, command)
    ensures forall user, command, args | Issues(t, input, user, command, args) :: !command.Accepts(args)
  {
    hide Lookup, Words, GroupOk;
    forall user, command, args | Issues(t, input, user, command, args) ensures !command.Accepts(args) {
      assert !Reaches(t, input, command);
    }
  }

  lemma RosterUntouched(t: Tracker, input: Input, group: Bytes, user: Bytes)
    requires Inv(t) && forall command :: !Reaches(t, input, command)
    ensures RosterExact(t, input, t, group, user)
  {
    hide Issues, Inv, Reaches;
    NothingIssued(t, input);
  }

  // ---------------------------------------------------------------- users and sessions

  /** The login that binds `session` to `user`. */
  ghost predicate LogsIn(p: Primitives, t: Tracker, input: Input, session: U64, user: Bytes) {
    && input.session !in t.sessions && user in t.users && session != 0 && session !in t.sessions
    && session == (if input.session == 0 then input.context.newSession else input.session)
    && exists password :: Says(input, Login, [user, password]) && Verify(p.kdf, password, t.users[user])
  }

  ghost predicate Enrols(p: Primitives, t: Tracker, input: Input, user: Bytes, stored: Bytes) {
    user !in t.users && stored != [] &&
    exists password :: Says(input, CreateUser, [user, password]) && stored == Hash(p.kdf, password, input.context.salt)
  }

  ghost predicate AccountsExact(p: Primitives, t: Tracker, input: Input, t': Tracker) {
    && (forall session: U64, user ::
          (session in t'.sessions && t'.sessions[session] == user) <==>
          (session in t.sessions && t.sessions[session] == user &&
            !(session == input.session && Says(input, Logout, [])))
          || LogsIn(p, t, input, session, user))
    && (forall user, stored ::
          (user in t'.users && t'.users[user] == stored) <==>
          (user in t.users && t.users[user] == stored) || Enrols(p, t, input, user, stored))
  }

  lemma RegisterAccounts(p: Primitives, t: Tracker, input: Input, r: Request)
    requires Carries(t, input, CreateUser, r)
    ensures AccountsExact(p, t, input, HandleCreateUser(p.kdf, t, r).tracker)
  {
    hide Says, Issues, Hash, Verify;
    assert r.args == [r.args[0], r.args[1]];
    assert Says(input, CreateUser, [r.args[0], r.args[1]]);
  }

  lemma LoginAccounts(p: Primitives, t: Tracker, input: Input, r: Request)
    requires Inv(t) && Carries(t, input, Login, r)
    ensures AccountsExact(p, t, input, HandleLogin(p.kdf, t, r).tracker)
  {
    hide Says, Issues, Hash, Verify, GroupOk;
    assert r.args == [r.args[0], r.args[1]];
    assert Says(input, Login, [r.args[0], r.args[1]]);
    assert r.session in t.sessions <==> r.user != [];
  }

  lemma LogoutAccounts(p: Primitives, t: Tracker, input: Input, r: Request)
    requires Inv(t) && Carries(t, input, Logout, r)
    ensures AccountsExact(p, t, input, HandleLogout(t, r).tracker)
  {
    hide Says, Issues, Hash, Verify, GroupOk, RemoveShares;
    assert r.session in t.sessions <==> r.user != [];
    assert Says(input, Logout, []);
  }

  lemma KeptAccounts(p: Primitives, t: Tracker, input: Input, command: Command, r: Request, t': Tracker)
    requires Carries(t, input, command, r) && !command.CreateUser? && !command.Login? && !command.Logout?
    requires t'.users == t.users && t'.sessions == t.sessions
    ensures AccountsExact(p, t, input, t')
  {
    hide Says, Issues, Hash, Verify;
  }

  lemma GroupCommandsKeepAccounts(p: Primitives, t: Tracker, command: Command, r: Request)
    requires command.Accepts(r.args) && !command.CreateUser? && !command.Login? && !command.Logout?
    ensures var t' := Handle(p, t, command, r).tracker; t'.users == t.users && t'.sessions == t.sessions
  {
    hide ParseUpload, FromHex, KeysInOrder, Accesses, RemoveShares;
  }

  lemma AccountsOf(p: Primitives, t: Tracker, input: Input, command: Command, r: Request)
    requires Inv(t) && Carries(t, input, command, r)
    ensures AccountsExact(p, t, input, Handle(p, t, command, r).tracker)
  {
    hide Says, Issues, AccountsExact, HandleCreateUser, HandleLogin, HandleLogout, HandleCreateGroup, HandleJoinGroup,
      HandleLeaveGroup, HandleAcceptRequest, HandleRemoveMember, HandleUploadFile, HandleStopShare, Inv;
    match command
    case CreateUser => RegisterAccounts(p, t, input, r);
    case Login => LoginAccounts(p, t, input, r);
    case Logout => LogoutAccounts(p, t, input, r);
    case _ =>
      GroupCommandsKeepAccounts(p, t, command, r);
      KeptAccounts(p, t, input, command, r, Handle(p, t, command, r).tracker);
  }

  /** A session is bound to a user after a command exactly when it was and this is not its logout, or this is a login
      with the right password into a session that was free; users and their stored passwords only ever get added. */
  lemma SessionsExact(p: Primitives, t: Tracker, input: Input)
    requires Inv(t)
    ensures AccountsExact(p, t, input, After(p, t, input))
  {
    hide Inv, Lookup, Words, Apply, Handle, AccountsExact;
    if command :| Reaches(t, input, command) {
      var r := ReachesHandler(p, t, input, command);
      AccountsOf(p, t, input, command, r);
    } else {
      NotReached(p, t, input);
      AccountsUntouched(p, t, input);
    }
  }

  lemma AccountsUntouched(p: Primitives, t: Tracker, input: Input)
    requires forall command :: !Reaches(t, input, command)
    ensures AccountsExact(p, t, input, t)
  {
    hide Lookup, Words, Hash, Verify;
    assert !Reaches(t, input, Login) && !Reaches(t, input, Logout) && !Reaches(t, input, CreateUser);
  }

  // ---------------------------------------------------------------- shares

  /** A user's record as a seeder of a file. */
  function ShareOf(t: Tracker, group: Bytes, file: Bytes, user: Bytes): Option<Seeder> {
    if group in t.groups && file in t.groups[group].files && user in t.groups[group].files[file].seeders then
      Some(t.groups[group].files[file].seeders[user])
    else None
  }

  ghost predicate Withdraws(t: Tracker, input: Input, group: Bytes, file: Bytes, user: Bytes)
    requires group in t.groups
  {
    || Issues(t, input, user, Logout, [])
    || Departs(t, input, group, user)
    || (Issues(t, input, user, StopShare, Args(input)) && |Args(input)| == 2 && Args(input)[0] == group &&
       FromHex(Args(input)[1]) == Some(file))
  }

  /** An upload_file that is taken: a member's, well formed, and of the same content if the file is listed. */
  ghost function Offered(t: Tracker, input: Input, group: Bytes, file: Bytes, user: Bytes): Option<Upload> {
    var args := Args(input);
    if Issues(t, input, user, UploadFile, args) && IsMember(t, group, user) && args != [] && args[0] == group then
      (match ParseUpload(args)
       case None => None
       case Some(upload) =>
         if upload.name != file ||
           (file in t.groups[group].files && t.groups[group].files[file].metadata != upload.metadata) then None
         else Some(upload))
    else None
  }

  ghost predicate SharesExact(t: Tracker, input: Input, t': Tracker, group: Bytes, file: Bytes, user: Bytes) {
    var upload, before := Offered(t, input, group, file, user), ShareOf(t, group, file, user);
    && ShareOf(t', group, file, user) ==
       (if upload.Some? then Some(upload.value.seeder)
        else if before.Some? && Withdraws(t, input, group, file, user) then None
        else before)
    && (upload.Some? && ShareOf(t', group, file, user).Some? ==>
       t'.groups[group].files[file].metadata == upload.value.metadata)
  }

  /** The same files everywhere; a new group has none. */
  ghost predicate SameFiles(t: Tracker, t': Tracker) {
    && (forall name | name in t.groups :: name in t'.groups && t'.groups[name].files == t.groups[name].files)
    && (forall name | name in t'.groups && name !in t.groups :: t'.groups[name].files == map[])
  }

  lemma QuietFiles(p: Primitives, t: Tracker, command: Command, r: Request)
    requires command.Accepts(r.args)
    requires !command.Logout? && !command.LeaveGroup? && !command.RemoveMember? && !command.StopShare? &&
             !command.UploadFile?
    ensures SameFiles(t, Handle(p, t, command, r).tracker)
  {
    hide Hash, Verify, HandleListRequests, HandleListFiles, HandleDownloadFile, HandleCreateGroup, HandleJoinGroup,
      HandleAcceptRequest;
    match command
    case ListGroups | ListRequests | ListFiles | DownloadFile => ReadersRoster(p, t, command, r);
    case CreateUser | Login =>
    case CreateGroup | JoinGroup => ArrivalFiles(t, r);
    case AcceptRequest => AcceptedFiles(t, r);
  }

  lemma ArrivalFiles(t: Tracker, r: Request)
    requires |r.args| == 1
    ensures SameFiles(t, HandleCreateGroup(t, r).tracker) && SameFiles(t, HandleJoinGroup(t, r).tracker)
  {
  }

  lemma AcceptedFiles(t: Tracker, r: Request)
    requires |r.args| == 2
    ensures SameFiles(t, HandleAcceptRequest(t, r).tracker)
  {
  }

  lemma NoWithdrawal(t: Tracker, input: Input, command: Command, r: Request, group: Bytes, file: Bytes, user: Bytes)
    requires Carries(t, input, command, r) && group in t.groups
    requires !command.Logout? && !command.LeaveGroup? && !command.RemoveMember? && !command.StopShare?
    ensures !Withdraws(t, input, group, file, user)
  {
    hide Says, Issues, Args, FromHex;
  }

  lemma NoOffer(t: Tracker, input: Input, command: Command, r: Request, group: Bytes, file: Bytes, user: Bytes)
    requires Carries(t, input, command, r) && !command.UploadFile?
    ensures Offered(t, input, group, file, user).None?
  {
    hide Says, Issues, Args, ParseUpload;
  }

  lemma KeptShares(t: Tracker, input: Input, command: Command, r: Request, t': Tracker, group: Bytes, file: Bytes,
                   user: Bytes)
    requires Carries(t, input, command, r) && SameFiles(t, t')
    requires !command.Logout? && !command.LeaveGroup? && !command.RemoveMember? && !command.StopShare? &&
             !command.UploadFile?
    ensures SharesExact(t, input, t', group, file, user)
  {
    hide Carries, Withdraws, Offered;
    NoOffer(t, input, command, r, group, file, user);
    if group in t.groups {
      NoWithdrawal(t, input, command, r, group, file, user);
    }
  }

  /** Group `group` loses the shares of `gone`, or nobody's if that is None; the rest stays. */
  ghost predicate Sheds(t: Tracker, t': Tracker, group: Bytes, gone: Option<Bytes>) {
    && (group in t'.groups <==> group in t.groups)
    && (group in t.groups ==>
          t'.groups[group].files ==
          if gone.Some? then RemoveShares(t.groups[group].files, gone.value) else t.groups[group].files)
  }

  lemma ShedShares(t: Tracker, input: Input, command: Command, r: Request, t': Tracker, group: Bytes,
                   gone: Option<Bytes>, file: Bytes, user: Bytes)
    requires Carries(t, input, command, r) && (command.Logout? || command.LeaveGroup? || command.RemoveMember?)
    requires Sheds(t, t', group, gone)
    requires ShareOf(t, group, file, user).Some? ==> (Withdraws(t, input, group, file, user) <==> gone == Some(user))
    ensures SharesExact(t, input, t', group, file, user)
  {
    hide Says, Issues, ParseUpload, FromHex, RemoveShares, Withdraws;
    if group in t.groups && gone.Some? {
      RemoveSharesExact(t.groups[group].files, gone.value, file, user);
    }
  }

  lemma LogoutShares(t: Tracker, input: Input, r: Request, group: Bytes, file: Bytes, user: Bytes)
    requires Inv(t) && Carries(t, input, Logout, r)
    ensures SharesExact(t, input, HandleLogout(t, r).tracker, group, file, user)
  {
    hide Says, Issues, ParseUpload, FromHex, RemoveShares, GroupOk, SharesExact;
    assert r.session in t.sessions <==> r.user != [];
    var gone := if r.user != [] then Some(r.user) else None;
    ShedShares(t, input, Logout, r, HandleLogout(t, r).tracker, group, gone, file, user);
  }

  lemma LeaveShares(t: Tracker, input: Input, r: Request, group: Bytes, file: Bytes, user: Bytes)
    requires Inv(t) && Carries(t, input, LeaveGroup, r)
    ensures SharesExact(t, input, HandleLeaveGroup(t, r).tracker, group, file, user)
  {
    hide Says, Issues, ParseUpload, FromHex, RemoveShares, SharesExact, Inv, GroupOk;
    SharersAreMembers(t, group, file, user);
    var t' := HandleLeaveGroup(t, r).tracker;
    var leaves := r.args == [group] && group in t.groups && t.groups[group].owner != r.user &&
      r.user in t.groups[group].members;
    ShedShares(t, input, LeaveGroup, r, t', group, if leaves then Some(r.user) else None, file, user);
  }

  lemma RemovedShares(t: Tracker, input: Input, r: Request, group: Bytes, file: Bytes, user: Bytes)
    requires Inv(t) && Carries(t, input, RemoveMember, r)
    ensures SharesExact(t, input, HandleRemoveMember(t, r).tracker, group, file, user)
  {
    hide Says, Issues, ParseUpload, FromHex, RemoveShares, SharesExact, Inv, GroupOk;
    SharersAreMembers(t, group, file, user);
    assert r.args == [r.args[0], r.args[1]];
    var t', gone := HandleRemoveMember(t, r).tracker, r.args[1];
    var removes := r.args[0] == group && group in t.groups && t.groups[group].owner == r.user && gone != r.user &&
      gone in t.groups[group].members;
    ShedShares(t, input, RemoveMember, r, t', group, if removes then Some(gone) else None, file, user);
  }

  lemma SharersAreMembers(t: Tracker, group: Bytes, file: Bytes, user: Bytes)
    requires Inv(t)
    ensures ShareOf(t, group, file, user).Some? ==>
            user in t.groups[group].members && t.groups[group].files[file].metadata.fullHash != []
  {
    if ShareOf(t, group, file, user).Some? {
      assert GroupOk(t.users.Keys, Live(t), t.groups[group]);
      assert FileOk(t.groups[group].members, Live(t), file, t.groups[group].files[file]);
    }
  }

  lemma StoppedShares(t: Tracker, input: Input, r: Request, group: Bytes, file: Bytes, user: Bytes)
    requires Carries(t, input, StopShare, r)
    ensures SharesExact(t, input, HandleStopShare(t, r).tracker, group, file, user)
  {
    hide Says, Issues, Args, Withdraws, Offered, FromHex;
    NoOffer(t, input, StopShare, r, group, file, user);
    if group in t.groups {
      StopWithdraws(t, input, r, group, file, user);
      if file in t.groups[group].files {
        var seeders := t.groups[group].files[file].seeders;
        assert user in seeders - {r.user} <==> user in seeders && user != r.user;
      }
    }
  }

  lemma StopWithdraws(t: Tracker, input: Input, r: Request, group: Bytes, file: Bytes, user: Bytes)
    requires Carries(t, input, StopShare, r) && group in t.groups
    ensures Withdraws(t, input, group, file, user) <==>
            user == r.user && r.args[0] == group && FromHex(r.args[1]) == Some(file)
  {
    hide Says, Issues, Args, FromHex;
  }

  lemma UploadedShares(t: Tracker, input: Input, r: Request, group: Bytes, file: Bytes, user: Bytes)
    requires Inv(t) && Carries(t, input, UploadFile, r)
    ensures SharesExact(t, input, HandleUploadFile(t, r).tracker, group, file, user)
  {
    hide Carries, Withdraws, Offered, ParseUpload, Inv;
    OfferOf(t, input, r, group, file, user);
    UploadNeedsGroup(r.args);
    if group in t.groups {
      NoWithdrawal(t, input, UploadFile, r, group, file, user);
      ListedHashes(t, group);
    }
  }

  lemma UploadNeedsGroup(args: seq<Bytes>)
    ensures ParseUpload(args).Some? ==> args != []
  {
  }

  lemma OfferOf(t: Tracker, input: Input, r: Request, group: Bytes, file: Bytes, user: Bytes)
    requires Carries(t, input, UploadFile, r)
    ensures Offered(t, input, group, file, user) ==
            if user == r.user && r.args != [] && r.args[0] == group && IsMember(t, group, user)
               && ParseUpload(r.args).Some? && ParseUpload(r.args).value.name == file
               && (file in t.groups[group].files ==>
                  t.groups[group].files[file].metadata == ParseUpload(r.args).value.metadata)
            then ParseUpload(r.args) else None
  {
    hide Says, Issues, Args, ParseUpload;
  }

  lemma ListedHashes(t: Tracker, group: Bytes)
    requires Inv(t) && group in t.groups
    ensures forall name | name in t.groups[group].files :: t.groups[group].files[name].metadata.fullHash != []
  {
    assert GroupOk(t.users.Keys, Live(t), t.groups[group]);
    assert forall name | name in t.groups[group].files ::
      FileOk(t.groups[group].members, Live(t), name, t.groups[group].files[name]);
  }

  lemma HandledShares(p: Primitives, t: Tracker, input: Input, command: Command, r: Request, group: Bytes, file: Bytes,
                      user: Bytes)
    requires Inv(t) && Carries(t, input, command, r)
    ensures SharesExact(t, input, Handle(p, t, command, r).tracker, group, file, user)
  {
    hide Says, Issues, SharesExact, SameFiles, HandleCreateUser, HandleLogin, HandleLogout, HandleCreateGroup,
      HandleJoinGroup, HandleLeaveGroup, HandleAcceptRequest, HandleRemoveMember, HandleUploadFile, HandleStopShare,
      Inv;
    match command
    case Logout => LogoutShares(t, input, r, group, file, user);
    case LeaveGroup => LeaveShares(t, input, r, group, file, user);
    case RemoveMember => RemovedShares(t, input, r, group, file, user);
    case StopShare => StoppedShares(t, input, r, group, file, user);
    case UploadFile => UploadedShares(t, input, r, group, file, user);
    case _ =>
      QuietFiles(p, t, command, r);
      KeptShares(t, input, command, r, Handle(p, t, command, r).tracker, group, file, user);
  }

  /** A user's share after a command is that of their upload_file if it is one that is taken, gone if it is their
      logout, departure or stop_share, and otherwise as before. */
  lemma SharingExact(p: Primitives, t: Tracker, input: Input, group: Bytes, file: Bytes, user: Bytes)
    requires Inv(t)
    ensures SharesExact(t, input, After(p, t, input), group, file, user)
  {
    hide Inv, Lookup, Words, Apply, Handle, SharesExact;
    if command :| Reaches(t, input, command) {
      var r := ReachesHandler(p, t, input, command);
      HandledShares(p, t, input, command, r, group, file, user);
    } else {
      NotReached(p, t, input);
      SharesUntouched(t, input, group, file, user);
    }
  }

  lemma SharesUntouched(t: Tracker, input: Input, group: Bytes, file: Bytes, user: Bytes)
    requires Inv(t) && forall command :: !Reaches(t, input, command)
    ensures SharesExact(t, input, t, group, file, user)
  {
    hide Issues, Inv, Reaches, ParseUpload, FromHex, Args;
    NothingIssued(t, input);
  }
}
