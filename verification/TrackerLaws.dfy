/** What every tracker command keeps, and what follows for every run from the empty tracker. */
module TrackerLaws {
  import opened Text
  import opened Metadata
  import opened Endpoints
  import opened Order
  import opened Password
  import opened TrackerModel

  // ---------------------------------------------------------------- the state invariant

  ghost predicate SeederOk(seeder: Seeder) {
    seeder.endpoint.Valid() && IsWord(seeder.endpoint.ip) && |seeder.peerKey| == 32
  }

  ghost predicate FileOk(members: set<Bytes>, live: set<Bytes>, name: Bytes, file: SharedFile) {
    && name != [] && file.metadata.Valid() && file.seeders.Keys != {}
    && file.seeders.Keys <= members * live
    && forall user | user in file.seeders ::
         SeederOk(file.seeders[user])
  }

  ghost predicate GroupOk(users: set<Bytes>, live: set<Bytes>, group: Group) {
    && group.owner in group.members
    && group.members <= users && group.pending <= users && group.members !! group.pending
    && forall name | name in group.files :: FileOk(group.members, live, name, group.files[name])
  }

  /** The users with a live session. */
  ghost function Live(t: Tracker): set<Bytes> {
    set session | session in t.sessions :: t.sessions[session]
  }

  ghost predicate Inv(t: Tracker) {
    && (forall user | user in t.users :: IsWord(user))
    && 0 !in t.sessions
    && (forall session | session in t.sessions :: t.sessions[session] in t.users)
    && (forall name | name in t.groups :: IsWord(name) && GroupOk(t.users.Keys, Live(t), t.groups[name]))
  }

  /** A request as Apply builds it: the session's user and whitespace-free arguments. */
  ghost predicate RequestOk(t: Tracker, r: Request) {
    r.user == UserOf(t, r.session) && forall arg | arg in r.args :: IsWord(arg)
  }

  lemma SetGroupKeepsInv(t: Tracker, name: Bytes, group: Group)
    requires Inv(t) && IsWord(name) && GroupOk(t.users.Keys, Live(t), group)
    ensures Inv(SetGroup(t, name, group))
  {
    assert Live(SetGroup(t, name, group)) == Live(t);
  }

  lemma FileWithoutUser(members: set<Bytes>, live: set<Bytes>, name: Bytes, file: SharedFile, user: Bytes,
                        members': set<Bytes>, live': set<Bytes>)
    requires FileOk(members, live, name, file) && file.seeders.Keys - {user} != {}
    requires members - {user} <= members' && live - {user} <= live'
    ensures FileOk(members', live', name, file.(seeders := file.seeders - {user}))
  {
    var seeders := file.seeders - {user};
    assert seeders.Keys == file.seeders.Keys - {user};
    assert forall u | u in seeders :: seeders[u] == file.seeders[u];
  }

  /** Dropping a user's shares keeps a group in order even once the user is gone from it. */
  lemma WithoutSharesOk(users: set<Bytes>, live: set<Bytes>, group: Group, user: Bytes, live': set<Bytes>,
                        members': set<Bytes>)
    requires GroupOk(users, live, group)
    requires live - {user} <= live' && group.members - {user} <= members' <= group.members && group.owner in members'
    ensures GroupOk(users, live', WithoutSharesOf(group.(members := members'), user))
  {
    var files := RemoveShares(group.files, user);
    forall name | name in files ensures FileOk(members', live', name, files[name]) {
      FileWithoutUser(group.members, live, name, group.files[name], user, members', live');
    }
  }

  lemma CreateUserInv(kdf: Kdf, t: Tracker, r: Request)
    requires Inv(t) && RequestOk(t, r) && |r.args| == 2
    ensures Inv(HandleCreateUser(kdf, t, r).tracker)
  {
    hide Hash, Verify, FromHex, KeysInOrder, Accesses, ParseUpload;
    var t' := HandleCreateUser(kdf, t, r).tracker;
    assert r.args[0] in r.args;
    assert Live(t') == Live(t) && t.users.Keys <= t'.users.Keys;
    forall name | name in t'.groups ensures GroupOk(t'.users.Keys, Live(t'), t'.groups[name]) {
      assert GroupOk(t.users.Keys, Live(t), t.groups[name]);
    }
  }

  lemma LoginInv(kdf: Kdf, t: Tracker, r: Request)
    requires Inv(t) && RequestOk(t, r) && |r.args| == 2
    ensures Inv(HandleLogin(kdf, t, r).tracker)
  {
    hide Hash, Verify, FromHex, KeysInOrder, Accesses, ParseUpload;
    var t' := HandleLogin(kdf, t, r).tracker;
    if t' != t {
      assert forall session | session in t.sessions :: t.sessions[session] != [];
      assert forall session | session in t.sessions ::
          session in t'.sessions && t'.sessions[session] == t.sessions[session];
      forall user | user in Live(t) ensures user in Live(t') {
        var session :| session in t.sessions && t.sessions[session] == user;
        assert t'.sessions[session] == user;
      }
      forall name | name in t'.groups ensures GroupOk(t'.users.Keys, Live(t'), t'.groups[name]) {
        assert GroupOk(t.users.Keys, Live(t), t.groups[name]);
        var group := t.groups[name];
        forall file | file in group.files ensures FileOk(group.members, Live(t'), file, group.files[file]) {
          assert FileOk(group.members, Live(t), file, group.files[file]);
        }
      }
    }
  }

  lemma LogoutInv(t: Tracker, r: Request)
    requires Inv(t) && RequestOk(t, r)
    ensures Inv(HandleLogout(t, r).tracker)
  {
    hide Hash, Verify, FromHex, KeysInOrder, Accesses, ParseUpload;
    var t' := HandleLogout(t, r).tracker;
    if r.user != [] {
      assert forall session | session in t'.sessions :: t'.sessions[session] == t.sessions[session];
      forall user | user in Live(t) - {r.user} ensures user in Live(t') {
        var session :| session in t.sessions && t.sessions[session] == user;
        assert t'.sessions[session] == user;
      }
      forall name | name in t'.groups ensures GroupOk(t'.users.Keys, Live(t'), t'.groups[name]) {
        var group := t.groups[name];
        assert GroupOk(t.users.Keys, Live(t), group);
        WithoutSharesOk(t.users.Keys, Live(t), group, r.user, Live(t'), group.members);
        assert group.(members := group.members) == group;
      }
    }
  }

  lemma LoggedInUser(t: Tracker, r: Request)
    requires Inv(t) && RequestOk(t, r) && r.user != []
    ensures r.user in t.users && r.user in Live(t)
  {
    assert t.sessions[r.session] == r.user;
  }

  lemma GroupCommandsInv(t: Tracker, r: Request)
    requires Inv(t) && RequestOk(t, r) && r.user != []
    ensures |r.args| == 1 ==> Inv(HandleCreateGroup(t, r).tracker) && Inv(HandleJoinGroup(t, r).tracker)
    ensures |r.args| == 2 ==> Inv(HandleAcceptRequest(t, r).tracker)
  {
    hide Hash, Verify, FromHex, KeysInOrder, Accesses, ParseUpload;
    LoggedInUser(t, r);
    if |r.args| == 1 || |r.args| == 2 {
      var name := r.args[0];
      assert name in r.args;
      SetGroupKeepsInv(t, name, Group(r.user, {r.user}, {}, map[]));
      if name in t.groups {
        var group := t.groups[name];
        assert GroupOk(t.users.Keys, Live(t), group);
        if r.user !in group.members {
          SetGroupKeepsInv(t, name, group.(pending := group.pending + {r.user}));
        }
        if |r.args| == 2 && r.args[1] in group.pending {
          AcceptedOk(t.users.Keys, Live(t), group, r.args[1]);
          SetGroupKeepsInv(t, name,
            group.(pending := group.pending - {r.args[1]}, members := group.members + {r.args[1]}));
        }
      }
    }
  }

  lemma AcceptedOk(users: set<Bytes>, live: set<Bytes>, group: Group, user: Bytes)
    requires GroupOk(users, live, group) && user in group.pending
    ensures GroupOk(users, live, group.(pending := group.pending - {user}, members := group.members + {user}))
  {
    forall name | name in group.files
      ensures FileOk(group.members + {user}, live, name, group.files[name])
    {
      assert FileOk(group.members, live, name, group.files[name]);
    }
  }

  lemma DepartureInv(t: Tracker, r: Request)
    requires Inv(t) && RequestOk(t, r) && r.user != []
    ensures |r.args| == 1 ==> Inv(HandleLeaveGroup(t, r).tracker)
    ensures |r.args| == 2 ==> Inv(HandleRemoveMember(t, r).tracker)
  {
    hide Hash, Verify, FromHex, KeysInOrder, Accesses, ParseUpload;
    if (|r.args| == 1 || |r.args| == 2) && r.args[0] in t.groups {
      var name := r.args[0];
      var group := t.groups[name];
      var user := if |r.args| == 1 then r.user else r.args[1];
      assert name in r.args && GroupOk(t.users.Keys, Live(t), group);
      if user != group.owner {
        WithoutSharesOk(t.users.Keys, Live(t), group, user, Live(t), group.members - {user});
        SetGroupKeepsInv(t, name, WithoutSharesOf(group.(members := group.members - {user}), user));
      }
    }
  }

  lemma SetFileOk(users: set<Bytes>, live: set<Bytes>, group: Group, name: Bytes, file: SharedFile)
    requires GroupOk(users, live, group) && FileOk(group.members, live, name, file)
    ensures GroupOk(users, live, group.(files := group.files[name := file]))
  {
  }

  lemma UploadInv(t: Tracker, r: Request)
    requires Inv(t) && RequestOk(t, r) && r.user != []
    ensures Inv(HandleUploadFile(t, r).tracker)
  {
    hide Hash, Verify, FromHex, KeysInOrder, Accesses, ParseUpload, FileOk, FileMetadata.Valid, SeederOk, Live;
    LoggedInUser(t, r);
    var name := if r.args == [] then [] else r.args[0];
    if name in t.groups && r.user in t.groups[name].members && ParseUpload(r.args).Some? {
      var group, upload := t.groups[name], ParseUpload(r.args).value;
      assert GroupOk(t.users.Keys, Live(t), group);
      UploadValid(r.args);
      UploadedFileOk(group.members, Live(t), group, upload, r.user);
      var shared := SharedFile(upload.metadata, FileOrNew(group.files, upload.name).seeders[r.user := upload.seeder]);
      SetFileOk(t.users.Keys, Live(t), group, upload.name, shared);
      SetGroupKeepsInv(t, name, group.(files := group.files[upload.name := shared]));
      if upload.name in group.files {
        assert group.files[upload.name := group.files[upload.name]] == group.files;
      }
      SetGroupKeepsInv(t, name, group);
    }
  }

  lemma UploadedFileOk(members: set<Bytes>, live: set<Bytes>, group: Group, upload: Upload, user: Bytes)
    requires upload.name in group.files ==> FileOk(members, live, upload.name, group.files[upload.name])
    requires upload.name != [] && upload.metadata.Valid() && user in members && user in live
    requires SeederOk(upload.seeder)
    ensures FileOk(members, live, upload.name,
                   SharedFile(upload.metadata, FileOrNew(group.files, upload.name).seeders[user := upload.seeder]))
  {
    var before := FileOrNew(group.files, upload.name).seeders;
    var seeders := before[user := upload.seeder];
    assert user in seeders.Keys && seeders.Keys == before.Keys + {user};
  }

  lemma UploadValid(args: seq<Bytes>)
    requires ParseUpload(args).Some? && forall arg | arg in args :: IsWord(arg)
    ensures var upload := ParseUpload(args).value;
            upload.name != [] && upload.metadata.Valid() && SeederOk(upload.seeder)
  {
    hide FromHex, ParseU64, IsDottedQuad, CString;
    var ip, text := args[5], args[5] + Sep(':') + args[6];
    Endpoints.ParseValid(text);
    var colon := IndexOf(text, ':');
    assert text[|ip|] == ':' && (forall k | |ip| < k <= |text| :: text[..k][|ip|] == ':');
    assert forall c | c in text[..colon] :: c in ip;
    assert args[5] in args;
  }

  lemma StopShareInv(t: Tracker, r: Request)
    requires Inv(t) && RequestOk(t, r) && |r.args| == 2
    ensures Inv(HandleStopShare(t, r).tracker)
  {
    hide Hash, Verify, FromHex, KeysInOrder, Accesses, ParseUpload, FileOk, Live;
    var groupName := r.args[0];
    if groupName in t.groups && FromHex(r.args[1]).Some? {
      var group, name := t.groups[groupName], FromHex(r.args[1]).value;
      assert GroupOk(t.users.Keys, Live(t), group);
      if name in group.files && r.user in group.files[name].seeders {
        var seeders := group.files[name].seeders - {r.user};
        assert seeders.Keys == group.files[name].seeders.Keys - {r.user};
        var files := if seeders == map[] then group.files - {name}
                     else group.files[name := group.files[name].(seeders := seeders)];
        if seeders != map[] {
          assert seeders.Keys != {};
          FileWithoutUser(group.members, Live(t), name, group.files[name], r.user, group.members, Live(t));
          SetFileOk(t.users.Keys, Live(t), group, name, files[name]);
        }
        assert groupName in t.groups && IsWord(groupName);
        SetGroupKeepsInv(t, groupName, group.(files := files));
      }
    }
  }

  lemma HandleKeepsInv(p: Primitives, t: Tracker, command: Command, r: Request)
    requires Inv(t) && RequestOk(t, r) && command.Accepts(r.args)
    requires command.NeedsLogin() ==> r.user != []
    ensures Inv(Handle(p, t, command, r).tracker)
  {
    hide Hash, Verify, FromHex, KeysInOrder, Accesses, ParseUpload;
    match command
    case CreateUser => CreateUserInv(p.kdf, t, r);
    case Login => LoginInv(p.kdf, t, r);
    case Logout => LogoutInv(t, r);
    case CreateGroup | JoinGroup | AcceptRequest => GroupCommandsInv(t, r);
    case LeaveGroup | RemoveMember => DepartureInv(t, r);
    case UploadFile => UploadInv(t, r);
    case StopShare => StopShareInv(t, r);
    case ListGroups | ListRequests | ListFiles | DownloadFile =>
  }

  lemma ApplyKeepsInv(p: Primitives, t: Tracker, session: U64, line: Bytes, context: ApplyContext)
    requires Inv(t)
    ensures Inv(Apply(p, t, session, line, context).tracker)
  {
    hide Lookup;
    var words := Words(line);
    WordsAreWords(line);
    if words != [] && Lookup(words[0]).Some? {
      var command := Lookup(words[0]).value;
      var r := Request(session, UserOf(t, session), words[1..], context);
      assert forall arg | arg in r.args :: arg in words;
      if command.Accepts(r.args) && (command.NeedsLogin() ==> r.user != []) {
        HandleKeepsInv(p, t, command, r);
      }
    }
  }

  // ---------------------------------------------------------------- two-state laws

  /** How one command may change the state: users and groups stay, a group keeps its owner, a
      session that stays keeps its user, and a file that stays listed keeps its metadata. */
  ghost predicate Evolves(t: Tracker, t': Tracker) {
    && (forall user | user in t.users :: user in t'.users && t'.users[user] == t.users[user])
    && (forall session | session in t.sessions && session in t'.sessions ::
          t'.sessions[session] == t.sessions[session])
    && (forall name | name in t.groups :: name in t'.groups && GroupEvolves(t.groups[name], t'.groups[name]))
  }

  ghost predicate GroupEvolves(group: Group, group': Group) {
    && group'.owner == group.owner
    && forall name | name in group.files && name in group'.files ::
         group'.files[name].metadata == group.files[name].metadata
  }

  lemma SetGroupEvolves(t: Tracker, name: Bytes, group: Group)
    requires name in t.groups ==> GroupEvolves(t.groups[name], group)
    ensures Evolves(t, SetGroup(t, name, group))
  {
    hide Hash, Verify, FromHex, KeysInOrder, Accesses, ParseUpload;
  }

  lemma WithoutSharesEvolves(group: Group, user: Bytes, members': set<Bytes>)
    ensures GroupEvolves(group, WithoutSharesOf(group.(members := members'), user))
  {
  }

  lemma MembershipCommandsEvolve(t: Tracker, r: Request)
    ensures |r.args| == 1 ==> Evolves(t, HandleCreateGroup(t, r).tracker) && Evolves(t, HandleJoinGroup(t, r).tracker)
    ensures |r.args| == 2 ==> Evolves(t, HandleAcceptRequest(t, r).tracker)
  {
    hide Hash, Verify, FromHex, KeysInOrder, Accesses, ParseUpload;
  }

  lemma DeparturesEvolve(t: Tracker, r: Request)
    ensures |r.args| == 1 ==> Evolves(t, HandleLeaveGroup(t, r).tracker)
    ensures |r.args| == 2 ==> Evolves(t, HandleRemoveMember(t, r).tracker)
  {
    hide Hash, Verify, FromHex, KeysInOrder, Accesses, ParseUpload;
    if (|r.args| == 1 || |r.args| == 2) && r.args[0] in t.groups {
      var name := r.args[0];
      var group := t.groups[name];
      var user := if |r.args| == 1 then r.user else r.args[1];
      var members := group.members - {user};
      WithoutSharesEvolves(group, user, members);
      SetGroupEvolves(t, name, WithoutSharesOf(group.(members := members), user));
    }
  }

  lemma LogoutEvolves(t: Tracker, r: Request)
    ensures Evolves(t, HandleLogout(t, r).tracker)
  {
    hide Hash, Verify, FromHex, KeysInOrder, Accesses, ParseUpload;
    forall name | name in t.groups ensures GroupEvolves(t.groups[name], WithoutSharesOf(t.groups[name], r.user)) {
      WithoutSharesEvolves(t.groups[name], r.user, t.groups[name].members);
      assert t.groups[name].(members := t.groups[name].members) == t.groups[name];
    }
  }

  lemma SetFileEvolves(t: Tracker, groupName: Bytes, name: Bytes, file: SharedFile)
    requires groupName in t.groups
    requires name in t.groups[groupName].files ==> file.metadata == t.groups[groupName].files[name].metadata
    ensures Evolves(t, SetGroup(t, groupName, t.groups[groupName].(files := t.groups[groupName].files[name := file])))
  {
    var group := t.groups[groupName];
    SetGroupEvolves(t, groupName, group.(files := group.files[name := file]));
  }

  lemma UploadEvolves(t: Tracker, r: Request)
    requires Inv(t)
    ensures Evolves(t, HandleUploadFile(t, r).tracker)
  {
    hide Hash, Verify, FromHex, KeysInOrder, Accesses, ParseUpload;
    var name := if r.args == [] then [] else r.args[0];
    if name in t.groups && r.user in t.groups[name].members && ParseUpload(r.args).Some? {
      var group, upload := t.groups[name], ParseUpload(r.args).value;
      var file := FileOrNew(group.files, upload.name);
      if upload.name in group.files {
        assert GroupOk(t.users.Keys, Live(t), group);
        assert FileOk(group.members, Live(t), upload.name, file);
      }
      if file.metadata.fullHash != [] && file.metadata != upload.metadata {
        SetFileEvolves(t, name, upload.name, file);
      } else {
        SetFileEvolves(t, name, upload.name, SharedFile(upload.metadata, file.seeders[r.user := upload.seeder]));
      }
    }
  }

  lemma StopShareEvolves(t: Tracker, r: Request)
    requires |r.args| == 2
    ensures Evolves(t, HandleStopShare(t, r).tracker)
  {
    hide Hash, Verify, FromHex, KeysInOrder, Accesses, ParseUpload;
    var groupName := r.args[0];
    if groupName in t.groups && FromHex(r.args[1]).Some? && FromHex(r.args[1]).value in t.groups[groupName].files {
      var group, name := t.groups[groupName], FromHex(r.args[1]).value;
      SetGroupEvolves(t, groupName, group.(files := group.files - {name}));
      SetFileEvolves(t, groupName, name, group.files[name].(seeders := group.files[name].seeders - {r.user}));
    }
  }

  lemma EvolvesReflexive(t: Tracker)
    ensures Evolves(t, t)
  {
  }

  lemma AccountsEvolve(kdf: Kdf, t: Tracker, r: Request)
    requires Inv(t) && RequestOk(t, r) && |r.args| == 2
    ensures Evolves(t, HandleCreateUser(kdf, t, r).tracker)
    ensures Evolves(t, HandleLogin(kdf, t, r).tracker)
  {
    hide Hash, Verify, FromHex, KeysInOrder, Accesses, ParseUpload;
    assert forall session | session in t.sessions :: t.sessions[session] in t.users;
  }

  lemma HandleEvolves(p: Primitives, t: Tracker, command: Command, r: Request)
    requires Inv(t) && RequestOk(t, r) && command.Accepts(r.args)
    ensures Evolves(t, Handle(p, t, command, r).tracker)
  {
    hide Hash, Verify, FromHex, KeysInOrder, Accesses, ParseUpload;
    match command
    case CreateGroup | JoinGroup | AcceptRequest => MembershipCommandsEvolve(t, r);
    case LeaveGroup | RemoveMember => DeparturesEvolve(t, r);
    case Logout => LogoutEvolves(t, r);
    case UploadFile => UploadEvolves(t, r);
    case StopShare => StopShareEvolves(t, r);
    case CreateUser => AccountsEvolve(p.kdf, t, r);
    case Login => AccountsEvolve(p.kdf, t, r);
    case ListGroups | ListRequests | ListFiles | DownloadFile =>
      assert Handle(p, t, command, r).tracker == t;
      EvolvesReflexive(t);
  }

  lemma ApplyEvolves(p: Primitives, t: Tracker, session: U64, line: Bytes, context: ApplyContext)
    requires Inv(t)
    ensures Evolves(t, Apply(p, t, session, line, context).tracker)
  {
    hide Lookup;
    var words := Words(line);
    WordsAreWords(line);
    if words != [] && Lookup(words[0]).Some? {
      var command := Lookup(words[0]).value;
      var r := Request(session, UserOf(t, session), words[1..], context);
      assert forall arg | arg in r.args :: arg in words;
      if command.Accepts(r.args) {
        HandleEvolves(p, t, command, r);
      }
    }
  }

  lemma HandleErr(p: Primitives, t: Tracker, command: Command, r: Request)
    requires command.Accepts(r.args)
    ensures Handle(p, t, command, r).result.response.Err? ==> Handle(p, t, command, r).tracker == t
  {
    hide Hash, Verify, FromHex, KeysInOrder, Accesses;
    if command.UploadFile? && Handle(p, t, command, r).result.response == Err(ConflictingMetadata) {
      var name := r.args[0];
      var group, upload := t.groups[name], ParseUpload(r.args).value;
      assert r.args != [] && upload.name in group.files;
      assert group.files[upload.name := group.files[upload.name]] == group.files;
      assert t.groups[name := group] == t.groups;
    }
  }

  lemma ErrText(response: Response)
    ensures "ERR" <= response.Text() <==> response.Err?
  {
    match response
    case Err(refusal) => assert response.Text()[..3] == "ERR";
    case _ => assert response.Text()[0] != "ERR"[0];
  }

  /** A refused command changes nothing at all. */
  lemma ErrorLeavesState(p: Primitives, t: Tracker, session: U64, line: Bytes, context: ApplyContext)
    ensures "ERR" <= Apply(p, t, session, line, context).result.response.Text() ==>
            Apply(p, t, session, line, context).tracker == t
  {
    var words := Words(line);
    ErrText(Apply(p, t, session, line, context).result.response);
    hide Response.Text, Lookup;
    if words != [] && Lookup(words[0]).Some? {
      var command := Lookup(words[0]).value;
      var r := Request(session, UserOf(t, session), words[1..], context);
      if command.Accepts(r.args) {
        HandleErr(p, t, command, r);
      }
    }
  }

  /** Removing a user's shares is an exact filter: every other share stays as it was, the
      user's own are gone, and no file is left without a seeder. */
  lemma RemoveSharesExact(files: map<Bytes, SharedFile>, user: Bytes, name: Bytes, other: Bytes)
    ensures var after := RemoveShares(files, user);
            && (name in after ==> name in files && after[name].metadata == files[name].metadata
                                  && user !in after[name].seeders && after[name].seeders != map[])
            && (other != user ==>
                  ((name in after && other in after[name].seeders) <==>
                   (name in files && other in files[name].seeders))
                  && (name in after && other in after[name].seeders ==>
                        after[name].seeders[other] == files[name].seeders[other]))
  {
    if name in files {
      var seeders := files[name].seeders - {user};
      assert seeders.Keys == files[name].seeders.Keys - {user};
      if other != user && other in files[name].seeders {
        assert other in files[name].seeders.Keys - {user};
      }
    }
  }
}
