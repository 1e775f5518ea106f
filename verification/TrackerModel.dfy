/** The tracker's commands as functions on its state (tracker/state/tracker_state.cpp).

    `Apply` is one lock-protected command: the state and reply after it. The class in
    TrackerState.dfy updates its fields in place and is proved to do exactly this. */
module TrackerModel {
  import opened Text
  import opened Metadata
  import opened Endpoints
  import opened Tickets
  import opened Order
  import opened Password

  datatype Seeder = Seeder(endpoint: Endpoint, peerKey: Bytes)

  datatype SharedFile = SharedFile(metadata: FileMetadata, seeders: map<Bytes, Seeder>)

  datatype Group = Group(owner: Bytes, members: set<Bytes>, pending: set<Bytes>,
                         files: map<Bytes, SharedFile>)

  datatype Tracker = Tracker(users: map<Bytes, Bytes>, sessions: map<U64, Bytes>,
                             groups: map<Bytes, Group>)

  /** Randomness and time handed to one command. */
  datatype ApplyContext = ApplyContext(salt: Bytes, newSession: U64, now: int)

  /** The reply to a command; `Text` is what travels. */
  datatype Response =
    | Err(refusal: Refusal)
    | Ok(success: Success)
    | Listing(words: seq<Bytes>)
    | Meta(metadata: FileMetadata, accesses: seq<SeederAccess>)
  {
    function Text(): Bytes {
      match this
      case Err(refusal) => B("ERR " + refusal.Text())
      case Ok(success) => B("OK " + success.Text())
      case Listing(words) => B("OK") + ListingText(words)
      case Meta(metadata, accesses) => MetaText(metadata, accesses)
    }
  }

  datatype Refusal =
    | EmptyCommand
    | UnknownCommand
    | LoginRequired
    | WrongUsage(command: Command)
    | UserExists
    | RandomFailed
    | AlreadyLoggedIn
    | NoSuchUser
    | InvalidPassword
    | NotLoggedIn
    | GroupExists
    | NoSuchGroup
    | AlreadyMember
    | AlreadyPending
    | OwnerCannotLeave
    | NotMember
    | OnlyOwnerLists
    | OnlyOwnerAccepts
    | OnlyOwnerRemoves
    | NoSuchRequest
    | OwnerCannotBeRemoved
    | NotGroupMember
    | InvalidUpload
    | ConflictingMetadata
    | InvalidFileName
    | NoSeeders
    | TicketsFailed
    | InvalidGroupOrFile
    | NotSharing
  {
    function Text(): string {
      match this
      case WrongUsage(command) => "usage: " + command.Usage()
      case EmptyCommand => "empty command"
      case UnknownCommand => "unknown command"
      case LoginRequired => "login required"
      case UserExists => "user already exists"
      case RandomFailed => "secure random generation failed"
      case AlreadyLoggedIn => "logout before logging in again"
      case NoSuchUser => "no such user"
      case InvalidPassword => "invalid password"
      case NotLoggedIn => "not logged in"
      case GroupExists => "group already exists"
      case NoSuchGroup => "no such group"
      case AlreadyMember => "already a member"
      case AlreadyPending => "request already pending"
      case OwnerCannotLeave => "owner cannot leave group"
      case NotMember => "not a member"
      case OnlyOwnerLists => "only owner may list requests"
      case OnlyOwnerAccepts => "only owner may accept requests"
      case OnlyOwnerRemoves => "only owner may remove members"
      case NoSuchRequest => "no such pending request"
      case OwnerCannotBeRemoved => "owner cannot be removed"
      case NotGroupMember => "not a group member"
      case InvalidUpload => "invalid upload metadata"
      case ConflictingMetadata => "conflicting file metadata"
      case InvalidFileName => "invalid file name"
      case NoSeeders => "file has no online seeders"
      case TicketsFailed => "could not issue peer tickets"
      case InvalidGroupOrFile => "invalid group/file"
      case NotSharing => "you are not sharing this file"
    }
  }

  datatype Success =
    | UserCreated
    | LoggedIn
    | LoggedOut
    | GroupCreated
    | JoinRequested
    | LeftGroup
    | RequestAccepted
    | MemberRemoved
    | FileShared
    | SharingStopped
  {
    function Text(): string {
      match this
      case UserCreated => "user created"
      case LoggedIn => "logged in"
      case LoggedOut => "logged out"
      case GroupCreated => "group created"
      case JoinRequested => "join requested"
      case LeftGroup => "left group"
      case RequestAccepted => "request accepted"
      case MemberRemoved => "member removed"
      case FileShared => "file shared"
      case SharingStopped => "sharing stopped"
    }
  }

  datatype CommandResult = CommandResult(response: Response, session: U64)

  datatype Request = Request(session: U64, user: Bytes, args: seq<Bytes>, context: ApplyContext)

  datatype Outcome = Outcome(tracker: Tracker, result: CommandResult)

  /** The cryptographic functions the tracker calls. */
  datatype Primitives = Primitives(hmac: Hmac, kdf: Kdf)

  datatype Command =
    | CreateUser | Login | Logout | CreateGroup | JoinGroup | LeaveGroup | ListGroups
    | ListRequests | AcceptRequest | RemoveMember | UploadFile | ListFiles | DownloadFile
    | StopShare
  {
    predicate NeedsLogin() {
      !CreateUser? && !Login? && !Logout?
    }

    /** Number of arguments, or -1 where the handler checks for itself. */
    function Arity(): int {
      match this
      case CreateUser | Login | AcceptRequest | RemoveMember | DownloadFile | StopShare => 2
      case CreateGroup | JoinGroup | LeaveGroup | ListRequests | ListFiles => 1
      case Logout | ListGroups => 0
      case UploadFile => -1
    }

    function Usage(): string {
      match this
      case CreateUser => "create_user <user> <password>"
      case Login => "login <user> <password>"
      case Logout => "logout"
      case CreateGroup => "create_group <group>"
      case JoinGroup => "join_group <group>"
      case LeaveGroup => "leave_group <group>"
      case ListGroups => "list_groups"
      case ListRequests => "list_requests <group>"
      case AcceptRequest => "accept_request <group> <user>"
      case RemoveMember => "remove_member <group> <user>"
      case UploadFile => "upload_file"
      case ListFiles => "list_files <group>"
      case DownloadFile => "download_file <group> <file>"
      case StopShare => "stop_share <group> <file>"
    }

    predicate Accepts(args: seq<Bytes>) {
      Arity() < 0 || |args| == Arity()
    }
  }

  function Lookup(name: Bytes): Option<Command> {
    if name == "create_user" then Some(CreateUser)
    else if name == "login" then Some(Login)
    else if name == "logout" then Some(Logout)
    else if name == "create_group" then Some(CreateGroup)
    else if name == "join_group" then Some(JoinGroup)
    else if name == "leave_group" then Some(LeaveGroup)
    else if name == "list_groups" then Some(ListGroups)
    else if name == "list_requests" then Some(ListRequests)
    else if name == "accept_request" then Some(AcceptRequest)
    else if name == "remove_member" then Some(RemoveMember)
    else if name == "upload_file" then Some(UploadFile)
    else if name == "list_files" then Some(ListFiles)
    else if name == "download_file" then Some(DownloadFile)
    else if name == "stop_share" then Some(StopShare)
    else None
  }

  const EMPTY: Tracker := Tracker(map[], map[], map[])

  function UserOf(t: Tracker, session: U64): Bytes {
    if session in t.sessions then t.sessions[session] else []
  }

  /** A reply that leaves the caller's session as it was. */
  function Reply(t: Tracker, r: Request, response: Response): Outcome {
    Outcome(t, CommandResult(response, r.session))
  }

  ghost function Apply(p: Primitives, t: Tracker, session: U64, line: Bytes, context: ApplyContext): Outcome {
    var words := Words(line);
    if words == [] then Outcome(t, CommandResult(Err(EmptyCommand), session))
    else
      match Lookup(words[0])
      case None => Outcome(t, CommandResult(Err(UnknownCommand), session))
      case Some(command) =>
        var r := Request(session, UserOf(t, session), words[1..], context);
        if command.NeedsLogin() && r.user == [] then Reply(t, r, Err(LoginRequired))
        else if !command.Accepts(r.args) then Reply(t, r, Err(WrongUsage(command)))
        else Handle(p, t, command, r)
  }

  ghost function Handle(p: Primitives, t: Tracker, command: Command, r: Request): Outcome
    requires command.Accepts(r.args)
  {
    match command
    case CreateUser => HandleCreateUser(p.kdf, t, r)
    case Login => HandleLogin(p.kdf, t, r)
    case Logout => HandleLogout(t, r)
    case CreateGroup => HandleCreateGroup(t, r)
    case JoinGroup => HandleJoinGroup(t, r)
    case LeaveGroup => HandleLeaveGroup(t, r)
    case ListGroups => Reply(t, r, Listing(KeysInOrder(t.groups.Keys)))
    case ListRequests => HandleListRequests(t, r)
    case AcceptRequest => HandleAcceptRequest(t, r)
    case RemoveMember => HandleRemoveMember(t, r)
    case UploadFile => HandleUploadFile(t, r)
    case ListFiles => HandleListFiles(t, r)
    case DownloadFile => HandleDownloadFile(p.hmac, t, r)
    case StopShare => HandleStopShare(t, r)
  }

  // ---------------------------------------------------------------- shared parts of the handlers

  /** Each word preceded by a space. */
  function ListingText(words: seq<Bytes>): Bytes {
    if words == [] then [] else Sep(' ') + words[0] + ListingText(words[1..])
  }

  function HexNames(names: seq<Bytes>): (hex: seq<Bytes>)
    ensures |hex| == |names|
  {
    seq(|names|, i requires 0 <= i < |names| => ToHex(names[i]))
  }

  function SetGroup(t: Tracker, name: Bytes, group: Group): Tracker {
    t.(groups := t.groups[name := group])
  }

  /** Drop `user` as a seeder of every file, and every file then left without seeders. */
  function RemoveShares(files: map<Bytes, SharedFile>, user: Bytes): map<Bytes, SharedFile> {
    map name | name in files && files[name].seeders.Keys - {user} != {} ::
      files[name].(seeders := files[name].seeders - {user})
  }

  function WithoutSharesOf(group: Group, user: Bytes): Group {
    group.(files := RemoveShares(group.files, user))
  }

  // ---------------------------------------------------------------- users and sessions

  function HandleCreateUser(kdf: Kdf, t: Tracker, r: Request): Outcome
    requires |r.args| == 2
  {
    var name, stored := r.args[0], Hash(kdf, r.args[1], r.context.salt);
    if name in t.users then Reply(t, r, Err(UserExists))
    else if stored == [] then Reply(t, r, Err(RandomFailed))
    else Reply(t.(users := t.users[name := stored]), r, Ok(UserCreated))
  }

  function HandleLogin(kdf: Kdf, t: Tracker, r: Request): Outcome
    requires |r.args| == 2
  {
    var name := r.args[0];
    if r.user != [] then Reply(t, r, Err(AlreadyLoggedIn))
    else if name !in t.users then Reply(t, r, Err(NoSuchUser))
    else if !Verify(kdf, r.args[1], t.users[name]) then Reply(t, r, Err(InvalidPassword))
    else
      var session := if r.session == 0 then r.context.newSession else r.session;
      if r.session == 0 && (session == 0 || session in t.sessions) then
        Outcome(t, CommandResult(Err(RandomFailed), 0))
      else
        Outcome(t.(sessions := t.sessions[session := name]), CommandResult(Ok(LoggedIn), session))
  }

  function HandleLogout(t: Tracker, r: Request): Outcome {
    if r.user == [] then Reply(t, r, Err(NotLoggedIn))
    else
      var groups := map name | name in t.groups :: WithoutSharesOf(t.groups[name], r.user);
      Outcome(Tracker(t.users, t.sessions - {r.session}, groups), CommandResult(Ok(LoggedOut), 0))
  }

  // ---------------------------------------------------------------- groups

  function HandleCreateGroup(t: Tracker, r: Request): Outcome
    requires |r.args| == 1
  {
    if r.args[0] in t.groups then Reply(t, r, Err(GroupExists))
    else Reply(SetGroup(t, r.args[0], Group(r.user, {r.user}, {}, map[])), r, Ok(GroupCreated))
  }

  function HandleJoinGroup(t: Tracker, r: Request): Outcome
    requires |r.args| == 1
  {
    var name := r.args[0];
    if name !in t.groups then Reply(t, r, Err(NoSuchGroup))
    else
      var group := t.groups[name];
      if r.user in group.members then Reply(t, r, Err(AlreadyMember))
      else if r.user in group.pending then Reply(t, r, Err(AlreadyPending))
      else Reply(SetGroup(t, name, group.(pending := group.pending + {r.user})), r, Ok(JoinRequested))
  }

  function HandleLeaveGroup(t: Tracker, r: Request): Outcome
    requires |r.args| == 1
  {
    var name := r.args[0];
    if name !in t.groups then Reply(t, r, Err(NoSuchGroup))
    else
      var group := t.groups[name];
      if group.owner == r.user then Reply(t, r, Err(OwnerCannotLeave))
      else if r.user !in group.members then Reply(t, r, Err(NotMember))
      else
        var left := WithoutSharesOf(group.(members := group.members - {r.user}), r.user);
        Reply(SetGroup(t, name, left), r, Ok(LeftGroup))
  }

  ghost function HandleListRequests(t: Tracker, r: Request): Outcome
    requires |r.args| == 1
  {
    var name := r.args[0];
    if name !in t.groups then Reply(t, r, Err(NoSuchGroup))
    else if t.groups[name].owner != r.user then Reply(t, r, Err(OnlyOwnerLists))
    else Reply(t, r, Listing(KeysInOrder(t.groups[name].pending)))
  }

  function HandleAcceptRequest(t: Tracker, r: Request): Outcome
    requires |r.args| == 2
  {
    var name, user := r.args[0], r.args[1];
    if name !in t.groups then Reply(t, r, Err(NoSuchGroup))
    else
      var group := t.groups[name];
      if group.owner != r.user then Reply(t, r, Err(OnlyOwnerAccepts))
      else if user !in group.pending then Reply(t, r, Err(NoSuchRequest))
      else
        var accepted := group.(pending := group.pending - {user}, members := group.members + {user});
        Reply(SetGroup(t, name, accepted), r, Ok(RequestAccepted))
  }

  function HandleRemoveMember(t: Tracker, r: Request): Outcome
    requires |r.args| == 2
  {
    var name, user := r.args[0], r.args[1];
    if name !in t.groups then Reply(t, r, Err(NoSuchGroup))
    else
      var group := t.groups[name];
      if group.owner != r.user then Reply(t, r, Err(OnlyOwnerRemoves))
      else if user == group.owner then Reply(t, r, Err(OwnerCannotBeRemoved))
      else if user !in group.members then Reply(t, r, Err(NotMember))
      else
        var removed := WithoutSharesOf(group.(members := group.members - {user}), user);
        Reply(SetGroup(t, name, removed), r, Ok(MemberRemoved))
  }

  // ---------------------------------------------------------------- files

  datatype Upload = Upload(name: Bytes, metadata: FileMetadata, seeder: Seeder)

  /** <group> <hex name> <size> <SHA-1> <piece hashes> <ip> <port> <hex peer key> */
  function ParseUpload(args: seq<Bytes>): Option<Upload> {
    if |args| != 8 then None
    else
      match (FromHex(args[1]), ParseU64(args[2]), Endpoints.Parse(args[5] + Sep(':') + args[6]), FromHex(args[7]))
      case (Some(name), Some(size), Some(endpoint), Some(peerKey)) =>
        var metadata := FileMetadata(size, args[3], ParsePieceHashList(args[4]));
        if name == [] || !metadata.Valid() || |peerKey| != 32 then None
        else Some(Upload(name, metadata, Seeder(endpoint, peerKey)))
      case _ => None
  }

  /** What operator[] yields for a file name: the entry, or a new one with empty metadata. */
  function FileOrNew(files: map<Bytes, SharedFile>, name: Bytes): SharedFile {
    if name in files then files[name] else SharedFile(FileMetadata(0, [], []), map[])
  }

  function HandleUploadFile(t: Tracker, r: Request): Outcome {
    var groupName := if r.args == [] then [] else r.args[0];
    if groupName !in t.groups then Reply(t, r, Err(NoSuchGroup))
    else
      var group := t.groups[groupName];
      if r.user !in group.members then Reply(t, r, Err(NotGroupMember))
      else
        match ParseUpload(r.args)
        case None => Reply(t, r, Err(InvalidUpload))
        case Some(upload) =>
          var file := FileOrNew(group.files, upload.name);
          if file.metadata.fullHash != [] && file.metadata != upload.metadata then
            // operator[] has run, so the entry it yielded is in the map
            var touched := group.(files := group.files[upload.name := file]);
            Reply(SetGroup(t, groupName, touched), r, Err(ConflictingMetadata))
          else
            var shared := SharedFile(upload.metadata, file.seeders[r.user := upload.seeder]);
            var updated := group.(files := group.files[upload.name := shared]);
            Reply(SetGroup(t, groupName, updated), r, Ok(FileShared))
  }

  ghost function HandleListFiles(t: Tracker, r: Request): Outcome
    requires |r.args| == 1
  {
    var name := r.args[0];
    if name !in t.groups then Reply(t, r, Err(NoSuchGroup))
    else if r.user !in t.groups[name].members then Reply(t, r, Err(NotGroupMember))
    else Reply(t, r, Listing(HexNames(KeysInOrder(t.groups[name].files.Keys))))
  }

  /** One access record for each named seeder: its address, the ticket, and the ticket's key there. */
  function Accesses(hmac: Hmac, ticket: PeerTicket, seeders: map<Bytes, Seeder>,
                    users: seq<Bytes>): (r: seq<SeederAccess>)
    requires forall user | user in users :: user in seeders
    ensures |r| == |users|
  {
    seq(|users|, i requires 0 <= i < |users| =>
      SeederAccess(seeders[users[i]].endpoint, ticket.Encode(), ticket.Key(hmac, seeders[users[i]].peerKey)))
  }

  function EncodeAll(accesses: seq<SeederAccess>): (texts: seq<Bytes>)
    ensures |texts| == |accesses|
  {
    seq(|accesses|, i requires 0 <= i < |accesses| => accesses[i].Encode())
  }

  function MetaText(metadata: FileMetadata, accesses: seq<SeederAccess>): Bytes {
    B("META ") + Dec(metadata.size) + Sep(' ') + metadata.fullHash + Sep(' ') + metadata.PieceHashList() + Sep(' ')
    + Join(SortTexts(EncodeAll(accesses)), ',')
  }

  /** The ticket that download_file writes for this request. */
  function TicketFor(r: Request, name: Bytes): PeerTicket
    requires |r.args| == 2
  {
    PeerTicket(r.user, r.args[0], name, r.context.now + LIFETIME_SECONDS)
  }

  ghost function HandleDownloadFile(hmac: Hmac, t: Tracker, r: Request): Outcome
    requires |r.args| == 2
  {
    var groupName := r.args[0];
    if groupName !in t.groups then Reply(t, r, Err(NoSuchGroup))
    else
      var group := t.groups[groupName];
      if r.user !in group.members then Reply(t, r, Err(NotGroupMember))
      else
        match FromHex(r.args[1])
        case None => Reply(t, r, Err(InvalidFileName))
        case Some(name) =>
          if name !in group.files || group.files[name].seeders == map[] then
            Reply(t, r, Err(NoSeeders))
          else
            var SharedFile(metadata, seeders) := group.files[name];
            var accesses := Accesses(hmac, TicketFor(r, name), seeders, KeysInOrder(seeders.Keys));
            if exists access | access in accesses :: access.key == [] then
              Reply(t, r, Err(TicketsFailed))
            else
              Reply(t, r, Meta(metadata, accesses))
  }

  function HandleStopShare(t: Tracker, r: Request): Outcome
    requires |r.args| == 2
  {
    var groupName, decoded := r.args[0], FromHex(r.args[1]);
    if groupName !in t.groups || decoded.None? then Reply(t, r, Err(InvalidGroupOrFile))
    else
      var group, name := t.groups[groupName], decoded.value;
      if name !in group.files || r.user !in group.files[name].seeders then
        Reply(t, r, Err(NotSharing))
      else
        var seeders := group.files[name].seeders - {r.user};
        var files := if seeders == map[] then group.files - {name}
                     else group.files[name := group.files[name].(seeders := seeders)];
        Reply(SetGroup(t, groupName, group.(files := files)), r, Ok(SharingStopped))
  }
}
