/** Tracker, seeders and everyone else as one system: access to a file ends within 300 seconds of
    membership ending.

    Assumed of the system: one non-decreasing clock; `context.now` was read no later than the
    command was applied; AES-GCM is the ideal functionality of module Aead; and HMAC keys under
    the honest seeders' peer keys are known only once the tracker has issued them (section 2 of
    RFC 2104 as an unpredictable function). Everything else is arbitrary: any commands from any
    session, any sealed messages under known keys, any requests to any seeder at any time. */
module Revocation {
  import opened Text
  import opened Tickets
  import opened TrackerModel
  import opened TrackerLaws
  import opened TrackerEffects
  import opened TrackerRuns
  import opened RoundTrips
  import opened Aead
  import opened SharedFilesClass
  import opened PeerProtocol

  /** The tracker's commands so far with the times they were applied, the clock, the ticket keys
      that have left the tracker, and every message sealed so far. */
  datatype World = World(inputs: seq<Input>, times: seq<int>, clock: int, issued: set<Bytes>, log: SealLog)

  datatype Action =
    | Tick(to: int)
    | Command(input: Input)
    | SealMessage(key: Bytes, aad: Bytes, plain: Bytes, message: GcmMessage)
    | Serve(peerKey: Bytes, files: map<Key, LocalFile>, disk: map<Bytes, Bytes>, request: Bytes, sent: GcmMessage)

  /** The ticket keys in the reply to a command. */
  ghost function IssuedBy(p: Primitives, t: Tracker, input: Input): set<Bytes> {
    match Apply(p, t, input.session, input.line, input.context).result.response
    case Meta(_, accesses) => set access | access in accesses :: access.key
    case _ => {}
  }

  /** A key that is no ticket key of an honest seeder, or that the tracker has issued. */
  ghost predicate Known(hmac: Hmac, honest: set<Bytes>, issued: set<Bytes>, key: Bytes) {
    forall peerKey, data | peerKey in honest && key == hmac(peerKey, data) :: key in issued
  }

  ghost function Now(p: Primitives, w: World): Tracker {
    StateAt(p, w.inputs, |w.inputs|)
  }

  ghost function AnswerTo(p: Primitives, w: World, a: Action): Answer
    requires a.Serve?
  {
    Decide(p.hmac, a.peerKey, a.files, a.disk, w.log, a.request, w.clock)
  }

  ghost predicate Enabled(p: Primitives, honest: set<Bytes>, w: World, a: Action) {
    match a
    case Tick(to) => w.clock <= to
    case Command(input) => input.context.now <= w.clock
    case SealMessage(key, aad, plain, message) =>
      MaySeal(w.log, key, aad, plain, message) && Known(p.hmac, honest, w.issued, key)
    case Serve(peerKey, _, _, _, sent) =>
      peerKey in honest &&
      var answer := AnswerTo(p, w, a);
      answer.Reply? ==> MaySeal(w.log, answer.key, answer.aad, answer.plain, sent)
  }

  ghost function Step(p: Primitives, w: World, a: Action): World {
    match a
    case Tick(to) => w.(clock := to)
    case Command(input) =>
      w.(inputs := w.inputs + [input], times := w.times + [w.clock], issued := w.issued + IssuedBy(p, Now(p, w), input))
    case SealMessage(key, aad, plain, message) => w.(log := Seal(w.log, key, aad, plain, message))
    case Serve(_, _, _, _, sent) =>
      match AnswerTo(p, w, a)
      case Reply(key, aad, plain) => w.(log := Seal(w.log, key, aad, plain, sent))
      case _ => w
  }

  ghost predicate IsRun(p: Primitives, honest: set<Bytes>, worlds: seq<World>, actions: seq<Action>) {
    && |worlds| == |actions| + 1
    && worlds[0].inputs == [] && worlds[0].times == [] && worlds[0].issued == {} && worlds[0].log == map[]
    && forall i | 0 <= i < |actions| ::
         Enabled(p, honest, worlds[i], actions[i]) && worlds[i + 1] == Step(p, worlds[i], actions[i])
  }

  // ---------------------------------------------------------------- what every step keeps

  /** Command `i` issued `key`. */
  ghost predicate IssuedAt(p: Primitives, w: World, key: Bytes, i: nat)
    requires i < |w.inputs|
  {
    key in IssuedBy(p, StateAt(p, w.inputs, i), w.inputs[i])
  }

  ghost predicate TimesOk(w: World) {
    && |w.times| == |w.inputs|
    && (forall i | 0 <= i < |w.times| :: w.inputs[i].context.now <= w.times[i] <= w.clock)
    && (forall i, j | 0 <= i <= j < |w.times| :: w.times[i] <= w.times[j])
  }

  ghost predicate IssuedOk(p: Primitives, w: World) {
    forall key | key in w.issued :: exists i :: 0 <= i < |w.inputs| && IssuedAt(p, w, key, i)
  }

  /** Every request sealed under an honest seeder's ticket key used a key the tracker had issued. */
  ghost predicate LogOk(hmac: Hmac, honest: set<Bytes>, w: World) {
    forall id | id in w.log && B("21") + Sep('|') <= id.aad :: Known(hmac, honest, w.issued, id.key)
  }

  lemma {:induction false} StateAtPrefix(p: Primitives, inputs: seq<Input>, more: seq<Input>, n: nat)
    requires n <= |inputs|
    ensures StateAt(p, inputs + more, n) == StateAt(p, inputs, n)
  {
    hide Apply;
    if n > 0 {
      StateAtPrefix(p, inputs, more, n - 1);
      assert (inputs + more)[n - 1] == inputs[n - 1];
    }
  }

  lemma CommandKeeps(p: Primitives, honest: set<Bytes>, w: World, input: Input)
    requires TimesOk(w) && IssuedOk(p, w) && LogOk(p.hmac, honest, w) && input.context.now <= w.clock
    ensures var w' := Step(p, w, Command(input)); TimesOk(w') && IssuedOk(p, w') && LogOk(p.hmac, honest, w')
  {
    hide Apply, StateAt, IssuedBy;
    var w' := Step(p, w, Command(input));
    forall key | key in w'.issued ensures exists i :: 0 <= i < |w'.inputs| && IssuedAt(p, w', key, i) {
      if key in w.issued {
        var i :| 0 <= i < |w.inputs| && IssuedAt(p, w, key, i);
        StateAtPrefix(p, w.inputs, [input], i);
        assert IssuedAt(p, w', key, i);
      } else {
        StateAtPrefix(p, w.inputs, [input], |w.inputs|);
        assert IssuedAt(p, w', key, |w.inputs|);
      }
    }
    forall id | id in w'.log && B("21") + Sep('|') <= id.aad ensures Known(p.hmac, honest, w'.issued, id.key) {
      assert Known(p.hmac, honest, w.issued, id.key);
    }
  }

  /** A seeder's own replies never look like requests, though sealed under the same ticket key. */
  lemma ReplyIsNotRequest(aad: Bytes, hexNonce: Bytes)
    ensures !(B("21") + Sep('|') <= ReplyAad(aad, hexNonce))
  {
    assert ReplyAad(aad, hexNonce)[0] == '3';
  }

  lemma ServeKeeps(p: Primitives, honest: set<Bytes>, w: World, a: Action)
    requires TimesOk(w) && IssuedOk(p, w) && LogOk(p.hmac, honest, w) && a.Serve?
    ensures var w' := Step(p, w, a); TimesOk(w') && IssuedOk(p, w') && LogOk(p.hmac, honest, w')
  {
    hide StateAt, IssuedBy, CheckRequest, Bitmap, Stored, Known, ReplyAad;
    var answer := AnswerTo(p, w, a);
    if answer.Reply? {
      var g := CheckRequest(p.hmac, a.peerKey, w.log, a.request, w.clock).value;
      assert answer.aad == ReplyAad(g.aad, g.hexNonce);
      ReplyIsNotRequest(g.aad, g.hexNonce);
      var w' := Step(p, w, a);
      assert forall i, key | 0 <= i < |w.inputs| && IssuedAt(p, w, key, i) :: IssuedAt(p, w', key, i);
    }
  }

  lemma StepKeeps(p: Primitives, honest: set<Bytes>, w: World, a: Action)
    requires TimesOk(w) && IssuedOk(p, w) && LogOk(p.hmac, honest, w) && Enabled(p, honest, w, a)
    ensures var w' := Step(p, w, a); TimesOk(w') && IssuedOk(p, w') && LogOk(p.hmac, honest, w')
  {
    hide StateAt, IssuedBy, Known, Decide, IssuedAt;
    match a
    case Command(input) => CommandKeeps(p, honest, w, input);
    case Serve(_, _, _, _, _) => ServeKeeps(p, honest, w, a);
    case Tick(_) => SameHistory(p, w, Step(p, w, a));
    case SealMessage(_, _, _, _) => SameHistory(p, w, Step(p, w, a));
  }

  lemma SameHistory(p: Primitives, w: World, w': World)
    requires IssuedOk(p, w) && w'.inputs == w.inputs && w'.issued == w.issued
    ensures IssuedOk(p, w')
  {
    hide StateAt, IssuedBy;
    forall key | key in w'.issued ensures exists i :: 0 <= i < |w'.inputs| && IssuedAt(p, w', key, i) {
      var i :| 0 <= i < |w.inputs| && IssuedAt(p, w, key, i);
      assert IssuedAt(p, w', key, i);
    }
  }

  lemma {:induction false} RunKeeps(p: Primitives, honest: set<Bytes>, worlds: seq<World>, actions: seq<Action>, n: nat)
    requires IsRun(p, honest, worlds, actions) && n <= |actions|
    ensures TimesOk(worlds[n]) && IssuedOk(p, worlds[n]) && LogOk(p.hmac, honest, worlds[n])
  {
    hide Step, Enabled, Known, IssuedAt;
    if n > 0 {
      RunKeeps(p, honest, worlds, actions, n - 1);
      StepKeeps(p, honest, worlds[n - 1], actions[n - 1]);
    }
  }

  // ---------------------------------------------------------------- bounded revocation

  /** No other key and data give this HMAC value. */
  ghost predicate NoCollisionAt(hmac: Hmac, peerKey: Bytes, data: Bytes) {
    forall otherKey, other | hmac(otherKey, other) == hmac(peerKey, data) :: otherKey == peerKey && other == data
  }

  /** `input` is a download_file by `ticket.user`, a logged-in member of `ticket.group`, for a listed
      file with a seeder registered under `peerKey`, and it writes this very ticket. */
  ghost predicate Authorises(t: Tracker, input: Input, ticket: PeerTicket, peerKey: Bytes) {
    && (exists hexName ::
          Issues(t, input, ticket.user, DownloadFile, [ticket.group, hexName]) && FromHex(hexName) == Some(ticket.file))
    && IsMember(t, ticket.group, ticket.user)
    && ticket.file in t.groups[ticket.group].files
    && (exists user :: user in t.groups[ticket.group].files[ticket.file].seeders
          && t.groups[ticket.group].files[ticket.file].seeders[user].peerKey == peerKey)
    && ticket.expires == input.context.now + 300
  }

  lemma IssuedKeyAuthorised(p: Primitives, t: Tracker, input: Input, ticket: PeerTicket, peerKey: Bytes)
    requires Inv(t) && ticket.Key(p.hmac, peerKey) in IssuedBy(p, t, input)
    requires NoCollisionAt(p.hmac, peerKey, KeyInput(ticket.Encode()))
    ensures Authorises(t, input, ticket, peerKey)
  {
    hide PeerTicket.Encode, KeyInput, FromHex, Lookup, Order.KeysInOrder, FileOk;
    var words := Words(input.line);
    DownloadsIssue(p, t, input);
    var r := Request(input.session, UserOf(t, input.session), words[1..], input.context);
    var name := FromHex(r.args[1]).value;
    var written, seeders := TicketFor(r, name), t.groups[r.args[0]].files[name].seeders;
    var order := Order.KeysInOrder(seeders.Keys);
    var accesses := Accesses(p.hmac, written, seeders, order);
    var access :| access in accesses && access.key == ticket.Key(p.hmac, peerKey);
    var i :| 0 <= i < |accesses| && accesses[i] == access;
    assert order[i] in order;
    var seeder := seeders[order[i]];
    assert p.hmac(seeder.peerKey, KeyInput(written.Encode())) == p.hmac(peerKey, KeyInput(ticket.Encode()));
    assert KeyInput(written.Encode()) == KeyInput(ticket.Encode());
    KeyInputInjective(written.Encode(), ticket.Encode());
    EncodeInjective(written, ticket);
    assert r.args == [ticket.group, r.args[1]];
    assert Issues(t, input, ticket.user, DownloadFile, [ticket.group, r.args[1]]);
  }

  lemma KeyInputInjective(a: Bytes, b: Bytes)
    requires KeyInput(a) == KeyInput(b)
    ensures a == b
  {
    var n := |B("torrent-peer-ticket-v1|")|;
    assert KeyInput(a)[n..] == a && KeyInput(b)[n..] == b;
  }

  /** Only a successful download_file issues keys. */
  lemma DownloadsIssue(p: Primitives, t: Tracker, input: Input)
    requires Inv(t) && IssuedBy(p, t, input) != {}
    ensures var words := Words(input.line);
            words != [] && Lookup(words[0]) == Some(DownloadFile) && |words| == 3 &&
            var r := Request(input.session, UserOf(t, input.session), words[1..], input.context);
            && r.user != [] && input.session in t.sessions
            && r.args[0] in t.groups && r.user in t.groups[r.args[0]].members
            && FromHex(r.args[1]).Some? && FromHex(r.args[1]).value in t.groups[r.args[0]].files
            && var name := FromHex(r.args[1]).value;
               var seeders := t.groups[r.args[0]].files[name].seeders;
               var accesses := Accesses(p.hmac, TicketFor(r, name), seeders, Order.KeysInOrder(seeders.Keys));
               IssuedBy(p, t, input) == set access | access in accesses :: access.key
  {
    hide Lookup, FromHex, Accesses, Order.KeysInOrder, TicketFor, GroupOk, Password.Hash, Password.Verify, ParseUpload;
    var words := Words(input.line);
    WordsAreWords(input.line);
    var command := Lookup(words[0]).value;
    var r := Request(input.session, UserOf(t, input.session), words[1..], input.context);
    OnlyDownloadsReplyMeta(p, t, command, r);
  }

  lemma OnlyDownloadsReplyMeta(p: Primitives, t: Tracker, command: TrackerModel.Command, r: Request)
    requires command.Accepts(r.args) && Handle(p, t, command, r).result.response.Meta?
    ensures command == DownloadFile
  {
    hide FromHex, Accesses, Order.KeysInOrder, Password.Hash, Password.Verify, ParseUpload;
  }

  /** If an honest seeder gives any answer but DENIED at time T, then less than 300 seconds before T
      the tracker applied a download_file by the shown ticket's user, who was logged in and a member
      of its group at that moment, for its file, with this seeder's key registered for it. */
  lemma BoundedRevocation(p: Primitives, honest: set<Bytes>, worlds: seq<World>, actions: seq<Action>, n: nat)
    returns (i: nat)
    requires IsRun(p, honest, worlds, actions) && n < |actions| && actions[n].Serve?
    requires AnswerTo(p, worlds[n], actions[n]) != Denied
    requires ShownTicket(actions[n].request).Some? ==>
               NoCollisionAt(p.hmac, actions[n].peerKey, KeyInput(ShownTicket(actions[n].request).value.Encode()))
    ensures ShownTicket(actions[n].request).Some?
    ensures i < |worlds[n].times| == |worlds[n].inputs|
    ensures worlds[n].clock - 300 < worlds[n].times[i] <= worlds[n].clock
    ensures Authorises(StateAt(p, worlds[n].inputs, i), worlds[n].inputs[i], ShownTicket(actions[n].request).value,
            actions[n].peerKey)
  {
    hide Decide, ShownTicket, Step, StateAt, IssuedBy, PeerTicket.Encode, KeyInput, NoCollisionAt;
    var w, a := worlds[n], actions[n];
    assert Enabled(p, honest, w, a);
    RunKeeps(p, honest, worlds, actions, n);
    var id := AnsweredWasSealed(p.hmac, a.peerKey, a.files, a.disk, w.log, a.request, w.clock);
    var ticket := ShownTicket(a.request).value;
    assert Known(p.hmac, honest, w.issued, id.key);
    assert id.key == p.hmac(a.peerKey, KeyInput(ticket.Encode()));
    i :| 0 <= i < |w.inputs| && IssuedAt(p, w, id.key, i);
    RunInv(p, w.inputs, i);
    IssuedKeyAuthorised(p, StateAt(p, w.inputs, i), w.inputs[i], ticket, a.peerKey);
  }

  /** Once the user is out of the group after command `left`, and unless its owner accepts them again,
      every request on any ticket of theirs for that group is DENIED from 300 seconds after that
      command on, at every honest seeder, whatever anyone does. */
  lemma AccessEnds(p: Primitives, honest: set<Bytes>, worlds: seq<World>, actions: seq<Action>, n: nat, left: nat,
                   ticket: PeerTicket)
    requires IsRun(p, honest, worlds, actions) && n < |actions| && actions[n].Serve?
    requires ShownTicket(actions[n].request) == Some(ticket)
    requires NoCollisionAt(p.hmac, actions[n].peerKey, KeyInput(ticket.Encode()))
    requires left < |worlds[n].inputs| == |worlds[n].times|
    requires worlds[n].clock >= worlds[n].times[left] + 300
    requires var after := StateAt(p, worlds[n].inputs, left + 1);
             && ticket.group in after.groups && !IsMember(after, ticket.group, ticket.user)
             && forall i | left < i < |worlds[n].inputs| ::
                  !Issues(StateAt(p, worlds[n].inputs, i), worlds[n].inputs[i], after.groups[ticket.group].owner,
                          AcceptRequest, [ticket.group, ticket.user])
    ensures AnswerTo(p, worlds[n], actions[n]) == Denied
  {
    hide AnswerTo, Step, Enabled, StateAt, ShownTicket, PeerTicket.Encode, KeyInput, NoCollisionAt, IsMember, Issues;
    RunKeeps(p, honest, worlds, actions, n);
    if AnswerTo(p, worlds[n], actions[n]) != Denied {
      var i := BoundedRevocation(p, honest, worlds, actions, n);
      if i > left {
        StaysOut(p, worlds[n].inputs, left + 1, i, ticket.group, ticket.user);
      }
      assert false;
    }
  }

  // ---------------------------------------------------------------- and members are served

  /** Access does not end too early: a member who asks the tracker for a listed file can seal a request under the
      ticket key at any honest seeder of it, and until the ticket expires that seeder answers every such request about
      a file it shares. */
  lemma MemberIsServed(p: Primitives, honest: set<Bytes>, w: World, input: Input, group: Bytes, name: Bytes,
                       seeder: Bytes, later: int, operation: Bytes, piece: U64, sentAt: nat, message: GcmMessage,
                       sent: GcmMessage, files: map<Key, LocalFile>, disk: map<Bytes, Bytes>)
    requires Inv(Now(p, w)) && Listed(Now(p, w), input.session, group, name)
    requires input.line == DownloadLine(group, name) && input.context.now <= w.clock <= later < input.context.now + 300
    requires 0 <= input.context.now && input.context.now + 300 <= MAX_EXPIRES && later - 300 <= sentAt <= later + 300
    requires '\n' !in operation && seeder in Now(p, w).groups[group].files[name].seeders
    requires Now(p, w).groups[group].files[name].seeders[seeder].peerKey in honest
    requires var t := Now(p, w);
             forall user | user in t.groups[group].files[name].seeders ::
               TicketAt(t.sessions[input.session], group, name, input.context.now)
                 .Key(p.hmac, t.groups[group].files[name].seeders[user].peerKey) != []
    requires var ticket := TicketAt(Now(p, w).sessions[input.session], group, name, input.context.now);
             var key := ticket.Key(p.hmac, Now(p, w).groups[group].files[name].seeders[seeder].peerKey);
             MaySeal(w.log, key, RequestAad(ticket.Encode()), RequestPlain(operation, piece, sentAt), message)
    ensures var ticket := TicketAt(Now(p, w).sessions[input.session], group, name, input.context.now);
            var peerKey := Now(p, w).groups[group].files[name].seeders[seeder].peerKey;
            var aad, plain := RequestAad(ticket.Encode()), RequestPlain(operation, piece, sentAt);
            && Enabled(p, honest, w, Command(input))
            && var w1 := Step(p, w, Command(input));
            && Enabled(p, honest, w1, SealMessage(ticket.Key(p.hmac, peerKey), aad, plain, message))
            && var w2 := Step(p, w1, SealMessage(ticket.Key(p.hmac, peerKey), aad, plain, message));
            && Enabled(p, honest, w2, Tick(later))
            && var w3 := Step(p, w2, Tick(later));
               AnswerTo(p, w3, Serve(peerKey, files, disk, EncodeMessage(aad, message), sent)) != Denied <==>
               (group, name) in files
  {
    hide Inv, Apply, StateAt, Decide, RequestAad, RequestPlain, EncodeMessage, PeerTicket.Encode, PeerTicket.Key,
      IssuedBy, DownloadLine, MaySeal;
    var t := Now(p, w);
    var user := t.sessions[input.session];
    var ticket := TicketAt(user, group, name, input.context.now);
    var peerKey := t.groups[group].files[name].seeders[seeder].peerKey;
    var key, aad := ticket.Key(p.hmac, peerKey), RequestAad(ticket.Encode());
    var plain := RequestPlain(operation, piece, sentAt);
    NamedTicket(t, input, group, name);
    OfferedKeyIssued(p, t, input, group, name, seeder);
    var w1 := Step(p, w, Command(input));
    assert key in w1.issued;
    var w2 := Step(p, w1, SealMessage(key, aad, plain, message));
    var w3 := Step(p, w2, Tick(later));
    RequestIsGenuine(p.hmac, peerKey, w.log, ticket, operation, piece, sentAt, later, message);
    ServedIfShared(p.hmac, peerKey, files, disk, w3.log, EncodeMessage(aad, message), later);
  }

  lemma NamedTicket(t: Tracker, input: Input, group: Bytes, name: Bytes)
    requires Inv(t) && Listed(t, input.session, group, name)
    requires 0 <= input.context.now && input.context.now + 300 <= MAX_EXPIRES
    ensures TicketAt(t.sessions[input.session], group, name, input.context.now).Valid()
    ensures TicketAt(t.sessions[input.session], group, name, input.context.now).expires == input.context.now + 300
  {
    assert GroupOk(t.users.Keys, Live(t), t.groups[group]);
    assert FileOk(t.groups[group].members, Live(t), name, t.groups[group].files[name]);
    assert IsWord(t.sessions[input.session]);
  }

  lemma OfferedKeyIssued(p: Primitives, t: Tracker, input: Input, group: Bytes, name: Bytes, seeder: Bytes)
    requires Inv(t) && Listed(t, input.session, group, name) && input.line == DownloadLine(group, name)
    requires seeder in t.groups[group].files[name].seeders
    requires forall user | user in t.groups[group].files[name].seeders ::
               TicketAt(t.sessions[input.session], group, name, input.context.now)
                 .Key(p.hmac, t.groups[group].files[name].seeders[user].peerKey) != []
    ensures TicketAt(t.sessions[input.session], group, name, input.context.now)
              .Key(p.hmac, t.groups[group].files[name].seeders[seeder].peerKey) in IssuedBy(p, t, input)
  {
    hide Inv, Apply, PeerTicket.Key, PeerTicket.Encode, DownloadLine, Order.KeysInOrder;
    var file := t.groups[group].files[name];
    var ticket := TicketAt(t.sessions[input.session], group, name, input.context.now);
    var order, accesses := Order.KeysInOrder(file.seeders.Keys), Offer(p.hmac, file, ticket);
    forall access | access in accesses ensures access.key != [] {
      var i :| 0 <= i < |accesses| && accesses[i] == access;
      assert order[i] in order;
    }
    DownloadApplies(p, t, input.session, group, name, input.context);
    assert seeder in order;
    var i :| 0 <= i < |order| && order[i] == seeder;
    assert accesses[i] in accesses;
  }

  lemma ServedIfShared(hmac: Hmac, peerKey: Bytes, files: map<Key, LocalFile>, disk: map<Bytes, Bytes>, log: SealLog,
                       request: Bytes, now: int)
    requires CheckRequest(hmac, peerKey, log, request, now).Some?
    ensures var ticket := CheckRequest(hmac, peerKey, log, request, now).value.ticket;
            Decide(hmac, peerKey, files, disk, log, request, now) != Denied <==> (ticket.group, ticket.file) in files
  {
    hide CheckRequest, Stored, Bitmap;
  }
}
