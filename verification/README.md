# Torrent Atlas: a verified model

Torrent Atlas is a tracker, a client and the protocols between them. Members of a group share files: the tracker keeps users,
sessions, groups and who seeds what, and hands out tickets that work for five minutes; a client serves pieces to whoever
shows a good ticket, and downloads files piece by piece from several seeders at once while already seeding what it has.

This project models that behaviour in Dafny and proves what it is for. Strings are sequences of bytes. Code that computes
is modelled by functions; code that updates things in place is modelled by methods and classes proved against those
functions; threads and whole systems are modelled as step systems, with the theorems stated over every run.

**Main results**

- Access ends within 300 seconds of membership ending, at every seeder, whatever anyone does (`Revocation.BoundedRevocation`,
  `Revocation.AccessEnds`).
- A download that reports success has put exactly the right bytes at the destination; while it runs, every piece it offers is
  on disk and correct and is never written again; its workers claim each piece once and stop after a bounded number of steps
  (`DownloadRuns`, `DownloadBound`). It resumes, orders, offers, gives up and ends exactly when it should (`DownloadExact`).
- The tracker's state after any command and its reply, as relations with both directions (`TrackerEffects`,
  `TrackerReplies`), its invariant over every run, and the history behind every membership (`TrackerRuns`).
- What one program prints the other reads back: META and upload lines, tickets, peer requests and replies, frames, the
  handshake transcript (`RoundTrips`, `TrackerProtocol`, `PeerProtocol`, `Wire`, `Handshake`).
- `serve()` returns only when every handler thread is past its last use of the server (`Server`), and splitting command
  words inverts every way of spelling them (`CommandWords`).

**Assumptions**, each a hypothesis of the theorems that need it

- HMAC-SHA256 (section 2 of RFC 2104): a parameter with no collision at the ticket in question; keys under an honest seeder's
  peer key are known only once the tracker has issued them.
- AES-256-GCM (section 7 of NIST SP 800-38D): a message opens only if it was sealed under that key and additional data.
- Ed25519 (section 5.1 of RFC 8032): the pinned key verifies only what an accept run signed. X25519 (section 6.1 of RFC 7748):
  both sides compute the same secret.
- SHA-1 (section 6.1 of FIPS 180-4): the wanted file and its pieces have no second preimage.
- One non-decreasing clock for the tracker and the seeders; a command's time was read no later than it was applied.
- A download alone uses its (group, name) entry and its path.

**Where prose and code disagree the model follows the code**: the tracker does not save its state (PROJECT.md:36), there are no
login lockouts (tracker/state/tracker_state.hpp:5), and hello timestamps are checked for freshness (SECURITY.md:136 says
otherwise, common/net/secure_channel.cpp:19 checks them).

**Properties that hold only under a condition**

- A META line gives every access record back if and only if no address text holds '/' or ','; such a text must have a NUL in
  it, because `inet_pton` is given a C string (`TrackerProtocol.MetaRoundTrip`, `RoundTrips.SharedButNotLocated`).
- "Nothing failed, so every piece was fetched" holds if and only if there is a seeder or nothing to fetch
  (`DownloadRuns.GotAllExactly`, and `DownloadRuns.NothingFetchedNothingFailed` for a run where it fails): without seeders no
  worker runs and nothing fails. The final hash still catches it, and `locate` never yields an empty list.
- A seeder's answer depends on what it shares if and only if the request stands on a sealed message of its own
  (`PeerProtocol.RevealsExactly`).
- A listed verb means the same with spaces as with an underscore if and only if a second word follows right there
  (`CommandWords.SpacedIsUnderscored`).
- A command printed as name and arguments parses to itself if and only if its name is not a bare verb before an argument
  (`CommandWords.CommandRoundTrip`).

## Model

| member | source | states |
|---|---|---|
| `Revocation.RunKeeps` | client/peer/peer_server.cpp:33-65 | In every run of tracker, seeders and adversary: command times are ordered and no earlier than their contexts, every known ticket key came from a recorded download_file, and every sealed request under an honest seeder's key used an issued key |
| `Revocation.IssuedKeyAuthorised` | tracker/state/tracker_state.cpp:233-255 | If a ticket's key is among those a command issued, that command was a download_file by the ticket's user, logged in and a member of its group, for its file, with this seeder's key registered for it, and the ticket expires 300 s after the command's time |
| `Revocation.BoundedRevocation` | common/peer_ticket.hpp:30-49 | Any answer but DENIED at time T to a shown ticket implies that less than 300 s before T the tracker applied a download_file that authorises exactly that ticket at exactly that seeder |
| `Revocation.AccessEnds` | tracker/state/tracker_state.cpp:146-191 | Once a user is out of a group, and until its owner accepts them again, every request on any ticket of theirs for that group is DENIED from 300 s on, at every honest seeder |
| `Revocation.MemberIsServed` | tracker/state/tracker_state.cpp:233-255 | Access does not end early: a member who asks for a listed file may seal under the ticket key at any honest seeder of it, and until the ticket expires that seeder answers every such request about a file it shares |
| `TrackerLaws.ApplyKeepsInv` | tracker/state/tracker_state.cpp:51-69 | Every command keeps the invariant: owners are members; pending and members are disjoint registered users; a listed file has valid metadata and at least one seeder, each a member with a live session; session 0 is never bound |
| `TrackerLaws.ApplyEvolves` | tracker/state/tracker_state.cpp:89-220 | Users, their stored passwords, groups and owners stay; a session that stays keeps its user; a file that stays listed keeps its metadata |
| `TrackerLaws.ErrText` | tracker/state/tracker_state.cpp:49-69 | A reply text starts with ERR exactly when the command was refused |
| `TrackerLaws.ErrorLeavesState` | tracker/state/tracker_state.cpp:194-220 | An ERR reply leaves users, sessions and groups exactly as they were, also after operator[] in upload_file |
| `TrackerLaws.RemoveSharesExact` | tracker/state/tracker_state.cpp:82-87 | Removing a user's shares is an exact filter: other users' records stay, theirs are gone, no file is left without a seeder |
| `TrackerEffects.MembershipExact` | tracker/state/tracker_state.cpp:128-191 | A user is a member after a command if and only if they were and it is not their leaving or removal, or the owner accepts their request, or they found the group; likewise for waiting users and for owners, who never change |
| `TrackerEffects.SessionsExact` | tracker/state/tracker_state.cpp:89-126 | A session is bound to a user after a command if and only if it was and this is not its logout, or this is a login with the right password into a free session; stored passwords are only added |
| `TrackerEffects.SharingExact` | tracker/state/tracker_state.cpp:194-266 | A user's seeder record after a command is that of their upload_file if it is taken, none if it is their logout, departure or stop_share, and as before otherwise |
| `TrackerReplies.CommandNames` | tracker/state/tracker_state.cpp:26-47 | Each of the fourteen commands is known under its own name and no other |
| `TrackerReplies.EarlyRefusals` | tracker/state/tracker_state.cpp:51-69 | Empty and unknown commands, missing logins and wrong argument counts are refused exactly then, in that order, and everything else reaches its handler |
| `TrackerReplies.RepliesExact` | tracker/state/tracker_state.cpp:89-266 | Each of the handlers' refusals and successes is the reply if and only if what it says about users, sessions, groups, rosters and shares is so |
| `TrackerReplies.SessionReplies` | tracker/state/tracker_state.cpp:100-126 | A login that is taken replies with exactly the session it binds, a logout that is taken with 0, everything else with the caller's own |
| `TrackerReplies.ListsExact` | tracker/state/tracker_state.cpp:155-168 | list_groups lists the groups, list_requests the waiting users for the owner, list_files the hex names for members, each ascending and once |
| `TrackerReplies.ListRoundTrip` | tracker/state/tracker_state.cpp:155-159 | Reading a list reply word by word gives back exactly the names |
| `TrackerReplies.UploadExact` | tracker/state/tracker_state.cpp:194-212 | Which upload lines are taken, and as what, both directions |
| `TrackerReplies.ReplyText` | tracker/state/tracker_state.cpp:54-68 | A reply line is OK with what was done or ERR with why, and a usage line is that of the very command |
| `TrackerReplies.ExpectedSuccesses` | tests/tracker_state_tests.cpp:13-88 | The words of success the tracker's tests expect |
| `TrackerReplies.ExpectedRefusals` | tests/tracker_state_tests.cpp:16-97 | The words the tests expect for commands and accounts that are refused |
| `TrackerReplies.ExpectedMemberRefusals` | tests/tracker_state_tests.cpp:63-91 | The words the tests expect for members and outsiders that are refused |
| `TrackerReplies.ExpectedOwnerRefusals` | tests/tracker_state_tests.cpp:69-85 | The words the tests expect for what only an owner may do |
| `TrackerRuns.RunInv` | tracker/state/tracker_state.cpp:51-69 | The invariant holds before and after every command of every run from the empty tracker |
| `TrackerRuns.MetadataFixed` | tracker/state/tracker_state.cpp:214-219 | Over any stretch of a run in which a file stays listed its metadata does not change |
| `TrackerRuns.PendingHistory` | tracker/state/tracker_state.cpp:137-144 | A waiting user sent join_group themselves and has been waiting ever since |
| `TrackerRuns.MembershipHistory` | tracker/state/tracker_state.cpp:128-191 | A member other than the owner sent join_group, waited until the owner's accept_request, and has been a member in every state since |
| `TrackerRuns.DepartureHistory` | tracker/state/tracker_state.cpp:146-191 | Membership lost between two states was lost by the user's own leave_group or the owner's remove_member, and not regained |
| `TrackerRuns.OwnerFixed` | tracker/state/tracker_state.cpp:128-135 | A group, once there, stays, with the same owner |
| `TrackerRuns.StaysOut` | tracker/state/tracker_state.cpp:170-178 | Nobody re-enters a group unless its owner accepts a request of theirs |
| `TrackerStateClass.RemoveSharesOf` | tracker/state/tracker_state.cpp:82-87 | The erase-while-walking loop leaves exactly the filtered files |
| `TrackerStateClass.HexWords` | tracker/state/tracker_state.cpp:222-229 | The listing loop yields the hex of every name, in order |
| `TrackerStateClass.IssueTickets` | tracker/state/tracker_state.cpp:244-251 | The loop yields one access record per seeder, and fails exactly when some key is empty |
| `TrackerStateClass.TrackerState.Apply` | tracker/state/tracker_state.cpp:51-69 | Updating the maps in place gives the state and reply that all tracker theorems are about |
| `TrackerStateClass.TrackerState.Dispatch` | tracker/state/tracker_state.cpp:26-47 | Each command reaches its own handler |
| `TrackerStateClass.TrackerState.CreateUser` | tracker/state/tracker_state.cpp:89-98 | Whole new state and reply, including the existing name and the failed hash |
| `TrackerStateClass.TrackerState.Login` | tracker/state/tracker_state.cpp:100-119 | Whole new state and reply, including the taken or zero session |
| `TrackerStateClass.TrackerState.Logout` | tracker/state/tracker_state.cpp:121-126 | Whole new state and reply: the loop over the groups drops the user's shares everywhere |
| `TrackerStateClass.TrackerState.CreateGroup` | tracker/state/tracker_state.cpp:128-135 | Whole new state and reply |
| `TrackerStateClass.TrackerState.JoinGroup` | tracker/state/tracker_state.cpp:137-144 | Whole new state and reply, including members and users already waiting |
| `TrackerStateClass.TrackerState.LeaveGroup` | tracker/state/tracker_state.cpp:146-153 | Whole new state and reply, including the owner and the non-member |
| `TrackerStateClass.TrackerState.ListGroups` | tracker/state/tracker_state.cpp:155-159 | Every group name, in order, and nothing changes |
| `TrackerStateClass.TrackerState.ListRequests` | tracker/state/tracker_state.cpp:161-168 | Every waiting user, in order, for the owner only, and nothing changes |
| `TrackerStateClass.TrackerState.AcceptRequest` | tracker/state/tracker_state.cpp:170-178 | Whole new state and reply |
| `TrackerStateClass.TrackerState.RemoveMember` | tracker/state/tracker_state.cpp:182-191 | Whole new state and reply, including the owner as target |
| `TrackerStateClass.TrackerState.UploadFile` | tracker/state/tracker_state.cpp:194-220 | Whole new state and reply, including the entry that operator[] makes before the conflict check |
| `TrackerStateClass.TrackerState.ListFiles` | tracker/state/tracker_state.cpp:222-229 | Every file name in hex, in order, for members only |
| `TrackerStateClass.TrackerState.DownloadFile` | tracker/state/tracker_state.cpp:233-255 | The META reply with one record per seeder, or the refusal, and nothing changes |
| `TrackerStateClass.TrackerState.StopShare` | tracker/state/tracker_state.cpp:257-266 | Whole new state and reply, including the file that loses its last seeder |
| `Order.InKeyOrder` | tracker/state/tracker_state.cpp:155-168 | Walking a std::map or std::set visits the keys in the order of KeysInOrder |
| `Order.KeysInOrderSorted` | tracker/state/tracker_state.cpp:155-168 | That order is ascending and has each key once |
| `Order.SortTextsSorts` | tracker/state/tracker_state.cpp:252-252 | The sorted seeder list is ascending and a permutation of the unsorted one |
| `Order.LexExact` | tracker/state/tracker_state.cpp:252-252 | The order is that of std::string: by the first differing byte, a prefix first |
| `Password.VerifyHash` | tracker/state/password.cpp:13-33 | A stored password accepts exactly the attempts with the same derived digest |
| `Password.HashExact` | tracker/state/password.cpp:13-18 | Hashing fails exactly on a salt that is not 16 bytes or a failed derivation with 20000 iterations |
| `Password.VerifyStored` | tracker/state/password.cpp:20-33 | A stored text accepts exactly the attempts that give its digest under its own salt and iteration count, up to a million |
| `TrackerProtocol.RequestReplyRoundTrip` | tracker/tracker_service.cpp:5-19 | The tracker applies exactly the command and session the client sent, and the client reads back exactly the reply and the new session, whatever bytes they hold |
| `TrackerProtocol.RequestExact` | tracker/tracker_service.cpp:5-15 | Any decimal spelling of a session is accepted, and everything after the second tab is the command |
| `TrackerProtocol.MalformedExact` | tracker/tracker_service.cpp:8-11 | Any other request is refused as malformed and changes nothing |
| `TrackerProtocol.StripExact` | client/tracker_client.cpp:17-25 | A reply is read exactly when it ends in a tab and a session number, and then as the text before the last tab |
| `TrackerProtocol.TrackerClient.Request` | client/tracker_client.cpp:10-27 | The session changes only when the reply parses, and then to the one in the reply; otherwise an ERR text and the old session |
| `TrackerProtocol.ReadSeeders` | client/tracker_client.cpp:59-62 | The loop keeps exactly the entries that parse, in order |
| `TrackerProtocol.DecodeAllConcat` | client/tracker_client.cpp:59-62 | Each record is read on its own: one that does not decode is skipped and spoils no other |
| `TrackerProtocol.LocateExact` | client/tracker_client.cpp:42-67 | locate succeeds exactly on META lines of five words with valid metadata and some readable record, and passes other replies on as the error |
| `TrackerProtocol.LocatedHasSeeder` | client/tracker_client.cpp:55-67 | A located file has valid metadata and at least one seeder |
| `TrackerProtocol.MetaRoundTrip` | client/tracker_client.cpp:38-68 | Reading a META line never yields other metadata, and yields every access record, sorted, if and only if no address text holds a separator |
| `TrackerProtocol.DecodedArePlain` | common/peer_ticket.cpp:30-40 | Whatever the client does read has an address without separators |
| `TrackerProtocol.AddressWithNulIsLost` | common/net/net.cpp:17-23 | A META line whose one record has this concrete valid address text is read as having no seeders |
| `RoundTrips.DownloadApplies` | tracker/state/tracker_state.cpp:233-255 | A member's download_file for a listed file answers META with one record per seeder and changes nothing |
| `RoundTrips.DownloadRoundTrip` | client/tracker_client.cpp:38-68 | From the client's call through the tracker and back: the same session, the exact metadata, and one record per seeder with its address, ticket and key |
| `RoundTrips.ShareParses` | client/tracker_client.cpp:29-36 | The tracker's upload parser reads back exactly the record the client described |
| `RoundTrips.ShareRoundTrip` | tracker/state/tracker_state.cpp:194-220 | Sharing registers exactly this seeder under exactly this metadata and changes nothing else, or is refused because the file is listed with other content |
| `RoundTrips.SharedButNotLocated` | client/tracker_client.cpp:55-67 | Through both programs: a file shared from that address is registered by the tracker, and whoever then asks for it is told it has no valid endpoints |
| `Tickets.EncodeInjective` | common/peer_ticket.cpp:6-8 | The wire form determines the ticket, for any field values |
| `Tickets.DecodeEncode` | common/peer_ticket.cpp:6-20 | Decoding inverts encoding if and only if the fields are nonempty and the expiry is in 0..2^62 |
| `Tickets.DecodedText` | common/peer_ticket.cpp:10-20 | Whatever decodes is a valid ticket, written in hex digits and dots only |
| `Tickets.ExpiredExact` | common/peer_ticket.hpp:47-49 | A ticket is live exactly while the clock is below its expiry, and valid exactly with nonempty fields and an expiry in 0..2^62 |
| `Tickets.AccessRoundTrip` | common/peer_ticket.cpp:26-40 | An access record survives the wire if and only if its address text holds no '/'; otherwise it does not decode at all |
| `Tickets.DecodedAccess` | common/peer_ticket.cpp:30-40 | Whatever decodes has a valid endpoint, a valid ticket and a 32-byte key |
| `Tickets.ExpiresExact` | common/peer_ticket.cpp:42-45 | An access record expires with its ticket, and at 0 without a valid one |
| `PeerProtocol.FreshWindow` | common/net/freshness.hpp:21-27 | With the signed and unsigned casts as written, the check is a symmetric 300 s window on every clock from 1970 to 2^62 |
| `PeerProtocol.BuildBitmap` | client/peer/peer_server.cpp:52-53 | The loop sends one byte per piece |
| `PeerProtocol.Respond` | client/peer/peer_server.cpp:33-65 | The chain of early returns, with the flag test and the read in place, gives exactly the frame of the decision function |
| `PeerProtocol.RequestIsGenuine` | client/peer/peer_protocol.cpp:19-28 | Every request made with a live ticket, its key at this seeder and a fresh time passes all checks and is read as it was meant |
| `PeerProtocol.ReplyOpens` | client/peer/peer_protocol.cpp:30-36 | The downloader opens exactly what the seeder sealed for this request |
| `PeerProtocol.PeerExchange` | client/peer/peer_client.cpp:5-17 | makeRequest, respond and openReply together yield exactly the availability flags, the bytes of a piece whose flag is up and which is on disk, or nothing; DENIED exactly when the file is not shared |
| `PeerProtocol.StoredExact` | client/peer/peer_server.cpp:54-57 | A stored piece is there exactly when its flag is up and the file reaches to its end, and is that slice of the file |
| `PeerProtocol.GetExact` | client/peer/peer_server.cpp:54-60 | A genuine GET of a shared file is answered with a piece if and only if the flag is up and the whole piece is on disk, and then with exactly those bytes; otherwise it is unavailable |
| `PeerProtocol.OtherAnswers` | client/peer/peer_server.cpp:58-63 | Other operations and failed encryptions are answered unavailable, never with data |
| `PeerProtocol.AnsweredWasSealed` | client/peer/peer_server.cpp:33-49 | Every answer but DENIED was asked for in this very request: its own message was sealed under the key that the shown, unexpired ticket has at this very seeder, for that ticket's text, with a time within the window |
| `PeerProtocol.UnsealedRevealsNothing` | client/peer/peer_server.cpp:30-49 | A request whose own message was not sealed that way is DENIED for all contents of the shared files and the disk, however many other requests were sealed under the ticket's key |
| `PeerProtocol.RevealsExactly` | client/peer/peer_server.cpp:30-49 | The answer is the same for all contents of the shared files and the disk if and only if the request does not stand on a sealed, timely message of its own under a live ticket |
| `PeerProtocol.ReplyAadInjective` | client/peer/peer_protocol.cpp:30-36 | A reply's additional data determines the ticket and the nonce of the request it answers |
| `PeerProtocol.OpenedWasSealed` | client/peer/peer_protocol.cpp:30-36 | Whatever opens as a reply was sealed under this key for this ticket and this nonce, and opens to what was sealed |
| `PeerProtocol.ReplyIsNotReused` | client/peer/peer_protocol.cpp:30-36 | Sealing a reply for any other ticket, nonce or key changes nothing about what any frame opens to here |
| `SharedFilesClass.SharedFiles.Find` | client/storage/shared_files.cpp:8-14 | The entry, or none |
| `SharedFilesClass.SharedFiles.MarkAvailable` | client/storage/shared_files.cpp:16-22 | Exactly one flag of one entry rises, or nothing changes; paths, metadata and other entries stay |
| `SharedFilesClass.SharedFiles.RemoveGroup` | client/storage/shared_files.cpp:29-33 | The erase-while-walking loop removes exactly the group's entries |
| `DownloadParts.BitmapRoundTrip` | client/peer/peer_client.cpp:19-29 | The downloader reads back exactly the flags the seeder sent |
| `DownloadParts.ResultExact` | client/peer/peer_client.cpp:5-17 | A request's result is Success if and only if the ticket entitles to something, AuthenticationFailure if and only if the file is not shared, and Unavailable if and only if it is shared and there is nothing to give |
| `DownloadParts.BitmapResultExact` | client/peer/peer_client.cpp:19-29 | A bitmap request succeeds if and only if the file is shared with that number of pieces, and then brings exactly its flags; otherwise it is an AuthenticationFailure |
| `DownloadParts.PieceResultExact` | client/peer/peer_client.cpp:31-37 | A piece request succeeds if and only if the seeder's flag is up, the whole piece is on disk and its bytes have the expected hash, and is an IntegrityFailure if and only if they have another |
| `DownloadParts.FetchBitmap` | client/peer/peer_client.cpp:19-29 | The bitmap is refilled with the reply's flags on success and left alone otherwise |
| `DownloadParts.NoResponse` | client/peer/peer_client.cpp:10-12 | Without a response every request is a network failure, and brings no flags |
| `DownloadParts.HoldersExact` | client/download/download.cpp:115-118 | The holders of a piece are exactly the seeders whose bitmap has it, once each, ascending |
| `DownloadParts.CountBitmap` | client/download/download.cpp:87-87 | The inner loop adds one to the rarity of exactly the pieces the bitmap has |
| `DownloadParts.FetchBitmaps` | client/download/download.cpp:79-89 | Whatever each request came back with, rarity[p] is the number of holders fetchPiece later computes for p, and a failed request leaves an empty bitmap |
| `DownloadParts.RarestFirst` | client/download/download.cpp:91-98 | Exactly the unverified pieces, once each, rarer before commoner and lower before higher numbers |
| `DownloadParts.RarestFirstUnique` | client/download/download.cpp:91-98 | That description leaves only one order |
| `DownloadParts.PassIsPermutation` | client/download/download.cpp:121-123 | One pass asks every holder once, wherever it starts, for any number of holders including none |
| `DownloadParts.ScheduleAt` | client/download/download.cpp:120-123 | Attempt n asks the n-th holder of three such passes |
| `DownloadParts.ScheduleFair` | client/download/download.cpp:120-134 | Over all attempts every holder is asked exactly three times |
| `DownloadParts.FetchPiece` | client/download/download.cpp:114-136 | Attempts follow the schedule, stop at the first success, and without cancellation a failure has asked all of it; wrong-hash replies are counted exactly |
| `DownloadParts.Renewed` | client/download/download.cpp:34-37 | An updated access keeps its endpoint and is either the old one or one of the updates |
| `DownloadParts.RenewedExact` | client/download/download.cpp:35-37 | The last update for an endpoint is the one taken; without one the access stays |
| `DownloadParts.SeederAt` | client/download/download.cpp:28-40 | Renewal happens exactly when fewer than 60 seconds are left and the tracker answers; each index keeps the endpoint whose bitmap was read |
| `DownloadLaws.StartInv` | client/download/download.cpp:60-77 | The invariant holds when the .part file has been opened, whatever it held |
| `DownloadLaws.VerifyKeeps` | client/download/download.cpp:70-74 | Re-hashing a piece keeps the invariant; exactly which pieces it marks is in DownloadExact.VerifyExact |
| `DownloadLaws.AnnounceKeeps` | client/download/download.cpp:44-51 | Publishing the resumed pieces and starting the workers keeps the invariant |
| `DownloadLaws.ClaimKeeps` | client/download/download.cpp:107-107 | Taking the next position keeps the invariant: held positions are distinct, below the counter, and what is unclaimed is not done |
| `DownloadLaws.WriteKeeps` | client/storage/piece_file.cpp:54-64 | Each partial pwrite keeps the invariant while others write and readers read: the worker's own piece has one more correct stretch, no other piece is touched |
| `DownloadLaws.CountKeeps` | client/download/download.cpp:138-139 | Counting keeps the invariant: it counts a piece not counted before, whose bytes are on disk |
| `DownloadLaws.PublishKeeps` | client/download/download.cpp:140-140 | Publishing keeps the invariant: a flag rises only for a piece that is counted and on disk |
| `DownloadLaws.FailKeeps` | client/download/download.cpp:108-108 | Recording a failure keeps the invariant: a position given up undone is let go only after failed or cancelled is set |
| `DownloadLaws.ReadKeeps` | client/peer/peer_server.cpp:54-60 | A concurrent read in parts keeps the invariant: what it has collected is a prefix of the right piece at every moment |
| `DownloadLaws.JoinedAllDone` | client/download/download.cpp:110-111 | Not failed and not cancelled after the join, with at least one seeder, means that every piece is done |
| `DownloadLaws.FinishKeeps` | client/download/download.cpp:144-156 | Hashing, renaming and re-publishing keep the invariant, also between the rename and the new entry |
| `DownloadRuns.StepKeeps` | client/download/download.cpp:42-156 | Every step of every thread keeps the invariant |
| `DownloadRuns.RunKeeps` | client/download/download.cpp:42-156 | The invariant holds at every moment of every run |
| `DownloadRuns.OfferedIsCorrect` | client/download/download.cpp:46-47 | At every moment an offered piece has its correct bytes on disk, and a concurrent GET was answered with the right piece or with nothing |
| `DownloadRuns.OfferedIsNotWritten` | client/download/download.cpp:127-128 | No step writes a piece that is offered or that a reader has open |
| `DownloadRuns.OnlyWritesChange` | client/storage/piece_file.cpp:54-64 | Every step but a write of that piece leaves a piece's bytes as they are |
| `DownloadRuns.OfferedIsServed` | client/peer/peer_server.cpp:54-60 | Where the entry names the file's place, a GET of an offered piece read to the end brings that piece |
| `DownloadRuns.NextGrows` | client/download/download.cpp:101-107 | The claim counter never falls and the order stays once it is made |
| `DownloadRuns.ClaimedOnce` | client/download/download.cpp:107-107 | No position of the order, and so no piece, is claimed twice in a run |
| `DownloadRuns.CompletedCounts` | client/download/download.cpp:138-141 | completed_ is the pieces resumed plus the pieces marked, all different and correct on disk, and at most the number of pieces |
| `DownloadRuns.GotAllIsExact` | client/download/download.cpp:51-55 | When the workers have joined and nothing failed or was cancelled, the .part file is the wanted file and hashes to the tracker's metadata |
| `DownloadRuns.GotAllExactly` | client/download/download.cpp:100-112 | After the join, with nothing failed and nothing cancelled, every piece is there if and only if there was a seeder or nothing to fetch |
| `DownloadRuns.IntegrityCannotFail` | client/download/download.cpp:146-148 | With a seeder, the final integrity check of a readable .part passes |
| `DownloadRuns.CompleteIsExact` | client/download/download.cpp:149-155 | State C means that the destination holds exactly the wanted file, whatever the old .part held and whatever seeders sent |
| `DownloadRuns.WithoutSeeders` | client/download/download.cpp:103-111 | Without seeders no worker runs, nothing is marked, the file does not change, and nothing counts as failed |
| `DownloadRuns.NothingFetchedNothingFailed` | client/download/download.cpp:103-111 | A concrete run, one piece and no seeders, that joins with nothing failed and nothing fetched |
| `DownloadExact.StartKeepsBytes` | client/storage/piece_file.cpp:35-39 | Opening keeps the old bytes as far as they go and fills up with zeros |
| `DownloadExact.VerifyExact` | client/download/download.cpp:70-75 | Re-hashing marks a piece if and only if there was a .part, the piece can be read and its bytes are right; no other piece and no byte changes |
| `DownloadExact.ResumeExact` | client/download/download.cpp:60-77 | In every run, once its turn is over a piece counts as resumed if and only if the old .part had it, readable and right |
| `DownloadExact.PlanExact` | client/download/download.cpp:91-97 | The order holds exactly the pieces that could not be resumed, and resumed plus ordered is the number of pieces |
| `DownloadExact.DoneIsOffered` | client/download/download.cpp:138-141 | While the file is shared, every piece that is done is offered or about to be by its worker |
| `DownloadExact.JoinedIsOffered` | client/download/download.cpp:46-51 | After the join everything done is offered, unless the file was withdrawn |
| `DownloadExact.NoEntryForAReason` | client/storage/shared_files.cpp:24-33 | The entry is missing after the announcement only because of a withdrawal |
| `DownloadExact.WithdrawnIsGone` | client/storage/shared_files.cpp:16-27 | A withdrawn file is not offered again by marking pieces, only by a new entry |
| `DownloadExact.FailsOnlyAfterThreePasses` | client/download/download.cpp:114-136 | A download fails for want of a piece only after exactly three requests per holder of it have come back in vain |
| `DownloadExact.NeverMoreThanThreePasses` | client/download/download.cpp:120-121 | No piece is asked for more often than that |
| `DownloadExact.WorkerCount` | client/download/download.cpp:103-106 | There are as many workers as seeders and ordered pieces allow, and at most eight |
| `DownloadExact.CancelledExact` | client/download/download.hpp:50 | In every run the cancel flag is up if and only if the user has cancelled |
| `DownloadExact.CancelledNeverCompletes` | client/download/download.cpp:53 | A download cancelled before its workers' result is looked at never hashes, renames or completes, whatever happens afterwards |
| `DownloadExact.CancelStops` | client/download/download.cpp:107-121 | Once cancelled no worker claims a piece, starts a request or counts a failure |
| `DownloadExact.MovedExact` | client/download/download.cpp:150 | In every run the file is under its destination if and only if a rename has worked |
| `DownloadExact.OpenExact` | client/peer/peer_server.cpp:55-57 | In every run a seeder thread can open the file if and only if the path it copied is where the file is by then; after a rename in between it answers unavailable |
| `DownloadExact.SuccessfulEnd` | client/download/download.cpp:144-156 | When everything was fetched, four steps that can go right lead to state C with every piece offered from the destination |
| `DownloadExact.FailsForAReason` | client/download/download.cpp:52-55 | State F comes only from a failed piece, a cancellation, an error of hashing or renaming, or a .part that is not the file |
| `DownloadBound.WorkIsBounded` | client/download/download.cpp:105-134 | From the moment they exist the workers take together at most a number of steps computed from the order and the bitmaps, for every schedule |
| `DownloadBound.JoinIsReached` | client/download/download.cpp:105-110 | From every working state the workers alone reach the join within that bound, whatever each request and write comes back with |
| `Pieces.ReadPieceExact` | client/storage/piece_file.cpp:41-52 | Reading a piece at its stated length gives exactly that piece |
| `Pieces.MetadataOfValid` | client/storage/piece_file.cpp:66-84 | Hashing a file gives valid metadata whose i-th hash is that of the bytes a read of piece i returns |
| `Pieces.PiecesDetermine` | common/file_metadata.cpp:5-8 | A file is determined by its length and its pieces |
| `PieceFileClass.PieceFile.Read` | client/storage/piece_file.cpp:41-52 | Under every pattern of partial counts and interruptions a successful read returns the one-shot bytes, and it succeeds if they exist and the calls keep moving bytes |
| `PieceFileClass.PieceFile.Write` | client/storage/piece_file.cpp:54-64 | A successful write stores exactly the data at the piece's offset; a failed one has stored a prefix of it and touched nothing else |
| `PieceFileClass.OverwriteMore` | client/storage/piece_file.cpp:54-64 | Two writes end to end are one write of both |
| `PieceFileClass.OverwriteExact` | client/storage/piece_file.cpp:54-64 | Exactly the bytes after a write: the data in its place, the old bytes around it, zeros in a gap |
| `PieceFileClass.HashFile` | client/storage/piece_file.cpp:66-84 | The buffered loop yields the size, the hash of the whole and the hash of every piece |
| `Metadata.PieceBounds` | common/file_metadata.cpp:5-8 | Piece lengths are 1..PIECE_SIZE and the pieces follow one another up to the size |
| `Metadata.PieceTiling` | common/file_metadata.hpp:14-17 | Every byte position lies in exactly one piece |
| `Metadata.ValidExact` | common/file_metadata.cpp:10-14 | Metadata is valid if and only if every hash is 40 hex digits and the pieces of 524288 bytes are just as many as the size needs |
| `Metadata.PieceHashListRoundTrip` | common/file_metadata.cpp:16-22 | Parsing inverts printing for every valid metadata, the empty list too, and the text is one word |
| `Endpoints.ParseToString` | common/net/net.cpp:46-58 | Parsing a printed endpoint gives it back if and only if it is valid |
| `Endpoints.ParseValid` | common/net/net.cpp:46-58 | Whatever parses is valid |
| `Endpoints.ParseExact` | common/net/net.cpp:46-58 | A text parses if and only if it is a valid address, a colon and the port in decimal, with any leading zeros |
| `Endpoints.QuadExact` | common/net/net.cpp:17-23 | An address is four numbers up to 255, plainly printed, with dots between them |
| `Endpoints.OctetExact` | common/net/net.cpp:17-23 | An octet is a number up to 255 printed without leading zeros |
| `Endpoints.PlainAddress` | common/net/net.cpp:17-23 | A valid address without NUL is a single word of digits and dots |
| `Endpoints.AddressBehindNul` | common/net/net.cpp:17-23 | Behind a NUL an accepted address text may hold anything but ':' |
| `Wire.FirstFrameOfFrame` | common/net/net.cpp:154-167 | The first frame of a stream is the first one sent, and what follows is left |
| `Wire.BigEndianExact` | common/net/net.cpp:156-163 | The length travels with its most significant byte first |
| `Wire.StreamMore` | common/net/net.cpp:154-158 | Sending one more frame appends it to the stream |
| `Wire.Connection.SendAll` | common/net/net.cpp:123-140 | However the calls are cut, a prefix of the data is sent, all of it on success, and success if the calls keep moving bytes |
| `Wire.Connection.ReceiveAll` | common/net/net.cpp:142-152 | However the calls are cut, exactly the next bytes are taken off the stream |
| `Wire.Connection.SendFrame` | common/net/net.cpp:154-158 | An oversized payload is refused with nothing sent; success adds exactly one frame |
| `Wire.Connection.ReceiveFrame` | common/net/net.cpp:160-167 | Success takes exactly the first frame; an oversized length is refused |
| `Wire.Connection.SendFrames` | common/net/net.cpp:154-158 | Frames sent one after another make up exactly the stream of their payloads, however the calls are cut; all are sent if none is oversized and the calls keep moving bytes, and an oversized one never is |
| `Wire.Connection.ReceiveFrames` | common/net/net.cpp:160-167 | From the stream of any payloads, receiving repeatedly yields exactly these payloads, for every cutting of the calls, and does so whenever the calls keep moving bytes |
| `Wire.StreamInjective` | common/net/net.cpp:154-158 | The bytes on the wire determine the payloads |
| `Wire.PieceReplyFits` | client/peer/peer_protocol.cpp:8-11 | A reply with any valid piece fits in one frame |
| `Handshake.TranscriptInjective` | common/net/secure_channel.cpp:29-31 | With the client's four fields the transcript determines both hellos |
| `Handshake.HandshakeAgreement` | common/net/secure_channel.cpp:55-90 | If connect succeeds, an accept run of the tracker received exactly this hello, signed the identical transcript and derived the same key |
| `Handshake.KeyBindsSecret` | common/net/secure_channel.cpp:36-44 | Where SHA-256 does not collide, two session keys are equal if and only if the shared secrets and the transcripts are |
| `Handshake.OthersLackKey` | common/net/secure_channel.cpp:36-44 | An accept run with another transcript or another shared secret derives another key |
| `Handshake.HandshakeCompletes` | common/net/secure_channel.cpp:55-90 | With honest sides, clocks within 300 seconds and delivery, connect succeeds with the accept run's key |
| `Handshake.HandshakeIsFresh` | common/net/secure_channel.cpp:14-20 | Neither side takes a hello with a public key that is not 32 bytes, a nonce that is not 16 bytes or a time more than 300 seconds off |
| `Handshake.ChannelRoundTrip` | common/net/secure_channel.cpp:92-103 | What one side seals the other receives; the sender itself takes it only if the other side sealed that same message |
| `Handshake.ReceivedWasSealed` | common/net/secure_channel.cpp:98-103 | Whatever a side receives was sealed under this key with the other side's label, in the 12/16/rest layout |
| `Server.RunKeeps` | common/net/tcp_server.cpp:12-36 | In every interleaving active_ is the handlers started or owed and not yet counted down, and the mutex has one holder |
| `Server.LoopEndsExactly` | common/net/tcp_server.cpp:13-21 | A step leaves the loop of serve() if and only if its test finds the stop flag set or accept fails for good |
| `Server.LoopEndsForAReason` | common/net/tcp_server.cpp:13-21 | serve() leaves its loop only after stop() or when accept fails for good, however often a poll finds nothing |
| `Server.OneHandlerEach` | common/net/tcp_server.cpp:17-31 | In every run the accepted connections are exactly the handlers started, and at most one owed |
| `Server.ConnectionIsServed` | common/net/tcp_server.cpp:13-31 | Unless it is being stopped, the loop takes a waiting connection and starts its handler, counted |
| `Server.HandlerIsCountedDown` | common/net/tcp_server.cpp:26-31 | A handler's steps after its work count it down by one, wake a sleeping serve() and release the mutex |
| `Server.DrainReturns` | common/net/tcp_server.cpp:33-36 | With nothing active serve() returns |
| `Server.HandlersGrow` | common/net/tcp_server.cpp:13-33 | Once serve() has left its loop no handler starts |
| `Server.DrainedForGood` | common/net/tcp_server.cpp:33-36 | When serve() has returned every handler thread has released the mutex for the last time, and nothing happens afterwards |
| `Server.AtMostOneLate` | common/net/tcp_server.cpp:13-32 | After stop() at most one more handler starts |
| `Server.NeverStuck` | common/net/tcp_server.cpp:26-35 | No wake-up is lost: until serve() returns, it or a handler can take a step |
| `CommandWords.ParseCommandWords` | client/command_line.cpp:6-36 | The character loop computes the fold that the theorems are about |
| `CommandWords.SpelledWordsAreFound` | client/command_line.cpp:6-36 | However words are spelled (plain, escaped, in either quotes, glued, empty) and spaced, exactly these words are found |
| `CommandWords.ParsePrint` | client/command_line.cpp:6-36 | Splitting inverts quoting every word and escaping every character, for all lists of words |
| `CommandWords.OpenQuoteRunsToEnd` | client/command_line.hpp:9-14 | An unterminated quote means the same as one closed at the end of the line |
| `CommandWords.LastBackslashIsKept` | client/command_line.cpp:33-33 | A backslash at the end of the line stands for itself |
| `CommandWords.SpacedIsUnderscored` | client/command_line.cpp:38-51 | On lines, whatever follows: spaces or an underscore after a listed verb give the same command if and only if a second word starts right there |
| `CommandWords.VerbsExact` | client/command_line.cpp:39-41 | The listed verbs are exactly these eleven |
| `CommandWords.BlankLine` | client/command_line.cpp:43-43 | A blank line is the empty command |
| `CommandWords.CommandRoundTrip` | client/command_line.cpp:38-51 | Exactly which commands parse back to themselves when printed as name and arguments |
| `Text.EncodeHex` | common/encoding.cpp:7-16 | The loop computes the hex function |
| `Text.DecodeHex` | common/encoding.cpp:18-33 | The loop accepts exactly what the decoding function accepts and leaves the output alone on failure |
| `Text.HexRoundTrip` | common/encoding.cpp:7-33 | Decoding inverts encoding for all bytes |
| `Text.FromHexExact` | common/encoding.cpp:18-33 | Exactly pairs of hex digits of either case decode, and encode again to their lower-case form |
| `Text.ToHexInjective` | common/encoding.cpp:7-16 | Hex determines the bytes |
| `Text.ParseDec` | common/encoding.cpp:41-48 | Parsing a printed number gives it back if and only if it fits in 64 bits |
| `Text.ParseU64Exact` | common/encoding.cpp:41-48 | Exactly the printed numbers below 2^64 with any leading zeros parse, and to themselves |
| `Text.DecIntParses` | common/encoding.cpp:41-48 | Which printed signed numbers parse as unsigned ones |
| `Text.SplitText` | common/encoding.cpp:50-59 | The find loop computes the split function |
| `Text.JoinParts` | common/encoding.cpp:61-68 | The loop computes the join function |
| `Text.SplitJoin` | common/encoding.cpp:50-68 | Splitting inverts joining for nonempty lists of parts without the delimiter |
| `Text.JoinSplit` | common/encoding.cpp:50-68 | Joining inverts splitting for every text, and no part holds the delimiter |
| `Text.SplitInjective` | common/encoding.cpp:50-59 | The fields determine the text |
| `Text.ReadWords` | tracker/state/tracker_state.cpp:53-55 | The extraction loop computes the words of the line |
| `Text.WordsSpaced` | tracker/state/tracker_state.cpp:53-55 | A word ends at any whitespace, however much of it there is |
| `Text.WordsSkip` | tracker/state/tracker_state.cpp:53-55 | Whitespace before a word does not matter |
| `Text.SpaceExact` | client/command_line.cpp:23-23 | The whitespace characters are the six of the C locale |
| `Text.WordsJoin` | client/tracker_client.cpp:29-36 | Words joined by single spaces are read back as they were |

## Left out

- OpenSSL's own code, and PBKDF2 (section 5.2 of RFC 8018): parameters and idealisations instead.
- Sockets, polling, timeouts, file descriptors and permissions: what a call comes back with is an input of the model.
- Console, prompt, logging, configuration files, key generation and the routing in client/client.cpp: presentation with easy claims.
- Memory erasure and the timing of comparisons: not expressible here.
- Liveness: endless interruptions and peers that never answer; a call sequence is finite and a step that never comes is not taken.
- Int-sized limits inside the crypto wrappers and 64-bit overflow of a ticket's expiry near the end of time: numbers are unbounded there.
- std::sort and std::stable_sort: modelled by insertion, which gives the same result because the orders determine it.
- Several clock reads within one request: respond, isFreshTimestamp and parseHello use one clock value per request.
- The manager of several downloads (client/download/download_manager.cpp): one download is modelled, alone on its entry and path.
- Failure to create the .part file or a thread: the download or the server then does not start.
- PeerProtocol.Respond: the piece is read in one step here; partial reads are in PieceFileClass.PieceFile.Read and, interleaved with a download, in DownloadRuns.OfferedIsCorrect.
- PieceFileClass.HashFile: reads a regular file that does not change meanwhile; read errors are the HashPart step of the download engine.
- DownloadParts.FetchPiece: the pauses after each pass are not modelled.
- Server.RunKeeps: the handler's own work is one step, and the 200 ms poll only says when the loop looks again.
