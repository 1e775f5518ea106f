/** The sequential parts of a download (client/download/download.cpp and client/peer/peer_client.cpp):
    ticket renewal, bitmap collection, the rarest-first order and the retry schedule of one piece. */
module DownloadParts {
  import opened Text
  import opened Tickets
  import opened Aead
  import opened SharedFilesClass
  import opened PeerProtocol
  import opened Pieces

  const PASSES_PER_PIECE: nat := 3
  const TICKET_MARGIN_SECONDS: int := 60

  // ---------------------------------------------------------------- results of one peer request

  datatype TransferResult = Success | NetworkFailure | AuthenticationFailure | IntegrityFailure | UnavailableFailure

  /** What a request came back with: the frame received, if any, and what openReply made of it, if anything. */
  datatype PeerReply = PeerReply(response: Option<Bytes>, plain: Option<Bytes>)

  /** PeerClient::request. */
  function Classify(reply: PeerReply): TransferResult {
    if reply.response.None? then NetworkFailure
    else if reply.response.value == B("60|unavailable") then UnavailableFailure
    else if reply.plain.None? then AuthenticationFailure
    else Success
  }

  function FetchPieceResult(sha: Sha1Hex, expectedHash: Bytes, reply: PeerReply): (r: TransferResult)
    ensures r == Success ==> reply.plain.Some? && sha(reply.plain.value) == expectedHash
  {
    var result := Classify(reply);
    if result == Success && sha(reply.plain.value) != expectedHash then IntegrityFailure else result
  }

  function FetchBitmapResult(pieceCount: nat, reply: PeerReply): TransferResult {
    var result := Classify(reply);
    if result == Success && |reply.plain.value| != pieceCount then AuthenticationFailure else result
  }

  function Flags(reply: Bytes): seq<bool> {
    seq(|reply|, i requires 0 <= i < |reply| => reply[i] != '\0')
  }

  /** The downloader reads back exactly the flags the seeder sent. */
  lemma {:induction false} BitmapRoundTrip(available: seq<bool>)
    ensures |Bitmap(available)| == |available| && Flags(Bitmap(available)) == available
  {
    if available != [] {
      BitmapRoundTrip(available[1..]);
      var reply := Bitmap(available);
      assert reply[1..] == Bitmap(available[1..]);
      assert forall i | 0 < i < |reply| :: reply[i] == reply[1..][i - 1];
      assert forall i | 0 < i < |reply| :: Flags(reply)[i] == Flags(reply[1..])[i - 1];
    }
  }

  /** The availability a bitmap request brings: the seeder's flags, or nothing. */
  function BitmapOf(pieceCount: nat, reply: PeerReply): (bitmap: seq<bool>)
    ensures bitmap == [] || |bitmap| == pieceCount
  {
    if FetchBitmapResult(pieceCount, reply) == Success then Flags(reply.plain.value) else []
  }

  /** PeerClient::fetchBitmap: refills the bitmap only on success. */
  method FetchBitmap(pieceCount: nat, reply: PeerReply, before: seq<bool>)
    returns (result: TransferResult, bitmap: seq<bool>)
    ensures result == FetchBitmapResult(pieceCount, reply)
    ensures bitmap == if result == Success then BitmapOf(pieceCount, reply) else before
  {
    result, bitmap := Classify(reply), before;
    if result == Success && |reply.plain.value| != pieceCount {
      return AuthenticationFailure, bitmap;
    }
    if result != Success {
      return;
    }
    bitmap := [];
    for i := 0 to |reply.plain.value|
      invariant bitmap == Flags(reply.plain.value[..i])
    {
      bitmap := bitmap + [reply.plain.value[i] != '\0'];
    }
    assert reply.plain.value[..|reply.plain.value|] == reply.plain.value;
  }

  // ---------------------------------------------------------------- what a result says about the seeder

  /** The reply a request with this live ticket gets from a seeder with these files. */
  ghost function Exchanged(hmac: Hmac, peerKey: Bytes, files: map<Key, LocalFile>, disk: map<Bytes, Bytes>,
                           log: SealLog, ticket: PeerTicket, operation: Bytes, piece: U64, sentAt: nat, now: int,
                           message: GcmMessage, sent: GcmMessage): PeerReply {
    var key, aad := ticket.Key(hmac, peerKey), RequestAad(ticket.Encode());
    var log1 := Seal(log, key, aad, RequestPlain(operation, piece, sentAt), message);
    var answer := Decide(hmac, peerKey, files, disk, log1, EncodeMessage(aad, message), now);
    var log2 := if answer.Reply? then Seal(log1, answer.key, answer.aad, answer.plain, sent) else log1;
    var frame := ResponseFrame(answer, Some(sent));
    PeerReply(Some(frame), OpenReply(log2, ticket.Encode(), key, message.nonce, frame))
  }

  /** The two encryptions of an exchange work. */
  ghost predicate Exchangeable(hmac: Hmac, peerKey: Bytes, files: map<Key, LocalFile>, disk: map<Bytes, Bytes>,
                               log: SealLog, ticket: PeerTicket, operation: Bytes, piece: U64, sentAt: nat, now: int,
                               message: GcmMessage, sent: GcmMessage) {
    && ticket.Valid() && 0 <= now < ticket.expires && '\n' !in operation
    && now - 300 <= sentAt <= now + 300
    && MaySeal(log, ticket.Key(hmac, peerKey), RequestAad(ticket.Encode()), RequestPlain(operation, piece, sentAt),
       message)
    && var key, aad := ticket.Key(hmac, peerKey), RequestAad(ticket.Encode());
       var log1 := Seal(log, key, aad, RequestPlain(operation, piece, sentAt), message);
       match Entitlement(files, disk, ticket, operation, piece)
       case None => true
       case Some(plain) => MaySeal(log1, key, ReplyAad(aad, ToHex(message.nonce)), plain, sent)
  }

  /** A request's result says exactly how things stand at the seeder: Success when the ticket entitles to something,
      which is then what arrives; AuthenticationFailure when the file is not shared; Unavailable when it is and there
      is nothing to give. */
  lemma ResultExact(hmac: Hmac, peerKey: Bytes, files: map<Key, LocalFile>, disk: map<Bytes, Bytes>, log: SealLog,
                    ticket: PeerTicket, operation: Bytes, piece: U64, sentAt: nat, now: int, message: GcmMessage,
                    sent: GcmMessage)
    requires Exchangeable(hmac, peerKey, files, disk, log, ticket, operation, piece, sentAt, now, message, sent)
    ensures var reply := Exchanged(hmac, peerKey, files, disk, log, ticket, operation, piece, sentAt, now, message,
            sent);
            var entitled, shared := Entitlement(files, disk, ticket, operation, piece),
              (ticket.group, ticket.file) in files;
            && reply.plain == entitled
            && (Classify(reply) == Success <==> entitled.Some?)
            && (Classify(reply) == AuthenticationFailure <==> !shared)
            && (Classify(reply) == UnavailableFailure <==> shared && entitled.None?)
  {
    hide CheckRequest, OpenReply, EncodeMessage, RequestPlain, RequestAad, ReplyAad, ToHex, Bitmap, Stored,
      PeerTicket.Encode, PeerTicket.Key, MaySeal, Seal;
    PeerExchange(hmac, peerKey, files, disk, log, ticket, operation, piece, sentAt, now, message, sent);
    RefusalFrames(sent);
  }

  lemma RefusalFrames(sent: GcmMessage)
    ensures B("60|denied") != B("60|unavailable") && EncodeMessage(B("30"), sent) != B("60|unavailable")
  {
    hide ToHex;
    assert EncodeMessage(B("30"), sent)[0] == '3' && B("60|unavailable")[0] == '6';
    assert |B("60|denied")| != |B("60|unavailable")|;
  }

  /** A bitmap request succeeds exactly when the file is shared with that number of pieces, and then brings exactly the
      flags; a wrong length is an authentication failure. */
  lemma BitmapResultExact(hmac: Hmac, peerKey: Bytes, files: map<Key, LocalFile>, disk: map<Bytes, Bytes>, log: SealLog,
                          ticket: PeerTicket, sentAt: nat, now: int, message: GcmMessage, sent: GcmMessage,
                          pieceCount: nat)
    requires Exchangeable(hmac, peerKey, files, disk, log, ticket, B("BITMAP"), 0, sentAt, now, message, sent)
    ensures var reply := Exchanged(hmac, peerKey, files, disk, log, ticket, B("BITMAP"), 0, sentAt, now, message, sent);
            var key := (ticket.group, ticket.file);
            && (FetchBitmapResult(pieceCount, reply) == Success <==>
               key in files && |files[key].available| == pieceCount)
            && (FetchBitmapResult(pieceCount, reply) == Success ==> BitmapOf(pieceCount, reply) == files[key].available)
            && (FetchBitmapResult(pieceCount, reply) != Success ==>
               FetchBitmapResult(pieceCount, reply) == AuthenticationFailure)
  {
    hide Exchangeable, Exchanged, Bitmap;
    ResultExact(hmac, peerKey, files, disk, log, ticket, B("BITMAP"), 0, sentAt, now, message, sent);
    var key := (ticket.group, ticket.file);
    if key in files {
      BitmapRoundTrip(files[key].available);
    }
  }

  /** A piece request succeeds exactly when the seeder has the piece, can read all of it, and its bytes have the
      expected hash; it is an integrity failure exactly when they have another. */
  lemma PieceResultExact(hmac: Hmac, peerKey: Bytes, files: map<Key, LocalFile>, disk: map<Bytes, Bytes>, log: SealLog,
                         ticket: PeerTicket, piece: U64, sentAt: nat, now: int, message: GcmMessage, sent: GcmMessage,
                         sha: Sha1Hex, expectedHash: Bytes)
    requires Exchangeable(hmac, peerKey, files, disk, log, ticket, B("GET"), piece, sentAt, now, message, sent)
    ensures var reply := Exchanged(hmac, peerKey, files, disk, log, ticket, B("GET"), piece, sentAt, now, message,
            sent);
            var key, result := (ticket.group, ticket.file), FetchPieceResult(sha, expectedHash, reply);
            var stored := Entitlement(files, disk, ticket, B("GET"), piece);
            && (result == Success <==> stored.Some? && sha(stored.value) == expectedHash)
            && (result == IntegrityFailure <==> stored.Some? && sha(stored.value) != expectedHash)
            && (result == UnavailableFailure <==> key in files && stored.None?)
            && (result == AuthenticationFailure <==> key !in files)
            && (result == Success ==> reply.plain == stored)
  {
    hide Exchangeable, Exchanged, Entitlement;
    ResultExact(hmac, peerKey, files, disk, log, ticket, B("GET"), piece, sentAt, now, message, sent);
    assert B("GET") != B("BITMAP") by {
      assert |B("GET")| != |B("BITMAP")|;
    }
  }

  // ---------------------------------------------------------------- who has which piece

  predicate Has(bitmap: seq<bool>, piece: nat) {
    piece < |bitmap| && bitmap[piece]
  }

  /** The seeders among the first `n` that have the piece, in order. */
  function HoldersAmong(bitmaps: seq<seq<bool>>, piece: nat, n: nat): seq<nat>
    requires n <= |bitmaps|
  {
    if n == 0 then [] else HoldersAmong(bitmaps, piece, n - 1) + if Has(bitmaps[n - 1], piece) then [n - 1] else []
  }

  function Holders(bitmaps: seq<seq<bool>>, piece: nat): seq<nat> {
    HoldersAmong(bitmaps, piece, |bitmaps|)
  }

  lemma {:induction false} HoldersExact(bitmaps: seq<seq<bool>>, piece: nat, n: nat)
    requires n <= |bitmaps|
    ensures forall seeder | seeder in HoldersAmong(bitmaps, piece, n) :: seeder < n && Has(bitmaps[seeder], piece)
    ensures forall seeder | 0 <= seeder < n && Has(bitmaps[seeder], piece) :: seeder in HoldersAmong(bitmaps, piece, n)
    ensures forall i, j | 0 <= i < j < |HoldersAmong(bitmaps, piece, n)| ::
              HoldersAmong(bitmaps, piece, n)[i] < HoldersAmong(bitmaps, piece, n)[j]
  {
    if n > 0 {
      HoldersExact(bitmaps, piece, n - 1);
      var before, all := HoldersAmong(bitmaps, piece, n - 1), HoldersAmong(bitmaps, piece, n);
      assert all == before + if Has(bitmaps[n - 1], piece) then [n - 1] else [];
      assert forall i | 0 <= i < |before| :: before[i] in before;
      assert Has(bitmaps[n - 1], piece) ==> all[|before|] == n - 1;
    }
  }

  lemma {:induction false} HoldersPrefix(bitmaps: seq<seq<bool>>, more: seq<bool>, piece: nat, n: nat)
    requires n <= |bitmaps|
    ensures HoldersAmong(bitmaps + [more], piece, n) == HoldersAmong(bitmaps, piece, n)
  {
    if n > 0 {
      HoldersPrefix(bitmaps, more, piece, n - 1);
      assert (bitmaps + [more])[n - 1] == bitmaps[n - 1];
    }
  }

  lemma NoHolders()
    ensures forall piece: nat :: |Holders([], piece)| == 0
  {
  }

  lemma HoldersMore(bitmaps: seq<seq<bool>>, more: seq<bool>, piece: nat)
    ensures |Holders(bitmaps + [more], piece)| == |Holders(bitmaps, piece)| + if Has(more, piece) then 1 else 0
  {
    HoldersPrefix(bitmaps, more, piece, |bitmaps|);
  }

  /** The inner loop of fetchBitmaps: every piece the bitmap has gets one holder more. */
  method CountBitmap(rarity: array<nat>, bitmap: seq<bool>)
    requires |bitmap| <= rarity.Length
    modifies rarity
    ensures forall piece | 0 <= piece < rarity.Length ::
              rarity[piece] == old(rarity[piece]) + if Has(bitmap, piece) then 1 else 0
  {
    for piece := 0 to |bitmap|
      invariant forall k | 0 <= k < piece :: rarity[k] == old(rarity[k]) + if Has(bitmap, k) then 1 else 0
      invariant forall k | piece <= k < rarity.Length :: rarity[k] == old(rarity[k])
    {
      rarity[piece] := rarity[piece] + if bitmap[piece] then 1 else 0;
    }
  }

  /** fetchBitmaps: `replies[s]` is what the request to seeder s came back with. A seeder whose request failed keeps an
      empty bitmap. The rarity of a piece is the number of its holders. */
  method FetchBitmaps(pieceCount: nat, replies: seq<PeerReply>) returns (bitmaps: seq<seq<bool>>, rarity: array<nat>)
    ensures |bitmaps| == |replies|
    ensures forall s | 0 <= s < |replies| :: bitmaps[s] == BitmapOf(pieceCount, replies[s])
    ensures fresh(rarity) && rarity.Length == pieceCount
    ensures forall piece | 0 <= piece < pieceCount :: rarity[piece] == |Holders(bitmaps, piece)|
  {
    hide FetchBitmapResult, Flags, HoldersAmong, Has;
    bitmaps := [];
    NoHolders();
    rarity := new nat[pieceCount](_ => 0);
    for s := 0 to |replies|
      invariant |bitmaps| == s
      invariant forall k | 0 <= k < s :: bitmaps[k] == BitmapOf(pieceCount, replies[k])
      invariant forall piece | 0 <= piece < pieceCount :: rarity[piece] == |Holders(bitmaps, piece)|
    {
      var result, bitmap := FetchBitmap(pieceCount, replies[s], []);
      ghost var before := bitmaps;
      CountBitmap(rarity, bitmap);
      bitmaps := bitmaps + [bitmap];
      forall piece | 0 <= piece < pieceCount ensures rarity[piece] == |Holders(bitmaps, piece)| {
        HoldersMore(before, bitmap, piece);
      }
    }
  }

  // ---------------------------------------------------------------- rarest first

  predicate Precedes(rarity: seq<nat>, a: nat, b: nat)
    requires a < |rarity| && b < |rarity|
  {
    rarity[a] < rarity[b] || (rarity[a] == rarity[b] && a < b)
  }

  ghost predicate InOrder(rarity: seq<nat>, order: seq<nat>) {
    && (forall i | 0 <= i < |order| :: order[i] < |rarity|)
    && forall i, j | 0 <= i < j < |order| :: Precedes(rarity, order[i], order[j])
  }

  /** Exactly the unverified pieces, once each, strictly by (rarity, index). */
  ghost predicate IsRarestFirst(rarity: seq<nat>, verified: seq<bool>, order: seq<nat>) {
    && InOrder(rarity, order)
    && forall piece: nat :: piece in order <==> piece < |verified| && !verified[piece]
  }

  /** Puts a piece behind all that are no rarer; the pieces before it in the list have smaller numbers. */
  method Place(rarity: seq<nat>, order: seq<nat>, piece: nat) returns (placed: seq<nat>)
    requires InOrder(rarity, order) && piece < |rarity| && forall other | other in order :: other < piece
    ensures InOrder(rarity, placed)
    ensures forall k: nat :: k in placed <==> k in order || k == piece
  {
    var at := |order|;
    while at > 0 && rarity[piece] < rarity[order[at - 1]]
      invariant 0 <= at <= |order|
      invariant forall j | at <= j < |order| :: rarity[piece] < rarity[order[j]]
    {
      at := at - 1;
    }
    forall j | 0 <= j < at ensures Precedes(rarity, order[j], piece) {
      assert order[j] in order;
      assert j < at - 1 ==> Precedes(rarity, order[j], order[at - 1]);
    }
    placed := order[..at] + [piece] + order[at..];
    PlacedInOrder(rarity, order, at, piece);
    PlacedMembers(order, at, piece);
  }

  lemma PlacedInOrder(rarity: seq<nat>, order: seq<nat>, at: nat, piece: nat)
    requires InOrder(rarity, order) && at <= |order| && piece < |rarity|
    requires forall j | 0 <= j < at :: Precedes(rarity, order[j], piece)
    requires forall j | at <= j < |order| :: Precedes(rarity, piece, order[j])
    ensures InOrder(rarity, order[..at] + [piece] + order[at..])
  {
    hide Precedes;
    var placed := order[..at] + [piece] + order[at..];
    assert forall i | 0 <= i < |placed| ::
             placed[i] == if i < at then order[i] else if i == at then piece else order[i - 1];
  }

  lemma PlacedMembers(order: seq<nat>, at: nat, piece: nat)
    requires at <= |order|
    ensures forall k: nat :: k in order[..at] + [piece] + order[at..] <==> k in order || k == piece
  {
    assert order == order[..at] + order[at..];
  }

  /** Collects the missing pieces, then sorts them stably by rarity. */
  method RarestFirst(rarity: seq<nat>, verified: seq<bool>) returns (order: seq<nat>)
    requires |rarity| == |verified|
    ensures IsRarestFirst(rarity, verified, order)
    ensures forall i, j | 0 <= i < j < |order| ::
              rarity[order[i]] < rarity[order[j]] || (rarity[order[i]] == rarity[order[j]] && order[i] < order[j])
  {
    var missing: seq<nat> := [];
    for piece := 0 to |verified|
      invariant forall i | 0 <= i < |missing| :: missing[i] < piece
      invariant forall i, j | 0 <= i < j < |missing| :: missing[i] < missing[j]
      invariant forall k: nat :: k in missing <==> k < piece && !verified[k]
    {
      if !verified[piece] {
        missing := missing + [piece];
      }
    }
    order := [];
    for i := 0 to |missing|
      invariant InOrder(rarity, order)
      invariant forall k: nat :: k in order <==> k in missing[..i]
    {
      assert missing[i] in missing && missing[..i + 1] == missing[..i] + [missing[i]];
      forall other | other in order ensures other < missing[i] {
        var k :| 0 <= k < i && missing[k] == other;
      }
      order := Place(rarity, order, missing[i]);
    }
    assert missing[..|missing|] == missing;
    assert forall i, j | 0 <= i < j < |order| :: Precedes(rarity, order[i], order[j]);
  }

  /** That description leaves no freedom: there is only one such order. */
  lemma RarestFirstUnique(rarity: seq<nat>, verified: seq<bool>, a: seq<nat>, b: seq<nat>)
    requires IsRarestFirst(rarity, verified, a) && IsRarestFirst(rarity, verified, b)
    ensures a == b
  {
    StrictOrderUnique(rarity, a, b);
  }

  lemma {:induction false} StrictOrderUnique(rarity: seq<nat>, a: seq<nat>, b: seq<nat>)
    requires InOrder(rarity, a) && InOrder(rarity, b)
    requires forall piece: nat :: piece in a <==> piece in b
    ensures a == b
  {
    assert a != [] ==> a[0] in b;
    assert b != [] ==> b[0] in a;
    if a != [] && b != [] {
      assert a[0] == b[0];
      assert forall i | 0 < i < |a| :: Precedes(rarity, a[0], a[i]);
      assert forall i | 0 < i < |b| :: Precedes(rarity, b[0], b[i]);
      assert a == [a[0]] + a[1..] && b == [b[0]] + b[1..];
      forall piece: nat | piece in a[1..] ensures piece in b[1..] {
        assert piece in a && piece != a[0] && piece in b;
      }
      forall piece: nat | piece in b[1..] ensures piece in a[1..] {
        assert piece in b && piece != b[0] && piece in a;
      }
      StrictOrderUnique(rarity, a[1..], b[1..]);
      assert a == [a[0]] + a[1..] && b == [b[0]] + b[1..];
    }
  }

  // ---------------------------------------------------------------- retries

  /** The holder that attempt number `attempt` asks. */
  function HolderAt(holders: seq<nat>, piece: nat, attempt: nat): nat
    requires holders != []
  {
    holders[(piece + attempt) % |holders|]
  }

  /** The holders in the order one pass asks them. */
  function Pass(holders: seq<nat>, start: nat): seq<nat> {
    seq(|holders|, j requires 0 <= j < |holders| => holders[(start + j) % |holders|])
  }

  lemma SmallMultiple(n: int, k: int, d: int)
    requires n * k == d && -n < d < n
    ensures k == 0
  {
    assert k >= 1 ==> n * k >= n;
    assert k <= -1 ==> n * k <= -n;
  }

  lemma ModPlus(a: nat, n: nat)
    requires n > 0
    ensures (a + n) % n == a % n
  {
    var q, q' := a / n, (a + n) / n;
    assert a == n * q + a % n && a + n == n * q' + (a + n) % n;
    assert n * (q' - q - 1) == n * q' - n * q - n;
    SmallMultiple(n, q' - q - 1, a % n - (a + n) % n);
  }

  lemma ModSmall(a: nat, n: nat)
    requires a < n
    ensures a % n == a
  {
    assert a == n * (a / n) + a % n;
    SmallMultiple(n, a / n, a - a % n);
  }

  /** A pass visits every holder exactly once, wherever it starts. */
  lemma {:induction false} PassIsPermutation(holders: seq<nat>, start: nat)
    ensures multiset(Pass(holders, start)) == multiset(holders)
  {
    var n := |holders|;
    if n > 0 {
      if start == 0 {
        forall j | 0 <= j < n ensures j % n == j {
          ModSmall(j, n);
        }
        assert Pass(holders, 0) == holders;
      } else {
        PassIsPermutation(holders, start - 1);
        var before, after := Pass(holders, start - 1), Pass(holders, start);
        ModPlus(start - 1, n);
        assert after[n - 1] == holders[(start - 1 + n) % n] == before[0];
        assert forall j | 0 <= j < n - 1 :: after[j] == before[j + 1];
        assert after == before[1..] + [before[0]] && before == [before[0]] + before[1..];
      }
    }
  }

  /** All the attempts of one piece: three passes, each starting at piece % holders. */
  function Schedule(holders: seq<nat>, piece: nat): seq<nat> {
    Pass(holders, piece) + Pass(holders, piece) + Pass(holders, piece)
  }

  lemma ScheduleAt(holders: seq<nat>, piece: nat, attempt: nat)
    requires attempt < PASSES_PER_PIECE * |holders|
    ensures |Schedule(holders, piece)| == PASSES_PER_PIECE * |holders|
    ensures Schedule(holders, piece)[attempt] == HolderAt(holders, piece, attempt)
  {
    var n := |holders|;
    if n <= attempt {
      ModPlus(piece + attempt - n, n);
      if 2 * n <= attempt {
        ModPlus(piece + attempt - 2 * n, n);
      }
    }
  }

  lemma ScheduleLength(holders: seq<nat>, piece: nat)
    ensures |Schedule(holders, piece)| == PASSES_PER_PIECE * |holders|
  {
  }

  /** Every holder is asked exactly three times. */
  lemma ScheduleFair(holders: seq<nat>, piece: nat, seeder: nat)
    ensures multiset(Schedule(holders, piece))[seeder] == 3 * multiset(holders)[seeder]
  {
    PassIsPermutation(holders, piece);
  }

  /** One attempt: the request's result, and whether writing the piece worked. */
  datatype Attempt = Attempt(result: TransferResult, written: bool)

  /** How many of the first `n` attempts brought bytes with the wrong hash. */
  function Mismatches(outcomes: nat -> Attempt, n: nat): nat {
    if n == 0 then 0 else Mismatches(outcomes, n - 1) + if outcomes(n - 1).result == IntegrityFailure then 1 else 0
  }

  /** fetchPiece: `outcomes` says how each attempt goes, and `cancelled` what each look at the cancel
      flag sees. It asks a prefix of the schedule, and when it fails uncancelled it has asked all of it. */
  method FetchPiece(bitmaps: seq<seq<bool>>, piece: nat, outcomes: nat -> Attempt, cancelled: nat -> bool)
    returns (ok: bool, asked: seq<nat>, integrityFailures: nat)
    ensures asked <= Schedule(Holders(bitmaps, piece), piece)
    ensures ok <==> asked != [] && outcomes(|asked| - 1) == Attempt(Success, true)
    ensures forall i | 0 <= i < |asked| - 1 :: outcomes(i) != Attempt(Success, true)
    ensures !ok && (forall i :: !cancelled(i)) ==> asked == Schedule(Holders(bitmaps, piece), piece)
    ensures integrityFailures == Mismatches(outcomes, |asked|)
  {
    hide Schedule;
    var holders: seq<nat> := [];
    for seeder := 0 to |bitmaps|
      invariant holders == HoldersAmong(bitmaps, piece, seeder)
    {
      if piece < |bitmaps[seeder]| && bitmaps[seeder][piece] {
        holders := holders + [seeder];
      }
    }
    var attempts := PASSES_PER_PIECE * |holders|;
    ghost var schedule := Schedule(holders, piece);
    ScheduleLength(holders, piece);
    asked, integrityFailures := [], 0;
    var attempt := 0;
    while attempt < attempts && !cancelled(attempt)
      invariant 0 <= attempt <= attempts == |schedule|
      invariant |asked| == attempt && asked == schedule[..attempt]
      invariant forall i | 0 <= i < attempt :: outcomes(i) != Attempt(Success, true)
      invariant integrityFailures == Mismatches(outcomes, attempt)
      decreases attempts - attempt
    {
      ScheduleAt(holders, piece, attempt);
      var seeder := holders[(piece + attempt) % |holders|];
      asked := asked + [seeder];
      var outcome := outcomes(attempt);
      if outcome.result == Success && outcome.written {
        return true, asked, integrityFailures;
      }
      if outcome.result == IntegrityFailure {
        integrityFailures := integrityFailures + 1;
      }
      attempt := attempt + 1;
    }
    ok := false;
  }

  // ---------------------------------------------------------------- ticket renewal

  /** The last update for the same endpoint, if any. */
  function Renewed(current: SeederAccess, updates: seq<SeederAccess>): (r: SeederAccess)
    ensures r.endpoint == current.endpoint
    ensures r == current || r in updates
    decreases |updates|
  {
    if updates == [] then current
    else Renewed(if updates[0].endpoint == current.endpoint then updates[0] else current, updates[1..])
  }

  /** The last update for an endpoint is the one that counts; without one the access stays. */
  lemma {:induction false} RenewedExact(current: SeederAccess, updates: seq<SeederAccess>, last: nat)
    requires last <= |updates|
    requires last < |updates| ==> updates[last].endpoint == current.endpoint
    requires forall i | 0 <= i < |updates| && (last < i || last == |updates|) :: updates[i].endpoint != current.endpoint
    ensures Renewed(current, updates) == if last < |updates| then updates[last] else current
    decreases |updates|
  {
    if updates != [] {
      var next := if updates[0].endpoint == current.endpoint then updates[0] else current;
      var rest := updates[1..];
      if last == 0 {
        RenewedExact(next, rest, |rest|);
      } else {
        RenewedExact(next, rest, last - 1);
      }
    }
  }

  /** Without a response a request is a network failure, for bitmaps and pieces too. */
  lemma NoResponse(sha: Sha1Hex, expectedHash: Bytes, pieceCount: nat, plain: Option<Bytes>)
    ensures var reply := PeerReply(None, plain);
            && Classify(reply) == NetworkFailure && FetchPieceResult(sha, expectedHash, reply) == NetworkFailure
            && FetchBitmapResult(pieceCount, reply) == NetworkFailure && BitmapOf(pieceCount, reply) == []
  {
  }

  /** seederAt: renews every access first when this ticket is about to expire. Whatever the tracker
      sends back, each index keeps the endpoint whose bitmap was read. */
  method SeederAt(seeders: array<SeederAccess>, index: nat, now: int, located: Option<seq<SeederAccess>>)
    returns (access: SeederAccess)
    requires index < seeders.Length
    modifies seeders
    ensures access == seeders[index]
    ensures forall i | 0 <= i < seeders.Length :: seeders[i].endpoint == old(seeders[i]).endpoint
    ensures forall i | 0 <= i < seeders.Length ::
              seeders[i] == if old(seeders[index]).Expires() - now < 60 && located.Some?
                            then Renewed(old(seeders[i]), located.value) else old(seeders[i])
  {
    hide SeederAccess.Expires;
    if seeders[index].Expires() - now < TICKET_MARGIN_SECONDS && located.Some? {
      var updates := located.value;
      for i := 0 to seeders.Length
        invariant forall k | 0 <= k < i :: seeders[k] == Renewed(old(seeders[k]), updates)
        invariant forall k | i <= k < seeders.Length :: seeders[k] == old(seeders[k])
      {
        for j := 0 to |updates|
          invariant forall k | 0 <= k < seeders.Length && k != i ::
                    seeders[k] == if k < i then Renewed(old(seeders[k]), updates) else old(seeders[k])
          invariant Renewed(seeders[i], updates[j..]) == Renewed(old(seeders[i]), updates)
        {
          assert updates[j..][0] == updates[j] && updates[j..][1..] == updates[j + 1..];
          if updates[j].endpoint == seeders[i].endpoint {
            seeders[i] := updates[j];
          }
        }
        assert updates[|updates|..] == [];
      }
    }
    return seeders[index];
  }
}
