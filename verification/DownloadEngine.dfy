/** One download as interleaved steps (client/download/download.cpp): its worker threads, the peer
    server's readers, the user's cancel and withdraw, and the file on disk.

    The .part file is one file object, found under its part path until the rename and under the
    destination afterwards; a reader that has it open keeps it. This download alone uses its
    (group, name) entry and its path: no other upload or download of the same file name runs. */
module DownloadEngine {
  import opened Text
  import opened Metadata
  import opened SharedFilesClass
  import opened Pieces
  import opened PieceFileClass
  import opened DownloadParts

  const MAX_THREADS: nat := 8

  /** What does not change during one download: the hash, the metadata from the tracker, and how
      many seeders it was given. */
  datatype Job = Job(sha: Sha1Hex, metadata: FileMetadata, seeders: nat)

  /** Where a worker is; a worker that names a position has claimed it and not yet let go of it. */
  datatype Worker =
    | Checking
    | Claiming
    | Trying(position: nat, attempt: nat)
    | Asking(position: nat, attempt: nat)
    | Writing(position: nat, attempt: nat, data: Bytes, done: nat)
    | Counting(position: nat)
    | Publishing(position: nat)
    | GivenUp(position: nat)
    | Failing(position: nat)
    | Stopped
  {
    predicate Holds() {
      !Checking? && !Claiming? && !Stopped?
    }
  }

  /** The download's entry in SharedFiles: whether it names the destination, and the flags. */
  datatype Entry = Entry(final: bool, available: seq<bool>)

  /** A peer server thread answering GET from a copy of the entry. */
  datatype Reader =
    | Found(final: bool, piece: nat)
    | Reading(piece: nat, data: Bytes)
    | Answered(piece: nat, reply: Option<Bytes>)

  datatype Phase =
    | Preparing(piece: nat) | Working | Deciding | Completing | Hashed | Renamed
    | Complete | Failed

  datatype State = State(
    phase: Phase, disk: Bytes, moved: bool, entry: Option<Entry>, resuming: bool, verified: seq<bool>,
    bitmaps: seq<seq<bool>>, order: seq<nat>, next: nat, failed: bool, cancelled: bool,
    completed: nat, resumed: nat, done: set<nat>, workers: seq<Worker>, readers: seq<Reader>)

  /** What the world does to a worker's next step: what a request comes back with, the count a pwrite moves. */
  datatype Event = Event(reply: PeerReply, count: nat)

  datatype Action =
    | Verify(readable: bool)
    | Announce(bitmaps: seq<seq<bool>>, order: seq<nat>)
    | Work(worker: nat, event: Event)
    | Cancel
    | Withdraw
    | Get(piece: nat)
    | Open(reader: nat)
    | Read(reader: nat, count: nat)
    | Join
    | Decide
    | HashPart(readable: bool)
    | Rename(ok: bool)
    | Republish

  function Count(job: Job): nat {
    PieceCountForSize(job.metadata.size)
  }

  /** openForWriting: the old contents, cut or extended to the file's size; any bytes may be there. */
  function Start(job: Job, existing: Option<Bytes>): State {
    var before := if existing.Some? then existing.value else [];
    State(Preparing(0), Resized(before, job.metadata.size), false, None, existing.Some?,
          seq(Count(job), _ => false), [], [], 0, false, false, 0, 0, {}, [], [])
  }

  function Rarity(bitmaps: seq<seq<bool>>, count: nat): seq<nat> {
    seq(count, piece requires 0 <= piece < count => |Holders(bitmaps, piece)|)
  }

  function Attempts(s: State, piece: nat): nat {
    PASSES_PER_PIECE * |Holders(s.bitmaps, piece)|
  }

  function Threads(job: Job, order: seq<nat>): nat {
    Min(MAX_THREADS, Min(job.seeders, |order|))
  }

  /** The piece of the file on disk matches its hash. */
  predicate DiskMatches(job: Job, s: State, piece: nat)
    requires piece < PieceCountForSize(|s.disk|) && piece < |job.metadata.pieceHashes|
  {
    job.sha(Piece(s.disk, piece)) == job.metadata.pieceHashes[piece]
  }

  ghost predicate Enabled(job: Job, s: State, a: Action) {
    match a
    case Verify(_) => s.phase.Preparing? && s.phase.piece < Count(job)
    case Announce(bitmaps, order) =>
      && s.phase == Preparing(Count(job)) && |bitmaps| == job.seeders
      && IsRarestFirst(Rarity(bitmaps, Count(job)), s.verified, order)
    case Work(i, _) => s.phase == Working && i < |s.workers| && !s.workers[i].Stopped?
    case Cancel => true
    case Withdraw => true
    case Get(_) => true
    case Open(r) => r < |s.readers| && s.readers[r].Found?
    case Read(r, _) => r < |s.readers| && s.readers[r].Reading?
    case Join => s.phase == Working && forall w | w in s.workers :: w.Stopped?
    case Decide => s.phase == Deciding
    case HashPart(_) => s.phase == Completing
    case Rename(_) => s.phase == Hashed
    case Republish => s.phase == Renamed
  }

  function SetWorker(s: State, i: nat, w: Worker): State
    requires i < |s.workers|
  {
    s.(workers := s.workers[i := w])
  }

  function MarkAvailable(entry: Option<Entry>, piece: nat): Option<Entry> {
    if entry.Some? then Some(entry.value.(available := Raised(entry.value.available, piece))) else None
  }

  /** What a worker's step does to everything but the worker. */
  function Effect(s: State, w: Worker, e: Event): State
    requires w.Holds() ==> w.position < |s.order|
  {
    match w
    case Claiming => s.(next := s.next + 1)
    case Writing(position, _, data, done) =>
      if done >= |data| || e.count == 0 then s
      else
        var part := data[done..done + Min(e.count, |data| - done)];
        s.(disk := Overwrite(s.disk, PieceOffset(s.order[position]) + done, part))
    case Counting(position) => s.(completed := s.completed + 1, done := s.done + {s.order[position]})
    case Publishing(position) => s.(entry := MarkAvailable(s.entry, s.order[position]))
    case Failing(_) => s.(failed := true)
    case _ => s
  }

  /** Where a worker is after its next step of fetchPieces, fetchPiece, PieceFile::write or markVerified. */
  function NextWorker(job: Job, s: State, w: Worker, e: Event): Worker
    requires WorkerOk(job, s, w)
  {
    match w
    case Checking => if s.cancelled then Stopped else Claiming
    case Claiming => if s.next < |s.order| then Trying(s.next, 0) else Stopped
    case Trying(position, attempt) =>
      if attempt < Attempts(s, s.order[position]) && !s.cancelled then Asking(position, attempt) else GivenUp(position)
    case Asking(position, attempt) =>
      if FetchPieceResult(job.sha, job.metadata.pieceHashes[s.order[position]], e.reply) == Success then
        Writing(position, attempt, e.reply.plain.value, 0)
      else Trying(position, attempt + 1)
    case Writing(position, attempt, data, done) =>
      if done >= |data| then Counting(position)
      else if e.count == 0 then Trying(position, attempt + 1)
      else Writing(position, attempt, data, done + Min(e.count, |data| - done))
    case Counting(position) => Publishing(position)
    case Publishing(position) => Checking
    case GivenUp(position) => if s.cancelled then Checking else Failing(position)
    case Failing(_) => Checking
    case Stopped => Stopped
  }

  function WorkerStep(job: Job, s: State, i: nat, e: Event): State
    requires i < |s.workers| && WorkerOk(job, s, s.workers[i])
  {
    SetWorker(Effect(s, s.workers[i], e), i, NextWorker(job, s, s.workers[i], e))
  }

  predicate WorkerOk(job: Job, s: State, w: Worker) {
    w.Holds() ==> w.position < |s.order| && s.order[w.position] < |job.metadata.pieceHashes|
  }

  function ReaderStep(s: State, r: nat, count: nat, length: nat): (s': State)
    requires r < |s.readers| && !s.readers[r].Answered?
    requires s.readers[r].Reading? ==>
             |s.readers[r].data| <= length && PieceOffset(s.readers[r].piece) + length <= |s.disk|
    ensures s' == s.(readers := s'.readers)
  {
    match s.readers[r]
    case Found(final, piece) =>
      s.(readers := s.readers[r := if final == s.moved then Reading(piece, []) else Answered(piece, None)])
    case Reading(piece, data) =>
      var more := Min(count, length - |data|);
      var at := PieceOffset(piece) + |data|;
      if |data| == length then s.(readers := s.readers[r := Answered(piece, Some(data))])
      else if more == 0 then s.(readers := s.readers[r := Answered(piece, None)])
      else s.(readers := s.readers[r := Reading(piece, data + s.disk[at..at + more])])
    case Answered(_, _) => s
  }

  function FinishVerify(job: Job, s: State, readable: bool): State
    requires s.phase.Preparing? &&
             s.phase.piece < |s.verified| == PieceCountForSize(|s.disk|) == |job.metadata.pieceHashes|
  {
    var piece := s.phase.piece;
    var ok := s.resuming && readable && DiskMatches(job, s, piece);
    s.(phase := Preparing(piece + 1), verified := s.verified[piece := ok],
       resumed := if ok then s.resumed + 1 else s.resumed, done := if ok then s.done + {piece} else s.done)
  }

  /** What makes every step well defined. */
  ghost predicate Shape(job: Job, s: State) {
    && |s.disk| == job.metadata.size && |job.metadata.pieceHashes| == Count(job) == |s.verified|
    && (forall piece | piece in s.order :: piece < Count(job))
    && (forall i | 0 <= i < |s.workers| :: WorkerOk(job, s, s.workers[i]))
    && (forall r | 0 <= r < |s.readers| :: s.readers[r].piece < Count(job) &&
          (s.readers[r].Reading? ==> |s.readers[r].data| <= job.metadata.PieceLength(s.readers[r].piece)))
  }

  ghost function Step(job: Job, s: State, a: Action): State
    requires Shape(job, s) && Enabled(job, s, a)
  {
    match a
    case Verify(readable) => FinishVerify(job, s, readable)
    case Announce(bitmaps, order) =>
      s.(phase := Working, bitmaps := bitmaps, order := order, completed := s.resumed,
         entry := Some(Entry(false, s.verified)), workers := seq(Threads(job, order), _ => Checking))
    case Work(i, e) => WorkerStep(job, s, i, e)
    case Cancel => s.(cancelled := true)
    case Withdraw => s.(entry := None)
    case Get(piece) =>
      if s.entry.Some? && piece < |s.entry.value.available| && s.entry.value.available[piece] && piece < Count(job) then
        s.(readers := s.readers + [Found(s.entry.value.final, piece)])
      else s
    case Open(r) =>
      PieceBounds(job.metadata, s.readers[r].piece);
      ReaderStep(s, r, 0, job.metadata.PieceLength(s.readers[r].piece))
    case Read(r, count) =>
      PieceBounds(job.metadata, s.readers[r].piece);
      ReaderStep(s, r, count, job.metadata.PieceLength(s.readers[r].piece))
    case Join => s.(phase := Deciding)
    case Decide => s.(phase := if s.cancelled || s.failed then Phase.Failed else Completing)
    case HashPart(readable) =>
      s.(phase := if readable && job.sha(s.disk) == job.metadata.fullHash then Hashed else Phase.Failed)
    case Rename(ok) => if ok then s.(phase := Renamed, moved := true) else s.(phase := Phase.Failed)
    case Republish => s.(phase := Complete, entry := Some(Entry(true, seq(Count(job), _ => true))))
  }

  // ---------------------------------------------------------------- the invariant

  /** The job describes the file F, and its hashes have no second preimage. */
  ghost predicate Describes(job: Job, F: Bytes) {
    && |F| < U64_LIMIT && job.metadata == MetadataOf(job.sha, F)
    && (forall data | job.sha(data) == job.sha(F) :: data == F)
    && forall i, data | 0 <= i < PieceCountForSize(|F|) && job.sha(data) == job.sha(Piece(F, i)) :: data == Piece(F, i)
  }

  ghost predicate Correct(F: Bytes, s: State, piece: nat) {
    piece < PieceCountForSize(|F|) && |s.disk| == |F| && Piece(s.disk, piece) == Piece(F, piece)
  }

  /** Pieces that no step will write again. */
  ghost predicate Settled(s: State, piece: nat) {
    piece in s.done || s.phase.Renamed? || s.phase.Complete?
  }

  ghost predicate DiskOk(F: Bytes, s: State) {
    && |s.disk| == |F|
    && (forall piece | piece in s.done :: Correct(F, s, piece))
    && (s.phase.Hashed? || s.phase.Renamed? || s.phase.Complete? ==> s.disk == F)
  }

  ghost predicate EntryOk(job: Job, s: State) {
    && (s.phase.Preparing? ==> s.entry.None?)
    && (s.moved <==> s.phase.Renamed? || s.phase.Complete?)
    && (s.entry.Some? ==>
          && |s.entry.value.available| == Count(job) && (s.entry.value.final ==> s.moved)
          && forall piece | 0 <= piece < Count(job) && s.entry.value.available[piece] :: Settled(s, piece))
  }

  ghost predicate ReaderOk(F: Bytes, s: State, r: Reader) {
    && r.piece < PieceCountForSize(|F|) && Settled(s, r.piece)
    && (r.Reading? ==> r.data <= Piece(F, r.piece))
    && (r.Answered? && r.reply.Some? ==> r.reply.value == Piece(F, r.piece))
  }

  ghost predicate ReadersOk(F: Bytes, s: State) {
    forall i | 0 <= i < |s.readers| :: ReaderOk(F, s, s.readers[i])
  }

  /** The worker's piece as far as it has got. */
  ghost predicate ProgressOk(F: Bytes, s: State, w: Worker)
    requires w.Holds() ==> w.position < |s.order|
  {
    match w
    case Writing(position, _, data, done) =>
      var piece := s.order[position];
      && piece < PieceCountForSize(|F|) && |s.disk| == |F| && data == Piece(F, piece) && done <= |data|
      && s.disk[PieceOffset(piece)..PieceOffset(piece) + done] == data[..done]
    case Counting(position) => Correct(F, s, s.order[position])
    case _ => true
  }

  ghost predicate WorkersOk(F: Bytes, s: State) {
    forall i | 0 <= i < |s.workers| && s.workers[i].Holds() ::
      && s.workers[i].position < s.next && s.workers[i].position < |s.order|
      && (s.order[s.workers[i].position] in s.done <==> s.workers[i].Publishing?)
      && ProgressOk(F, s, s.workers[i])
  }

  ghost predicate ClaimsOk(s: State) {
    && (forall i, j | 0 <= i < j < |s.workers| && s.workers[i].Holds() && s.workers[j].Holds() ::
          s.workers[i].position != s.workers[j].position)
    && (forall p | s.next <= p < |s.order| :: s.order[p] !in s.done)
    && (forall i | 0 <= i < |s.workers| && s.workers[i].Stopped? :: s.cancelled || s.next >= |s.order|)
  }

  ghost predicate HeldBy(s: State, position: nat, i: nat) {
    i < |s.workers| && s.workers[i].Holds() && s.workers[i].position == position
  }

  /** Unless something failed or was cancelled, every claimed position is done or still held. */
  ghost predicate ResolvedOk(s: State) {
    !s.failed && !s.cancelled ==>
      forall p | 0 <= p < s.next && p < |s.order| :: s.order[p] in s.done || exists i :: HeldBy(s, p, i)
  }

  ghost predicate CountsOk(job: Job, s: State) {
    && (forall piece | piece in s.done :: piece < Count(job))
    && (forall piece | 0 <= piece < |s.verified| && s.verified[piece] :: piece in s.done)
    && s.resumed == |VerifiedSet(s)| && (!s.phase.Preparing? ==> s.completed == |s.done|)
  }

  ghost function VerifiedSet(s: State): set<nat> {
    set piece | 0 <= piece < |s.verified| && s.verified[piece]
  }

  ghost predicate AllDone(job: Job, s: State) {
    forall piece: nat | piece < Count(job) :: piece in s.done
  }

  ghost predicate PhaseOk(job: Job, s: State) {
    match s.phase
    case Preparing(i) =>
      && i <= Count(job) && s.workers == [] && s.readers == [] && s.order == [] && s.next == 0 && !s.failed
      && s.done == VerifiedSet(s) && forall piece | i <= piece < |s.verified| :: !s.verified[piece]
    case _ =>
      && IsRarestFirst(Rarity(s.bitmaps, Count(job)), s.verified, s.order)
      && |s.workers| == Threads(job, s.order)
      && (!s.phase.Working? ==> forall w | w in s.workers :: w.Stopped?)
      && (s.phase.Completing? || s.phase.Hashed? || s.phase.Renamed? || s.phase.Complete? ==>
            job.seeders > 0 ==> AllDone(job, s))
  }

  ghost predicate Inv(job: Job, F: Bytes, s: State) {
    && Shape(job, s) && DiskOk(F, s) && EntryOk(job, s) && ReadersOk(F, s) && WorkersOk(F, s)
    && ClaimsOk(s) && ResolvedOk(s) && CountsOk(job, s) && PhaseOk(job, s)
  }
}
