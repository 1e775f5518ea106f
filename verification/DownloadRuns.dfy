/** What holds in every run of one download, whatever the interleaving, the seeders, the old .part file and the moment
    of cancelling. */
module DownloadRuns {
  import opened Text
  import opened Metadata
  import opened Pieces
  import opened PieceFileClass
  import opened DownloadParts
  import opened DownloadEngine
  import opened DownloadLaws

  /** Shape only makes the step well defined; RunKeeps shows that every reachable state has it. */
  ghost predicate Steps(job: Job, s: State, a: Action, s': State) {
    Shape(job, s) && Enabled(job, s, a) && s' == Step(job, s, a)
  }

  ghost predicate IsRun(job: Job, existing: Option<Bytes>, states: seq<State>, actions: seq<Action>) {
    && |states| == |actions| + 1 && states[0] == Start(job, existing)
    && forall k | 0 <= k < |actions| :: Steps(job, states[k], actions[k], states[k + 1])
  }

  lemma StepKeeps(job: Job, F: Bytes, s: State, a: Action)
    requires Describes(job, F) && Inv(job, F, s) && Enabled(job, s, a)
    ensures Inv(job, F, Step(job, s, a))
  {
    hide Inv, Describes, Step;
    match a
    case Verify(readable) => VerifyKeeps(job, F, s, readable);
    case Announce(bitmaps, order) => AnnounceKeeps(job, F, s, bitmaps, order);
    case Work(i, e) => WorkKeeps(job, F, s, i, e);
    case Cancel => CancelKeeps(job, F, s);
    case Withdraw => WithdrawKeeps(job, F, s);
    case Get(piece) => GetKeeps(job, F, s, piece);
    case Open(r) => OpenKeeps(job, F, s, r);
    case Read(r, count) => ReadKeeps(job, F, s, r, count);
    case Join => JoinKeeps(job, F, s, a);
    case Decide => JoinKeeps(job, F, s, a);
    case HashPart(_) => FinishKeeps(job, F, s, a);
    case Rename(_) => FinishKeeps(job, F, s, a);
    case Republish => FinishKeeps(job, F, s, a);
  }

  lemma WorkKeeps(job: Job, F: Bytes, s: State, i: nat, e: Event)
    requires Describes(job, F) && Inv(job, F, s) && Enabled(job, s, Work(i, e))
    ensures Inv(job, F, Step(job, s, Work(i, e)))
  {
    hide Inv, Describes, Step;
    match s.workers[i]
    case Claiming => ClaimKeeps(job, F, s, i, e);
    case Writing(_, _, _, _) => WriteKeeps(job, F, s, i, e);
    case Counting(_) => CountKeeps(job, F, s, i, e);
    case Publishing(_) => PublishKeeps(job, F, s, i, e);
    case Failing(_) => FailKeeps(job, F, s, i, e);
    case Checking => SimpleWorkKeeps(job, F, s, i, e);
    case Trying(_, _) => SimpleWorkKeeps(job, F, s, i, e);
    case Asking(_, _) => SimpleWorkKeeps(job, F, s, i, e);
    case GivenUp(_) => SimpleWorkKeeps(job, F, s, i, e);
  }

  lemma {:induction false} RunKeeps(job: Job, F: Bytes, existing: Option<Bytes>, states: seq<State>,
                                    actions: seq<Action>, k: nat)
    requires Describes(job, F) && IsRun(job, existing, states, actions) && k < |states|
    ensures Inv(job, F, states[k])
  {
    hide Inv, Describes, Start, Enabled, Step;
    if k == 0 {
      StartInv(job, F, existing);
    } else {
      RunKeeps(job, F, existing, states, actions, k - 1);
      assert Steps(job, states[k - 1], actions[k - 1], states[k]);
      StepKeeps(job, F, states[k - 1], actions[k - 1]);
    }
  }

  // ---------------------------------------------------------------- partial seeding

  predicate Offered(s: State, piece: nat) {
    s.entry.Some? && piece < |s.entry.value.available| && s.entry.value.available[piece]
  }

  /** At every moment of every run: an offered piece is on disk, correct; a reader that was answered got the piece
      of the file and nothing else. */
  lemma OfferedIsCorrect(job: Job, F: Bytes, existing: Option<Bytes>, states: seq<State>, actions: seq<Action>, k: nat)
    requires Describes(job, F) && IsRun(job, existing, states, actions) && k < |states|
    ensures forall piece: nat | Offered(states[k], piece) :: Correct(F, states[k], piece)
    ensures forall r | 0 <= r < |states[k].readers| && states[k].readers[r].Answered? &&
            states[k].readers[r].reply.Some? ::
              states[k].readers[r].piece < PieceCountForSize(|F|) &&
              states[k].readers[r].reply.value == Piece(F, states[k].readers[r].piece)
  {
    hide IsRun, Shape, WorkersOk, ClaimsOk, ResolvedOk, CountsOk, PhaseOk, Correct, Piece, DiskOk;
    RunKeeps(job, F, existing, states, actions, k);
    forall piece: nat | Offered(states[k], piece) ensures Correct(F, states[k], piece) {
      SettledCorrect(F, states[k], piece);
    }
    forall r | 0 <= r < |states[k].readers| ensures ReaderOk(F, states[k], states[k].readers[r]) {
      OneReader(F, states[k], r);
    }
  }

  /** The step moves bytes of this piece to disk. */
  predicate Writes(s: State, a: Action, piece: nat) {
    && a.Work? && a.worker < |s.workers| && s.workers[a.worker].Writing? &&
       s.workers[a.worker].done < |s.workers[a.worker].data|
    && a.event.count > 0 && s.workers[a.worker].position < |s.order| && s.order[s.workers[a.worker].position] == piece
  }

  /** No step writes a piece that is offered, or one that a reader has open. */
  lemma OfferedIsNotWritten(job: Job, F: Bytes, existing: Option<Bytes>, states: seq<State>, actions: seq<Action>,
                            k: nat, piece: nat)
    requires Describes(job, F) && IsRun(job, existing, states, actions) && k < |actions| &&
             Writes(states[k], actions[k], piece)
    ensures !Offered(states[k], piece)
    ensures forall r | 0 <= r < |states[k].readers| :: states[k].readers[r].piece != piece
  {
    hide Shape, DiskOk, ReadersOk, WorkersOk, ClaimsOk, ResolvedOk, CountsOk, PhaseOk, Step, Piece;
    var s, i := states[k], actions[k].worker;
    RunKeeps(job, F, existing, states, actions, k);
    assert Steps(job, s, actions[k], states[k + 1]);
    Holding(F, s, i);
    forall r | 0 <= r < |s.readers| ensures s.readers[r].piece != piece {
      OneReader(F, s, r);
    }
  }

  /** Only a writing step changes the file, and it changes no piece but its own. */
  lemma OnlyWritesChange(job: Job, F: Bytes, existing: Option<Bytes>, states: seq<State>, actions: seq<Action>, k: nat,
                         other: nat)
    requires Describes(job, F) && IsRun(job, existing, states, actions) && k < |actions|
    requires other < PieceCountForSize(|F|) && !Writes(states[k], actions[k], other)
    ensures KeepsPiece(states[k].disk, states[k + 1].disk, other)
  {
    hide Inv, Shape, WorkersOk, PhaseOk, ClaimsOk, DiskOk, ProgressOk, KeepsPiece, Piece, PieceOffset, Overwrite, Step,
      Writes;
    var s, a := states[k], actions[k];
    RunKeeps(job, F, existing, states, actions, k);
    assert Steps(job, s, a, states[k + 1]);
    InvParts(job, F, s);
    DiskLength(F, s);
    if a.Work? {
      if s.workers[a.worker].Holds() {
        Holding(F, s, a.worker);
      }
      WorkChanges(job, F, s, a.worker, a.event, other);
    } else {
      OtherSteps(job, s, a, other);
    }
  }

  lemma OtherSteps(job: Job, s: State, a: Action, piece: nat)
    requires Shape(job, s) && Enabled(job, s, a) && !a.Work?
    ensures KeepsPiece(s.disk, Step(job, s, a).disk, piece)
  {
    hide Shape, WorkerStep, ReaderStep, IsRarestFirst, Rarity, DiskMatches;
  }

  lemma NoWrite(job: Job, s: State, i: nat, e: Event)
    requires i < |s.workers| && WorkerOk(job, s, s.workers[i]) && !s.workers[i].Writing?
    ensures WorkerStep(job, s, i, e).disk == s.disk
  {
    hide Attempts, WorkerOk;
  }

  lemma WorkChanges(job: Job, F: Bytes, s: State, i: nat, e: Event, other: nat)
    requires Shape(job, s) && Enabled(job, s, Work(i, e)) && |s.disk| == |F| && other < PieceCountForSize(|F|)
    requires s.workers[i].Holds() ==> s.workers[i].position < |s.order| && ProgressOk(F, s, s.workers[i])
    requires !Writes(s, Work(i, e), other)
    ensures KeepsPiece(s.disk, Step(job, s, Work(i, e)).disk, other)
  {
    hide Shape, IsRarestFirst, Piece, PieceOffset, Overwrite, Attempts, PieceCountForSize;
    var w := s.workers[i];
    AllOk(job, s);
    if !w.Writing? {
      NoWrite(job, s, i, e);
    } else if w.done < |w.data| && e.count > 0 {
      PieceInside(F, s.order[w.position]);
      WriteKeepsOthers(s.disk, s.order[w.position], w.done, w.data[w.done..w.done + Min(e.count, |w.data| - w.done)]);
    }
  }

  /** An offered piece can be fetched: if the entry names the file where it lies, a GET read to the end brings the
      piece. */
  lemma OfferedIsServed(job: Job, F: Bytes, s: State, piece: nat) returns (s1: State, s2: State, s3: State, s4: State)
    requires Describes(job, F) && Inv(job, F, s) && Offered(s, piece) && s.entry.value.final == s.moved
    ensures Steps(job, s, Get(piece), s1) && Steps(job, s1, Open(|s.readers|), s2)
    ensures Steps(job, s2, Read(|s.readers|, job.metadata.PieceLength(piece)), s3) &&
            Steps(job, s3, Read(|s.readers|, 0), s4)
    ensures piece < PieceCountForSize(|F|) && |s4.readers| == |s.readers| + 1
    ensures s4.readers[|s.readers|] == Answered(piece, Some(Piece(F, piece)))
  {
    hide Inv, Shape, Piece, MetadataOf, PieceOffset;
    OfferedSettled(job, F, s, piece);
    var r, n := |s.readers|, job.metadata.PieceLength(piece);
    PieceLengths(job, F, piece);
    GetKeeps(job, F, s, piece);
    s1 := Step(job, s, Get(piece));
    InvReader(job, F, s1, r);
    OpenKeeps(job, F, s1, r);
    s2 := Step(job, s1, Open(r));
    InvReader(job, F, s2, r);
    s3, s4 := ReadToEnd(job, F, s2, r);
  }

  lemma ReadToEnd(job: Job, F: Bytes, s: State, r: nat) returns (s1: State, s2: State)
    requires Describes(job, F) && Inv(job, F, s) && r < |s.readers| && s.readers[r].Reading? && s.readers[r].data == []
    ensures Steps(job, s, Read(r, job.metadata.PieceLength(s.readers[r].piece)), s1) && Steps(job, s1, Read(r, 0), s2)
    ensures s.readers[r].piece < PieceCountForSize(|F|) && |s2.readers| == |s.readers|
    ensures s2.readers[r] == Answered(s.readers[r].piece, Some(Piece(F, s.readers[r].piece)))
  {
    hide Inv, Shape, Piece, MetadataOf, PieceOffset, DiskOk, WorkersOk, PhaseOk, ClaimsOk, PieceEnd, PieceCountForSize,
      Settled;
    InvReader(job, F, s, r);
    var n := job.metadata.PieceLength(s.readers[r].piece);
    PieceLengths(job, F, s.readers[r].piece);
    PieceInside(F, s.readers[r].piece);
    InvParts(job, F, s);
    DiskLength(F, s);
    ReadKeeps(job, F, s, r, n);
    s1 := Step(job, s, Read(r, n));
    assert s1.readers[r].Reading? && |s1.readers[r].data| == n;
    InvReader(job, F, s1, r);
    ReadKeeps(job, F, s1, r, 0);
    s2 := Step(job, s1, Read(r, 0));
    assert s2.readers[r] == Answered(s.readers[r].piece, Some(s1.readers[r].data));
    InvReader(job, F, s2, r);
    assert s1.readers[r].data == Piece(F, s.readers[r].piece);
  }

  lemma OfferedSettled(job: Job, F: Bytes, s: State, piece: nat)
    requires Describes(job, F) && Inv(job, F, s) && Offered(s, piece)
    ensures piece < Count(job) == PieceCountForSize(|F|) && Settled(s, piece) && Shape(job, s)
  {
    hide Shape, DiskOk, ReadersOk, WorkersOk, ClaimsOk, ResolvedOk, CountsOk, PhaseOk, Piece;
  }

  lemma InvReader(job: Job, F: Bytes, s: State, r: nat)
    requires Inv(job, F, s) && r < |s.readers|
    ensures ReaderOk(F, s, s.readers[r]) && Shape(job, s)
  {
  }

  // ---------------------------------------------------------------- claims and counts

  /** A worker's step that takes the next position. */
  predicate Claims(s: State, a: Action) {
    a.Work? && a.worker < |s.workers| && s.workers[a.worker].Claiming?
  }

  /** A worker's step that counts a piece it has written. */
  predicate Marks(s: State, a: Action) {
    a.Work? && a.worker < |s.workers| && s.workers[a.worker].Counting?
  }

  /** What one step does to the counters. */
  ghost predicate Counters(s: State, a: Action, s': State) {
    && s'.next == s.next + (if Claims(s, a) then 1 else 0)
    && (s.phase.Preparing? ==> !Marks(s, a) && (!s'.phase.Preparing? ==> s'.completed == s'.resumed))
    && (!s.phase.Preparing? ==>
          && !s'.phase.Preparing? && s'.order == s.order && s'.resumed == s.resumed
          && s'.completed == s.completed + (if Marks(s, a) then 1 else 0))
  }

  lemma WorkCounters(job: Job, s: State, i: nat, e: Event)
    requires i < |s.workers| && WorkerOk(job, s, s.workers[i]) && s.phase == Working
    ensures Counters(s, Work(i, e), WorkerStep(job, s, i, e))
  {
    hide Overwrite, PieceOffset, Attempts;
    match s.workers[i]
    case Checking =>
    case Claiming =>
    case Trying(_, _) =>
    case Asking(_, _) =>
    case Writing(_, _, _, _) =>
    case Counting(_) =>
    case Publishing(_) =>
    case GivenUp(_) =>
    case Failing(_) =>
    case Stopped =>
  }

  lemma OneStep(job: Job, s: State, a: Action, s': State)
    requires Steps(job, s, a, s')
    ensures Counters(s, a, s')
  {
    hide Shape, WorkerStep, ReaderStep, IsRarestFirst, Rarity, DiskMatches, Counters;
    if a.Work? {
      AllOk(job, s);
      WorkCounters(job, s, a.worker, a.event);
    } else {
      OtherStep(job, s, a, s');
    }
  }

  lemma AllOk(job: Job, s: State)
    requires Shape(job, s)
    ensures forall i | 0 <= i < |s.workers| :: WorkerOk(job, s, s.workers[i])
  {
  }

  lemma OtherStep(job: Job, s: State, a: Action, s': State)
    requires Steps(job, s, a, s') && !a.Work?
    ensures Counters(s, a, s')
  {
    hide Shape, WorkerStep, ReaderStep, IsRarestFirst, Rarity, DiskMatches;
  }

  lemma {:induction false} NextGrows(job: Job, existing: Option<Bytes>, states: seq<State>, actions: seq<Action>,
                                     j: nat, k: nat)
    requires IsRun(job, existing, states, actions) && j <= k < |states|
    ensures states[j].next <= states[k].next
    ensures !states[j].phase.Preparing? ==> !states[k].phase.Preparing? && states[k].order == states[j].order
    decreases k
  {
    hide Steps, Start, Claims, Marks;
    if j < k {
      NextGrows(job, existing, states, actions, j, k - 1);
      OneStep(job, states[k - 1], actions[k - 1], states[k]);
    }
  }

  /** No position of the order, and so no piece, is claimed twice in a run. */
  lemma ClaimedOnce(job: Job, F: Bytes, existing: Option<Bytes>, states: seq<State>, actions: seq<Action>, j: nat,
                    k: nat)
    requires Describes(job, F) && IsRun(job, existing, states, actions) && j < k < |actions|
    requires Claims(states[j], actions[j]) && Claims(states[k], actions[k])
    ensures states[j].next < states[k].next && states[j].order == states[k].order
    ensures states[k].next < |states[k].order| ==> states[j].order[states[j].next] != states[k].order[states[k].next]
  {
    hide Inv, PhaseOk, Shape, Step;
    assert Steps(job, states[j], actions[j], states[j + 1]);
    OneStep(job, states[j], actions[j], states[j + 1]);
    NextGrows(job, existing, states, actions, j + 1, k);
    NextGrows(job, existing, states, actions, j, k);
    RunKeeps(job, F, existing, states, actions, k);
    assert Steps(job, states[k], actions[k], states[k + 1]);
    InvParts(job, F, states[k]);
    OrderDistinct(job, states[k]);
  }

  function MarkSteps(states: seq<State>, actions: seq<Action>, k: nat): nat
    requires k <= |actions| <= |states|
  {
    if k == 0 then 0 else MarkSteps(states, actions, k - 1) + if Marks(states[k - 1], actions[k - 1]) then 1 else 0
  }

  lemma {:induction false} CountedIsMarked(job: Job, existing: Option<Bytes>, states: seq<State>, actions: seq<Action>,
                                           k: nat)
    requires IsRun(job, existing, states, actions) && k < |states|
    ensures if states[k].phase.Preparing? then MarkSteps(states, actions, k) == 0
            else states[k].completed == states[k].resumed + MarkSteps(states, actions, k)
  {
    hide Steps, Claims, Marks;
    if k > 0 {
      CountedIsMarked(job, existing, states, actions, k - 1);
      OneStep(job, states[k - 1], actions[k - 1], states[k]);
    }
  }

  /** The counter is the pieces resumed plus the pieces marked, which are that many different pieces, and never exceeds
      the number of pieces. */
  lemma CompletedCounts(job: Job, F: Bytes, existing: Option<Bytes>, states: seq<State>, actions: seq<Action>, k: nat)
    requires Describes(job, F) && IsRun(job, existing, states, actions) && k < |states| && !states[k].phase.Preparing?
    ensures states[k].completed == states[k].resumed + MarkSteps(states, actions, k) == |states[k].done| <= Count(job)
    ensures forall piece | piece in states[k].done :: Correct(F, states[k], piece)
  {
    hide IsRun, Shape, ReadersOk, WorkersOk, ClaimsOk, ResolvedOk, PhaseOk, Correct, EntryOk;
    RunKeeps(job, F, existing, states, actions, k);
    CountedIsMarked(job, existing, states, actions, k);
    SubsetSize(states[k].done, Below(Count(job)));
  }

  ghost function Below(n: nat): (r: set<nat>)
    ensures |r| == n && forall i: nat :: i in r <==> i < n
  {
    if n == 0 then {} else Below(n - 1) + {n - 1}
  }

  lemma {:induction false} SubsetSize(a: set<nat>, b: set<nat>)
    requires a <= b
    ensures |a| <= |b|
  {
    if x :| x in a {
      SubsetSize(a - {x}, b - {x});
    }
  }

  // ---------------------------------------------------------------- end to end

  lemma AllDoneIsExact(job: Job, F: Bytes, s: State)
    requires Describes(job, F) && DiskOk(F, s) && AllDone(job, s)
    ensures s.disk == F
  {
    hide Piece;
    forall i | 0 <= i < PieceCountForSize(|F|) ensures Piece(s.disk, i) == Piece(F, i) {
      assert Correct(F, s, i);
    }
    PiecesDetermine(s.disk, F);
  }

  /** When the workers have joined and nothing failed or was cancelled, the .part file is the file: the final integrity
      check passes, and hashing it gives back the tracker's metadata. */
  lemma GotAllIsExact(job: Job, F: Bytes, existing: Option<Bytes>, states: seq<State>, actions: seq<Action>, k: nat)
    requires Describes(job, F) && IsRun(job, existing, states, actions) && k < |states| && job.seeders > 0
    requires states[k].phase == Deciding && !states[k].failed && !states[k].cancelled
    ensures states[k].disk == F && MetadataOf(job.sha, states[k].disk) == job.metadata
    ensures forall piece | piece in states[k].order :: piece in states[k].done
  {
    hide IsRun, DiskOk, ReadersOk, WorkersOk, ClaimsOk, ResolvedOk, EntryOk, CountsOk, IsRarestFirst, Piece, WorkerOk;
    var s := states[k];
    RunKeeps(job, F, existing, states, actions, k);
    JoinedAllDone(job, F, s);
    AllDoneIsExact(job, F, s);
  }

  /** A download that reports 'C' has put exactly the file at the destination, whatever the old .part held, whatever
      seeders sent, and even if it had none. */
  lemma CompleteIsExact(job: Job, F: Bytes, existing: Option<Bytes>, states: seq<State>, actions: seq<Action>, k: nat)
    requires Describes(job, F) && IsRun(job, existing, states, actions) && k < |states| && states[k].phase == Complete
    ensures states[k].moved && states[k].disk == F && MetadataOf(job.sha, states[k].disk) == job.metadata
  {
    hide IsRun, Shape, ReadersOk, WorkersOk, ClaimsOk, ResolvedOk, CountsOk, PhaseOk, Piece;
    RunKeeps(job, F, existing, states, actions, k);
  }

  /** The integrity check can fail only for a download without seeders: from Completing, hashing a readable .part
      succeeds. */
  lemma IntegrityCannotFail(job: Job, F: Bytes, existing: Option<Bytes>, states: seq<State>, actions: seq<Action>,
                            k: nat)
    requires Describes(job, F) && IsRun(job, existing, states, actions) && k < |actions| && job.seeders > 0
    requires actions[k] == HashPart(true)
    ensures states[k].disk == F && states[k + 1].phase == Hashed
  {
    hide Shape, ReadersOk, WorkersOk, ClaimsOk, ResolvedOk, EntryOk, CountsOk, IsRarestFirst, Piece, DiskOk;
    RunKeeps(job, F, existing, states, actions, k);
    assert Steps(job, states[k], actions[k], states[k + 1]);
    AllDoneIsExact(job, F, states[k]);
  }

  lemma IdleStep(job: Job, s: State, a: Action, s': State)
    requires Steps(job, s, a, s') && s.workers == [] && job.seeders == 0
    ensures s'.workers == [] && s'.failed == s.failed && s'.disk == s.disk && !Marks(s, a)
  {
    hide Shape, WorkerStep, ReaderStep, IsRarestFirst, Rarity, DiskMatches;
    assert !a.Work?;
    if a.Announce? {
      assert Threads(job, a.order) == 0;
    }
  }

  /** Without seeders no worker runs, the .part keeps the bytes it was opened with and nothing is marked, and yet
      nothing counts as failed. The nonempty list comes from TrackerProtocol.LocatedHasSeeder. */
  lemma {:induction false} WithoutSeeders(job: Job, existing: Option<Bytes>, states: seq<State>, actions: seq<Action>,
                                          k: nat)
    requires IsRun(job, existing, states, actions) && k < |states| && job.seeders == 0
    ensures states[k].workers == [] && !states[k].failed && states[k].disk == states[0].disk
    ensures MarkSteps(states, actions, k) == 0
  {
    hide Steps, Marks;
    if k > 0 {
      WithoutSeeders(job, existing, states, actions, k - 1);
      IdleStep(job, states[k - 1], actions[k - 1], states[k]);
    }
  }

  lemma SameSize(a: set<nat>, b: set<nat>)
    requires a <= b && |a| == |b|
    ensures a == b
  {
    forall x | x in b ensures x in a {
      if x !in a {
        SubsetSize(a, b - {x});
        assert false;
      }
    }
  }

  /** Without seeders what is done is what was resumed. */
  lemma DoneIsVerified(job: Job, F: Bytes, existing: Option<Bytes>, states: seq<State>, actions: seq<Action>, k: nat)
    requires Describes(job, F) && IsRun(job, existing, states, actions) && k < |states| && !states[k].phase.Preparing?
    requires job.seeders == 0
    ensures states[k].done == VerifiedSet(states[k])
  {
    hide IsRun, Shape, DiskOk, ReadersOk, WorkersOk, ClaimsOk, ResolvedOk, PhaseOk, EntryOk, Describes;
    RunKeeps(job, F, existing, states, actions, k);
    WithoutSeeders(job, existing, states, actions, k);
    CompletedCounts(job, F, existing, states, actions, k);
    SameSize(VerifiedSet(states[k]), states[k].done);
  }

  /** After the join, with nothing failed and nothing cancelled, every piece is there if and only if there was a
      seeder to ask or nothing to fetch. */
  lemma GotAllExactly(job: Job, F: Bytes, existing: Option<Bytes>, states: seq<State>, actions: seq<Action>, k: nat)
    requires Describes(job, F) && IsRun(job, existing, states, actions) && k < |states|
    requires states[k].phase == Deciding && !states[k].failed && !states[k].cancelled
    ensures AllDone(job, states[k]) <==> job.seeders > 0 || states[k].order == []
    ensures AllDone(job, states[k]) ==> states[k].disk == F
  {
    hide IsRun, DiskOk, ReadersOk, WorkersOk, ClaimsOk, ResolvedOk, EntryOk, CountsOk, Piece, WorkerOk, Describes,
      InOrder, Rarity;
    var s := states[k];
    RunKeeps(job, F, existing, states, actions, k);
    if job.seeders > 0 {
      JoinedAllDone(job, F, s);
    } else {
      DoneIsVerified(job, F, existing, states, actions, k);
      ShapeLengths(job, s);
      if s.order != [] {
        assert s.order[0] in s.order;
        assert s.order[0] !in s.done;
      }
    }
    if AllDone(job, s) {
      AllDoneIsExact(job, F, s);
    }
  }

  /** The condition does fail: a download of one piece, with no .part and no seeders, joins with nothing failed and
      nothing fetched. */
  lemma NothingFetchedNothingFailed(job: Job, F: Bytes) returns (states: seq<State>, actions: seq<Action>)
    requires Describes(job, F) && job.seeders == 0 && |F| == 1
    ensures IsRun(job, None, states, actions)
    ensures var s := states[|actions|]; s.phase == Deciding && !s.failed && !s.cancelled && !AllDone(job, s)
  {
    hide Piece, Shape, MetadataOf, Inv, DiskMatches, IsRarestFirst;
    var s0 := Start(job, None);
    StartInv(job, F, None);
    OnePiece(job, F);
    InvParts(job, F, s0);
    ShapeLengths(job, s0);
    var s1 := Step(job, s0, Verify(true));
    StepKeeps(job, F, s0, Verify(true));
    InvParts(job, F, s1);
    assert s1.verified == [false];
    OnlyPieceFirst();
    assert Rarity([], 1) == [0];
    var s2 := Step(job, s1, Announce([], [0]));
    StepKeeps(job, F, s1, Announce([], [0]));
    InvParts(job, F, s2);
    var s3 := Step(job, s2, Join);
    states, actions := [s0, s1, s2, s3], [Verify(true), Announce([], [0]), Join];
    assert 0 !in s3.done;
  }

  lemma OnePiece(job: Job, F: Bytes)
    requires Describes(job, F) && |F| == 1
    ensures Count(job) == 1
  {
  }

  lemma OnlyPieceFirst()
    ensures IsRarestFirst([0], [false], [0])
  {
  }
}
