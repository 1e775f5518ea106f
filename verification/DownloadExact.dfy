/** What a download does, and not only what it keeps: which pieces it resumes, which it offers, when it gives a piece up
    and how it ends (client/download/download.cpp). */
module DownloadExact {
  import opened Text
  import opened Metadata
  import opened Pieces
  import opened PieceFileClass
  import opened DownloadParts
  import opened DownloadEngine
  import opened DownloadLaws
  import opened DownloadRuns
  import opened DownloadBound

  // ---------------------------------------------------------------- resuming

  /** Opening keeps the bytes of an old .part as far as they go, and fills up with zeros. */
  lemma StartKeepsBytes(job: Job, existing: Option<Bytes>, i: nat)
    requires i < job.metadata.size
    ensures Start(job, existing).disk[i] ==
            if existing.Some? && i < |existing.value| then existing.value[i] else '\0'
  {
  }

  /** Re-hashing keeps a piece if and only if there was a .part, the piece can be read and its bytes are right. */
  lemma VerifyExact(job: Job, F: Bytes, s: State, readable: bool)
    requires Describes(job, F) && Inv(job, F, s) && Enabled(job, s, Verify(readable))
    ensures var i, s' := s.phase.piece, Step(job, s, Verify(readable));
            && |s'.verified| == |s.verified| && s'.phase == Preparing(i + 1)
            && (s'.verified[i] <==> s.resuming && readable && Correct(F, s, i))
            && (forall k | 0 <= k < |s.verified| && k != i :: s'.verified[k] == s.verified[k])
            && s'.disk == s.disk && s'.resuming == s.resuming
  {
    hide DiskOk, EntryOk, ReadersOk, WorkersOk, ClaimsOk, ResolvedOk, CountsOk, Piece, WorkerOk;
    InvParts(job, F, s);
    DiskLength(F, s);
  }

  /** What a step leaves alone while the download prepares, and ever after. */
  ghost predicate Settling(s: State, a: Action, s': State) {
    && s'.resuming == s.resuming
    && (!a.Verify? ==> s'.verified == s.verified)
    && (s.phase.Preparing? && !a.Verify? ==> s'.disk == s.disk && (s'.phase.Preparing? ==> s'.phase == s.phase))
    && (a.Verify? ==> s.phase.Preparing?)
  }

  lemma WorkSettles(job: Job, s: State, i: nat, e: Event)
    requires i < |s.workers| && WorkerOk(job, s, s.workers[i]) && s.phase == Working
    ensures Settling(s, Work(i, e), WorkerStep(job, s, i, e))
  {
    hide NextWorker, Overwrite, PieceOffset, MarkAvailable;
  }

  lemma StepSettles(job: Job, s: State, a: Action, s': State)
    requires Steps(job, s, a, s')
    ensures Settling(s, a, s')
  {
    hide Shape, WorkerStep, ReaderStep, IsRarestFirst, Rarity, DiskMatches, Settling;
    if a.Work? {
      AllOk(job, s);
      WorkSettles(job, s, a.worker, a.event);
    } else {
      OtherSettles(job, s, a, s');
    }
  }

  lemma OtherSettles(job: Job, s: State, a: Action, s': State)
    requires Steps(job, s, a, s') && !a.Work?
    ensures Settling(s, a, s')
  {
    hide Shape, WorkerStep, ReaderStep, IsRarestFirst, Rarity, DiskMatches;
  }

  /** The piece was re-hashed, and could be read. */
  ghost predicate WasRead(states: seq<State>, actions: seq<Action>, k: nat, piece: nat) {
    exists j | 0 <= j < k && j < |actions| && j < |states| ::
      states[j].phase == Preparing(piece) && actions[j] == Verify(true)
  }

  lemma {:induction false} PreparingKeepsDisk(job: Job, existing: Option<Bytes>, states: seq<State>,
                                              actions: seq<Action>, k: nat)
    requires IsRun(job, existing, states, actions) && k < |states|
    ensures states[k].resuming == existing.Some?
    ensures states[k].phase.Preparing? ==> states[k].disk == states[0].disk
  {
    hide Steps, Shape;
    if k > 0 {
      PreparingKeepsDisk(job, existing, states, actions, k - 1);
      assert Steps(job, states[k - 1], actions[k - 1], states[k]);
      StepSettles(job, states[k - 1], actions[k - 1], states[k]);
      OneStep(job, states[k - 1], actions[k - 1], states[k]);
      if actions[k - 1].Verify? {
        VerifyMoves(job, states[k - 1], actions[k - 1], states[k]);
      }
    }
  }

  lemma VerifyMoves(job: Job, s: State, a: Action, s': State)
    requires Steps(job, s, a, s') && a.Verify?
    ensures s.phase.Preparing? && s'.disk == s.disk && s'.phase == Preparing(s.phase.piece + 1)
  {
    hide Shape, WorkerStep, ReaderStep, IsRarestFirst, Rarity, DiskMatches;
  }

  /** How far re-hashing has come. */
  function Checked(s: State, piece: nat): bool {
    !s.phase.Preparing? || piece < s.phase.piece
  }

  /** In every run, once its turn is over, a piece counts as there if and only if there was an old .part, the piece
      could be read from it, and it was right. */
  lemma {:induction false} ResumeExact(job: Job, F: Bytes, existing: Option<Bytes>, states: seq<State>,
                                       actions: seq<Action>, k: nat, piece: nat)
    requires Describes(job, F) && IsRun(job, existing, states, actions) && k < |states| && piece < Count(job)
    ensures |states[k].verified| == Count(job)
    ensures if Checked(states[k], piece)
            then states[k].verified[piece] <==>
              existing.Some? && WasRead(states, actions, k, piece) && Correct(F, states[0], piece)
            else !WasRead(states, actions, k, piece)
  {
    hide Inv, Describes, Steps, Shape, Correct, IsRarestFirst;
    RunKeeps(job, F, existing, states, actions, k);
    InvParts(job, F, states[k]);
    ShapeLengths(job, states[k]);
    if k == 0 {
      assert !WasRead(states, actions, 0, piece);
    } else {
      var s, a, s' := states[k - 1], actions[k - 1], states[k];
      assert Steps(job, s, a, s');
      ResumeExact(job, F, existing, states, actions, k - 1, piece);
      ReadSoFar(states, actions, k, piece);
      RunKeeps(job, F, existing, states, actions, k - 1);
      PreparingKeepsDisk(job, existing, states, actions, k - 1);
      StepSettles(job, s, a, s');
      OneStep(job, s, a, s');
      if a.Verify? {
        VerifyStep(job, s, a, s');
        VerifyExact(job, F, s, a.readable);
        SameCorrect(F, states[0], s, s.phase.piece);
      } else {
        CheckedStays(job, F, s, a, s', piece);
      }
    }
  }

  lemma SameCorrect(F: Bytes, s: State, s': State, piece: nat)
    requires s'.disk == s.disk
    ensures Correct(F, s', piece) <==> Correct(F, s, piece)
  {
  }

  lemma VerifyStep(job: Job, s: State, a: Action, s': State)
    requires Steps(job, s, a, s') && a.Verify?
    ensures Enabled(job, s, a) && s' == Step(job, s, a) && s.phase.Preparing?
  {
  }

  lemma ReadSoFar(states: seq<State>, actions: seq<Action>, k: nat, piece: nat)
    requires 0 < k <= |actions| <= |states|
    ensures WasRead(states, actions, k, piece) <==>
            WasRead(states, actions, k - 1, piece) ||
              (states[k - 1].phase == Preparing(piece) && actions[k - 1] == Verify(true))
  {
  }

  /** A step other than a re-hash moves no piece across the line. */
  lemma CheckedStays(job: Job, F: Bytes, s: State, a: Action, s': State, piece: nat)
    requires Steps(job, s, a, s') && !a.Verify? && piece < Count(job)
    ensures Checked(s', piece) == Checked(s, piece)
  {
    hide Shape, WorkerStep, ReaderStep, IsRarestFirst, Rarity, DiskMatches;
    if a.Work? {
      AllOk(job, s);
      WorkSettles(job, s, a.worker, a.event);
      StillWorking(job, s, a.worker, a.event);
    }
  }

  /** The plan of a download: it fetches exactly the pieces that were not there to resume, and the two make up the
      file. */
  lemma PlanExact(job: Job, F: Bytes, existing: Option<Bytes>, states: seq<State>, actions: seq<Action>, k: nat)
    requires Describes(job, F) && IsRun(job, existing, states, actions) && k < |states| && !states[k].phase.Preparing?
    ensures forall piece: nat | piece < Count(job) ::
              piece in states[k].order <==>
              !(existing.Some? && WasRead(states, actions, k, piece) && Correct(F, states[0], piece))
    ensures states[k].resumed + |states[k].order| == Count(job)
  {
    hide IsRun, Describes, Shape, DiskOk, ReadersOk, WorkersOk, ClaimsOk, ResolvedOk, EntryOk, Correct, WasRead, Rarity,
      InOrder;
    var s := states[k];
    RunKeeps(job, F, existing, states, actions, k);
    ShapeLengths(job, s);
    forall piece: nat | piece < Count(job)
      ensures piece in s.order <==>
              !(existing.Some? && WasRead(states, actions, k, piece) && Correct(F, states[0], piece))
    {
      ResumeExact(job, F, existing, states, actions, k, piece);
    }
    PlanSizes(job, s);
  }

  lemma PlanSizes(job: Job, s: State)
    requires IsRarestFirst(Rarity(s.bitmaps, Count(job)), s.verified, s.order) && |s.verified| == Count(job)
    ensures |VerifiedSet(s)| + |s.order| == Count(job)
  {
    hide Rarity, IsRarestFirst;
    OrderIsMissing(Rarity(s.bitmaps, Count(job)), s.verified, s.order);
    DistinctSize(s.order);
    var missing, all := Elements(s.order), Below(Count(job));
    assert VerifiedSet(s) !! missing;
    assert VerifiedSet(s) + missing == all;
  }

  lemma OrderIsMissing(rarity: seq<nat>, verified: seq<bool>, order: seq<nat>)
    requires IsRarestFirst(rarity, verified, order)
    ensures forall piece: nat :: piece in order <==> piece < |verified| && !verified[piece]
    ensures forall p, q | 0 <= p < q < |order| :: order[p] != order[q]
  {
    forall p, q | 0 <= p < q < |order| ensures order[p] != order[q] {
      assert Precedes(rarity, order[p], order[q]);
    }
  }

  ghost function Elements(order: seq<nat>): (r: set<nat>)
    ensures forall piece: nat :: piece in r <==> piece in order
  {
    if order == [] then {} else Elements(order[1..]) + {order[0]}
  }

  lemma {:induction false} DistinctSize(order: seq<nat>)
    requires forall p, q | 0 <= p < q < |order| :: order[p] != order[q]
    ensures |Elements(order)| == |order|
  {
    if order != [] {
      DistinctSize(order[1..]);
      assert order[0] !in order[1..];
    }
  }

  // ---------------------------------------------------------------- offering

  ghost predicate PublishedBy(s: State, piece: nat, i: nat) {
    && i < |s.workers| && s.workers[i].Publishing? && s.workers[i].position < |s.order|
    && s.order[s.workers[i].position] == piece
  }

  /** While there is an entry, every piece that is done is offered, or its worker is about to offer it. */
  ghost predicate DoneOffered(s: State) {
    s.entry.Some? ==> forall piece | piece in s.done && !Offered(s, piece) :: exists i :: PublishedBy(s, piece, i)
  }

  lemma PublishStep(job: Job, F: Bytes, s: State, i: nat, e: Event)
    requires Inv(job, F, s) && Enabled(job, s, Work(i, e)) && DoneOffered(s)
    ensures DoneOffered(Step(job, s, Work(i, e)))
  {
    hide Inv, Shape, DiskOk, EntryOk, WorkersOk, ClaimsOk, PhaseOk, NextWorker, Effect, IsRarestFirst, Offered;
    InvParts(job, F, s);
    var w, s' := s.workers[i], Step(job, s, Work(i, e));
    PublishMoves(job, s, i, e);
    PublishEffect(job, F, s, i, e);
    if s'.entry.Some? {
      forall piece | piece in s'.done && !Offered(s', piece) ensures exists k :: PublishedBy(s', piece, k) {
        if piece !in s.done {
          assert PublishedBy(s', piece, i);
        } else {
          var k :| PublishedBy(s, piece, k);
          assert PublishedBy(s', piece, k);
        }
      }
    }
  }

  /** What a step does to the done pieces and to what is offered. */
  lemma PublishEffect(job: Job, F: Bytes, s: State, i: nat, e: Event)
    requires Inv(job, F, s) && Shape(job, s) && Enabled(job, s, Work(i, e))
    ensures var w, s' := s.workers[i], Step(job, s, Work(i, e));
            && |s'.workers| == |s.workers| && s'.order == s.order
            && (forall k | 0 <= k < |s.workers| && k != i :: s'.workers[k] == s.workers[k])
            && s'.workers[i] == NextWorker(job, s, w, e)
            && (w.Holds() ==> w.position < |s.order|)
            && (forall piece | piece in s'.done ::
                  piece in s.done || (w.Counting? && w.position < |s.order| && piece == s.order[w.position]))
            && (s.entry.Some? <==> s'.entry.Some?)
            && (forall piece: nat | Offered(s, piece) :: Offered(s', piece))
            && (w.Publishing? && s.entry.Some? ==> Offered(s', s.order[w.position]))
  {
    hide Inv, Shape, NextWorker, Effect, IsRarestFirst;
    EntrySize(job, F, s);
    AllOk(job, s);
    if s.workers[i].Holds() {
      PiecesOfOrder(job, s, i);
    }
    EffectOnPlan(s, s.workers[i], e);
    EffectPublishes(s, s.workers[i], e, Count(job));
  }

  lemma EffectPublishes(s: State, w: Worker, e: Event, count: nat)
    requires w.Holds() ==> w.position < |s.order| && s.order[w.position] < count
    requires s.entry.Some? ==> |s.entry.value.available| == count
    ensures var s' := Effect(s, w, e);
            && s'.done == (if w.Counting? then s.done + {s.order[w.position]} else s.done)
            && (s.entry.Some? <==> s'.entry.Some?)
            && (forall piece: nat | Offered(s, piece) :: Offered(s', piece))
            && (w.Publishing? && s.entry.Some? ==> Offered(s', s.order[w.position]))
  {
    hide Overwrite, PieceOffset;
  }

  lemma PublishMoves(job: Job, s: State, i: nat, e: Event)
    requires Shape(job, s) && Enabled(job, s, Work(i, e))
    ensures var w, w' := s.workers[i], NextWorker(job, s, s.workers[i], e);
            && (w'.Publishing? <==> w.Counting?) && (w.Counting? ==> w'.position == w.position)
  {
    hide IsRarestFirst, FetchPieceResult, Attempts;
  }

  lemma EntrySize(job: Job, F: Bytes, s: State)
    requires Inv(job, F, s)
    ensures s.entry.Some? ==> |s.entry.value.available| == Count(job)
    ensures forall piece | piece in s.done :: piece < Count(job)
    ensures s.phase.Preparing? ==> s.entry.None? && s.done == VerifiedSet(s)
    ensures |s.verified| == Count(job)
  {
    hide DiskOk, ReadersOk, WorkersOk, ClaimsOk, ResolvedOk, Settled, WorkerOk, Piece;
  }

  lemma OtherPublish(job: Job, F: Bytes, s: State, a: Action)
    requires Inv(job, F, s) && Enabled(job, s, a) && !a.Work? && DoneOffered(s)
    ensures Shape(job, s) && DoneOffered(Step(job, s, a))
  {
    hide Inv, Shape, Enabled, Step, Offered;
    InvParts(job, F, s);
    EntrySize(job, F, s);
    var s' := Step(job, s, a);
    if a.Verify? {
      VerifyNoEntry(job, F, s, a.readable);
    } else if a.Announce? || a.Republish? {
      NewEntry(job, F, s, a);
    } else {
      EntryKept(job, s, a);
      if s'.entry.Some? {
        forall piece | piece in s'.done && !Offered(s', piece) ensures exists k :: PublishedBy(s', piece, k) {
          var k :| PublishedBy(s, piece, k);
          assert PublishedBy(s', piece, k);
        }
      }
    }
  }

  /** The two entries a download makes offer everything done. */
  lemma NewEntry(job: Job, F: Bytes, s: State, a: Action)
    requires Inv(job, F, s) && Shape(job, s) && Enabled(job, s, a) && (a.Announce? || a.Republish?)
    ensures DoneOffered(Step(job, s, a))
  {
    hide Inv, Shape, IsRarestFirst, Rarity;
    EntrySize(job, F, s);
  }

  lemma EntryKept(job: Job, s: State, a: Action)
    requires Shape(job, s) && Enabled(job, s, a) && !a.Work? && !a.Verify? && !a.Announce? && !a.Republish?
    ensures var s' := Step(job, s, a);
            && s'.workers == s.workers && s'.order == s.order && s'.done == s.done
            && (s'.entry == s.entry || s'.entry.None?)
            && (forall piece: nat :: s'.entry.Some? ==> Offered(s', piece) == Offered(s, piece))
  {
    hide Shape, WorkerStep, ReaderStep, IsRarestFirst, Rarity, FinishVerify;
  }

  lemma VerifyNoEntry(job: Job, F: Bytes, s: State, readable: bool)
    requires Inv(job, F, s) && Enabled(job, s, Verify(readable))
    ensures Shape(job, s) && Step(job, s, Verify(readable)).entry.None?
  {
    hide DiskOk, ReadersOk, WorkersOk, ClaimsOk, ResolvedOk, CountsOk, DiskMatches, WorkerOk, Settled;
  }

  /** At every moment of every run: while there is an entry, what is done is offered or about to be by its worker. */
  lemma {:induction false} DoneIsOffered(job: Job, F: Bytes, existing: Option<Bytes>, states: seq<State>,
                                         actions: seq<Action>, k: nat)
    requires Describes(job, F) && IsRun(job, existing, states, actions) && k < |states|
    ensures DoneOffered(states[k])
  {
    hide Inv, Describes, Shape, Enabled, Step, DoneOffered;
    if k == 0 {
      NothingDoneYet(job, existing);
    } else {
      DoneIsOffered(job, F, existing, states, actions, k - 1);
      assert Steps(job, states[k - 1], actions[k - 1], states[k]);
      RunKeeps(job, F, existing, states, actions, k - 1);
      if actions[k - 1].Work? {
        PublishStep(job, F, states[k - 1], actions[k - 1].worker, actions[k - 1].event);
      } else {
        OtherPublish(job, F, states[k - 1], actions[k - 1]);
      }
    }
  }

  lemma NothingDoneYet(job: Job, existing: Option<Bytes>)
    ensures DoneOffered(Start(job, existing))
  {
  }

  /** After the join everything done is offered, as long as the user has not withdrawn the file. */
  lemma JoinedIsOffered(job: Job, F: Bytes, existing: Option<Bytes>, states: seq<State>, actions: seq<Action>, k: nat)
    requires Describes(job, F) && IsRun(job, existing, states, actions) && k < |states|
    requires !states[k].phase.Preparing? && !states[k].phase.Working? && states[k].entry.Some?
    ensures forall piece | piece in states[k].done :: Offered(states[k], piece)
  {
    hide IsRun, Describes, Shape, DiskOk, EntryOk, ReadersOk, WorkersOk, ClaimsOk, ResolvedOk, CountsOk, IsRarestFirst;
    RunKeeps(job, F, existing, states, actions, k);
    DoneIsOffered(job, F, existing, states, actions, k);
    var s := states[k];
    assert forall i | 0 <= i < |s.workers| :: s.workers[i] in s.workers;
    assert forall i: nat, piece: nat :: !PublishedBy(s, piece, i);
  }

  /** The entry is missing only before the announcement or after a withdrawal. */
  lemma {:induction false} NoEntryForAReason(job: Job, existing: Option<Bytes>, states: seq<State>,
                                             actions: seq<Action>, k: nat)
    requires IsRun(job, existing, states, actions) && k < |states|
    requires !states[k].phase.Preparing? && states[k].entry.None?
    ensures exists j | 0 <= j < k :: actions[j] == Withdraw
  {
    hide Steps;
    assert k > 0;
    assert Steps(job, states[k - 1], actions[k - 1], states[k]);
    EntryStep(job, states[k - 1], actions[k - 1], states[k]);
    if actions[k - 1] != Withdraw {
      NoEntryForAReason(job, existing, states, actions, k - 1);
    }
  }

  lemma EntryStep(job: Job, s: State, a: Action, s': State)
    requires Steps(job, s, a, s')
    ensures s'.entry.None? && !s'.phase.Preparing? ==> a == Withdraw || (s.entry.None? && !s.phase.Preparing?)
    ensures s.entry.None? && !a.Announce? && !a.Republish? ==> s'.entry.None?
    ensures a == Withdraw ==> s'.entry.None?
  {
    hide Shape, NextWorker, Overwrite, PieceOffset, ReaderStep, IsRarestFirst, Rarity, DiskMatches;
    if a.Work? {
      AllOk(job, s);
    }
  }

  /** A withdrawn file is not offered again until the download announces or completes it. */
  lemma {:induction false} WithdrawnIsGone(job: Job, existing: Option<Bytes>, states: seq<State>, actions: seq<Action>,
                                           j: nat, k: nat)
    requires IsRun(job, existing, states, actions) && j < k < |states| && actions[j] == Withdraw
    requires forall i | j < i < k :: !actions[i].Announce? && !actions[i].Republish?
    ensures states[k].entry.None? && forall piece: nat :: !Offered(states[k], piece)
    decreases k
  {
    hide Steps;
    assert Steps(job, states[k - 1], actions[k - 1], states[k]);
    EntryStep(job, states[k - 1], actions[k - 1], states[k]);
    if j < k - 1 {
      WithdrawnIsGone(job, existing, states, actions, j, k - 1);
    }
  }

  // ---------------------------------------------------------------- giving up

  /** Requests that have come back for the piece at a position, in the first `k` steps. */
  function AsksFor(states: seq<State>, actions: seq<Action>, position: nat, k: nat): nat
    requires k <= |actions| <= |states|
  {
    if k == 0 then 0
    else AsksFor(states, actions, position, k - 1) + if Asks(states[k - 1], actions[k - 1], position) then 1 else 0
  }

  predicate Asks(s: State, a: Action, position: nat) {
    && a.Work? && a.worker < |s.workers| && s.workers[a.worker].Asking?
    && s.workers[a.worker].position == position
  }

  /** What the attempt number of the worker that holds a position means. */
  ghost predicate Attempted(s: State, w: Worker, asks: nat)
    requires w.Holds() ==> w.position < |s.order|
  {
    match w
    case Trying(position, attempt) => asks == attempt <= Attempts(s, s.order[position])
    case Asking(position, attempt) => asks == attempt < Attempts(s, s.order[position])
    case Writing(position, attempt, _, _) => asks == attempt + 1 <= Attempts(s, s.order[position])
    case GivenUp(position) => s.cancelled || asks == Attempts(s, s.order[position])
    case Failing(position) => asks == Attempts(s, s.order[position])
    case _ => true
  }

  ghost predicate AttemptsOk(s: State, position: nat, asks: nat) {
    && (position >= s.next ==> asks == 0)
    && forall i: nat | HeldBy(s, position, i) :: s.workers[i].position < |s.order| && Attempted(s, s.workers[i], asks)
  }

  lemma AskStep(job: Job, F: Bytes, s: State, i: nat, e: Event, position: nat, asks: nat)
    requires Inv(job, F, s) && Enabled(job, s, Work(i, e)) && AttemptsOk(s, position, asks)
    ensures AttemptsOk(Step(job, s, Work(i, e)), position, asks + if Asks(s, Work(i, e), position) then 1 else 0)
  {
    hide Inv, Shape, DiskOk, WorkersOk, PhaseOk, NextWorker, Effect, Attempted, IsRarestFirst;
    InvParts(job, F, s);
    AllOk(job, s);
    EffectOnPlan(s, s.workers[i], e);
    var w, s' := s.workers[i], Step(job, s, Work(i, e));
    var w' := NextWorker(job, s, w, e);
    var asks' := asks + if Asks(s, Work(i, e), position) then 1 else 0;
    if w.Holds() {
      Holding(F, s, i);
    }
    forall k: nat | HeldBy(s', position, k)
      ensures s'.workers[k].position < |s'.order| && Attempted(s', s'.workers[k], asks')
    {
      if k == i {
        NextBound(job, s, w, e);
        assert w.Holds() ==> HeldBy(s, position, i);
        AttemptMoves(job, s, w, e, asks);
        SamePlan(s, s', w', asks');
      } else {
        assert HeldBy(s, position, k);
        if w.Holds() {
          OneHolder(s, i, k);
        }
        SamePlan(s, s', s.workers[k], asks);
      }
    }
    NextBound(job, s, w, e);
  }

  /** A step of a worker changes neither the plan nor the cancel flag. */
  lemma EffectOnPlan(s: State, w: Worker, e: Event)
    requires w.Holds() ==> w.position < |s.order|
    ensures var s' := Effect(s, w, e);
            && s'.workers == s.workers && s'.bitmaps == s.bitmaps && s'.order == s.order && s'.cancelled == s.cancelled
            && s'.next == if w.Claiming? then s.next + 1 else s.next
  {
    hide Overwrite, PieceOffset, MarkAvailable;
  }

  lemma OneHolder(s: State, i: nat, k: nat)
    requires ClaimsOk(s) && i < |s.workers| && k < |s.workers| && i != k && s.workers[i].Holds() && s.workers[k].Holds()
    ensures s.workers[i].position != s.workers[k].position
  {
  }

  lemma SamePlan(s: State, s': State, w: Worker, asks: nat)
    requires s'.bitmaps == s.bitmaps && s'.order == s.order && (s.cancelled ==> s'.cancelled)
    requires (w.Holds() ==> w.position < |s.order|) && Attempted(s, w, asks)
    ensures Attempted(s', w, asks)
  {
  }

  lemma AttemptMoves(job: Job, s: State, w: Worker, e: Event, asks: nat)
    requires WorkerOk(job, s, w) && (w.Holds() ==> Attempted(s, w, asks))
    ensures var w' := NextWorker(job, s, w, e);
            && (w'.Holds() && w.Holds() ==>
               w'.position == w.position && Attempted(s, w', asks + if w.Asking? then 1 else 0))
            && (w'.Holds() && !w.Holds() ==> w.Claiming? && w'.position == s.next < |s.order| && Attempted(s, w', 0))
  {
    hide FetchPieceResult, Holders;
  }

  lemma NextBound(job: Job, s: State, w: Worker, e: Event)
    requires WorkerOk(job, s, w)
    ensures NextWorker(job, s, w, e).Holds() && !w.Holds() ==>
            w.Claiming? && NextWorker(job, s, w, e).position == s.next
    ensures NextWorker(job, s, w, e).Holds() && w.Holds() ==> NextWorker(job, s, w, e).position == w.position
  {
    hide FetchPieceResult, Holders;
  }

  lemma OtherAsks(job: Job, F: Bytes, s: State, a: Action, position: nat, asks: nat)
    requires Inv(job, F, s) && Enabled(job, s, a) && !a.Work? && AttemptsOk(s, position, asks)
    ensures Shape(job, s) && AttemptsOk(Step(job, s, a), position, asks)
  {
    hide Inv, Shape, WorkerStep, ReaderStep, IsRarestFirst, Rarity, FinishVerify, Attempted;
    InvParts(job, F, s);
    var s' := Step(job, s, a);
    OtherPlan(job, F, s, a);
    forall k: nat | HeldBy(s', position, k)
      ensures s'.workers[k].position < |s'.order| && Attempted(s', s'.workers[k], asks)
    {
      assert HeldBy(s, position, k);
      SamePlan(s, s', s.workers[k], asks);
    }
  }

  lemma OtherPlan(job: Job, F: Bytes, s: State, a: Action)
    requires Inv(job, F, s) && Enabled(job, s, a) && !a.Work?
    ensures Shape(job, s)
    ensures var s' := Step(job, s, a);
            && s'.next == s.next && (s.cancelled ==> s'.cancelled)
            && (a.Announce? ==> s.next == 0 && forall i | 0 <= i < |s'.workers| :: s'.workers[i].Checking?)
            && (!a.Announce? ==> s'.workers == s.workers && s'.order == s.order && s'.bitmaps == s.bitmaps)
  {
    hide DiskOk, EntryOk, ReadersOk, WorkersOk, ClaimsOk, ResolvedOk, CountsOk, WorkerStep, ReaderStep, IsRarestFirst,
      Rarity, DiskMatches, WorkerOk;
  }

  lemma {:induction false} RunAttempts(job: Job, F: Bytes, existing: Option<Bytes>, states: seq<State>,
                                       actions: seq<Action>, position: nat, k: nat)
    requires Describes(job, F) && IsRun(job, existing, states, actions) && k < |states|
    ensures AttemptsOk(states[k], position, AsksFor(states, actions, position, k))
  {
    hide Inv, Describes, Shape, Enabled, Step, AttemptsOk, Asks;
    if k == 0 {
      NothingAsked(job, existing, position);
    } else {
      RunAttempts(job, F, existing, states, actions, position, k - 1);
      RunKeeps(job, F, existing, states, actions, k - 1);
      var s, a := states[k - 1], actions[k - 1];
      assert Steps(job, s, a, states[k]);
      if a.Work? {
        AskStep(job, F, s, a.worker, a.event, position, AsksFor(states, actions, position, k - 1));
      } else {
        OtherAsks(job, F, s, a, position, AsksFor(states, actions, position, k - 1));
        NotAsking(s, a, position);
      }
    }
  }

  lemma NotAsking(s: State, a: Action, position: nat)
    requires !a.Work?
    ensures !Asks(s, a, position)
  {
  }

  lemma NothingAsked(job: Job, existing: Option<Bytes>, position: nat)
    ensures AttemptsOk(Start(job, existing), position, 0)
  {
  }

  /** A download fails for want of a piece only after three requests to every holder of it have come back in vain. */
  lemma FailsOnlyAfterThreePasses(job: Job, F: Bytes, existing: Option<Bytes>, states: seq<State>, actions: seq<Action>,
                                  k: nat)
    requires Describes(job, F) && IsRun(job, existing, states, actions) && k < |actions|
    requires !states[k].failed && states[k + 1].failed
    ensures actions[k].Work? && actions[k].worker < |states[k].workers| && states[k].workers[actions[k].worker].Failing?
    ensures var position := states[k].workers[actions[k].worker].position;
            && position < |states[k].order|
            && AsksFor(states, actions, position, k) == 3 * |Holders(states[k].bitmaps, states[k].order[position])|
  {
    hide Inv, Describes, Shape, Enabled, Step;
    var s, a := states[k], actions[k];
    assert Steps(job, s, a, states[k + 1]);
    FailedFlag(job, s, a, states[k + 1]);
    RunKeeps(job, F, existing, states, actions, k);
    InvParts(job, F, s);
    AllOk(job, s);
    RunAttempts(job, F, existing, states, actions, s.workers[a.worker].position, k);
    assert HeldBy(s, s.workers[a.worker].position, a.worker);
  }

  lemma FailedFlag(job: Job, s: State, a: Action, s': State)
    requires Steps(job, s, a, s') && !s.failed && s'.failed
    ensures a.Work? && s.phase == Working && a.worker < |s.workers| && s.workers[a.worker].Failing?
  {
    hide Shape, IsRarestFirst, Rarity, DiskMatches, ReaderStep, NextWorker, Overwrite, PieceOffset;
    if a.Work? {
      AllOk(job, s);
    }
  }

  /** And no piece is asked for more often than that. */
  lemma NeverMoreThanThreePasses(job: Job, F: Bytes, existing: Option<Bytes>, states: seq<State>, actions: seq<Action>,
                                 k: nat, i: nat)
    requires Describes(job, F) && IsRun(job, existing, states, actions) && k < |actions| && actions[k].Work?
    requires i == actions[k].worker < |states[k].workers| && states[k].workers[i].Asking?
    ensures var position := states[k].workers[i].position;
            && position < |states[k].order|
            && AsksFor(states, actions, position, k) < 3 * |Holders(states[k].bitmaps, states[k].order[position])|
  {
    hide Steps, Inv, Describes;
    RunAttempts(job, F, existing, states, actions, states[k].workers[i].position, k);
    assert HeldBy(states[k], states[k].workers[i].position, i);
  }

  // ---------------------------------------------------------------- threads and cancelling

  /** As many workers as there are seeders and pieces to fetch, but at most eight. */
  lemma WorkerCount(job: Job, F: Bytes, existing: Option<Bytes>, states: seq<State>, actions: seq<Action>, k: nat)
    requires Describes(job, F) && IsRun(job, existing, states, actions) && k < |states| && !states[k].phase.Preparing?
    ensures var n, order := |states[k].workers|, states[k].order;
            n <= 8 && n <= job.seeders && n <= |order| && (n == 8 || n == job.seeders || n == |order|)
  {
    hide IsRun, Describes, Shape, DiskOk, EntryOk, ReadersOk, WorkersOk, ClaimsOk, ResolvedOk, CountsOk, IsRarestFirst;
    RunKeeps(job, F, existing, states, actions, k);
  }

  /** Once cancelled, no worker claims another piece or starts another request, and nothing more counts as failed. */
  lemma CancelStops(job: Job, s: State, i: nat, e: Event)
    requires Shape(job, s) && Enabled(job, s, Work(i, e)) && s.cancelled
    ensures var w' := Step(job, s, Work(i, e)).workers[i];
            && !w'.Claiming? && !w'.Asking? && (w'.Failing? ==> s.workers[i].Failing?)
            && (s.workers[i].Checking? ==> w'.Stopped?)
  {
    hide IsRarestFirst, FetchPieceResult, Attempts, Effect, Shape;
    AllOk(job, s);
    EffectOnPlan(s, s.workers[i], e);
  }

  /** The cancel flag is up if and only if the user has cancelled. */
  lemma {:induction false} CancelledExact(job: Job, existing: Option<Bytes>, states: seq<State>, actions: seq<Action>,
                                          k: nat)
    requires IsRun(job, existing, states, actions) && k < |states|
    ensures states[k].cancelled <==> exists j | 0 <= j < k :: actions[j] == Cancel
  {
    hide Steps;
    if k > 0 {
      CancelledExact(job, existing, states, actions, k - 1);
      assert Steps(job, states[k - 1], actions[k - 1], states[k]);
      CancelStep(job, states[k - 1], actions[k - 1], states[k]);
    }
  }

  lemma CancelStep(job: Job, s: State, a: Action, s': State)
    requires Steps(job, s, a, s')
    ensures s'.cancelled <==> s.cancelled || a == Cancel
    ensures s.cancelled && BeforeDecision(s.phase) ==> BeforeDecision(s'.phase) || s'.phase == Phase.Failed
    ensures s.phase == Phase.Failed ==> s'.phase == Phase.Failed
  {
    hide Shape, NextWorker, Overwrite, PieceOffset, ReaderStep, IsRarestFirst, Rarity, DiskMatches;
    if a.Work? {
      AllOk(job, s);
    }
  }

  predicate BeforeDecision(phase: Phase) {
    phase.Preparing? || phase == Working || phase == Deciding
  }

  /** A download cancelled before its workers' result is looked at never completes: the .part stays where it is. */
  lemma {:induction false} CancelledNeverCompletes(job: Job, existing: Option<Bytes>, states: seq<State>,
                                                   actions: seq<Action>, j: nat, k: nat)
    requires IsRun(job, existing, states, actions) && j < k < |states|
    requires actions[j] == Cancel && BeforeDecision(states[j].phase)
    ensures BeforeDecision(states[k].phase) || states[k].phase == Phase.Failed
    decreases k
  {
    hide Steps;
    assert Steps(job, states[k - 1], actions[k - 1], states[k]);
    CancelStep(job, states[k - 1], actions[k - 1], states[k]);
    CancelledExact(job, existing, states, actions, k - 1);
    if j < k - 1 {
      CancelledNeverCompletes(job, existing, states, actions, j, k - 1);
    } else {
      CancelPhase(job, states[j], states[k]);
    }
  }

  lemma CancelPhase(job: Job, s: State, s': State)
    requires Steps(job, s, Cancel, s')
    ensures s'.phase == s.phase
  {
  }

  // ---------------------------------------------------------------- readers and the rename

  /** The file is under the destination if and only if a rename has worked. */
  lemma {:induction false} MovedExact(job: Job, existing: Option<Bytes>, states: seq<State>, actions: seq<Action>,
                                      k: nat)
    requires IsRun(job, existing, states, actions) && k < |states|
    ensures states[k].moved <==> exists j | 0 <= j < k :: actions[j] == Rename(true)
  {
    hide Steps;
    if k > 0 {
      MovedExact(job, existing, states, actions, k - 1);
      assert Steps(job, states[k - 1], actions[k - 1], states[k]);
      MoveStep(job, states[k - 1], actions[k - 1], states[k]);
    }
  }

  lemma MoveStep(job: Job, s: State, a: Action, s': State)
    requires Steps(job, s, a, s')
    ensures s'.moved <==> s.moved || a == Rename(true)
    ensures a.Open? ==>
              var reader := s.readers[a.reader];
              s'.readers[a.reader] ==
              if reader.final == s.moved then Reading(reader.piece, []) else Answered(reader.piece, None)
  {
    hide Shape, NextWorker, Overwrite, PieceOffset, IsRarestFirst, Rarity, DiskMatches;
    if a.Work? {
      AllOk(job, s);
    }
  }

  /** A reader opens the file if and only if the path in its copy of the entry is where the file is by then; one that
      took the .part path and comes after the rename answers that the piece is unavailable. */
  lemma OpenExact(job: Job, existing: Option<Bytes>, states: seq<State>, actions: seq<Action>, k: nat, r: nat)
    requires IsRun(job, existing, states, actions) && k < |actions| && actions[k] == Open(r)
    ensures r < |states[k].readers| && states[k].readers[r].Found? && r < |states[k + 1].readers|
    ensures var reader, renamed := states[k].readers[r], exists j | 0 <= j < k :: actions[j] == Rename(true);
            states[k + 1].readers[r] ==
            if reader.final <==> renamed then Reading(reader.piece, []) else Answered(reader.piece, None)
  {
    hide Shape;
    assert Steps(job, states[k], actions[k], states[k + 1]);
    MovedExact(job, existing, states, actions, k);
    MoveStep(job, states[k], actions[k], states[k + 1]);
  }

  // ---------------------------------------------------------------- the end

  /** When everything was fetched the download completes, if the .part can be hashed and renamed: four steps lead to
      state C, with every piece offered from the destination. */
  lemma SuccessfulEnd(job: Job, F: Bytes, s: State) returns (s1: State, s2: State, s3: State, s4: State)
    requires Describes(job, F) && Inv(job, F, s) && s.phase == Deciding && !s.failed && !s.cancelled && AllDone(job, s)
    ensures Steps(job, s, Decide, s1) && Steps(job, s1, HashPart(true), s2)
    ensures Steps(job, s2, Rename(true), s3) && Steps(job, s3, Republish, s4)
    ensures s4.phase == Complete && s4.moved && s4.disk == F && s4.entry.Some? && s4.entry.value.final
    ensures forall piece: nat | piece < Count(job) :: Offered(s4, piece)
  {
    hide Inv, Shape, DiskOk, WorkersOk, ClaimsOk, PhaseOk, AllDone, IsRarestFirst;
    InvParts(job, F, s);
    AllDoneIsExact(job, F, s);
    s1 := Step(job, s, Decide);
    StepKeeps(job, F, s, Decide);
    InvParts(job, F, s1);
    HashIsRight(job, F);
    s2 := Step(job, s1, HashPart(true));
    StepKeeps(job, F, s1, HashPart(true));
    InvParts(job, F, s2);
    s3 := Step(job, s2, Rename(true));
    StepKeeps(job, F, s2, Rename(true));
    InvParts(job, F, s3);
    s4 := Step(job, s3, Republish);
  }

  lemma HashIsRight(job: Job, F: Bytes)
    requires Describes(job, F)
    ensures job.sha(F) == job.metadata.fullHash
  {
    hide Piece;
  }

  /** Why a download would end in state F. */
  ghost predicate Spoilt(F: Bytes, s: State, a: Action) {
    || (a == Decide && (s.failed || s.cancelled)) || a == HashPart(false) || a == Rename(false)
    || (a == HashPart(true) && s.disk != F)
  }

  /** State F has a reason: a failed piece, a cancellation, an error of hashing or renaming, or a .part that is not the
      wanted file. */
  lemma {:induction false} FailsForAReason(job: Job, F: Bytes, existing: Option<Bytes>, states: seq<State>,
                                           actions: seq<Action>, k: nat) returns (j: nat)
    requires Describes(job, F) && IsRun(job, existing, states, actions) && k < |states| &&
             states[k].phase == Phase.Failed
    ensures j < k && Spoilt(F, states[j], actions[j])
  {
    hide Describes, Steps, Spoilt;
    assert k > 0;
    assert Steps(job, states[k - 1], actions[k - 1], states[k]);
    FailedStep(job, F, states[k - 1], actions[k - 1], states[k]);
    if states[k - 1].phase == Phase.Failed {
      j := FailsForAReason(job, F, existing, states, actions, k - 1);
    } else {
      j := k - 1;
    }
  }

  lemma FailedStep(job: Job, F: Bytes, s: State, a: Action, s': State)
    requires Describes(job, F) && Steps(job, s, a, s') && s'.phase == Phase.Failed
    ensures s.phase == Phase.Failed || Spoilt(F, s, a)
  {
    hide Shape, WorkerStep, ReaderStep, IsRarestFirst, Rarity, DiskMatches, Describes;
    HashIsRight(job, F);
    if a.Work? {
      AllOk(job, s);
      StillWorking(job, s, a.worker, a.event);
    }
  }
}
