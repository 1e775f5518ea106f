/** The workers of a download stop: however requests, writes and cancellation go, the work that is left has a bound that
    every worker step lowers (client/download/download.cpp). */
module DownloadBound {
  import opened Text
  import opened Metadata
  import opened Pieces
  import opened PieceFileClass
  import opened DownloadParts
  import opened DownloadEngine
  import opened DownloadLaws
  import opened DownloadRuns

  /** One attempt asks, then writes at most a piece, a byte at a time at worst. */
  const ATTEMPT_COST: nat := PIECE_SIZE + 3

  function AttemptsLeft(bitmaps: seq<seq<bool>>, order: seq<nat>, position: nat, attempt: nat): int {
    if position < |order| then PASSES_PER_PIECE * |Holders(bitmaps, order[position])| - attempt else 0 - attempt
  }

  /** The attempt a worker is in is one the piece has. */
  predicate InAttempts(bitmaps: seq<seq<bool>>, order: seq<nat>, w: Worker) {
    match w
    case Trying(position, attempt) => AttemptsLeft(bitmaps, order, position, attempt) >= 0
    case Asking(position, attempt) => AttemptsLeft(bitmaps, order, position, attempt) >= 1
    case Writing(position, attempt, data, done) =>
      AttemptsLeft(bitmaps, order, position, attempt) >= 1 && done <= |data| <= PIECE_SIZE
    case _ => true
  }

  /** How many steps a worker can still take before it is back at the cancellation check, and two more to stop. */
  function Rank(bitmaps: seq<seq<bool>>, order: seq<nat>, w: Worker): int {
    match w
    case Stopped => 0
    case Claiming => 1
    case Checking => 2
    case Failing(_) => 3
    case Publishing(_) => 3
    case GivenUp(_) => 4
    case Counting(_) => 4
    case Trying(position, attempt) => 5 + AttemptsLeft(bitmaps, order, position, attempt) * ATTEMPT_COST
    case Asking(position, attempt) => 4 + AttemptsLeft(bitmaps, order, position, attempt) * ATTEMPT_COST
    case Writing(position, attempt, data, done) =>
      6 + (AttemptsLeft(bitmaps, order, position, attempt) - 1) * ATTEMPT_COST + |data| - done
  }

  /** The steps that unclaimed positions will take. */
  function Unclaimed(bitmaps: seq<seq<bool>>, order: seq<nat>, next: nat): int
    decreases |order| - next
  {
    if next >= |order| then 0
    else 5 + AttemptsLeft(bitmaps, order, next, 0) * ATTEMPT_COST + Unclaimed(bitmaps, order, next + 1)
  }

  function Ranks(bitmaps: seq<seq<bool>>, order: seq<nat>, workers: seq<Worker>): int {
    if workers == [] then 0 else Rank(bitmaps, order, workers[0]) + Ranks(bitmaps, order, workers[1..])
  }

  function WorkLeft(s: State): int {
    Unclaimed(s.bitmaps, s.order, s.next) + Ranks(s.bitmaps, s.order, s.workers)
  }

  predicate AllInAttempts(s: State) {
    forall i | 0 <= i < |s.workers| :: InAttempts(s.bitmaps, s.order, s.workers[i])
  }

  lemma {:induction false} RanksUpdate(bitmaps: seq<seq<bool>>, order: seq<nat>, workers: seq<Worker>, i: nat,
                                       w: Worker)
    requires i < |workers|
    ensures Ranks(bitmaps, order, workers[i := w]) - Ranks(bitmaps, order, workers) ==
            Rank(bitmaps, order, w) - Rank(bitmaps, order, workers[i])
    decreases |workers|
  {
    hide Rank;
    if i == 0 {
      assert workers[i := w][1..] == workers[1..];
    } else {
      RanksUpdate(bitmaps, order, workers[1..], i - 1, w);
      assert workers[i := w][1..] == workers[1..][i - 1 := w];
    }
  }

  lemma {:induction false} UnclaimedNonnegative(bitmaps: seq<seq<bool>>, order: seq<nat>, next: nat)
    ensures Unclaimed(bitmaps, order, next) >= 0
    decreases |order| - next
  {
    hide Holders;
    if next < |order| {
      UnclaimedNonnegative(bitmaps, order, next + 1);
    }
  }

  lemma {:induction false} RanksNonnegative(bitmaps: seq<seq<bool>>, order: seq<nat>, workers: seq<Worker>)
    requires forall i | 0 <= i < |workers| :: InAttempts(bitmaps, order, workers[i])
    ensures Ranks(bitmaps, order, workers) >= 0
    decreases |workers|
  {
    hide Holders;
    if workers != [] {
      RanksNonnegative(bitmaps, order, workers[1..]);
    }
  }

  /** A worker step changes one worker. */
  lemma MoveShape(job: Job, s: State, i: nat, e: Event)
    requires i < |s.workers| && WorkerOk(job, s, s.workers[i])
    ensures var s' := WorkerStep(job, s, i, e);
            && s'.workers == s.workers[i := NextWorker(job, s, s.workers[i], e)] && s'.bitmaps == s.bitmaps &&
               s'.order == s.order
            && s'.next == NextPosition(s, s.workers[i])
  {
    hide NextWorker, Effect;
    EffectKeeps(s, s.workers[i], e);
  }

  lemma EffectKeeps(s: State, w: Worker, e: Event)
    requires w.Holds() ==> w.position < |s.order|
    ensures var s' := Effect(s, w, e);
            s'.workers == s.workers && s'.bitmaps == s.bitmaps && s'.order == s.order && s'.next == NextPosition(s, w)
  {
    hide Overwrite, PieceOffset, MarkAvailable;
  }

  function NextPosition(s: State, w: Worker): nat {
    if w.Claiming? then s.next + 1 else s.next
  }

  /** What is left for one worker and the unclaimed positions. */
  function Share(s: State, next: nat, w: Worker): int {
    Unclaimed(s.bitmaps, s.order, next) + Rank(s.bitmaps, s.order, w)
  }

  /** Every move of a worker lowers that, and keeps to the piece's attempts. */
  lemma MoveLowers(job: Job, s: State, w: Worker, e: Event)
    requires WorkerOk(job, s, w) && !w.Stopped? && InAttempts(s.bitmaps, s.order, w)
    requires forall data | job.sha(data) in job.metadata.pieceHashes :: |data| <= PIECE_SIZE
    ensures var w' := NextWorker(job, s, w, e);
            InAttempts(s.bitmaps, s.order, w') && Share(s, NextPosition(s, w), w') < Share(s, s.next, w)
  {
    hide Holders, Unclaimed, FetchPieceResult;
    if w.Claiming? {
      UnclaimedNext(s);
      UnclaimedNonnegative(s.bitmaps, s.order, s.next);
    } else if w.Asking? {
      assert job.metadata.pieceHashes[s.order[w.position]] in job.metadata.pieceHashes;
    }
  }

  lemma UnclaimedNext(s: State)
    ensures s.next < |s.order| ==>
              Unclaimed(s.bitmaps, s.order, s.next) ==
              5 + AttemptsLeft(s.bitmaps, s.order, s.next, 0) * ATTEMPT_COST + Unclaimed(s.bitmaps, s.order, s.next + 1)
    ensures s.next >= |s.order| ==>
            Unclaimed(s.bitmaps, s.order, s.next) == Unclaimed(s.bitmaps, s.order, s.next + 1) == 0
  {
  }

  /** Data that matches a piece hash is a piece, so it is no longer than one. */
  lemma MatchingDataIsShort(job: Job, F: Bytes)
    requires Describes(job, F)
    ensures forall data | job.sha(data) in job.metadata.pieceHashes :: |data| <= PIECE_SIZE
  {
    hide Piece;
    forall data | job.sha(data) in job.metadata.pieceHashes ensures |data| <= PIECE_SIZE {
      var i :| 0 <= i < |job.metadata.pieceHashes| && job.metadata.pieceHashes[i] == job.sha(data);
      assert data == Piece(F, i);
      PieceLengths(job, F, i);
      PieceBounds(job.metadata, i);
    }
  }

  lemma WorkLowers(job: Job, F: Bytes, s: State, a: Action, s': State)
    requires Describes(job, F) && Steps(job, s, a, s') && a.Work? && AllInAttempts(s)
    ensures AllInAttempts(s') && WorkLeft(s') < WorkLeft(s)
  {
    hide Shape, Describes, WorkerStep, NextWorker, Unclaimed, Ranks, Rank, InAttempts;
    AllOk(job, s);
    MoveShape(job, s, a.worker, a.event);
    MatchingDataIsShort(job, F);
    MoveLowers(job, s, s.workers[a.worker], a.event);
    RanksUpdate(s.bitmaps, s.order, s.workers, a.worker, s'.workers[a.worker]);
  }

  lemma OthersKeep(job: Job, s: State, a: Action, s': State)
    requires Steps(job, s, a, s') && !a.Work? && !s.phase.Preparing?
    ensures s'.workers == s.workers && s'.next == s.next && s'.order == s.order && s'.bitmaps == s.bitmaps
  {
    hide Shape, WorkerStep, ReaderStep, IsRarestFirst, Rarity, FinishVerify;
    assert !a.Verify? && !a.Announce?;
  }

  lemma StartsIdle(job: Job, s: State, a: Action, s': State)
    requires Steps(job, s, a, s') && s.phase.Preparing? && s.workers == []
    ensures AllInAttempts(s') && (s'.phase.Preparing? ==> s'.workers == [])
  {
    hide Shape, WorkerStep, ReaderStep, IsRarestFirst, Rarity, DiskMatches, Holders;
  }

  lemma {:induction false} RunInAttempts(job: Job, F: Bytes, existing: Option<Bytes>, states: seq<State>,
                                         actions: seq<Action>, k: nat)
    requires Describes(job, F) && IsRun(job, existing, states, actions) && k < |states|
    ensures AllInAttempts(states[k]) && (states[k].phase.Preparing? ==> states[k].workers == [])
    ensures k > 0 && !states[k - 1].phase.Preparing? ==> !states[k].phase.Preparing?
  {
    hide Steps, Describes, InAttempts, Claims, Marks;
    if k > 0 {
      var s, a, s' := states[k - 1], actions[k - 1], states[k];
      RunInAttempts(job, F, existing, states, actions, k - 1);
      assert Steps(job, s, a, s');
      OneStep(job, s, a, s');
      if s.phase.Preparing? {
        StartsIdle(job, s, a, s');
      } else if a.Work? {
        WorkLowers(job, F, s, a, s');
      } else {
        OthersKeep(job, s, a, s');
      }
    }
  }

  function WorkSteps(actions: seq<Action>, j: nat, k: nat): nat
    requires j <= k <= |actions|
    decreases k
  {
    if j == k then 0 else WorkSteps(actions, j, k - 1) + if actions[k - 1].Work? then 1 else 0
  }

  /** From the moment the workers exist they take, together, at most WorkLeft steps, whatever the schedule. */
  lemma {:induction false} WorkIsBounded(job: Job, F: Bytes, existing: Option<Bytes>, states: seq<State>,
                                         actions: seq<Action>, j: nat, k: nat)
    requires Describes(job, F) && IsRun(job, existing, states, actions) && j <= k < |states| &&
             !states[j].phase.Preparing?
    ensures WorkSteps(actions, j, k) <= WorkLeft(states[j]) - WorkLeft(states[k]) <= WorkLeft(states[j])
    decreases k
  {
    hide Steps, Describes, InAttempts, Unclaimed, Ranks, Rank;
    RunInAttempts(job, F, existing, states, actions, k);
    UnclaimedNonnegative(states[k].bitmaps, states[k].order, states[k].next);
    RanksNonnegative(states[k].bitmaps, states[k].order, states[k].workers);
    if j < k {
      var s, a, s' := states[k - 1], actions[k - 1], states[k];
      WorkIsBounded(job, F, existing, states, actions, j, k - 1);
      NextGrows(job, existing, states, actions, j, k - 1);
      RunInAttempts(job, F, existing, states, actions, k - 1);
      assert Steps(job, s, a, s');
      if a.Work? {
        WorkLowers(job, F, s, a, s');
      } else {
        OthersKeep(job, s, a, s');
      }
    }
  }

  /** One step after another from `s`. */
  ghost predicate Leads(job: Job, s: State, actions: seq<Action>, end: State)
    decreases |actions|
  {
    if actions == [] then end == s
    else Shape(job, s) && Enabled(job, s, actions[0]) && Leads(job, Step(job, s, actions[0]), actions[1..], end)
  }

  /** Someone is not done yet: a worker can be stepped, whatever its request or write comes back with. */
  lemma SomeoneMoves(job: Job, s: State, e: Event) returns (a: Action)
    requires s.phase == Working
    ensures Enabled(job, s, a) && (a == Join || (a.Work? && a.event == e))
  {
    hide IsRarestFirst;
    if i :| 0 <= i < |s.workers| && !s.workers[i].Stopped? {
      a := Work(i, e);
    } else {
      a := Join;
    }
  }

  /** These are the workers' steps, and each comes back with its event. */
  ghost predicate Follows(actions: seq<Action>, events: nat -> Event, from: nat) {
    forall i | 0 <= i < |actions| - 1 :: actions[i].Work? && actions[i].event == events(from + i)
  }

  lemma FollowsMore(a: Action, rest: seq<Action>, events: nat -> Event, from: nat)
    requires a.Work? && a.event == events(from) && Follows(rest, events, from + 1)
    ensures Follows([a] + rest, events, from)
  {
    var actions := [a] + rest;
    forall i | 0 <= i < |actions| - 1 ensures actions[i].Work? && actions[i].event == events(from + i) {
      assert i > 0 ==> actions[i] == rest[i - 1] && events(from + i) == events(from + 1 + (i - 1));
    }
  }

  lemma JoinLeads(job: Job, s: State)
    requires Shape(job, s) && Enabled(job, s, Join)
    ensures Leads(job, s, [Join], Step(job, s, Join)) && Step(job, s, Join).phase == Deciding
  {
    hide Shape, IsRarestFirst;
    assert [Join][1..] == [];
    assert Leads(job, Step(job, s, Join), [], Step(job, s, Join));
  }

  /** The join is always within reach: from every working state of a run the workers alone, whatever each request and
      write comes back with, get there in at most WorkLeft steps and the join itself. */
  lemma {:induction false} JoinIsReached(job: Job, F: Bytes, s: State, events: nat -> Event, from: nat)
    returns (actions: seq<Action>, end: State)
    requires Describes(job, F) && Inv(job, F, s) && AllInAttempts(s) && s.phase == Working
    ensures Leads(job, s, actions, end) && end.phase == Deciding && 1 <= |actions| <= WorkLeft(s) + 1
    ensures Follows(actions, events, from)
    decreases WorkLeft(s)
  {
    hide Inv, Describes, AllInAttempts, WorkLeft, Shape, Enabled, Step, Follows;
    InvParts(job, F, s);
    LeftNonnegative(s);
    var a := SomeoneMoves(job, s, events(from));
    if a == Join {
      actions, end := [Join], Step(job, s, Join);
      JoinLeads(job, s);
      FollowsNothing(events, from);
    } else {
      var s' := Step(job, s, a);
      WorkKeeps(job, F, s, a.worker, a.event);
      assert Steps(job, s, a, s');
      WorkLowers(job, F, s, a, s');
      StillWorking(job, s, a.worker, a.event);
      LeftNonnegative(s');
      var rest;
      rest, end := JoinIsReached(job, F, s', events, from + 1);
      actions := [a] + rest;
      assert actions[1..] == rest;
      FollowsMore(a, rest, events, from);
    }
  }

  lemma FollowsNothing(events: nat -> Event, from: nat)
    ensures Follows([Join], events, from)
  {
  }

  lemma LeftNonnegative(s: State)
    requires AllInAttempts(s)
    ensures WorkLeft(s) >= 0
  {
    UnclaimedNonnegative(s.bitmaps, s.order, s.next);
    RanksNonnegative(s.bitmaps, s.order, s.workers);
  }

  lemma StillWorking(job: Job, s: State, i: nat, e: Event)
    requires Shape(job, s) && Enabled(job, s, Work(i, e))
    ensures Step(job, s, Work(i, e)).phase == Working
  {
    hide Shape, NextWorker, IsRarestFirst, Overwrite, PieceOffset;
  }
}
