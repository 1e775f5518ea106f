/** What every interleaved step of a download keeps, and what follows for every run of it. */
module DownloadLaws {
  import opened Text
  import opened Metadata
  import opened Pieces
  import opened PieceFileClass
  import opened DownloadParts
  import opened DownloadEngine

  // ---------------------------------------------------------------- before the workers start

  lemma StartInv(job: Job, F: Bytes, existing: Option<Bytes>)
    requires Describes(job, F)
    ensures Inv(job, F, Start(job, existing))
  {
    var s := Start(job, existing);
    assert VerifiedSet(s) == {};
  }

  lemma VerifyKeeps(job: Job, F: Bytes, s: State, readable: bool)
    requires Describes(job, F) && Inv(job, F, s) && Enabled(job, s, Verify(readable))
    ensures Inv(job, F, Step(job, s, Verify(readable)))
  {
    hide Piece, PieceCountForSize;
    var piece, s' := s.phase.piece, Step(job, s, Verify(readable));
    if s'.verified[piece] {
      assert job.sha(Piece(s.disk, piece)) == job.sha(Piece(F, piece));
      assert VerifiedSet(s') == VerifiedSet(s) + {piece};
      assert piece !in VerifiedSet(s);
    } else {
      assert VerifiedSet(s') == VerifiedSet(s);
    }
  }

  lemma AnnounceKeeps(job: Job, F: Bytes, s: State, bitmaps: seq<seq<bool>>, order: seq<nat>)
    requires Describes(job, F) && Inv(job, F, s) && Enabled(job, s, Announce(bitmaps, order))
    ensures Inv(job, F, Step(job, s, Announce(bitmaps, order)))
  {
    var s' := Step(job, s, Announce(bitmaps, order));
    assert forall p | 0 <= p < |order| :: order[p] in order;
    assert VerifiedSet(s') == VerifiedSet(s);
    assert |s'.bitmaps| == job.seeders;
  }

  // ---------------------------------------------------------------- frames: what a part of the invariant depends on

  lemma ShapeFrame(job: Job, s: State, s': State)
    requires Shape(job, s) && s'.disk == s.disk && s'.verified == s.verified && s'.order == s.order
    requires s'.workers == s.workers && s'.readers == s.readers
    ensures Shape(job, s')
  {
  }

  lemma DiskFrame(F: Bytes, s: State, s': State)
    requires DiskOk(F, s) && s'.disk == s.disk && s'.done == s.done
    requires s'.phase.Hashed? || s'.phase.Renamed? || s'.phase.Complete? ==>
               s.phase.Hashed? || s.phase.Renamed? || s.phase.Complete? || s.disk == F
    ensures DiskOk(F, s')
  {
    forall piece | piece in s'.done ensures Correct(F, s', piece) {
      assert Correct(F, s, piece);
    }
  }

  lemma ReadersFrame(F: Bytes, s: State, s': State)
    requires ReadersOk(F, s) && s'.readers == s.readers
    requires forall piece | Settled(s, piece) :: Settled(s', piece)
    ensures ReadersOk(F, s')
  {
    forall i | 0 <= i < |s'.readers| ensures ReaderOk(F, s', s'.readers[i]) {
      assert ReaderOk(F, s, s.readers[i]);
    }
  }

  lemma WorkersFrame(F: Bytes, s: State, s': State)
    requires WorkersOk(F, s) && s'.disk == s.disk && s'.order == s.order && s'.done == s.done && s'.next == s.next
    requires s'.workers == s.workers
    ensures WorkersOk(F, s')
  {
  }

  lemma ClaimsFrame(s: State, s': State)
    requires ClaimsOk(s) && ResolvedOk(s)
    requires s'.workers == s.workers && s'.next == s.next && s'.order == s.order && s'.done == s.done
    requires (s.cancelled ==> s'.cancelled) && (s.failed ==> s'.failed)
    ensures ClaimsOk(s') && ResolvedOk(s')
  {
    if !s'.failed && !s'.cancelled {
      forall p | 0 <= p < s'.next && p < |s'.order| && s'.order[p] !in s'.done ensures exists i :: HeldBy(s', p, i) {
        var i :| HeldBy(s, p, i);
        assert HeldBy(s', p, i);
      }
    }
  }

  lemma CountsFrame(job: Job, s: State, s': State)
    requires CountsOk(job, s) && s'.verified == s.verified && s'.done == s.done && s'.resumed == s.resumed
    requires s'.completed == s.completed && (s.phase.Preparing? <==> s'.phase.Preparing?)
    ensures CountsOk(job, s')
  {
    assert VerifiedSet(s') == VerifiedSet(s);
  }

  // ---------------------------------------------------------------- steps outside the workers

  lemma CancelKeeps(job: Job, F: Bytes, s: State)
    requires Inv(job, F, s)
    ensures Inv(job, F, Step(job, s, Cancel))
  {
    hide Shape, DiskOk, ReadersOk, WorkersOk, ClaimsOk, ResolvedOk, CountsOk, IsRarestFirst;
    var s' := Step(job, s, Cancel);
    ShapeFrame(job, s, s');
    DiskFrame(F, s, s');
    ReadersFrame(F, s, s');
    WorkersFrame(F, s, s');
    ClaimsFrame(s, s');
    CountsFrame(job, s, s');
    assert VerifiedSet(s') == VerifiedSet(s);
  }

  lemma WithdrawKeeps(job: Job, F: Bytes, s: State)
    requires Inv(job, F, s)
    ensures Inv(job, F, Step(job, s, Withdraw))
  {
    hide Shape, DiskOk, ReadersOk, WorkersOk, ClaimsOk, ResolvedOk, CountsOk, IsRarestFirst;
    var s' := Step(job, s, Withdraw);
    ShapeFrame(job, s, s');
    DiskFrame(F, s, s');
    ReadersFrame(F, s, s');
    WorkersFrame(F, s, s');
    ClaimsFrame(s, s');
    CountsFrame(job, s, s');
    assert VerifiedSet(s') == VerifiedSet(s);
  }

  /** After the join: all workers have stopped; the run either failed or was cancelled, or every piece is there. */
  lemma JoinedAllDone(job: Job, F: Bytes, s: State)
    requires Inv(job, F, s) && !s.phase.Preparing? && job.seeders > 0 && !s.failed && !s.cancelled
    requires forall w | w in s.workers :: w.Stopped?
    ensures AllDone(job, s)
  {
    hide Shape, DiskOk, ReadersOk, WorkersOk, Rarity;
    forall piece: nat | piece < Count(job) ensures piece in s.done {
      ShapeLengths(job, s);
      if !s.verified[piece] {
        assert piece in s.order;
        var p: nat :| p < |s.order| && s.order[p] == piece;
        assert s.workers[0] in s.workers;
        assert s.next >= |s.order|;
        assert forall i | 0 <= i < |s.workers| :: s.workers[i] in s.workers;
      }
    }
  }

  lemma ShapeLengths(job: Job, s: State)
    requires Shape(job, s)
    ensures |s.verified| == Count(job) == |job.metadata.pieceHashes| && |s.disk| == job.metadata.size
  {
  }

  lemma JoinKeeps(job: Job, F: Bytes, s: State, a: Action)
    requires Inv(job, F, s) && Enabled(job, s, a) && (a.Join? || a.Decide?)
    ensures Inv(job, F, Step(job, s, a))
  {
    hide Shape, DiskOk, ReadersOk, WorkersOk, ClaimsOk, ResolvedOk, CountsOk, IsRarestFirst, AllDone;
    var s' := Step(job, s, a);
    ShapeFrame(job, s, s');
    DiskFrame(F, s, s');
    ReadersFrame(F, s, s');
    WorkersFrame(F, s, s');
    ClaimsFrame(s, s');
    CountsFrame(job, s, s');
    if s'.phase.Completing? && job.seeders > 0 {
      JoinedAllDone(job, F, s);
      SameDone(job, s, s');
    }
  }

  lemma SameDone(job: Job, s: State, s': State)
    requires AllDone(job, s) && s'.done == s.done
    ensures AllDone(job, s')
  {
  }

  lemma FinishKeeps(job: Job, F: Bytes, s: State, a: Action)
    requires Describes(job, F) && Inv(job, F, s) && Enabled(job, s, a) && (a.HashPart? || a.Rename? || a.Republish?)
    ensures Inv(job, F, Step(job, s, a))
  {
    hide Shape, DiskOk, EntryOk, ReadersOk, WorkersOk, ClaimsOk, ResolvedOk, CountsOk, IsRarestFirst, AllDone,
      Describes, Rarity;
    var s' := Step(job, s, a);
    ShapeFrame(job, s, s');
    if s'.phase.Hashed? {
      HashedIsExact(job, F, s);
    }
    DiskFrame(F, s, s');
    ReadersFrame(F, s, s');
    WorkersFrame(F, s, s');
    ClaimsFrame(s, s');
    CountsFrame(job, s, s');
    FinishEntry(job, s, a);
    assert AllDone(job, s) ==> AllDone(job, s') by {
      if AllDone(job, s) {
        SameDone(job, s, s');
      }
    }
  }

  lemma HashedIsExact(job: Job, F: Bytes, s: State)
    requires Describes(job, F) && job.sha(s.disk) == job.metadata.fullHash
    ensures s.disk == F
  {
    hide Piece;
  }

  lemma FinishEntry(job: Job, s: State, a: Action)
    requires Shape(job, s) && EntryOk(job, s) && Enabled(job, s, a) && (a.HashPart? || a.Rename? || a.Republish?)
    ensures EntryOk(job, Step(job, s, a))
  {
    hide Shape;
  }

  // ---------------------------------------------------------------- readers

  /** Steps that only touch the readers. */
  lemma ReadersOnly(job: Job, F: Bytes, s: State, readers: seq<Reader>)
    requires Inv(job, F, s) && Shape(job, s.(readers := readers)) && ReadersOk(F, s.(readers := readers))
    requires s.phase.Preparing? ==> readers == []
    ensures Inv(job, F, s.(readers := readers))
  {
    hide Shape, DiskOk, ReadersOk, WorkersOk, ClaimsOk, ResolvedOk, CountsOk, IsRarestFirst, AllDone;
    var s' := s.(readers := readers);
    DiskFrame(F, s, s');
    WorkersFrame(F, s, s');
    ClaimsFrame(s, s');
    CountsFrame(job, s, s');
    assert VerifiedSet(s') == VerifiedSet(s);
    assert AllDone(job, s) ==> AllDone(job, s') by {
      if AllDone(job, s) {
        SameDone(job, s, s');
      }
    }
  }

  lemma SetReader(job: Job, F: Bytes, s: State, r: nat, reader: Reader)
    requires Describes(job, F) && Shape(job, s) && ReadersOk(F, s) && r < |s.readers|
    requires ReaderOk(F, s, reader)
    ensures var s' := s.(readers := s.readers[r := reader]); Shape(job, s') && ReadersOk(F, s')
  {
    hide Settled;
    var s' := s.(readers := s.readers[r := reader]);
    forall piece ensures Settled(s', piece) == Settled(s, piece) {
      SameSettled(s, s', piece);
    }
    ReadPieceExact(F, job.metadata, reader.piece);
    assert forall i | 0 <= i < |s.readers| :: ReaderOk(F, s, s.readers[i]);
  }

  lemma SameSettled(s: State, s': State, piece: nat)
    requires s'.done == s.done && s'.phase == s.phase
    ensures Settled(s', piece) == Settled(s, piece)
  {
  }

  lemma GetKeeps(job: Job, F: Bytes, s: State, piece: nat)
    requires Describes(job, F) && Inv(job, F, s)
    ensures Inv(job, F, Step(job, s, Get(piece)))
  {
    hide DiskOk, WorkersOk, ClaimsOk, ResolvedOk, CountsOk, IsRarestFirst, AllDone, Settled, WorkerOk;
    var s' := Step(job, s, Get(piece));
    if s' != s {
      var reader := Found(s.entry.value.final, piece);
      assert s'.readers == s.readers + [reader];
      assert Settled(s, piece);
      forall p ensures Settled(s', p) == Settled(s, p) {
        SameSettled(s, s', p);
      }
      assert ReaderOk(F, s, reader);
      assert forall i | 0 <= i < |s.readers| :: ReaderOk(F, s, s.readers[i]);
      forall i | 0 <= i < |s.workers| ensures WorkerOk(job, s', s'.workers[i]) {
        SameWorkers(job, s, s');
      }
      ReadersOnly(job, F, s, s'.readers);
    }
  }

  lemma SameWorkers(job: Job, s: State, s': State)
    requires s'.order == s.order && forall i | 0 <= i < |s.workers| :: WorkerOk(job, s, s.workers[i])
    ensures forall i | 0 <= i < |s.workers| :: WorkerOk(job, s', s.workers[i])
  {
  }

  lemma SettledCorrect(F: Bytes, s: State, piece: nat)
    requires DiskOk(F, s) && Settled(s, piece) && piece < PieceCountForSize(|F|)
    ensures Correct(F, s, piece)
  {
  }

  lemma ReadExtends(F: Bytes, s: State, piece: nat, data: Bytes, more: nat)
    requires Correct(F, s, piece) && data <= Piece(F, piece) && |data| + more <= |Piece(F, piece)|
    ensures PieceOffset(piece) + |data| + more <= |s.disk|
    ensures data + s.disk[PieceOffset(piece) + |data|..PieceOffset(piece) + |data| + more] <= Piece(F, piece)
  {
    assert Piece(s.disk, piece)[|data|..|data| + more] ==
      s.disk[PieceOffset(piece) + |data|..PieceOffset(piece) + |data| + more];
    assert Piece(F, piece)[..|data|] + Piece(F, piece)[|data|..|data| + more] == Piece(F, piece)[..|data| + more];
  }

  lemma OpenKeeps(job: Job, F: Bytes, s: State, r: nat)
    requires Describes(job, F) && Inv(job, F, s) && Enabled(job, s, Open(r))
    ensures Inv(job, F, Step(job, s, Open(r)))
  {
    hide Shape, DiskOk, EntryOk, ReadersOk, WorkersOk, ClaimsOk, ResolvedOk, CountsOk, PhaseOk, Settled, Piece;
    var s' := Step(job, s, Open(r));
    OneReader(F, s, r);
    NoReadersYet(job, F, s, r);
    SetReader(job, F, s, r, s'.readers[r]);
    ReadersOnly(job, F, s, s'.readers);
  }

  lemma ReadKeeps(job: Job, F: Bytes, s: State, r: nat, count: nat)
    requires Describes(job, F) && Inv(job, F, s) && Enabled(job, s, Read(r, count))
    ensures Inv(job, F, Step(job, s, Read(r, count)))
  {
    hide Shape, DiskOk, EntryOk, ReadersOk, WorkersOk, ClaimsOk, ResolvedOk, CountsOk, PhaseOk, Settled, Correct, Piece,
      MetadataOf, WorkerStep, FinishVerify, IsRarestFirst, PieceCountForSize;
    var s', reader := Step(job, s, Read(r, count)), s.readers[r];
    OneReader(F, s, r);
    NoReadersYet(job, F, s, r);
    SettledCorrect(F, s, reader.piece);
    PieceLengths(job, F, reader.piece);
    ReadExtends(F, s, reader.piece, reader.data, Min(count, job.metadata.PieceLength(reader.piece) - |reader.data|));
    SetReader(job, F, s, r, s'.readers[r]);
    ReadersOnly(job, F, s, s'.readers);
  }

  lemma PieceLengths(job: Job, F: Bytes, piece: nat)
    requires Describes(job, F) && piece < PieceCountForSize(|F|)
    ensures |Piece(F, piece)| == job.metadata.PieceLength(piece) >= 1
  {
    ReadPieceExact(F, job.metadata, piece);
    PieceBounds(job.metadata, piece);
  }

  lemma OneReader(F: Bytes, s: State, r: nat)
    requires ReadersOk(F, s) && r < |s.readers|
    ensures ReaderOk(F, s, s.readers[r])
  {
  }

  lemma NoReadersYet(job: Job, F: Bytes, s: State, r: nat)
    requires PhaseOk(job, s) && r < |s.readers|
    ensures !s.phase.Preparing?
  {
  }

  // ---------------------------------------------------------------- workers

  /** A worker's move that keeps its position, or lets go of a finished one. */
  ghost predicate PlainMove(F: Bytes, s: State, i: nat, w: Worker)
    requires i < |s.workers|
  {
    var before := s.workers[i];
    && (w.Holds() ==> before.Holds() && w.position == before.position && !w.Publishing? && !before.Publishing?
                      && w.position < |s.order| && ProgressOk(F, s, w))
    && (before.Holds() && !w.Holds() ==>
          before.position < |s.order| && (s.order[before.position] in s.done || s.cancelled || s.failed))
    && (w.Stopped? ==> s.cancelled || s.next >= |s.order|)
  }

  lemma PlainMoveProgress(F: Bytes, s: State, i: nat, w: Worker)
    requires WorkersOk(F, s) && i < |s.workers| && PlainMove(F, s, i, w)
    ensures WorkersOk(F, SetWorker(s, i, w))
  {
    hide Piece;
  }

  lemma PlainMoveClaims(F: Bytes, s: State, i: nat, w: Worker)
    requires ClaimsOk(s) && i < |s.workers| && PlainMove(F, s, i, w)
    ensures ClaimsOk(SetWorker(s, i, w))
  {
    hide ProgressOk;
  }

  lemma PlainMoveResolved(F: Bytes, s: State, i: nat, w: Worker)
    requires ResolvedOk(s) && i < |s.workers| && PlainMove(F, s, i, w)
    ensures ResolvedOk(SetWorker(s, i, w))
  {
    hide ProgressOk;
    var s' := SetWorker(s, i, w);
    if !s'.failed && !s'.cancelled {
      forall p: nat | p < s'.next && p < |s'.order| && s'.order[p] !in s'.done ensures exists k :: HeldBy(s', p, k) {
        var k :| HeldBy(s, p, k);
        assert HeldBy(s', p, k);
      }
    }
  }

  lemma PlainMoveShape(job: Job, s: State, i: nat, w: Worker)
    requires Shape(job, s) && i < |s.workers| &&
             (w.Holds() ==> s.workers[i].Holds() && w.position == s.workers[i].position)
    ensures Shape(job, SetWorker(s, i, w))
  {
    var s' := SetWorker(s, i, w);
    forall k | 0 <= k < |s'.workers| ensures WorkerOk(job, s', s'.workers[k]) {
      assert WorkerOk(job, s, s.workers[k]);
    }
  }

  lemma PlainMoveKeeps(job: Job, F: Bytes, s: State, i: nat, w: Worker)
    requires Inv(job, F, s) && s.phase == Working && i < |s.workers| && PlainMove(F, s, i, w)
    ensures Inv(job, F, SetWorker(s, i, w))
  {
    hide Shape, DiskOk, ReadersOk, WorkersOk, ClaimsOk, ResolvedOk, CountsOk, IsRarestFirst, ProgressOk;
    var s' := SetWorker(s, i, w);
    PlainMoveShape(job, s, i, w);
    DiskFrame(F, s, s');
    ReadersFrame(F, s, s');
    PlainMoveProgress(F, s, i, w);
    PlainMoveClaims(F, s, i, w);
    PlainMoveResolved(F, s, i, w);
    CountsFrame(job, s, s');
  }

  lemma Holding(F: Bytes, s: State, i: nat)
    requires WorkersOk(F, s) && i < |s.workers| && s.workers[i].Holds()
    ensures var w := s.workers[i];
            && w.position < s.next && w.position < |s.order| && ProgressOk(F, s, w)
            && (s.order[w.position] in s.done <==> w.Publishing?)
  {
  }

  lemma PiecesOfOrder(job: Job, s: State, i: nat)
    requires Shape(job, s) && i < |s.workers| && s.workers[i].Holds()
    ensures s.workers[i].position < |s.order| && s.order[s.workers[i].position] < Count(job)
  {
    assert WorkerOk(job, s, s.workers[i]);
  }

  /** The steps that move no bytes and count nothing. */
  lemma SimpleWorkKeeps(job: Job, F: Bytes, s: State, i: nat, e: Event)
    requires Describes(job, F) && Inv(job, F, s) && Enabled(job, s, Work(i, e))
    requires var w := s.workers[i]; w.Checking? || w.Trying? || w.Asking? || w.GivenUp?
    ensures Inv(job, F, Step(job, s, Work(i, e)))
  {
    hide Shape, DiskOk, EntryOk, ReadersOk, WorkersOk, ClaimsOk, ResolvedOk, CountsOk, PhaseOk, Attempts, Piece,
      FetchPieceResult;
    var s' := Step(job, s, Work(i, e));
    if s.workers[i].Holds() {
      Holding(F, s, i);
      PiecesOfOrder(job, s, i);
    }
    if s'.workers[i].Writing? {
      var piece := s.order[s.workers[i].position];
      assert job.sha(e.reply.plain.value) == job.sha(Piece(F, piece));
      DiskLength(F, s);
      ReadPieceExact(F, job.metadata, piece);
      PieceBounds(job.metadata, piece);
      assert s.disk[PieceOffset(piece)..PieceOffset(piece)] == [];
    }
    PlainMoveKeeps(job, F, s, i, s'.workers[i]);
  }

  lemma DiskLength(F: Bytes, s: State)
    requires DiskOk(F, s)
    ensures |s.disk| == |F|
  {
  }

  /** Claiming takes the next position, which nobody has taken before. */
  lemma ClaimKeeps(job: Job, F: Bytes, s: State, i: nat, e: Event)
    requires Inv(job, F, s) && Enabled(job, s, Work(i, e)) && s.workers[i].Claiming?
    ensures Inv(job, F, Step(job, s, Work(i, e)))
  {
    hide Shape, DiskOk, EntryOk, ReadersOk, WorkersOk, ClaimsOk, ResolvedOk, CountsOk, IsRarestFirst;
    var s' := Step(job, s, Work(i, e));
    ClaimShape(job, s, i, e);
    DiskFrame(F, s, s');
    ReadersFrame(F, s, s');
    ClaimWorkers(job, F, s, i, e);
    ClaimResolved(job, s, i, e);
    CountsFrame(job, s, s');
    EntryFrame(job, s, s');
  }

  lemma EntryFrame(job: Job, s: State, s': State)
    requires EntryOk(job, s) && s'.entry == s.entry && s'.moved == s.moved && s'.phase == s.phase
    requires forall piece | Settled(s, piece) :: Settled(s', piece)
    ensures EntryOk(job, s')
  {
  }

  lemma ClaimShape(job: Job, s: State, i: nat, e: Event)
    requires Shape(job, s) && Enabled(job, s, Work(i, e)) && s.workers[i].Claiming?
    ensures Shape(job, Step(job, s, Work(i, e)))
  {
    hide IsRarestFirst;
    var s' := Step(job, s, Work(i, e));
    assert s.next < |s.order| ==> s.order[s.next] in s.order;
    forall k | 0 <= k < |s'.workers| ensures WorkerOk(job, s', s'.workers[k]) {
      assert WorkerOk(job, s, s.workers[k]);
    }
  }

  lemma ClaimWorkers(job: Job, F: Bytes, s: State, i: nat, e: Event)
    requires Shape(job, s) && WorkersOk(F, s) && ClaimsOk(s)
    requires Enabled(job, s, Work(i, e)) && s.workers[i].Claiming?
    ensures var s' := Step(job, s, Work(i, e)); WorkersOk(F, s') && ClaimsOk(s')
  {
    hide IsRarestFirst, Piece;
  }

  lemma ClaimResolved(job: Job, s: State, i: nat, e: Event)
    requires Shape(job, s) && ResolvedOk(s)
    requires Enabled(job, s, Work(i, e)) && s.workers[i].Claiming?
    ensures ResolvedOk(Step(job, s, Work(i, e)))
  {
    hide IsRarestFirst;
    var s' := Step(job, s, Work(i, e));
    if !s'.failed && !s'.cancelled {
      forall p: nat | p < s'.next && p < |s'.order| && s'.order[p] !in s'.done ensures exists k :: HeldBy(s', p, k) {
        if p == s.next {
          assert HeldBy(s', p, i);
        } else {
          var k :| HeldBy(s, p, k);
          assert HeldBy(s', p, k);
        }
      }
    }
  }

  /** A failed piece is recorded before its worker lets go of it. */
  lemma FailKeeps(job: Job, F: Bytes, s: State, i: nat, e: Event)
    requires Inv(job, F, s) && Enabled(job, s, Work(i, e)) && s.workers[i].Failing?
    ensures Inv(job, F, Step(job, s, Work(i, e)))
  {
    hide Shape, DiskOk, EntryOk, ReadersOk, WorkersOk, ClaimsOk, ResolvedOk, CountsOk, IsRarestFirst;
    var s' := s.(failed := true);
    ShapeFrame(job, s, s');
    DiskFrame(F, s, s');
    ReadersFrame(F, s, s');
    WorkersFrame(F, s, s');
    ClaimsFrame(s, s');
    CountsFrame(job, s, s');
    EntryFrame(job, s, s');
    Holding(F, s, i);
    PlainMoveKeeps(job, F, s', i, Checking);
  }

  /** Publishing raises the flag of a piece that is counted and on disk. */
  lemma PublishKeeps(job: Job, F: Bytes, s: State, i: nat, e: Event)
    requires Inv(job, F, s) && Enabled(job, s, Work(i, e)) && s.workers[i].Publishing?
    ensures Inv(job, F, Step(job, s, Work(i, e)))
  {
    hide Shape, DiskOk, ReadersOk, WorkersOk, ClaimsOk, ResolvedOk, CountsOk, IsRarestFirst;
    Holding(F, s, i);
    var s' := s.(entry := MarkAvailable(s.entry, s.order[s.workers[i].position]));
    ShapeFrame(job, s, s');
    DiskFrame(F, s, s');
    ReadersFrame(F, s, s');
    WorkersFrame(F, s, s');
    ClaimsFrame(s, s');
    CountsFrame(job, s, s');
    assert VerifiedSet(s') == VerifiedSet(s);
    PlainMoveKeeps(job, F, s', i, Checking);
  }

  /** Counting adds a piece that was not counted before. */
  lemma CountKeeps(job: Job, F: Bytes, s: State, i: nat, e: Event)
    requires Inv(job, F, s) && Enabled(job, s, Work(i, e)) && s.workers[i].Counting?
    ensures Inv(job, F, Step(job, s, Work(i, e)))
  {
    hide Shape, DiskOk, EntryOk, ReadersOk, WorkersOk, ClaimsOk, ResolvedOk, CountsOk, IsRarestFirst;
    var s' := Step(job, s, Work(i, e));
    Holding(F, s, i);
    PiecesOfOrder(job, s, i);
    PlainMoveShape(job, s, i, s'.workers[i]);
    ShapeFrame(job, SetWorker(s, i, s'.workers[i]), s');
    CountDisk(job, F, s, s', s.order[s.workers[i].position]);
    CountWorkers(job, F, s, i, e);
    CountClaims(job, F, s, i, e);
    EntryFrame(job, s, s');
    ReadersFrame(F, s, s');
  }

  lemma CountDisk(job: Job, F: Bytes, s: State, s': State, piece: nat)
    requires DiskOk(F, s) && CountsOk(job, s) && Correct(F, s, piece) && piece !in s.done && piece < Count(job)
    requires s.phase == s'.phase == Working && s'.disk == s.disk && s'.verified == s.verified && s'.resumed == s.resumed
    requires s'.done == s.done + {piece} && s'.completed == s.completed + 1
    ensures DiskOk(F, s') && CountsOk(job, s')
  {
    assert VerifiedSet(s') == VerifiedSet(s);
    forall p | p in s'.done ensures Correct(F, s', p) {
      assert Correct(F, s, p);
    }
  }

  lemma CountWorkers(job: Job, F: Bytes, s: State, i: nat, e: Event)
    requires Shape(job, s) && PhaseOk(job, s) && WorkersOk(F, s) && ClaimsOk(s)
    requires Enabled(job, s, Work(i, e)) && s.workers[i].Counting?
    ensures WorkersOk(F, Step(job, s, Work(i, e)))
  {
    hide Rarity, Threads, Piece, IsRarestFirst;
    OrderDistinct(job, s);
    var s' := Step(job, s, Work(i, e));
    forall k | 0 <= k < |s.workers| && k != i && s.workers[k].Holds()
      ensures s.workers[k].position < |s.order| && s.order[s.workers[k].position] != s.order[s.workers[i].position]
    {
      assert s.workers[k].position != s.workers[i].position;
    }
  }

  lemma CountClaims(job: Job, F: Bytes, s: State, i: nat, e: Event)
    requires Shape(job, s) && PhaseOk(job, s) && WorkersOk(F, s) && ClaimsOk(s) && ResolvedOk(s)
    requires Enabled(job, s, Work(i, e)) && s.workers[i].Counting?
    ensures var s' := Step(job, s, Work(i, e)); ClaimsOk(s') && ResolvedOk(s')
  {
    hide Rarity, Threads, ProgressOk, IsRarestFirst;
    OrderDistinct(job, s);
    var s' := Step(job, s, Work(i, e));
    if !s'.failed && !s'.cancelled {
      forall p: nat | p < s'.next && p < |s'.order| && s'.order[p] !in s'.done ensures exists k :: HeldBy(s', p, k) {
        var k :| HeldBy(s, p, k);
        assert HeldBy(s', p, k);
      }
    }
  }

  lemma OrderDistinct(job: Job, s: State)
    requires PhaseOk(job, s) && s.phase == Working
    ensures forall p, q | 0 <= p < q < |s.order| :: s.order[p] != s.order[q]
  {
    hide Rarity;
    forall p, q | 0 <= p < q < |s.order| ensures s.order[p] != s.order[q] {
      assert Precedes(Rarity(s.bitmaps, Count(job)), s.order[p], s.order[q]);
    }
  }

  // ---------------------------------------------------------------- writing to the shared file

  /** A write inside the file changes only the bytes it covers. */
  lemma OverwriteRange(disk: Bytes, at: nat, data: Bytes)
    requires at + |data| <= |disk|
    ensures var after := Overwrite(disk, at, data);
            && |after| == |disk| && after[at..at + |data|] == data
            && (forall i | 0 <= i < at :: after[i] == disk[i])
            && (forall i | at + |data| <= i < |disk| :: after[i] == disk[i])
  {
  }

  /** The bytes of one piece are the same in both. */
  ghost predicate KeepsPiece(before: Bytes, after: Bytes, piece: nat) {
    && |after| == |before|
    && forall i | PieceOffset(piece) <= i < PieceEnd(|before|, piece) :: after[i] == before[i]
  }

  ghost predicate KeepsOthers(before: Bytes, after: Bytes, piece: nat) {
    |after| == |before| && forall other: nat | other != piece && other < PieceCountForSize(|before|) ::
      KeepsPiece(before, after, other)
  }

  /** Part `done..done + count` of one piece is written: other pieces keep their bytes. */
  lemma WriteKeepsOthers(disk: Bytes, piece: nat, done: nat, data: Bytes)
    requires piece < PieceCountForSize(|disk|) && PieceOffset(piece) + done + |data| <= PieceEnd(|disk|, piece)
    ensures KeepsOthers(disk, Overwrite(disk, PieceOffset(piece) + done, data), piece)
  {
    hide Overwrite;
    var at := PieceOffset(piece) + done;
    OverwriteRange(disk, at, data);
    forall other: nat | other != piece && other < PieceCountForSize(|disk|)
      ensures KeepsPiece(disk, Overwrite(disk, at, data), other)
    {
      assert other < piece || piece < other;
    }
  }

  /** Part `done..done + count` of one piece is written: that piece gains it. */
  lemma WriteExtends(F: Bytes, disk: Bytes, piece: nat, done: nat, count: nat)
    requires piece < PieceCountForSize(|F|) && |disk| == |F| && done + count <= |Piece(F, piece)|
    requires disk[PieceOffset(piece)..PieceOffset(piece) + done] == Piece(F, piece)[..done]
    ensures var after := Overwrite(disk, PieceOffset(piece) + done, Piece(F, piece)[done..done + count]);
            && |after| == |F|
            && after[PieceOffset(piece)..PieceOffset(piece) + done + count] == Piece(F, piece)[..done + count]
  {
    var at, data := PieceOffset(piece) + done, Piece(F, piece)[done..done + count];
    PieceInside(F, piece);
    hide Overwrite, Piece, PieceOffset;
    OverwriteRange(disk, at, data);
    var after := Overwrite(disk, at, data);
    assert after[PieceOffset(piece)..at] == disk[PieceOffset(piece)..at];
    assert after[PieceOffset(piece)..at + count] == after[PieceOffset(piece)..at] + after[at..at + count];
    assert Piece(F, piece)[..done + count] == Piece(F, piece)[..done] + data;
  }

  lemma PieceInside(F: Bytes, piece: nat)
    requires piece < PieceCountForSize(|F|)
    ensures PieceOffset(piece) + |Piece(F, piece)| == PieceEnd(|F|, piece) <= |F|
  {
  }

  lemma KeepsCorrect(F: Bytes, s: State, s': State, piece: nat)
    requires Correct(F, s, piece) && KeepsPiece(s.disk, s'.disk, piece)
    ensures Correct(F, s', piece)
  {
  }

  lemma WriteDisk(F: Bytes, s: State, s': State, piece: nat)
    requires DiskOk(F, s) && KeepsOthers(s.disk, s'.disk, piece) && piece !in s.done
    requires s'.done == s.done && s'.phase == s.phase == Working
    ensures DiskOk(F, s')
  {
    hide Piece, KeepsPiece;
    forall p | p in s'.done ensures Correct(F, s', p) {
      assert Correct(F, s, p);
      KeepsCorrect(F, s, s', p);
    }
  }

  lemma KeepsProgress(F: Bytes, s: State, s': State, piece: nat, w: Worker)
    requires KeepsOthers(s.disk, s'.disk, piece) && w.Holds() && w.position < |s.order| && s'.order == s.order
    requires s.order[w.position] != piece && ProgressOk(F, s, w)
    ensures ProgressOk(F, s', w)
  {
    hide PieceOffset, PieceCountForSize;
    var other := s.order[w.position];
    assert w.Counting? || w.Writing? ==> KeepsPiece(s.disk, s'.disk, other);
    if w.Counting? {
      KeepsCorrect(F, s, s', other);
    } else if w.Writing? {
      PieceInside(F, other);
      assert s'.disk[PieceOffset(other)..PieceOffset(other) + w.done] ==
        s.disk[PieceOffset(other)..PieceOffset(other) + w.done];
    }
  }

  lemma WriteWorkers(job: Job, F: Bytes, s: State, i: nat, s': State)
    requires PhaseOk(job, s) && s.phase == Working && WorkersOk(F, s) && ClaimsOk(s)
    requires i < |s.workers| == |s'.workers| && s.workers[i].Writing? && s.workers[i].position < |s.order|
    requires KeepsOthers(s.disk, s'.disk, s.order[s.workers[i].position])
    requires s' == s.(disk := s'.disk, workers := s.workers[i := s'.workers[i]])
    requires s'.workers[i].Writing? && s'.workers[i].position == s.workers[i].position &&
             ProgressOk(F, s', s'.workers[i])
    ensures WorkersOk(F, s')
  {
    hide ProgressOk, KeepsOthers, IsRarestFirst, Rarity, Threads;
    OrderDistinct(job, s);
    forall k | 0 <= k < |s'.workers| && s'.workers[k].Holds() && k != i ensures ProgressOk(F, s', s'.workers[k]) {
      assert s.workers[k].position != s.workers[i].position;
      KeepsProgress(F, s, s', s.order[s.workers[i].position], s.workers[k]);
    }
  }

  lemma WriteKeeps(job: Job, F: Bytes, s: State, i: nat, e: Event)
    requires Inv(job, F, s) && Enabled(job, s, Work(i, e)) && s.workers[i].Writing?
    ensures Inv(job, F, Step(job, s, Work(i, e)))
  {
    hide Inv, Shape, DiskOk, EntryOk, ReadersOk, WorkersOk, ClaimsOk, ResolvedOk, CountsOk, PhaseOk, Overwrite, Piece,
      PieceOffset;
    InvParts(job, F, s);
    var s', w := Step(job, s, Work(i, e)), s.workers[i];
    Holding(F, s, i);
    if w.done >= |w.data| {
      FullyWritten(F, s, w);
      PlainMoveKeeps(job, F, s, i, Counting(w.position));
    } else if e.count == 0 {
      PlainMoveKeeps(job, F, s, i, Trying(w.position, w.attempt + 1));
    } else {
      PartWritten(job, F, s, i, Min(e.count, |w.data| - w.done));
    }
  }

  lemma InvParts(job: Job, F: Bytes, s: State)
    requires Inv(job, F, s)
    ensures Shape(job, s) && WorkersOk(F, s) && DiskOk(F, s) && PhaseOk(job, s) && ClaimsOk(s)
  {
  }

  lemma PartWritten(job: Job, F: Bytes, s: State, i: nat, count: nat)
    requires Inv(job, F, s) && s.phase == Working && i < |s.workers| && s.workers[i].Writing?
    requires var w := s.workers[i]; w.position < |s.order| && w.done + count <= |w.data|
    ensures var w := s.workers[i];
            var disk := Overwrite(s.disk, PieceOffset(s.order[w.position]) + w.done, w.data[w.done..w.done + count]);
            Inv(job, F, SetWorker(s.(disk := disk), i, w.(done := w.done + count)))
  {
    hide Inv, Shape, DiskOk, WorkersOk, ClaimsOk, PhaseOk, Overwrite, Piece, PieceOffset, PieceEnd, PieceCountForSize;
    InvParts(job, F, s);
    Holding(F, s, i);
    var w := s.workers[i];
    var piece := s.order[w.position];
    PieceInside(F, piece);
    WriteKeepsOthers(s.disk, piece, w.done, w.data[w.done..w.done + count]);
    WriteExtends(F, s.disk, piece, w.done, count);
    var disk := Overwrite(s.disk, PieceOffset(piece) + w.done, w.data[w.done..w.done + count]);
    var s' := SetWorker(s.(disk := disk), i, w.(done := w.done + count));
    WriteDisk(F, s, s', piece);
    WriteWorkers(job, F, s, i, s');
    WriteRest(job, F, s, i, s');
  }

  lemma FullyWritten(F: Bytes, s: State, w: Worker)
    requires w.Writing? && w.position < |s.order| && ProgressOk(F, s, w) && w.done >= |w.data|
    ensures Correct(F, s, s.order[w.position])
  {
    PieceInside(F, s.order[w.position]);
  }

  /** The parts of the invariant that a write cannot touch. */
  lemma WriteRest(job: Job, F: Bytes, s: State, i: nat, s': State)
    requires Inv(job, F, s) && s.phase == Working && i < |s.workers| == |s'.workers|
    requires s' == s.(disk := s'.disk, workers := s.workers[i := s'.workers[i]]) && |s'.disk| == |s.disk|
    requires s.workers[i].Writing? && s'.workers[i].Writing? && s'.workers[i].position == s.workers[i].position
    requires DiskOk(F, s') && WorkersOk(F, s')
    ensures Inv(job, F, s')
  {
    hide DiskOk, ReadersOk, WorkersOk, CountsOk, IsRarestFirst, ProgressOk;
    PlainMoveShape(job, s, i, s'.workers[i]);
    assert Shape(job, SetWorker(s, i, s'.workers[i]));
    forall k | 0 <= k < |s'.workers| ensures WorkerOk(job, s', s'.workers[k]) {
      assert WorkerOk(job, SetWorker(s, i, s'.workers[i]), s'.workers[k]);
    }
    ReadersFrame(F, s, s');
    CountsFrame(job, s, s');
    EntryFrame(job, s, s');
    if !s'.failed && !s'.cancelled {
      forall p: nat | p < s'.next && p < |s'.order| && s'.order[p] !in s'.done ensures exists k :: HeldBy(s', p, k) {
        var k :| HeldBy(s, p, k);
        assert HeldBy(s', p, k);
      }
    }
  }
}
