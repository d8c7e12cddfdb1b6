/**
  How calls on the local store end: a call that meets no operating-system error of its
  own returns what the published file decides, and every call returns after a bounded
  number of its own moves, whatever the others do.
 */
module LocalProgress {
  import opened Prelude
  import opened LocalStore

  /** No operating-system error strikes this reader, or this writer. */
  predicate ReaderUnharmed(schedule: seq<Action>, r: nat) {
    forall k :: 0 <= k < |schedule| && schedule[k].Get? && schedule[k].reader == r ==> !schedule[k].move.Fault?
  }

  predicate WriterUnharmed(schedule: seq<Action>, i: nat) {
    forall k :: 0 <= k < |schedule| && schedule[k].Put? && schedule[k].writer == i ==> !schedule[k].move.Fault?
  }

  function ReaderMoves(schedule: seq<Action>, r: nat): nat {
    if schedule == [] then 0
    else
      var last := schedule[|schedule| - 1];
      ReaderMoves(schedule[..|schedule| - 1], r) + if last.Get? && last.reader == r then 1 else 0
  }

  function WriterMoves(schedule: seq<Action>, i: nat): nat {
    if schedule == [] then 0
    else
      var last := schedule[|schedule| - 1];
      WriterMoves(schedule[..|schedule| - 1], i) + if last.Put? && last.writer == i then 1 else 0
  }

  // ---------------------------------------------------------------- get

  /** What a get that found the file owes: all of it when it has the digest in the key, else the refusal. */
  ghost predicate Delivers(sound: Bytes -> bool, s: State, result: GetResult) {
    && Published(s).Some?
    && result == if sound(Published(s).value) then Got(Published(s).value) else Corrupt
  }

  lemma {:induction false} UnharmedStep(sound: Bytes -> bool, s0: State, s: State, a: Action, r: nat)
    requires Inv(sound, s0, s) && r < |s.readers| && s.readers[r] != GetDone(GetFailed)
    requires a.Get? && a.reader == r ==> !a.move.Fault?
    ensures r < |Next(sound, s, a).readers| && Next(sound, s, a).readers[r] != GetDone(GetFailed)
  {
    assert ReaderOk(sound, s, s.readers[r]);
  }

  /** A get that met no error of its own does not fail with one: it found nothing, or what it owes. */
  lemma {:induction false} UnharmedGet(sound: Bytes -> bool, s0: State, schedule: seq<Action>, r: nat)
    requires Initial(s0) && r < |s0.readers| && ReaderUnharmed(schedule, r)
    ensures
      var s := Run(sound, s0, schedule);
      && r < |s.readers| && s.readers[r] != GetDone(GetFailed)
      && (s.readers[r].GetDone? ==> s.readers[r].result == NotFound || Delivers(sound, s, s.readers[r].result))
  {
    RunKeeps(sound, s0, schedule);
    if schedule == [] {
      assert s0.readers[r] in s0.readers;
    } else {
      var before, last := schedule[..|schedule| - 1], schedule[|schedule| - 1];
      UnharmedGet(sound, s0, before, r);
      RunKeeps(sound, s0, before);
      UnharmedStep(sound, s0, Run(sound, s0, before), last, r);
    }
    assert ReaderOk(sound, Run(sound, s0, schedule), Run(sound, s0, schedule).readers[r]);
  }

  /** A reader that opens from `s` on, after publication, and what it has done by `t`. */
  ghost predicate Reads(sound: Bytes -> bool, t: State, r: nat, moves: nat) {
    && r < |t.readers| && Published(t).Some?
    && match t.readers[r]
       case GetOpening => moves == 0
       case GetStreaming(_, got) => 0 < moves <= |got| + 1
       case GetDone(result) => Delivers(sound, t, result)
  }

  lemma {:induction false} ReadsOn(sound: Bytes -> bool, s0: State, s: State, a: Action, r: nat, moves: nat)
    requires Inv(sound, s0, s) && Reads(sound, s, r, moves)
    requires a.Get? && a.reader == r ==> !a.move.Fault?
    ensures Reads(sound, Next(sound, s, a), r, moves + if a.Get? && a.reader == r then 1 else 0)
  {
    StepKeeps(sound, s0, s, a);
    assert ReaderOk(sound, s, s.readers[r]);
    var t := Next(sound, s, a);
    assert ReaderOk(sound, t, t.readers[r]);
  }

  /**
    A get that opens after publication and meets no error of its own returns exactly the
    published bytes when they have the digest in the key and is refused exactly when they
    have not; and it is done after at most two more moves than there are bytes.
   */
  lemma {:induction false} GetDeliversPublished(sound: Bytes -> bool, s0: State, before: seq<Action>,
                                                schedule: seq<Action>, r: nat)
    requires Initial(s0) && r < |s0.readers| && ReaderUnharmed(schedule, r)
    requires
      var s := Run(sound, s0, before);
      s.target.Some? && r < |s.readers| && s.readers[r] == GetOpening
    ensures
      var s, t := Run(sound, s0, before), Run(sound, s0, before + schedule);
      && Published(s).Some? && Published(t) == Published(s) && r < |t.readers|
      && (t.readers[r].GetDone? ==> Delivers(sound, s, t.readers[r].result))
      && (ReaderMoves(schedule, r) >= |Published(s).value| + 2 ==> t.readers[r].GetDone?)
  {
    var s, t := Run(sound, s0, before), Run(sound, s0, before + schedule);
    PublishedFileNeverChanges(sound, s0, before, schedule);
    RunKeeps(sound, s0, before);
    RunSplits(sound, s0, before, schedule);
    ReadsThrough(sound, s0, s, schedule, r);
    RunKeeps(sound, s0, before + schedule);
    assert ReaderOk(sound, t, t.readers[r]);
  }

  lemma {:induction false} ReadsThrough(sound: Bytes -> bool, s0: State, s: State, schedule: seq<Action>, r: nat)
    requires Inv(sound, s0, s) && Reads(sound, s, r, 0) && ReaderUnharmed(schedule, r)
    ensures Reads(sound, Run(sound, s, schedule), r, ReaderMoves(schedule, r))
  {
    if schedule != [] {
      var before, last := schedule[..|schedule| - 1], schedule[|schedule| - 1];
      ReadsThrough(sound, s0, s, before, r);
      TargetStays(sound, s0, s, before);
      ReadsOn(sound, s0, Run(sound, s, before), last, r, ReaderMoves(before, r));
    }
  }

  // ---------------------------------------------------------------- put

  /** A writer that met no error so far has not failed for one. */
  predicate Unhurt(w: Writer) {
    w.pc.Cleaning? || w.pc.Done? ==> w.pc.outcome in {Stored, Reused, Failed(Collision)}
  }

  lemma {:induction false} UnhurtStep(sound: Bytes -> bool, s0: State, s: State, a: Action, i: nat)
    requires Inv(sound, s0, s) && i < |s.writers| && Unhurt(s.writers[i])
    requires a.Put? && a.writer == i ==> !a.move.Fault?
    ensures i < |Next(sound, s, a).writers| && Unhurt(Next(sound, s, a).writers[i])
  {
    StepKeeps(sound, s0, s, a);
    assert WriterOk(s, s.writers[i]);
    var t := Next(sound, s, a);
    assert WriterOk(t, t.writers[i]);
  }

  /**
    A put that met no error of its own ends STORED or REUSED when the target holds its
    payload, and as a collision when the target holds other bytes; nothing else.
   */
  lemma {:induction false} UnharmedPut(sound: Bytes -> bool, s0: State, schedule: seq<Action>, i: nat)
    requires Initial(s0) && i < |s0.writers| && WriterUnharmed(schedule, i)
    ensures
      var s := Run(sound, s0, schedule);
      && i < |s.writers| && Unhurt(s.writers[i])
      && (s.writers[i].pc.Done? ==>
            && Published(s).Some?
            && (Published(s).value == s0.writers[i].content <==> s.writers[i].pc.outcome in {Stored, Reused})
            && (Published(s).value != s0.writers[i].content <==> s.writers[i].pc.outcome == Failed(Collision))
            && (s0.target.Some? ==> s.writers[i].pc.outcome != Stored))
  {
    if schedule == [] {
      assert s0.writers[i] in s0.writers;
    } else {
      var before, last := schedule[..|schedule| - 1], schedule[|schedule| - 1];
      UnharmedPut(sound, s0, before, i);
      RunKeeps(sound, s0, before);
      UnhurtStep(sound, s0, Run(sound, s0, before), last, i);
    }
    PutIsSafe(sound, s0, schedule);
  }

  /** Moves a writer may still make when the published file has at most `size` bytes. */
  function Left(w: Writer, size: nat): int {
    match w.pc
    case Checking => |w.content| + size + 7
    case Making => |w.content| + size + 6
    case Writing(_, written) => |w.content| - written + size + 5
    case Linking(_) => size + 4
    case Opening(_, _) => size + 3
    case Streaming(_, _, _, got) => size - |got| + 2
    case Cleaning(_, _) => 1
    case Done(_) => 0
  }

  ghost predicate Fits(s: State, size: nat) { Published(s).Some? ==> |Published(s).value| <= size }

  lemma {:induction false} MoveUsesUp(s: State, i: nat, move: Move, size: nat)
    requires i < |s.writers| && WriterOk(s, s.writers[i]) && Fits(s, size) && !s.writers[i].pc.Done?
    ensures
      var t := PutNext(s, i, move);
      i < |t.writers| && t.writers[i].content == s.writers[i].content
      && Left(t.writers[i], size) < Left(s.writers[i], size)
  {
  }

  lemma {:induction false} LeftIsPositive(s: State, i: nat, size: nat)
    requires i < |s.writers| && WriterOk(s, s.writers[i]) && Fits(s, size)
    ensures Left(s.writers[i], size) >= 0 && (Left(s.writers[i], size) == 0 <==> s.writers[i].pc.Done?)
  {
  }

  lemma {:induction false} StepUsesUp(sound: Bytes -> bool, s0: State, s: State, a: Action, i: nat, size: nat)
    requires Inv(sound, s0, s) && i < |s.writers| && Fits(s, size)
    ensures
      var t, moves := Next(sound, s, a), if a.Put? && a.writer == i then 1 else 0;
      && i < |t.writers| && t.writers[i].content == s.writers[i].content
      && (s.writers[i].pc.Done? ==> t.writers[i].pc.Done?)
      && (!s.writers[i].pc.Done? ==> moves + Left(t.writers[i], size) <= Left(s.writers[i], size))
  {
    assert WriterOk(s, s.writers[i]);
    if a.Put? && a.writer == i && !s.writers[i].pc.Done? { MoveUsesUp(s, i, a.move, size); }
  }

  lemma {:induction false} PutUsesUp(sound: Bytes -> bool, s0: State, schedule: seq<Action>, i: nat, size: nat)
    requires Initial(s0) && i < |s0.writers| && Fits(Run(sound, s0, schedule), size)
    ensures
      var s := Run(sound, s0, schedule);
      && i < |s.writers|
      && (s.writers[i].pc.Done?
          || WriterMoves(schedule, i) + Left(s.writers[i], size) <= |s0.writers[i].content| + size + 7)
  {
    if schedule == [] {
      assert s0.writers[i] in s0.writers;
    } else {
      var before, last := schedule[..|schedule| - 1], schedule[|schedule| - 1];
      FitsBefore(sound, s0, before, last, size);
      PutUsesUp(sound, s0, before, i, size);
      RunKeeps(sound, s0, before);
      StepUsesUp(sound, s0, Run(sound, s0, before), last, i, size);
    }
  }

  lemma {:induction false} FitsBefore(sound: Bytes -> bool, s0: State, before: seq<Action>, a: Action, size: nat)
    requires Initial(s0) && Fits(Next(sound, Run(sound, s0, before), a), size)
    ensures Fits(Run(sound, s0, before), size)
  {
    RunKeeps(sound, s0, before);
    StepKeeps(sound, s0, Run(sound, s0, before), a);
  }

  /** Every put, harmed or not, is done after at most seven moves more than its payload and the file have bytes. */
  lemma {:induction false} PutFinishes(sound: Bytes -> bool, s0: State, schedule: seq<Action>, i: nat)
    requires Initial(s0) && i < |s0.writers|
    requires
      var s := Run(sound, s0, schedule);
      var size := if Published(s).Some? then |Published(s).value| else 0;
      WriterMoves(schedule, i) >= |s0.writers[i].content| + size + 7
    ensures
      var s := Run(sound, s0, schedule);
      i < |s.writers| && s.writers[i].pc.Done?
  {
    var s := Run(sound, s0, schedule);
    var size := if Published(s).Some? then |Published(s).value| else 0;
    RunKeeps(sound, s0, schedule);
    PutUsesUp(sound, s0, schedule, i, size);
    assert WriterOk(s, s.writers[i]);
    LeftIsPositive(s, i, size);
  }

  // ---------------------------------------------------------------- temporary files

  /** Every temporary file is one that some writer will still remove. */
  ghost predicate AllHeld(s: State) {
    forall f :: f in s.temps ==> f < |s.files| && exists i :: 0 <= i < |s.writers| && Held(s.writers[i]) == Some(f)
  }

  /** An error that strands a temporary file: its name is made but not reported, or its removal fails. */
  predicate Strands(s: State, a: Action) {
    && a.Put? && a.writer < |s.writers| && a.move.Fault?
    && if a.move.late then s.writers[a.writer].pc.Making? else s.writers[a.writer].pc.Cleaning?
  }

  lemma {:induction false} MoveKeepsHeld(s: State, i: nat, move: Move)
    requires i < |s.writers| && !Strands(s, Put(i, move))
    ensures
      var t := PutNext(s, i, move);
      && i < |t.writers| && |s.files| <= |t.files| && t.writers == s.writers[i := t.writers[i]]
      && TempMoved(s, i, t)
  {
  }

  lemma {:induction false} HeldStep(sound: Bytes -> bool, s: State, a: Action)
    requires AllHeld(s) && !Strands(s, a)
    ensures AllHeld(Next(sound, s, a))
  {
    var t := Next(sound, s, a);
    if a.Put? && a.writer < |s.writers| {
      MoveKeepsHeld(s, a.writer, a.move);
      forall f | f in t.temps
        ensures f < |t.files| && exists k :: 0 <= k < |t.writers| && Held(t.writers[k]) == Some(f)
      {
        if f in s.temps {
          var k :| 0 <= k < |s.writers| && Held(s.writers[k]) == Some(f);
          assert Held(t.writers[k]) == Some(f);
        } else {
          assert Held(t.writers[a.writer]) == Some(f);
        }
      }
    }
  }

  /**
    Whatever the payloads and the errors, finished calls leave no temporary file behind,
    unless an error hid the making of one or stopped its removal.
   */
  lemma {:induction false} NothingIsLeft(sound: Bytes -> bool, s0: State, schedule: seq<Action>)
    requires Initial(s0) && Spared(sound, s0, schedule)
    ensures
      var s := Run(sound, s0, schedule);
      AllHeld(s) && ((forall i :: 0 <= i < |s.writers| ==> s.writers[i].pc.Done?) ==> s.temps == {})
  {
    if schedule != [] {
      var n := |schedule| - 1;
      SparedBefore(sound, s0, schedule, n);
      NothingIsLeft(sound, s0, schedule[..n]);
      HeldStep(sound, Run(sound, s0, schedule[..n]), schedule[n]);
    }
    DoneHoldsNothing(Run(sound, s0, schedule));
  }

  /** No error strands a temporary file. */
  predicate Spared(sound: Bytes -> bool, s0: State, schedule: seq<Action>) {
    forall k :: 0 <= k < |schedule| ==> !Strands(Run(sound, s0, schedule[..k]), schedule[k])
  }

  lemma {:induction false} SparedBefore(sound: Bytes -> bool, s0: State, schedule: seq<Action>, n: nat)
    requires Spared(sound, s0, schedule) && n < |schedule|
    ensures Spared(sound, s0, schedule[..n]) && !Strands(Run(sound, s0, schedule[..n]), schedule[n])
  {
    forall k | 0 <= k < n ensures schedule[..n][..k] == schedule[..k] && schedule[..n][k] == schedule[k] {}
  }

  lemma {:induction false} DoneHoldsNothing(s: State)
    requires AllHeld(s)
    ensures (forall i :: 0 <= i < |s.writers| ==> s.writers[i].pc.Done?) ==> s.temps == {}
  {
    assert forall i :: 0 <= i < |s.writers| && s.writers[i].pc.Done? ==> Held(s.writers[i]).None?;
  }

  // ---------------------------------------------------------------- errors are reported

  /** This call is bound to report a backend error. */
  predicate Doomed(w: Writer) { (w.pc.Cleaning? || w.pc.Done?) && w.pc.outcome == Failed(Backend) }

  lemma {:induction false} DoomedStays(sound: Bytes -> bool, s: State, b: seq<Action>, i: nat)
    requires i < |s.writers| && Doomed(s.writers[i])
    ensures i < |Run(sound, s, b).writers| && Doomed(Run(sound, s, b).writers[i])
  {
    if b != [] { DoomedStays(sound, s, b[..|b| - 1], i); }
  }

  /** An error between the existence test and the removal of the temporary file makes the put fail with it. */
  lemma {:induction false} HarmedPut(sound: Bytes -> bool, s0: State, a: seq<Action>, i: nat, late: bool,
                                     b: seq<Action>)
    requires
      var s := Run(sound, s0, a);
      i < |s.writers| && !s.writers[i].pc.Checking? && !s.writers[i].pc.Cleaning? && !s.writers[i].pc.Done?
    ensures
      var t := Run(sound, s0, a + [Put(i, Fault(late))] + b);
      && i < |t.writers| && Doomed(t.writers[i])
      && (t.writers[i].pc.Done? ==> Returned(t.writers[i], Failed(Backend)))
  {
    var s := Run(sound, s0, a + [Put(i, Fault(late))]);
    assert (a + [Put(i, Fault(late))])[..|a|] == a;
    DoomedStays(sound, s, b, i);
    RunSplits(sound, s0, a + [Put(i, Fault(late))], b);
  }

  lemma {:induction false} FailedGetStays(sound: Bytes -> bool, s: State, b: seq<Action>, r: nat)
    requires r < |s.readers| && s.readers[r] == GetDone(GetFailed)
    ensures r < |Run(sound, s, b).readers| && Run(sound, s, b).readers[r] == GetDone(GetFailed)
  {
    if b != [] { FailedGetStays(sound, s, b[..|b| - 1], r); }
  }

  /** An error that strikes an unfinished get makes it fail with it. */
  lemma {:induction false} HarmedGet(sound: Bytes -> bool, s0: State, a: seq<Action>, r: nat, late: bool,
                                     b: seq<Action>)
    requires
      var s := Run(sound, s0, a);
      r < |s.readers| && !s.readers[r].GetDone?
    ensures
      var t := Run(sound, s0, a + [Get(r, Fault(late))] + b);
      r < |t.readers| && t.readers[r] == GetDone(GetFailed)
  {
    var s := Run(sound, s0, a + [Get(r, Fault(late))]);
    assert (a + [Get(r, Fault(late))])[..|a|] == a;
    FailedGetStays(sound, s, b, r);
    RunSplits(sound, s0, a + [Get(r, Fault(late))], b);
  }
}
