/**
  The local create-only artifact store under any interleaving of writers and readers of
  one canonical key.  Files are inodes: the hard link makes the target name the inode of
  the publisher's temporary file.  A schedule chooses who moves, how many bytes each
  write or read transfers, and where the file system fails.
 */
module LocalStore {
  import opened Prelude

  datatype StoreError = Collision | Corruption | Backend

  datatype Outcome = Stored | Reused | Failed(error: StoreError)

  type Inode = nat

  /** Where a call of `put_if_absent` stands. */
  datatype Pc =
    | Checking                                                    // target.exists()
    | Making                                                      // mkstemp
    | Writing(file: Inode, written: nat)                          // write, flush, fsync
    | Linking(file: Inode)                                        // os.link(temporary, target)
    | Opening(collision: bool, temp: Option<Inode>)               // read-back: open the target
    | Streaming(collision: bool, temp: Option<Inode>, source: Inode, got: Bytes)
    | Cleaning(file: Inode, outcome: Outcome)                     // finally: unlink the temporary file
    | Done(outcome: Outcome)

  datatype Writer = Writer(content: Bytes, pc: Pc)

  datatype GetResult = Got(content: Bytes) | NotFound | Corrupt | GetFailed

  /** Where a call of `get` stands. */
  datatype Reader = GetOpening | GetStreaming(source: Inode, got: Bytes) | GetDone(result: GetResult)

  datatype State = State(
    files: seq<Bytes>, target: Option<Inode>, temps: set<Inode>, writers: seq<Writer>, readers: seq<Reader>)

  /**
    One move: progress by up to `amount` bytes, or an operating-system error; a late one
    is reported although the new or removed name took effect.
   */
  datatype Move = Go(amount: nat) | Fault(late: bool)

  datatype Action = Put(writer: nat, move: Move) | Get(reader: nat, move: Move)

  // ---------------------------------------------------------------- the protocol

  function Finish(temp: Option<Inode>, outcome: Outcome): Pc {
    if temp.Some? then Cleaning(temp.value, outcome) else Done(outcome)
  }

  function Advance(from: nat, amount: nat, end: nat): (to: nat)
    ensures from < end ==> from < to <= end
  {
    if from >= end then from else if amount == 0 then from + 1 else if from + amount > end then end else from + amount
  }

  function SetPc(s: State, i: nat, pc: Pc): State
    requires i < |s.writers|
  {
    s.(writers := s.writers[i := s.writers[i].(pc := pc)])
  }

  function PutNext(s: State, i: nat, move: Move): State
    requires i < |s.writers|
  {
    var content := s.writers[i].content;
    match s.writers[i].pc
    case Checking =>
      SetPc(s, i, if s.target.Some? then Opening(true, None) else Making)
    case Making =>
      if move.Fault? then
        SetPc(s, i, Done(Failed(Backend))).(
          files := if move.late then s.files + [[]] else s.files,
          temps := if move.late then s.temps + {|s.files|} else s.temps)
      else SetPc(s, i, Writing(|s.files|, 0)).(files := s.files + [[]], temps := s.temps + {|s.files|})
    case Writing(file, written) =>
      if move.Fault? || file >= |s.files| then SetPc(s, i, Cleaning(file, Failed(Backend)))
      else if written >= |content| then SetPc(s, i, Linking(file))
      else
        var to := Advance(written, move.amount, |content|);
        SetPc(s, i, Writing(file, to)).(files := s.files[file := content[..to]])
    case Linking(file) =>
      if move.Fault? then
        SetPc(s, i, Cleaning(file, Failed(Backend))).(
          target := if move.late && s.target.None? then Some(file) else s.target)
      else if s.target.Some? then SetPc(s, i, Opening(true, Some(file)))
      else SetPc(s, i, Opening(false, Some(file))).(target := Some(file))
    case Opening(collision, temp) =>
      if move.Fault? || s.target.None? then SetPc(s, i, Finish(temp, Failed(Backend)))
      else SetPc(s, i, Streaming(collision, temp, s.target.value, []))
    case Streaming(collision, temp, source, got) =>
      if move.Fault? || source >= |s.files| then SetPc(s, i, Finish(temp, Failed(Backend)))
      else if |got| < |s.files[source]| then
        var to := Advance(|got|, move.amount, |s.files[source]|);
        SetPc(s, i, Streaming(collision, temp, source, got + s.files[source][|got|..to]))
      else if got != content then SetPc(s, i, Finish(temp, Failed(if collision then Collision else Corruption)))
      else SetPc(s, i, Finish(temp, if collision then Reused else Stored))
    case Cleaning(file, outcome) =>
      SetPc(s, i, Done(outcome)).(temps := if move.Fault? && !move.late then s.temps else s.temps - {file})
    case Done(_) => s
  }

  function GetNext(sound: Bytes -> bool, s: State, r: nat, move: Move): State
    requires r < |s.readers|
  {
    var next := match s.readers[r]
      case GetOpening =>
        if move.Fault? then GetDone(GetFailed)
        else if s.target.None? then GetDone(NotFound)
        else GetStreaming(s.target.value, [])
      case GetStreaming(source, got) =>
        if move.Fault? || source >= |s.files| then GetDone(GetFailed)
        else if |got| < |s.files[source]| then
          GetStreaming(source, got + s.files[source][|got|..Advance(|got|, move.amount, |s.files[source]|)])
        else if sound(got) then GetDone(Got(got))
        else GetDone(Corrupt)
      case GetDone(_) => s.readers[r];
    s.(readers := s.readers[r := next])
  }

  /** One scheduled move.  `sound` tells whether bytes hash to the digest in the key. */
  function Next(sound: Bytes -> bool, s: State, a: Action): State {
    match a
    case Put(i, move) => if i < |s.writers| then PutNext(s, i, move) else s
    case Get(r, move) => if r < |s.readers| then GetNext(sound, s, r, move) else s
  }

  function Run(sound: Bytes -> bool, s: State, schedule: seq<Action>): State {
    if schedule == [] then s
    else Next(sound, Run(sound, s, schedule[..|schedule| - 1]), schedule[|schedule| - 1])
  }

  /** Every call still to begin; the target may already exist with any bytes. */
  predicate Initial(s: State) {
    && (s.target.Some? ==> s.target.value < |s.files|) && s.temps == {}
    && (forall w :: w in s.writers ==> w.pc == Checking)
    && (forall r :: r in s.readers ==> r == GetOpening)
  }

  // ---------------------------------------------------------------- invariant

  /** The inode this writer still fills and nobody else may see. */
  function Private(w: Writer): Option<Inode> {
    match w.pc
    case Writing(file, _) => Some(file)
    case Linking(file) => Some(file)
    case _ => None
  }

  /** The temporary name this writer has yet to unlink. */
  function Held(w: Writer): Option<Inode> {
    match w.pc
    case Writing(file, _) => Some(file)
    case Linking(file) => Some(file)
    case Opening(_, temp) => temp
    case Streaming(_, temp, _, _) => temp
    case Cleaning(file, _) => Some(file)
    case _ => None
  }

  /** This writer made the link and has not failed since. */
  predicate Publisher(w: Writer) {
    match w.pc
    case Opening(collision, _) => !collision
    case Streaming(collision, _, _, _) => !collision
    case Cleaning(_, outcome) => outcome == Stored
    case Done(outcome) => outcome == Stored
    case _ => false
  }

  predicate Returned(w: Writer, outcome: Outcome) { w.pc == Done(outcome) }

  /** The bytes of the target, once it exists. */
  function Published(s: State): Option<Bytes> {
    if s.target.Some? && s.target.value < |s.files| then Some(s.files[s.target.value]) else None
  }

  /** What one writer may rely on. */
  predicate WriterOk(s: State, w: Writer) {
    && (Private(w).Some? ==> Private(w).value < |s.files| && s.target != Private(w))
    && (w.pc.Writing? ==> w.pc.written <= |w.content| && s.files[w.pc.file] == w.content[..w.pc.written])
    && (w.pc.Linking? ==> s.files[w.pc.file] == w.content)
    && (w.pc.Opening? ==> s.target.Some?)
    && (w.pc.Streaming? ==>
          s.target == Some(w.pc.source) && w.pc.source < |s.files| && w.pc.got <= s.files[w.pc.source])
    && (Publisher(w) ==> s.target.Some? && s.target.value < |s.files| && s.files[s.target.value] == w.content)
    && ((w.pc.Done? || w.pc.Cleaning?) && w.pc.outcome == Reused ==>
          Published(s) == Some(w.content))
    && ((w.pc.Done? || w.pc.Cleaning?) && w.pc.outcome == Failed(Collision) ==>
          Published(s).Some? && Published(s).value != w.content)
    && (w.pc.Done? || w.pc.Cleaning? ==> w.pc.outcome != Failed(Corruption))
  }

  predicate ReaderOk(sound: Bytes -> bool, s: State, r: Reader) {
    match r
    case GetOpening => true
    case GetStreaming(source, got) => s.target == Some(source) && source < |s.files| && got <= s.files[source]
    case GetDone(Got(content)) => Published(s) == Some(content) && sound(content)
    case GetDone(Corrupt) => Published(s).Some? && !sound(Published(s).value)
    case GetDone(_) => true
  }

  predicate SamePayloads(s0: State, s: State) {
    && |s.writers| == |s0.writers| && |s.readers| == |s0.readers|
    && forall i :: 0 <= i < |s.writers| ==> s.writers[i].content == s0.writers[i].content
  }

  predicate Inv(sound: Bytes -> bool, s0: State, s: State) {
    && SamePayloads(s0, s)
    && (s.target.Some? ==> s.target.value < |s.files|)
    && (forall i :: 0 <= i < |s.writers| ==> WriterOk(s, s.writers[i]))
    && (forall r :: 0 <= r < |s.readers| ==> ReaderOk(sound, s, s.readers[r]))
    && (forall i, j :: 0 <= i < j < |s.writers| && Private(s.writers[i]).Some? ==>
          Private(s.writers[i]) != Private(s.writers[j]))
    && (forall i, j :: 0 <= i < j < |s.writers| ==> !(Publisher(s.writers[i]) && Publisher(s.writers[j])))
    && (s0.target.Some? ==> forall i :: 0 <= i < |s.writers| ==> !Publisher(s.writers[i]))
    && (s0.target.Some? ==> s.target == s0.target)
  }

  /** A published file is never replaced and never rewritten. */
  predicate KeepsTarget(s: State, t: State) {
    s.target.Some? ==>
      && t.target == s.target && s.target.value < |s.files| <= |t.files|
      && t.files[s.target.value] == s.files[s.target.value]
  }

  /** What a move leaves to a writer that did not move. */
  lemma {:induction false} WriterFrame(s: State, t: State, w: Writer)
    requires WriterOk(s, w) && KeepsTarget(s, t) && |s.files| <= |t.files|
    requires Private(w).Some? ==> t.files[Private(w).value] == s.files[Private(w).value] && t.target != Private(w)
    ensures WriterOk(t, w)
  {
  }

  /** What a writer's own move may change, and what it may then rely on. */
  predicate OwnMoved(s: State, i: nat, t: State)
    requires i < |s.writers|
  {
    && |t.writers| == |s.writers| && t.readers == s.readers && t.writers == s.writers[i := t.writers[i]]
    && t.writers[i].content == s.writers[i].content
    && WriterOk(t, t.writers[i]) && KeepsTarget(s, t) && |s.files| <= |t.files|
    && (t.target.Some? ==> t.target.value < |t.files|)
    && (t.target == s.target || (s.target.None? && t.target == Private(s.writers[i])))
    && (forall f :: 0 <= f < |s.files| && Some(f) != Private(s.writers[i]) ==> t.files[f] == s.files[f])
    && (var p := Private(t.writers[i]); p == Private(s.writers[i]) || p.None? || p == Some(|s.files|))
    && (Publisher(t.writers[i]) ==> Publisher(s.writers[i]) || s.target.None?)
  }

  lemma {:induction false} WriteMove(s: State, i: nat, move: Move)
    requires i < |s.writers| && WriterOk(s, s.writers[i]) && (s.target.Some? ==> s.target.value < |s.files|)
    requires s.writers[i].pc.Making? || s.writers[i].pc.Writing?
    ensures OwnMoved(s, i, PutNext(s, i, move))
  {
    var t, w := PutNext(s, i, move), s.writers[i];
    if w.pc.Writing? {
      var file, written := w.pc.file, w.pc.written;
      if !move.Fault? && written < |w.content| {
        var to := Advance(written, move.amount, |w.content|);
        assert t.files[file] == w.content[..to];
      } else {
        assert w.content[..|w.content|] == w.content;
      }
    }
  }

  lemma {:induction false} LinkMove(s: State, i: nat, move: Move)
    requires i < |s.writers| && WriterOk(s, s.writers[i]) && (s.target.Some? ==> s.target.value < |s.files|)
    requires s.writers[i].pc.Linking? || s.writers[i].pc.Checking? || s.writers[i].pc.Cleaning? || s.writers[i].pc.Done?
    ensures OwnMoved(s, i, PutNext(s, i, move))
  {
  }

  lemma {:induction false} ReadMove(s: State, i: nat, move: Move)
    requires i < |s.writers| && WriterOk(s, s.writers[i]) && (s.target.Some? ==> s.target.value < |s.files|)
    requires s.writers[i].pc.Opening? || s.writers[i].pc.Streaming?
    ensures OwnMoved(s, i, PutNext(s, i, move))
  {
    var w := s.writers[i];
    assert w.pc.Streaming? && |w.pc.got| >= |s.files[w.pc.source]| ==> w.pc.got == s.files[w.pc.source];
    if w.pc.Streaming? && |w.pc.got| < |s.files[w.pc.source]| {
      StreamStep(s.files[w.pc.source], w.pc.got,
        Advance(|w.pc.got|, if move.Go? then move.amount else 0, |s.files[w.pc.source]|));
    }
  }

  lemma {:induction false} OwnMove(s: State, i: nat, move: Move)
    requires i < |s.writers| && WriterOk(s, s.writers[i]) && (s.target.Some? ==> s.target.value < |s.files|)
    ensures OwnMoved(s, i, PutNext(s, i, move))
  {
    match s.writers[i].pc
    case Making => WriteMove(s, i, move);
    case Writing(_, _) => WriteMove(s, i, move);
    case Opening(_, _) => ReadMove(s, i, move);
    case Streaming(_, _, _, _) => ReadMove(s, i, move);
    case _ => LinkMove(s, i, move);
  }

  /** Reading on from a prefix of a file gives a longer prefix of it. */
  lemma {:induction false} StreamStep(file: Bytes, got: Bytes, to: nat)
    requires got <= file && |got| <= to <= |file|
    ensures got + file[|got|..to] == file[..to] && got + file[|got|..to] <= file
  {
    assert got == file[..|got|];
  }

  lemma {:induction false} PutKeeps(sound: Bytes -> bool, s0: State, s: State, i: nat, move: Move)
    requires Inv(sound, s0, s) && i < |s.writers|
    ensures Inv(sound, s0, PutNext(s, i, move)) && KeepsTarget(s, PutNext(s, i, move))
  {
    var t := PutNext(s, i, move);
    assert WriterOk(s, s.writers[i]);
    OwnMove(s, i, move);
    assert OwnMoved(s, i, t);
    forall j | 0 <= j < |t.writers|
      ensures WriterOk(t, t.writers[j])
      ensures t.writers[j].content == s0.writers[j].content
      ensures j != i && Private(t.writers[j]).Some? ==> Private(t.writers[j]) != Private(t.writers[i])
      ensures j != i ==> !(Publisher(t.writers[j]) && Publisher(t.writers[i]))
    {
      assert WriterOk(s, s.writers[j]);
      if j != i {
        assert Private(s.writers[j]).Some? ==> Private(s.writers[j]) != Private(s.writers[i]);
        WriterFrame(s, t, s.writers[j]);
      }
    }
    forall r | 0 <= r < |t.readers| ensures ReaderOk(sound, t, t.readers[r]) {
      assert ReaderOk(sound, s, s.readers[r]);
    }
  }

  lemma {:induction false} GetKeeps(sound: Bytes -> bool, s0: State, s: State, r: nat, move: Move)
    requires Inv(sound, s0, s) && r < |s.readers|
    ensures Inv(sound, s0, GetNext(sound, s, r, move)) && KeepsTarget(s, GetNext(sound, s, r, move))
  {
    var t := GetNext(sound, s, r, move);
    assert ReaderOk(sound, s, s.readers[r]);
    if s.readers[r].GetStreaming? && !move.Fault? {
      var source, got := s.readers[r].source, s.readers[r].got;
      assert |got| >= |s.files[source]| ==> got == s.files[source];
      var to := if |got| < |s.files[source]| then Advance(|got|, move.amount, |s.files[source]|) else |got|;
      StreamStep(s.files[source], got, to);
    }
    forall k | 0 <= k < |t.readers| ensures ReaderOk(sound, t, t.readers[k]) {
      assert ReaderOk(sound, s, s.readers[k]);
    }
    forall j | 0 <= j < |t.writers| ensures WriterOk(t, t.writers[j]) { WriterFrame(s, t, s.writers[j]); }
  }

  /** Every schedule keeps the invariant. */
  lemma {:induction false} RunKeeps(sound: Bytes -> bool, s0: State, schedule: seq<Action>)
    requires Initial(s0)
    ensures Inv(sound, s0, Run(sound, s0, schedule))
  {
    if schedule == [] {
      forall i | 0 <= i < |s0.writers| ensures WriterOk(s0, s0.writers[i]) && s0.writers[i].pc == Checking {
        assert s0.writers[i] in s0.writers;
      }
      forall r | 0 <= r < |s0.readers|
        ensures ReaderOk(sound, s0, s0.readers[r])
      {
        assert s0.readers[r] in s0.readers;
      }
    } else {
      RunKeeps(sound, s0, schedule[..|schedule| - 1]);
      StepKeeps(sound, s0, Run(sound, s0, schedule[..|schedule| - 1]), schedule[|schedule| - 1]);
    }
  }

  lemma {:induction false} StepKeeps(sound: Bytes -> bool, s0: State, s: State, a: Action)
    requires Inv(sound, s0, s)
    ensures Inv(sound, s0, Next(sound, s, a)) && KeepsTarget(s, Next(sound, s, a))
  {
    match a
    case Put(i, move) => if i < |s.writers| { PutKeeps(sound, s0, s, i, move); }
    case Get(r, move) => if r < |s.readers| { GetKeeps(sound, s0, s, r, move); }
  }

  // ---------------------------------------------------------------- what every interleaving guarantees

  lemma {:induction false} RunSplits(sound: Bytes -> bool, s: State, a: seq<Action>, b: seq<Action>)
    ensures Run(sound, s, a + b) == Run(sound, Run(sound, s, a), b)
  {
    if b == [] {
      assert a + b == a;
    } else {
      RunSplits(sound, s, a, b[..|b| - 1]);
      assert (a + b)[..|a + b| - 1] == a + b[..|b| - 1];
    }
  }

  lemma {:induction false} TargetStays(sound: Bytes -> bool, s0: State, s: State, b: seq<Action>)
    requires Inv(sound, s0, s)
    ensures Inv(sound, s0, Run(sound, s, b)) && KeepsTarget(s, Run(sound, s, b))
  {
    if b != [] {
      TargetStays(sound, s0, s, b[..|b| - 1]);
      StepKeeps(sound, s0, Run(sound, s, b[..|b| - 1]), b[|b| - 1]);
    }
  }

  /** The published file never changes: from the moment the target exists it keeps its bytes. */
  lemma {:induction false} PublishedFileNeverChanges(sound: Bytes -> bool, s0: State, a: seq<Action>, b: seq<Action>)
    requires Initial(s0)
    ensures KeepsTarget(Run(sound, s0, a), Run(sound, s0, a + b))
  {
    RunSplits(sound, s0, a, b);
    RunKeeps(sound, s0, a);
    TargetStays(sound, s0, Run(sound, s0, a), b);
  }

  /**
    Under every interleaving, fault and partial transfer: at most one call returns
    STORED, none if the target already existed; a call that returns normally leaves the
    target holding exactly its payload; a reported collision is with a published file
    whose bytes differ; and no call finds its own file corrupted.
   */
  lemma {:induction false} PutIsSafe(sound: Bytes -> bool, s0: State, schedule: seq<Action>)
    requires Initial(s0)
    ensures
      var s := Run(sound, s0, schedule);
      && SamePayloads(s0, s)
      && (forall i, j :: 0 <= i < j < |s.writers| ==>
            !(Returned(s.writers[i], Stored) && Returned(s.writers[j], Stored)))
      && (s0.target.Some? ==> forall i :: 0 <= i < |s.writers| ==> !Returned(s.writers[i], Stored))
      && (forall i :: 0 <= i < |s.writers| && (Returned(s.writers[i], Stored) || Returned(s.writers[i], Reused)) ==>
            Published(s) == Some(s0.writers[i].content))
      && (forall i :: 0 <= i < |s.writers| && Returned(s.writers[i], Failed(Collision)) ==>
            Published(s).Some? && Published(s).value != s0.writers[i].content)
      && (forall i :: 0 <= i < |s.writers| ==> !Returned(s.writers[i], Failed(Corruption)))
  {
    RunKeeps(sound, s0, schedule);
    var s := Run(sound, s0, schedule);
    forall i | 0 <= i < |s.writers| ensures WriterOk(s, s.writers[i]) {}
    forall i, j | 0 <= i < j < |s.writers| ensures !(Returned(s.writers[i], Stored) && Returned(s.writers[j], Stored)) {
      assert !(Publisher(s.writers[i]) && Publisher(s.writers[j]));
    }
    forall i | s0.target.Some? && 0 <= i < |s.writers| ensures !Returned(s.writers[i], Stored) {
      assert !Publisher(s.writers[i]);
    }
  }

  /** The k-th action is this reader opening the target while there is none. */
  predicate MissedAt(sound: Bytes -> bool, s0: State, schedule: seq<Action>, k: nat, r: nat)
    requires k < |schedule|
  {
    schedule[k].Get? && schedule[k].reader == r && Run(sound, s0, schedule[..k]).target.None?
  }

  lemma {:induction false} NotFoundWasAbsent(sound: Bytes -> bool, s0: State, schedule: seq<Action>, r: nat)
    requires Initial(s0) && r < |s0.readers|
    requires
      var s := Run(sound, s0, schedule);
      r < |s.readers| && s.readers[r] == GetDone(NotFound)
    ensures exists k :: 0 <= k < |schedule| && MissedAt(sound, s0, schedule, k, r)
  {
    assert s0.readers[r] in s0.readers;
    if schedule != [] {
      var n := |schedule| - 1;
      RunKeeps(sound, s0, schedule[..n]);
      var s := Run(sound, s0, schedule[..n]);
      if s.readers[r] == GetDone(NotFound) {
        NotFoundWasAbsent(sound, s0, schedule[..n], r);
        var k :| 0 <= k < n && MissedAt(sound, s0, schedule[..n], k, r);
        assert schedule[..n][..k] == schedule[..k];
        assert MissedAt(sound, s0, schedule, k, r);
      } else {
        ReaderMisses(sound, s, schedule[n], r);
        assert MissedAt(sound, s0, schedule, n, r);
      }
    }
  }

  lemma {:induction false} ReaderMisses(sound: Bytes -> bool, s: State, a: Action, r: nat)
    requires r < |s.readers| && s.readers[r] != GetDone(NotFound)
    requires r < |Next(sound, s, a).readers| && Next(sound, s, a).readers[r] == GetDone(NotFound)
    ensures a.Get? && a.reader == r && s.target.None?
  {
  }

  /**
    A concurrent `get` sees absence or the complete bytes: whatever it has read so far is
    a prefix of the published file, what it returns is all of it and has the digest in
    the key, what it refuses as corrupt is a published file that has not, and it reports
    absence only after opening a target that was not there.
   */
  lemma {:induction false} GetIsAllOrNothing(sound: Bytes -> bool, s0: State, schedule: seq<Action>, r: nat)
    requires Initial(s0) && r < |s0.readers|
    ensures
      var s := Run(sound, s0, schedule);
      && r < |s.readers|
      && (s.readers[r].GetStreaming? ==> Published(s).Some? && s.readers[r].got <= Published(s).value)
      && (s.readers[r].GetDone? && s.readers[r].result.Got? ==>
            Published(s) == Some(s.readers[r].result.content) && sound(s.readers[r].result.content))
      && (s.readers[r] == GetDone(Corrupt) ==> Published(s).Some? && !sound(Published(s).value))
      && (s.readers[r] == GetDone(NotFound) ==> exists k :: 0 <= k < |schedule| && MissedAt(sound, s0, schedule, k, r))
  {
    RunKeeps(sound, s0, schedule);
    var s := Run(sound, s0, schedule);
    assert ReaderOk(sound, s, s.readers[r]);
    if s.readers[r] == GetDone(NotFound) { NotFoundWasAbsent(sound, s0, schedule, r); }
  }

  // ---------------------------------------------------------------- when nothing fails

  /** No operating-system error in the schedule. */
  predicate FaultFree(schedule: seq<Action>) {
    forall a :: a in schedule ==> !a.move.Fault?
  }

  predicate OnePayload(s: State, content: Bytes) {
    forall i :: 0 <= i < |s.writers| ==> s.writers[i].content == content
  }

  predicate NeverFailed(w: Writer) { (w.pc.Cleaning? || w.pc.Done?) ==> !w.pc.outcome.Failed? }

  /** One payload, no faults so far, no target at the start. */
  ghost predicate Quiet(s: State, content: Bytes) {
    && OnePayload(s, content)
    && (forall i :: 0 <= i < |s.writers| ==> NeverFailed(s.writers[i]))
    && (s.target.Some? ==> exists i :: 0 <= i < |s.writers| && Publisher(s.writers[i]))
    && (forall f :: f in s.temps ==> f < |s.files| && exists i :: 0 <= i < |s.writers| && Held(s.writers[i]) == Some(f))
  }

  /** The temporary name is kept, made, or unlinked together with the writer's hold on it. */
  predicate TempMoved(s: State, i: nat, t: State)
    requires i < |s.writers| && i < |t.writers|
  {
    var before, after := Held(s.writers[i]), Held(t.writers[i]);
    || (t.temps == s.temps && after == before)
    || (before.None? && t.temps == s.temps + {|s.files|} && after == Some(|s.files|) && |t.files| == |s.files| + 1)
    || (before.Some? && t.temps == s.temps - {before.value})
  }

  /** In a quiet state the published file is complete with the common payload. */
  lemma {:induction false} QuietTarget(sound: Bytes -> bool, s0: State, s: State, content: Bytes)
    requires Inv(sound, s0, s) && Quiet(s, content) && s.target.Some?
    ensures s.target.value < |s.files| && s.files[s.target.value] == content
  {
    var j :| 0 <= j < |s.writers| && Publisher(s.writers[j]);
    assert WriterOk(s, s.writers[j]);
  }

  lemma {:induction false} QuietOwnMove(s: State, content: Bytes, i: nat, amount: nat)
    requires i < |s.writers| && s.writers[i].content == content && WriterOk(s, s.writers[i])
      && NeverFailed(s.writers[i])
    requires s.target.Some? ==> s.target.value < |s.files| && s.files[s.target.value] == content
    ensures
      var t := PutNext(s, i, Go(amount));
      && NeverFailed(t.writers[i]) && |s.files| <= |t.files|
      && (Publisher(s.writers[i]) ==> Publisher(t.writers[i]))
      && (t.target == s.target || Publisher(t.writers[i]))
      && TempMoved(s, i, t)
  {
  }

  lemma {:induction false} QuietStep(sound: Bytes -> bool, s0: State, s: State, content: Bytes, a: Action)
    requires Inv(sound, s0, s) && Quiet(s, content) && !a.move.Fault?
    ensures Quiet(Next(sound, s, a), content)
  {
    var t := Next(sound, s, a);
    if a.Put? && a.writer < |s.writers| {
      var i := a.writer;
      assert WriterOk(s, s.writers[i]) && NeverFailed(s.writers[i]);
      if s.target.Some? { QuietTarget(sound, s0, s, content); }
      QuietOwnMove(s, content, i, a.move.amount);
      OwnMove(s, i, a.move);
      assert OwnMoved(s, i, t);
      if t.target.Some? && !Publisher(t.writers[i]) {
        var j :| 0 <= j < |s.writers| && Publisher(s.writers[j]);
        assert Publisher(t.writers[j]);
      }
      forall f | f in t.temps
        ensures f < |t.files| && exists k :: 0 <= k < |t.writers| && Held(t.writers[k]) == Some(f)
      {
        if f in s.temps {
          var k :| 0 <= k < |s.writers| && Held(s.writers[k]) == Some(f);
          assert Held(t.writers[k]) == Some(f);
        } else {
          assert Held(t.writers[i]) == Some(f);
        }
      }
    }
  }

  lemma {:induction false} QuietRun(sound: Bytes -> bool, s0: State, content: Bytes, schedule: seq<Action>)
    requires Initial(s0) && s0.target.None? && OnePayload(s0, content) && FaultFree(schedule)
    ensures Quiet(Run(sound, s0, schedule), content)
  {
    if schedule == [] {
      forall i | 0 <= i < |s0.writers| ensures NeverFailed(s0.writers[i]) { assert s0.writers[i] in s0.writers; }
    } else {
      var before, last := schedule[..|schedule| - 1], schedule[|schedule| - 1];
      QuietRun(sound, s0, content, before);
      RunKeeps(sound, s0, before);
      assert last in schedule;
      QuietStep(sound, s0, Run(sound, s0, before), content, last);
    }
  }

  /**
    When every writer of one payload finishes and nothing fails, exactly one returns
    STORED, all the rest REUSED, and no temporary file is left behind.
   */
  lemma {:induction false} ExactlyOneStored(sound: Bytes -> bool, s0: State, content: Bytes, schedule: seq<Action>)
    returns (winner: nat)
    requires Initial(s0) && s0.target.None? && OnePayload(s0, content) && FaultFree(schedule) && s0.writers != []
    requires forall i :: 0 <= i < |Run(sound, s0, schedule).writers| ==> Run(sound, s0, schedule).writers[i].pc.Done?
    ensures
      var s := Run(sound, s0, schedule);
      && winner < |s.writers| && Returned(s.writers[winner], Stored)
      && (forall i :: 0 <= i < |s.writers| && i != winner ==> Returned(s.writers[i], Reused))
      && Published(s) == Some(content) && s.temps == {}
  {
    QuietRun(sound, s0, content, schedule);
    RunKeeps(sound, s0, schedule);
    PutIsSafe(sound, s0, schedule);
    var s := Run(sound, s0, schedule);
    assert NeverFailed(s.writers[0]) && WriterOk(s, s.writers[0]);
    assert s.target.Some?;
    winner :| 0 <= winner < |s.writers| && Publisher(s.writers[winner]);
    forall i | 0 <= i < |s.writers| && i != winner ensures Returned(s.writers[i], Reused) {
      assert NeverFailed(s.writers[i]);
      assert !Returned(s.writers[i], Stored);
    }
  }
}
