/**
 The configuration watcher: file events arrive through a bounded channel that
 drops what does not fit, and a debounce loop turns bursts into reloads.

 File versions count the writes. Events may be delivered at any point of the
 loop, also between the last drain and the read of the file.
 */
module Watcher {
  const CHANNEL_CAPACITY: nat := 64

  /** Where the loop stands: waiting for an event, draining, asleep, draining
      again, about to read the file, or finishing the reload. */
  datatype Phase = Waiting | Draining | Asleep | DrainingAgain | Reading | Finishing

  /** `version` is the file's newest write, `notified` the newest one whose
      event was delivered, `loaded` the version the last read found, `loads` the
      number of reads. */
  datatype State = State(phase: Phase, queued: nat, version: nat, notified: nat, loaded: nat, loads: nat)

  datatype Step = Write | Deliver(upTo: nat) | Own

  predicate Quiet(s: State) { s.phase.Waiting? && s.queued == 0 }

  /** An event follows the write it tells of; the loop only blocks in `recv`. */
  predicate Enabled(s: State, step: Step) {
    match step
    case Write => true
    case Deliver(upTo) => upTo <= s.version
    case Own => !Quiet(s)
  }

  function Next(s: State, step: Step): State
    requires Enabled(s, step)
  {
    match step
    case Write => s.(version := s.version + 1)
    case Deliver(upTo) =>
      s.(queued := if s.queued < CHANNEL_CAPACITY then s.queued + 1 else s.queued,
         notified := if upTo > s.notified then upTo else s.notified)
    case Own => OwnStep(s)
  }

  function OwnStep(s: State): State
    requires !Quiet(s)
  {
    match s.phase
    case Waiting => s.(phase := Draining, queued := s.queued - 1)
    case Draining => if s.queued > 0 then s.(queued := s.queued - 1) else s.(phase := Asleep)
    case Asleep => s.(phase := DrainingAgain)
    case DrainingAgain => if s.queued > 0 then s.(queued := s.queued - 1) else s.(phase := Reading)
    case Reading => s.(phase := Finishing, loaded := s.version, loads := s.loads + 1)
    case Finishing => s.(phase := Waiting)
  }

  /** The channel and the loop's position, changed in place. */
  class Loop {
    var phase: Phase
    var queued: nat
    ghost var version: nat
    ghost var notified: nat
    var loaded: nat
    ghost var loads: nat

    ghost function Now(): State reads this {
      State(phase, queued, version, notified, loaded, loads)
    }

    constructor (version: nat)
      ensures Now() == State(Waiting, 0, version, 0, 0, 0)
    {
      phase, queued, loaded := Waiting, 0, 0;
      this.version, notified, loads := version, 0, 0;
    }

    /** The notification callback: `try_send`, its result ignored. */
    method Notify(ghost upTo: nat)
      requires upTo <= version
      modifies this`queued, this`notified
      ensures Now() == Next(old(Now()), Deliver(upTo))
    {
      if queued < CHANNEL_CAPACITY { queued := queued + 1; }
      if upTo > notified { notified := upTo; }
    }

    method TryRecv() returns (ok: bool)
      modifies this`queued
      ensures ok == (old(queued) > 0) && queued == if ok then old(queued) - 1 else old(queued)
    {
      ok := queued > 0;
      if ok { queued := queued - 1; }
    }

    /** The loop up to its next await or receive; `contents` is the version a
        read of the file would find now. */
    method Advance(contents: nat)
      requires !Quiet(Now()) && contents == version
      modifies this
      ensures Now() == Next(old(Now()), Own)
    {
      match phase {
        case Waiting =>
          var _ := TryRecv();
          phase := Draining;
        case Draining =>
          var more := TryRecv();
          if !more { phase := Asleep; }
        case Asleep => phase := DrainingAgain;
        case DrainingAgain =>
          var more := TryRecv();
          if !more { phase := Reading; }
        case Reading =>
          loaded := contents;
          loads := loads + 1;
          phase := Finishing;
        case Finishing => phase := Waiting;
      }
    }
  }

  // ---------- Runs ----------

  ghost predicate Initial(s: State) {
    Quiet(s) && s.notified == 0 && s.loads == 0
  }

  ghost predicate Follows(s: State, step: Step, t: State) {
    Enabled(s, step) && t == Next(s, step)
  }

  ghost predicate IsRun(run: seq<State>, steps: seq<Step>) {
    && |run| == |steps| + 1
    && forall i {:trigger steps[i]} | 0 <= i < |steps| :: Follows(run[i], steps[i], run[i + 1])
  }

  /** Unless a read is still to come, what was notified has been read or an
      event is waiting. */
  ghost predicate Inv(s: State) {
    && s.notified <= s.version && s.loaded <= s.version && s.queued <= CHANNEL_CAPACITY
    && (s.phase.Waiting? || s.phase.Finishing? ==> s.queued > 0 || s.loaded >= s.notified)
  }

  lemma {:induction false} RunKeepsInv(run: seq<State>, steps: seq<Step>, i: nat)
    requires IsRun(run, steps) && Inv(run[0]) && i < |run|
    ensures Inv(run[i])
  {
    if i > 0 {
      RunKeepsInv(run, steps, i - 1);
      assert Follows(run[i - 1], steps[i - 1], run[i]);
    }
  }

  /** No write is lost: whenever the loop waits on an empty channel, the file was
      read after every write an event was delivered for, whatever was dropped. */
  lemma {:induction false} NoWriteIsLost(run: seq<State>, steps: seq<Step>, i: nat)
    requires IsRun(run, steps) && Initial(run[0]) && run[0].loaded <= run[0].version && i < |run|
    requires Quiet(run[i])
    ensures run[i].loaded >= run[i].notified
    ensures run[i].notified == run[i].version ==> run[i].loaded == run[i].version
  {
    RunKeepsInv(run, steps, i);
  }

  // ---------- Progress ----------

  /** Own steps left before the loop waits on an empty channel. */
  function Remaining(s: State): nat {
    match s.phase
    case Waiting => if s.queued == 0 then 0 else s.queued + 5
    case Draining => s.queued + 5
    case Asleep => s.queued + 4
    case DrainingAgain => s.queued + 3
    case Reading => if s.queued == 0 then 2 else s.queued + 7
    case Finishing => if s.queued == 0 then 1 else s.queued + 6
  }

  /** The loop running `n` steps of its own with nothing else happening. */
  function Alone(s: State, n: nat): State
    decreases n
  {
    if n == 0 || Quiet(s) then s else Alone(OwnStep(s), n - 1)
  }

  /** Once events stop, the loop is quiet after at most 71 steps of its own and
      has then read everything it was told of. */
  lemma {:induction false} SettlesAlone(s: State)
    requires Inv(s)
    ensures Remaining(s) <= CHANNEL_CAPACITY + 7
    ensures var t := Alone(s, Remaining(s));
            Quiet(t) && t.loaded >= s.notified && t.version == s.version
    ensures forall n: nat | n < Remaining(s) :: !Quiet(Alone(s, n))
    decreases Remaining(s)
  {
    if Remaining(s) > 0 {
      var u := OwnStep(s);
      assert Remaining(u) == Remaining(s) - 1;
      SettlesAlone(u);
      forall n: nat | n < Remaining(s) ensures !Quiet(Alone(s, n)) {
        if n > 0 { assert !Quiet(Alone(u, n - 1)); }
      }
    }
  }

  // ---------- Debounce ----------

  predicate BeforeRead(s: State) {
    s.phase.Waiting? || s.phase.Draining? || s.phase.Asleep? || s.phase.DrainingAgain?
  }

  /** Every event of the segment arrives before its first read is due. */
  ghost predicate IsBurst(run: seq<State>, steps: seq<Step>)
    requires IsRun(run, steps)
  {
    forall i {:trigger steps[i]} | 0 <= i < |steps| && steps[i].Deliver? ::
      BeforeRead(run[i]) && run[i].loads == run[0].loads
  }

  /** How far a burst has come: `told` says whether an event has arrived. */
  ghost predicate Progress(s: State, loads: nat, told: bool) {
    if !told then Quiet(s) && s.loads == loads
    else if s.loads == loads then !Quiet(s) && !s.phase.Finishing? && (s.phase.Reading? ==> s.queued == 0)
    else s.loads == loads + 1 && (Quiet(s) || s.phase.Finishing?) && s.queued == 0
  }

  ghost predicate Told(steps: seq<Step>) {
    exists i | 0 <= i < |steps| :: steps[i].Deliver?
  }

  lemma {:induction false} BurstProgress(run: seq<State>, steps: seq<Step>, i: nat)
    requires IsRun(run, steps) && IsBurst(run, steps) && Quiet(run[0]) && i < |run|
    ensures Progress(run[i], run[0].loads, Told(steps[..i]))
  {
    if i > 0 {
      BurstProgress(run, steps, i - 1);
      assert Follows(run[i - 1], steps[i - 1], run[i]);
      assert steps[..i] == steps[..i - 1] + [steps[i - 1]];
      assert Told(steps[..i]) == (Told(steps[..i - 1]) || steps[i - 1].Deliver?) by {
        if steps[i - 1].Deliver? { assert steps[..i][i - 1].Deliver?; }
        if Told(steps[..i - 1]) {
          var j :| 0 <= j < i - 1 && steps[..i - 1][j].Deliver?;
          assert steps[..i][j].Deliver?;
        }
        if Told(steps[..i]) && !steps[i - 1].Deliver? {
          var j :| 0 <= j < i && steps[..i][j].Deliver?;
          assert steps[..i - 1][j].Deliver?;
        }
      }
    }
  }

  /** A burst of any number of events causes exactly one read of the file. */
  lemma {:induction false} OneReloadPerBurst(run: seq<State>, steps: seq<Step>)
    requires IsRun(run, steps) && IsBurst(run, steps)
    requires Quiet(run[0]) && Quiet(run[|steps|])
    ensures run[|steps|].loads == run[0].loads + if Told(steps) then 1 else 0
  {
    BurstProgress(run, steps, |steps|);
    assert steps[..|steps|] == steps;
  }

  // ---------- How many reloads ----------

  /** Reads the loop still owes for events it has taken or will find queued. */
  function Due(s: State): nat {
    var next := if s.queued > 0 then 1 else 0;
    match s.phase
    case Waiting => next
    case Draining => 1
    case Asleep => 1
    case DrainingAgain => 1
    case Reading => 1 + next
    case Finishing => next
  }

  /** An event that will need a read of its own: it finds nothing queued, and the
      loop idle or already past its drains. */
  predicate Sparks(s: State, step: Step) {
    step.Deliver? && s.queued == 0 && (s.phase.Waiting? || s.phase.Reading? || s.phase.Finishing?)
  }

  ghost function SparkCount(run: seq<State>, steps: seq<Step>, i: nat): nat
    requires |run| == |steps| + 1 && i <= |steps|
  {
    if i == 0 then 0 else SparkCount(run, steps, i - 1) + if Sparks(run[i - 1], steps[i - 1]) then 1 else 0
  }

  lemma {:induction false} ReadsAreSparked(run: seq<State>, steps: seq<Step>, i: nat)
    requires IsRun(run, steps) && i <= |steps|
    ensures run[i].loads + Due(run[i]) == run[0].loads + Due(run[0]) + SparkCount(run, steps, i)
  {
    if i > 0 {
      ReadsAreSparked(run, steps, i - 1);
      assert Follows(run[i - 1], steps[i - 1], run[i]);
    }
  }

  /** Between two quiet states the file is read once for every event that found
      nothing queued and the loop idle or past its drains; so exactly once if and
      only if there was exactly one such event, however many others there were. */
  lemma {:induction false} ReloadsExactly(run: seq<State>, steps: seq<Step>)
    requires IsRun(run, steps) && Quiet(run[0]) && Quiet(run[|steps|])
    ensures run[|steps|].loads == run[0].loads + SparkCount(run, steps, |steps|)
    ensures run[|steps|].loads == run[0].loads + 1 <==> SparkCount(run, steps, |steps|) == 1
  {
    ReadsAreSparked(run, steps, |steps|);
  }

  /** Two events, the second one after the drains: two reloads. */
  lemma {:induction false} LateEventReloadsAgain() returns (run: seq<State>, steps: seq<Step>)
    ensures IsRun(run, steps) && Initial(run[0]) && Quiet(run[|steps|])
    ensures |steps| == 14 && (forall i | 0 <= i < |steps| :: steps[i].Deliver? <==> i == 0 || i == 5)
    ensures run[|steps|].loads == run[0].loads + 2
  {
    steps := [Deliver(0), Own, Own, Own, Own, Deliver(0), Own, Own, Own, Own, Own, Own, Own, Own];
    run := [State(Waiting, 0, 0, 0, 0, 0), State(Waiting, 1, 0, 0, 0, 0),
            State(Draining, 0, 0, 0, 0, 0), State(Asleep, 0, 0, 0, 0, 0), State(DrainingAgain, 0, 0, 0, 0, 0),
            State(Reading, 0, 0, 0, 0, 0), State(Reading, 1, 0, 0, 0, 0), State(Finishing, 1, 0, 0, 0, 1),
            State(Waiting, 1, 0, 0, 0, 1), State(Draining, 0, 0, 0, 0, 1), State(Asleep, 0, 0, 0, 0, 1),
            State(DrainingAgain, 0, 0, 0, 0, 1), State(Reading, 0, 0, 0, 0, 1), State(Finishing, 0, 0, 0, 0, 2),
            State(Waiting, 0, 0, 0, 0, 2)];
  }
}
