/** The level machine never deadlocks and never runs forever, whichever task is picked next. */
module Scheduler {
  import opened Merkle
  import opened LevelRun

  function Left(ph: Phase): nat {
    match ph
    case Ready => 4
    case Fetched(_, _, _, _) => 3
    case Stored(_, _, _, _, _) => 2
    case Recorded(_) => 1
    case _ => 0
  }

  function LeftIn(phases: seq<Phase>): nat {
    if phases == [] then 0 else LeftIn(phases[..|phases| - 1]) + Left(phases[|phases| - 1])
  }

  lemma {:induction false} LeftInUpdate(phases: seq<Phase>, p: nat, ph: Phase)
    requires p < |phases|
    ensures LeftIn(phases[p := ph]) == LeftIn(phases) - Left(phases[p]) + Left(ph)
    decreases |phases|
  {
    var n := |phases| - 1;
    var after := phases[p := ph];
    if p < n {
      assert after[..n] == phases[..n][p := ph];
      LeftInUpdate(phases[..n], p, ph);
    } else {
      assert after[..n] == phases[..n];
    }
  }

  /** Lock regions still to come. */
  function Work(lv: Level, s: State): nat {
    LeftIn(s.phases) + |Below(lv.tasks) - s.published|
  }

  /** Every lock region leaves less to do. */
  lemma StepDecreases(lv: Level, s: State, a: Action)
    requires Enabled(lv, s, a)
    ensures Work(lv, Step(lv, s, a)) < Work(lv, s)
  {
    match a
    case Advance(p) =>
      var ph := AdvanceLeft(lv, s, p);
      LeftInUpdate(s.phases, p, ph);
    case Publish(t) =>
      assert Below(lv.tasks) - (s.published + {t}) == Below(lv.tasks) - s.published - {t};
  }

  lemma AdvanceLeft(lv: Level, s: State, p: nat) returns (ph: Phase)
    requires Enabled(lv, s, Advance(p))
    ensures AdvanceStep(lv, s, p).phases == s.phases[p := ph] && Left(ph) < Left(s.phases[p])
    ensures AdvanceStep(lv, s, p).published == s.published
  {
    ph := AdvanceStep(lv, s, p).phases[p];
  }

  /** A schedule is never longer than the work it started with. */
  lemma {:induction false} SchedulesAreBounded(lv: Level, s: State, acts: seq<Action>)
    requires Schedule(lv, s, acts)
    ensures |acts| + Work(lv, Exec(lv, s, acts)) <= Work(lv, s)
    decreases |acts|
  {
    if acts != [] {
      StepDecreases(lv, s, acts[0]);
      SchedulesAreBounded(lv, Step(lv, s, acts[0]), acts[1..]);
    }
  }

  /** While some task has not returned, some lock region can be taken. */
  lemma SomethingIsEnabled(lv: Level, s: State) returns (a: Action)
    requires ValidLevel(lv) && |s.phases| == |lv.order| && !Complete(lv, s)
    ensures Enabled(lv, s, a)
  {
    if exists p :: 0 <= p < |s.phases| && !Finished(s.phases[p]) {
      var p := FirstUnfinished(s.phases, 0);
      a := Advance(p);
    } else {
      var t: nat :| t < lv.tasks && t !in s.published;
      a := Publish(t);
    }
  }

  lemma FirstUnfinished(phases: seq<Phase>, from: nat) returns (p: nat)
    requires exists q :: from <= q < |phases| && !Finished(phases[q])
    ensures from <= p < |phases| && !Finished(phases[p])
    ensures forall q :: from <= q < p ==> Finished(phases[q])
    decreases |phases| - from
  {
    if Finished(phases[from]) {
      p := FirstUnfinished(phases, from + 1);
    } else {
      p := from;
    }
  }

  /** Extending an interleaving by one enabled action. */
  lemma {:induction false} ScheduleExtends(lv: Level, s: State, acts: seq<Action>, a: Action)
    requires Schedule(lv, s, acts) && Enabled(lv, Exec(lv, s, acts), a)
    ensures Schedule(lv, s, acts + [a])
    ensures Exec(lv, s, acts + [a]) == Step(lv, Exec(lv, s, acts), a)
    decreases |acts|
  {
    if acts == [] {
      assert acts + [a] == [a];
      assert [a][1..] == [];
      assert Schedule(lv, Step(lv, s, a), []);
    } else {
      assert (acts + [a])[0] == acts[0] && (acts + [a])[1..] == acts[1..] + [a];
      ScheduleExtends(lv, Step(lv, s, acts[0]), acts[1..], a);
    }
  }

  lemma NothingRun(lv: Level, s: State)
    ensures Schedule(lv, s, []) && Exec(lv, s, []) == s
  {
  }

  lemma AdvanceIs(lv: Level, s: State, p: nat)
    requires Enabled(lv, s, Advance(p))
    ensures Step(lv, s, Advance(p)) == AdvanceStep(lv, s, p)
    ensures AdvanceStep(lv, s, p).next == s.next && AdvanceStep(lv, s, p).published == s.published
  {
  }

  lemma PublishIs(lv: Level, s: State, t: nat)
    requires Enabled(lv, s, Publish(t))
    ensures Step(lv, s, Publish(t)) ==
      s.(next := InsertResults(lv, s.phases, s.next, t, |lv.order|), published := s.published + {t})
  {
  }

  // ----- what the scheduler can see ---------------------------------------------------------------

  predicate AllReturned(phases: seq<Phase>, published: set<nat>, tasks: nat) {
    && (forall p :: 0 <= p < |phases| ==> Finished(phases[p]))
    && (forall t: nat :: 0 <= t < tasks ==> t in published)
  }

  predicate MayAdvance(lv: Level, phases: seq<Phase>, p: nat)
    requires p < |phases| == |lv.task|
  {
    !Finished(phases[p]) && forall q :: 0 <= q < p && lv.task[q] == lv.task[p] ==> Finished(phases[q])
  }

  predicate MayReturn(lv: Level, phases: seq<Phase>, t: nat)
    requires |phases| == |lv.task|
  {
    forall q :: 0 <= q < |lv.task| && lv.task[q] == t ==> Finished(phases[q])
  }

  /** Positions whose task has finished all its earlier positions. */
  function ReadyPositions(lv: Level, phases: seq<Phase>): (r: set<nat>)
    requires |phases| == |lv.order| == |lv.task|
    ensures forall p :: p in r <==> 0 <= p < |phases| && MayAdvance(lv, phases, p)
  {
    set p: nat | 0 <= p < |phases| && MayAdvance(lv, phases, p)
  }

  /** Tasks that have handled all their positions and have not published them. */
  function ReturningTasks(lv: Level, phases: seq<Phase>, published: set<nat>): (r: set<nat>)
    requires |phases| == |lv.order| == |lv.task|
    ensures forall t :: t in r <==> 0 <= t < lv.tasks && t !in published && MayReturn(lv, phases, t)
  {
    set t: nat | 0 <= t < lv.tasks && t !in published && MayReturn(lv, phases, t)
  }

  lemma SomethingIsReady(lv: Level, s: State)
    requires ValidLevel(lv) && |s.phases| == |lv.order| && !AllReturned(s.phases, s.published, lv.tasks)
    ensures ReadyPositions(lv, s.phases) != {} || ReturningTasks(lv, s.phases, s.published) != {}
  {
    var a := SomethingIsEnabled(lv, s);
    assert a.Advance? ==> a.p in ReadyPositions(lv, s.phases);
    assert a.Publish? ==> a.t in ReturningTasks(lv, s.phases, s.published);
  }
}
