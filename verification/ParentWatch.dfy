/** The watch over the parent process: announcements from the app, a grace window while it restarts,
    and a polling task that ends the daemon when the parent is gone. */
module ParentWatch {
  import opened Bytes

  const NANOS: nat := 1_000_000_000

  /** The clock of a Unix system counts seconds in 64 bits, one of them for the sign. */
  const CLOCK_END: nat := 0x8000_0000_0000_0000 * NANOS

  /** A moment, in nanoseconds. */
  type Instant = t: int | 0 <= t < CLOCK_END

  /** A grace in seconds, as it comes from the wire. */
  type Seconds = g: int | 0 <= g < U64

  /** Whether `Instant::now() + Duration::from_secs(g)` panics. */
  predicate Overflows(now: Instant, grace: Option<Seconds>) {
    grace.Some? && now + grace.value * NANOS >= CLOCK_END
  }

  datatype Watch = Watch(pid: Option<nat>, lastKnown: Option<nat>, graceUntil: Option<Instant>)

  /** An announcement. When its deadline overflows the clock, the request dies after it has stored the
      pid, and the deadline of an earlier announcement stays. */
  function AfterSet(w: Watch, pid: Option<nat>, grace: Option<Seconds>, now: Instant): Watch {
    Watch(pid,
          if pid.Some? then pid else w.lastKnown,
          if Overflows(now, grace) then w.graceUntil
          else if grace.Some? then Some(now + grace.value * NANOS) else None)
  }

  /** The locked part of a tick; the pid it leaves is the one that is probed. */
  function AfterSample(w: Watch, now: Instant): Watch {
    if w.graceUntil.Some? && now >= w.graceUntil.value
    then w.(graceUntil := None, pid := if w.pid.None? then w.lastKnown else w.pid)
    else w
  }

  datatype Answer = Watching(pid: Option<nat>) | Panic

  class ParentWatchState {
    var pid: Option<nat>
    var lastKnownPid: Option<nat>
    var graceUntil: Option<Instant>

    function View(): Watch
      reads this
    {
      Watch(pid, lastKnownPid, graceUntil)
    }

    constructor (initial: Option<nat>)
      ensures View() == Watch(initial, initial, None)
    {
      pid, lastKnownPid, graceUntil := initial, initial, None;
    }

    /** The `SetParentWatch` request. */
    method SetParentWatch(newPid: Option<nat>, graceSecs: Option<Seconds>, now: Instant) returns (answer: Answer)
      modifies this
      ensures View() == AfterSet(old(View()), newPid, graceSecs, now)
      ensures pid == newPid && lastKnownPid == if newPid.Some? then newPid else old(lastKnownPid)
      ensures graceSecs.None? ==> graceUntil == None && answer == Watching(newPid)
      ensures graceSecs.Some? ==>
        var deadline := now + graceSecs.value * 1_000_000_000;
        if deadline >= 0x8000_0000_0000_0000 * 1_000_000_000 then graceUntil == old(graceUntil) && answer == Panic
        else graceUntil == Some(deadline) && answer == Watching(newPid)
    {
      pid := newPid;
      if newPid.Some? {
        lastKnownPid := newPid;
      }
      if graceSecs.Some? {
        var deadline := now + graceSecs.value * NANOS;
        if deadline >= CLOCK_END {
          return Panic;
        }
        graceUntil := Some(deadline);
      } else {
        graceUntil := None;
      }
      answer := Watching(pid);
    }

    /** The locked part of a tick of the polling task. */
    method Sample(now: Instant) returns (pidToCheck: Option<nat>)
      modifies this
      ensures View() == AfterSample(old(View()), now)
      ensures var due := old(graceUntil).Some? && now >= old(graceUntil).value;
        && pid == (if due && old(pid).None? then old(lastKnownPid) else old(pid))
        && graceUntil == (if due then None else old(graceUntil)) && lastKnownPid == old(lastKnownPid)
      ensures pidToCheck == pid
    {
      if graceUntil.Some? && now >= graceUntil.value {
        graceUntil := None;
        if pid.None? {
          pid := lastKnownPid;
        }
      }
      pidToCheck := pid;
    }
  }

  // ---------------------------------------------------------------- runs

  /** The polling task sleeps, or holds a pid that it has sampled and not yet probed, or has begun to
      shut the daemon down. */
  datatype Phase = Sleeping | Probing(pid: nat) | Exiting(pid: nat)

  datatype World = World(watch: Watch, phase: Phase)

  datatype Step =
    | Announce(pid: Option<nat>, grace: Option<Seconds>, now: Instant)
    | Sample(now: Instant)
    | Probe(alive: bool)

  predicate Enabled(w: World, step: Step) {
    match step
    case Announce(_, _, _) => !w.phase.Exiting?
    case Sample(_) => w.phase.Sleeping?
    case Probe(_) => w.phase.Probing?
  }

  function Next(w: World, step: Step): World
    requires Enabled(w, step)
  {
    match step
    case Announce(pid, grace, now) => w.(watch := AfterSet(w.watch, pid, grace, now))
    case Sample(now) =>
      var watch := AfterSample(w.watch, now);
      World(watch, if watch.pid.Some? then Probing(watch.pid.value) else Sleeping)
    case Probe(alive) => w.(phase := if alive then Sleeping else Exiting(w.phase.pid))
  }

  /** The time of the last step that reads the clock. */
  function Clock(steps: seq<Step>): Instant {
    if steps == [] then 0
    else
      var last := steps[|steps| - 1];
      if last.Probe? then Clock(steps[..|steps| - 1]) else last.now
  }

  /** A run of the daemon: every step is possible where it happens, and time does not go backwards. */
  ghost predicate IsRun(initial: Option<nat>, steps: seq<Step>) {
    steps == [] ||
    (var before, last := steps[..|steps| - 1], steps[|steps| - 1];
     && IsRun(initial, before)
     && Enabled(After(initial, before), last)
     && (last.Probe? || Clock(before) <= last.now))
  }

  ghost function After(initial: Option<nat>, steps: seq<Step>): World {
    if steps == [] then World(Watch(initial, initial, None), Sleeping)
    else
      var w := After(initial, steps[..|steps| - 1]);
      if Enabled(w, steps[|steps| - 1]) then Next(w, steps[|steps| - 1]) else w
  }

  // ---------------------------------------------------------------- what was announced

  /** The last announcement; the initial pid counts as one. */
  function LastAnnouncement(initial: Option<nat>, steps: seq<Step>): (a: Step)
    ensures a.Announce?
  {
    if steps == [] then Announce(initial, None, 0)
    else if steps[|steps| - 1].Announce? then steps[|steps| - 1]
    else LastAnnouncement(initial, steps[..|steps| - 1])
  }

  /** The last process that was announced by its pid. */
  function LastNamed(initial: Option<nat>, steps: seq<Step>): Option<nat> {
    if steps == [] then initial
    else
      var last := steps[|steps| - 1];
      if last.Announce? && last.pid.Some? then last.pid
      else LastNamed(initial, steps[..|steps| - 1])
  }

  /** The pid to watch at time `now`, from the announcements alone: the announced pid; nothing while a
      pause lasts; the last named process once its grace is over. */
  function Expected(initial: Option<nat>, steps: seq<Step>, now: Instant): Option<nat> {
    var a := LastAnnouncement(initial, steps);
    if a.pid.Some? then a.pid
    else if a.grace.Some? && now >= a.now + a.grace.value * NANOS then LastNamed(initial, steps)
    else None
  }

  /** The deadline that no tick has reached and no announcement has replaced. */
  function Waiting(initial: Option<nat>, steps: seq<Step>): Option<Instant> {
    if steps == [] then None
    else
      var waiting, last := Waiting(initial, steps[..|steps| - 1]), steps[|steps| - 1];
      match last
      case Announce(_, grace, now) =>
        if Overflows(now, grace) then waiting
        else if grace.Some? then Some(now + grace.value * NANOS) else None
      case Sample(now) => if waiting.Some? && now >= waiting.value then None else waiting
      case Probe(_) => waiting
  }

  /** The deadline that the last announcement should have replaced, when it overflowed. */
  function Leftover(initial: Option<nat>, steps: seq<Step>): Option<Instant> {
    if steps == [] then None
    else
      var before, last := steps[..|steps| - 1], steps[|steps| - 1];
      if !last.Announce? then Leftover(initial, before)
      else if Overflows(last.now, last.grace) then Waiting(initial, before)
      else None
  }

  /** At time `now` the last announcement is a pause that overflowed, and a deadline that it left
      behind is due. */
  predicate Stale(initial: Option<nat>, steps: seq<Step>, now: Instant) {
    && LastAnnouncement(initial, steps).pid.None?
    && Leftover(initial, steps).Some? && now >= Leftover(initial, steps).value
  }

  /** The pid that a tick at time `now` probes. */
  function Watched(initial: Option<nat>, steps: seq<Step>, now: Instant): Option<nat> {
    if Stale(initial, steps, now) then LastNamed(initial, steps) else Expected(initial, steps, now)
  }

  /** The deadline of the pause in force: its own, or the one it left behind. */
  function PauseDeadline(initial: Option<nat>, steps: seq<Step>): Option<Instant> {
    var a := LastAnnouncement(initial, steps);
    if Overflows(a.now, a.grace) then Leftover(initial, steps)
    else if a.grace.Some? then Some(a.now + a.grace.value * NANOS) else None
  }

  /** What holds after every run. */
  ghost predicate Tracks(initial: Option<nat>, steps: seq<Step>) {
    var w := After(initial, steps).watch;
    var a := LastAnnouncement(initial, steps);
    var deadline := PauseDeadline(initial, steps);
    && w.lastKnown == LastNamed(initial, steps)
    && w.graceUntil == Waiting(initial, steps)
    && (a.pid.Some? ==> w.pid == a.pid)
    && (a.pid.None? ==>
          || (w.pid == None && w.graceUntil == deadline)
          || (w.pid == w.lastKnown && w.graceUntil == None && deadline.Some? && deadline.value <= Clock(steps)))
  }

  lemma AnnounceTracks(initial: Option<nat>, steps: seq<Step>)
    requires steps != [] && steps[|steps| - 1].Announce? && IsRun(initial, steps)
    requires Tracks(initial, steps[..|steps| - 1])
    ensures Tracks(initial, steps)
  {
  }

  lemma SampleTracks(initial: Option<nat>, steps: seq<Step>)
    requires steps != [] && steps[|steps| - 1].Sample? && IsRun(initial, steps)
    requires Tracks(initial, steps[..|steps| - 1])
    ensures Tracks(initial, steps)
  {
  }

  lemma ProbeTracks(initial: Option<nat>, steps: seq<Step>)
    requires steps != [] && steps[|steps| - 1].Probe? && IsRun(initial, steps)
    requires Tracks(initial, steps[..|steps| - 1])
    ensures Tracks(initial, steps)
  {
  }

  lemma {:induction false} RunTracks(initial: Option<nat>, steps: seq<Step>)
    requires IsRun(initial, steps)
    ensures Tracks(initial, steps)
  {
    if steps != [] {
      RunTracks(initial, steps[..|steps| - 1]);
      match steps[|steps| - 1]
      case Announce(_, _, _) => AnnounceTracks(initial, steps);
      case Sample(_) => SampleTracks(initial, steps);
      case Probe(_) => ProbeTracks(initial, steps);
    }
  }

  lemma {:induction false} LeftoverByOverflow(initial: Option<nat>, steps: seq<Step>)
    ensures var a := LastAnnouncement(initial, steps);
      Leftover(initial, steps).Some? ==> Overflows(a.now, a.grace)
  {
    if steps != [] {
      LeftoverByOverflow(initial, steps[..|steps| - 1]);
    }
  }

  lemma SampleSeesWatched(initial: Option<nat>, steps: seq<Step>, now: Instant)
    requires IsRun(initial, steps + [Sample(now)])
    ensures var w := After(initial, steps + [Sample(now)]);
      && w.watch.pid == Watched(initial, steps, now)
      && w.phase == (if w.watch.pid.Some? then Probing(w.watch.pid.value) else Sleeping)
  {
    assert (steps + [Sample(now)])[..|steps|] == steps;
    RunTracks(initial, steps);
    LeftoverByOverflow(initial, steps);
  }

  /** A tick probes the process that the announcements say should be watched, if and only if no stale
      deadline resumes a process that they say should not be. */
  lemma SampleMatchesAnnouncements(initial: Option<nat>, steps: seq<Step>, now: Instant)
    requires IsRun(initial, steps + [Sample(now)])
    ensures After(initial, steps + [Sample(now)]).watch.pid == Expected(initial, steps, now) <==>
      !(Stale(initial, steps, now) && LastNamed(initial, steps).Some?)
    ensures After(initial, steps + [Sample(now)]).watch.pid in {Expected(initial, steps, now), LastNamed(initial, steps)}
  {
    SampleSeesWatched(initial, steps, now);
    LeftoverByOverflow(initial, steps);
  }

  /** In particular, always when the last announcement fits the clock. */
  lemma SampleWithoutOverflow(initial: Option<nat>, steps: seq<Step>, now: Instant)
    requires IsRun(initial, steps + [Sample(now)])
    requires var a := LastAnnouncement(initial, steps); !Overflows(a.now, a.grace)
    ensures After(initial, steps + [Sample(now)]).watch.pid == Expected(initial, steps, now)
  {
    SampleSeesWatched(initial, steps, now);
    LeftoverByOverflow(initial, steps);
  }

  /** Such a run: a pause of one minute, then one that overflows the clock. A tick after the first
      deadline probes the parent, although the last announcement said not to. */
  lemma StaleDeadlineExample()
    ensures var steps := [Announce(None, Some(60), 0), Announce(None, Some(U64 - 1), 10 * NANOS)];
      var now := 70 * NANOS;
      && IsRun(Some(7), steps + [Sample(now)])
      && After(Some(7), steps + [Sample(now)]).phase == Probing(7)
      && Expected(Some(7), steps, now) == None
  {
    var pause, overflow, tick := Announce(None, Some(60), 0), Announce(None, Some(U64 - 1), 10 * NANOS), Sample(70 * NANOS);
    Extend(Some(7), [], pause);
    assert [] + [pause] == [pause] && [pause] + [overflow] == [pause, overflow];
    Extend(Some(7), [pause], overflow);
    Extend(Some(7), [pause, overflow], tick);
  }

  lemma Extend(initial: Option<nat>, steps: seq<Step>, step: Step)
    requires IsRun(initial, steps) && Enabled(After(initial, steps), step)
    requires step.Probe? || Clock(steps) <= step.now
    ensures IsRun(initial, steps + [step])
    ensures After(initial, steps + [step]) == Next(After(initial, steps), step)
    ensures step.Announce? ==> Clock(steps + [step]) == step.now
  {
    assert (steps + [step])[..|steps|] == steps;
  }

  /** A watched process is always the last one that was announced. */
  lemma WatchedWasNamed(initial: Option<nat>, steps: seq<Step>)
    requires IsRun(initial, steps)
    requires After(initial, steps).watch.pid.Some?
    ensures After(initial, steps).watch.pid == LastNamed(initial, steps)
  {
    RunTracks(initial, steps);
    AnnouncedIsNamed(initial, steps);
  }

  lemma {:induction false} AnnouncedIsNamed(initial: Option<nat>, steps: seq<Step>)
    ensures var a := LastAnnouncement(initial, steps);
      a.pid.Some? ==> LastNamed(initial, steps) == a.pid
  {
    if steps != [] {
      AnnouncedIsNamed(initial, steps[..|steps| - 1]);
    }
  }

  ghost predicate NoAnnouncement(steps: seq<Step>) {
    forall i :: 0 <= i < |steps| ==> !steps[i].Announce?
  }

  lemma {:induction false} QuietSuffix(initial: Option<nat>, steps: seq<Step>, quiet: seq<Step>)
    requires NoAnnouncement(quiet)
    ensures LastAnnouncement(initial, steps + quiet) == LastAnnouncement(initial, steps)
    ensures LastNamed(initial, steps + quiet) == LastNamed(initial, steps)
    ensures Leftover(initial, steps + quiet) == Leftover(initial, steps)
    decreases |quiet|
  {
    if quiet == [] {
      assert steps + quiet == steps;
    } else {
      var n := |quiet| - 1;
      InitConcat(steps, quiet);
      QuietSuffix(initial, steps, quiet[..n]);
    }
  }

  /** The grace window. After a pause of `grace` announced at `at` that no announcement replaces, a
      tick before the deadline probes nothing, and the first tick at or after it probes the last
      named process at once. When the deadline overflows the clock, the one that was waiting before
      the announcement takes its place. */
  lemma GraceWindow(initial: Option<nat>, before: seq<Step>, at: Instant, grace: Seconds, quiet: seq<Step>, now: Instant)
    requires IsRun(initial, before + [Announce(None, Some(grace), at)] + quiet + [Sample(now)])
    requires NoAnnouncement(quiet)
    ensures var w := After(initial, before + [Announce(None, Some(grace), at)] + quiet + [Sample(now)]);
      var parent := LastNamed(initial, before);
      var waiting := Waiting(initial, before);
      var deadline := at + grace * 1_000_000_000;
      var over := if deadline >= 0x8000_0000_0000_0000 * 1_000_000_000 then waiting.Some? && now >= waiting.value
                  else now >= deadline;
      w.phase == if over && parent.Some? then Probing(parent.value) else Sleeping
  {
    var pause := before + [Announce(None, Some(grace), at)];
    assert pause[..|before|] == before;
    QuietSuffix(initial, pause, quiet);
    SampleSeesWatched(initial, pause + quiet, now);
  }

  /** Without a grace the pause has no end. */
  lemma PauseWithoutGrace(initial: Option<nat>, before: seq<Step>, at: Instant, quiet: seq<Step>, now: Instant)
    requires IsRun(initial, before + [Announce(None, None, at)] + quiet + [Sample(now)])
    requires NoAnnouncement(quiet)
    ensures After(initial, before + [Announce(None, None, at)] + quiet + [Sample(now)]).phase == Sleeping
  {
    var pause := before + [Announce(None, None, at)];
    assert pause[..|before|] == before;
    QuietSuffix(initial, pause, quiet);
    SampleSeesWatched(initial, pause + quiet, now);
  }

  // ---------------------------------------------------------------- the end of the daemon

  ghost predicate OnlyAnnouncements(steps: seq<Step>) {
    forall i :: 0 <= i < |steps| ==> steps[i].Announce?
  }

  lemma AnnouncementsSnoc(steps: seq<Step>, step: Step)
    requires OnlyAnnouncements(steps) && step.Announce?
    ensures OnlyAnnouncements(steps + [step])
  {
  }

  /** The sample that a probe in progress goes back to. */
  lemma {:induction false} ProbeGoesBack(initial: Option<nat>, steps: seq<Step>) returns (i: nat)
    requires IsRun(initial, steps) && After(initial, steps).phase.Probing?
    ensures i < |steps| && steps[i].Sample? && OnlyAnnouncements(steps[i + 1..])
    ensures Watched(initial, steps[..i], steps[i].now) == Some(After(initial, steps).phase.pid)
  {
    var n := |steps| - 1;
    var last := steps[n];
    if last.Sample? {
      i := n;
      assert steps == steps[..n] + [Sample(last.now)];
      SampleSeesWatched(initial, steps[..n], last.now);
    } else {
      i := ProbeGoesBack(initial, steps[..n]);
      TakeTake(steps, n, i);
      DropLast(steps, i + 1);
      AnnouncementsSnoc(steps[..n][i + 1..], last);
    }
  }

  /** The daemon ends only on a process that was sampled when it was the one to watch, and
      that the probe of this same tick found dead. */
  lemma ExitIsJustified(initial: Option<nat>, steps: seq<Step>) returns (i: nat)
    requires IsRun(initial, steps) && After(initial, steps).phase.Exiting?
    ensures i + 1 < |steps| && steps[i].Sample? && steps[|steps| - 1] == Probe(false)
    ensures OnlyAnnouncements(steps[i + 1..|steps| - 1])
    ensures Watched(initial, steps[..i], steps[i].now) == Some(After(initial, steps).phase.pid)
  {
    var n := |steps| - 1;
    i := ProbeGoesBack(initial, steps[..n]);
    assert steps[..n][..i] == steps[..i];
    assert steps[..n][i + 1..] == steps[i + 1..n];
  }

  /** The lock is released between sample and probe, so an announcement can slip in between. The
      daemon therefore ends while paused exactly when the last announcement that did is a pause. */
  lemma {:induction false} ExitWhilePausedIff(initial: Option<nat>, before: seq<Step>, now: Instant, between: seq<Step>)
    requires IsRun(initial, before + [Sample(now)] + between + [Probe(false)])
    requires OnlyAnnouncements(between)
    ensures var w := After(initial, before + [Sample(now)] + between + [Probe(false)]);
      && w.phase.Exiting?
      && (w.watch.pid.None? <==> between != [] && between[|between| - 1].pid.None?)
  {
    var sampled := before + [Sample(now)];
    var all := sampled + between + [Probe(false)];
    assert all[..|all| - 1] == sampled + between;
    RunPrefix(initial, sampled, between);
    assert sampled[..|before|] == before;
    AnnouncementsOnly(initial, sampled, between);
  }

  /** Such a run: the parent 7 is sampled, the app announces its restart, the old parent is found dead. */
  lemma PauseRaceExample()
    ensures var steps := [Sample(2), Announce(None, Some(60), 3), Probe(false)];
      var w := After(Some(7), steps);
      IsRun(Some(7), steps) && w.phase == Exiting(7) && w.watch.pid == None
  {
    var one, two: seq<Step> := [Sample(2)], [Sample(2), Announce(None, Some(60), 3)];
    var three := [Sample(2), Announce(None, Some(60), 3), Probe(false)];
    assert three[..2] == two && two[..1] == one && one[..0] == [];
  }

  lemma {:induction false} RunPrefix(initial: Option<nat>, a: seq<Step>, b: seq<Step>)
    requires IsRun(initial, a + b)
    ensures IsRun(initial, a)
    decreases |b|
  {
    if b == [] {
      assert a + b == a;
    } else {
      InitConcat(a, b);
      RunPrefix(initial, a, b[..|b| - 1]);
    }
  }

  lemma {:induction false} AnnouncementsOnly(initial: Option<nat>, a: seq<Step>, b: seq<Step>)
    requires IsRun(initial, a + b) && OnlyAnnouncements(b)
    ensures After(initial, a + b).phase == After(initial, a).phase
    ensures After(initial, a + b).watch.pid ==
      if b == [] then After(initial, a).watch.pid else b[|b| - 1].pid
    decreases |b|
  {
    if b == [] {
      assert a + b == a;
    } else {
      InitConcat(a, b);
      AnnouncementsOnly(initial, a, b[..|b| - 1]);
    }
  }
}
