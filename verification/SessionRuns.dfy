/** Whole runs of the session manager seen from one session: when it counts as started, when its unit ends it, and when
    its installer starts. */
module SessionRuns {
  import opened Common
  import opened SessionSystem
  import opened SessionLifecycle
  import opened SessionEvents

  // ---------- when a session has started ----------

  ghost predicate Lives(v: View, id: string, leader: nat) {
    id in v.sessions && v.sessions[id].leaderPid == leader
  }

  function DoneIn(event: Event, id: string): multiset<string> {
    if event.JobRemoved? && event.id == id && event.result == "done" then multiset{event.job} else multiset{}
  }

  /** The session's jobs that ended with "done", as often as they did. */
  function DoneJobs(events: seq<Event>, id: string): multiset<string> {
    if events == [] then multiset{}
    else DoneJobs(events[..|events| - 1], id) + DoneIn(events[|events| - 1], id)
  }

  /** A job leaves the list only by ending with "done", and no session counts as started while it has jobs. */
  ghost predicate JobsKept(s: Session, s': Session, done: multiset<string>) {
    multiset(s.startJobs) <= multiset(s'.startJobs) + done &&
    ((s.starting || s.startJobs == []) ==> (s'.starting || s'.startJobs == []))
  }

  lemma StoppedKeepsJobs(v: View, stopped: string, v': View, id: string, leader: nat)
    requires Sound(v') && Stopped(v, stopped, v') && Lives(v, id, leader) && Lives(v', id, leader)
    ensures v'.sessions[id] == v.sessions[id]
  {
    hide Owned, LoggedIn;
    LeaderOwned(v', id);
    if id != stopped { assert id in v.sessions - {stopped}; }
  }

  lemma RefreshedKeepsJobs(v: View, live: bool, of: string, answer: UnitAnswer, v': View, id: string, leader: nat)
    requires Sound(v') && Refreshed(v, live, of, answer, v') && Lives(v, id, leader) && Lives(v', id, leader)
    ensures v'.sessions[id].starting == v.sessions[id].starting && v'.sessions[id].startJobs == v.sessions[id].startJobs
  {
    hide Sound, Stopped, StopDue, InstallerDue;
    if of in v.sessions && answer.Read? {
      var now := v.sessions[of].(result := answer.result, activeState := answer.activeState);
      if !now.starting && StopDue(now) {
        StoppedKeepsJobs(v, of, v', id, leader);
      }
    }
  }

  lemma JobEndedKeepsJobs(v: View, live: bool, of: string, job: string, result: string, answer: UnitAnswer, v': View,
                          id: string, leader: nat)
    requires Sound(v') && JobEnded(v, live, of, job, result, answer, v') && Lives(v, id, leader) &&
        Lives(v', id, leader)
    ensures JobsKept(v.sessions[id], v'.sessions[id], DoneIn(JobRemoved(of, job, result, answer), id))
  {
    hide Sound, Stopped, TookOut, JobDone;
    if of in v.sessions && job in v.sessions[of].startJobs {
      if result != "done" {
        StoppedKeepsJobs(v, of, v', id, leader);
      } else {
        var left :| TookOut(v.sessions[of].startJobs, job, left) && JobDone(v, live, of, left, answer, v');
        TookOutOne(v.sessions[of].startJobs, job, left);
        JobDoneKeepsJobs(v, live, of, left, answer, v', id, leader);
      }
    }
  }

  lemma JobDoneKeepsJobs(v: View, live: bool, of: string, left: seq<string>, answer: UnitAnswer, v': View,
                         id: string, leader: nat)
    requires Sound(v') && of in v.sessions && JobDone(v, live, of, left, answer, v')
    requires Lives(v, id, leader) && Lives(v', id, leader)
    ensures var s, s' := v.sessions[id], v'.sessions[id];
            if of == id then s'.startJobs == left && s'.starting == (s.starting && left != [])
            else s'.startJobs == s.startJobs && s'.starting == s.starting
  {
    hide Sound, Refreshed;
    if left == [] {
      var begun := v.(sessions := v.sessions[of := v.sessions[of].(startJobs := left, starting := false)]);
      RefreshedKeepsJobs(begun, live, of, answer, v', id, leader);
    }
  }

  lemma StepKeepsJobs(v: View, live: bool, event: Event, v': View, id: string, leader: nat)
    requires Sound(v') && Step(v, live, event, v') && Lives(v, id, leader) && Lives(v', id, leader)
    ensures JobsKept(v.sessions[id], v'.sessions[id], DoneIn(event, id))
  {
    hide Sound, Stopped, Refreshed, JobEnded, Opened, Grants, AutologinGranted;
    match event
    case Idle(selected, auto, greeter) =>
      if v' != v { assert exists k :: v'.sessions - {k} == v.sessions && k !in v.sessions; }
    case CreateRequest(allowed, senderUid, username, answers) =>
      if v' != v {
        assert id in v.sessions && id != answers.id;
        assert id in v'.sessions - {answers.id};
      }
    case StopRequest(_, _, of) => if v' != v { StoppedKeepsJobs(v, of, v', id, leader); }
    case JobRemoved(of, job, result, answer) =>
      JobEndedKeepsJobs(v, live, of, job, result, answer, v', id, leader);
    case PropertiesChanged(of, answer) => RefreshedKeepsJobs(v, live, of, answer, v', id, leader);
    case Disconnected(of) => if v' != v { StoppedKeepsJobs(v, of, v', id, leader); }
    case TimerFired(_) =>
  }

  lemma StoppedOpens(v: View, stopped: string, v': View, id: string, leader: nat)
    requires Stopped(v, stopped, v') && Lives(v', id, leader) && !Lives(v, id, leader)
    ensures SomeoneOpened(v'.sessions[id])
  {
    hide Opened;
    if v'.sessions != v.sessions - {stopped} {
      var live, selected, auto, greeter :|
        LoggedIn(map[], v.greeterSessionID, live, selected, auto, greeter, v');
      LoginOpens(map[], v.greeterSessionID, live, selected, auto, greeter, v', id);
    }
  }

  ghost predicate SomeoneOpened(s: Session) {
    exists username, answers | StartGranted(answers) :: Opened(s, username, answers)
  }

  lemma LoginOpens(before: Table, greeterID: string, live: bool, selected: Option<string>, auto: Answers,
                   greeter: Answers, v: View, id: string)
    requires LoggedIn(before, greeterID, live, selected, auto, greeter, v) && id in v.sessions
    ensures SomeoneOpened(v.sessions[id]) || (id in before && before[id] == v.sessions[id])
  {
    hide Opened;
    var of := if AutologinGranted(live, selected, auto, before) then auto.id else greeter.id;
    if id != of { assert id in v.sessions - {of}; }
  }

  lemma RefreshedOpens(v: View, live: bool, of: string, answer: UnitAnswer, v': View, id: string, leader: nat)
    requires Refreshed(v, live, of, answer, v') && Lives(v', id, leader) && !Lives(v, id, leader)
    ensures SomeoneOpened(v'.sessions[id])
  {
    hide Stopped, StopDue, InstallerDue, SomeoneOpened;
    if of in v.sessions && answer.Read? {
      var now := v.sessions[of].(result := answer.result, activeState := answer.activeState);
      if !now.starting && StopDue(now) {
        StoppedOpens(v, of, v', id, leader);
      }
    }
  }

  /** A session with a new leader was just created. */
  lemma StepOpens(v: View, live: bool, event: Event, v': View, id: string, leader: nat)
    requires Step(v, live, event, v') && Lives(v', id, leader) && !Lives(v, id, leader)
    ensures SomeoneOpened(v'.sessions[id])
  {
    hide Stopped, Refreshed, JobEnded, Opened, LoggedIn, AutologinGranted, SomeoneOpened, StartGranted;
    match event
    case Idle(selected, auto, greeter) =>
      LoginOpens(v.sessions, v.greeterSessionID, live, selected, auto, greeter, v', id);
    case CreateRequest(_, _, username, answers) => CreatedOpens(v, username, answers, v', id, leader);
    case StopRequest(_, _, of) => StoppedOpens(v, of, v', id, leader);
    case JobRemoved(of, job, result, answer) => JobEndedOpens(v, live, of, job, result, answer, v', id, leader);
    case PropertiesChanged(of, answer) => RefreshedOpens(v, live, of, answer, v', id, leader);
    case Disconnected(of) => StoppedOpens(v, of, v', id, leader);
    case TimerFired(_) => assert false;
  }

  lemma CreatedOpens(v: View, username: string, answers: Answers, v': View, id: string, leader: nat)
    requires StartGranted(answers) && SessionCreated(v, username, answers, v')
    requires Lives(v', id, leader) && !Lives(v, id, leader)
    ensures SomeoneOpened(v'.sessions[id])
  {
    hide Opened, StartGranted;
    assert id != answers.id ==> id !in v'.sessions - {answers.id};
  }

  lemma JobEndedOpens(v: View, live: bool, of: string, job: string, result: string, answer: UnitAnswer, v': View,
                      id: string, leader: nat)
    requires JobEnded(v, live, of, job, result, answer, v') && Lives(v', id, leader) && !Lives(v, id, leader)
    ensures SomeoneOpened(v'.sessions[id])
  {
    hide Stopped, Refreshed, TookOut, SomeoneOpened;
    if result != "done" {
      StoppedOpens(v, of, v', id, leader);
    } else {
      var left :| TookOut(v.sessions[of].startJobs, job, left) && JobDone(v, live, of, left, answer, v');
      var begun := v.(sessions := v.sessions[of := v.sessions[of].(startJobs := left, starting := false)]);
      RefreshedOpens(begun, live, of, answer, v', id, leader);
    }
  }

  /** The session was created by the event at `a` and has had its leader since; its two start jobs are the ones still
      listed and ones that ended with "done", and none is listed once it counts as started. */
  ghost predicate BegunAt(views: seq<View>, events: seq<Event>, b: int, id: string, a: int, username: string,
                          answers: Answers)
    requires 0 <= b < |views| == |events| + 1 && id in views[b].sessions && StartGranted(answers)
  {
    0 <= a < b && id in views[a + 1].sessions && Opened(views[a + 1].sessions[id], username, answers) &&
    (forall k | a < k <= b :: Lives(views[k], id, views[b].sessions[id].leaderPid)) &&
    multiset{answers.desktopJob.value, answers.daemonJob.value} <=
      multiset(views[b].sessions[id].startJobs) + DoneJobs(events[a + 1..b], id) &&
    (views[b].sessions[id].starting || views[b].sessions[id].startJobs == [])
  }

  /** In every run from a manager without sessions, every session there is waits for its start jobs in this sense: it
      counts as started only when both of the jobs it was created with have ended with "done" since. */
  lemma {:induction false} StartedAfterBothJobs(views: seq<View>, live: bool, events: seq<Event>, b: int, id: string)
    requires IsRun(views, live, events) && views[0].sessions == map[] && forall v <- views :: Sound(v)
    requires 0 <= b <= |events| && id in views[b].sessions
    ensures exists a, username, answers | StartGranted(answers) ::
      BegunAt(views, events, b, id, a, username, answers)
    decreases b
  {
    hide Sound, Step, Opened, StartGranted, JobsKept, DoneJobs;
    var leader := views[b].sessions[id].leaderPid;
    assert b > 0;
    assert Step(views[b - 1], live, events[b - 1], views[b]);
    if Lives(views[b - 1], id, leader) {
      StartedAfterBothJobs(views, live, events, b - 1, id);
      var a, username, answers :| StartGranted(answers) && BegunAt(views, events, b - 1, id, a, username, answers);
      StepKeepsJobs(views[b - 1], live, events[b - 1], views[b], id, leader);
      BegunGoesOn(views, events, b, id, a, username, answers);
    } else {
      StepOpens(views[b - 1], live, events[b - 1], views[b], id, leader);
      var username, answers :| StartGranted(answers) && Opened(views[b].sessions[id], username, answers);
      BegunNow(views, events, b, id, username, answers);
    }
  }

  lemma BegunGoesOn(views: seq<View>, events: seq<Event>, b: int, id: string, a: int, username: string,
                    answers: Answers)
    requires 1 < b < |views| == |events| + 1 && StartGranted(answers)
    requires id in views[b].sessions && Lives(views[b - 1], id, views[b].sessions[id].leaderPid)
    requires BegunAt(views, events, b - 1, id, a, username, answers)
    requires JobsKept(views[b - 1].sessions[id], views[b].sessions[id], DoneIn(events[b - 1], id))
    ensures BegunAt(views, events, b, id, a, username, answers)
  {
    hide Opened, DoneIn, DoneJobs;
    var before := events[a + 1..b - 1];
    assert events[a + 1..b] == before + [events[b - 1]];
    DoneJobsNext(before, events[b - 1], id);
    Carried(multiset{answers.desktopJob.value, answers.daemonJob.value}, multiset(views[b - 1].sessions[id].startJobs),
            multiset(views[b].sessions[id].startJobs), DoneJobs(before, id), DoneIn(events[b - 1], id));
  }

  lemma DoneJobsNext(events: seq<Event>, event: Event, id: string)
    ensures DoneJobs(events + [event], id) == DoneJobs(events, id) + DoneIn(event, id)
  {
    hide DoneIn;
    assert (events + [event])[..|events|] == events;
  }

  lemma Carried(m: multiset<string>, x: multiset<string>, y: multiset<string>, d: multiset<string>, e: multiset<string>)
    requires m <= x + d && x <= y + e
    ensures m <= y + (d + e)
  {
  }

  lemma BegunNow(views: seq<View>, events: seq<Event>, b: int, id: string, username: string, answers: Answers)
    requires 0 < b < |views| == |events| + 1 && id in views[b].sessions
    requires StartGranted(answers) && Opened(views[b].sessions[id], username, answers)
    ensures BegunAt(views, events, b, id, b - 1, username, answers)
  {
    assert events[b..b] == [];
  }

  // ---------- what the unit state decides ----------

  /** A failed unit, a bad result, or an end after success. */
  predicate UnitOver(result: string, state: string) {
    (result != "" && result != "success") || state == "failed" || (state == "inactive" && result != "")
  }

  /** Reading the unit state of a started session keeps the session exactly when the unit neither failed nor ended.
      While it is starting the state is only recorded. */
  lemma UnitStateDecides(v: View, live: bool, id: string, result: string, state: string, v': View)
    requires Sound(v') && id in v.sessions && Refreshed(v, live, id, Read(result, state), v')
    ensures Lives(v', id, v.sessions[id].leaderPid) <==> v.sessions[id].starting || !UnitOver(result, state)
    ensures Lives(v', id, v.sessions[id].leaderPid) ==>
      v'.sessions[id].result == result && v'.sessions[id].activeState == state
    ensures v.sessions[id].starting ==>
      v' == v.(sessions := v.sessions[id := v.sessions[id].(result := result, activeState := state)])
  {
    hide LoggedIn, Owned;
    if id in v'.sessions { LeaderOwned(v', id); }
  }

  // ---------- the installer ----------

  /** An installer is scheduled only for the live user's session, once it has started. */
  ghost predicate InstallerApt(s: Session, live: bool) {
    s.installerLaunchScheduled || s.installerStarted ==> live && s.username == LIVE_USER && !s.starting
  }

  /** A reading that keeps the session gives it a new timer of its own exactly when it is the live user's, has started,
      is active and was never scheduled before; no other timer comes or goes. */
  lemma InstallerScheduled(v: View, live: bool, id: string, result: string, state: string, v': View)
    requires Sound(v') && id in v.sessions && Refreshed(v, live, id, Read(result, state), v')
    requires Lives(v', id, v.sessions[id].leaderPid)
    ensures var s, s' := v.sessions[id], v'.sessions[id];
            if live && s.username == LIVE_USER && !s.starting && state == "active" &&
               !s.installerLaunchScheduled && !s.installerStarted
            then s'.installerLaunchScheduled && s'.installerSource !in v.timers &&
                 v'.timers == v.timers[s'.installerSource := id]
            else v'.timers == v.timers && s'.installerLaunchScheduled == s.installerLaunchScheduled
  {
    hide LoggedIn, Owned;
    LeaderOwned(v', id);
  }

  /** What one step leaves of the installer's state: neither mark is ever taken back, and it stays apt. */
  ghost predicate InstallerKept(s: Session, s': Session, live: bool) {
    (InstallerApt(s, live) ==> InstallerApt(s', live)) &&
    (s.installerLaunchScheduled ==> s'.installerLaunchScheduled) && (s.installerStarted ==> s'.installerStarted)
  }

  lemma RefreshedKeepsInstaller(v: View, live: bool, of: string, answer: UnitAnswer, v': View, id: string, leader: nat)
    requires Sound(v') && Refreshed(v, live, of, answer, v') && Lives(v, id, leader) && Lives(v', id, leader)
    ensures InstallerKept(v.sessions[id], v'.sessions[id], live)
    ensures v'.sessions[id].installerStarted == v.sessions[id].installerStarted
  {
    hide Sound, Stopped, StopDue;
    if of in v.sessions && answer.Read? {
      var now := v.sessions[of].(result := answer.result, activeState := answer.activeState);
      if !now.starting && StopDue(now) {
        StoppedKeepsJobs(v, of, v', id, leader);
      }
    }
  }

  lemma JobEndedKeepsInstaller(v: View, live: bool, of: string, job: string, result: string, answer: UnitAnswer,
                               v': View, id: string, leader: nat)
    requires Sound(v') && JobEnded(v, live, of, job, result, answer, v')
    requires Lives(v, id, leader) && Lives(v', id, leader)
    ensures InstallerKept(v.sessions[id], v'.sessions[id], live)
    ensures v'.sessions[id].installerStarted == v.sessions[id].installerStarted
  {
    hide Sound, Stopped, JobDone, TookOut, InstallerKept;
    SameKept(v.sessions[id], live);
    if of in v.sessions && job in v.sessions[of].startJobs {
      if result != "done" {
        StoppedKeepsJobs(v, of, v', id, leader);
      } else {
        var left :| TookOut(v.sessions[of].startJobs, job, left) && JobDone(v, live, of, left, answer, v');
        JobDoneKeepsInstaller(v, live, of, left, answer, v', id, leader);
      }
    }
  }

  lemma SameKept(s: Session, live: bool)
    ensures InstallerKept(s, s, live)
  {
  }

  lemma JobDoneKeepsInstaller(v: View, live: bool, of: string, left: seq<string>, answer: UnitAnswer, v': View,
                              id: string, leader: nat)
    requires Sound(v') && of in v.sessions && JobDone(v, live, of, left, answer, v')
    requires Lives(v, id, leader) && Lives(v', id, leader)
    ensures InstallerKept(v.sessions[id], v'.sessions[id], live)
    ensures v'.sessions[id].installerStarted == v.sessions[id].installerStarted
  {
    hide Sound, Refreshed;
    if left == [] {
      var begun := v.(sessions := v.sessions[of := v.sessions[of].(startJobs := left, starting := false)]);
      RefreshedKeepsInstaller(begun, live, of, answer, v', id, leader);
    }
  }

  /** Only a timer of the session's own starts its installer, and only while the session is active. */
  lemma StepKeepsInstaller(v: View, live: bool, event: Event, v': View, id: string, leader: nat)
    requires Sound(v) && Sound(v') && Step(v, live, event, v') && Lives(v, id, leader) && Lives(v', id, leader)
    requires InstallerApt(v.sessions[id], live)
    ensures InstallerKept(v.sessions[id], v'.sessions[id], live)
    ensures v'.sessions[id].installerStarted && !v.sessions[id].installerStarted ==>
      event.TimerFired? && event.source in v.timers && v.timers[event.source] == id &&
      v.sessions[id].activeState == "active"
  {
    hide Sound, Stopped, Refreshed, JobEnded, Opened, Grants, AutologinGranted;
    match event
    case Idle(selected, auto, greeter) =>
      if v' != v { assert exists k :: v'.sessions - {k} == v.sessions && k !in v.sessions; }
    case CreateRequest(allowed, senderUid, username, answers) =>
      if v' != v { assert id in v'.sessions - {answers.id}; }
    case StopRequest(_, _, of) => if v' != v { StoppedKeepsJobs(v, of, v', id, leader); }
    case JobRemoved(of, job, result, answer) =>
      JobEndedKeepsInstaller(v, live, of, job, result, answer, v', id, leader);
    case PropertiesChanged(of, answer) => RefreshedKeepsInstaller(v, live, of, answer, v', id, leader);
    case Disconnected(of) => if v' != v { StoppedKeepsJobs(v, of, v', id, leader); }
    case TimerFired(source) => if source in v.timers { TimerMeansScheduled(v, source); }
  }

  lemma TimerMeansScheduled(v: View, source: nat)
    requires Sound(v) && source in v.timers
    ensures var id := v.timers[source];
            id in v.sessions && v.sessions[id].installerSource == source && v.sessions[id].installerLaunchScheduled
  {
    assert Entry(v.timers[source], v.sessions[v.timers[source]]);
  }

  /** In every run from a manager without sessions, an installer is only ever scheduled or started for a started session
      of the live user in the live environment. */
  lemma {:induction false} InstallerForLiveUserOnly(views: seq<View>, live: bool, events: seq<Event>, b: int,
                                                    id: string)
    requires IsRun(views, live, events) && views[0].sessions == map[] && forall v <- views :: Sound(v)
    requires 0 <= b <= |events| && id in views[b].sessions
    ensures InstallerApt(views[b].sessions[id], live)
    decreases b
  {
    hide Sound, Step, InstallerApt;
    var leader := views[b].sessions[id].leaderPid;
    assert b > 0;
    assert Step(views[b - 1], live, events[b - 1], views[b]);
    if Lives(views[b - 1], id, leader) {
      InstallerForLiveUserOnly(views, live, events, b - 1, id);
      StepKeepsInstaller(views[b - 1], live, events[b - 1], views[b], id, leader);
    } else {
      StepOpens(views[b - 1], live, events[b - 1], views[b], id, leader);
      OpenedApt(views[b].sessions[id], live);
    }
  }

  lemma OpenedApt(s: Session, live: bool)
    requires SomeoneOpened(s)
    ensures InstallerApt(s, live)
  {
  }

  /** The event at k starts the session's installer. */
  ghost predicate StartsAt(views: seq<View>, id: string, k: int) {
    0 <= k < |views| - 1 && id in views[k].sessions && id in views[k + 1].sessions &&
    !views[k].sessions[id].installerStarted && views[k + 1].sessions[id].installerStarted
  }

  /** As long as a session keeps its leader, its installer starts at most once. */
  lemma InstallerAtMostOnce(views: seq<View>, live: bool, events: seq<Event>, i: int, j: int, id: string, leader: nat)
    requires IsRun(views, live, events) && views[0].sessions == map[] && forall v <- views :: Sound(v)
    requires 0 <= i < j < |events| && forall k | i <= k <= j :: Lives(views[k], id, leader)
    ensures !(StartsAt(views, id, i) && StartsAt(views, id, j))
  {
    hide Sound, Step;
    if StartsAt(views, id, i) { StaysStarted(views, live, events, i + 1, j, id, leader); }
  }

  lemma {:induction false} StaysStarted(views: seq<View>, live: bool, events: seq<Event>, a: int, b: int, id: string,
                                        leader: nat)
    requires IsRun(views, live, events) && views[0].sessions == map[] && forall v <- views :: Sound(v)
    requires 0 <= a <= b <= |events| && forall k | a <= k <= b :: Lives(views[k], id, leader)
    requires id in views[a].sessions && views[a].sessions[id].installerStarted
    ensures id in views[b].sessions && views[b].sessions[id].installerStarted
    decreases b
  {
    hide Sound, Step, InstallerApt;
    if a < b {
      StaysStarted(views, live, events, a, b - 1, id, leader);
      InstallerForLiveUserOnly(views, live, events, b - 1, id);
      StepKeepsInstaller(views[b - 1], live, events[b - 1], views[b], id, leader);
    }
  }
}
