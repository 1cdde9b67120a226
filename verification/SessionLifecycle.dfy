/** The life of sessions: creation in stages that can each fail, stopping, the greeter that comes and goes with them,
    and the messages and timers that drive them. What the rest of the system answers is given stage by stage; `*`
    stands for the answers on the way of a login session that follows a stop. */
module SessionLifecycle {
  import opened Common
  import opened SessionSystem

  const GREETER_USER := "jos-greeter"
  const LIVE_USER := "liveuser"

  datatype Outcome = Done | Failed

  datatype Creation = Created(id: string, uid: nat, seat: string) | Refused(reason: string)

  /** The unit state a session's manager tells, if it answers. */
  datatype UnitAnswer = Silent | Read(result: string, activeState: string)

  /** What the rest of the system answers while a session is created: the user, the leader in three stages, logind's
      id and seat, the user manager and its two signals, the start jobs of the two units, and the session's unit. */
  datatype Answers = Answers(
    known: bool,
    uid: nat,
    piped: bool,
    forked: bool,
    reported: bool,
    id: string,
    seat: string,
    connected: bool,
    jobSignals: bool,
    disconnectSignals: bool,
    desktopJob: Option<string>,
    daemonJob: Option<string>,
    unitFound: bool,
    unit: UnitAnswer)

  /** The user manager, the units and the session's unit all answer. */
  predicate StartGranted(a: Answers) {
    a.connected && a.jobSignals && a.disconnectSignals && a.desktopJob.Some? && a.daemonJob.Some? && a.unitFound &&
        a.unit.Read?
  }

  /** Every answer is positive and the id is new. */
  predicate Grants(a: Answers, sessions: Table) {
    a.known && a.piped && a.forked && a.reported && a.id != "" && a.id !in sessions && StartGranted(a)
  }

  /** A user is to be logged in automatically, the live user or the selected one, and the session can be created. */
  predicate AutologinGranted(live: bool, selected: Option<string>, auto: Answers, sessions: Table) {
    (live || selected.Some?) && Grants(auto, sessions)
  }

  function SeatOf(seat: string): string {
    if seat == "" then "seat0" else seat
  }

  /** A session as created: its unit state is read, no installer is scheduled, and it is starting until both of its
      start jobs have ended. */
  ghost predicate Opened(s: Session, username: string, a: Answers)
    requires StartGranted(a)
  {
    s == Session(a.id, username, a.uid, s.leaderPid, s.controlFd, SeatOf(a.seat), a.unit.activeState, a.unit.result,
                 false, false, 0, true, [a.desktopJob.value, a.daemonJob.value])
  }

  /** A new session's entry once its two units are started and the unit state is read. */
  function WithUnits(s: Session, a: Answers): Session
    requires StartGranted(a)
  {
    s.(result := a.unit.result, activeState := a.unit.activeState,
       startJobs := s.startJobs + [a.desktopJob.value, a.daemonJob.value])
  }

  /** Three subscriptions for every session. */
  ghost function Subscribed(sessions: Table): map<string, nat> {
    map id <- sessions :: 3
  }

  lemma SubscribedUpdate(sessions: Table, id: string, s: Session)
    requires id in sessions
    ensures Subscribed(sessions[id := s]) == Subscribed(sessions)
  {
  }

  lemma SubscribedWithout(sessions: Table, id: string)
    ensures Subscribed(sessions - {id}) == Subscribed(sessions) - {id}
    ensures id in sessions ==> Subscribed(sessions) == Subscribed(sessions - {id})[id := 3]
  {
  }

  // ---------- what an operation does, on values ----------

  /** The manager and what it owns at one moment. */
  datatype View = View(sessions: Table, subscriptions: map<string, nat>, greeterSessionID: string,
                       isGreeterActive: bool, children: set<nat>, openFds: set<nat>, timers: map<nat, string>)

  /** Every session, and only a session, owns a leader, a control pipe, its pending timer and its three subscriptions.
      */
  ghost predicate Sound(v: View) {
    Owned(v.sessions, v.children, v.openFds, v.timers, {}, {}) && v.subscriptions == Subscribed(v.sessions)
  }

  /** One session was added to those before: the automatic login's if it can be created, and else the greeter's, which
      the greeter fields then name. */
  ghost predicate LoggedIn(before: Table, greeterID: string, live: bool, selected: Option<string>, auto: Answers,
                           greeter: Answers, v: View)
  {
    if AutologinGranted(live, selected, auto, before) then
      Joined(before, v.sessions, if live then LIVE_USER else selected.value, auto) && v.greeterSessionID == greeterID &&
      !v.isGreeterActive
    else
      Grants(greeter, before) && Joined(before, v.sessions, GREETER_USER, greeter) &&
      v.greeterSessionID == greeter.id && v.isGreeterActive
  }

  /** One session is there besides those before. */
  ghost predicate Joined(before: Table, after: Table, username: string, a: Answers)
    requires StartGranted(a)
  {
    a.id !in before && a.id in after && after - {a.id} == before && Opened(after[a.id], username, a)
  }

  /** A login session came up, whatever the rest of the system answered. */
  ghost predicate SomeLogin(before: Table, greeterID: string, v: View) {
    exists live, selected, auto, greeter :: LoggedIn(before, greeterID, live, selected, auto, greeter, v)
  }

  /** A session's end: its leader is gone, and so is its entry. When it was the last, and neither the greeter nor
      alongside one, a login session may have followed. */
  ghost predicate Stopped(v: View, id: string, v': View) {
    id in v.sessions && v.sessions[id].leaderPid !in v'.children &&
    ((v'.sessions == v.sessions - {id} && v'.greeterSessionID == v.greeterSessionID &&
      v'.isGreeterActive == v.isGreeterActive) ||
     (v.sessions - {id} == map[] && id != v.greeterSessionID && !v.isGreeterActive &&
      SomeLogin(map[], v.greeterSessionID, v')))
  }

  /** A unit that failed, or that is inactive after succeeding. */
  predicate StopDue(s: Session) {
    s.activeState == "failed" || (s.result != "success" && s.result != "") ||
        (s.activeState == "inactive" && s.result == "success")
  }

  /** The live user's started session, active for the first time. */
  predicate InstallerDue(live: bool, s: Session) {
    !s.starting && live && s.activeState == "active" && s.username == LIVE_USER && !s.installerLaunchScheduled &&
        !s.installerStarted
  }

  /** A session's entry becomes `now`, with a timer for the installer if that is due. */
  ghost predicate Noted(v: View, live: bool, id: string, now: Session, v': View) {
    if InstallerDue(live, now) then exists source: nat :: source !in v.timers && v' == WithTimer(v, id, now, source)
    else v' == v.(sessions := v.sessions[id := now])
  }

  function WithTimer(v: View, id: string, now: Session, source: nat): View {
    v.(sessions := v.sessions[id := now.(installerLaunchScheduled := true, installerSource := source)],
       timers := v.timers[source := id])
  }

  /** What a unit state leads to: a started session that failed or ended is stopped, any other has its entry updated. */
  ghost predicate Settled(v: View, live: bool, id: string, now: Session, v': View) {
    if now.starting || !StopDue(now) then Noted(v, live, id, now, v') else Stopped(v, id, v')
  }

  /** Reading the unit state again: nothing without the session or without an answer, else what the answer leads to. */
  ghost predicate Refreshed(v: View, live: bool, id: string, answer: UnitAnswer, v': View) {
    if id !in v.sessions || answer.Silent? then v' == v
    else Settled(v, live, id, v.sessions[id].(result := answer.result, activeState := answer.activeState), v')
  }

  lemma StoppedAfterUpdate(v: View, id: string, s: Session, v': View)
    requires id in v.sessions && s.leaderPid == v.sessions[id].leaderPid
    requires Stopped(v.(sessions := v.sessions[id := s]), id, v')
    ensures Stopped(v, id, v')
  {
    assert v.sessions[id := s] - {id} == v.sessions - {id};
  }

  lemma StoppedAfterTimer(v: View, id: string, s: Session, timers: map<nat, string>, v': View)
    requires id in v.sessions && s.leaderPid == v.sessions[id].leaderPid
    requires Stopped(v.(sessions := v.sessions[id := s], timers := timers), id, v')
    ensures Stopped(v, id, v')
  {
    assert v.sessions[id := s] - {id} == v.sessions - {id};
  }

  lemma NotedAfterUpdate(v: View, live: bool, id: string, s: Session, now: Session, v': View)
    ensures Noted(v.(sessions := v.sessions[id := s]), live, id, now, v') <==> Noted(v, live, id, now, v')
  {
    assert v.sessions[id := s][id := now] == v.sessions[id := now];
    forall source: nat ensures WithTimer(v.(sessions := v.sessions[id := s]), id, now, source) ==
        WithTimer(v, id, now, source) {
      var t := now.(installerLaunchScheduled := true, installerSource := source);
      assert v.sessions[id := s][id := t] == v.sessions[id := t];
    }
  }

  lemma SettledAfterUpdate(v: View, live: bool, id: string, s: Session, now: Session, v': View)
    requires id in v.sessions && s.leaderPid == v.sessions[id].leaderPid
    requires Settled(v.(sessions := v.sessions[id := s]), live, id, now, v')
    ensures Settled(v, live, id, now, v')
  {
    hide Noted, Stopped;
    if now.starting || !StopDue(now) { NotedAfterUpdate(v, live, id, s, now, v'); }
    else { StoppedAfterUpdate(v, id, s, v'); }
  }

  class SessionManager {
    const system: System
    const liveEnvironment: bool
    var sessions: Table
    /** How many signal subscriptions each session has. */
    var subscriptions: map<string, nat>
    var greeterSessionID: string
    var isGreeterActive: bool

    /** Every session, and only a session, owns a leader, a control pipe, its pending timer and its three
        subscriptions. */
    ghost predicate Valid()
      reads this, system
    {
      system.Valid() && Sound(Now())
    }

    ghost function Now(): View
      reads this, system
    {
      View(sessions, subscriptions, greeterSessionID, isGreeterActive, system.children, system.openFds, system.timers)
    }

    /** Nothing the manager owns differs. */
    twostate predicate Same()
      reads this, system
    {
      sessions == old(sessions) && subscriptions == old(subscriptions) && system.children == old(system.children) &&
      system.openFds == old(system.openFds) && system.timers == old(system.timers) && SameGreeter()
    }

    twostate predicate SameGreeter()
      reads this
    {
      greeterSessionID == old(greeterSessionID) && isGreeterActive == old(isGreeterActive)
    }

    /** Leaders are only ever new ones. */
    twostate predicate NewLeadersOnly()
      reads system
    {
      old(system.nextPid) <= system.nextPid &&
      forall p <- system.children :: p in old(system.children) || p >= old(system.nextPid)
    }

    constructor (system: System, liveEnvironment: bool)
      requires system.Valid() && system.children == {} && system.openFds == {} && system.timers == map[]
      ensures Valid() && this.system == system && this.liveEnvironment == liveEnvironment && sessions == map[]
      ensures !isGreeterActive && greeterSessionID == "" && subscriptions == map[]
    {
      this.system, this.liveEnvironment := system, liveEnvironment;
      sessions, subscriptions, greeterSessionID, isGreeterActive := map[], map[], "", false;
    }

    // ---------- leaders ----------

    /** Waits for a leader to exit, in the end by force. */
    method AwaitLeader(pid: nat)
      requires system.Valid() && pid in system.children
      modifies system`children, system`reaped
      ensures system.Valid() && system.children == old(system.children) - {pid}
    {
      var exited := system.Poll(pid);
      if !exited {
        exited := system.Poll(pid);
        if !exited {
          system.KillAndWait(pid);
        }
      }
    }

    /** The clean-up of a session whose creation failed: its pipe is closed and its leader reaped, if it has them. */
    method CleanupPam(controlFd: int, leaderPid: nat)
      requires system.Valid() && (controlFd >= 0 ==> controlFd in system.openFds)
      requires leaderPid > 0 ==> leaderPid in system.children
      modifies system`openFds, system`children, system`reaped
      ensures system.Valid()
      ensures system.openFds == if controlFd >= 0 then old(system.openFds) - {controlFd} else old(system.openFds)
      ensures system.children == if leaderPid > 0 then old(system.children) - {leaderPid} else old(system.children)
    {
      if controlFd >= 0 { system.Close(controlFd); }
      if leaderPid > 0 { AwaitLeader(leaderPid); }
    }

    /** Starts a leader and waits for its report; a leader that fails is killed and reaped here. */
    method AuthenticateAndOpenPAMSession(a: Answers) returns (ok: bool, controlFd: int, leaderPid: nat)
      requires system.Valid()
      modifies system
      ensures system.Valid() && NewLeadersOnly() && system.timers == old(system.timers)
      ensures ok <==> a.piped && a.forked && a.reported
      ensures if ok then
                controlFd >= 0 && controlFd !in old(system.openFds) &&
                    system.openFds == old(system.openFds) + {controlFd} &&
                leaderPid > 0 && leaderPid !in old(system.children) &&
                    system.children == old(system.children) + {leaderPid}
              else
                controlFd == -1 && leaderPid == 0 && system.openFds == old(system.openFds) &&
                    system.children == old(system.children)
    {
      ok, controlFd, leaderPid := false, -1, 0;
      if !a.piped { return; }
      var control := system.OpenPipe();
      if !a.forked {
        system.Close(control);
        return;
      }
      var pid := system.Fork();
      if !a.reported {
        system.Close(control);
        system.KillAndWait(pid);
        return;
      }
      ok, controlFd, leaderPid := true, control, pid;
    }

    // ---------- stopping ----------

    /** Everything a stopped session owned is released and its entry erased. */
    method ReleaseSession(id: string)
      requires Valid() && id in sessions
      modifies this`sessions, this`subscriptions, system`timers, system`children, system`openFds, system`reaped
      ensures Valid() && sessions == old(sessions) - {id}
      ensures system.children == old(system.children) - {old(sessions)[id].leaderPid}
      ensures system.openFds == old(system.openFds) - {old(sessions)[id].controlFd}
      ensures system.timers == old(system.timers) - {old(sessions)[id].installerSource}
    {
      hide Owned;
      OwnedRemoved(sessions, system.children, system.openFds, system.timers, id);
      EntryOf(id);
      OwnedReleased(sessions - {id}, system.children, system.openFds, system.timers - {sessions[id].installerSource},
                    sessions[id].leaderPid, sessions[id].controlFd);
      if sessions[id].installerSource != 0 {
        system.RemoveTimer(sessions[id].installerSource);
      }
      sessions := sessions[id := sessions[id].(installerSource := 0)];
      TerminatePAMForSession(id);
      subscriptions := subscriptions - {id};
      sessions := sessions - {id};
      assert sessions == old(sessions) - {id};
      SubscribedWithout(old(sessions), id);
      assert system.timers == old(system.timers) - {old(sessions)[id].installerSource};
    }

    lemma EntryOf(id: string)
      requires Valid() && id in sessions
      ensures Entry(id, sessions[id]) && 0 !in system.timers
      ensures system.timers - {0} == system.timers
    {
    }

    method TerminatePAMForSession(id: string)
      requires system.Valid() && id in sessions && sessions[id].leaderPid > 0 && sessions[id].controlFd >= 0
      requires sessions[id].leaderPid in system.children && sessions[id].controlFd in system.openFds
      modifies this`sessions, system`children, system`openFds, system`reaped
      ensures system.Valid() && sessions == old(sessions)[id := old(sessions)[id].(leaderPid := 0, controlFd := -1)]
      ensures system.children == old(system.children) - {old(sessions)[id].leaderPid}
      ensures system.openFds == old(system.openFds) - {old(sessions)[id].controlFd}
    {
      if sessions[id].leaderPid > 0 {
        AwaitLeader(sessions[id].leaderPid);
        if sessions[id].controlFd >= 0 {
          system.Close(sessions[id].controlFd);
          sessions := sessions[id := sessions[id].(controlFd := -1)];
        }
        sessions := sessions[id := sessions[id].(leaderPid := 0)];
      }
    }

    /** Stops a session. When it was neither the greeter nor alongside one, another session is activated, and failing to
        do so is reported; with no session left the login session is created instead. */
    method StopSession(id: string) returns (outcome: Outcome)
      requires Valid()
      modifies this, system
      ensures Valid() && NewLeadersOnly()
      ensures id !in old(sessions) ==> outcome == Failed && Same()
      ensures id in old(sessions) ==> old(sessions[id].leaderPid) !in system.children
      ensures id in old(sessions) && (id == old(greeterSessionID) || old(isGreeterActive)) ==>
        outcome == Done && sessions == old(sessions) - {id} && SameGreeter()
      ensures id in old(sessions) && old(sessions) - {id} != map[] ==> sessions == old(sessions) - {id} && SameGreeter()
      ensures id in old(sessions) && old(sessions) - {id} == map[] ==>
        outcome == Done && (sessions == map[] ==> SameGreeter()) &&
        (sessions != map[] ==> SomeLogin(map[], old(greeterSessionID), Now()))
      ensures id in old(sessions) ==> Stopped(old(Now()), id, Now())
      decreases if id == greeterSessionID || isGreeterActive then 3 else 16
    {
      hide Owned;
      if id !in sessions { return Failed; }
      OldLeader(id);
      var isLoginSession := id == greeterSessionID;
      ReleaseSession(id);
      if !isLoginSession && !isGreeterActive {
        if sessions == map[] {
          var selected: Option<string>, auto: Answers, greeter: Answers := *, *, *;
          var _ := CreateLoginSession(selected, auto, greeter);
        } else {
          var activated: bool := *;
          if !activated { return Failed; }
        }
      }
      outcome := Done;
    }

    lemma OldLeader(id: string)
      requires Valid() && id in sessions
      ensures sessions[id].leaderPid in system.children && sessions[id].leaderPid < system.nextPid
    {
      OwnedRemoved(sessions, system.children, system.openFds, system.timers, id);
    }

    // ---------- the login session ----------

    /** Creates the session of an automatic login, or else the greeter's. */
    method CreateLoginSession(selected: Option<string>, auto: Answers, greeter: Answers) returns (outcome: Outcome)
      requires Valid()
      modifies this, system
      ensures Valid() && NewLeadersOnly()
      ensures outcome == Done <==>
        old(isGreeterActive) || AutologinGranted(liveEnvironment, selected, auto, old(sessions)) ||
            Grants(greeter, old(sessions))
      ensures old(isGreeterActive) || outcome == Failed ==> Same()
      ensures !old(isGreeterActive) && outcome == Done ==>
        LoggedIn(old(sessions), old(greeterSessionID), liveEnvironment, selected, auto, greeter, Now())
      decreases 12
    {
      hide Owned;
      if isGreeterActive { return Done; }
      var loggedIn := TryAutologinSession(selected, auto);
      if loggedIn { return Done; }
      var creation := CreateSession(GREETER_USER, true, greeter);
      if creation.Refused? { return Failed; }
      greeterSessionID := creation.id;
      isGreeterActive := true;
      outcome := Done;
    }

    method TryAutologinSession(selected: Option<string>, auto: Answers) returns (loggedIn: bool)
      requires Valid() && !isGreeterActive
      modifies this, system
      ensures Valid() && NewLeadersOnly() && !isGreeterActive
      ensures loggedIn <==> AutologinGranted(liveEnvironment, selected, auto, old(sessions))
      ensures if loggedIn then
                Joined(old(sessions), sessions, if liveEnvironment then LIVE_USER else selected.value, auto) &&
                SameGreeter()
              else Same()
      decreases 11
    {
      hide Owned;
      var username := LIVE_USER;
      if !liveEnvironment {
        if selected == None { return false; }
        username := selected.value;
      }
      var creation := CreateSession(username, false, auto);
      loggedIn := creation.Created?;
    }

    method StopLoginSession() returns (outcome: Outcome)
      requires Valid()
      modifies this, system
      ensures Valid() && NewLeadersOnly()
      ensures old(isGreeterActive) && old(greeterSessionID) in old(sessions) ==>
        outcome == Done && sessions == old(sessions) - {old(greeterSessionID)} && !isGreeterActive &&
            greeterSessionID == ""
      ensures !old(isGreeterActive) || old(greeterSessionID) !in old(sessions) ==> Same()
      decreases 4
    {
      hide Owned;
      if !isGreeterActive { return Done; }
      outcome := StopSession(greeterSessionID);
      if outcome == Failed { return; }
      greeterSessionID := "";
      isGreeterActive := false;
    }

    // ---------- creation ----------

    /** A registered session that is still starting; its subscriptions may be incomplete. */
    ghost predicate Registering(id: string)
      reads this, system
    {
      system.Valid() && Owned(sessions, system.children, system.openFds, system.timers, {}, {}) &&
      id in sessions && sessions[id].starting && subscriptions - {id} == Subscribed(sessions - {id})
    }

    /** Only what is known of this session's units changed. */
    twostate predicate UnitsOnly(id: string)
      reads this
    {
      id in old(sessions) && id in sessions &&
      sessions[id] == old(sessions)[id].(activeState := sessions[id].activeState, result := sessions[id].result,
                                         startJobs := sessions[id].startJobs) &&
      sessions == old(sessions)[id := sessions[id]] && SameGreeter()
    }

    /** Connects to the user manager and subscribes to its two signals. */
    method ConnectUserManager(id: string, a: Answers) returns (outcome: Outcome)
      requires Registering(id)
      modifies this`subscriptions
      ensures Registering(id)
      ensures outcome == Done <==> a.connected && a.jobSignals && a.disconnectSignals
      ensures outcome == Done ==> id in subscriptions && subscriptions[id] == 2
    {
      hide Owned;
      if !a.connected { return Failed; }
      subscriptions := subscriptions[id := 0];
      if !a.jobSignals { return Failed; }
      subscriptions := subscriptions[id := 1];
      if !a.disconnectSignals { return Failed; }
      subscriptions := subscriptions[id := 2];
      outcome := Done;
    }

    method SetUnits(id: string, s: Session)
      requires Registering(id)
      requires s == sessions[id].(activeState := s.activeState, result := s.result, startJobs := s.startJobs)
      modifies this`sessions
      ensures Registering(id) && sessions == old(sessions)[id := s]
    {
      hide Owned;
      EntryOfRegistering(id);
      OwnedUpdated(sessions, system.children, system.openFds, system.timers, id, s);
      ghost var before := sessions - {id};
      sessions := sessions[id := s];
      assert sessions - {id} == before;
    }

    lemma EntryOfRegistering(id: string)
      requires Registering(id)
      ensures Entry(id, sessions[id])
    {
    }

    /** Starts the two units; a start job is remembered as soon as it exists. */
    method SpawnUserSessionProcesses(id: string, a: Answers) returns (outcome: Outcome)
      requires Registering(id)
      modifies this`sessions
      ensures Registering(id) && UnitsOnly(id)
      ensures outcome == Done <==> a.desktopJob.Some? && a.daemonJob.Some?
      ensures outcome == Done ==>
        sessions[id].startJobs == old(sessions)[id].startJobs + [a.desktopJob.value, a.daemonJob.value] &&
        sessions[id] == old(sessions)[id].(startJobs := sessions[id].startJobs)
    {
      hide Owned;
      if a.desktopJob == None { return Failed; }
      SetUnits(id, sessions[id].(startJobs := sessions[id].startJobs + [a.desktopJob.value]));
      if a.daemonJob == None { return Failed; }
      SetUnits(id, sessions[id].(startJobs := sessions[id].startJobs + [a.daemonJob.value]));
      outcome := Done;
    }

    /** Subscribes to the unit's properties and reads them a first time. */
    method SubscribeToSessionSignals(id: string, a: Answers) returns (outcome: Outcome)
      requires Registering(id) && id in subscriptions && subscriptions[id] == 2
      modifies this, system
      ensures Registering(id) && UnitsOnly(id) && NewLeadersOnly()
      ensures outcome == Done <==> a.unitFound && a.unit.Read?
      ensures outcome == Done ==> Valid()
      ensures outcome == Done ==>
        sessions[id] == old(sessions)[id].(result := a.unit.result, activeState := a.unit.activeState)
      ensures system.children == old(system.children) && system.openFds == old(system.openFds) &&
          system.timers == old(system.timers)
      decreases 5
    {
      hide Owned;
      if !a.unitFound { return Failed; }
      subscriptions := subscriptions[id := subscriptions[id] + 1];
      AllSubscribed(id);
      outcome := RefreshSessionState(id, a.unit);
    }

    lemma AllSubscribed(id: string)
      requires Registering(id) && id in subscriptions && subscriptions[id] == 3
      ensures Valid()
    {
      assert subscriptions == (subscriptions - {id})[id := 3];
      SubscribedWithout(sessions, id);
    }

    method StartUp(id: string, a: Answers) returns (outcome: Outcome)
      requires Registering(id) && id !in subscriptions
      modifies this, system
      ensures Registering(id) && UnitsOnly(id) && NewLeadersOnly()
      ensures outcome == Done <==> StartGranted(a)
      ensures outcome == Done ==> Valid() && sessions[id] == WithUnits(old(sessions)[id], a)
      ensures system.children == old(system.children) && system.openFds == old(system.openFds) &&
          system.timers == old(system.timers)
      decreases 6
    {
      hide Owned;
      outcome := ConnectUserManager(id, a);
      if outcome == Failed { return; }
      outcome := SpawnUserSessionProcesses(id, a);
      if outcome == Failed { return; }
      outcome := SubscribeToSessionSignals(id, a);
    }

    /** Takes back the registration of a session that did not start; its leader and pipe are left to the caller. */
    method UndoRegistration(id: string, leaderPid: nat, controlFd: nat)
      requires Registering(id) && sessions[id].leaderPid == leaderPid && sessions[id].controlFd == controlFd
      modifies this`sessions, this`subscriptions
      ensures Owned(sessions, system.children, system.openFds, system.timers, {leaderPid}, {controlFd})
      ensures sessions == old(sessions) - {id} && subscriptions == Subscribed(sessions)
      ensures leaderPid in system.children && controlFd in system.openFds
    {
      hide Owned;
      EntryOfRegistering(id);
      NoTimerZero(id);
      OwnedRemoved(sessions, system.children, system.openFds, system.timers, id);
      subscriptions := subscriptions - {id};
      sessions := sessions - {id};
    }

    lemma NoTimerZero(id: string)
      requires Registering(id)
      ensures sessions[id].installerSource == 0 && system.timers - {0} == system.timers
    {
      assert Entry(id, sessions[id]);
    }

    /** Registers a session and starts its units, or takes the registration back. */
    method EnterSession(id: string, session: Session, a: Answers) returns (outcome: Outcome)
      requires system.Valid() && session.controlFd >= 0 && id !in sessions && Entry(id, session)
      requires session.starting && subscriptions == Subscribed(sessions)
      requires Owned(sessions, system.children, system.openFds, system.timers, {session.leaderPid}, {session.controlFd})
      modifies this, system
      ensures system.Valid() && NewLeadersOnly() && SameGreeter()
      ensures system.children == old(system.children) && system.openFds == old(system.openFds) &&
          system.timers == old(system.timers)
      ensures session.leaderPid in system.children && session.controlFd in system.openFds
      ensures outcome == Done <==> StartGranted(a)
      ensures outcome == Done ==> Valid() && id in sessions && sessions - {id} == old(sessions) &&
                                  sessions[id] == WithUnits(session, a)
      ensures outcome == Failed ==> sessions == old(sessions) && subscriptions == old(subscriptions)
      ensures outcome == Failed ==>
        Owned(sessions, system.children, system.openFds, system.timers, {session.leaderPid}, {session.controlFd})
      decreases 7
    {
      hide Owned;
      HeldAreOwned(sessions, session.leaderPid, session.controlFd);
      OwnedAdded(sessions, system.children, system.openFds, system.timers, id, session);
      SubscribedWithout(sessions, id);
      assert sessions[id := session] - {id} == sessions == sessions - {id};
      sessions := sessions[id := session];
      outcome := StartUp(id, a);
      assert sessions - {id} == old(sessions);
      if outcome == Failed {
        UndoRegistration(id, session.leaderPid, session.controlFd);
      }
    }

    lemma HeldAreOwned(table: Table, pid: nat, fd: nat)
      requires Owned(table, system.children, system.openFds, system.timers, {pid}, {fd})
      ensures pid in system.children && fd in system.openFds
    {
    }

    /** Creates a session. Whatever stage fails, everything is as before; on success there is one more session, and an
        active greeter that still has a session was stopped. */
    method CreateSession(username: string, isLoginSession: bool, a: Answers) returns (creation: Creation)
      requires Valid()
      modifies this, system
      ensures Valid() && NewLeadersOnly()
      ensures creation.Created? <==> Grants(a, old(sessions))
      ensures creation.Refused? ==> Same()
      ensures creation.Created? ==> creation == Created(a.id, a.uid, if a.seat == "" then "seat0" else a.seat)
      ensures creation.Created? &&
              (isLoginSession || !old(isGreeterActive) ||
               old(greeterSessionID) !in old(sessions).Keys + {creation.id}) ==>
        Joined(old(sessions), sessions, username, a) && SameGreeter()
      ensures creation.Created? &&
              !isLoginSession && old(isGreeterActive) && old(greeterSessionID) in old(sessions).Keys + {creation.id} ==>
        sessions - {creation.id} == old(sessions) - {old(greeterSessionID)} && !isGreeterActive &&
            greeterSessionID == "" &&
        (creation.id in sessions <==> creation.id != old(greeterSessionID)) &&
        (creation.id in sessions ==> Opened(sessions[creation.id], username, a))
      decreases 10
    {
      hide Owned, StartGranted, Subscribed;
      if !a.known { return Refused("Unknown user"); }
      var authenticated, controlFd, leaderPid := AuthenticateAndOpenPAMSession(a);
      if !authenticated {
        CleanupPam(controlFd, leaderPid);
        return Refused("Authentication failed");
      }
      OwnedTaken(sessions, old(system.children), old(system.openFds), system.timers, leaderPid, controlFd);
      var id, seat := a.id, a.seat;
      if id == "" {
        CleanupPam(controlFd, leaderPid);
        return Refused("Could not determine session ID");
      }
      if id in sessions {
        CleanupPam(controlFd, leaderPid);
        return Refused("Duplicate session ID");
      }
      if seat == "" { seat := "seat0"; }
      var session := Session(id, username, a.uid, leaderPid, controlFd, seat, "", "", false, false, 0, true, []);
      var started := EnterSession(id, session, a);
      if started == Failed {
        CleanupPam(controlFd, leaderPid);
        return Refused("Startup failed");
      }
      if !isLoginSession {
        var _ := StopLoginSession();
      }
      creation := Created(id, a.uid, seat);
    }

    // ---------- unit state ----------

    /** Reads the session's unit state again; a session that is starting is never stopped by it. */
    method RefreshSessionState(id: string, answer: UnitAnswer) returns (outcome: Outcome)
      requires Valid()
      modifies this, system
      ensures Valid() && NewLeadersOnly()
      ensures id in old(sessions) && old(sessions)[id].starting ==>
        UnitsOnly(id) && system.children == old(system.children) && system.openFds == old(system.openFds) &&
        system.timers == old(system.timers)
      ensures id !in old(sessions) || answer.Silent? ==> Same()
      ensures id in old(sessions) && old(sessions)[id].starting ==> (outcome == Done <==> answer.Read?)
      ensures Refreshed(old(Now()), liveEnvironment, id, answer, Now())
      decreases if id in sessions && sessions[id].starting then 2 else 19
    {
      hide Owned, Settled;
      if id !in sessions { return Done; }
      if answer.Silent? { return Failed; }
      var result, state := answer.result, answer.activeState;
      EntryOf(id);
      ghost var before := sessions[id];
      SetState(id, sessions[id].(result := result));
      outcome := HandleSessionActiveStateChanged(id, state);
      SettledAfterUpdate(old(Now()), liveEnvironment, id, before.(result := result),
                         before.(result := result, activeState := state), Now());
    }

    method SetState(id: string, s: Session)
      requires Valid() && id in sessions && Entry(id, s)
      requires s.leaderPid == sessions[id].leaderPid && s.controlFd == sessions[id].controlFd
      requires s.installerSource == sessions[id].installerSource
      modifies this`sessions
      ensures Valid() && sessions == old(sessions)[id := s]
    {
      hide Owned;
      OwnedUpdated(sessions, system.children, system.openFds, system.timers, id, s);
      SubscribedUpdate(sessions, id, s);
      sessions := sessions[id := s];
    }

    /** Records a unit state. The live user's session gets a timer for the installer the first time it is active after
        starting, and a started session whose unit failed or ended is stopped. */
    method HandleSessionActiveStateChanged(id: string, state: string) returns (outcome: Outcome)
      requires Valid()
      modifies this, system
      ensures Valid() && NewLeadersOnly()
      ensures id in old(sessions) && old(sessions)[id].starting ==>
        UnitsOnly(id) && system.children == old(system.children) && system.openFds == old(system.openFds) &&
        system.timers == old(system.timers)
      ensures id in old(sessions) && old(sessions)[id].starting ==> outcome == Done
      ensures id !in old(sessions) ==> Same()
      ensures id in old(sessions) ==>
        Settled(old(Now()), liveEnvironment, id, old(sessions)[id].(activeState := state), Now())
      decreases if id in sessions && sessions[id].starting then 1 else 18
    {
      hide Owned, Stopped, Noted, Sound;
      if id !in sessions { return Done; }
      RecordState(id, state);
      ghost var mid := Now();
      outcome := EvaluateSessionState(id);
      if !mid.sessions[id].starting && StopDue(mid.sessions[id]) {
        StoppedAfterTimer(old(Now()), id, mid.sessions[id], mid.timers, Now());
      }
    }

    method RecordState(id: string, state: string)
      requires Valid() && id in sessions
      modifies this`sessions, system`timers, system`nextTimer
      ensures Valid() && id in sessions
      ensures var now, s := old(sessions)[id].(activeState := state), sessions[id];
        s == now.(installerLaunchScheduled := s.installerLaunchScheduled, installerSource := s.installerSource) &&
        Noted(old(Now()), liveEnvironment, id, now, Now()) &&
        (now.starting ==> s == now && system.timers == old(system.timers)) &&
        Now() == old(Now()).(sessions := old(sessions)[id := s], timers := system.timers)
    {
      hide Owned;
      EntryOf(id);
      SetState(id, sessions[id].(activeState := state));
      var s := sessions[id];
      if !s.starting && liveEnvironment && state == "active" && s.username == LIVE_USER &&
         !s.installerLaunchScheduled && !s.installerStarted {
        ScheduleInstaller(id);
        assert sessions == old(sessions)[id := sessions[id]];
        assert Now() == WithTimer(old(Now()), id, s, sessions[id].installerSource);
      }
    }

    method ScheduleInstaller(id: string)
      requires Valid() && id in sessions && !sessions[id].starting
      requires !sessions[id].installerLaunchScheduled && !sessions[id].installerStarted
      modifies this`sessions, system`timers, system`nextTimer
      ensures Valid() && id in sessions && sessions.Keys == old(sessions).Keys
      ensures sessions[id].installerSource !in old(system.timers) && sessions[id].installerLaunchScheduled
      ensures sessions == old(sessions)[id :=
                old(sessions)[id].(installerLaunchScheduled := true, installerSource := sessions[id].installerSource)]
      ensures system.timers == old(system.timers)[sessions[id].installerSource := id]
    {
      hide Owned;
      EntryOf(id);
      var source := system.AddTimer(id);
      var s := sessions[id].(installerLaunchScheduled := true, installerSource := source);
      OwnedTimed(sessions, system.children, system.openFds, old(system.timers), id, s);
      SubscribedUpdate(sessions, id, s);
      sessions := sessions[id := s];
    }

    /** Stops a started session whose unit failed or ended. */
    method EvaluateSessionState(id: string) returns (outcome: Outcome)
      requires Valid() && id in sessions
      modifies this, system
      ensures Valid() && NewLeadersOnly()
      ensures old(sessions)[id].starting ==> outcome == Done && Same()
      ensures !StopDue(old(sessions)[id]) ==> Same()
      ensures !old(sessions)[id].starting && StopDue(old(sessions)[id]) ==> Stopped(old(Now()), id, Now())
      decreases if sessions[id].starting then 0 else 17
    {
      hide Owned;
      EntryOf(id);
      var s := sessions[id];
      if s.starting { return Done; }
      if s.activeState == "failed" || (s.result != "success" && s.result != "") {
        outcome := StopSession(s.id);
        return;
      }
      if s.activeState == "inactive" && s.result == "success" {
        outcome := StopSession(s.id);
        return;
      }
      outcome := Done;
    }
  }
}
