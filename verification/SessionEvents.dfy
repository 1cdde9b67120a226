/** Everything that reaches the session manager from outside, and whole runs of it up to its destruction. */
module SessionEvents {
  import opened Common
  import opened SessionSystem
  import opened SessionLifecycle

  // ---------- requests ----------

  predicate IsGreeter(m: SessionManager, uid: nat)
    reads m
  {
    m.greeterSessionID in m.sessions && m.sessions[m.greeterSessionID].uid == uid
  }

  /** A session was created for a client: there is one more session, except that an active greeter that still has a
      session made way for it. */
  ghost predicate SessionCreated(v: View, username: string, a: Answers, v': View)
    requires StartGranted(a)
  {
    var id := a.id;
    id !in v.sessions && (id in v'.sessions ==> Opened(v'.sessions[id], username, a)) &&
    if v.isGreeterActive && v.greeterSessionID in v.sessions.Keys + {id} then
      v'.sessions - {id} == v.sessions - {v.greeterSessionID} && !v'.isGreeterActive && v'.greeterSessionID == "" &&
      (id in v'.sessions <==> id != v.greeterSessionID)
    else
      id in v'.sessions && v'.sessions - {id} == v.sessions &&
      v'.greeterSessionID == v.greeterSessionID && v'.isGreeterActive == v.isGreeterActive
  }

  /** Root or the greeter may create sessions. */
  method OnCreateSession(m: SessionManager, allowed: bool, senderUid: nat, username: string, answers: Answers)
    returns (creation: Creation)
    requires m.Valid()
    modifies m, m.system
    ensures m.Valid()
    ensures creation.Refused? ==> m.Now() == old(m.Now())
    ensures creation.Created? <==>
      allowed && username != "" && Grants(answers, old(m.sessions)) &&
      (senderUid == 0 || (old(m.greeterSessionID) in old(m.sessions) &&
                          old(m.sessions)[old(m.greeterSessionID)].uid == senderUid))
    ensures creation.Created? ==> creation.id == answers.id && creation.uid == answers.uid
    ensures creation.Created? ==> SessionCreated(old(m.Now()), username, answers, m.Now())
  {
    hide Owned;
    if !allowed { return Refused("Unauthorized process"); }
    if username == "" { return Refused("Missing username"); }
    if senderUid != 0 && !IsGreeter(m, senderUid) { return Refused("Only greeter may call CreateSession"); }
    creation := m.CreateSession(username, false, answers);
  }

  /** Stops the sender's session. With an empty id the sender's session is looked up and checked, but the empty id is
      what is stopped, so the request always fails. */
  method OnStopSession(m: SessionManager, allowed: bool, senderUid: nat, id: string) returns (outcome: Outcome)
    requires m.Valid()
    modifies m, m.system
    ensures m.Valid()
    ensures id == "" ==> outcome == Failed && m.Now() == old(m.Now())
    ensures if allowed && id in old(m.sessions) && old(m.sessions)[id].uid == senderUid
            then Stopped(old(m.Now()), id, m.Now()) else outcome == Failed && m.Now() == old(m.Now())
  {
    hide Owned;
    if !allowed { return Failed; }
    NoEmptyId(m);
    if id == "" {
      if !exists k <- m.sessions :: m.sessions[k].uid == senderUid { return Failed; }
    } else {
      if id !in m.sessions { return Failed; }
      if m.sessions[id].uid != senderUid { return Failed; }
    }
    outcome := m.StopSession(id);
  }

  lemma NoEmptyId(m: SessionManager)
    requires m.Valid()
    ensures "" !in m.sessions
  {
  }

  // ---------- messages of the user manager ----------

  /** The jobs less the first occurrence of one of them, the others in order. */
  ghost predicate TookOut(jobs: seq<string>, job: string, left: seq<string>) {
    exists front, back :: jobs == front + [job] + back && left == front + back && job !in front
  }

  method TakeOut(jobs: seq<string>, job: string) returns (left: seq<string>)
    requires job in jobs
    ensures TookOut(jobs, job, left)
  {
    var i := IndexOf(jobs, job);
    left := jobs[..i] + jobs[i + 1..];
    assert jobs == jobs[..i] + [job] + jobs[i + 1..];
  }

  /** One occurrence of the job is gone, and no other. */
  lemma TookOutOne(jobs: seq<string>, job: string, left: seq<string>)
    requires TookOut(jobs, job, left)
    ensures multiset(jobs) == multiset(left) + multiset{job} && |jobs| == |left| + 1 && job in jobs
  {
    var front, back :| jobs == front + [job] + back && left == front + back && job !in front;
    assert multiset(jobs) == multiset(front) + multiset{job} + multiset(back);
  }

  /** A start job ended: a failure stops the session, and with the last success the session has started. */
  method HandleSessionJobRemoved(m: SessionManager, id: string, job: string, result: string, answer: UnitAnswer)
    returns (outcome: Outcome)
    requires m.Valid()
    modifies m, m.system
    ensures m.Valid()
    ensures JobEnded(old(m.Now()), m.liveEnvironment, id, job, result, answer, m.Now())
    ensures id in old(m.sessions) && old(m.sessions)[id].startJobs == [job] && result == "done" ==>
      id in m.sessions && m.sessions[id].leaderPid == old(m.sessions)[id].leaderPid ==> !m.sessions[id].starting
    ensures id in old(m.sessions) && job in old(m.sessions)[id].startJobs && result == "done" &&
            |old(m.sessions)[id].startJobs| > 1 ==>
      id in m.sessions && TookOut(old(m.sessions)[id].startJobs, job, m.sessions[id].startJobs) &&
      m.Now() == old(m.Now()).(sessions :=
        old(m.sessions)[id := old(m.sessions)[id].(startJobs := m.sessions[id].startJobs)])
  {
    hide Owned, Refreshed, Stopped, TookOut, JobEnded, Sound;
    NoJobEnded(m.Now(), m.liveEnvironment, id, job, result, answer);
    if id !in m.sessions || job !in m.sessions[id].startJobs { return Done; }
    ghost var v, before := m.Now(), m.sessions[id];
    var left := TakeOut(m.sessions[id].startJobs, job);
    TookOutOne(before.startJobs, job, left);
    SetJobs(m, id, left);
    if result != "done" {
      outcome := m.StopSession(id);
      StoppedAfterUpdate(v, id, before.(startJobs := left), m.Now());
    } else if left == [] {
      outcome := FinishStart(m, id, answer);
    } else {
      outcome := Done;
    }
    JobEndedBy(v, m.liveEnvironment, id, job, result, answer, left, m.Now());
  }

  /** With its last job ended a session counts as started, and its unit state is read. */
  method FinishStart(m: SessionManager, id: string, answer: UnitAnswer) returns (outcome: Outcome)
    requires m.Valid() && id in m.sessions
    modifies m, m.system
    ensures m.Valid()
    ensures Refreshed(old(m.Now()).(sessions := old(m.sessions)[id := old(m.sessions)[id].(starting := false)]),
                      m.liveEnvironment, id, answer, m.Now())
    ensures id in m.sessions && m.sessions[id].leaderPid == old(m.sessions)[id].leaderPid ==> !m.sessions[id].starting
  {
    hide Owned, Refreshed;
    m.EntryOf(id);
    ghost var begun := m.sessions[id].(starting := false);
    m.SetState(id, m.sessions[id].(starting := false));
    outcome := m.RefreshSessionState(id, answer);
    if id in m.sessions && m.sessions[id].leaderPid == begun.leaderPid {
      BegunStaysBegun(old(m.Now()), m.liveEnvironment, id, begun, answer, m.Now());
    }
  }

  /** What the end of a start job does: nothing when it is not one of the session's, the session's end when it failed,
      and with the last success the session counts as started and its unit state is read. */
  ghost predicate JobEnded(v: View, live: bool, id: string, job: string, result: string, answer: UnitAnswer, v': View) {
    if id !in v.sessions || job !in v.sessions[id].startJobs then v' == v
    else if result != "done" then Stopped(v, id, v')
    else exists left ::
           TookOut(v.sessions[id].startJobs, job, left) && JobDone(v, live, id, left, answer, v')
  }

  /** These start jobs are left; with none left the session counts as started and its unit state is read. */
  ghost predicate JobDone(v: View, live: bool, id: string, left: seq<string>, answer: UnitAnswer, v': View)
    requires id in v.sessions
  {
    var s := v.sessions[id].(startJobs := left);
    if left != [] then v' == v.(sessions := v.sessions[id := s])
    else Refreshed(v.(sessions := v.sessions[id := s.(starting := false)]), live, id, answer, v')
  }

  lemma NoJobEnded(v: View, live: bool, id: string, job: string, result: string, answer: UnitAnswer)
    ensures id !in v.sessions || job !in v.sessions[id].startJobs ==> JobEnded(v, live, id, job, result, answer, v)
  {
  }

  lemma JobEndedBy(v: View, live: bool, id: string, job: string, result: string, answer: UnitAnswer,
                   left: seq<string>, v': View)
    requires id in v.sessions && job in v.sessions[id].startJobs && TookOut(v.sessions[id].startJobs, job, left)
    requires if result != "done" then Stopped(v, id, v')
             else var s := v.sessions[id].(startJobs := left);
                  if left != [] then v' == v.(sessions := v.sessions[id := s])
                  else Refreshed(v.(sessions := v.sessions[id := s][id := s.(starting := false)]), live, id, answer, v')
    ensures JobEnded(v, live, id, job, result, answer, v')
  {
    hide Refreshed, Stopped, TookOut;
    var s := v.sessions[id].(startJobs := left);
    assert v.sessions[id := s][id := s.(starting := false)] == v.sessions[id := s.(starting := false)];
  }

  method SetJobs(m: SessionManager, id: string, left: seq<string>)
    requires m.Valid() && id in m.sessions
    modifies m`sessions
    ensures m.Valid()
    ensures m.Now() == old(m.Now()).(sessions := old(m.sessions)[id := old(m.sessions)[id].(startJobs := left)])
  {
    hide Owned;
    m.EntryOf(id);
    m.SetState(id, m.sessions[id].(startJobs := left));
  }

  /** A session that counts as started goes on counting as such until its leader is gone. */
  lemma BegunStaysBegun(v: View, live: bool, id: string, begun: Session, answer: UnitAnswer, v': View)
    requires !begun.starting && Sound(v') && Refreshed(v.(sessions := v.sessions[id := begun]), live, id, answer, v')
    requires id in v'.sessions && v'.sessions[id].leaderPid == begun.leaderPid
    ensures !v'.sessions[id].starting
  {
    hide Subscribed;
    LeaderOwned(v', id);
  }

  lemma LeaderOwned(v: View, id: string)
    requires Sound(v) && id in v.sessions
    ensures v.sessions[id].leaderPid in v.children
  {
    OwnedRemoved(v.sessions, v.children, v.openFds, v.timers, id);
  }

  method HandleDisconnected(m: SessionManager, id: string) returns (outcome: Outcome)
    requires m.Valid()
    modifies m, m.system
    ensures m.Valid()
    ensures if id in old(m.sessions) then Stopped(old(m.Now()), id, m.Now()) else m.Now() == old(m.Now())
  {
    hide Owned;
    if id !in m.sessions { return Done; }
    outcome := m.StopSession(id);
  }

  // ---------- the installer timer ----------

  /** A pending timer fires: its session is there and waits for it, and the installer starts if the session is still
      active. The main loop drops the timer. */
  method FireTimer(m: SessionManager, source: nat) returns (started: bool)
    requires m.Valid() && source in m.system.timers
    modifies m`sessions, m.system`timers
    ensures m.Valid() && m.system.timers == old(m.system.timers) - {source}
    ensures var id := old(m.system.timers)[source];
            id in old(m.sessions) && old(m.sessions)[id].installerSource == source &&
                !old(m.sessions)[id].installerStarted &&
            (started <==> old(m.sessions)[id].activeState == "active") &&
            m.sessions == old(m.sessions)[id := old(m.sessions)[id].(installerSource := 0, installerStarted := started)]
  {
    hide Owned;
    var id := m.system.timers[source];
    TimerHasSession(m, source);
    m.EntryOf(id);
    var session := m.sessions[id].(installerSource := 0);
    started := session.activeState == "active" && !session.installerStarted;
    session := session.(installerStarted := session.installerStarted || started);
    OwnedTimedOut(m.sessions, m.system.children, m.system.openFds, m.system.timers, id, session);
    SubscribedUpdate(m.sessions, id, session);
    m.sessions := m.sessions[id := session];
    m.system.RemoveTimer(source);
  }

  lemma TimerHasSession(m: SessionManager, source: nat)
    requires m.Valid() && source in m.system.timers
    ensures m.system.timers[source] in m.sessions && source != 0
    ensures m.sessions[m.system.timers[source]].installerSource == source
  {
  }

  // ---------- the greeter flag ----------

  /** The greeter's own end leaves the flag behind: it names a session that is gone, and no login session is created any
      more. */
  method GreeterFlagGoesStale(m: SessionManager, selected: Option<string>, auto: Answers, greeter: Answers)
    requires m.Valid() && m.isGreeterActive && m.greeterSessionID in m.sessions
    modifies m, m.system
    ensures m.Valid() && m.isGreeterActive && m.greeterSessionID == old(m.greeterSessionID)
    ensures m.greeterSessionID !in m.sessions && m.sessions == old(m.sessions) - {old(m.greeterSessionID)}
  {
    hide Owned;
    var _ := m.StopSession(m.greeterSessionID);
    var outcome := m.CreateLoginSession(selected, auto, greeter);
  }

  /** The flag names no session after a stop exactly when it was set and either the greeter itself was stopped or it
      named none before. */
  lemma GreeterStaleExactly(v: View, id: string, v': View)
    requires Stopped(v, id, v')
    ensures v'.isGreeterActive && v'.greeterSessionID !in v'.sessions <==>
            v.isGreeterActive && (id == v.greeterSessionID || v.greeterSessionID !in v.sessions)
  {
  }

  // ---------- destruction ----------

  method TerminateAll(m: SessionManager)
    requires m.Valid()
    modifies m`sessions, m.system`children, m.system`openFds, m.system`reaped
    ensures m.system.Valid() && m.system.children == {} && m.system.openFds == {}
    ensures m.sessions.Keys == old(m.sessions).Keys
    ensures forall id <- m.sessions :: m.sessions[id].installerSource == old(m.sessions)[id].installerSource
  {
    hide Remaining, Sound;
    ghost var before, rest := m.sessions, m.sessions;
    AllRemain(m.Now());
    var left := m.sessions.Keys;
    while left != {}
      invariant left == rest.Keys && m.sessions.Keys == before.Keys && m.system.Valid()
      invariant Remaining(rest, m.sessions, m.system.children, m.system.openFds)
      invariant forall id <- before :: m.sessions[id].installerSource == before[id].installerSource
      decreases left
    {
      var id :| id in left;
      left := left - {id};
      OneLess(rest, m.sessions, m.system.children, m.system.openFds, id);
      m.TerminatePAMForSession(id);
      rest := rest - {id};
    }
    NoneRemain(rest, m.sessions, m.system.children, m.system.openFds);
  }

  /** The sessions still to be ended own all leaders and pipes there are. */
  ghost predicate Remaining(rest: Table, sessions: Table, children: set<nat>, openFds: set<nat>) {
    (forall id <- rest :: id in sessions && rest[id] == sessions[id] && Entry(id, rest[id])) &&
    Apart(rest) && children == Leaders(rest) && openFds == Pipes(rest)
  }

  lemma AllRemain(v: View)
    requires Sound(v)
    ensures Remaining(v.sessions, v.sessions, v.children, v.openFds)
  {
    hide Leaders, Pipes, Apart, Entry;
  }

  lemma OneLess(rest: Table, sessions: Table, children: set<nat>, openFds: set<nat>, id: string)
    requires Remaining(rest, sessions, children, openFds) && id in rest
    ensures id in sessions && sessions[id].leaderPid > 0 && sessions[id].leaderPid in children
    ensures sessions[id].controlFd >= 0 && sessions[id].controlFd in openFds
    ensures Remaining(rest - {id}, sessions[id := sessions[id].(leaderPid := 0, controlFd := -1)],
                      children - {sessions[id].leaderPid}, openFds - {sessions[id].controlFd})
  {
    hide Leaders, Pipes, Apart;
    LeaderSplit(rest, id);
    PipeSplit(rest, id);
    RestApart(rest, id);
  }

  lemma NoneRemain(rest: Table, sessions: Table, children: set<nat>, openFds: set<nat>)
    requires Remaining(rest, sessions, children, openFds) && rest.Keys == {}
    ensures children == {} && openFds == {}
  {
    assert rest == map[];
    NoLeaders();
  }

  method RemoveTimers(m: SessionManager)
    requires m.system.Valid() && TimersNamed(m.sessions, m.system.timers)
    modifies m.system`timers
    ensures m.system.Valid() && m.system.timers == map[]
  {
    var left := m.sessions.Keys;
    while left != {}
      invariant left <= m.sessions.Keys && m.system.Valid()
      invariant forall t <- m.system.timers ::
        m.system.timers[t] in left && m.sessions[m.system.timers[t]].installerSource == t && t != 0
      invariant forall id <- left :: m.sessions[id].installerSource != 0 ==>
        m.sessions[id].installerSource in m.system.timers && m.system.timers[m.sessions[id].installerSource] == id
      decreases left
    {
      var id :| id in left;
      left := left - {id};
      if m.sessions[id].installerSource != 0 {
        m.system.RemoveTimer(m.sessions[id].installerSource);
      }
    }
    assert m.system.timers.Keys == {};
  }

  /** Destroying the manager leaves no leader, no control pipe and no timer. */
  method Destroy(m: SessionManager)
    requires m.Valid()
    modifies m, m.system
    ensures m.system.Valid() && m.system.children == {} && m.system.openFds == {} && m.system.timers == map[]
    ensures m.sessions == map[] && m.subscriptions == map[] && !m.isGreeterActive
  {
    TerminateAll(m);
    assert TimersNamed(m.sessions, m.system.timers);
    RemoveTimers(m);
    m.subscriptions := map[];
    m.sessions := map[];
    m.greeterSessionID := "";
    m.isGreeterActive := false;
  }

  // ---------- runs ----------

  datatype Event =
    | Idle(selected: Option<string>, auto: Answers, greeter: Answers)
    | CreateRequest(allowed: bool, senderUid: nat, username: string, answers: Answers)
    | StopRequest(allowed: bool, senderUid: nat, id: string)
    | JobRemoved(id: string, job: string, result: string, answer: UnitAnswer)
    | PropertiesChanged(id: string, answer: UnitAnswer)
    | Disconnected(id: string)
    | TimerFired(source: nat)

  /** One event. */
  ghost predicate Step(v: View, live: bool, event: Event, v': View) {
    match event
    case Idle(selected, auto, greeter) =>
      if !v.isGreeterActive && (AutologinGranted(live, selected, auto, v.sessions) || Grants(greeter, v.sessions))
      then LoggedIn(v.sessions, v.greeterSessionID, live, selected, auto, greeter, v') else v' == v
    case CreateRequest(allowed, senderUid, username, answers) =>
      if allowed && username != "" && (senderUid == 0 || GreeterUid(v, senderUid)) && Grants(answers, v.sessions)
      then SessionCreated(v, username, answers, v') else v' == v
    case StopRequest(allowed, senderUid, id) =>
      if allowed && id in v.sessions && v.sessions[id].uid == senderUid then Stopped(v, id, v') else v' == v
    case JobRemoved(id, job, result, answer) => JobEnded(v, live, id, job, result, answer, v')
    case PropertiesChanged(id, answer) => Refreshed(v, live, id, answer, v')
    case Disconnected(id) => if id in v.sessions then Stopped(v, id, v') else v' == v
    case TimerFired(source) => if source in v.timers then Fired(v, source, v') else v' == v
  }

  predicate GreeterUid(v: View, uid: nat) {
    v.greeterSessionID in v.sessions && v.sessions[v.greeterSessionID].uid == uid
  }

  /** The timer is gone, and its session's installer started if the session is active. */
  ghost predicate Fired(v: View, source: nat, v': View)
    requires source in v.timers
  {
    var id := v.timers[source];
    id in v.sessions && v.sessions[id].installerSource == source && !v.sessions[id].installerStarted &&
    v' == v.(sessions := v.sessions[id :=
               v.sessions[id].(installerSource := 0, installerStarted := v.sessions[id].activeState == "active")],
             timers := v.timers - {source})
  }

  method Handle(m: SessionManager, event: Event)
    requires m.Valid()
    modifies m, m.system
    ensures m.Valid() && Step(old(m.Now()), m.liveEnvironment, event, m.Now())
  {
    hide Owned, Stopped, Refreshed, LoggedIn, SessionCreated, JobEnded;
    match event
    case Idle(selected, auto, greeter) => var _ := m.CreateLoginSession(selected, auto, greeter);
    case CreateRequest(allowed, senderUid, username, answers) =>
      var _ := OnCreateSession(m, allowed, senderUid, username, answers);
    case StopRequest(allowed, senderUid, id) => var _ := OnStopSession(m, allowed, senderUid, id);
    case JobRemoved(id, job, result, answer) => var _ := HandleSessionJobRemoved(m, id, job, result, answer);
    case PropertiesChanged(id, answer) => var _ := m.RefreshSessionState(id, answer);
    case Disconnected(id) => var _ := HandleDisconnected(m, id);
    case TimerFired(source) => if source in m.system.timers { var _ := FireTimer(m, source); }
  }

  /** The moments of a run, one before and one after every event. */
  ghost predicate IsRun(views: seq<View>, live: bool, events: seq<Event>) {
    |views| == |events| + 1 && forall i | 0 <= i < |events| :: Step(views[i], live, events[i], views[i + 1])
  }

  /** Whatever happens, and whatever stages of session creation fail, every event does its step, and after each one
      leaders, control pipes, timers and subscriptions correspond one-to-one to sessions. */
  method Run(m: SessionManager, events: seq<Event>) returns (ghost views: seq<View>)
    requires m.Valid()
    modifies m, m.system
    ensures m.Valid() && IsRun(views, m.liveEnvironment, events)
    ensures views[0] == old(m.Now()) && views[|events|] == m.Now() && forall v <- views :: Sound(v)
  {
    hide Sound, Step;
    views := [m.Now()];
    for i := 0 to |events|
      invariant m.Valid() && |views| == i + 1 && views[0] == old(m.Now()) && views[i] == m.Now()
      invariant forall v <- views :: Sound(v)
      invariant forall j | 0 <= j < i :: Step(views[j], m.liveEnvironment, events[j], views[j + 1])
    {
      Handle(m, events[i]);
      views := views + [m.Now()];
    }
  }

  /** From start to destruction: in the end every leader ever started has been reaped, exactly once. */
  method Lifetime(system: System, liveEnvironment: bool, events: seq<Event>) returns (ghost views: seq<View>)
    requires system.Valid() && system.children == {} && system.openFds == {} && system.timers == map[]
    modifies system
    ensures IsRun(views, liveEnvironment, events) && views[0].sessions == map[] && forall v <- views :: Sound(v)
    ensures system.openFds == {} && system.timers == map[]
    ensures forall p: nat :: 0 < p < system.nextPid ==> system.reaped[p] == 1
  {
    hide Sound, IsRun;
    var m := new SessionManager(system, liveEnvironment);
    views := Run(m, events);
    Destroy(m);
  }

  /** At every quiescent point the numbers agree too, and each leader is either the child of one session or reaped
      once. */
  lemma QuiescentCounts(m: SessionManager, id: string)
    requires m.Valid() && id in m.sessions
    ensures |m.system.children| == |m.sessions.Keys| == |m.system.openFds|
    ensures m.system.reaped[m.sessions[id].leaderPid] == 0
    ensures m.subscriptions.Keys == m.sessions.Keys
  {
    assert forall k <- m.sessions :: Entry(k, m.sessions[k]);
    AsManyLeadersAsSessions(m.sessions);
    assert m.sessions[id].leaderPid in Leaders(m.sessions);
  }
}
