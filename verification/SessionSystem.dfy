/** What the session manager uses of the operating system and the main loop: session leader processes, control pipes and
    timers. Waiting for a process that is not an unreaped child, closing a descriptor that is not open and removing a
    timer that is not pending are ruled out by preconditions. */
module SessionSystem {

  class System {
    /** Leaders that were started and not yet reaped. */
    var children: set<nat>
    var openFds: set<nat>
    /** Pending timers and the session each is for. */
    var timers: map<nat, string>
    var nextPid: nat
    var nextFd: nat
    var nextTimer: nat
    ghost var reaped: multiset<nat>

    /** Every leader ever started is either a child or was reaped, exactly once. */
    ghost predicate Valid()
      reads this
    {
      0 < nextPid && 0 < nextTimer &&
      (forall p <- children :: 0 < p < nextPid) && (forall f <- openFds :: f < nextFd) &&
      (forall t <- timers :: 0 < t < nextTimer) &&
      (forall p: nat :: reaped[p] == if 0 < p < nextPid && p !in children then 1 else 0)
    }

    constructor ()
      ensures Valid() && children == {} && openFds == {} && timers == map[]
    {
      children, openFds, timers, reaped := {}, {}, map[], multiset{};
      nextPid, nextFd, nextTimer := 1, 0, 1;
    }

    method Fork() returns (pid: nat)
      requires Valid()
      modifies this`children, this`nextPid
      ensures Valid() && 0 < pid && pid !in old(children) && children == old(children) + {pid}
    {
      pid := nextPid;
      nextPid := nextPid + 1;
      children := children + {pid};
    }

    method OpenPipe() returns (fd: nat)
      requires Valid()
      modifies this`openFds, this`nextFd
      ensures Valid() && fd !in old(openFds) && openFds == old(openFds) + {fd}
    {
      fd := nextFd;
      nextFd := nextFd + 1;
      openFds := openFds + {fd};
    }

    method Close(fd: nat)
      requires Valid() && fd in openFds
      modifies this`openFds
      ensures Valid() && openFds == old(openFds) - {fd}
    {
      openFds := openFds - {fd};
    }

    /** `waitpid` with `WNOHANG`: the child may or may not have exited. */
    method Poll(pid: nat) returns (exited: bool)
      requires Valid() && pid in children
      modifies this`children, this`reaped
      ensures Valid() && children == if exited then old(children) - {pid} else old(children)
    {
      exited := *;
      if exited { reaped, children := reaped[pid := reaped[pid] + 1], children - {pid}; }
    }

    /** `SIGKILL` and a blocking `waitpid`. */
    method KillAndWait(pid: nat)
      requires Valid() && pid in children
      modifies this`children, this`reaped
      ensures Valid() && children == old(children) - {pid}
    {
      reaped, children := reaped[pid := reaped[pid] + 1], children - {pid};
    }

    method AddTimer(session: string) returns (id: nat)
      requires Valid()
      modifies this`timers, this`nextTimer
      ensures Valid() && id != 0 && id !in old(timers) && timers == old(timers)[id := session]
    {
      id := nextTimer;
      nextTimer := nextTimer + 1;
      timers := timers[id := session];
    }

    method RemoveTimer(id: nat)
      requires Valid() && id in timers
      modifies this`timers
      ensures Valid() && timers == old(timers) - {id}
    {
      timers := timers - {id};
    }
  }

  // ---------- the session table ----------

  datatype Session = Session(
    id: string,
    username: string,
    uid: nat,
    leaderPid: nat,
    controlFd: int,
    seat: string,
    activeState: string,
    result: string,
    installerLaunchScheduled: bool,
    installerStarted: bool,
    installerSource: nat,
    starting: bool,
    startJobs: seq<string>)

  /** A table entry by itself: its leader and control pipe exist, and only a session that has started has a timer, and
      only before its installer ran. */
  ghost predicate Entry(id: string, s: Session) {
    s.id == id && id != "" && s.leaderPid > 0 && s.controlFd >= 0 &&
    (s.installerSource != 0 ==> !s.starting && s.installerLaunchScheduled && !s.installerStarted) &&
    (s.installerStarted ==> s.installerLaunchScheduled)
  }

  type Table = map<string, Session>

  function Leaders(sessions: Table): set<nat> {
    set id <- sessions :: sessions[id].leaderPid
  }

  function Pipes(sessions: Table): set<nat> {
    set id <- sessions | sessions[id].controlFd >= 0 :: sessions[id].controlFd
  }

  /** No two entries share a leader or a control pipe. */
  ghost predicate Apart(sessions: Table) {
    forall a, b | a in sessions && b in sessions && a != b ::
      sessions[a].leaderPid != sessions[b].leaderPid && sessions[a].controlFd != sessions[b].controlFd
  }

  /** Pending timers are those the entries name, each for the session that names it. */
  ghost predicate TimersNamed(sessions: Table, timers: map<nat, string>) {
    (forall t <- timers :: timers[t] in sessions && sessions[timers[t]].installerSource == t && t != 0) &&
    (forall id <- sessions :: sessions[id].installerSource != 0 ==>
       sessions[id].installerSource in timers && timers[sessions[id].installerSource] == id)
  }

  /** Leaders, control pipes and timers correspond one-to-one to table entries, besides the leader and pipe that a
      session being created or undone holds on its own. */
  ghost predicate Owned(sessions: Table, children: set<nat>, openFds: set<nat>, timers: map<nat, string>,
                        pids: set<nat>, fds: set<nat>)
  {
    (forall id <- sessions :: Entry(id, sessions[id])) && Apart(sessions) && TimersNamed(sessions, timers) &&
    children == Leaders(sessions) + pids && Leaders(sessions) !! pids &&
    openFds == Pipes(sessions) + fds && Pipes(sessions) !! fds
  }

  lemma NewTimerless(sessions: Table, timers: map<nat, string>, id: string, s: Session)
    requires TimersNamed(sessions, timers) && id !in sessions && s.installerSource == 0
    ensures TimersNamed(sessions[id := s], timers)
  {
  }

  lemma OwnedAdded(sessions: Table, children: set<nat>, openFds: set<nat>, timers: map<nat, string>, id: string,
                   s: Session)
    requires s.controlFd >= 0 && Owned(sessions, children, openFds, timers, {s.leaderPid}, {s.controlFd})
    requires id !in sessions && Entry(id, s) && s.installerSource == 0
    ensures Owned(sessions[id := s], children, openFds, timers, {}, {})
  {
    hide TimersNamed;
    var sessions' := sessions[id := s];
    NewTimerless(sessions, timers, id, s);
    forall a <- sessions ensures sessions'[a] == sessions[a] && sessions[a].leaderPid in Leaders(sessions) {
      assert Entry(a, sessions[a]) && sessions[a].controlFd in Pipes(sessions);
    }
    assert sessions' - {id} == sessions;
    LeaderSplit(sessions', id);
    PipeSplit(sessions', id);
  }

  lemma LeaderSplit(sessions: Table, id: string)
    requires id in sessions && Apart(sessions)
    ensures Leaders(sessions) == Leaders(sessions - {id}) + {sessions[id].leaderPid}
    ensures sessions[id].leaderPid !in Leaders(sessions - {id})
  {
    var rest := sessions - {id};
    forall a <- rest ensures rest[a] == sessions[a] && sessions[a].leaderPid != sessions[id].leaderPid {
    }
    forall p | p in Leaders(sessions) ensures p in Leaders(rest) + {sessions[id].leaderPid} {
      var a :| a in sessions && sessions[a].leaderPid == p;
      if a != id { assert a in rest; }
    }
  }

  lemma PipeSplit(sessions: Table, id: string)
    requires id in sessions && Apart(sessions) && sessions[id].controlFd >= 0
    ensures Pipes(sessions) == Pipes(sessions - {id}) + {sessions[id].controlFd}
    ensures sessions[id].controlFd !in Pipes(sessions - {id})
  {
    var rest := sessions - {id};
    forall a <- rest ensures rest[a] == sessions[a] && sessions[a].controlFd != sessions[id].controlFd {
    }
    forall f | f in Pipes(sessions) ensures f in Pipes(rest) + {sessions[id].controlFd as nat} {
      var a :| a in sessions && sessions[a].controlFd == f;
      if a != id { assert a in rest; }
    }
  }

  lemma OwnedRemoved(sessions: Table, children: set<nat>, openFds: set<nat>, timers: map<nat, string>, id: string)
    requires Owned(sessions, children, openFds, timers, {}, {}) && id in sessions
    ensures var s := sessions[id];
            s.controlFd >= 0 && s.leaderPid in children && s.controlFd in openFds &&
            (s.installerSource != 0 ==> s.installerSource in timers) &&
            Owned(sessions - {id}, children, openFds, timers - {s.installerSource}, {s.leaderPid}, {s.controlFd})
  {
    hide Leaders, Pipes;
    var s, sessions' := sessions[id], sessions - {id};
    assert Entry(id, s);
    forall a <- sessions' ensures sessions'[a] == sessions[a] && Entry(a, sessions'[a]) {
    }
    LeaderSplit(sessions, id);
    PipeSplit(sessions, id);
  }

  lemma OwnedReleased(sessions: Table, children: set<nat>, openFds: set<nat>, timers: map<nat, string>, pid: nat,
                      fd: nat)
    requires Owned(sessions, children, openFds, timers, {pid}, {fd})
    ensures Owned(sessions, children - {pid}, openFds - {fd}, timers, {}, {})
  {
  }

  lemma OwnedTaken(sessions: Table, children: set<nat>, openFds: set<nat>, timers: map<nat, string>, pid: nat, fd: nat)
    requires Owned(sessions, children, openFds, timers, {}, {}) && pid !in children && fd !in openFds
    ensures Owned(sessions, children + {pid}, openFds + {fd}, timers, {pid}, {fd})
    ensures children + {pid} - {pid} == children && openFds + {fd} - {fd} == openFds
  {
  }

  /** A change of an entry that leaves its leader, pipe and timer alone. */
  lemma OwnedUpdated(sessions: Table, children: set<nat>, openFds: set<nat>, timers: map<nat, string>, id: string,
                     s: Session)
    requires Owned(sessions, children, openFds, timers, {}, {}) && id in sessions && Entry(id, s)
    requires s.leaderPid == sessions[id].leaderPid && s.controlFd == sessions[id].controlFd
    requires s.installerSource == sessions[id].installerSource
    ensures Owned(sessions[id := s], children, openFds, timers, {}, {})
  {
    var sessions' := sessions[id := s];
    assert forall a <- sessions ::
      sessions'[a].leaderPid == sessions[a].leaderPid && sessions'[a].controlFd == sessions[a].controlFd;
    assert Leaders(sessions') == Leaders(sessions);
    assert Pipes(sessions') == Pipes(sessions);
  }

  lemma OwnedTimed(sessions: Table, children: set<nat>, openFds: set<nat>, timers: map<nat, string>, id: string,
                   s: Session)
    requires Owned(sessions, children, openFds, timers, {}, {}) && id in sessions && Entry(id, s)
    requires s.leaderPid == sessions[id].leaderPid && s.controlFd == sessions[id].controlFd
    requires sessions[id].installerSource == 0 && s.installerSource != 0 && s.installerSource !in timers
    ensures Owned(sessions[id := s], children, openFds, timers[s.installerSource := id], {}, {})
  {
    var sessions' := sessions[id := s];
    assert forall a <- sessions ::
      sessions'[a].leaderPid == sessions[a].leaderPid && sessions'[a].controlFd == sessions[a].controlFd;
    assert Leaders(sessions') == Leaders(sessions);
    assert Pipes(sessions') == Pipes(sessions);
  }

  lemma OwnedTimedOut(sessions: Table, children: set<nat>, openFds: set<nat>, timers: map<nat, string>, id: string,
                      s: Session)
    requires Owned(sessions, children, openFds, timers, {}, {}) && id in sessions && Entry(id, s)
    requires s.leaderPid == sessions[id].leaderPid && s.controlFd == sessions[id].controlFd
    requires s.installerSource == 0 && sessions[id].installerSource != 0
    ensures Owned(sessions[id := s], children, openFds, timers - {sessions[id].installerSource}, {}, {})
  {
    var sessions' := sessions[id := s];
    assert forall a <- sessions ::
      sessions'[a].leaderPid == sessions[a].leaderPid && sessions'[a].controlFd == sessions[a].controlFd;
    assert Leaders(sessions') == Leaders(sessions);
    assert Pipes(sessions') == Pipes(sessions);
  }

  lemma NoLeaders()
    ensures Leaders(map[]) == {} && Pipes(map[]) == {}
  {
  }

  lemma RestApart(sessions: Table, id: string)
    requires Apart(sessions) && forall a <- sessions :: sessions[a].controlFd >= 0
    ensures Apart(sessions - {id}) && forall a <- sessions - {id} :: (sessions - {id})[a].controlFd >= 0
  {
  }

  /** One-to-one in numbers: as many leaders and open control pipes as sessions. */
  lemma {:induction false} AsManyLeadersAsSessions(sessions: Table)
    requires Apart(sessions) && forall id <- sessions :: sessions[id].controlFd >= 0
    ensures |Leaders(sessions)| == |sessions.Keys| == |Pipes(sessions)|
    decreases sessions.Keys
  {
    hide Leaders, Pipes, Apart;
    if sessions.Keys == {} {
      NoLeaders();
      assert sessions == map[];
    } else {
      var id :| id in sessions.Keys;
      var rest := sessions - {id};
      RestApart(sessions, id);
      AsManyLeadersAsSessions(rest);
      LeaderSplit(sessions, id);
      PipeSplit(sessions, id);
      assert sessions.Keys == rest.Keys + {id};
    }
  }
}
