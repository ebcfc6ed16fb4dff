/** The connection lifecycle of the host daemon as an interleaving of atomic steps: every critical
    section under the global mutex is one step, every operating-system command is one step, and a
    per-user mutex is taken and given back in steps of their own. */
module Protocol {
  import opened Options
  import opened HostOs

  /** Where a connection's goroutine stands in EnsureUser, the proxy loop or ReleaseUser. */
  datatype Pc =
    | Start                                         // before EnsureUser's first critical section
    | Rejected                                      // username owned by another identity
    | FirstWait                                     // first session: waiting for the user mutex
    | UserAdding                                    // about to run useradd
    | RollingBack                                   // useradd failed
    | FailUnlock | Failed
    | FirstMod | FirstSudo | FirstSnap              // usermod, sudoers file, snapshot of the sessions
    | FirstWrite(firstLines: seq<string>)           // about to replace the state file
    | FirstUnlock
    | LaterWait | LaterMod | LaterSudo | LaterUnlock
    | Active                                        // EnsureUser returned nil; bytes are being proxied
    | LastWait                                      // count reached zero: waiting for the user mutex
    | Teardown                                      // about to remove the sudoers file or the account
    | LastSnap
    | LastWrite(lastLines: seq<string>)
    | LastUnlock
    | Done
    | Untracked                                     // ReleaseUser found no session to release

  datatype Thread = Thread(identity: string, user: string, perms: Perms, pc: Pc)

  /** Facts about the past, read by no step:
      stuck - accounts that the last userdel on them failed to remove; kept - sudoers files that the
      last teardown failed to remove; stranded - sudoers files in place when a rollback took the last
      session; undercut - usernames whose account was missing when a rollback left sessions behind,
      or was deleted by a late teardown while in session, and has not been created since; torn -
      usernames a teardown has run for; rolled - usernames whose last session a rollback took. */
  datatype History = History(stuck: set<string>, kept: set<string>, stranded: set<string>, undercut: set<string>,
                             torn: set<string>, rolled: set<string>)

  datatype State = State(
    cleanup: bool,
    threads: map<nat, Thread>,
    sessions: map<string, int>,
    owners: map<string, string>,
    locks: map<string, Option<nat>>,                // userLocks, with the thread that holds each
    os: Os,
    hist: History)

  /** What the system answers to one step; order is the map iteration order of a snapshot. */
  datatype Outcome = Outcome(ok: bool, rm: bool, order: seq<string>)

  datatype Label =
    | Accept(conn: nat, identity: string, user: string, perms: Perms)
    | Go(t: nat, out: Outcome)

  function Init(cleanup: bool, os: Os): State {
    State(cleanup, map[], map[], map[], map[], os, History({}, {}, {}, {}, {}, {}))
  }

  predicate Finished(pc: Pc) {
    pc.Rejected? || pc.Failed? || pc.Done? || pc.Untracked?
  }

  function At(s: State, t: nat, pc: Pc): State
    requires t in s.threads
  {
    s.(threads := s.threads[t := s.threads[t].(pc := pc)])
  }

  /** EnsureUser, first critical section: ownership check and session count. */
  function Admit(s: State, t: nat): State
    requires t in s.threads
  {
    var th := s.threads[t];
    var u := th.user;
    if u in s.owners && s.owners[u] != th.identity then At(s, t, Rejected)
    else
      var n := Count(s.sessions, u) + 1;
      var locks := if u in s.locks then s.locks else s.locks[u := None];
      if n == 1 then
        At(s.(sessions := s.sessions[u := n], owners := s.owners[u := th.identity], locks := locks), t, FirstWait)
      else
        At(s.(sessions := s.sessions[u := n], locks := locks), t, LaterWait)
  }

  /** EnsureUser after a failed useradd: undo the count, forget the owner at zero. */
  function Rollback(s: State, t: nat): State
    requires t in s.threads
  {
    var u := s.threads[t].user;
    var n := Count(s.sessions, u) - 1;
    if n == 0 then
      At(s.(sessions := s.sessions - {u}, owners := s.owners - {u},
            hist := s.hist.(stranded := s.hist.stranded + ({u} * s.os.sudoers.Keys), rolled := s.hist.rolled + {u})),
         t, FailUnlock)
    else
      At(s.(sessions := s.sessions[u := n],
            hist := s.hist.(undercut := s.hist.undercut + ({u} - s.os.accounts))), t, FailUnlock)
  }

  /** ReleaseUser, critical section. */
  function Release(s: State, t: nat): State
    requires t in s.threads
  {
    var u := s.threads[t].user;
    if Count(s.sessions, u) <= 0 then At(s, t, Untracked)
    else
      var n := Count(s.sessions, u) - 1;
      if n > 0 then At(s.(sessions := s.sessions[u := n]), t, Done)
      else At(s.(sessions := s.sessions - {u}, owners := s.owners - {u}), t, LastWait)
  }

  /** Blocked on the user mutex. */
  predicate Waits(pc: Pc) {
    pc.FirstWait? || pc.LaterWait? || pc.LastWait?
  }

  /** About to give the user mutex back. */
  predicate Gives(pc: Pc) {
    pc.FailUnlock? || pc.FirstUnlock? || pc.LaterUnlock? || pc.LastUnlock?
  }

  /** The three critical sections that read and write the session books. */
  predicate Books(pc: Pc) {
    pc.Start? || pc.RollingBack? || pc.Active?
  }

  /** Every other step: where the thread goes next. */
  function NextPc(s: State, th: Thread, o: Outcome): Pc
    requires !Books(th.pc) && !Finished(th.pc)
  {
    match th.pc
    case FirstWait => UserAdding
    case UserAdding => if o.ok then FirstMod else RollingBack
    case FailUnlock => Failed
    case FirstMod => FirstSudo
    case FirstSudo => FirstSnap
    case FirstSnap => FirstWrite(o.order)
    case FirstWrite(_) => FirstUnlock
    case FirstUnlock => Active
    case LaterWait => LaterMod
    case LaterMod => LaterSudo
    case LaterSudo => LaterUnlock
    case LaterUnlock => Active
    case LastWait => Teardown
    case Teardown => if s.cleanup && !Deletes(s.os, th.user, o.ok) then LastUnlock else LastSnap
    case LastSnap => LastWrite(o.order)
    case LastWrite(_) => LastUnlock
    case LastUnlock => Done
  }

  /** ... which command it runs ... */
  function Command(s: State, th: Thread, o: Outcome): Os {
    match th.pc
    case UserAdding => UserAdd(s.os, th.user, o.ok)
    case FirstMod | LaterMod => UserMod(s.os, th.user, th.perms.groups, o.ok)
    case FirstSudo =>
      if th.perms.rule != "" then CreateSudoers(s.os, th.user, th.perms.rule, o.ok) else s.os
    case LaterSudo =>
      if th.perms.rule != "" then CreateSudoers(s.os, th.user, th.perms.rule, o.ok)
      else RemoveSudoers(s.os, th.user, o.ok)
    case Teardown =>
      if s.cleanup then DeleteUser(s.os, th.user, o.rm, o.ok) else RemoveSudoers(s.os, th.user, o.rm)
    case FirstWrite(lines) => WriteStateFile(s.os, lines, o.ok)
    case LastWrite(lines) => WriteStateFile(s.os, lines, o.ok)
    case _ => s.os
  }

  /** ... and what it does to its user's mutex. */
  function Mutexes(s: State, t: nat, th: Thread): map<string, Option<nat>> {
    if th.user !in s.locks then s.locks
    else if Waits(th.pc) then s.locks[th.user := Some(t)]
    else if Gives(th.pc) then s.locks[th.user := None]
    else s.locks
  }

  function Remember(s: State, th: Thread, o: Outcome): History {
    var os' := Command(s, th, o);
    var u := if th.pc.Teardown? then {th.user} else {};
    History(
      (s.hist.stuck + if s.cleanup then u else {}) * os'.accounts,
      (s.hist.kept + u) * os'.sudoers.Keys,
      s.hist.stranded * os'.sudoers.Keys,
      (s.hist.undercut + (u * s.sessions.Keys * s.os.accounts)) - os'.accounts,
      s.hist.torn + u,
      s.hist.rolled)
  }

  predicate Enabled(s: State, l: Label) {
    match l
    case Accept(t, _, _, _) => t !in s.threads
    case Go(t, o) =>
      && t in s.threads
      && var th := s.threads[t];
         match th.pc
         case FirstWait | LaterWait => th.user in s.locks && s.locks[th.user] == None
         case LastWait => th.user in s.locks ==> s.locks[th.user] == None
         case FirstSnap | LastSnap => multiset(o.order) == multiset(s.sessions.Keys)
         case _ => !Finished(th.pc)
  }

  function Apply(s: State, l: Label): State
    requires Enabled(s, l)
  {
    match l
    case Accept(t, identity, user, perms) => s.(threads := s.threads[t := Thread(identity, user, perms, Start)])
    case Go(t, o) => Advance(s, t, o)
  }

  function Advance(s: State, t: nat, o: Outcome): State
    requires Enabled(s, Go(t, o))
  {
    var th := s.threads[t];
    if th.pc.Start? then Admit(s, t)
    else if th.pc.RollingBack? then Rollback(s, t)
    else if th.pc.Active? then Release(s, t)
    else Work(s, t, o)
  }

  function Work(s: State, t: nat, o: Outcome): State
    requires t in s.threads && !Books(s.threads[t].pc) && !Finished(s.threads[t].pc)
  {
    var th := s.threads[t];
    State(s.cleanup, s.threads[t := th.(pc := NextPc(s, th, o))], s.sessions, s.owners,
          Mutexes(s, t, th), Command(s, th, o), Remember(s, th, o))
  }

  /** The state after a run, or None when some label was not enabled. */
  function Exec(s: State, ls: seq<Label>): Option<State> {
    if ls == [] then Some(s)
    else
      var p := Exec(s, ls[..|ls| - 1]);
      if p.Some? && Enabled(p.value, ls[|ls| - 1]) then Some(Apply(p.value, ls[|ls| - 1])) else None
  }

  lemma ExecStep(s0: State, ls: seq<Label>, s: State, l: Label)
    requires Exec(s0, ls) == Some(s) && Enabled(s, l)
    ensures Exec(s0, ls + [l]) == Some(Apply(s, l))
  {
    assert (ls + [l])[..|ls|] == ls;
  }
}
