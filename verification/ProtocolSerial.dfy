/** The serial user manager is the interleaved protocol with one connection moving at a time: each
    operation's contract is the net effect of an uninterrupted stretch of that connection's steps. */
module ProtocolSerial {
  import opened Options
  import opened HostOs
  import opened Protocol
  import S = Serial

  function ViewOf(s: State): S.View {
    S.View(s.sessions, s.owners, s.os)
  }

  /** The same connection elsewhere in its life; other connections and mutexes untouched. */
  ghost predicate Moved(s: State, s': State, t: nat) {
    && t in s.threads && t in s'.threads
    && s'.threads == s.threads[t := s.threads[t].(pc := s'.threads[t].pc)]
    && s'.cleanup == s.cleanup
    && (forall u | u in s.locks :: u in s'.locks && s'.locks[u] == s.locks[u])
    && (forall u | u in s'.locks && u !in s.locks :: u == s.threads[t].user && s'.locks[u] == None)
  }

  /** Take one step outside the books and extend the run. */
  lemma Take(s0: State, ls: seq<Label>, s: State, t: nat, o: Outcome) returns (ls': seq<Label>, s': State)
    requires Exec(s0, ls) == Some(s) && Enabled(s, Go(t, o)) && !Books(s.threads[t].pc)
    ensures Exec(s0, ls') == Some(s') && LastMoved(ls', t)
    ensures var th := s.threads[t];
            && t in s'.threads && s'.threads[t] == th.(pc := NextPc(s, th, o))
            && s'.threads == s.threads[t := s'.threads[t]]
            && s'.sessions == s.sessions && s'.owners == s.owners && s'.cleanup == s.cleanup
            && s'.locks == Mutexes(s, t, th) && s'.os == Command(s, th, o)
  {
    ls', s' := ls + [Go(t, o)], Advance(s, t, o);
    ExecStep(s0, ls, s, Go(t, o));
  }

  function Respond(ok: bool, rm: bool): Outcome {
    Outcome(ok, rm, [])
  }

  /** Every command of an operation succeeds. */
  function AllWell(): S.Answers {
    S.Answers(true, true, true, true, true)
  }

  function Free(s: State, u: string): bool {
    u in s.locks ==> s.locks[u] == None
  }

  lemma MovedTwice(s: State, mid: State, s': State, t: nat)
    requires Moved(s, mid, t) && Moved(mid, s', t)
    ensures Moved(s, s', t)
  {
  }

  lemma PutBack<T>(m: map<string, T>, u: string, x: T)
    ensures m[u := x] - {u} == m - {u}
  {
  }

  /** A later session under the mutex, up to giving it back. */
  lemma LaterPermits(s0: State, ls: seq<Label>, s: State, t: nat, e: S.Answers) returns (ls': seq<Label>, s': State)
    requires Exec(s0, ls) == Some(s) && t in s.threads && s.threads[t].pc == LaterMod
    requires s.threads[t].user in s.locks
    ensures Exec(s0, ls') == Some(s') && t in s'.threads
    ensures s'.threads == s.threads[t := s.threads[t].(pc := LaterUnlock)]
    ensures s'.sessions == s.sessions && s'.owners == s.owners && s'.cleanup == s.cleanup
    ensures s'.locks == s.locks
    ensures s'.os == S.Permit(s.os, s.threads[t].user, s.threads[t].perms, e, false)
  {
    ls', s' := Take(s0, ls, s, t, Respond(e.usermod, true));
    ls', s' := Take(s0, ls', s', t, Respond(e.sudoers, true));
  }

  /** The run ends with a step of t. */
  predicate LastMoved(ls: seq<Label>, t: nat) {
    ls != [] && ls[|ls| - 1].Go? && ls[|ls| - 1].t == t
  }

  /** A later session from its wait for the mutex to the proxy loop. */
  lemma LaterOnward(s0: State, ls: seq<Label>, s: State, t: nat, e: S.Answers) returns (ls': seq<Label>, s': State)
    requires Exec(s0, ls) == Some(s) && t in s.threads && s.threads[t].pc == LaterWait
    requires s.threads[t].user in s.locks && s.locks[s.threads[t].user] == None
    ensures Exec(s0, ls') == Some(s') && LastMoved(ls', t) && Moved(s, s', t) && s'.threads[t].pc == Active
    ensures s'.sessions == s.sessions && s'.owners == s.owners
    ensures s'.os == S.Permit(s.os, s.threads[t].user, s.threads[t].perms, e, false)
  {
    ls', s' := Take(s0, ls, s, t, Respond(true, true));
    ls', s' := LaterPermits(s0, ls', s', t, e);
    ls', s' := Take(s0, ls', s', t, Respond(true, true));
  }

  /** A first session from its wait for the mutex past useradd. */
  lemma FirstAdds(s0: State, ls: seq<Label>, s: State, t: nat, ok: bool) returns (ls': seq<Label>, s': State)
    requires Exec(s0, ls) == Some(s) && t in s.threads && s.threads[t].pc == FirstWait
    requires s.threads[t].user in s.locks && s.locks[s.threads[t].user] == None
    ensures Exec(s0, ls') == Some(s') && t in s'.threads
    ensures s'.threads == s.threads[t := s.threads[t].(pc := if ok then FirstMod else RollingBack)]
    ensures s'.sessions == s.sessions && s'.owners == s.owners && s'.cleanup == s.cleanup
    ensures s'.locks == s.locks[s.threads[t].user := Some(t)]
    ensures s'.os == UserAdd(s.os, s.threads[t].user, ok)
  {
    ls', s' := Take(s0, ls, s, t, Respond(true, true));
    ls', s' := Take(s0, ls', s', t, Respond(ok, true));
  }

  lemma FirstPermits(s0: State, ls: seq<Label>, s: State, t: nat, e: S.Answers) returns (ls': seq<Label>, s': State)
    requires Exec(s0, ls) == Some(s) && t in s.threads && s.threads[t].pc == FirstMod
    requires s.threads[t].user in s.locks
    ensures Exec(s0, ls') == Some(s') && t in s'.threads
    ensures s'.threads == s.threads[t := s.threads[t].(pc := FirstSnap)]
    ensures s'.sessions == s.sessions && s'.owners == s.owners && s'.cleanup == s.cleanup
    ensures s'.locks == s.locks
    ensures s'.os == S.Permit(s.os, s.threads[t].user, s.threads[t].perms, e, true)
  {
    ls', s' := Take(s0, ls, s, t, Respond(e.usermod, true));
    ls', s' := Take(s0, ls', s', t, Respond(e.sudoers, true));
  }

  lemma FirstInstalls(s0: State, ls: seq<Label>, s: State, t: nat, ok: bool, order: seq<string>)
    returns (ls': seq<Label>, s': State)
    requires Exec(s0, ls) == Some(s) && t in s.threads && s.threads[t].pc == FirstSnap
    requires s.threads[t].user in s.locks && Orders(order, s.sessions.Keys)
    ensures Exec(s0, ls') == Some(s') && t in s'.threads
    ensures s'.threads == s.threads[t := s.threads[t].(pc := FirstUnlock)]
    ensures s'.sessions == s.sessions && s'.owners == s.owners && s'.cleanup == s.cleanup
    ensures s'.locks == s.locks
    ensures s'.os == WriteStateFile(s.os, order, ok)
  {
    ls', s' := Take(s0, ls, s, t, Outcome(true, true, order));
    ls', s' := Take(s0, ls', s', t, Respond(ok, true));
  }

  lemma FirstWrites(s0: State, ls: seq<Label>, s: State, t: nat, ok: bool, order: seq<string>)
    returns (ls': seq<Label>, s': State)
    requires Exec(s0, ls) == Some(s) && t in s.threads && s.threads[t].pc == FirstSnap
    requires s.threads[t].user in s.locks && Orders(order, s.sessions.Keys)
    ensures Exec(s0, ls') == Some(s') && t in s'.threads
    ensures s'.threads == s.threads[t := s.threads[t].(pc := Active)]
    ensures s'.sessions == s.sessions && s'.owners == s.owners && s'.cleanup == s.cleanup
    ensures s'.locks == s.locks[s.threads[t].user := None]
    ensures s'.os == WriteStateFile(s.os, order, ok)
  {
    ls', s' := FirstInstalls(s0, ls, s, t, ok, order);
    ls', s' := Take(s0, ls', s', t, Respond(true, true));
  }

  /** A first session from its wait for the mutex to the proxy loop, useradd succeeding. */
  lemma FirstOnward(s0: State, ls: seq<Label>, s: State, t: nat, e: S.Answers, order: seq<string>)
    returns (ls': seq<Label>, s': State)
    requires Exec(s0, ls) == Some(s) && t in s.threads && s.threads[t].pc == FirstWait
    requires s.threads[t].user in s.locks && s.locks[s.threads[t].user] == None
    requires Orders(order, s.sessions.Keys)
    ensures Exec(s0, ls') == Some(s') && Moved(s, s', t) && s'.threads[t].pc == Active
    ensures s'.sessions == s.sessions && s'.owners == s.owners && s'.locks == s.locks
    ensures var u := s.threads[t].user;
            s'.os == WriteStateFile(S.Permit(UserAdd(s.os, u, true), u, s.threads[t].perms, e, true), order, e.sync)
  {
    ls', s' := FirstAdds(s0, ls, s, t, true);
    ls', s' := FirstPermits(s0, ls', s', t, e);
    ls', s' := FirstWrites(s0, ls', s', t, e.sync, order);
    assert s'.locks == s.locks;
  }

  /** A first session whose useradd fails: back out of the books and off the mutex. */
  lemma FirstFails(s0: State, ls: seq<Label>, s: State, t: nat) returns (ls': seq<Label>, s': State)
    requires Exec(s0, ls) == Some(s) && t in s.threads && s.threads[t].pc == FirstWait
    requires s.threads[t].user in s.locks && s.locks[s.threads[t].user] == None
    requires s.threads[t].user in s.sessions && s.sessions[s.threads[t].user] == 1
    ensures Exec(s0, ls') == Some(s') && Moved(s, s', t) && s'.threads[t].pc == Failed
    ensures var u := s.threads[t].user;
            s'.sessions == s.sessions - {u} && s'.owners == s.owners - {u} && s'.os == s.os
  {
    ls', s' := FirstAdds(s0, ls, s, t, false);
    ls', s' := FirstRollsBack(s0, ls', s', t);
    ls', s' := Take(s0, ls', s', t, Respond(true, true));
  }

  lemma FirstRollsBack(s0: State, ls: seq<Label>, s: State, t: nat) returns (ls': seq<Label>, s': State)
    requires Exec(s0, ls) == Some(s) && t in s.threads && s.threads[t].pc == RollingBack
    requires s.threads[t].user in s.sessions && s.sessions[s.threads[t].user] == 1
    ensures Exec(s0, ls') == Some(s') && t in s'.threads
    ensures s'.threads == s.threads[t := s.threads[t].(pc := FailUnlock)]
    ensures s'.cleanup == s.cleanup && s'.locks == s.locks && s'.os == s.os
    ensures var u := s.threads[t].user; s'.sessions == s.sessions - {u} && s'.owners == s.owners - {u}
  {
    ls', s' := ls + [Go(t, Respond(true, true))], Rollback(s, t);
    ExecStep(s0, ls, s, Go(t, Respond(true, true)));
  }

  /** What EnsureUser's first critical section makes of the books and the connection. */
  predicate AdmittedTo(s: State, s': State, t: nat)
    requires t in s.threads && t in s'.threads
  {
    var th := s.threads[t];
    var u := th.user;
    var n := Count(s.sessions, u) + 1;
    if u in s.owners && s.owners[u] != th.identity then
      s'.threads[t].pc == Rejected && s'.sessions == s.sessions && s'.owners == s.owners
    else
      && s'.threads[t].pc == (if n == 1 then FirstWait else LaterWait)
      && s'.sessions == s.sessions[u := n] && u in s'.locks
      && s'.owners == (if n == 1 then s.owners[u := th.identity] else s.owners)
  }

  lemma Admits(s0: State, ls: seq<Label>, s: State, t: nat) returns (ls': seq<Label>, s': State)
    requires Exec(s0, ls) == Some(s) && t in s.threads && s.threads[t].pc == Start
    ensures Exec(s0, ls') == Some(s') && Moved(s, s', t) && s'.os == s.os && AdmittedTo(s, s', t)
    ensures s'.locks == if s'.threads[t].pc == Rejected || s.threads[t].user in s.locks then s.locks
                        else s.locks[s.threads[t].user := None]
  {
    ls', s' := ls + [Go(t, Respond(true, true))], Admit(s, t);
    ExecStep(s0, ls, s, Go(t, Respond(true, true)));
    AdmitBooks(s, t);
    AdmitMoves(s, t);
  }

  lemma AdmitBooks(s: State, t: nat)
    requires t in s.threads
    ensures AdmittedTo(s, Admit(s, t), t)
  {
  }

  lemma AdmitMoves(s: State, t: nat)
    requires t in s.threads
    ensures var s' := Admit(s, t);
            && Moved(s, s', t) && s'.os == s.os
            && s'.locks == (if s'.threads[t].pc == Rejected || s.threads[t].user in s.locks then s.locks
                            else s.locks[s.threads[t].user := None])
  {
  }

  /** What the rest of EnsureUser makes of an admitted connection. */
  predicate FinishedAs(s: State, s': State, t: nat, e: S.Answers, order: seq<string>)
    requires t in s.threads && t in s'.threads
  {
    var th := s.threads[t];
    var u := th.user;
    if th.pc == Rejected then s' == s
    else if th.pc == LaterWait then
      && s'.threads[t].pc == Active && s'.sessions == s.sessions && s'.owners == s.owners
      && s'.os == S.Permit(s.os, u, th.perms, e, false)
    else if e.useradd then
      && s'.threads[t].pc == Active && s'.sessions == s.sessions && s'.owners == s.owners
      && s'.os == WriteStateFile(S.Permit(UserAdd(s.os, u, true), u, th.perms, e, true), order, e.sync)
    else
      && s'.threads[t].pc == Failed && s'.os == s.os
      && s'.sessions == s.sessions - {u} && s'.owners == s.owners - {u}
  }

  lemma Finishes(s0: State, ls: seq<Label>, s: State, t: nat, e: S.Answers, order: seq<string>)
    returns (ls': seq<Label>, s': State)
    requires Exec(s0, ls) == Some(s) && t in s.threads
    requires s.threads[t].pc == Rejected || s.threads[t].pc == LaterWait || s.threads[t].pc == FirstWait
    requires s.threads[t].pc != Rejected ==>
               s.threads[t].user in s.locks && s.locks[s.threads[t].user] == None
    requires s.threads[t].pc == FirstWait ==>
               && s.threads[t].user in s.sessions && s.sessions[s.threads[t].user] == 1
               && Orders(order, s.sessions.Keys)
    ensures Exec(s0, ls') == Some(s') && Moved(s, s', t) && FinishedAs(s, s', t, e, order)
  {
    if s.threads[t].pc == Rejected {
      ls', s' := ls, s;
      assert s.threads == s.threads[t := s.threads[t].(pc := s.threads[t].pc)];
    } else if s.threads[t].pc == LaterWait {
      ls', s' := LaterOnward(s0, ls, s, t, e);
    } else if e.useradd {
      ls', s' := FirstOnward(s0, ls, s, t, e, order);
    } else {
      ls', s' := FirstFails(s0, ls, s, t);
    }
  }

  /** The two halves of EnsureUser together. */
  lemma HalvesAreEnsure(s: State, mid: State, s': State, t: nat, e: S.Answers, order: seq<string>)
    requires t in s.threads && t in mid.threads && t in s'.threads
    requires mid.threads[t] == s.threads[t].(pc := mid.threads[t].pc) && mid.os == s.os
    requires AdmittedTo(s, mid, t) && FinishedAs(mid, s', t, e, order)
    ensures var th := s.threads[t];
            var (v, r) := S.Ensure(ViewOf(s), th.identity, th.user, th.perms, e, order);
            && ViewOf(s') == v
            && s'.threads[t].pc ==
                 (match r case Ready => Active case Rejected(_) => Rejected case UserAddFailed => Failed)
  {
    PutBack(s.sessions, s.threads[t].user, 1);
    PutBack(s.owners, s.threads[t].user, s.threads[t].identity);
  }

  /** EnsureUser, uninterrupted: the connection's own steps compute exactly what the serial operation
      returns and leaves behind. */
  lemma EnsureIsARun(s0: State, ls: seq<Label>, s: State, t: nat, e: S.Answers, order: seq<string>)
    returns (ls': seq<Label>, s': State)
    requires Exec(s0, ls) == Some(s) && t in s.threads && s.threads[t].pc == Start && Free(s, s.threads[t].user)
    requires Orders(order, s.sessions.Keys + {s.threads[t].user})
    ensures Exec(s0, ls') == Some(s') && Moved(s, s', t)
    ensures var th := s.threads[t];
            var (v, r) := S.Ensure(ViewOf(s), th.identity, th.user, th.perms, e, order);
            && ViewOf(s') == v
            && s'.threads[t].pc ==
                 (match r case Ready => Active case Rejected(_) => Rejected case UserAddFailed => Failed)
  {
    ls', s' := Admits(s0, ls, s, t);
    var mid := s';
    assert mid.threads[t].pc == FirstWait ==> mid.sessions.Keys == s.sessions.Keys + {s.threads[t].user};
    ls', s' := Finishes(s0, ls', mid, t, e, order);
    MovedTwice(s, mid, s', t);
    HalvesAreEnsure(s, mid, s', t, e, order);
  }

  // ---- ReleaseUser ----

  lemma Releases(s0: State, ls: seq<Label>, s: State, t: nat) returns (ls': seq<Label>, s': State)
    requires Exec(s0, ls) == Some(s) && t in s.threads && s.threads[t].pc == Active
    ensures Exec(s0, ls') == Some(s') && t in s'.threads
    ensures s'.threads == s.threads[t := s'.threads[t]] && s'.threads[t] == s.threads[t].(pc := s'.threads[t].pc)
    ensures s'.cleanup == s.cleanup && s'.locks == s.locks && s'.os == s.os
    ensures var u := s.threads[t].user;
            var n := Count(s.sessions, u) - 1;
            if n < 0 then s'.threads[t].pc == Untracked && s'.sessions == s.sessions && s'.owners == s.owners
            else if n > 0 then s'.threads[t].pc == Done && s'.sessions == s.sessions[u := n] && s'.owners == s.owners
            else s'.threads[t].pc == LastWait && s'.sessions == s.sessions - {u} && s'.owners == s.owners - {u}
  {
    ls', s' := ls + [Go(t, Respond(true, true))], Release(s, t);
    ExecStep(s0, ls, s, Go(t, Respond(true, true)));
  }

  /** Take the mutex and tear down. */
  lemma TearsDown(s0: State, ls: seq<Label>, s: State, t: nat, e: S.Answers) returns (ls': seq<Label>, s': State)
    requires Exec(s0, ls) == Some(s) && t in s.threads && s.threads[t].pc == LastWait
    requires s.threads[t].user in s.locks && s.locks[s.threads[t].user] == None
    ensures Exec(s0, ls') == Some(s') && t in s'.threads
    ensures var u := s.threads[t].user;
            && s'.threads == s.threads[t := s.threads[t].(pc :=
                 if s.cleanup && !Deletes(s.os, u, e.userdel) then LastUnlock else LastSnap)]
            && s'.sessions == s.sessions && s'.owners == s.owners && s'.cleanup == s.cleanup
            && s'.locks == s.locks[u := Some(t)]
            && s'.os == (if s.cleanup then DeleteUser(s.os, u, e.sudoers, e.userdel)
                         else RemoveSudoers(s.os, u, e.sudoers))
  {
    ls', s' := Take(s0, ls, s, t, Respond(true, true));
    ls', s' := Take(s0, ls', s', t, Respond(e.userdel, e.sudoers));
  }

  lemma LastWrites(s0: State, ls: seq<Label>, s: State, t: nat, ok: bool, order: seq<string>)
    returns (ls': seq<Label>, s': State)
    requires Exec(s0, ls) == Some(s) && t in s.threads && s.threads[t].pc == LastSnap
    requires s.threads[t].user in s.locks && Orders(order, s.sessions.Keys)
    ensures Exec(s0, ls') == Some(s') && t in s'.threads
    ensures s'.threads == s.threads[t := s.threads[t].(pc := Done)]
    ensures s'.sessions == s.sessions && s'.owners == s.owners && s'.cleanup == s.cleanup
    ensures s'.locks == s.locks[s.threads[t].user := None]
    ensures s'.os == WriteStateFile(s.os, order, ok)
  {
    ls', s' := Take(s0, ls, s, t, Outcome(true, true, order));
    ls', s' := Take(s0, ls', s', t, Respond(ok, true));
    ls', s' := Take(s0, ls', s', t, Respond(true, true));
  }

  lemma LastOnward(s0: State, ls: seq<Label>, s: State, t: nat, e: S.Answers, order: seq<string>)
    returns (ls': seq<Label>, s': State)
    requires Exec(s0, ls) == Some(s) && t in s.threads && s.threads[t].pc == LastWait
    requires s.threads[t].user in s.locks && s.locks[s.threads[t].user] == None
    requires Orders(order, s.sessions.Keys)
    ensures Exec(s0, ls') == Some(s') && Moved(s, s', t) && s'.threads[t].pc == Done
    ensures s'.sessions == s.sessions && s'.owners == s.owners
    ensures var u := s.threads[t].user;
            s'.os == if !s.cleanup then WriteStateFile(RemoveSudoers(s.os, u, e.sudoers), order, e.sync)
                     else if Deletes(s.os, u, e.userdel) then
                       WriteStateFile(DeleteUser(s.os, u, e.sudoers, e.userdel), order, e.sync)
                     else DeleteUser(s.os, u, e.sudoers, e.userdel)
  {
    ls', s' := TearsDown(s0, ls, s, t, e);
    if s'.threads[t].pc == LastSnap {
      ls', s' := LastWrites(s0, ls', s', t, e.sync, order);
    } else {
      ls', s' := Take(s0, ls', s', t, Respond(true, true));
    }
  }

  /** ReleaseUser, uninterrupted. */
  lemma ReleaseIsARun(s0: State, ls: seq<Label>, s: State, t: nat, e: S.Answers, order: seq<string>)
    returns (ls': seq<Label>, s': State)
    requires Exec(s0, ls) == Some(s) && t in s.threads && s.threads[t].pc == Active
    requires s.threads[t].user in s.locks && s.locks[s.threads[t].user] == None
    requires Orders(order, s.sessions.Keys - {s.threads[t].user})
    ensures Exec(s0, ls') == Some(s') && Moved(s, s', t)
    ensures var (v, r) := S.Release(ViewOf(s), s.cleanup, s.threads[t].user, e, order);
            && ViewOf(s') == v
            && s'.threads[t].pc == (if r.UntrackedError? then Untracked else Done)
  {
    var u := s.threads[t].user;
    ls', s' := Releases(s0, ls, s, t);
    if s'.threads[t].pc == LastWait {
      assert s'.sessions.Keys == s.sessions.Keys - {u};
      ls', s' := LastOnward(s0, ls', s', t, e, order);
    }
  }
}
