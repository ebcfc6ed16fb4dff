/** Invariants of the interleaved protocol, each kept by every step. */
module ProtocolSafety {
  import opened Options
  import opened HostOs
  import opened Protocol

  /** A connection that is in the session count: admitted, not rolled back, not released. */
  predicate Counted(pc: Pc) {
    || pc.FirstWait? || pc.UserAdding? || pc.RollingBack? || pc.FirstMod? || pc.FirstSudo? || pc.FirstSnap?
    || pc.FirstWrite? || pc.FirstUnlock?
    || pc.LaterWait? || pc.LaterMod? || pc.LaterSudo? || pc.LaterUnlock? || pc.Active?
  }

  /** A first session whose useradd has not succeeded. */
  predicate BeforeAccount(pc: Pc) {
    pc.FirstWait? || pc.UserAdding? || pc.RollingBack?
  }

  /** A last release whose teardown has not run. */
  predicate Pending(pc: Pc) {
    pc.LastWait? || pc.Teardown?
  }

  /** Between taking the user mutex and giving it back: where every command of EnsureUser and
      ReleaseUser runs. */
  predicate Holds(pc: Pc) {
    || pc.UserAdding? || pc.RollingBack? || pc.FailUnlock? || pc.FirstMod? || pc.FirstSudo? || pc.FirstSnap?
    || pc.FirstWrite? || pc.FirstUnlock?
    || pc.LaterMod? || pc.LaterSudo? || pc.LaterUnlock?
    || pc.Teardown? || pc.LastSnap? || pc.LastWrite? || pc.LastUnlock?
  }

  predicate CountedFor(th: Thread, u: string) {
    th.user == u && Counted(th.pc)
  }

  function Counting(s: State, u: string): set<nat> {
    set t | t in s.threads && CountedFor(s.threads[t], u)
  }

  /** sessions[u] is the number of connections counted for u, and no zero is stored. */
  ghost predicate Conserved(s: State) {
    && (forall u :: Count(s.sessions, u) == |Counting(s, u)|)
    && (forall u | u in s.sessions :: s.sessions[u] > 0)
  }

  /** Owners and sessions have the same keys; every counted connection is the recorded owner's. */
  ghost predicate Owned(s: State) {
    && s.owners.Keys == s.sessions.Keys
    && forall t :: OwnedBy(s, t)
  }

  ghost predicate OwnedBy(s: State, t: nat) {
    t in s.threads && Counted(s.threads[t].pc) ==>
      s.threads[t].user in s.owners && s.owners[s.threads[t].user] == s.threads[t].identity
  }

  predicate UsesLock(pc: Pc) {
    Holds(pc) || Waits(pc) || Counted(pc)
  }

  /** A user mutex is held by exactly the thread inside it; whoever uses a mutex finds it. */
  ghost predicate Locked(s: State) {
    && (forall t | t in s.threads && UsesLock(s.threads[t].pc) :: s.threads[t].user in s.locks)
    && (forall t | t in s.threads && Holds(s.threads[t].pc) :: s.locks[s.threads[t].user] == Some(t))
    && (forall u | u in s.locks && s.locks[u].Some? ::
          var t := s.locks[u].value;
          t in s.threads && s.threads[t].user == u && Holds(s.threads[t].pc))
  }

  /** At most one first session per username has yet to see its useradd succeed. */
  ghost predicate OneFirst(s: State) {
    forall t, t' | t in s.threads && t' in s.threads
      && s.threads[t].user == s.threads[t'].user
      && BeforeAccount(s.threads[t].pc) && BeforeAccount(s.threads[t'].pc) :: t == t'
  }

  ghost predicate AllTracked(s: State) {
    forall t | t in s.threads :: !s.threads[t].pc.Untracked?
  }

  ghost predicate HasPending(s: State, u: string) {
    exists t :: t in s.threads && s.threads[t].user == u && Pending(s.threads[t].pc)
  }

  ghost predicate HasBefore(s: State, u: string) {
    exists t :: t in s.threads && s.threads[t].user == u && BeforeAccount(s.threads[t].pc)
  }

  /** An account the daemon did not make: there from the start, and no teardown has run for it. */
  predicate OldAccount(s: State, start: Os, u: string) {
    u in start.accounts && u !in s.hist.torn
  }

  /** With cleanup on, an account that no teardown is about to remove belongs to a live session whose
      useradd is behind it - unless it is an old one or userdel failed on it. */
  ghost predicate OrphanFree(s: State, start: Os, u: string) {
    && (u in s.os.accounts && !OldAccount(s, start, u) && u !in s.hist.stuck ==>
          HasPending(s, u) || (u in s.sessions && !HasBefore(s, u)))
    && (u in s.hist.stuck || OldAccount(s, start, u) ==> u in s.os.accounts)
  }

  ghost predicate NoOrphan(s: State, start: Os) {
    s.cleanup ==> forall u :: OrphanFree(s, start, u)
  }

  /** A sudoers file from the start of a username no session of which has ended. */
  predicate OldSudoers(s: State, start: Os, u: string) {
    u in start.sudoers && u !in s.hist.torn && u !in s.hist.rolled
  }

  /** A sudoers file that no teardown is about to remove belongs to a live session - unless it is an old
      one, could not be removed, or a rollback stranded it. */
  ghost predicate LeakFree(s: State, start: Os, u: string) {
    && (u in s.os.sudoers && !OldSudoers(s, start, u) && u !in s.hist.kept && u !in s.hist.stranded ==>
          HasPending(s, u) || u in s.sessions)
    && (u in s.hist.kept || u in s.hist.stranded ==> u in s.os.sudoers)
    && (OldSudoers(s, start, u) && !HasPending(s, u) && u !in s.sessions ==> u in s.os.sudoers)
  }

  ghost predicate NoLeak(s: State, start: Os) {
    forall u :: LeakFree(s, start, u)
  }

  /** While a username is in session and its first useradd is behind it, its account exists exactly
      when nothing undercut it. */
  ghost predicate PlacedFor(s: State, u: string) {
    && (u in s.sessions && !HasBefore(s, u) && u !in s.hist.undercut ==> u in s.os.accounts)
    && (u in s.hist.undercut ==> u !in s.os.accounts)
  }

  ghost predicate InPlace(s: State) {
    forall u :: PlacedFor(s, u)
  }

  ghost predicate Inv(s: State) {
    Conserved(s) && Owned(s) && Locked(s) && OneFirst(s) && AllTracked(s)
  }

  // ---- what a step leaves alone ----

  /** Only Admit, Rollback and Release touch the session books; every other step of a thread moves its
      program counter without entering or leaving the count. */
  ghost predicate Quiet(s: State, s': State, t: nat) {
    && t in s.threads && t in s'.threads
    && s'.threads == s.threads[t := s'.threads[t]]
    && s'.threads[t].user == s.threads[t].user && s'.threads[t].identity == s.threads[t].identity
    && s'.sessions == s.sessions && s'.owners == s.owners
    && Counted(s'.threads[t].pc) == Counted(s.threads[t].pc)
    && (BeforeAccount(s'.threads[t].pc) ==> BeforeAccount(s.threads[t].pc))
    && !s'.threads[t].pc.Untracked?
  }

  lemma WorkIsQuiet(s: State, t: nat, o: Outcome)
    requires Enabled(s, Go(t, o)) && !Books(s.threads[t].pc)
    ensures Quiet(s, Work(s, t, o), t)
  {
  }

  // ---- counting ----

  /** Moving one thread changes only its own membership in the counting set. */
  lemma CountingAfter(s: State, s': State, t: nat, u: string)
    requires t in s'.threads && s'.threads == s.threads[t := s'.threads[t]]
    requires t in s.threads ==> s'.threads[t].user == s.threads[t].user
    ensures |Counting(s', u)| == |Counting(s, u)| + (if CountedFor(s'.threads[t], u) then 1 else 0)
                                 - (if t in s.threads && CountedFor(s.threads[t], u) then 1 else 0)
  {
    var others := Counting(s, u) - {t};
    assert Counting(s, u) == if t in s.threads && CountedFor(s.threads[t], u) then others + {t} else others;
    assert Counting(s', u) == if CountedFor(s'.threads[t], u) then others + {t} else others;
  }

  /** A counted connection makes its username's count positive. */
  lemma CountedIsPositive(s: State, t: nat)
    requires Conserved(s) && t in s.threads && Counted(s.threads[t].pc)
    ensures s.threads[t].user in s.sessions && s.sessions[s.threads[t].user] > 0
  {
    assert t in Counting(s, s.threads[t].user);
  }

  /** Every changed entry of the books is the mover's own username. */
  lemma KeepsConservedFrom(s: State, s': State, t: nat)
    requires Conserved(s) && t in s'.threads && s'.threads == s.threads[t := s'.threads[t]]
    requires t in s.threads ==> s'.threads[t].user == s.threads[t].user
    requires forall u | u in s'.sessions :: s'.sessions[u] > 0
    requires forall u :: Count(s'.sessions, u) == Count(s.sessions, u)
               + (if CountedFor(s'.threads[t], u) then 1 else 0)
               - (if t in s.threads && CountedFor(s.threads[t], u) then 1 else 0)
    ensures Conserved(s')
  {
    forall u ensures Count(s'.sessions, u) == |Counting(s', u)| {
      CountingAfter(s, s', t, u);
    }
  }

  lemma AdmitKeepsConserved(s: State, t: nat)
    requires Conserved(s) && t in s.threads && s.threads[t].pc.Start?
    ensures Conserved(Admit(s, t))
  {
    KeepsConservedFrom(s, Admit(s, t), t);
  }

  lemma RollbackKeepsConserved(s: State, t: nat)
    requires Conserved(s) && t in s.threads && s.threads[t].pc.RollingBack?
    ensures Conserved(Rollback(s, t))
  {
    CountedIsPositive(s, t);
    KeepsConservedFrom(s, Rollback(s, t), t);
  }

  lemma ReleaseKeepsConserved(s: State, t: nat)
    requires Conserved(s) && t in s.threads && s.threads[t].pc.Active?
    ensures Conserved(Release(s, t)) && !Release(s, t).threads[t].pc.Untracked?
  {
    CountedIsPositive(s, t);
    KeepsConservedFrom(s, Release(s, t), t);
  }

  lemma KeepsConserved(s: State, l: Label)
    requires Conserved(s) && AllTracked(s) && Enabled(s, l)
    ensures Conserved(Apply(s, l)) && AllTracked(Apply(s, l))
  {
    if l.Accept? {
      KeepsConservedFrom(s, Apply(s, l), l.conn);
    } else {
      var pc := s.threads[l.t].pc;
      if pc.Start? { AdmitKeepsConserved(s, l.t); }
      else if pc.RollingBack? { RollbackKeepsConserved(s, l.t); }
      else if pc.Active? { ReleaseKeepsConserved(s, l.t); }
      else { WorkKeepsConserved(s, l.t, l.out); }
    }
  }

  lemma WorkKeepsConserved(s: State, t: nat, o: Outcome)
    requires Conserved(s) && AllTracked(s) && Enabled(s, Go(t, o)) && !Books(s.threads[t].pc)
    ensures Conserved(Work(s, t, o)) && AllTracked(Work(s, t, o))
  {
    WorkIsQuiet(s, t, o);
    KeepsConservedFrom(s, Work(s, t, o), t);
  }

  // ---- ownership ----

  /** When a thread's username has count one, it is the only connection counted for it. */
  lemma SoleHolder(s: State, t: nat, x: nat)
    requires Conserved(s) && t in s.threads && x in s.threads
    requires Counted(s.threads[t].pc) && Counted(s.threads[x].pc) && s.threads[t].user == s.threads[x].user
    requires Count(s.sessions, s.threads[t].user) == 1
    ensures x == t
  {
    var us := Counting(s, s.threads[t].user);
    assert t in us && x in us;
    assert |us - {t}| == 0;
    assert us - {t} == {};
  }

  lemma KeepsOwned(s: State, l: Label)
    requires Conserved(s) && Owned(s) && Enabled(s, l)
    ensures Owned(Apply(s, l))
  {
    if l.Accept? {
      forall x ensures OwnedBy(Apply(s, l), x) { assert OwnedBy(s, x); }
    } else {
      var t := l.t;
      var pc := s.threads[t].pc;
      if pc.Start? { AdmitKeepsOwned(s, t); }
      else if pc.RollingBack? { CountedIsPositive(s, t); LeavingKeepsOwned(s, Rollback(s, t), t); }
      else if pc.Active? { CountedIsPositive(s, t); LeavingKeepsOwned(s, Release(s, t), t); }
      else { WorkIsQuiet(s, t, l.out); QuietKeepsOwned(s, Apply(s, l), t); }
    }
  }

  lemma QuietKeepsOwned(s: State, s': State, t: nat)
    requires Owned(s) && Quiet(s, s', t)
    ensures Owned(s')
  {
    forall x ensures OwnedBy(s', x) { assert OwnedBy(s, x); }
  }

  lemma AdmitKeepsOwned(s: State, t: nat)
    requires Conserved(s) && Owned(s) && t in s.threads && s.threads[t].pc.Start?
    ensures Owned(Admit(s, t))
  {
    var s' := Admit(s, t);
    forall x ensures OwnedBy(s', x) {
      assert OwnedBy(s, x);
      if x in s.threads && Counted(s.threads[x].pc) { CountedIsPositive(s, x); }
    }
  }

  /** Rollback and Release: the owner goes when the last counted connection goes. */
  lemma LeavingKeepsOwned(s: State, s': State, t: nat)
    requires Conserved(s) && Owned(s) && t in s.threads && Counted(s.threads[t].pc)
    requires t in s'.threads && s'.threads == s.threads[t := s'.threads[t]] && !Counted(s'.threads[t].pc)
    requires var u := s.threads[t].user;
             if Count(s.sessions, u) == 1 then s'.sessions == s.sessions - {u} && s'.owners == s.owners - {u}
             else s'.sessions == s.sessions[u := Count(s.sessions, u) - 1] && s'.owners == s.owners
    ensures Owned(s')
  {
    CountedIsPositive(s, t);
    forall x ensures OwnedBy(s', x) {
      assert OwnedBy(s, x);
      if x in s'.threads && Counted(s'.threads[x].pc) && s.threads[x].user == s.threads[t].user
         && Count(s.sessions, s.threads[t].user) == 1 {
        SoleHolder(s, t, x);
      }
    }
  }

  // ---- first sessions ----

  lemma KeepsOneFirst(s: State, l: Label)
    requires Conserved(s) && OneFirst(s) && Enabled(s, l)
    ensures OneFirst(Apply(s, l))
  {
    if l.Go? {
      var pc := s.threads[l.t].pc;
      if pc.Start? { AdmitKeepsOneFirst(s, l.t); }
      else if pc.RollingBack? { NoNewFirst(s, Rollback(s, l.t), l.t); }
      else if pc.Active? { NoNewFirst(s, Release(s, l.t), l.t); }
      else { WorkKeepsOneFirst(s, l.t, l.out); }
    }
  }

  lemma WorkKeepsOneFirst(s: State, t: nat, o: Outcome)
    requires OneFirst(s) && Enabled(s, Go(t, o)) && !Books(s.threads[t].pc)
    ensures OneFirst(Work(s, t, o))
  {
    WorkIsQuiet(s, t, o);
    NoNewFirst(s, Work(s, t, o), t);
  }

  lemma NoNewFirst(s: State, s': State, t: nat)
    requires OneFirst(s) && t in s.threads && t in s'.threads && s'.threads == s.threads[t := s'.threads[t]]
    requires s'.threads[t].user == s.threads[t].user
    requires BeforeAccount(s'.threads[t].pc) ==> BeforeAccount(s.threads[t].pc)
    ensures OneFirst(s')
  {
  }

  lemma AdmitKeepsOneFirst(s: State, t: nat)
    requires Conserved(s) && OneFirst(s) && t in s.threads && s.threads[t].pc.Start?
    ensures OneFirst(Admit(s, t))
  {
    var u := s.threads[t].user;
    forall x | x in s.threads && s.threads[x].user == u && BeforeAccount(s.threads[x].pc)
      ensures Count(s.sessions, u) > 0
    {
      CountedIsPositive(s, x);
    }
  }

  // ---- the per-user mutex ----

  lemma KeepsLocked(s: State, l: Label)
    requires Locked(s) && Enabled(s, l)
    ensures Locked(Apply(s, l))
  {
    if l.Go? {
      if Books(s.threads[l.t].pc) { BooksKeepLocked(s, l.t, l.out); } else { WorkKeepsLocked(s, l.t, l.out); }
    }
  }

  /** The books steps create a missing mutex at most, and never cross into or out of the region. */
  lemma BooksKeepLocked(s: State, t: nat, o: Outcome)
    requires Locked(s) && Enabled(s, Go(t, o)) && Books(s.threads[t].pc)
    ensures Locked(Advance(s, t, o))
  {
    var pc := s.threads[t].pc;
    if pc.Start? { AdmitKeepsLocked(s, t); }
    else if pc.RollingBack? { SameLocksKeepLocked(s, Rollback(s, t), t); }
    else { ReleaseKeepsLocked(s, t); }
  }

  lemma AdmitKeepsLocked(s: State, t: nat)
    requires Locked(s) && t in s.threads && s.threads[t].pc.Start?
    ensures Locked(Admit(s, t))
  {
    AdmitLocks(s, t);
    SameLocksKeepLocked(s, Admit(s, t), t);
  }

  lemma AdmitLocks(s: State, t: nat)
    requires t in s.threads && s.threads[t].pc.Start?
    ensures var s' := Admit(s, t);
            var u := s.threads[t].user;
            && s'.threads == s.threads[t := s.threads[t].(pc := s'.threads[t].pc)]
            && (s'.locks == s.locks || (u !in s.locks && s'.locks == s.locks[u := None]))
            && !Holds(s'.threads[t].pc) && (UsesLock(s'.threads[t].pc) ==> u in s'.locks)
  {
  }

  lemma ReleaseKeepsLocked(s: State, t: nat)
    requires Locked(s) && t in s.threads && s.threads[t].pc.Active?
    ensures Locked(Release(s, t))
  {
    assert UsesLock(Active);
    SameLocksKeepLocked(s, Release(s, t), t);
  }

  lemma SameLocksKeepLocked(s: State, s': State, t: nat)
    requires Locked(s) && t in s.threads && t in s'.threads && s'.threads == s.threads[t := s'.threads[t]]
    requires s'.threads[t].user == s.threads[t].user && Holds(s'.threads[t].pc) == Holds(s.threads[t].pc)
    requires var u := s.threads[t].user; s'.locks == s.locks || (u !in s.locks && s'.locks == s.locks[u := None])
    requires UsesLock(s'.threads[t].pc) ==> s.threads[t].user in s'.locks
    ensures Locked(s')
  {
  }

  /** Taking a free mutex. */
  lemma TakingKeepsLocked(s: State, s': State, t: nat)
    requires Locked(s) && t in s.threads && t in s'.threads && s'.threads == s.threads[t := s'.threads[t]]
    requires s'.threads[t].user == s.threads[t].user && Holds(s'.threads[t].pc)
    requires var u := s.threads[t].user; u in s.locks && s.locks[u] == None && s'.locks == s.locks[u := Some(t)]
    ensures Locked(s')
  {
  }

  /** Giving back the mutex that is held. */
  lemma GivingKeepsLocked(s: State, s': State, t: nat)
    requires Locked(s) && t in s.threads && t in s'.threads && s'.threads == s.threads[t := s'.threads[t]]
    requires s'.threads[t].user == s.threads[t].user && Holds(s.threads[t].pc) && !Holds(s'.threads[t].pc)
    requires s'.locks == s.locks[s.threads[t].user := None]
    ensures Locked(s')
  {
  }

  /** Where a step outside the books enters and leaves the region of a mutex. */
  lemma NextRegion(s: State, th: Thread, o: Outcome)
    requires !Books(th.pc) && !Finished(th.pc)
    ensures var pc' := NextPc(s, th, o);
            && Holds(pc') == (Waits(th.pc) || (Holds(th.pc) && !Gives(th.pc)))
            && UsesLock(th.pc) && (Gives(th.pc) ==> Holds(th.pc))
  {
  }

  lemma WorkKeepsLocked(s: State, t: nat, o: Outcome)
    requires Locked(s) && Enabled(s, Go(t, o)) && !Books(s.threads[t].pc)
    ensures Locked(Work(s, t, o))
  {
    var s', th := Work(s, t, o), s.threads[t];
    NextRegion(s, th, o);
    if Waits(th.pc) { TakingKeepsLocked(s, s', t); }
    else if Gives(th.pc) { GivingKeepsLocked(s, s', t); }
    else { SameLocksKeepLocked(s, s', t); }
  }

  // ---- accounts and sudoers files ----

  /** A pending teardown stays pending unless the mover is the one that leaves it. */
  lemma PendingAfter(s: State, s': State, t: nat, u: string)
    requires t in s.threads && t in s'.threads && s'.threads == s.threads[t := s'.threads[t]]
    requires s'.threads[t].user == s.threads[t].user
    requires HasPending(s, u)
    requires s.threads[t].user != u || !Pending(s.threads[t].pc) || Pending(s'.threads[t].pc)
    ensures HasPending(s', u)
  {
    var x :| x in s.threads && s.threads[x].user == u && Pending(s.threads[x].pc);
    assert x in s'.threads;
  }

  /** A first session before its account was there before the step unless the mover just became one. */
  lemma BeforeBack(s: State, s': State, t: nat, u: string)
    requires t in s.threads && t in s'.threads && s'.threads == s.threads[t := s'.threads[t]]
    requires s'.threads[t].user == s.threads[t].user
    requires HasBefore(s', u)
    requires s.threads[t].user != u || !BeforeAccount(s'.threads[t].pc) || BeforeAccount(s.threads[t].pc)
    ensures HasBefore(s, u)
  {
    var x :| x in s'.threads && s'.threads[x].user == u && BeforeAccount(s'.threads[x].pc);
    assert x in s.threads;
  }

  /** ... and is still there after it unless the mover just left. */
  lemma BeforeAfter(s: State, s': State, t: nat, u: string)
    requires t in s.threads && t in s'.threads && s'.threads == s.threads[t := s'.threads[t]]
    requires s'.threads[t].user == s.threads[t].user
    requires HasBefore(s, u)
    requires s.threads[t].user != u || !BeforeAccount(s.threads[t].pc) || BeforeAccount(s'.threads[t].pc)
    ensures HasBefore(s', u)
  {
    var x :| x in s.threads && s.threads[x].user == u && BeforeAccount(s.threads[x].pc);
    assert x in s'.threads;
  }

  // NoOrphan, one username and one kind of step at a time.

  lemma WorkKeepsNoOrphan(s: State, start: Os, t: nat, o: Outcome, u: string)
    requires Inv(s) && s.cleanup && OrphanFree(s, start, u)
    requires Enabled(s, Go(t, o)) && !Books(s.threads[t].pc)
    ensures OrphanFree(Work(s, t, o), start, u)
  {
    var s' := Work(s, t, o);
    WorkIsQuiet(s, t, o);
    if u in s'.os.accounts && !OldAccount(s', start, u) && u !in s'.hist.stuck {
      if s.threads[t].user == u && Counted(s.threads[t].pc) { CountedIsPositive(s, t); }
      if HasPending(s, u) { PendingAfter(s, s', t, u); }
      else if HasBefore(s', u) { BeforeBack(s, s', t, u); }
    }
  }

  lemma AdmitKeepsNoOrphan(s: State, start: Os, t: nat, u: string)
    requires Inv(s) && OrphanFree(s, start, u) && t in s.threads && s.threads[t].pc.Start?
    ensures OrphanFree(Admit(s, t), start, u)
  {
    var s' := Admit(s, t);
    if HasPending(s, u) { PendingAfter(s, s', t, u); }
    else if HasBefore(s', u) && u in s.sessions {
      assert s.sessions[u] > 0;
      BeforeBack(s, s', t, u);
    }
  }

  lemma RollbackKeepsNoOrphan(s: State, start: Os, t: nat, u: string)
    requires Inv(s) && OrphanFree(s, start, u) && t in s.threads && s.threads[t].pc.RollingBack?
    ensures OrphanFree(Rollback(s, t), start, u)
  {
    var s' := Rollback(s, t);
    CountedIsPositive(s, t);
    if HasPending(s, u) { PendingAfter(s, s', t, u); }
    else if HasBefore(s', u) { BeforeBack(s, s', t, u); }
    else if s.threads[t].user == u { assert HasBefore(s, u); }
  }

  lemma ReleaseKeepsNoOrphan(s: State, start: Os, t: nat, u: string)
    requires Inv(s) && OrphanFree(s, start, u) && t in s.threads && s.threads[t].pc.Active?
    ensures OrphanFree(Release(s, t), start, u)
  {
    var s' := Release(s, t);
    CountedIsPositive(s, t);
    if HasPending(s, u) { PendingAfter(s, s', t, u); }
    else if HasBefore(s', u) { BeforeBack(s, s', t, u); }
    if s.threads[t].user == u && u !in s'.sessions {
      assert Pending(s'.threads[t].pc);
    }
  }

  lemma KeepsNoOrphan(s: State, start: Os, l: Label)
    requires Inv(s) && NoOrphan(s, start) && Enabled(s, l)
    ensures NoOrphan(Apply(s, l), start)
  {
    if s.cleanup {
      forall u ensures OrphanFree(Apply(s, l), start, u) {
        assert OrphanFree(s, start, u);
        if l.Accept? { AcceptKeepsPhases(s, l, u); }
        else {
          var pc := s.threads[l.t].pc;
          if pc.Start? { AdmitKeepsNoOrphan(s, start, l.t, u); }
          else if pc.RollingBack? { RollbackKeepsNoOrphan(s, start, l.t, u); }
          else if pc.Active? { ReleaseKeepsNoOrphan(s, start, l.t, u); }
          else { WorkKeepsNoOrphan(s, start, l.t, l.out, u); }
        }
      }
    }
  }

  lemma AcceptKeepsPhases(s: State, l: Label, u: string)
    requires l.Accept? && Enabled(s, l)
    ensures HasPending(Apply(s, l), u) <==> HasPending(s, u)
    ensures HasBefore(Apply(s, l), u) <==> HasBefore(s, u)
  {
    var s' := Apply(s, l);
    if HasPending(s, u) {
      var x :| x in s.threads && s.threads[x].user == u && Pending(s.threads[x].pc);
      assert x in s'.threads && Pending(s'.threads[x].pc);
    }
    if HasBefore(s, u) {
      var x :| x in s.threads && s.threads[x].user == u && BeforeAccount(s.threads[x].pc);
      assert x in s'.threads && BeforeAccount(s'.threads[x].pc);
    }
  }

  // NoLeak: the same four cases.

  lemma WorkKeepsNoLeak(s: State, start: Os, t: nat, o: Outcome, u: string)
    requires Inv(s) && LeakFree(s, start, u)
    requires Enabled(s, Go(t, o)) && !Books(s.threads[t].pc)
    ensures LeakFree(Work(s, t, o), start, u)
  {
    var s' := Work(s, t, o);
    WorkIsQuiet(s, t, o);
    if s.threads[t].user == u && Counted(s.threads[t].pc) { CountedIsPositive(s, t); }
    if HasPending(s, u) && (s.threads[t].user != u || !s.threads[t].pc.Teardown?) { PendingAfter(s, s', t, u); }
  }

  /** A thread that is not about to tear down moves; u's session stays as it is or is rolled back. */
  lemma UnrelatedKeepsNoLeak(s: State, s': State, start: Os, t: nat, u: string)
    requires LeakFree(s, start, u) && t in s.threads && t in s'.threads && s'.threads == s.threads[t := s'.threads[t]]
    requires s'.threads[t].user == s.threads[t].user && !Pending(s.threads[t].pc)
    requires s'.os == s.os && s'.hist.kept == s.hist.kept && s'.hist.torn == s.hist.torn
    requires || (&& (u in s'.sessions <==> u in s.sessions) && (u in s'.hist.stranded <==> u in s.hist.stranded)
                 && (u in s'.hist.rolled <==> u in s.hist.rolled))
             || (u in s'.hist.rolled && (u in s'.hist.stranded <==> u in s.os.sudoers))
    ensures LeakFree(s', start, u)
  {
    if HasPending(s, u) { PendingAfter(s, s', t, u); }
  }

  lemma RollbackKeepsNoLeak(s: State, start: Os, t: nat, u: string)
    requires Inv(s) && LeakFree(s, start, u) && t in s.threads && s.threads[t].pc.RollingBack?
    ensures LeakFree(Rollback(s, t), start, u)
  {
    CountedIsPositive(s, t);
    UnrelatedKeepsNoLeak(s, Rollback(s, t), start, t, u);
  }

  lemma AdmitKeepsNoLeak(s: State, start: Os, t: nat, u: string)
    requires Inv(s) && LeakFree(s, start, u) && t in s.threads && s.threads[t].pc.Start?
    ensures LeakFree(Admit(s, t), start, u)
  {
    if HasPending(s, u) { PendingAfter(s, Admit(s, t), t, u); }
  }

  lemma ReleaseKeepsNoLeak(s: State, start: Os, t: nat, u: string)
    requires Inv(s) && LeakFree(s, start, u) && t in s.threads && s.threads[t].pc.Active?
    ensures LeakFree(Release(s, t), start, u)
  {
    var s' := Release(s, t);
    CountedIsPositive(s, t);
    if HasPending(s, u) { PendingAfter(s, s', t, u); }
    if s.threads[t].user == u && u !in s'.sessions { assert Pending(s'.threads[t].pc); }
  }

  lemma KeepsNoLeak(s: State, start: Os, l: Label)
    requires Inv(s) && NoLeak(s, start) && Enabled(s, l)
    ensures NoLeak(Apply(s, l), start)
  {
    forall u ensures LeakFree(Apply(s, l), start, u) {
      assert LeakFree(s, start, u);
      if l.Accept? { AcceptKeepsPhases(s, l, u); }
      else {
        var pc := s.threads[l.t].pc;
        if pc.Start? { AdmitKeepsNoLeak(s, start, l.t, u); }
        else if pc.RollingBack? { RollbackKeepsNoLeak(s, start, l.t, u); }
        else if pc.Active? { ReleaseKeepsNoLeak(s, start, l.t, u); }
        else { WorkKeepsNoLeak(s, start, l.t, l.out, u); }
      }
    }
  }

  // InPlace.

  lemma WorkKeepsInPlace(s: State, t: nat, o: Outcome, u: string)
    requires Inv(s) && PlacedFor(s, u)
    requires Enabled(s, Go(t, o)) && !Books(s.threads[t].pc)
    ensures PlacedFor(Work(s, t, o), u)
  {
    var s' := Work(s, t, o);
    WorkIsQuiet(s, t, o);
    if HasBefore(s, u) && (s.threads[t].user != u || s'.threads[t].pc != FirstMod) { BeforeAfter(s, s', t, u); }
  }

  lemma AdmitKeepsInPlace(s: State, t: nat, u: string)
    requires Inv(s) && PlacedFor(s, u) && t in s.threads && s.threads[t].pc.Start?
    ensures PlacedFor(Admit(s, t), u)
  {
    var s' := Admit(s, t);
    if HasBefore(s, u) { BeforeAfter(s, s', t, u); }
    if s.threads[t].user == u && s'.threads[t].pc.FirstWait? { assert HasBefore(s', u); }
  }

  lemma RollbackKeepsInPlace(s: State, t: nat, u: string)
    requires Inv(s) && PlacedFor(s, u) && t in s.threads && s.threads[t].pc.RollingBack?
    ensures PlacedFor(Rollback(s, t), u)
  {
    CountedIsPositive(s, t);
    if HasBefore(s, u) && s.threads[t].user != u { BeforeAfter(s, Rollback(s, t), t, u); }
  }

  lemma ReleaseKeepsInPlace(s: State, t: nat, u: string)
    requires Inv(s) && PlacedFor(s, u) && t in s.threads && s.threads[t].pc.Active?
    ensures PlacedFor(Release(s, t), u)
  {
    CountedIsPositive(s, t);
    if HasBefore(s, u) { BeforeAfter(s, Release(s, t), t, u); }
  }

  lemma KeepsInPlace(s: State, l: Label)
    requires Inv(s) && InPlace(s) && Enabled(s, l)
    ensures InPlace(Apply(s, l))
  {
    forall u ensures PlacedFor(Apply(s, l), u) {
      assert PlacedFor(s, u);
      if l.Accept? { AcceptKeepsPhases(s, l, u); }
      else {
        var pc := s.threads[l.t].pc;
        if pc.Start? { AdmitKeepsInPlace(s, l.t, u); }
        else if pc.RollingBack? { RollbackKeepsInPlace(s, l.t, u); }
        else if pc.Active? { ReleaseKeepsInPlace(s, l.t, u); }
        else { WorkKeepsInPlace(s, l.t, l.out, u); }
      }
    }
  }

  lemma KeepsInv(s: State, l: Label)
    requires Inv(s) && Enabled(s, l)
    ensures Inv(Apply(s, l))
  {
    KeepsConserved(s, l);
    KeepsOwned(s, l);
    KeepsLocked(s, l);
    KeepsOneFirst(s, l);
  }
}
