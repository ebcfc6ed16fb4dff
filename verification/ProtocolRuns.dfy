/** What holds over whole runs of the protocol: any number of connections, arriving at any time, with
    any interleaving and any answers from the system. */
module ProtocolRuns {
  import opened Options
  import opened HostOs
  import opened Text
  import opened Protocol
  import opened ProtocolSafety

  /** Every reachable state satisfies every invariant. */
  lemma {:induction false} SafeRun(cleanup: bool, start: Os, ls: seq<Label>)
    ensures var r := Exec(Init(cleanup, start), ls);
            r.Some? ==> Inv(r.value) && NoOrphan(r.value, start) && NoLeak(r.value, start) && InPlace(r.value)
                        && r.value.cleanup == cleanup
  {
    var r := Exec(Init(cleanup, start), ls);
    if ls == [] {
      SafeInit(cleanup, start);
    } else if r.Some? {
      var p := Exec(Init(cleanup, start), ls[..|ls| - 1]).value;
      var l := ls[|ls| - 1];
      SafeRun(cleanup, start, ls[..|ls| - 1]);
      KeepsInv(p, l);
      KeepsNoOrphan(p, start, l);
      KeepsNoLeak(p, start, l);
      KeepsInPlace(p, l);
    }
  }

  lemma SafeInit(cleanup: bool, start: Os)
    ensures var s := Init(cleanup, start); Inv(s) && NoOrphan(s, start) && NoLeak(s, start) && InPlace(s)
  {
    var s := Init(cleanup, start);
    forall u ensures |Counting(s, u)| == 0 { assert Counting(s, u) == {}; }
  }

  /** The session count is the number of live connections, and a release never finds nothing to release. */
  lemma Conservation(cleanup: bool, start: Os, ls: seq<Label>, s: State)
    requires Exec(Init(cleanup, start), ls) == Some(s)
    ensures forall u :: Count(s.sessions, u) == |Counting(s, u)|
    ensures forall u | u in s.sessions :: s.sessions[u] > 0
    ensures forall t | t in s.threads :: !s.threads[t].pc.Untracked?
  {
    SafeRun(cleanup, start, ls);
  }

  /** Two live connections of one username belong to one identity, the recorded owner. */
  lemma ExclusiveOwnership(cleanup: bool, start: Os, ls: seq<Label>, s: State)
    requires Exec(Init(cleanup, start), ls) == Some(s)
    ensures s.owners.Keys == s.sessions.Keys
    ensures forall t | t in s.threads && Counted(s.threads[t].pc) ::
              s.threads[t].user in s.owners && s.owners[s.threads[t].user] == s.threads[t].identity
  {
    SafeRun(cleanup, start, ls);
    forall t | t in s.threads && Counted(s.threads[t].pc)
      ensures s.threads[t].user in s.owners && s.owners[s.threads[t].user] == s.threads[t].identity
    {
      assert OwnedBy(s, t);
    }
  }

  /** Commands on one username never overlap: two threads between taking and giving back the same
      user's mutex are one thread, and only a thread in that region changes the system, at its own
      username (or the state file). A user mutex, once created, is never removed. */
  lemma MutualExclusion(cleanup: bool, start: Os, ls: seq<Label>, s: State, t: nat, t': nat)
    requires Exec(Init(cleanup, start), ls) == Some(s)
    requires t in s.threads && t' in s.threads
    requires Holds(s.threads[t].pc) && Holds(s.threads[t'].pc) && s.threads[t].user == s.threads[t'].user
    ensures t == t'
  {
    SafeRun(cleanup, start, ls);
  }

  lemma CommandsStayHome(s: State, l: Label)
    requires Enabled(s, l)
    ensures var os := Apply(s, l).os;
            os != s.os ==>
              && l.Go? && Holds(s.threads[l.t].pc)
              && forall v | v != s.threads[l.t].user ::
                   && (v in os.accounts <==> v in s.os.accounts)
                   && (v in os.sudoers <==> v in s.os.sudoers)
                   && (v in os.sudoers ==> os.sudoers[v] == s.os.sudoers[v])
                   && (v in os.groups <==> v in s.os.groups)
                   && (v in os.groups ==> os.groups[v] == s.os.groups[v])
    ensures s.locks.Keys <= Apply(s, l).locks.Keys
  {
    if l.Go? && Books(s.threads[l.t].pc) {
      BooksAreBookish(s, l.t, l.out);
    }
  }

  /** Where the books steps lead. */
  predicate AfterBooks(pc: Pc, pc': Pc) {
    if pc.Start? then pc'.Rejected? || pc'.FirstWait? || pc'.LaterWait?
    else if pc.RollingBack? then pc'.FailUnlock?
    else pc'.Done? || pc'.LastWait? || pc'.Untracked?
  }

  /** The books steps change no file and no account, and pick up no lines to write. */
  ghost predicate Bookish(s: State, s': State, t: nat) {
    && s'.os == s.os && s.locks.Keys <= s'.locks.Keys
    && t in s.threads && t in s'.threads && s'.threads == s.threads[t := s'.threads[t]]
    && s'.threads[t] == s.threads[t].(pc := s'.threads[t].pc)
    && AfterBooks(s.threads[t].pc, s'.threads[t].pc)
    && Ahead(s'.threads[t].pc) < Ahead(s.threads[t].pc)
  }

  lemma AdmitIsBookish(s: State, t: nat)
    requires t in s.threads && s.threads[t].pc.Start?
    ensures Bookish(s, Admit(s, t), t)
  {
  }

  lemma RollbackIsBookish(s: State, t: nat)
    requires t in s.threads && s.threads[t].pc.RollingBack?
    ensures Bookish(s, Rollback(s, t), t)
  {
  }

  lemma ReleaseIsBookish(s: State, t: nat)
    requires t in s.threads && s.threads[t].pc.Active?
    ensures Bookish(s, Release(s, t), t)
  {
  }

  lemma BooksAreBookish(s: State, t: nat, o: Outcome)
    requires Enabled(s, Go(t, o)) && Books(s.threads[t].pc)
    ensures Bookish(s, Advance(s, t, o), t)
  {
    var pc := s.threads[t].pc;
    if pc.Start? { AdmitIsBookish(s, t); }
    else if pc.RollingBack? { RollbackIsBookish(s, t); }
    else { ReleaseIsBookish(s, t); }
  }

  // ---- progress ----

  lemma Enumerate(keys: set<string>) returns (order: seq<string>)
    ensures multiset(order) == multiset(keys)
  {
    order := [];
    var rest := keys;
    while rest != {}
      invariant rest <= keys && multiset(order) + multiset(rest) == multiset(keys)
      decreases rest
    {
      var k :| k in rest;
      order, rest := order + [k], rest - {k};
    }
  }

  /** A thread that is neither finished nor waiting can always move. */
  lemma Movable(s: State, t: nat) returns (o: Outcome)
    requires t in s.threads && !Finished(s.threads[t].pc) && !Waits(s.threads[t].pc)
    ensures Enabled(s, Go(t, o))
  {
    var order := Enumerate(s.sessions.Keys);
    o := Outcome(true, true, order);
  }

  /** Some thread can move as long as some connection is unfinished. */
  lemma DeadlockFree(cleanup: bool, start: Os, ls: seq<Label>, s: State, t: nat) returns (l: Label)
    requires Exec(Init(cleanup, start), ls) == Some(s)
    requires t in s.threads && !Finished(s.threads[t].pc)
    ensures l.Go? && Enabled(s, l)
  {
    SafeRun(cleanup, start, ls);
    if Waits(s.threads[t].pc) {
      assert UsesLock(s.threads[t].pc);
      var lock := s.locks[s.threads[t].user];
      if lock == None {
        l := Go(t, Outcome(true, true, []));
      } else {
        var o := Movable(s, lock.value);
        l := Go(lock.value, o);
      }
    } else {
      var o := Movable(s, t);
      l := Go(t, o);
    }
  }

  /** How many steps a thread still has ahead of it, at most. */
  function Ahead(pc: Pc): nat {
    match pc
    case Start => 14
    case FirstWait => 13
    case UserAdding => 12
    case FirstMod => 11
    case FirstSudo => 10
    case FirstSnap => 9
    case FirstWrite(_) => 8
    case FirstUnlock => 7
    case RollingBack => 2
    case FailUnlock => 1
    case LaterWait => 10
    case LaterMod => 9
    case LaterSudo => 8
    case LaterUnlock => 7
    case Active => 6
    case LastWait => 5
    case Teardown => 4
    case LastSnap => 3
    case LastWrite(_) => 2
    case LastUnlock => 1
    case Rejected | Failed | Done | Untracked => 0
  }

  function StepsOf(ls: seq<Label>, t: nat): nat {
    if ls == [] then 0
    else StepsOf(ls[..|ls| - 1], t) + (if ls[|ls| - 1].Go? && ls[|ls| - 1].t == t then 1 else 0)
  }

  lemma StepShrinksAhead(s: State, t: nat, o: Outcome)
    requires Enabled(s, Go(t, o))
    ensures var s' := Advance(s, t, o);
            && s'.threads.Keys == s.threads.Keys && s'.threads == s.threads[t := s'.threads[t]]
            && Ahead(s'.threads[t].pc) < Ahead(s.threads[t].pc)
            && forall x | x in s.threads && x != t :: s'.threads[x] == s.threads[x]
  {
    if Books(s.threads[t].pc) { BooksAreBookish(s, t, o); } else { WorkShrinksAhead(s, t, o); }
  }

  lemma WorkShrinksAhead(s: State, t: nat, o: Outcome)
    requires Enabled(s, Go(t, o)) && !Books(s.threads[t].pc)
    ensures var s' := Work(s, t, o);
            && s'.threads == s.threads[t := s'.threads[t]] && t in s'.threads
            && Ahead(s'.threads[t].pc) < Ahead(s.threads[t].pc)
  {
  }

  /** No connection takes more than fourteen steps. */
  lemma {:induction false} BoundedSteps(start: State, ls: seq<Label>, s: State, t: nat)
    requires start.threads == map[] && Exec(start, ls) == Some(s)
    ensures StepsOf(ls, t) + (if t in s.threads then Ahead(s.threads[t].pc) else 14) <= 14
  {
    if ls == [] {
    } else {
      var p := Exec(start, ls[..|ls| - 1]).value;
      var l := ls[|ls| - 1];
      BoundedSteps(start, ls[..|ls| - 1], p, t);
      if l.Go? { StepShrinksAhead(p, l.t, l.out); }
    }
  }

  // ---- when all connections are finished ----

  ghost predicate AllFinished(s: State) {
    forall t | t in s.threads :: Finished(s.threads[t].pc)
  }

  lemma RestingBooks(s: State)
    requires Inv(s) && AllFinished(s)
    ensures s.sessions == map[] && s.owners == map[]
    ensures forall u | u in s.locks :: s.locks[u] == None
  {
    forall u ensures u !in s.sessions {
      assert Counting(s, u) == {};
      assert Count(s.sessions, u) == 0;
    }
    assert s.sessions.Keys == {} && s.owners.Keys == {};
  }

  lemma RestingAccount(s: State, start: Os, u: string)
    requires AllFinished(s) && s.sessions == map[] && OrphanFree(s, start, u)
    ensures u in s.os.accounts <==> u in s.hist.stuck || OldAccount(s, start, u)
  {
    assert !HasPending(s, u);
  }

  lemma RestingSudoers(s: State, start: Os, u: string)
    requires AllFinished(s) && s.sessions == map[] && LeakFree(s, start, u)
    ensures u in s.os.sudoers <==> u in s.hist.kept || u in s.hist.stranded || OldSudoers(s, start, u)
  {
    assert !HasPending(s, u);
  }

  /** At rest the books are empty, every mutex is free, and what is left on the system is exactly what
      commands failed to remove, a rollback stranded, or was there before and never ended a session. */
  lemma AtRest(cleanup: bool, start: Os, ls: seq<Label>, s: State)
    requires Exec(Init(cleanup, start), ls) == Some(s) && AllFinished(s)
    ensures s.sessions == map[] && s.owners == map[]
    ensures forall u | u in s.locks :: s.locks[u] == None
    ensures cleanup ==> forall u :: u in s.os.accounts <==> u in s.hist.stuck || OldAccount(s, start, u)
    ensures forall u ::
              u in s.os.sudoers <==> u in s.hist.kept || u in s.hist.stranded || OldSudoers(s, start, u)
  {
    SafeRun(cleanup, start, ls);
    RestingBooks(s);
    forall u ensures u in s.os.sudoers <==> u in s.hist.kept || u in s.hist.stranded || OldSudoers(s, start, u)
    {
      assert LeakFree(s, start, u);
      RestingSudoers(s, start, u);
    }
    if cleanup {
      forall u ensures u in s.os.accounts <==> u in s.hist.stuck || OldAccount(s, start, u) {
        assert OrphanFree(s, start, u);
        RestingAccount(s, start, u);
      }
    }
  }

  /** Which outcomes a run got: every step taken at pc with the flag set. */
  ghost predicate Always(start: State, ls: seq<Label>, ok: (Pc, Outcome) -> bool) {
    forall k | 0 <= k < |ls| && ls[k].Go? ::
      var p := Exec(start, ls[..k]);
      p.Some? && ls[k].t in p.value.threads ==> ok(p.value.threads[ls[k].t].pc, ls[k].out)
  }

  lemma AlwaysPrefix(start: State, ls: seq<Label>, ok: (Pc, Outcome) -> bool)
    requires ls != [] && Always(start, ls, ok)
    ensures Always(start, ls[..|ls| - 1], ok)
    ensures var p := Exec(start, ls[..|ls| - 1]);
            var l := ls[|ls| - 1];
            p.Some? && l.Go? && l.t in p.value.threads ==> ok(p.value.threads[l.t].pc, l.out)
  {
    var front := ls[..|ls| - 1];
    forall k | 0 <= k < |front| && front[k].Go?
      ensures var p := Exec(start, front[..k]);
              p.Some? && front[k].t in p.value.threads ==> ok(p.value.threads[front[k].t].pc, front[k].out)
    {
      assert front[..k] == ls[..k] && front[k] == ls[k];
    }
  }

  predicate DeletionWorks(pc: Pc, o: Outcome) {
    pc.Teardown? ==> o.ok
  }

  predicate SudoersStay(pc: Pc, o: Outcome) {
    (pc.Teardown? ==> o.rm) && (pc.UserAdding? ==> o.ok)
  }

  lemma {:induction false} NothingStuck(start: State, ls: seq<Label>, s: State)
    requires Exec(start, ls) == Some(s) && start.hist.stuck == {}
    requires Always(start, ls, DeletionWorks)
    ensures s.hist.stuck == {}
  {
    if ls == [] {
    } else {
      var p := Exec(start, ls[..|ls| - 1]).value;
      var l := ls[|ls| - 1];
      AlwaysPrefix(start, ls, DeletionWorks);
      NothingStuck(start, ls[..|ls| - 1], p);
      if l.Go? && Books(p.threads[l.t].pc) { BooksKeepStuck(p, l.t, l.out); }
    }
  }

  lemma BooksKeepStuck(s: State, t: nat, o: Outcome)
    requires Enabled(s, Go(t, o)) && Books(s.threads[t].pc)
    ensures var h := Advance(s, t, o).hist;
            h.stuck == s.hist.stuck && h.kept == s.hist.kept
            && (!s.threads[t].pc.RollingBack? ==> h.stranded == s.hist.stranded)
  {
  }

  /** No orphan accounts: with cleanup on, if userdel works on accounts that exist, then once all
      connections are finished only accounts from before the daemon are left - whatever else failed,
      useradd and its rollback included. */
  lemma NoOrphanAccounts(start: Os, ls: seq<Label>, s: State)
    requires Exec(Init(true, start), ls) == Some(s) && AllFinished(s)
    requires Always(Init(true, start), ls, DeletionWorks)
    ensures s.os.accounts <= start.accounts
    ensures s.sessions == map[] && s.owners == map[]
  {
    AtRest(true, start, ls, s);
    NothingStuck(Init(true, start), ls, s);
  }

  ghost predicate NoneRollingBack(s: State) {
    forall t | t in s.threads :: !s.threads[t].pc.RollingBack?
  }

  lemma {:induction false} NothingLeft(start: State, ls: seq<Label>, s: State)
    requires Exec(start, ls) == Some(s) && start.hist.kept == {} && start.hist.stranded == {}
    requires NoneRollingBack(start) && Always(start, ls, SudoersStay)
    ensures s.hist.kept == {} && s.hist.stranded == {} && NoneRollingBack(s)
  {
    if ls == [] {
    } else {
      var p := Exec(start, ls[..|ls| - 1]).value;
      var l := ls[|ls| - 1];
      AlwaysPrefix(start, ls, SudoersStay);
      NothingLeft(start, ls[..|ls| - 1], p);
      if l.Go? && Books(p.threads[l.t].pc) {
        BooksKeepStuck(p, l.t, l.out);
        BooksNeverFail(p, l.t, l.out);
      }
    }
  }

  lemma BooksNeverFail(s: State, t: nat, o: Outcome)
    requires Enabled(s, Go(t, o)) && Books(s.threads[t].pc) && NoneRollingBack(s)
    ensures NoneRollingBack(Advance(s, t, o))
  {
  }

  /** No leaked sudoers files, with cleanup on or off: if useradd succeeds (or reports an existing
      account) and the teardowns can remove the file, none is left once all connections are finished. */
  lemma NoLeakedSudoers(cleanup: bool, start: Os, ls: seq<Label>, s: State)
    requires Exec(Init(cleanup, start), ls) == Some(s) && AllFinished(s)
    requires Always(Init(cleanup, start), ls, SudoersStay)
    ensures s.os.sudoers.Keys <= start.sudoers.Keys
  {
    AtRest(cleanup, start, ls, s);
    NothingLeft(Init(cleanup, start), ls, s);
    forall u | u in s.os.sudoers.Keys ensures u in start.sudoers.Keys { }
  }

  /** An account under a live session: once the first useradd of the session is over, it exists exactly
      when nothing undercut it; before that, with cleanup on, it can only be a leftover. */
  lemma AccountUnderSession(cleanup: bool, start: Os, ls: seq<Label>, s: State, t: nat)
    requires Exec(Init(cleanup, start), ls) == Some(s)
    requires t in s.threads && s.threads[t].pc.Active?
    ensures var u := s.threads[t].user;
            if HasBefore(s, u) then
              cleanup && !OldAccount(s, start, u) && u !in s.hist.stuck && !HasPending(s, u) ==> u !in s.os.accounts
            else
              u in s.os.accounts <==> u !in s.hist.undercut
  {
    SafeRun(cleanup, start, ls);
    CountedIsPositive(s, t);
    assert PlacedFor(s, s.threads[t].user);
    if cleanup { assert OrphanFree(s, start, s.threads[t].user); }
  }

  // ---- the state file ----

  /** lines lists the session keys of some state the run has passed through. */
  ghost predicate Snapshot(start: State, ls: seq<Label>, lines: seq<string>) {
    exists k :: 0 <= k <= |ls| && SnapshotAt(start, ls, lines, k)
  }

  ghost predicate SnapshotAt(start: State, ls: seq<Label>, lines: seq<string>, k: nat)
    requires k <= |ls|
  {
    var p := Exec(start, ls[..k]);
    p.Some? && multiset(lines) == multiset(p.value.sessions.Keys)
  }

  lemma SnapshotLasts(start: State, ls: seq<Label>, lines: seq<string>)
    requires ls != [] && Snapshot(start, ls[..|ls| - 1], lines)
    ensures Snapshot(start, ls, lines)
  {
    var front := ls[..|ls| - 1];
    var k :| 0 <= k <= |front| && SnapshotAt(start, front, lines, k);
    assert front[..k] == ls[..k];
    assert SnapshotAt(start, ls, lines, k);
  }

  predicate Writes(pc: Pc, lines: seq<string>) {
    pc == FirstWrite(lines) || pc == LastWrite(lines)
  }

  ghost predicate FromSnapshots(start: State, ls: seq<Label>, s: State) {
    && (s.os.file == start.os.file
        || exists lines :: Snapshot(start, ls, lines) && s.os.file == Some(Unlines(lines)))
    && forall t, lines | t in s.threads && Writes(s.threads[t].pc, lines) :: Snapshot(start, ls, lines)
  }

  /** A step that installs nothing but its mover's pending lines, and picks up nothing but a snapshot. */
  lemma StepKeepsSnapshots(start: State, ls: seq<Label>, p: State, s: State, t: nat)
    requires ls != [] && FromSnapshots(start, ls[..|ls| - 1], p)
    requires t in s.threads && s.threads == p.threads[t := s.threads[t]]
    requires s.os.file == p.os.file
             || exists lines :: t in p.threads && Writes(p.threads[t].pc, lines) && s.os.file == Some(Unlines(lines))
    requires forall lines | Writes(s.threads[t].pc, lines) :: Snapshot(start, ls, lines)
    ensures FromSnapshots(start, ls, s)
  {
    forall lines | Snapshot(start, ls[..|ls| - 1], lines) ensures Snapshot(start, ls, lines) {
      SnapshotLasts(start, ls, lines);
    }
  }

  /** Every content the daemon installs as state file is the complete session key set of a state it
      passed through - though not necessarily the latest. */
  lemma {:induction false} StateFileIsSnapshot(start: State, ls: seq<Label>, s: State)
    requires start.threads == map[] && Exec(start, ls) == Some(s)
    ensures FromSnapshots(start, ls, s)
  {
    if ls == [] {
    } else {
      var front := ls[..|ls| - 1];
      var p := Exec(start, front).value;
      var l := ls[|ls| - 1];
      StateFileIsSnapshot(start, front, p);
      if l.Accept? { StepKeepsSnapshots(start, ls, p, s, l.conn); }
      else if Books(p.threads[l.t].pc) {
        BooksAreBookish(p, l.t, l.out);
        StepKeepsSnapshots(start, ls, p, s, l.t);
      } else {
        WorkTakesSnapshots(start, ls, p, l.t, l.out);
      }
    }
  }

  lemma WorkTakesSnapshots(start: State, ls: seq<Label>, p: State, t: nat, o: Outcome)
    requires ls != [] && Exec(start, ls[..|ls| - 1]) == Some(p) && FromSnapshots(start, ls[..|ls| - 1], p)
    requires Enabled(p, Go(t, o)) && !Books(p.threads[t].pc)
    ensures FromSnapshots(start, ls, Advance(p, t, o))
  {
    var front := ls[..|ls| - 1];
    assert ls[..|front|] == front;
    WorkWritesSnapshots(p, t, o);
    var pc := p.threads[t].pc;
    if pc.FirstWrite? { assert Writes(pc, pc.firstLines); }
    if pc.LastWrite? { assert Writes(pc, pc.lastLines); }
    if multiset(o.order) == multiset(p.sessions.Keys) { assert SnapshotAt(start, ls, o.order, |front|); }
    StepKeepsSnapshots(start, ls, p, Advance(p, t, o), t);
  }

  lemma WorkWritesSnapshots(s: State, t: nat, o: Outcome)
    requires Enabled(s, Go(t, o)) && !Books(s.threads[t].pc)
    ensures var s' := Work(s, t, o);
            var pc, pc' := s.threads[t].pc, s'.threads[t].pc;
            && t in s'.threads && s'.threads == s.threads[t := s'.threads[t]]
            && (s'.os.file == s.os.file
                || (pc.FirstWrite? && s'.os.file == Some(Unlines(pc.firstLines)))
                || (pc.LastWrite? && s'.os.file == Some(Unlines(pc.lastLines))))
            && (pc'.FirstWrite? ==> pc'.firstLines == o.order && pc.FirstSnap?)
            && (pc'.LastWrite? ==> pc'.lastLines == o.order && pc.LastSnap?)
  {
  }
}
