/** EnsureUser's comment promises that the account exists once it returns nil. Whether it does for a given
    connection, and whether it then stays while the connection is being proxied, is settled when the
    connection is admitted: this module says exactly when. */
module ProtocolGuarantee {
  import opened Options
  import opened HostOs
  import opened Protocol
  import opened ProtocolSafety
  import opened ProtocolRuns
  import opened ProtocolSerial

  /** In whatever way the run goes on, the account is there while t is in the proxy loop. */
  ghost predicate AccountStays(s: State, t: nat)
    requires t in s.threads
  {
    forall ls: seq<Label> :: StaysAlong(s, t, ls)
  }

  ghost predicate StaysAlong(s: State, t: nat, ls: seq<Label>)
    requires t in s.threads
  {
    var r := Exec(s, ls);
    r.Some? && t in r.value.threads && r.value.threads[t].pc.Active? ==> s.threads[t].user in r.value.os.accounts
  }

  /** An earlier last release of u is still queueing for the user mutex. */
  ghost predicate ReleaseWaiting(s: State, u: string) {
    exists x :: x in s.threads && s.threads[x].user == u && s.threads[x].pc.LastWait?
  }

  /** What an admitted connection has to find: no release that will delete the account after it has
      come through and, for a later session, the account already there and no release about to delete it. */
  ghost predicate SafeToEnter(s: State, t: nat)
    requires t in s.threads
  {
    var u := s.threads[t].user;
    && (s.cleanup ==> !ReleaseWaiting(s, u))
    && (s.threads[t].pc.LaterWait? ==> u in s.os.accounts && (s.cleanup ==> !HasPending(s, u)))
  }

  // ---- entering safely keeps the account ----

  /** While t is counted: with cleanup on no release of its username waits, and past FirstWait none is
      pending at all; and once no useradd of its own is ahead of it the account is there. */
  ghost predicate Secured(s: State, t: nat, u: string) {
    && t in s.threads && s.threads[t].user == u && !s.threads[t].pc.Start?
    && (Counted(s.threads[t].pc) && !s.threads[t].pc.RollingBack? ==>
          && (s.cleanup ==> !ReleaseWaiting(s, u))
          && (s.cleanup && !s.threads[t].pc.FirstWait? ==> !HasPending(s, u))
          && (!BeforeAccount(s.threads[t].pc) ==> u in s.os.accounts))
  }

  lemma NoNewPending(s: State, s': State, m: nat, u: string)
    requires m in s'.threads && s'.threads == s.threads[m := s'.threads[m]]
    requires s'.threads[m].user != u || !Pending(s'.threads[m].pc)
             || (m in s.threads && s.threads[m].user == u && s.threads[m].pc == s'.threads[m].pc)
    ensures ReleaseWaiting(s', u) ==> ReleaseWaiting(s, u)
    ensures HasPending(s', u) ==> HasPending(s, u)
  {
    if HasPending(s', u) {
      var x :| x in s'.threads && s'.threads[x].user == u && Pending(s'.threads[x].pc);
      assert x in s.threads && Pending(s.threads[x].pc);
    }
    if ReleaseWaiting(s', u) {
      var x :| x in s'.threads && s'.threads[x].user == u && s'.threads[x].pc.LastWait?;
      assert x in s.threads && s.threads[x].pc.LastWait?;
    }
  }

  lemma AcceptKeepsSecured(s: State, l: Label, t: nat, u: string)
    requires Secured(s, t, u) && Enabled(s, l) && l.Accept?
    ensures Secured(Apply(s, l), t, u)
  {
    NoNewPending(s, Apply(s, l), l.conn, u);
  }

  lemma AdmitKeepsSecured(s: State, m: nat, t: nat, u: string)
    requires Secured(s, t, u) && m in s.threads && s.threads[m].pc.Start?
    ensures Secured(Admit(s, m), t, u)
  {
    AdmitIsBookish(s, m);
    NoNewPending(s, Admit(s, m), m, u);
  }

  lemma RollbackKeepsSecured(s: State, m: nat, t: nat, u: string)
    requires Secured(s, t, u) && m in s.threads && s.threads[m].pc.RollingBack?
    ensures Secured(Rollback(s, m), t, u)
  {
    RollbackIsBookish(s, m);
    NoNewPending(s, Rollback(s, m), m, u);
  }

  /** While t is counted, another connection's release does not take the last session. */
  lemma ReleaseKeepsSecured(s: State, m: nat, t: nat, u: string)
    requires Inv(s) && Secured(s, t, u) && m in s.threads && s.threads[m].pc.Active?
    ensures Secured(Release(s, m), t, u)
  {
    ReleaseIsBookish(s, m);
    if m != t && Counted(s.threads[t].pc) {
      if s.threads[m].user == u {
        CountedIsPositive(s, t);
        if Count(s.sessions, u) == 1 { SoleHolder(s, m, t); }
      }
      NoNewPending(s, Release(s, m), m, u);
    }
  }

  /** Where a working thread's step can create a pending release or lose the account of u. */
  lemma WorkShape(s: State, m: nat, o: Outcome, u: string)
    requires Enabled(s, Go(m, o)) && !Books(s.threads[m].pc)
    ensures var s' := Work(s, m, o);
            && m in s'.threads && s'.threads == s.threads[m := s'.threads[m]]
            && s'.threads[m].user == s.threads[m].user && s'.cleanup == s.cleanup
            && !s'.threads[m].pc.LastWait? && !s'.threads[m].pc.Start? && !s'.threads[m].pc.FirstWait?
            && (s'.threads[m].pc.Teardown? ==> s.threads[m].pc.LastWait?)
            && (u in s.os.accounts && u !in s'.os.accounts ==>
                  s.cleanup && s.threads[m].pc.Teardown? && s.threads[m].user == u)
            && (s'.threads[m].pc.UserAdding? ==> s.threads[m].pc.FirstWait?)
            && (s.threads[m].pc.UserAdding? && s'.threads[m].pc.FirstMod? ==> s.threads[m].user in s'.os.accounts)
            && (s'.threads[m].pc.RollingBack? || (s.threads[m].pc.UserAdding? ==> s'.threads[m].pc.FirstMod?))
  {
  }

  lemma WorkKeepsSecured(s: State, m: nat, o: Outcome, t: nat, u: string)
    requires Inv(s) && Secured(s, t, u) && Enabled(s, Go(m, o)) && !Books(s.threads[m].pc)
    ensures Secured(Work(s, m, o), t, u)
  {
    var s' := Work(s, m, o);
    WorkShape(s, m, o, u);
    WorkIsQuiet(s, m, o);
    if Counted(s.threads[t].pc) && !s.threads[t].pc.RollingBack? {
      if s.cleanup {
        assert s.threads[m].user == u ==> !s.threads[m].pc.LastWait?;
        NoNewPending(s, s', m, u);
        if m == t && s.threads[t].pc.FirstWait? { TakingMeansNonePending(s, t, o); }
        assert s.threads[m].pc.Teardown? && s.threads[m].user == u ==> HasPending(s, u);
      }
    }
  }

  /** Whoever can take the mutex finds no thread tearing down. */
  lemma TakingMeansNonePending(s: State, t: nat, o: Outcome)
    requires Inv(s) && Enabled(s, Go(t, o)) && s.threads[t].pc.FirstWait? && !ReleaseWaiting(s, s.threads[t].user)
    ensures !HasPending(s, s.threads[t].user)
  {
    var u := s.threads[t].user;
    forall x | x in s.threads && s.threads[x].user == u ensures !Pending(s.threads[x].pc) {
      assert !s.threads[x].pc.LastWait?;
      assert !Holds(s.threads[x].pc);
    }
  }

  lemma {:induction false} SecuredForever(s: State, ls: seq<Label>, t: nat, u: string)
    requires Inv(s) && Secured(s, t, u)
    ensures var r := Exec(s, ls); r.Some? ==> Inv(r.value) && Secured(r.value, t, u)
  {
    var r := Exec(s, ls);
    if ls == [] {
    } else if r.Some? {
      SecuredForever(s, ls[..|ls| - 1], t, u);
      var p := Exec(s, ls[..|ls| - 1]).value;
      var l := ls[|ls| - 1];
      KeepsInv(p, l);
      if l.Accept? { AcceptKeepsSecured(p, l, t, u); }
      else {
        var pc := p.threads[l.t].pc;
        if pc.Start? { AdmitKeepsSecured(p, l.t, t, u); }
        else if pc.RollingBack? { RollbackKeepsSecured(p, l.t, t, u); }
        else if pc.Active? { ReleaseKeepsSecured(p, l.t, t, u); }
        else { WorkKeepsSecured(p, l.t, l.out, t, u); }
      }
    }
  }

  // ---- and entering otherwise can lose it ----

  /** Let whoever holds the mutex of u finish, every command failing, while t and x stay where they are. */
  lemma FreeMutex(s0: State, ls: seq<Label>, s: State, u: string, t: nat, x: nat) returns (ls': seq<Label>, s': State)
    requires Exec(s0, ls) == Some(s) && Inv(s) && u in s.locks
    requires t in s.threads && x in s.threads && !Holds(s.threads[t].pc) && !Holds(s.threads[x].pc)
    ensures Exec(s0, ls') == Some(s') && u in s'.locks && s'.locks[u] == None
    ensures t in s'.threads && x in s'.threads && s'.threads[t] == s.threads[t] && s'.threads[x] == s.threads[x]
    ensures s'.cleanup == s.cleanup && s'.os.accounts == s.os.accounts
    decreases if s.locks[u].Some? && s.locks[u].value in s.threads then Ahead(s.threads[s.locks[u].value].pc) else 0
  {
    if s.locks[u] == None {
      ls', s' := ls, s;
    } else {
      var h := s.locks[u].value;
      var mid: State;
      ls', mid := FailStep(s0, ls, s, h);
      if mid.locks[u].Some? { SameHolder(s, mid, u, h); }
      ls', s' := FreeMutex(s0, ls', mid, u, t, x);
    }
  }

  lemma {:induction false} InvAlong(s: State, ls: seq<Label>)
    requires Inv(s)
    ensures Exec(s, ls).Some? ==> Inv(Exec(s, ls).value)
  {
    if ls == [] {
    } else if Exec(s, ls).Some? {
      InvAlong(s, ls[..|ls| - 1]);
      KeepsInv(Exec(s, ls[..|ls| - 1]).value, ls[|ls| - 1]);
    }
  }

  lemma HasMutex(s: State, t: nat)
    requires Inv(s) && t in s.threads && UsesLock(s.threads[t].pc)
    ensures s.threads[t].user in s.locks
  {
  }

  /** One step of a thread inside the mutex, its command failing. */
  lemma FailStep(s0: State, ls: seq<Label>, s: State, h: nat) returns (ls': seq<Label>, s': State)
    requires Exec(s0, ls) == Some(s) && Inv(s) && h in s.threads && Holds(s.threads[h].pc)
    ensures Exec(s0, ls') == Some(s') && Inv(s')
    ensures s'.threads.Keys == s.threads.Keys && Ahead(s'.threads[h].pc) < Ahead(s.threads[h].pc)
    ensures forall x | x in s.threads && x != h :: s'.threads[x] == s.threads[x]
    ensures s'.cleanup == s.cleanup && s'.os.accounts == s.os.accounts && s.locks.Keys <= s'.locks.Keys
  {
    var order := Enumerate(s.sessions.Keys);
    var o := Outcome(false, false, order);
    ls', s' := ls + [Go(h, o)], Advance(s, h, o);
    ExecStep(s0, ls, s, Go(h, o));
    KeepsInv(s, Go(h, o));
    StepShrinksAhead(s, h, o);
    FailingStaysPut(s, h, o);
  }

  lemma FailingStaysPut(s: State, t: nat, o: Outcome)
    requires Enabled(s, Go(t, o)) && !o.ok
    ensures var s' := Advance(s, t, o);
            s'.cleanup == s.cleanup && s.locks.Keys <= s'.locks.Keys && s'.os.accounts == s.os.accounts
  {
    if Books(s.threads[t].pc) { BooksAreBookish(s, t, o); }
  }

  lemma SameHolder(s: State, mid: State, u: string, h: nat)
    requires Inv(s) && Inv(mid) && u in s.locks && s.locks[u] == Some(h) && u in mid.locks && mid.locks[u].Some?
    requires mid.threads.Keys == s.threads.Keys && forall x | x in s.threads && x != h :: mid.threads[x] == s.threads[x]
    ensures mid.locks[u] == Some(h)
  {
    var y := mid.locks[u].value;
    if y != h { assert Holds(s.threads[y].pc) && s.threads[y].user == u; }
  }

  /** An admitted connection takes its free mutex and comes through to the proxy loop. */
  lemma Enters(s0: State, ls: seq<Label>, s: State, t: nat) returns (ls': seq<Label>, s': State)
    requires Exec(s0, ls) == Some(s) && t in s.threads && (s.threads[t].pc.FirstWait? || s.threads[t].pc.LaterWait?)
    requires s.threads[t].user in s.locks && s.locks[s.threads[t].user] == None
    ensures Exec(s0, ls') == Some(s') && Moved(s, s', t) && s'.threads[t].pc == Active
    ensures s.threads[t].pc.LaterWait? ==> s'.os.accounts == s.os.accounts
  {
    if s.threads[t].pc.FirstWait? {
      var order := Enumerate(s.sessions.Keys);
      ls', s' := FirstOnward(s0, ls, s, t, AllWell(), order);
    } else {
      ls', s' := LaterOnward(s0, ls, s, t, AllWell());
    }
  }

  /** A connection at the proxy loop loses its account to a waiting release. */
  lemma LosesAccount(s0: State, ls: seq<Label>, s: State, t: nat, x: nat) returns (ls': seq<Label>, s': State)
    requires Exec(s0, ls) == Some(s) && s.cleanup && t in s.threads && x in s.threads && s.threads[t].pc.Active?
    requires s.threads[x].pc.LastWait? && s.threads[x].user == s.threads[t].user
    requires s.threads[x].user in s.locks && s.locks[s.threads[x].user] == None
    ensures Exec(s0, ls') == Some(s') && t in s'.threads && s'.threads[t].pc.Active?
    ensures s.threads[t].user !in s'.os.accounts
  {
    ls', s' := TearsDown(s0, ls, s, x, AllWell());
  }

  /** t comes through while x stays where it is. */
  lemma EntersPast(s0: State, ls: seq<Label>, s: State, t: nat, x: nat) returns (ls': seq<Label>, s': State)
    requires Exec(s0, ls) == Some(s) && t in s.threads && (s.threads[t].pc.FirstWait? || s.threads[t].pc.LaterWait?)
    requires s.threads[t].user in s.locks && s.locks[s.threads[t].user] == None
    requires x in s.threads && x != t
    ensures Exec(s0, ls') == Some(s') && s'.cleanup == s.cleanup
    ensures t in s'.threads && s'.threads[t] == s.threads[t].(pc := Active)
    ensures x in s'.threads && s'.threads[x] == s.threads[x]
    ensures s.threads[t].user in s'.locks && s'.locks[s.threads[t].user] == None
  {
    ls', s' := Enters(s0, ls, s, t);
  }

  /** The waiting release lets t come through first, then deletes the account under it. */
  lemma ReleaseOvertakes(s: State, t: nat, x: nat) returns (ls: seq<Label>)
    requires Inv(s) && s.cleanup && t in s.threads && x in s.threads
    requires s.threads[t].pc.FirstWait? || s.threads[t].pc.LaterWait?
    requires s.threads[x].pc.LastWait? && s.threads[x].user == s.threads[t].user
    ensures !StaysAlong(s, t, ls)
  {
    var mid: State;
    HasMutex(s, t);
    ls, mid := FreeMutex(s, [], s, s.threads[t].user, t, x);
    ls, mid := EntersPast(s, ls, mid, t, x);
    ls, mid := LosesAccount(s, ls, mid, t, x);
  }

  /** A later session comes through before any useradd has succeeded. */
  lemma EntersWithout(s0: State, ls: seq<Label>, s: State, t: nat) returns (ls': seq<Label>, s': State)
    requires Exec(s0, ls) == Some(s) && Inv(s) && t in s.threads && s.threads[t].pc.LaterWait?
    requires s.threads[t].user !in s.os.accounts
    ensures Exec(s0, ls') == Some(s') && LastMoved(ls', t) && t in s'.threads && s'.threads[t].pc.Active?
    ensures s.threads[t].user !in s'.os.accounts
  {
    HasMutex(s, t);
    ls', s' := FreeMutex(s0, ls, s, s.threads[t].user, t, t);
    ls', s' := LaterOnward(s0, ls', s', t, AllWell());
  }

  /** A release at work deletes the account. */
  lemma TeardownFirst(s0: State, ls: seq<Label>, s: State, t: nat, x: nat) returns (ls': seq<Label>, s': State)
    requires Exec(s0, ls) == Some(s) && s.cleanup && t in s.threads && x in s.threads
    requires s.threads[t].pc.LaterWait? && s.threads[x].pc.Teardown? && s.threads[x].user == s.threads[t].user
    ensures Exec(s0, ls') == Some(s') && t in s'.threads && s'.threads[t] == s.threads[t]
    ensures s.threads[t].user !in s'.os.accounts
  {
    var l := Go(x, Respond(true, true));
    ls', s' := ls + [l], Work(s, x, Respond(true, true));
    ExecStep(s0, ls, s, l);
  }

  /** A waiting release takes the mutex. */
  lemma ReleaseFirst(s0: State, ls: seq<Label>, s: State, t: nat, x: nat) returns (ls': seq<Label>, s': State)
    requires Exec(s0, ls) == Some(s) && t in s.threads && x in s.threads && s.threads[t].pc.LaterWait?
    requires s.threads[x].pc.LastWait? && s.threads[x].user == s.threads[t].user
    requires s.threads[x].user in s.locks && s.locks[s.threads[x].user] == None
    ensures Exec(s0, ls') == Some(s') && s'.cleanup == s.cleanup
    ensures t in s'.threads && s'.threads[t] == s.threads[t]
    ensures x in s'.threads && s'.threads[x] == s.threads[x].(pc := Teardown)
  {
    var l := Go(x, Respond(true, true));
    ls', s' := ls + [l], Work(s, x, Respond(true, true));
    ExecStep(s0, ls, s, l);
  }

  /** Whatever keeps a later session from finding its account, a run in which it does not. */
  lemma ReturnsWithout(s: State, t: nat) returns (ls: seq<Label>, s': State)
    requires Inv(s) && t in s.threads && s.threads[t].pc.LaterWait? && !SafeToReturn(s, t)
    ensures Exec(s, ls) == Some(s') && LastMoved(ls, t) && t in s'.threads && s'.threads[t].pc.Active?
    ensures s.threads[t].user !in s'.os.accounts
  {
    ls, s' := [], s;
    if s.threads[t].user in s.os.accounts {
      var x :| x in s.threads && s.threads[x].user == s.threads[t].user && Pending(s.threads[x].pc);
      ls, s' := TeardownBegins(s, t, x);
      ls, s' := TeardownFirst(s, ls, s', t, x);
      InvAlong(s, ls);
    }
    ls, s' := EntersWithout(s, ls, s', t);
  }

  /** A pending release gets to its teardown while t waits. */
  lemma TeardownBegins(s: State, t: nat, x: nat) returns (ls: seq<Label>, s': State)
    requires Inv(s) && t in s.threads && s.threads[t].pc.LaterWait?
    requires x in s.threads && s.threads[x].user == s.threads[t].user && Pending(s.threads[x].pc)
    ensures Exec(s, ls) == Some(s') && s'.cleanup == s.cleanup
    ensures t in s'.threads && s'.threads[t] == s.threads[t]
    ensures x in s'.threads && s'.threads[x] == s.threads[x].(pc := Teardown)
  {
    ls, s' := [], s;
    if s.threads[x].pc.LastWait? {
      HasMutex(s, t);
      ls, s' := FreeMutex(s, [], s, s.threads[t].user, t, x);
      ls, s' := ReleaseFirst(s, ls, s', t, x);
    }
  }

  lemma WaysIn(s: State, t: nat) returns (ls: seq<Label>)
    requires Inv(s) && t in s.threads && (s.threads[t].pc.FirstWait? || s.threads[t].pc.LaterWait?)
    requires !SafeToEnter(s, t)
    ensures !StaysAlong(s, t, ls)
  {
    var u := s.threads[t].user;
    if s.cleanup && ReleaseWaiting(s, u) {
      var x :| x in s.threads && s.threads[x].user == u && s.threads[x].pc.LastWait?;
      ls := ReleaseOvertakes(s, t, x);
    } else {
      var s': State;
      ls, s' := ReturnsWithout(s, t);
    }
  }

  // ---- the moment EnsureUser returns ----

  /** A first session whose useradd has succeeded. */
  predicate PastUserAdd(pc: Pc) {
    pc.FirstMod? || pc.FirstSudo? || pc.FirstSnap? || pc.FirstWrite? || pc.FirstUnlock?
  }

  /** From useradd to giving back the mutex the account is there. */
  ghost predicate Made(s: State) {
    forall t | t in s.threads && PastUserAdd(s.threads[t].pc) :: s.threads[t].user in s.os.accounts
  }

  /** Only a teardown deletes an account, and it holds the mutex. */
  lemma WorkKeepsMade(s: State, m: nat, o: Outcome)
    requires Inv(s) && Made(s) && Enabled(s, Go(m, o)) && !Books(s.threads[m].pc)
    ensures Made(Work(s, m, o))
  {
    var s' := Work(s, m, o);
    forall t | t in s'.threads && PastUserAdd(s'.threads[t].pc) ensures s'.threads[t].user in s'.os.accounts {
      var u := s'.threads[t].user;
      WorkShape(s, m, o, u);
      if t != m { assert Holds(s.threads[t].pc); }
    }
  }

  lemma KeepsMade(s: State, l: Label)
    requires Inv(s) && Made(s) && Enabled(s, l)
    ensures Made(Apply(s, l))
  {
    if l.Go? {
      if Books(s.threads[l.t].pc) { BooksAreBookish(s, l.t, l.out); } else { WorkKeepsMade(s, l.t, l.out); }
    }
  }

  /** In every reachable state, a first session between its useradd and its return has its account. */
  lemma {:induction false} FirstSessionIsMade(cleanup: bool, start: Os, ls: seq<Label>, s: State)
    requires Exec(Init(cleanup, start), ls) == Some(s)
    ensures Made(s)
  {
    if ls == [] {
    } else {
      var front := ls[..|ls| - 1];
      var p := Exec(Init(cleanup, start), front).value;
      FirstSessionIsMade(cleanup, start, front, p);
      SafeRun(cleanup, start, front);
      KeepsMade(p, ls[|ls| - 1]);
    }
  }

  /** What a connection just admitted has to find so that EnsureUser returns nil only over an account. */
  ghost predicate SafeToReturn(s: State, t: nat)
    requires t in s.threads
  {
    var u := s.threads[t].user;
    s.threads[t].pc.FirstWait? || (u in s.os.accounts && (s.cleanup ==> !HasPending(s, u)))
  }

  /** If this run ends with EnsureUser returning nil to t, the account is there. */
  ghost predicate ReturnsReady(s: State, t: nat, ls: seq<Label>)
    requires t in s.threads
  {
    var r := Exec(s, ls);
    r.Some? && LastMoved(ls, t) && t in r.value.threads && r.value.threads[t].pc.Active? ==>
      s.threads[t].user in r.value.os.accounts
  }

  ghost predicate ReturnsOverAccount(s: State, t: nat)
    requires t in s.threads
  {
    forall ls: seq<Label> :: ReturnsReady(s, t, ls)
  }

  predicate OnFirstPath(s: State, t: nat, u: string) {
    && t in s.threads && s.threads[t].user == u && !s.threads[t].pc.Start?
    && !s.threads[t].pc.LaterWait? && !s.threads[t].pc.LaterMod?
    && !s.threads[t].pc.LaterSudo? && !s.threads[t].pc.LaterUnlock?
  }

  lemma FirstPathStep(s: State, l: Label, t: nat, u: string)
    requires OnFirstPath(s, t, u) && Enabled(s, l)
    ensures OnFirstPath(Apply(s, l), t, u)
    ensures l.Go? && l.t == t && Apply(s, l).threads[t].pc.Active? ==>
              s.threads[t].pc.FirstUnlock? && Apply(s, l).os == s.os
  {
    if l.Accept? {
    } else if Books(s.threads[l.t].pc) {
      BooksPath(s, l.t, l.out);
    } else {
      WorkPath(s, l.t, l.out);
    }
  }

  lemma BooksPath(s: State, m: nat, o: Outcome)
    requires Enabled(s, Go(m, o)) && Books(s.threads[m].pc)
    ensures var s' := Advance(s, m, o);
            && m in s'.threads && s'.threads == s.threads[m := s.threads[m].(pc := s'.threads[m].pc)]
            && !s'.threads[m].pc.Start? && !s'.threads[m].pc.Active?
            && (s'.threads[m].pc.LaterWait? ==> s.threads[m].pc.Start?)
            && !s'.threads[m].pc.LaterMod? && !s'.threads[m].pc.LaterSudo? && !s'.threads[m].pc.LaterUnlock?
  {
    BooksAreBookish(s, m, o);
  }

  lemma WorkPath(s: State, m: nat, o: Outcome)
    requires Enabled(s, Go(m, o)) && !Books(s.threads[m].pc)
    ensures var s' := Work(s, m, o);
            var pc := s.threads[m].pc;
            && m in s'.threads && s'.threads == s.threads[m := s.threads[m].(pc := s'.threads[m].pc)]
            && !s'.threads[m].pc.Start? && !s'.threads[m].pc.LaterWait?
            && (s'.threads[m].pc.Active? ==> (pc.FirstUnlock? || pc.LaterUnlock?) && s'.os == s.os)
            && (s'.threads[m].pc.LaterMod? ==> pc.LaterWait?) && (s'.threads[m].pc.LaterSudo? ==> pc.LaterMod?)
            && (s'.threads[m].pc.LaterUnlock? ==> pc.LaterSudo?)
  {
  }

  lemma {:induction false} FirstReturnsReady(s: State, t: nat, ls: seq<Label>)
    requires Inv(s) && Made(s) && t in s.threads && OnFirstPath(s, t, s.threads[t].user)
    ensures var r := Exec(s, ls);
            r.Some? ==> Inv(r.value) && Made(r.value) && OnFirstPath(r.value, t, s.threads[t].user)
    ensures ReturnsReady(s, t, ls)
  {
    if ls == [] {
    } else if Exec(s, ls).Some? {
      var p := Exec(s, ls[..|ls| - 1]).value;
      var l := ls[|ls| - 1];
      FirstReturnsReady(s, t, ls[..|ls| - 1]);
      KeepsInv(p, l);
      KeepsMade(p, l);
      FirstPathStep(p, l, t, s.threads[t].user);
    }
  }

  /** The promise of the comment, exactly: a first session always returns nil over an account; a later one
      does in every continuation if and only if the account is already there when it is admitted and,
      with cleanup on, no release of the username has yet to run its teardown. */
  lemma ReturnGuarantee(cleanup: bool, start: Os, before: seq<Label>, s: State, t: nat)
    requires Exec(Init(cleanup, start), before) == Some(s)
    requires t in s.threads && (s.threads[t].pc.FirstWait? || s.threads[t].pc.LaterWait?)
    ensures ReturnsOverAccount(s, t) <==> SafeToReturn(s, t)
  {
    SafeRun(cleanup, start, before);
    FirstSessionIsMade(cleanup, start, before, s);
    if !SafeToReturn(s, t) {
      var ls, s' := ReturnsWithout(s, t);
      assert !ReturnsReady(s, t, ls);
    } else {
      forall ls: seq<Label> ensures ReturnsReady(s, t, ls) {
        if s.threads[t].pc.FirstWait? { FirstReturnsReady(s, t, ls); }
        else { SecuredForever(s, ls, t, s.threads[t].user); }
      }
    }
  }

  // ---- the whole session ----

  /** For a connection just admitted - its session counted, its user mutex not yet taken - the account
      is there whenever it is in the proxy loop, in every continuation, exactly when it enters safely. */
  lemma AccountGuarantee(cleanup: bool, start: Os, before: seq<Label>, s: State, t: nat)
    requires Exec(Init(cleanup, start), before) == Some(s)
    requires t in s.threads && (s.threads[t].pc.FirstWait? || s.threads[t].pc.LaterWait?)
    ensures AccountStays(s, t) <==> SafeToEnter(s, t)
  {
    var u := s.threads[t].user;
    SafeRun(cleanup, start, before);
    if SafeToEnter(s, t) {
      forall ls: seq<Label> ensures StaysAlong(s, t, ls) {
        SecuredForever(s, ls, t, u);
      }
    } else {
      var ls := WaysIn(s, t);
    }
  }
}
