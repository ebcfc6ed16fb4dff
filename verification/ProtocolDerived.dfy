/** Runs whose usernames are derived from the callers' identities, and what a restart finds in the state
    file such a run has left, whatever the interleaving before the crash. */
module ProtocolDerived {
  import opened Text
  import opened Options
  import opened HostOs
  import opened Protocol
  import opened ProtocolSafety
  import opened ProtocolRuns
  import opened Username

  /** proxyConn: every connection carries a caller identity and the username derived from it. */
  predicate Derived(lower: Lower, l: Label) {
    l.Accept? ==> l.identity != "" && l.user == Derive(lower, l.identity)
  }

  predicate AllDerived(lower: Lower, ls: seq<Label>) {
    forall l | l in ls :: Derived(lower, l)
  }

  ghost predicate PlainUsers(s: State) {
    forall t | t in s.threads :: PlainLine(s.threads[t].user)
  }

  ghost predicate DerivedUsers(lower: Lower, s: State) {
    forall t | t in s.threads :: s.threads[t].user == Derive(lower, s.threads[t].identity)
  }

  lemma {:induction false} UsersAreDerived(lower: Lower, start: State, ls: seq<Label>, s: State)
    requires start.threads == map[] && Exec(start, ls) == Some(s)
    requires AllDerived(lower, ls)
    ensures PlainUsers(s) && DerivedUsers(lower, s)
  {
    if ls == [] {
    } else {
      var front, l := ls[..|ls| - 1], ls[|ls| - 1];
      var p := Exec(start, front).value;
      UsersAreDerived(lower, start, front, p);
      assert Derived(lower, l);
      if l.Accept? { DerivedIsPlain(lower, l.identity); }
      else { UserStays(p, l.t, l.out); }
    }
  }

  lemma UserStays(s: State, t: nat, o: Outcome)
    requires Enabled(s, Go(t, o))
    ensures var s' := Advance(s, t, o);
            && s'.threads.Keys == s.threads.Keys
            && forall x | x in s.threads :: s'.threads[x].(pc := s.threads[x].pc) == s.threads[x]
  {
    if Books(s.threads[t].pc) { BooksAreBookish(s, t, o); }
  }

  /** The owner on record for a username is an identity it derives from. */
  lemma OwnersDerive(lower: Lower, cleanup: bool, start: Os, ls: seq<Label>, s: State)
    requires Exec(Init(cleanup, start), ls) == Some(s)
    requires AllDerived(lower, ls)
    ensures DerivedUsers(lower, s)
    ensures forall u | u in s.owners :: u == Derive(lower, s.owners[u])
  {
    SafeRun(cleanup, start, ls);
    UsersAreDerived(lower, Init(cleanup, start), ls, s);
    forall u | u in s.owners ensures u == Derive(lower, s.owners[u]) {
      assert Count(s.sessions, u) == |Counting(s, u)| > 0;
      var t :| t in Counting(s, u);
      assert OwnedBy(s, t);
    }
  }

  /** Usernames in session belong to connections. */
  lemma SessionsArePlain(s: State)
    requires Inv(s) && PlainUsers(s)
    ensures forall u | u in s.sessions :: PlainLine(u)
  {
    forall u | u in s.sessions ensures PlainLine(u) {
      assert Count(s.sessions, u) == |Counting(s, u)|;
      var t :| t in Counting(s, u);
    }
  }

  /** Whatever is snapshotted is fit to be written. */
  lemma SnapshotIsPlain(lower: Lower, cleanup: bool, start: Os, ls: seq<Label>, lines: seq<string>)
    requires AllDerived(lower, ls) && Snapshot(Init(cleanup, start), ls, lines)
    ensures forall u | u in lines :: PlainLine(u)
  {
    var init := Init(cleanup, start);
    var k :| 0 <= k <= |ls| && SnapshotAt(init, ls, lines, k);
    var p := Exec(init, ls[..k]).value;
    SafeRun(cleanup, start, ls[..k]);
    UsersAreDerived(lower, init, ls[..k], p);
    SessionsArePlain(p);
    forall u | u in lines ensures PlainLine(u) {
      assert u in multiset(lines);
    }
  }

  /** However the connections interleave and whatever fails, once the daemon has replaced the state file
      a restart scans from it exactly the usernames that were in session in one state of the run, each
      once. */
  lemma StateFileReadsBack(lower: Lower, cleanup: bool, start: Os, ls: seq<Label>, s: State) returns (k: nat)
    requires Exec(Init(cleanup, start), ls) == Some(s) && s.os.file != start.file && AllDerived(lower, ls)
    ensures k <= |ls| && s.os.file.Some?
    ensures SnapshotAt(Init(cleanup, start), ls, Lines(s.os.file.value), k)
  {
    var init := Init(cleanup, start);
    StateFileIsSnapshot(init, ls, s);
    var lines :| Snapshot(init, ls, lines) && s.os.file == Some(Unlines(lines));
    k :| 0 <= k <= |ls| && SnapshotAt(init, ls, lines, k);
    SnapshotIsPlain(lower, cleanup, start, ls, lines);
    LinesInvertUnlines(lines);
  }
}
