/** Runs that show how far the interleaved protocol goes: promises its comments make for each call that
    hold for serial callers (module SerialLaws) and fail when connections overlap. */
module ProtocolLimits {
  import opened Options
  import opened HostOs
  import opened Text
  import opened Protocol
  import opened ProtocolRuns
  import opened ProtocolSerial
  import opened ProtocolEvents

  lemma Arrives(s0: State, ls: seq<Label>, s: State, t: nat, identity: string, u: string, perms: Perms)
    returns (ls': seq<Label>, s': State)
    requires Exec(s0, ls) == Some(s) && t !in s.threads
    ensures Exec(s0, ls') == Some(s')
    ensures s' == s.(threads := s.threads[t := Thread(identity, u, perms, Start)])
  {
    var l := Accept(t, identity, u, perms);
    ls', s' := ls + [l], Apply(s, l);
    ExecStep(s0, ls, s, l);
  }

  lemma FirstAdmitted(start: Os, cleanup: bool, id: string, u: string, perms: Perms)
    returns (ls: seq<Label>, s: State)
    ensures Exec(Init(cleanup, start), ls) == Some(s)
    ensures s.threads == map[0 := Thread(id, u, perms, FirstWait)]
    ensures s.sessions == map[u := 1] && s.owners == map[u := id] && s.locks == map[u := None]
    ensures s.os == start && s.cleanup == cleanup
  {
    var s0 := Init(cleanup, start);
    ls, s := Arrives(s0, [], s0, 0, id, u, perms);
    ls, s := Admits(s0, ls, s, 0);
    assert s.locks == map[u := None];
  }

  lemma SecondArrived(start: Os, cleanup: bool, id: string, u: string, perms: Perms, perms': Perms)
    returns (ls: seq<Label>, s: State)
    ensures Exec(Init(cleanup, start), ls) == Some(s)
    ensures s.threads == map[0 := Thread(id, u, perms, FirstWait), 1 := Thread(id, u, perms', Start)]
    ensures s.sessions == map[u := 1] && s.owners == map[u := id] && s.locks == map[u := None]
    ensures s.os == start && s.cleanup == cleanup
  {
    ls, s := FirstAdmitted(start, cleanup, id, u, perms);
    ls, s := Arrives(Init(cleanup, start), ls, s, 1, id, u, perms');
  }

  lemma BothAdmitted(start: Os, cleanup: bool, id: string, u: string, perms: Perms, perms': Perms)
    returns (ls: seq<Label>, s: State)
    ensures Exec(Init(cleanup, start), ls) == Some(s)
    ensures s.threads == map[0 := Thread(id, u, perms, FirstWait), 1 := Thread(id, u, perms', LaterWait)]
    ensures s.sessions == map[u := 2] && s.owners == map[u := id] && s.locks == map[u := None]
    ensures s.os == start && s.cleanup == cleanup
  {
    ls, s := SecondArrived(start, cleanup, id, u, perms, perms');
    ls, s := Admits(Init(cleanup, start), ls, s, 1);
    assert s.locks == map[u := None];
  }

  /** Two connections of one identity admitted, the later one served first: EnsureUser has returned nil
      to it and no command failed on an account that exists, yet the account does not exist. */
  lemma OvertakingCaller(start: Os, cleanup: bool, id: string, u: string, perms: Perms)
    returns (ls: seq<Label>, s: State)
    requires u !in start.accounts
    ensures Exec(Init(cleanup, start), ls) == Some(s)
    ensures s.threads == map[0 := Thread(id, u, perms, FirstWait), 1 := Thread(id, u, perms, Active)]
    ensures s.sessions == map[u := 2] && s.owners == map[u := id] && s.locks == map[u := None]
    ensures u !in s.os.accounts && s.cleanup == cleanup
    ensures perms.rule != "" && ValidRule(perms.rule) ==> u in s.os.sudoers
  {
    ls, s := BothAdmitted(start, cleanup, id, u, perms, perms);
    ls, s := LaterOnward(Init(cleanup, start), ls, s, 1, AllWell());
    assert s.locks == map[u := None];
  }

  /** The later caller leaves, then the first one's useradd fails and its rollback takes the last
      session: everybody is finished, nothing is in session, and the sudoers file stays behind. */
  lemma StrandedSudoers(start: Os, cleanup: bool, id: string, u: string, perms: Perms)
    returns (ls: seq<Label>, s: State)
    requires u !in start.accounts && perms.rule != "" && ValidRule(perms.rule)
    ensures Exec(Init(cleanup, start), ls) == Some(s) && AllFinished(s)
    ensures s.sessions == map[] && u in s.os.sudoers
  {
    var s0 := Init(cleanup, start);
    ls, s := OvertakingCaller(start, cleanup, id, u, perms);
    ls, s := Releases(s0, ls, s, 1);
    assert s.sessions == map[u := 1];
    ls, s := FirstFails(s0, ls, s, 0);
  }

  lemma Served(start: Os, id: string, u: string, perms: Perms) returns (ls: seq<Label>, s: State)
    ensures Exec(Init(true, start), ls) == Some(s)
    ensures s.threads == map[0 := Thread(id, u, perms, Active)]
    ensures s.sessions == map[u := 1] && s.owners == map[u := id] && s.locks == map[u := None] && s.cleanup
    ensures u in s.os.accounts
  {
    ls, s := FirstAdmitted(start, true, id, u, perms);
    ls, s := FirstOnward(Init(true, start), ls, s, 0, AllWell(), [u]);
    assert s.locks == map[u := None];
  }

  /** A connection and its last release up to the wait for the mutex. */
  lemma OneGone(start: Os, id: string, u: string, perms: Perms) returns (ls: seq<Label>, s: State)
    ensures Exec(Init(true, start), ls) == Some(s)
    ensures s.threads == map[0 := Thread(id, u, perms, LastWait)]
    ensures s.sessions == map[] && s.owners == map[] && s.locks == map[u := None] && s.cleanup
    ensures u in s.os.accounts
  {
    ls, s := Served(start, id, u, perms);
    ls, s := Releases(Init(true, start), ls, s, 0);
    assert s.sessions == map[] && s.owners == map[];
  }

  /** The last release of one session waits for the mutex while a new first session takes it, finds the
      account and returns nil; then the release deletes the account the new session is using. */
  lemma LateTeardown(start: Os, id: string, u: string, perms: Perms) returns (ls: seq<Label>, s: State)
    ensures Exec(Init(true, start), ls) == Some(s)
    ensures 1 in s.threads && s.threads[1] == Thread(id, u, perms, Active)
    ensures u in s.sessions && u !in s.os.accounts
  {
    var s0 := Init(true, start);
    ls, s := OneGone(start, id, u, perms);
    ls, s := Arrives(s0, ls, s, 1, id, u, perms);
    ls, s := EnsureIsARun(s0, ls, s, 1, AllWell(), [u]);
    assert s.locks == map[u := None];
    ls, s := TearsDown(s0, ls, s, 0, AllWell());
  }

  lemma SecondArrives(start: Os, a: string, b: string, perms: Perms) returns (ls: seq<Label>, s: State)
    requires a != b
    ensures Exec(Init(true, start), ls) == Some(s)
    ensures s.threads == map[0 := Thread(a, a, perms, Active), 1 := Thread(b, b, perms, Start)]
    ensures s.sessions == map[a := 1] && s.owners == map[a := a] && s.locks == map[a := None] && s.cleanup
    ensures a in s.os.accounts
  {
    ls, s := Served(start, a, a, perms);
    ls, s := Arrives(Init(true, start), ls, s, 1, b, b, perms);
  }

  lemma SecondAdmitted(start: Os, a: string, b: string, perms: Perms) returns (ls: seq<Label>, s: State)
    requires a != b
    ensures Exec(Init(true, start), ls) == Some(s)
    ensures s.threads == map[0 := Thread(a, a, perms, Active), 1 := Thread(b, b, perms, FirstWait)]
    ensures s.sessions == map[a := 1, b := 1] && s.locks == map[a := None, b := None] && s.cleanup
    ensures a in s.os.accounts
  {
    ls, s := SecondArrives(start, a, b, perms);
    ls, s := Admits(Init(true, start), ls, s, 1);
  }

  /** Two usernames in session, both served in full. */
  lemma TwoServed(start: Os, a: string, b: string, perms: Perms) returns (ls: seq<Label>, s: State)
    requires a != b
    ensures Exec(Init(true, start), ls) == Some(s)
    ensures s.threads == map[0 := Thread(a, a, perms, Active), 1 := Thread(b, b, perms, Active)]
    ensures s.sessions == map[a := 1, b := 1] && s.locks == map[a := None, b := None] && s.cleanup
    ensures a in s.os.accounts && b in s.os.accounts
  {
    ls, s := SecondAdmitted(start, a, b, perms);
    ls, s := FirstOnward(Init(true, start), ls, s, 1, AllWell(), [a, b]);
  }

  lemma FirstReleased(start: Os, a: string, b: string, perms: Perms) returns (ls: seq<Label>, s: State)
    requires a != b
    ensures Exec(Init(true, start), ls) == Some(s)
    ensures s.threads == map[0 := Thread(a, a, perms, LastWait), 1 := Thread(b, b, perms, Active)]
    ensures s.sessions == map[b := 1] && s.locks == map[a := None, b := None] && s.cleanup
    ensures a in s.os.accounts && b in s.os.accounts
  {
    ls, s := TwoServed(start, a, b, perms);
    ls, s := Releases(Init(true, start), ls, s, 0);
    assert s.sessions == map[b := 1];
  }

  lemma FirstTornDown(start: Os, a: string, b: string, perms: Perms) returns (ls: seq<Label>, s: State)
    requires a != b
    ensures Exec(Init(true, start), ls) == Some(s)
    ensures s.threads == map[0 := Thread(a, a, perms, LastSnap), 1 := Thread(b, b, perms, Active)]
    ensures s.sessions == map[b := 1] && s.locks == map[a := Some(0), b := None] && s.cleanup
    ensures b in s.os.accounts
  {
    ls, s := FirstReleased(start, a, b, perms);
    ls, s := TearsDown(Init(true, start), ls, s, 0, AllWell());
  }

  lemma SnapshotAlone(start: Os, a: string, b: string, perms: Perms) returns (ls: seq<Label>, s: State)
    requires a != b
    ensures Exec(Init(true, start), ls) == Some(s)
    ensures s.threads == map[0 := Thread(a, a, perms, LastWrite([b])), 1 := Thread(b, b, perms, Active)]
    ensures s.sessions == map[b := 1] && s.locks == map[a := Some(0), b := None] && s.cleanup
    ensures b in s.os.accounts
  {
    ls, s := FirstTornDown(start, a, b, perms);
    ls, s := Take(Init(true, start), ls, s, 0, Outcome(true, true, [b]));
  }

  /** The first of the two releases has taken its snapshot and not yet written it ... */
  lemma SnapshotTaken(start: Os, a: string, b: string, perms: Perms) returns (ls: seq<Label>, s: State)
    requires a != b
    ensures Exec(Init(true, start), ls) == Some(s)
    ensures s.threads == map[0 := Thread(a, a, perms, LastWrite([b])), 1 := Thread(b, b, perms, LastWait)]
    ensures s.sessions == map[] && s.locks == map[a := Some(0), b := None] && s.cleanup
    ensures b in s.os.accounts
  {
    ls, s := SnapshotAlone(start, a, b, perms);
    ls, s := Releases(Init(true, start), ls, s, 1);
    assert s.sessions == map[];
  }

  /** ... while the other runs to its end. */
  lemma SnapshotPending(start: Os, a: string, b: string, perms: Perms) returns (ls: seq<Label>, s: State)
    requires a != b
    ensures Exec(Init(true, start), ls) == Some(s)
    ensures s.threads == map[0 := Thread(a, a, perms, LastWrite([b])), 1 := Thread(b, b, perms, Done)]
    ensures s.sessions == map[] && a in s.locks
    ensures b !in s.os.accounts
  {
    ls, s := SnapshotTaken(start, a, b, perms);
    ls, s := LastOnward(Init(true, start), ls, s, 1, AllWell(), []);
  }

  /** A snapshot taken before the other release is written after the other's: everything succeeded, all
      connections are finished and all accounts are gone, but the state file lists a username. */
  lemma StaleFileAtRest(start: Os, a: string, b: string, perms: Perms) returns (ls: seq<Label>, s: State)
    requires a != b
    ensures Exec(Init(true, start), ls) == Some(s) && AllFinished(s)
    ensures s.sessions == map[] && b !in s.os.accounts && s.os.file == Some(Unlines([b]))
  {
    var s0 := Init(true, start);
    ls, s := SnapshotPending(start, a, b, perms);
    ls, s := Take(s0, ls, s, 0, Respond(true, true));
    ls, s := Take(s0, ls, s, 0, Respond(true, true));
  }

  /** The second release finds the account gone, is refused and does not write: no two writes overlap and
      every command that can succeed does, but at rest the file lists a username without account. */
  lemma StaleAfterRefusal(start: Os, id: string, u: string, perms: Perms) returns (ls: seq<Label>, s: State)
    ensures Exec(Init(true, start), ls) == Some(s) && AllFinished(s)
    ensures s.sessions == map[] && u !in s.os.accounts && s.os.file == Some(Unlines([u]))
  {
    var s0 := Init(true, start);
    ls, s := SecondServed(start, id, u, perms);
    ls, s := Releases(s0, ls, s, 1);
    assert s.sessions == map[];
    ls, s := TearsDown(s0, ls, s, 1, AllWell());
    ls, s := Take(s0, ls, s, 1, Respond(true, true));
  }

  /** A release waits, a new session opens, the release tears down the account and writes the file. */
  lemma SecondServed(start: Os, id: string, u: string, perms: Perms) returns (ls: seq<Label>, s: State)
    ensures Exec(Init(true, start), ls) == Some(s)
    ensures s.threads == map[0 := Thread(id, u, perms, Done), 1 := Thread(id, u, perms, Active)]
    ensures s.sessions == map[u := 1] && s.locks == map[u := None] && s.cleanup
    ensures u !in s.os.accounts && s.os.file == Some(Unlines([u]))
  {
    var s0 := Init(true, start);
    ls, s := SecondReady(start, id, u, perms);
    ls, s := TearsDown(s0, ls, s, 0, AllWell());
    ls, s := LastWrites(s0, ls, s, 0, true, [u]);
    assert s.locks == map[u := None];
  }

  lemma SecondReady(start: Os, id: string, u: string, perms: Perms) returns (ls: seq<Label>, s: State)
    ensures Exec(Init(true, start), ls) == Some(s)
    ensures s.threads == map[0 := Thread(id, u, perms, LastWait), 1 := Thread(id, u, perms, Active)]
    ensures s.sessions == map[u := 1] && s.locks == map[u := None] && s.cleanup
    ensures u in s.os.accounts
  {
    var s0 := Init(true, start);
    ls, s := OneGone(start, id, u, perms);
    ls, s := Arrives(s0, ls, s, 1, id, u, perms);
    ls, s := EnsureIsARun(s0, ls, s, 1, AllWell(), [u]);
    assert s.locks == map[u := None];
  }

  /** A first session waits for useradd while another username's whole session comes and goes, listing it;
      then its useradd fails: at rest the file lists a username that never had an account. */
  lemma StaleAfterRollback(start: Os, a: string, b: string, perms: Perms) returns (ls: seq<Label>, s: State)
    requires a != b && a !in start.accounts
    ensures Exec(Init(true, start), ls) == Some(s) && AllFinished(s)
    ensures s.sessions == map[] && a !in s.os.accounts && s.os.file == Some(Unlines([a]))
  {
    var s0 := Init(true, start);
    ls, s := OtherCameAndWent(start, a, b, perms);
    assert s.sessions[a] == 1;
    ls, s := FirstFails(s0, ls, s, 0);
  }

  lemma OtherArrived(start: Os, a: string, b: string, perms: Perms) returns (ls: seq<Label>, s: State)
    requires a != b
    ensures Exec(Init(true, start), ls) == Some(s)
    ensures s.threads == map[0 := Thread(a, a, perms, FirstWait), 1 := Thread(b, b, perms, Start)]
    ensures s.sessions == map[a := 1] && s.owners == map[a := a] && s.locks == map[a := None] && s.cleanup
    ensures s.os == start
  {
    ls, s := FirstAdmitted(start, true, a, a, perms);
    ls, s := Arrives(Init(true, start), ls, s, 1, b, b, perms);
  }

  lemma OtherAdmitted(start: Os, a: string, b: string, perms: Perms) returns (ls: seq<Label>, s: State)
    requires a != b
    ensures Exec(Init(true, start), ls) == Some(s)
    ensures s.threads == map[0 := Thread(a, a, perms, FirstWait), 1 := Thread(b, b, perms, FirstWait)]
    ensures s.sessions == map[a := 1, b := 1] && s.locks == map[a := None, b := None] && s.cleanup
    ensures s.os == start
  {
    ls, s := OtherArrived(start, a, b, perms);
    ls, s := Admits(Init(true, start), ls, s, 1);
  }

  lemma OtherCame(start: Os, a: string, b: string, perms: Perms) returns (ls: seq<Label>, s: State)
    requires a != b && a !in start.accounts
    ensures Exec(Init(true, start), ls) == Some(s)
    ensures s.threads == map[0 := Thread(a, a, perms, FirstWait), 1 := Thread(b, b, perms, Active)]
    ensures s.sessions == map[a := 1, b := 1] && s.locks == map[a := None, b := None] && s.cleanup
    ensures a !in s.os.accounts && b in s.os.accounts
  {
    ls, s := OtherAdmitted(start, a, b, perms);
    ls, s := FirstOnward(Init(true, start), ls, s, 1, AllWell(), [a, b]);
  }

  lemma OtherLeaving(start: Os, a: string, b: string, perms: Perms) returns (ls: seq<Label>, s: State)
    requires a != b && a !in start.accounts
    ensures Exec(Init(true, start), ls) == Some(s)
    ensures s.threads == map[0 := Thread(a, a, perms, FirstWait), 1 := Thread(b, b, perms, LastWait)]
    ensures s.sessions == map[a := 1] && s.locks == map[a := None, b := None] && s.cleanup
    ensures a !in s.os.accounts && b in s.os.accounts
  {
    ls, s := OtherCame(start, a, b, perms);
    ls, s := Releases(Init(true, start), ls, s, 1);
    assert s.sessions == map[a := 1];
  }

  lemma OtherCameAndWent(start: Os, a: string, b: string, perms: Perms) returns (ls: seq<Label>, s: State)
    requires a != b && a !in start.accounts
    ensures Exec(Init(true, start), ls) == Some(s)
    ensures s.threads == map[0 := Thread(a, a, perms, FirstWait), 1 := Thread(b, b, perms, Done)]
    ensures s.sessions == map[a := 1] && s.locks == map[a := None, b := None]
    ensures a !in s.os.accounts && s.os.file == Some(Unlines([a]))
  {
    ls, s := OtherLeaving(start, a, b, perms);
    ls, s := LastOnward(Init(true, start), ls, s, 1, AllWell(), [a]);
    assert s.locks == map[a := None, b := None];
  }

  // ---- a crash that forgets an account ----

  lemma FirstPermitted(start: Os, a: string, perms: Perms) returns (ls: seq<Label>, s: State)
    ensures Exec(Init(true, start), ls) == Some(s)
    ensures s.threads == map[0 := Thread(a, a, perms, FirstSnap)]
    ensures s.sessions == map[a := 1] && s.owners == map[a := a] && s.locks == map[a := Some(0)] && s.cleanup
    ensures a in s.os.accounts
  {
    var s0 := Init(true, start);
    ls, s := FirstAdmitted(start, true, a, a, perms);
    ls, s := FirstAdds(s0, ls, s, 0, true);
    ls, s := FirstPermits(s0, ls, s, 0, AllWell());
    assert s.locks == map[a := Some(0)];
  }

  lemma FirstSnapshotTaken(start: Os, a: string, b: string, perms: Perms) returns (ls: seq<Label>, s: State)
    requires a != b
    ensures Exec(Init(true, start), ls) == Some(s)
    ensures s.threads == map[0 := Thread(a, a, perms, FirstWrite([a])), 1 := Thread(b, b, perms, Start)]
    ensures s.sessions == map[a := 1] && s.owners == map[a := a] && s.locks == map[a := Some(0)] && s.cleanup
    ensures a in s.os.accounts
  {
    var s0 := Init(true, start);
    ls, s := FirstPermitted(start, a, perms);
    ls, s := Take(s0, ls, s, 0, Outcome(true, true, [a]));
    ls, s := Arrives(s0, ls, s, 1, b, b, perms);
  }

  lemma OtherServed(start: Os, a: string, b: string, perms: Perms) returns (ls: seq<Label>, s: State)
    requires a != b
    ensures Exec(Init(true, start), ls) == Some(s)
    ensures s.threads == map[0 := Thread(a, a, perms, FirstWrite([a])), 1 := Thread(b, b, perms, Active)]
    ensures s.sessions == map[a := 1, b := 1] && a in s.locks
    ensures a in s.os.accounts && b in s.os.accounts
  {
    ls, s := FirstSnapshotTaken(start, a, b, perms);
    ls, s := EnsureIsARun(Init(true, start), ls, s, 1, AllWell(), [a, b]);
  }

  /** A first session snapshots, another username's connects and is served in full, then the first one
      writes: both are in session and every command has worked, but the file lists only the first. A crash
      now leaves the other's account for good. */
  lemma ForgottenByCrash(start: Os, a: string, b: string, perms: Perms) returns (ls: seq<Label>, s: State)
    requires a != b
    ensures Exec(Init(true, start), ls) == Some(s)
    ensures s.threads == map[0 := Thread(a, a, perms, Active), 1 := Thread(b, b, perms, Active)]
    ensures s.sessions == map[a := 1, b := 1]
    ensures a in s.os.accounts && b in s.os.accounts && s.os.file == Some(Unlines([a]))
  {
    var s0 := Init(true, start);
    ls, s := OtherServed(start, a, b, perms);
    ls, s := Take(s0, ls, s, 0, Respond(true, true));
    ls, s := Take(s0, ls, s, 0, Respond(true, true));
  }

  /** The steps of a connection before its first write leave nobody missing. */
  lemma NotMissingYet(s0: State, ls: seq<Label>, s: State, l: Label, u: string)
    requires Exec(s0, ls) == Some(s) && Enabled(s, l) && !InForce(s0, ls, false, GoesMissing(u), MissingEnds(u))
    requires l.Go? ==> s.threads[l.t].pc in {Start, FirstWait, UserAdding}
    ensures Exec(s0, ls + [l]) == Some(Apply(s, l))
    ensures !InForce(s0, ls + [l], false, GoesMissing(u), MissingEnds(u))
  {
    ExecStep(s0, ls, s, l);
    InForceStep(s0, ls + [l], false, GoesMissing(u), MissingEnds(u));
    assert (ls + [l])[..|ls|] == ls;
  }

  lemma UnwrittenWaiting(start: Os, id: string, u: string, perms: Perms) returns (ls: seq<Label>, s: State)
    ensures Exec(Init(true, start), ls) == Some(s)
    ensures s.threads == map[0 := Thread(id, u, perms, FirstWait)] && s.sessions == map[u := 1]
    ensures u in s.locks && s.locks[u] == None && s.os == start
    ensures !InForce(Init(true, start), ls, false, GoesMissing(u), MissingEnds(u))
  {
    var s0 := Init(true, start);
    var arrive, go := Accept(0, id, u, perms), Go(0, Respond(true, true));
    NotMissingYet(s0, [], s0, arrive, u);
    ls, s := [] + [arrive], Apply(s0, arrive);
    NotMissingYet(s0, ls, s, go, u);
    ls, s := ls + [go], Admit(s, 0);
  }

  /** A first session whose useradd has succeeded and that has not written the file yet. */
  lemma MadeButUnwritten(start: Os, id: string, u: string, perms: Perms) returns (ls: seq<Label>, s: State)
    ensures Exec(Init(true, start), ls) == Some(s)
    ensures s.threads == map[0 := Thread(id, u, perms, FirstMod)] && s.sessions == map[u := 1]
    ensures u in s.os.accounts && s.os.file == start.file
    ensures !InForce(Init(true, start), ls, false, GoesMissing(u), MissingEnds(u))
  {
    var s0 := Init(true, start);
    var go := Go(0, Respond(true, true));
    ls, s := UnwrittenWaiting(start, id, u, perms);
    NotMissingYet(s0, ls, s, go, u);
    ls, s := ls + [go], Work(s, 0, go.out);
    NotMissingYet(s0, ls, s, go, u);
    ls, s := ls + [go], Work(s, 0, go.out);
  }

  // ---- permissions ----

  /** Two connections of one identity whose permissions differ - the config was reloaded between them - the
      later one served first. Every command on an existing account works, and the account ends up with the
      groups of the one and the sudoers rule of the other. */
  lemma MixedPermissions(start: Os, cleanup: bool, id: string, u: string, p0: Perms, p1: Perms)
    returns (ls: seq<Label>, s: State)
    requires u !in start.accounts && p0.rule == "" && p1.rule != "" && ValidRule(p1.rule)
    ensures Exec(Init(cleanup, start), ls) == Some(s)
    ensures s.threads == map[0 := Thread(id, u, p0, Active), 1 := Thread(id, u, p1, Active)]
    ensures u in s.os.accounts && u in s.os.groups && s.os.groups[u] == p0.groups
    ensures u in s.os.sudoers && s.os.sudoers[u] == p1.rule
  {
    ls, s := RuleBeforeAccount(start, cleanup, id, u, p0, p1);
    ls, s := FirstOnward(Init(cleanup, start), ls, s, 0, AllWell(), [u]);
  }

  /** The later connection has come through: its rule is installed, the account is not there yet. */
  lemma RuleBeforeAccount(start: Os, cleanup: bool, id: string, u: string, p0: Perms, p1: Perms)
    returns (ls: seq<Label>, s: State)
    requires u !in start.accounts && p1.rule != "" && ValidRule(p1.rule)
    ensures Exec(Init(cleanup, start), ls) == Some(s)
    ensures s.threads == map[0 := Thread(id, u, p0, FirstWait), 1 := Thread(id, u, p1, Active)]
    ensures s.sessions == map[u := 2] && u in s.locks && s.locks[u] == None
    ensures u !in s.os.accounts && u in s.os.sudoers && s.os.sudoers[u] == p1.rule
  {
    ls, s := BothAdmitted(start, cleanup, id, u, p0, p1);
    ls, s := LaterOnward(Init(cleanup, start), ls, s, 1, AllWell());
  }
}
