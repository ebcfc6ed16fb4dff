/** When the state file lists the usernames in session, and what is listed or missing otherwise. */
module ProtocolFile {
  import opened Options
  import opened Text
  import opened HostOs
  import opened Protocol
  import opened ProtocolSafety
  import opened ProtocolRuns
  import opened ProtocolDerived
  import opened ProtocolEvents
  import opened Username

  // ---- who still has a write ahead ----

  /** A first session that has yet to write the file, or to be rolled back. */
  predicate Opening(pc: Pc) {
    BeforeAccount(pc) || pc.FirstMod? || pc.FirstSudo? || pc.FirstSnap? || pc.FirstWrite?
  }

  /** A last release that has yet to write the file, or to be refused. */
  predicate Closing(pc: Pc) {
    Pending(pc) || pc.LastSnap? || pc.LastWrite?
  }

  ghost predicate HasOpening(s: State, u: string) {
    exists t :: t in s.threads && s.threads[t].user == u && Opening(s.threads[t].pc)
  }

  ghost predicate HasClosing(s: State, u: string) {
    exists t :: t in s.threads && s.threads[t].user == u && Closing(s.threads[t].pc)
  }

  /** A username in session or not, listed or not, with or without a connection on the way to a write:
      without one, it is listed out of session exactly when it is stale, and in session without entry
      exactly when it is missing. */
  predicate InStep(live: bool, listed: bool, opening: bool, closing: bool, stale: bool, missing: bool) {
    && (stale ==> listed && !live)
    && (missing ==> live && !listed)
    && (listed && !live && !stale ==> closing)
    && (live && !listed && !missing ==> opening)
  }

  ghost predicate Tracks(s: State, u: string, stale: bool, missing: bool) {
    InStep(u in s.sessions, u in Listed(s.os), HasOpening(s, u), HasClosing(s, u), stale, missing)
  }

  /** The lines about to be written are usernames that survive it. */
  ghost predicate PlainWrites(s: State) {
    forall t, lines | t in s.threads && Writes(s.threads[t].pc, lines) :: forall u | u in lines :: PlainLine(u)
  }

  // ---- one step ----

  /** What a step means to u. */
  predicate StaleAfter(s: State, l: Label, u: string, stale: bool) {
    Happens(GoesStale(u), s, l) || (stale && !Happens(StaleEnds(u), s, l))
  }

  predicate MissingAfter(s: State, l: Label, u: string, missing: bool) {
    Happens(GoesMissing(u), s, l) || (missing && !Happens(MissingEnds(u), s, l))
  }

  lemma OpeningStays(s: State, s': State, t: nat, u: string)
    requires t in s'.threads && s'.threads == s.threads[t := s'.threads[t]]
    requires t in s.threads ==> s'.threads[t].user == s.threads[t].user
    requires t in s.threads && s.threads[t].user == u && Opening(s.threads[t].pc) ==> Opening(s'.threads[t].pc)
    ensures HasOpening(s, u) ==> HasOpening(s', u)
  {
    if x :| x in s.threads && s.threads[x].user == u && Opening(s.threads[x].pc) {
      assert x in s'.threads && Opening(s'.threads[x].pc);
    }
  }

  lemma ClosingStays(s: State, s': State, t: nat, u: string)
    requires t in s'.threads && s'.threads == s.threads[t := s'.threads[t]]
    requires t in s.threads ==> s'.threads[t].user == s.threads[t].user
    requires t in s.threads && s.threads[t].user == u && Closing(s.threads[t].pc) ==> Closing(s'.threads[t].pc)
    ensures HasClosing(s, u) ==> HasClosing(s', u)
  {
    if x :| x in s.threads && s.threads[x].user == u && Closing(s.threads[x].pc) {
      assert x in s'.threads && Closing(s'.threads[x].pc);
    }
  }

  lemma InstalledLines(s: State, l: Label, lines: seq<string>)
    requires Enabled(s, l) && PlainWrites(s) && Installs(s, l) == Some(lines)
    ensures Apply(s, l).sessions == s.sessions && forall u :: u in Listed(Apply(s, l).os) <==> u in lines
  {
    assert Writes(s.threads[l.t].pc, lines);
    LinesInvertUnlines(lines);
  }

  lemma SameFileSameEntries(os: Os, os': Os)
    requires os'.file == os.file
    ensures Listed(os') == Listed(os)
  {
  }

  lemma InstallEvents(s: State, l: Label, u: string, lines: seq<string>)
    requires Installs(s, l) == Some(lines)
    ensures Happens(GoesStale(u), s, l) <==> u in lines && u !in s.sessions
    ensures Happens(GoesMissing(u), s, l) <==> u !in lines && u in s.sessions
  {
  }

  lemma InstallTracks(s: State, l: Label, u: string, stale: bool, missing: bool, lines: seq<string>)
    requires Enabled(s, l) && PlainWrites(s) && Tracks(s, u, stale, missing) && Installs(s, l) == Some(lines)
    ensures Tracks(Apply(s, l), u, StaleAfter(s, l, u, stale), MissingAfter(s, l, u, missing))
  {
    InstalledLines(s, l, lines);
    InstallEvents(s, l, u, lines);
    InstallEnds(s, l, u, lines);
  }

  lemma InstallEnds(s: State, l: Label, u: string, lines: seq<string>)
    requires Enabled(s, l) && Installs(s, l) == Some(lines)
    ensures Happens(StaleEnds(u), s, l) <==> u !in lines
    ensures Happens(MissingEnds(u), s, l) <==> u in lines
  {
  }

  lemma NoEvents(s: State, l: Label, u: string)
    requires !Moves(s, l, u) && Installs(s, l) == None
    ensures !Happens(GoesStale(u), s, l) && !Happens(StaleEnds(u), s, l)
    ensures !Happens(GoesMissing(u), s, l) && !Happens(MissingEnds(u), s, l)
  {
  }

  lemma AcceptTracks(s: State, l: Label, u: string, stale: bool, missing: bool)
    requires Enabled(s, l) && Tracks(s, u, stale, missing) && l.Accept?
    ensures Tracks(Apply(s, l), u, StaleAfter(s, l, u, stale), MissingAfter(s, l, u, missing))
  {
    NoEvents(s, l, u);
    OpeningStays(s, Apply(s, l), l.conn, u);
    ClosingStays(s, Apply(s, l), l.conn, u);
    SameFileSameEntries(s.os, Apply(s, l).os);
  }

  /** A step of another username's connection that installs nothing. */
  lemma OtherTracks(s: State, s': State, l: Label, u: string, stale: bool, missing: bool)
    requires Tracks(s, u, stale, missing) && l.Go? && !Moves(s, l, u) && Installs(s, l) == None
    requires l.t in s.threads && l.t in s'.threads && s'.threads == s.threads[l.t := s'.threads[l.t]]
    requires s'.threads[l.t].user == s.threads[l.t].user && s'.os.file == s.os.file
    requires u in s'.sessions <==> u in s.sessions
    ensures Tracks(s', u, StaleAfter(s, l, u, stale), MissingAfter(s, l, u, missing))
  {
    NoEvents(s, l, u);
    OpeningStays(s, s', l.t, u);
    ClosingStays(s, s', l.t, u);
    SameFileSameEntries(s.os, s'.os);
  }

  lemma AdmitMoves(s: State, t: nat)
    requires Inv(s) && t in s.threads && s.threads[t].pc.Start?
    ensures var s', u := Admit(s, t), s.threads[t].user;
            && s'.threads == s.threads[t := s.threads[t].(pc := s'.threads[t].pc)] && s'.os == s.os
            && (u in s.sessions ==> s'.sessions.Keys == s.sessions.Keys)
            && (u !in s.sessions ==> s'.sessions.Keys == s.sessions.Keys + {u} && s'.threads[t].pc.FirstWait?)
  {
  }

  lemma AdmitEvents(s: State, l: Label, u: string)
    requires Inv(s) && Enabled(s, l) && Moves(s, l, u) && s.threads[l.t].pc.Start?
    ensures Installs(s, l) == None
    ensures !Happens(GoesStale(u), s, l) && (Happens(StaleEnds(u), s, l) <==> u !in s.sessions)
    ensures !Happens(GoesMissing(u), s, l) && !Happens(MissingEnds(u), s, l)
  {
    OpensIff(s, l, u);
  }

  lemma OpensIff(s: State, l: Label, u: string)
    requires Inv(s) && Moves(s, l, u) && s.threads[l.t].pc.Start?
    ensures Opens(s, l, u) <==> u !in s.sessions
  {
    assert u in s.sessions ==> s.sessions[u] > 0;
  }

  lemma AdmitTracks(s: State, l: Label, u: string, stale: bool, missing: bool)
    requires Inv(s) && Enabled(s, l) && Tracks(s, u, stale, missing) && l.Go? && s.threads[l.t].pc.Start?
    ensures Tracks(Admit(s, l.t), u, StaleAfter(s, l, u, stale), MissingAfter(s, l, u, missing))
  {
    AdmitMoves(s, l.t);
    if Moves(s, l, u) { OwnAdmitTracks(s, Admit(s, l.t), l, u, stale, missing); }
    else { OtherTracks(s, Admit(s, l.t), l, u, stale, missing); }
  }

  lemma OwnAdmitTracks(s: State, s': State, l: Label, u: string, stale: bool, missing: bool)
    requires Inv(s) && Enabled(s, l) && Tracks(s, u, stale, missing) && Moves(s, l, u) && s.threads[l.t].pc.Start?
    requires l.t in s'.threads && s'.threads == s.threads[l.t := s.threads[l.t].(pc := s'.threads[l.t].pc)]
    requires s'.os == s.os && u in s'.sessions && (u !in s.sessions ==> s'.threads[l.t].pc.FirstWait?)
    ensures Tracks(s', u, StaleAfter(s, l, u, stale), MissingAfter(s, l, u, missing))
  {
    AdmitEvents(s, l, u);
    OpeningStays(s, s', l.t, u);
    ClosingStays(s, s', l.t, u);
    SameFileSameEntries(s.os, s'.os);
    if u !in s.sessions { assert Opening(s'.threads[l.t].pc); }
  }

  lemma RollbackMoves(s: State, t: nat)
    requires Inv(s) && t in s.threads && s.threads[t].pc.RollingBack?
    ensures var s', u := Rollback(s, t), s.threads[t].user;
            && u in s.sessions && s'.os == s.os
            && s'.threads == s.threads[t := s.threads[t].(pc := FailUnlock)]
            && s'.sessions.Keys == if Count(s.sessions, u) == 1 then s.sessions.Keys - {u} else s.sessions.Keys
  {
    CountedIsPositive(s, t);
  }

  lemma RollbackEvents(s: State, l: Label, u: string)
    requires Enabled(s, l) && Moves(s, l, u) && s.threads[l.t].pc.RollingBack?
    ensures Installs(s, l) == None && !Happens(StaleEnds(u), s, l)
    ensures Happens(GoesStale(u), s, l) <==> u in Listed(s.os) && Count(s.sessions, u) == 1
    ensures Happens(GoesMissing(u), s, l) <==> u !in Listed(s.os) && Count(s.sessions, u) != 1
    ensures Happens(MissingEnds(u), s, l) <==> Count(s.sessions, u) == 1
  {
  }

  lemma RollbackTracks(s: State, l: Label, u: string, stale: bool, missing: bool)
    requires Inv(s) && Enabled(s, l) && Tracks(s, u, stale, missing) && l.Go? && s.threads[l.t].pc.RollingBack?
    ensures Tracks(Rollback(s, l.t), u, StaleAfter(s, l, u, stale), MissingAfter(s, l, u, missing))
  {
    var s' := Rollback(s, l.t);
    RollbackMoves(s, l.t);
    if Moves(s, l, u) {
      RollbackEvents(s, l, u);
      ClosingStays(s, s', l.t, u);
      SameFileSameEntries(s.os, s'.os);
    } else {
      OtherTracks(s, s', l, u, stale, missing);
    }
  }

  lemma ReleaseMoves(s: State, t: nat)
    requires Inv(s) && t in s.threads && s.threads[t].pc.Active?
    ensures var s', u := Release(s, t), s.threads[t].user;
            && u in s.sessions && s'.os == s.os
            && s'.threads == s.threads[t := s.threads[t].(pc := if Count(s.sessions, u) == 1 then LastWait else Done)]
            && s'.sessions.Keys == if Count(s.sessions, u) == 1 then s.sessions.Keys - {u} else s.sessions.Keys
  {
    CountedIsPositive(s, t);
  }

  lemma ReleaseEvents(s: State, l: Label, u: string)
    requires Enabled(s, l) && Moves(s, l, u) && s.threads[l.t].pc.Active?
    ensures Installs(s, l) == None && !Happens(StaleEnds(u), s, l)
    ensures !Happens(GoesStale(u), s, l) && !Happens(GoesMissing(u), s, l)
    ensures Happens(MissingEnds(u), s, l) <==> Count(s.sessions, u) == 1
  {
  }

  lemma ReleaseTracks(s: State, l: Label, u: string, stale: bool, missing: bool)
    requires Inv(s) && Enabled(s, l) && Tracks(s, u, stale, missing) && l.Go? && s.threads[l.t].pc.Active?
    ensures Tracks(Release(s, l.t), u, StaleAfter(s, l, u, stale), MissingAfter(s, l, u, missing))
  {
    var s' := Release(s, l.t);
    ReleaseMoves(s, l.t);
    if Moves(s, l, u) {
      ReleaseEvents(s, l, u);
      OpeningStays(s, s', l.t, u);
      ClosingStays(s, s', l.t, u);
      SameFileSameEntries(s.os, s'.os);
      if Count(s.sessions, u) == 1 { assert Closing(s'.threads[l.t].pc); }
    } else {
      OtherTracks(s, s', l, u, stale, missing);
    }
  }

  /** Every other step leaves sessions and file alone; its mover stays on the way to its write unless its
      teardown is refused or its write fails. */
  lemma QuietMoves(s: State, l: Label, u: string)
    requires Enabled(s, l) && l.Go? && !Books(s.threads[l.t].pc) && Installs(s, l) == None
    ensures var s' := Work(s, l.t, l.out);
            var th := s.threads[l.t];
            && s'.threads == s.threads[l.t := th.(pc := s'.threads[l.t].pc)]
            && s'.sessions == s.sessions && s'.os.file == s.os.file
            && (th.user == u && Opening(th.pc) ==> Opening(s'.threads[l.t].pc) || FailsFirst(s, l, u))
            && (th.user == u && Closing(th.pc) ==>
                  Closing(s'.threads[l.t].pc) || Refused(s, l, u) || FailsLast(s, l, u))
  {
  }

  lemma QuietEvents(s: State, l: Label, u: string)
    requires Enabled(s, l) && Moves(s, l, u) && !Books(s.threads[l.t].pc) && Installs(s, l) == None
    ensures !Happens(StaleEnds(u), s, l) && !Happens(MissingEnds(u), s, l)
    ensures Happens(GoesStale(u), s, l) <==>
              u in Listed(s.os) && u !in s.sessions && (Refused(s, l, u) || FailsLast(s, l, u))
    ensures Happens(GoesMissing(u), s, l) <==> u !in Listed(s.os) && FailsFirst(s, l, u)
  {
  }

  lemma QuietTracks(s: State, l: Label, u: string, stale: bool, missing: bool)
    requires Inv(s) && Enabled(s, l) && Tracks(s, u, stale, missing)
    requires l.Go? && !Books(s.threads[l.t].pc) && Installs(s, l) == None
    ensures Tracks(Work(s, l.t, l.out), u, StaleAfter(s, l, u, stale), MissingAfter(s, l, u, missing))
  {
    var s' := Work(s, l.t, l.out);
    QuietMoves(s, l, u);
    if Moves(s, l, u) {
      QuietEvents(s, l, u);
      SameFileSameEntries(s.os, s'.os);
      if FailsFirst(s, l, u) { CountedIsPositive(s, l.t); } else { OpeningStays(s, s', l.t, u); }
      if !Refused(s, l, u) && !FailsLast(s, l, u) { ClosingStays(s, s', l.t, u); }
    } else {
      OtherTracks(s, s', l, u, stale, missing);
    }
  }

  lemma StepTracks(s: State, l: Label, u: string, stale: bool, missing: bool)
    requires Inv(s) && PlainWrites(s) && Enabled(s, l) && Tracks(s, u, stale, missing)
    ensures Tracks(Apply(s, l), u, StaleAfter(s, l, u, stale), MissingAfter(s, l, u, missing))
  {
    if lines :| Installs(s, l) == Some(lines) { InstallTracks(s, l, u, stale, missing, lines); }
    else if l.Accept? { AcceptTracks(s, l, u, stale, missing); }
    else {
      var pc := s.threads[l.t].pc;
      if pc.Start? { AdmitTracks(s, l, u, stale, missing); }
      else if pc.RollingBack? { RollbackTracks(s, l, u, stale, missing); }
      else if pc.Active? { ReleaseTracks(s, l, u, stale, missing); }
      else { QuietTracks(s, l, u, stale, missing); }
    }
  }

  // ---- whole runs ----

  lemma WritesArePlain(lower: Lower, cleanup: bool, start: Os, ls: seq<Label>, s: State)
    requires Exec(Init(cleanup, start), ls) == Some(s) && AllDerived(lower, ls)
    ensures PlainWrites(s)
  {
    StateFileIsSnapshot(Init(cleanup, start), ls, s);
    forall t, lines | t in s.threads && Writes(s.threads[t].pc, lines) ensures forall u | u in lines :: PlainLine(u) {
      SnapshotIsPlain(lower, cleanup, start, ls, lines);
    }
  }

  /** u is listed and stays so although its session is over. */
  predicate Stale(cleanup: bool, start: Os, ls: seq<Label>, u: string) {
    InForce(Init(cleanup, start), ls, u in Listed(start), GoesStale(u), StaleEnds(u))
  }

  /** u is in session and has been left without entry. */
  predicate Missing(cleanup: bool, start: Os, ls: seq<Label>, u: string) {
    InForce(Init(cleanup, start), ls, false, GoesMissing(u), MissingEnds(u))
  }

  lemma {:induction false} RunTracks(lower: Lower, cleanup: bool, start: Os, ls: seq<Label>, s: State, u: string)
    requires Exec(Init(cleanup, start), ls) == Some(s) && AllDerived(lower, ls)
    ensures Tracks(s, u, Stale(cleanup, start, ls, u), Missing(cleanup, start, ls, u))
  {
    var s0 := Init(cleanup, start);
    if ls == [] {
    } else {
      var front, l := ls[..|ls| - 1], ls[|ls| - 1];
      var p := Exec(s0, front).value;
      RunTracks(lower, cleanup, start, front, p, u);
      SafeRun(cleanup, start, front);
      WritesArePlain(lower, cleanup, start, front, p);
      StepTracks(p, l, u, Stale(cleanup, start, front, u), Missing(cleanup, start, front, u));
      InForceStep(s0, ls, u in Listed(start), GoesStale(u), StaleEnds(u));
      InForceStep(s0, ls, false, GoesMissing(u), MissingEnds(u));
    }
  }

  /** In every reachable state, for a username none of whose connections is on the way to a write: in
      session it is listed unless it is missing, out of session it is listed exactly if it is stale. */
  lemma FileExactly(lower: Lower, cleanup: bool, start: Os, ls: seq<Label>, s: State, u: string)
    requires Exec(Init(cleanup, start), ls) == Some(s) && AllDerived(lower, ls)
    ensures u in s.sessions && !HasOpening(s, u) ==> (u in Listed(s.os) <==> !Missing(cleanup, start, ls, u))
    ensures u !in s.sessions && !HasClosing(s, u) ==> (u in Listed(s.os) <==> Stale(cleanup, start, ls, u))
  {
    RunTracks(lower, cleanup, start, ls, s, u);
  }

  ghost predicate NobodyOnTheWay(s: State) {
    forall u :: !HasOpening(s, u) && !HasClosing(s, u)
  }

  /** With nobody on the way to a write, the file lists exactly the usernames in session if and only if
      nothing is stale and nothing is missing. */
  lemma FileIsSessionsIff(lower: Lower, cleanup: bool, start: Os, ls: seq<Label>, s: State)
    requires Exec(Init(cleanup, start), ls) == Some(s) && AllDerived(lower, ls) && NobodyOnTheWay(s)
    ensures Listed(s.os) == s.sessions.Keys <==>
              forall u :: !Stale(cleanup, start, ls, u) && !Missing(cleanup, start, ls, u)
  {
    forall u ensures (u in Listed(s.os) <==> u in s.sessions) <==>
                       !Stale(cleanup, start, ls, u) && !Missing(cleanup, start, ls, u) {
      RunTracks(lower, cleanup, start, ls, s, u);
    }
  }

  /** At rest the file lists exactly the stale usernames. */
  lemma FileAtRest(lower: Lower, cleanup: bool, start: Os, ls: seq<Label>, s: State, u: string)
    requires Exec(Init(cleanup, start), ls) == Some(s) && AllDerived(lower, ls) && AllFinished(s)
    ensures u in Listed(s.os) <==> Stale(cleanup, start, ls, u)
  {
    SafeRun(cleanup, start, ls);
    RestingBooks(s);
    RunTracks(lower, cleanup, start, ls, s, u);
  }

  /** What the first causes of either come to: the lines a step installs are the usernames in session in an
      earlier state, so one of them without session has lost it since, and one missing has opened it since. */
  lemma InstalledLate(cleanup: bool, start: Os, ls: seq<Label>, s: State, l: Label, lines: seq<string>, u: string)
    returns (k: nat)
    requires Exec(Init(cleanup, start), ls) == Some(s) && Installs(s, l) == Some(lines)
    ensures k <= |ls| && Exec(Init(cleanup, start), ls[..k]).Some?
    ensures u in lines <==> u in Exec(Init(cleanup, start), ls[..k]).value.sessions
    ensures Happens(GoesStale(u), s, l) ==>
              u in Exec(Init(cleanup, start), ls[..k]).value.sessions && u !in s.sessions
    ensures Happens(GoesMissing(u), s, l) ==>
              u !in Exec(Init(cleanup, start), ls[..k]).value.sessions && u in s.sessions
  {
    var s0 := Init(cleanup, start);
    StateFileIsSnapshot(s0, ls, s);
    PendingLines(s, l, lines);
    assert Snapshot(s0, ls, lines);
    k :| 0 <= k <= |ls| && SnapshotAt(s0, ls, lines, k);
    assert u in lines <==> u in multiset(lines);
    InstallEvents(s, l, u, lines);
  }

  lemma PendingLines(s: State, l: Label, lines: seq<string>)
    requires Installs(s, l) == Some(lines)
    ensures l.Go? && l.t in s.threads && Writes(s.threads[l.t].pc, lines)
  {
  }

  // ---- what is listed, on the way to a write or not ----

  /** The last lines installed had u, or none have been and it was listed from the start. */
  predicate Recorded(cleanup: bool, start: Os, ls: seq<Label>, u: string) {
    InForce(Init(cleanup, start), ls, u in Listed(start), Lists(u), Unlists(u))
  }

  lemma ListingStep(s: State, l: Label, u: string)
    requires Enabled(s, l) && PlainWrites(s)
    ensures u in Listed(Apply(s, l).os) <==>
              Happens(Lists(u), s, l) || (u in Listed(s.os) && !Happens(Unlists(u), s, l))
  {
    if lines :| Installs(s, l) == Some(lines) {
      InstalledLines(s, l, lines);
      ListingEvents(s, l, u, lines);
    } else {
      NothingInstalled(s, l);
      SameFileSameEntries(s.os, Apply(s, l).os);
      NoListingEvents(s, l, u);
    }
  }

  lemma ListingEvents(s: State, l: Label, u: string, lines: seq<string>)
    requires Installs(s, l) == Some(lines)
    ensures Happens(Lists(u), s, l) <==> u in lines
    ensures Happens(Unlists(u), s, l) <==> u !in lines
  {
  }

  lemma NoListingEvents(s: State, l: Label, u: string)
    requires Installs(s, l) == None
    ensures !Happens(Lists(u), s, l) && !Happens(Unlists(u), s, l)
  {
  }

  lemma NothingInstalled(s: State, l: Label)
    requires Enabled(s, l) && Installs(s, l) == None
    ensures Apply(s, l).os.file == s.os.file
  {
    if l.Go? && Books(s.threads[l.t].pc) { BooksAreBookish(s, l.t, l.out); }
  }

  /** In every reachable state, for every username. */
  lemma {:induction false} ListedExactly(lower: Lower, cleanup: bool, start: Os, ls: seq<Label>, s: State, u: string)
    requires Exec(Init(cleanup, start), ls) == Some(s) && AllDerived(lower, ls)
    ensures u in Listed(s.os) <==> Recorded(cleanup, start, ls, u)
  {
    var s0 := Init(cleanup, start);
    if ls == [] {
    } else {
      var front, l := ls[..|ls| - 1], ls[|ls| - 1];
      var p := Exec(s0, front).value;
      ListedExactly(lower, cleanup, start, front, p, u);
      WritesArePlain(lower, cleanup, start, front, p);
      ListingStep(p, l, u);
      InForceStep(s0, ls, u in Listed(start), Lists(u), Unlists(u));
    }
  }

  // ---- when the file keeps up ----

  /** Nothing that makes the file drift: writes work and install the usernames then in session, no first
      session is rolled back and no teardown is refused. */
  ghost predicate Smooth(s: State, l: Label) {
    l.Go? && l.t in s.threads ==>
      var pc := s.threads[l.t].pc;
      && (pc.FirstWrite? || pc.LastWrite? ==> l.out.ok)
      && (Installs(s, l).Some? ==> forall u :: u in Installs(s, l).value <==> u in s.sessions)
      && !pc.RollingBack?
      && !Refused(s, l, s.threads[l.t].user)
  }

  ghost predicate Smoothly(s0: State, ls: seq<Label>) {
    forall k | 0 <= k < |ls| :: SmoothAt(s0, ls, k)
  }

  ghost predicate SmoothAt(s0: State, ls: seq<Label>, k: nat)
    requires k < |ls|
  {
    var p := Exec(s0, ls[..k]);
    p.Some? ==> Smooth(p.value, ls[k])
  }

  lemma SmoothIsHarmless(s: State, l: Label, u: string)
    requires Smooth(s, l)
    ensures !Happens(GoesStale(u), s, l) && !Happens(GoesMissing(u), s, l)
  {
  }

  /** In a run of smooth steps from an empty file, the file lists exactly the usernames in session whenever
      nobody is on the way to a write. */
  lemma FileKeepsUp(lower: Lower, cleanup: bool, start: Os, ls: seq<Label>, s: State)
    requires Exec(Init(cleanup, start), ls) == Some(s) && AllDerived(lower, ls) && NobodyOnTheWay(s)
    requires Listed(start) == {} && Smoothly(Init(cleanup, start), ls)
    ensures Listed(s.os) == s.sessions.Keys
  {
    var s0 := Init(cleanup, start);
    forall u ensures !Stale(cleanup, start, ls, u) && !Missing(cleanup, start, ls, u) {
      forall k | 0 <= k < |ls| ensures !Marks(s0, ls, GoesStale(u))[k] && !Marks(s0, ls, GoesMissing(u))[k] {
        assert SmoothAt(s0, ls, k);
        if Exec(s0, ls[..k]).Some? { SmoothIsHarmless(Exec(s0, ls[..k]).value, ls[k], u); }
      }
    }
    FileIsSessionsIff(lower, cleanup, start, ls, s);
  }
}
