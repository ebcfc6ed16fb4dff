/** A crash at any point of an interleaved run, then a restart with cleanup on: what the startup sweep
    takes away, what it keeps listed, and which accounts it does not know of. */
module ProtocolCrash {
  import opened Options
  import opened HostOs
  import opened Protocol
  import opened ProtocolSafety
  import opened ProtocolRuns
  import opened ProtocolDerived
  import opened ProtocolEvents
  import opened ProtocolFile
  import opened Username
  import opened Serial
  import Laws = SerialLaws
  import opened Text
  import ProtocolLimits

  lemma NoNameTwice(lower: Lower, cleanup: bool, start: Os, ls: seq<Label>, s: State)
    requires Exec(Init(cleanup, start), ls) == Some(s) && AllDerived(lower, ls)
    requires Laws.Distinct(FileUsers(start))
    ensures Laws.Distinct(FileUsers(s.os))
  {
    if s.os.file == start.file {
    } else {
      var k := StateFileReadsBack(lower, cleanup, start, ls, s);
      Laws.OrderedIsDistinct(FileUsers(s.os), Exec(Init(cleanup, start), ls[..k]).value.sessions.Keys);
    }
  }

  /** For every username, on the way to a write or not: its account and sudoers file go exactly when the last
      lines installed had it and they can be removed, and it stays listed exactly when those lines had it and
      its account is not deleted. */
  lemma SweepAfterCrash(lower: Lower, start: Os, ls: seq<Label>, s: State, can: set<string>, rm: set<string>, u: string)
    requires Exec(Init(true, start), ls) == Some(s) && AllDerived(lower, ls) && Laws.Distinct(FileUsers(start))
    ensures var (os', left) := Sweep(s.os, true, FileUsers(s.os), can, rm);
            && (u in os'.accounts <==> u in s.os.accounts && !(Recorded(true, start, ls, u) && u in can))
            && (u in os'.sudoers <==> u in s.os.sudoers && !(Recorded(true, start, ls, u) && u in rm))
            && (u in left <==> Recorded(true, start, ls, u) && !Deletes(s.os, u, u in can))
  {
    NoNameTwice(lower, true, start, ls, s);
    Laws.SweepIsExact(s.os, FileUsers(s.os), can, rm);
    Laws.UndeletableMembers(s.os, FileUsers(s.os), can);
    ListedExactly(lower, true, start, ls, s, u);
  }

  /** Where u stands when the last lines installed did not have it: in session it is missing or has its own
      first write ahead; out of session it is anything but stale, or has its last write ahead. */
  lemma RecordedOrNot(lower: Lower, start: Os, ls: seq<Label>, s: State, u: string)
    requires Exec(Init(true, start), ls) == Some(s) && AllDerived(lower, ls)
    ensures u in s.sessions && !HasOpening(s, u) ==> (!Recorded(true, start, ls, u) <==> Missing(true, start, ls, u))
    ensures u !in s.sessions && !HasClosing(s, u) ==> (Recorded(true, start, ls, u) <==> Stale(true, start, ls, u))
  {
    FileExactly(lower, true, start, ls, s, u);
    ListedExactly(lower, true, start, ls, s, u);
  }

  /** The ways in which an account comes to be there without being listed. */
  ghost predicate Unknown(start: Os, ls: seq<Label>, s: State, u: string) {
    || OldAccount(s, start, u) || u in s.hist.stuck
    || HasOpening(s, u) || HasClosing(s, u) || Missing(true, start, ls, u)
  }

  /** The accounts that survive a sweep able to delete them are exactly those the last lines installed did not
      have; and each of them is an old one, resisted userdel before, belongs to a connection on the way to a
      write, or is missing from the file. */
  lemma SweepLeaves(lower: Lower, start: Os, ls: seq<Label>, s: State, can: set<string>, rm: set<string>, u: string)
    requires Exec(Init(true, start), ls) == Some(s) && AllDerived(lower, ls) && Laws.Distinct(FileUsers(start))
    requires u in can
    ensures u in Sweep(s.os, true, FileUsers(s.os), can, rm).0.accounts <==>
              u in s.os.accounts && !Recorded(true, start, ls, u)
    ensures u in Sweep(s.os, true, FileUsers(s.os), can, rm).0.accounts ==> Unknown(start, ls, s, u)
  {
    SweepAfterCrash(lower, start, ls, s, can, rm, u);
    RecordedOrNot(lower, start, ls, s, u);
    SafeRun(true, start, ls);
    assert OrphanFree(s, start, u);
    if x :| x in s.threads && s.threads[x].user == u && Pending(s.threads[x].pc) {
      assert Closing(s.threads[x].pc);
    }
  }

  /** A crash between useradd and the first write: the state file has not been written at all, every command
      has worked and nothing is missing by way of an overtaken or failed write, but no sweep knows of the
      account. */
  lemma CrashBeforeWriting(start: Os, id: string, u: string, perms: Perms, can: set<string>, rm: set<string>)
    returns (ls: seq<Label>, s: State)
    requires start.file == None
    ensures Exec(Init(true, start), ls) == Some(s)
    ensures s.threads == map[0 := Thread(id, u, perms, FirstMod)] && s.sessions == map[u := 1]
    ensures u in s.os.accounts && FileUsers(s.os) == [] && !Missing(true, start, ls, u)
    ensures var (os', left) := Sweep(s.os, true, FileUsers(s.os), can, rm);
            u in os'.accounts && u !in left
  {
    ls, s := ProtocolLimits.MadeButUnwritten(start, id, u, perms);
  }

  /** A crash in the state of ForgottenByCrash: both usernames are in session, and however well the sweep
      goes it leaves the account of the second and does not list it for the next restart either. */
  lemma CrashForgetsAccount(start: Os, a: string, b: string, perms: Perms, can: set<string>, rm: set<string>)
    returns (ls: seq<Label>, s: State)
    requires a != b && PlainLine(a)
    ensures Exec(Init(true, start), ls) == Some(s)
    ensures a in s.sessions && b in s.sessions && b in s.os.accounts && FileUsers(s.os) == [a]
    ensures var (os', left) := Sweep(s.os, true, FileUsers(s.os), can, rm);
            b in os'.accounts && b !in left
  {
    ls, s := ProtocolLimits.ForgottenByCrash(start, a, b, perms);
    LinesInvertUnlines([a]);
    Laws.SweepIsExact(s.os, [a], can, rm);
    Laws.UndeletableMembers(s.os, [a], can);
  }
}
