/** What happened last in a run: the steps that bring something about, the steps that put an end to it, and
    whether the former have the last word. */
module ProtocolEvents {
  import opened Options
  import opened HostOs
  import opened Protocol
  import opened Serial

  /** The usernames a restart would find in the state file. */
  function Listed(os: Os): set<string> {
    set u | u in FileUsers(os)
  }

  datatype Event =
    | GroupsGiven(user: string, groups: seq<string>)  // a connection's usermod sets the account's groups
    | GroupsSet(user: string, groups: seq<string>)    // ... or useradd makes the account, with none
    | GroupsChanged(user: string)                     // ... become anything, or go with the account
    | RuleSet(user: string, rule: string)             // rule is installed as the sudoers file
    | RuleChanged(user: string)                       // the sudoers file is replaced or removed
    | Lists(user: string)                             // lines with user are installed as state file
    | Unlists(user: string)                           // ... lines without user
    | GoesStale(user: string)                         // an entry of a user without session is left behind
    | StaleEnds(user: string)
    | GoesMissing(user: string)                       // a user in session is left without entry
    | MissingEnds(user: string)

  /** The lines a step installs as state file, if that is what it does and it succeeds. */
  function Installs(s: State, l: Label): Option<seq<string>> {
    if l.Accept? || l.t !in s.threads || !l.out.ok then None
    else
      match s.threads[l.t].pc
      case FirstWrite(lines) => Some(lines)
      case LastWrite(lines) => Some(lines)
      case _ => None
  }

  /** A step of one of u's connections, and where that connection stands. */
  predicate Moves(s: State, l: Label, u: string) {
    l.Go? && l.t in s.threads && s.threads[l.t].user == u
  }

  /** usermod on an existing account. */
  predicate Mods(s: State, l: Label, u: string) {
    && Moves(s, l, u) && (s.threads[l.t].pc.FirstMod? || s.threads[l.t].pc.LaterMod?)
    && l.out.ok && u in s.os.accounts
  }

  /** useradd that makes the account. */
  predicate Makes(s: State, l: Label, u: string) {
    Moves(s, l, u) && s.threads[l.t].pc.UserAdding? && l.out.ok && u !in s.os.accounts
  }

  /** A teardown that deletes the account, and one that wants to and is refused. */
  predicate Unmakes(s: State, l: Label, u: string) {
    Moves(s, l, u) && s.threads[l.t].pc.Teardown? && s.cleanup && Deletes(s.os, u, l.out.ok)
  }

  predicate Refused(s: State, l: Label, u: string) {
    Moves(s, l, u) && s.threads[l.t].pc.Teardown? && s.cleanup && !Deletes(s.os, u, l.out.ok)
  }

  /** A valid rule is put in place. */
  predicate Rules(s: State, l: Label, u: string) {
    && Moves(s, l, u) && (s.threads[l.t].pc.FirstSudo? || s.threads[l.t].pc.LaterSudo?)
    && l.out.ok && s.threads[l.t].perms.rule != "" && ValidRule(s.threads[l.t].perms.rule)
  }

  /** The rule is taken away: by a later session that has none, or by a teardown. */
  predicate Unrules(s: State, l: Label, u: string) {
    Moves(s, l, u)
    && ((s.threads[l.t].pc.LaterSudo? && s.threads[l.t].perms.rule == "" && l.out.ok)
        || (s.threads[l.t].pc.Teardown? && l.out.rm))
  }

  /** The step opens a session of u ... */
  predicate Opens(s: State, l: Label, u: string) {
    && Moves(s, l, u) && s.threads[l.t].pc.Start? && Count(s.sessions, u) == 0
    && (u in s.owners ==> s.owners[u] == s.threads[l.t].identity)
  }

  /** ... takes back one connection after a failed useradd ... */
  predicate RollsBack(s: State, l: Label, u: string) {
    Moves(s, l, u) && s.threads[l.t].pc.RollingBack?
  }

  /** ... or closes the last one. */
  predicate Closes(s: State, l: Label, u: string) {
    Moves(s, l, u) && (s.threads[l.t].pc.RollingBack? || s.threads[l.t].pc.Active?) && Count(s.sessions, u) == 1
  }

  /** A write of a connection of u that fails. */
  predicate FailsFirst(s: State, l: Label, u: string) {
    Moves(s, l, u) && s.threads[l.t].pc.FirstWrite? && !l.out.ok
  }

  predicate FailsLast(s: State, l: Label, u: string) {
    Moves(s, l, u) && s.threads[l.t].pc.LastWrite? && !l.out.ok
  }

  predicate Happens(e: Event, s: State, l: Label) {
    var lines := Installs(s, l);
    match e
    case GroupsGiven(u, groups) => Mods(s, l, u) && s.threads[l.t].perms.groups == groups
    case GroupsSet(u, groups) =>
      (Mods(s, l, u) && s.threads[l.t].perms.groups == groups) || (Makes(s, l, u) && groups == [])
    case GroupsChanged(u) => Mods(s, l, u) || Makes(s, l, u) || Unmakes(s, l, u)
    case RuleSet(u, rule) => Rules(s, l, u) && s.threads[l.t].perms.rule == rule
    case RuleChanged(u) => Rules(s, l, u) || Unrules(s, l, u)
    case Lists(u) => lines.Some? && u in lines.value
    case Unlists(u) => lines.Some? && u !in lines.value
    case GoesStale(u) =>
      // Lines are installed that were snapshotted before u's session ended; or u is listed and its last
      // connection is rolled back, or its teardown is refused, or the write after its teardown fails.
      || (lines.Some? && u in lines.value && u !in s.sessions)
      || (u in Listed(s.os) && RollsBack(s, l, u) && Closes(s, l, u))
      || (u in Listed(s.os) && u !in s.sessions && (Refused(s, l, u) || FailsLast(s, l, u)))
    case StaleEnds(u) => Opens(s, l, u) || (lines.Some? && u !in lines.value)
    case GoesMissing(u) =>
      // Lines are installed that were snapshotted before u's session began; or u is not listed and its
      // first connection's write fails, or that connection is rolled back while others go on.
      || (lines.Some? && u !in lines.value && u in s.sessions)
      || (u !in Listed(s.os) && (FailsFirst(s, l, u) || (RollsBack(s, l, u) && !Closes(s, l, u))))
    case MissingEnds(u) => Closes(s, l, u) || (lines.Some? && u in lines.value)
  }

  // ---- over a run ----

  predicate HappensAt(s0: State, ls: seq<Label>, e: Event, k: nat)
    requires k < |ls|
  {
    var p := Exec(s0, ls[..k]);
    p.Some? && Happens(e, p.value, ls[k])
  }

  /** At which labels of a run an event happens. */
  function Marks(s0: State, ls: seq<Label>, e: Event): seq<bool> {
    seq(|ls|, k requires 0 <= k < |ls| => HappensAt(s0, ls, e, k))
  }

  /** The cause is marked at k and the end nowhere after it. */
  predicate LastAt(causes: seq<bool>, ends: seq<bool>, k: nat)
    requires k < |causes| == |ends|
  {
    causes[k] && forall j | k < j < |ends| :: !ends[j]
  }

  predicate LastWord(was: bool, causes: seq<bool>, ends: seq<bool>)
    requires |causes| == |ends|
  {
    || (was && forall k | 0 <= k < |ends| :: !ends[k])
    || exists k :: 0 <= k < |causes| && LastAt(causes, ends, k)
  }

  /** What cause brings about is so after the run: it was at the start, or cause has happened, and end has
      not happened since. */
  predicate InForce(s0: State, ls: seq<Label>, was: bool, cause: Event, end: Event) {
    LastWord(was, Marks(s0, ls, cause), Marks(s0, ls, end))
  }

  lemma MarksBefore(s0: State, ls: seq<Label>, e: Event)
    requires ls != []
    ensures Marks(s0, ls, e) == Marks(s0, ls[..|ls| - 1], e) + [HappensAt(s0, ls, e, |ls| - 1)]
  {
    forall k | 0 <= k < |ls| - 1 ensures HappensAt(s0, ls, e, k) == HappensAt(s0, ls[..|ls| - 1], e, k) {
      assert ls[..|ls| - 1][..k] == ls[..k];
    }
  }

  lemma LastWordStep(was: bool, causes: seq<bool>, ends: seq<bool>, cause: bool, end: bool)
    requires |causes| == |ends|
    ensures LastWord(was, causes + [cause], ends + [end]) <==> cause || (LastWord(was, causes, ends) && !end)
  {
    var n := |causes|;
    var causes', ends' := causes + [cause], ends + [end];
    if cause { assert LastAt(causes', ends', n); }
    if !end {
      forall k | 0 <= k < n && LastAt(causes, ends, k) ensures LastAt(causes', ends', k) { }
    }
    assert ends'[n] == end;
    forall k | 0 <= k < n && LastAt(causes', ends', k) ensures !end && LastAt(causes, ends, k) {
      forall j | k < j < n ensures !ends[j] { assert ends'[j] == ends[j]; }
    }
    if !end && forall k | 0 <= k < n :: !ends[k] {
      forall k | 0 <= k < n + 1 ensures !ends'[k] { }
    }
    if forall k | 0 <= k < n + 1 :: !ends'[k] {
      forall k | 0 <= k < n ensures !ends[k] { assert ends'[k] == ends[k]; }
    }
  }

  /** One more step brings it about, or leaves it so by not ending it. */
  lemma InForceStep(s0: State, ls: seq<Label>, was: bool, cause: Event, end: Event)
    requires ls != []
    ensures InForce(s0, ls, was, cause, end) <==>
              || HappensAt(s0, ls, cause, |ls| - 1)
              || (InForce(s0, ls[..|ls| - 1], was, cause, end) && !HappensAt(s0, ls, end, |ls| - 1))
  {
    MarksBefore(s0, ls, cause);
    MarksBefore(s0, ls, end);
    var front := ls[..|ls| - 1];
    LastWordStep(was, Marks(s0, front, cause), Marks(s0, front, end),
                 HappensAt(s0, ls, cause, |ls| - 1), HappensAt(s0, ls, end, |ls| - 1));
  }
}
