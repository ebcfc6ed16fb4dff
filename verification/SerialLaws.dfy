/** What serial operation of the user manager promises, for every sequence of operations in which the
    commands succeed (useradd may fail) and sudoers rules are valid. */
module SerialLaws {
  import opened Options
  import opened HostOs
  import opened Text
  import opened Serial
  import opened SudoersRules

  /** A view together with the permissions of the latest successful EnsureUser per live username. */
  datatype Ledger = Ledger(v: View, applied: map<string, Perms>)

  datatype Op =
    | Connect(identity: string, user: string, perms: Perms, useradd: bool, order: seq<string>)
    | Disconnect(user: string, order: seq<string>)

  function Fine(useradd: bool): Answers {
    Answers(useradd, true, true, true, true)
  }

  function Perform(l: Ledger, cleanup: bool, op: Op): Ledger {
    match op
    case Connect(identity, u, perms, useradd, order) =>
      var (v, r) := Ensure(l.v, identity, u, perms, Fine(useradd), order);
      Ledger(v, if r.Ready? then l.applied[u := perms] else l.applied)
    case Disconnect(u, order) =>
      var (v, r) := Release(l.v, cleanup, u, Fine(true), order);
      Ledger(v, if u in v.sessions then l.applied else l.applied - {u})
  }

  /** Usernames are printable, rules are valid, and the snapshot lists the keys it was taken from. */
  predicate Legal(l: Ledger, cleanup: bool, op: Op) {
    && PlainLine(op.user)
    && (op.Connect? ==> op.perms.rule == "" || ValidRule(op.perms.rule))
    && Orders(op.order, Perform(l, cleanup, op).v.sessions.Keys)
  }

  ghost predicate BooksOk(v: View) {
    && v.sessions.Keys == v.owners.Keys
    && (forall u | u in v.sessions :: v.sessions[u] > 0 && PlainLine(u))
  }

  /** In session: the account exists with exactly the groups and the rule last applied. */
  ghost predicate LiveOk(l: Ledger, u: string) {
    var os := l.v.os;
    u in l.v.sessions ==>
      && u in l.applied && u in os.accounts && u in os.groups && os.groups[u] == l.applied[u].groups
      && (if l.applied[u].rule == "" then u !in os.sudoers
          else u in os.sudoers && os.sudoers[u] == l.applied[u].rule)
  }

  /** Not in session: no sudoers file, and with cleanup on no account of the daemon's. */
  ghost predicate GoneOk(l: Ledger, cleanup: bool, start: Os, u: string) {
    u !in l.v.sessions ==>
      && u !in l.v.os.sudoers
      && (cleanup && u in l.v.os.accounts ==> u in start.accounts)
  }

  ghost predicate SerialOk(l: Ledger, cleanup: bool, start: Os) {
    && BooksOk(l.v)
    && (forall u :: UserOk(l, cleanup, start, u))
    && Orders(FileUsers(l.v.os), l.v.sessions.Keys)
  }

  lemma WrittenUsers(os: Os, order: seq<string>, keys: set<string>)
    requires Orders(order, keys) && forall u | u in keys :: PlainLine(u)
    ensures FileUsers(WriteStateFile(os, order, true)) == order
  {
    forall u | u in order ensures PlainLine(u) {
      assert u in multiset(order);
    }
    LinesInvertUnlines(order);
  }

  ghost predicate UserOk(l: Ledger, cleanup: bool, start: Os, u: string) {
    LiveOk(l, u) && GoneOk(l, cleanup, start, u)
  }

  lemma ConnectKeepsUser(l: Ledger, cleanup: bool, start: Os, op: Op, u: string)
    requires BooksOk(l.v) && UserOk(l, cleanup, start, u) && op.Connect? && Legal(l, cleanup, op)
    ensures UserOk(Perform(l, cleanup, op), cleanup, start, u)
  {
    if op.user !in l.v.sessions { FirstKeepsUser(l, cleanup, start, op, u); }
  }

  lemma FirstKeepsUser(l: Ledger, cleanup: bool, start: Os, op: Op, u: string)
    requires BooksOk(l.v) && UserOk(l, cleanup, start, u) && op.Connect? && Legal(l, cleanup, op)
    requires op.user !in l.v.sessions
    ensures UserOk(Perform(l, cleanup, op), cleanup, start, u)
  {
  }

  lemma DisconnectKeepsUser(l: Ledger, cleanup: bool, start: Os, op: Op, u: string)
    requires BooksOk(l.v) && UserOk(l, cleanup, start, u) && op.Disconnect? && Legal(l, cleanup, op)
    ensures UserOk(Perform(l, cleanup, op), cleanup, start, u)
  {
  }

  /** Either the key set and the file stay, or the file is rewritten from the new key set. */
  lemma BooksFollow(l: Ledger, cleanup: bool, start: Os, op: Op)
    requires BooksOk(l.v) && UserOk(l, cleanup, start, op.user) && Legal(l, cleanup, op)
    ensures var v' := Perform(l, cleanup, op).v;
            && BooksOk(v')
            && ((v'.sessions.Keys == l.v.sessions.Keys && v'.os.file == l.v.os.file)
                || v'.os.file == Some(Unlines(op.order)))
  {
    if op.Connect? { ConnectFollows(l, cleanup, op); }
  }

  lemma ConnectFollows(l: Ledger, cleanup: bool, op: Op)
    requires BooksOk(l.v) && op.Connect? && Legal(l, cleanup, op)
    ensures var v' := Perform(l, cleanup, op).v;
            && BooksOk(v')
            && ((v'.sessions.Keys == l.v.sessions.Keys && v'.os.file == l.v.os.file)
                || v'.os.file == Some(Unlines(op.order)))
  {
    if op.user !in l.v.sessions {
      FirstFollows(l, cleanup, op);
    }
  }

  lemma FirstFollows(l: Ledger, cleanup: bool, op: Op)
    requires BooksOk(l.v) && op.Connect? && PlainLine(op.user) && op.user !in l.v.sessions
    ensures var v' := Perform(l, cleanup, op).v;
            BooksOk(v') && if op.useradd then v'.os.file == Some(Unlines(op.order)) else v' == l.v
  {
    if !op.useradd {
      FailedUserAddRestores(l.v, op.identity, op.user, op.perms, Fine(false), op.order);
    }
  }

  lemma KeepsSerial(l: Ledger, cleanup: bool, start: Os, op: Op)
    requires SerialOk(l, cleanup, start) && Legal(l, cleanup, op)
    ensures SerialOk(Perform(l, cleanup, op), cleanup, start)
  {
    var l' := Perform(l, cleanup, op);
    assert UserOk(l, cleanup, start, op.user);
    BooksFollow(l, cleanup, start, op);
    if l'.v.os.file == Some(Unlines(op.order)) { WrittenUsers(l.v.os, op.order, l'.v.sessions.Keys); }
    forall u ensures UserOk(l', cleanup, start, u) {
      assert UserOk(l, cleanup, start, u);
      if op.Connect? { ConnectKeepsUser(l, cleanup, start, op, u); }
      else { DisconnectKeepsUser(l, cleanup, start, op, u); }
    }
  }

  function PerformAll(l: Ledger, cleanup: bool, ops: seq<Op>): Ledger {
    if ops == [] then l else Perform(PerformAll(l, cleanup, ops[..|ops| - 1]), cleanup, ops[|ops| - 1])
  }

  predicate AllLegal(l: Ledger, cleanup: bool, ops: seq<Op>) {
    ops != [] ==>
      && AllLegal(l, cleanup, ops[..|ops| - 1])
      && Legal(PerformAll(l, cleanup, ops[..|ops| - 1]), cleanup, ops[|ops| - 1])
  }

  /** After any sequence of operations from a clean start: usernames in session have their account,
      groups and sudoers file exactly as the latest EnsureUser asked; all others have no sudoers file
      and, with cleanup on, no account; the state file lists exactly the usernames in session. */
  lemma {:induction false} SerialRuns(start: Os, cleanup: bool, ops: seq<Op>)
    requires start.sudoers == map[] && FileUsers(start) == []
    requires AllLegal(Ledger(View(map[], map[], start), map[]), cleanup, ops)
    ensures SerialOk(PerformAll(Ledger(View(map[], map[], start), map[]), cleanup, ops), cleanup, start)
  {
    var l0 := Ledger(View(map[], map[], start), map[]);
    if ops == [] {
    } else {
      var l := PerformAll(l0, cleanup, ops[..|ops| - 1]);
      var op := ops[|ops| - 1];
      SerialRuns(start, cleanup, ops[..|ops| - 1]);
      KeepsSerial(l, cleanup, start, op);
    }
  }

  /** A first useradd that fails gives back the books and the system exactly as they were. */
  lemma FailedUserAddRestores(v: View, identity: string, u: string, perms: Perms, e: Answers, order: seq<string>)
    requires BooksOk(v) && u !in v.sessions && !e.useradd
    ensures Ensure(v, identity, u, perms, e, order) == (v, UserAddFailed)
  {
    assert v.sessions - {u} == v.sessions && v.owners - {u} == v.owners;
  }

  // ---- what each call tells its caller ----

  /** EnsureUser is refused for a foreign owner and fails with useradd, both times leaving everything as it
      was; otherwise the session is counted for the caller. */
  lemma EnsureTells(v: View, identity: string, u: string, perms: Perms, e: Answers, order: seq<string>)
    requires BooksOk(v)
    ensures var (v', r) := Ensure(v, identity, u, perms, e, order);
            && (r.Rejected? <==> u in v.owners && v.owners[u] != identity)
            && (r.Rejected? ==> r.owner == v.owners[u] && v' == v)
            && (r.UserAddFailed? <==> u !in v.sessions && !e.useradd)
            && (r.UserAddFailed? ==> v' == v)
            && (r.Ready? ==>
                  && u in v'.sessions && v'.sessions[u] == Count(v.sessions, u) + 1
                  && u in v'.owners && v'.owners[u] == identity
                  && (forall w | w != u :: (w in v'.sessions <==> w in v.sessions)
                                           && (w in v.sessions ==> v'.sessions[w] == v.sessions[w])))
  {
    if u !in v.sessions && !e.useradd { FailedUserAddRestores(v, identity, u, perms, e, order); }
  }

  /** EnsureUser only ever changes its own username's sudoers file, and only to its own rule if that is one
      harmless line; and such a rule it does install, unless the command fails. */
  lemma EnsureInstallsAdmissible(v: View, identity: string, u: string, perms: Perms, e: Answers, order: seq<string>)
    ensures var (v', r) := Ensure(v, identity, u, perms, e, order);
            && (forall w | w in v'.os.sudoers ::
                  || (w in v.os.sudoers && v.os.sudoers[w] == v'.os.sudoers[w])
                  || (w == u && v'.os.sudoers[w] == perms.rule && Admissible(perms.rule)))
            && (r.Ready? && perms.rule != "" && Admissible(perms.rule) && e.sudoers ==>
                  u in v'.os.sudoers && v'.os.sudoers[u] == perms.rule)
  {
    ValidIffAdmissible(perms.rule);
    PermitInstalls(UserAdd(v.os, u, true), u, perms, e, true);
    PermitInstalls(v.os, u, perms, e, false);
  }

  /** The permission steps change nothing but the username's own groups, if usermod works and finds the
      account, and its own sudoers file: replaced by a valid rule, removed by a later session without one,
      and left alone by a first session without one, by an invalid rule and by a failing command. */
  lemma PermitTells(os: Os, u: string, perms: Perms, e: Answers, first: bool)
    ensures var os' := Permit(os, u, perms, e, first);
            && os'.accounts == os.accounts && os'.file == os.file
            && os'.groups == (if e.usermod && u in os.accounts then os.groups[u := perms.groups] else os.groups)
            && os'.sudoers == (if !e.sudoers then os.sudoers
                               else if perms.rule != "" && Admissible(perms.rule) then os.sudoers[u := perms.rule]
                               else if perms.rule == "" && !first then os.sudoers - {u}
                               else os.sudoers)
  {
    ValidIffAdmissible(perms.rule);
  }

  lemma PermitInstalls(os: Os, u: string, perms: Perms, e: Answers, first: bool)
    ensures var os' := Permit(os, u, perms, e, first);
            && (forall w | w in os'.sudoers ::
                  || (w in os.sudoers && os.sudoers[w] == os'.sudoers[w])
                  || (w == u && os'.sudoers[w] == perms.rule && ValidRule(perms.rule)))
            && (perms.rule != "" && ValidRule(perms.rule) && e.sudoers ==>
                  u in os'.sudoers && os'.sudoers[u] == perms.rule)
  {
  }

  /** What ReleaseUser returns says what it found and did: nothing to release; sessions left over, the system
      untouched; the last session gone and, with cleanup on, the account with it; or the last session gone
      and the account not deleted, in which case the state file is not written either. */
  lemma ReleaseTells(v: View, cleanup: bool, u: string, e: Answers, order: seq<string>)
    requires BooksOk(v)
    ensures var (v', r) := Release(v, cleanup, u, e, order);
            && (r.UntrackedError? <==> u !in v.sessions)
            && (r.UntrackedError? ==> v' == v)
            && (r.StillActive? <==> u in v.sessions && v.sessions[u] > 1)
            && (r.StillActive? ==> r.remaining == v.sessions[u] - 1 == v'.sessions[u] && v'.os == v.os
                                   && v'.owners == v.owners)
            && (r.Released? || r.DeleteFailed? <==> u in v.sessions && u !in v'.sessions)
            && (r.Released? || r.DeleteFailed? ==>
                  v'.sessions.Keys == v.sessions.Keys - {u} && v'.owners.Keys == v.owners.Keys - {u})
            && (r.Released? && cleanup ==> u in v.os.accounts && u !in v'.os.accounts)
            && (r.Released? && !cleanup ==> v'.os.accounts == v.os.accounts)
            && (r.DeleteFailed? ==> cleanup && v'.os.accounts == v.os.accounts && v'.os.file == v.os.file)
  {
  }

  // ---- recovery after a crash ----

  function Undeletable(os: Os, users: seq<string>, can: set<string>): seq<string> {
    if users == [] then []
    else
      var u := users[|users| - 1];
      Undeletable(os, users[..|users| - 1], can) + (if Deletes(os, u, u in can) then [] else [u])
  }

  predicate Distinct(users: seq<string>) {
    forall i, j | 0 <= i < j < |users| :: users[i] != users[j]
  }

  /** The startup sweep deletes exactly the listed accounts it can delete, removes exactly the listed
      sudoers files it can remove, and retains exactly the failed deletions, in order. */
  lemma {:induction false} SweepIsExact(os: Os, users: seq<string>, can: set<string>, rm: set<string>)
    requires Distinct(users)
    ensures var (os', left) := Sweep(os, true, users, can, rm);
            && (forall u :: u in os'.accounts <==> u in os.accounts && !(u in users && u in can))
            && (forall u :: u in os'.sudoers <==> u in os.sudoers && !(u in users && u in rm))
            && (forall u | u in os'.sudoers :: os'.sudoers[u] == os.sudoers[u])
            && left == Undeletable(os, users, can)
  {
    if users == [] {
    } else {
      var front := users[..|users| - 1];
      SweepIsExact(os, front, can, rm);
      assert users == front + [users[|users| - 1]];
      assert users[|users| - 1] !in front;
    }
  }

  lemma {:induction false} SweepWithoutCleanup(os: Os, users: seq<string>, can: set<string>, rm: set<string>)
    ensures Sweep(os, false, users, can, rm) == (os, [])
  {
    if users == [] {
    } else {
      SweepWithoutCleanup(os, users[..|users| - 1], can, rm);
    }
  }

  lemma OrderedIsDistinct(order: seq<string>, keys: set<string>)
    requires Orders(order, keys)
    ensures Distinct(order) && forall u :: u in order <==> u in keys
  {
    forall i, j | 0 <= i < j < |order| ensures order[i] != order[j] {
      var rest := order[..i] + order[i + 1..];
      assert order == order[..i] + [order[i]] + order[i + 1..];
      assert multiset(order) == multiset(rest) + multiset{order[i]};
      assert order[j] == rest[j - 1] && order[j] in multiset(rest);
      assert multiset(order)[order[i]] <= 1;
    }
    forall u ensures u in order <==> u in keys {
      assert u in order <==> u in multiset(order);
    }
  }

  /** Crash between two serial operations, then restart with cleanup on: the sweep takes away exactly
      the accounts and sudoers files of the usernames that were in session, as far as they can be removed,
      and keeps listed exactly those whose deletion failed. */
  lemma RecoveryAfterCrash(l: Ledger, start: Os, can: set<string>, rm: set<string>)
    requires SerialOk(l, true, start)
    ensures var (os', left) := Sweep(l.v.os, true, FileUsers(l.v.os), can, rm);
            && (forall u :: u in os'.accounts <==> u in l.v.os.accounts && !(u in l.v.sessions && u in can))
            && (forall u :: u in os'.sudoers <==> u in l.v.os.sudoers && u !in rm)
            && (forall u :: u in left <==> u in l.v.sessions && u !in can)
            && (l.v.sessions.Keys <= can ==> left == [] && os'.accounts <= start.accounts)
  {
    var users := FileUsers(l.v.os);
    OrderedIsDistinct(users, l.v.sessions.Keys);
    SweepIsExact(l.v.os, users, can, rm);
    UndeletableMembers(l.v.os, users, can);
    var (os', left) := Sweep(l.v.os, true, users, can, rm);
    forall u ensures u in l.v.os.sudoers ==> u in l.v.sessions { assert UserOk(l, true, start, u); }
    forall u ensures u in users ==> u in l.v.os.accounts { assert UserOk(l, true, start, u); }
    assert left != [] ==> left[0] in left;
    if l.v.sessions.Keys <= can {
      forall u | u in os'.accounts ensures u in start.accounts { assert UserOk(l, true, start, u); }
    }
  }

  lemma {:induction false} UndeletableMembers(os: Os, users: seq<string>, can: set<string>)
    ensures forall u :: u in Undeletable(os, users, can) <==> u in users && !Deletes(os, u, u in can)
  {
    if users == [] {
    } else {
      var front := users[..|users| - 1];
      UndeletableMembers(os, front, can);
      assert users == front + [users[|users| - 1]];
    }
  }
}
