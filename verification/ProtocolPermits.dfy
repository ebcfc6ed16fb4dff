/** Whose groups and whose sudoers rule an account runs with when connections overlap: those of the last
    connection through the step in question, which need not be the last one admitted. */
module ProtocolPermits {
  import opened Options
  import opened HostOs
  import opened Protocol
  import opened ProtocolRuns
  import opened ProtocolEvents
  import opened SudoersRules

  predicate HasGroups(os: Os, u: string, groups: seq<string>) {
    u in os.groups && os.groups[u] == groups
  }

  predicate HasRule(os: Os, u: string, rule: string) {
    u in os.sudoers && os.sudoers[u] == rule
  }

  lemma GroupsStep(s: State, l: Label, u: string, groups: seq<string>)
    requires Enabled(s, l)
    ensures HasGroups(Apply(s, l).os, u, groups) <==>
              Happens(GroupsSet(u, groups), s, l) || (HasGroups(s.os, u, groups) && !Happens(GroupsChanged(u), s, l))
  {
    if l.Go? && Books(s.threads[l.t].pc) { BooksAreBookish(s, l.t, l.out); }
  }

  lemma RuleStep(s: State, l: Label, u: string, rule: string)
    requires Enabled(s, l)
    ensures HasRule(Apply(s, l).os, u, rule) <==>
              Happens(RuleSet(u, rule), s, l) || (HasRule(s.os, u, rule) && !Happens(RuleChanged(u), s, l))
  {
    if l.Go? && Books(s.threads[l.t].pc) { BooksAreBookish(s, l.t, l.out); }
  }

  /** In every reachable state, whatever failed: an account has these groups exactly when the last step to
      change its groups was a usermod of a connection with these permissions, or its useradd and they are
      empty, or it had them from the start and nothing has changed them. */
  lemma {:induction false} GroupsInForce(s0: State, ls: seq<Label>, s: State, u: string, groups: seq<string>)
    requires Exec(s0, ls) == Some(s)
    ensures HasGroups(s.os, u, groups) <==>
              InForce(s0, ls, HasGroups(s0.os, u, groups), GroupsSet(u, groups), GroupsChanged(u))
  {
    if ls == [] {
    } else {
      var p := Exec(s0, ls[..|ls| - 1]).value;
      GroupsInForce(s0, ls[..|ls| - 1], p, u, groups);
      GroupsStep(p, ls[|ls| - 1], u, groups);
      InForceStep(s0, ls, HasGroups(s0.os, u, groups), GroupsSet(u, groups), GroupsChanged(u));
    }
  }

  /** Likewise for the sudoers file: this rule is in force exactly when the last step to touch the file
      installed it. A first session without a rule does not touch the file; a later one, and every teardown,
      removes it. */
  lemma {:induction false} RuleInForce(s0: State, ls: seq<Label>, s: State, u: string, rule: string)
    requires Exec(s0, ls) == Some(s)
    ensures HasRule(s.os, u, rule) <==>
              InForce(s0, ls, HasRule(s0.os, u, rule), RuleSet(u, rule), RuleChanged(u))
  {
    if ls == [] {
    } else {
      var p := Exec(s0, ls[..|ls| - 1]).value;
      RuleInForce(s0, ls[..|ls| - 1], p, u, rule);
      RuleStep(p, ls[|ls| - 1], u, rule);
      InForceStep(s0, ls, HasRule(s0.os, u, rule), RuleSet(u, rule), RuleChanged(u));
    }
  }

  /** Whatever is found in a sudoers file was there from the start or is one harmless line. */
  lemma InstalledAreAdmissible(s0: State, ls: seq<Label>, s: State, u: string)
    requires Exec(s0, ls) == Some(s) && u in s.os.sudoers
    ensures HasRule(s0.os, u, s.os.sudoers[u]) || (s.os.sudoers[u] != "" && Admissible(s.os.sudoers[u]))
  {
    var rule := s.os.sudoers[u];
    RuleInForce(s0, ls, s, u, rule);
    if !HasRule(s0.os, u, rule) {
      var k :| 0 <= k < |ls| && LastAt(Marks(s0, ls, RuleSet(u, rule)), Marks(s0, ls, RuleChanged(u)), k);
      assert HappensAt(s0, ls, RuleSet(u, rule), k);
      ValidIffAdmissible(rule);
    }
  }

  /** A harmless rule is in force once the connection that has it is past its step, if the command worked. */
  lemma AdmissibleIsInstalled(s: State, t: nat, o: Outcome)
    requires Enabled(s, Go(t, o)) && (s.threads[t].pc.FirstSudo? || s.threads[t].pc.LaterSudo?) && o.ok
    requires s.threads[t].perms.rule != "" && Admissible(s.threads[t].perms.rule)
    ensures HasRule(Advance(s, t, o).os, s.threads[t].user, s.threads[t].perms.rule)
  {
    ValidIffAdmissible(s.threads[t].perms.rule);
  }

  // ---- a served connection's account has some connection's groups ----

  /** usermod has run for this connection. */
  predicate PastMod(pc: Pc) {
    || pc.FirstSudo? || pc.FirstSnap? || pc.FirstWrite? || pc.FirstUnlock?
    || pc.LaterSudo? || pc.LaterUnlock? || pc.Active?
  }

  ghost predicate HasPastMod(s: State, u: string) {
    exists t :: t in s.threads && s.threads[t].user == u && PastMod(s.threads[t].pc)
  }

  ghost predicate HasFirstMod(s: State, u: string) {
    exists t :: t in s.threads && s.threads[t].user == u && s.threads[t].pc.FirstMod?
  }

  /** The account's groups are settled: usermod has run for some connection, and none has useradd behind
      it and usermod ahead. */
  ghost predicate Settled(s: State, u: string) {
    u in s.os.accounts && HasPastMod(s, u) && !HasFirstMod(s, u)
  }

  predicate ModWorks(pc: Pc, o: Outcome) {
    pc.FirstMod? || pc.LaterMod? ==> o.ok
  }

  /** An account only comes to be settled by a usermod on it. */
  lemma SettledStep(s: State, l: Label, u: string)
    requires Enabled(s, l) && Settled(Apply(s, l), u)
    requires l.Go? ==> ModWorks(s.threads[l.t].pc, l.out)
    ensures || (exists groups :: Happens(GroupsGiven(u, groups), s, l))
            || (Settled(s, u) && !Happens(GroupsChanged(u), s, l))
  {
    var s' := Apply(s, l);
    if l.Go? && Mods(s, l, u) {
      assert Happens(GroupsGiven(u, s.threads[l.t].perms.groups), s, l);
    } else {
      var t :| t in s'.threads && s'.threads[t].user == u && PastMod(s'.threads[t].pc);
      if l.Accept? { SettledAccept(s, l, u, t); } else { SettledGo(s, l, u, t); }
    }
  }

  lemma SettledAccept(s: State, l: Label, u: string, t: nat)
    requires Enabled(s, l) && l.Accept? && Settled(Apply(s, l), u)
    requires t in Apply(s, l).threads && Apply(s, l).threads[t].user == u && PastMod(Apply(s, l).threads[t].pc)
    ensures Settled(s, u)
  {
    assert t in s.threads && PastMod(s.threads[t].pc);
    forall x | x in s.threads && s.threads[x].user == u ensures !s.threads[x].pc.FirstMod? {
      assert x in Apply(s, l).threads;
    }
  }

  lemma SettledGo(s: State, l: Label, u: string, t: nat)
    requires Enabled(s, l) && l.Go? && Settled(Apply(s, l), u) && !Mods(s, l, u)
    requires ModWorks(s.threads[l.t].pc, l.out)
    requires t in Apply(s, l).threads && Apply(s, l).threads[t].user == u && PastMod(Apply(s, l).threads[t].pc)
    ensures Settled(s, u) && !Happens(GroupsChanged(u), s, l)
  {
    var s' := Apply(s, l);
    PhaseOfMover(s, l, u);
    assert t in s.threads && PastMod(s.threads[t].pc);
    forall x | x in s.threads && s.threads[x].user == u ensures !s.threads[x].pc.FirstMod? {
      assert x in s'.threads;
    }
  }

  /** What a step that is not a usermod on the account does to the account and to its mover's phase. */
  lemma PhaseOfMover(s: State, l: Label, u: string)
    requires Enabled(s, l) && l.Go? && !Mods(s, l, u) && ModWorks(s.threads[l.t].pc, l.out)
    ensures var s' := Apply(s, l);
            && l.t in s'.threads && s'.threads == s.threads[l.t := s'.threads[l.t]]
            && s'.threads[l.t].user == s.threads[l.t].user
            && (Makes(s, l, u) ==> s'.threads[l.t].pc.FirstMod?)
            && (Unmakes(s, l, u) ==> u !in s'.os.accounts)
            && (u in s'.os.accounts ==> u in s.os.accounts || Makes(s, l, u))
            && (s.threads[l.t].user == u && u in s'.os.accounts ==>
                  && !s.threads[l.t].pc.FirstMod?
                  && (PastMod(s'.threads[l.t].pc) ==> PastMod(s.threads[l.t].pc)))
  {
    if Books(s.threads[l.t].pc) { PhaseInBooks(s, l.t, l.out); }
  }

  lemma PhaseInBooks(s: State, t: nat, o: Outcome)
    requires Enabled(s, Go(t, o)) && Books(s.threads[t].pc)
    ensures var s' := Advance(s, t, o);
            && s'.os == s.os && t in s'.threads && s'.threads == s.threads[t := s'.threads[t]]
            && s'.threads[t].user == s.threads[t].user && !PastMod(s'.threads[t].pc)
  {
    BooksAreBookish(s, t, o);
  }

  /** As long as usermod works, the groups of a settled account are those of one of its connections: the
      last one whose usermod found it. */
  lemma {:induction false} SettledGroups(s0: State, ls: seq<Label>, s: State, u: string) returns (groups: seq<string>)
    requires s0.threads == map[] && Exec(s0, ls) == Some(s) && Always(s0, ls, ModWorks) && Settled(s, u)
    ensures InForce(s0, ls, false, GroupsGiven(u, groups), GroupsChanged(u)) && HasGroups(s.os, u, groups)
  {
    if ls == [] {
      groups := [];
    } else {
      var front, l := ls[..|ls| - 1], ls[|ls| - 1];
      var p := Exec(s0, front).value;
      AlwaysPrefix(s0, ls, ModWorks);
      SettledStep(p, l, u);
      if g :| Happens(GroupsGiven(u, g), p, l) {
        groups := g;
      } else {
        groups := SettledGroups(s0, front, p, u);
      }
      InForceStep(s0, ls, false, GroupsGiven(u, groups), GroupsChanged(u));
      GroupsStep(p, l, u, groups);
    }
  }
}
