/** Loading a service's permissions config: rule validation and the username collision check. */
module ConfigLoad {
  import opened HostOs
  import opened Username
  import opened Permissions
  import opened SudoersRules
  import Protocol
  import ProtocolDerived

  datatype Loaded =
    | Config(permissions: map<string, Perms>)
    | BadRule(identity: string)
    | Collisions(pairs: seq<(string, string)>)

  /** No two literal keys derive to one username. */
  ghost predicate Injective(lower: Lower, keys: set<string>) {
    forall a, b | a in keys && b in keys && Literal(a) && Literal(b)
      && Derive(lower, a) == Derive(lower, b) :: a == b
  }

  /** No rule, or a harmless one. */
  ghost predicate RuleOk(p: Perms) {
    p.rule == "" || Admissible(p.rule)
  }

  /** Not a pattern: the key is one identity's name. */
  predicate Literal(key: string) {
    '*' !in key && '?' !in key
  }

  /** Two literal keys that derive to one username. */
  predicate Collide(lower: Lower, wire: map<string, Perms>, a: string, b: string) {
    a in wire && b in wire && a != b && Literal(a) && Literal(b) && Derive(lower, a) == Derive(lower, b)
  }

  /** The key is reported as colliding with an earlier one. */
  predicate Reported(pairs: seq<(string, string)>, key: string) {
    exists i :: 0 <= i < |pairs| && pairs[i].1 == key
  }

  method LoadPermissionsConfig(lower: Lower, wire: map<string, Perms>) returns (r: Loaded)
    ensures r.BadRule? <==> exists k :: k in wire && !RuleOk(wire[k])
    ensures r.BadRule? ==> r.identity in wire && !RuleOk(wire[r.identity])
    ensures r.Config? <==> (forall k | k in wire :: RuleOk(wire[k])) && Injective(lower, wire.Keys)
    ensures r.Config? ==> r.permissions == wire
    ensures r.Collisions? ==> r.pairs != [] && forall p | p in r.pairs :: Collide(lower, wire, p.0, p.1)
    ensures r.Collisions? ==> forall a, b | Collide(lower, wire, a, b) :: Reported(r.pairs, a) || Reported(r.pairs, b)
  {
    var permissions: map<string, Perms> := map[];
    var rest := wire.Keys;
    while rest != {}
      invariant rest <= wire.Keys && permissions.Keys == wire.Keys - rest
      invariant forall k | k in permissions :: permissions[k] == wire[k] && RuleOk(wire[k])
      decreases rest
    {
      var identity :| identity in rest;
      rest := rest - {identity};
      var entry := wire[identity];
      if entry.rule != "" {
        ValidIffAdmissible(entry.rule);
        if !ValidRule(entry.rule) {
          assert !RuleOk(wire[identity]);
          return BadRule(identity);
        }
      }
      permissions := permissions[identity := entry];
    }
    assert permissions == wire;
    var derived: map<string, string> := map[];
    var collisions: seq<(string, string)> := [];
    rest := permissions.Keys;
    while rest != {}
      invariant rest <= permissions.Keys
      invariant forall u | u in derived ::
                  derived[u] in wire && derived[u] !in rest && Literal(derived[u]) && Derive(lower, derived[u]) == u
      invariant forall k | k in wire && k !in rest && Literal(k) :: Derive(lower, k) in derived
      invariant forall p | p in collisions :: Collide(lower, wire, p.0, p.1)
      invariant forall k | k in wire && k !in rest && Literal(k) ::
                  derived[Derive(lower, k)] == k || Reported(collisions, k)
      invariant collisions == [] ==>
                  forall k | k in wire && k !in rest && Literal(k) :: derived[Derive(lower, k)] == k
      decreases rest
    {
      var identity :| identity in rest;
      rest := rest - {identity};
      PatternHasWildcard(identity);
      if IsPattern(identity) {
        continue;
      }
      var uname := DeriveUsername(lower, identity);
      if uname in derived {
        ghost var before := collisions;
        collisions := collisions + [(derived[uname], identity)];
        assert collisions[|before|].1 == identity;
        forall k | Reported(before, k) ensures Reported(collisions, k) {
          var i :| 0 <= i < |before| && before[i].1 == k;
          assert collisions[i].1 == k;
        }
        assert Collide(lower, wire, derived[uname], identity);
      } else {
        derived := derived[uname := identity];
      }
    }
    if |collisions| > 0 {
      assert collisions[0] in collisions;
      return Collisions(collisions);
    }
    return Config(permissions);
  }

  // ---- the check fits the protocol ----

  predicate LiteralKey(keys: set<string>, id: string) {
    id in keys && Literal(id)
  }

  /** After this run, EnsureUser would refuse t, one of the literal keys, for another one of them. */
  ghost predicate Clash(keys: set<string>, cleanup: bool, start: Os, ls: seq<Protocol.Label>, t: nat) {
    var r := Protocol.Exec(Protocol.Init(cleanup, start), ls);
    && r.Some? && t in r.value.threads && r.value.threads[t].pc.Start?
    && Protocol.Admit(r.value, t).threads[t].pc.Rejected?
    && LiteralKey(keys, r.value.threads[t].identity)
    && r.value.threads[t].user in r.value.owners && LiteralKey(keys, r.value.owners[r.value.threads[t].user])
  }

  ghost predicate NeverClash(lower: Lower, keys: set<string>, cleanup: bool, start: Os) {
    forall ls, t | ProtocolDerived.AllDerived(lower, ls) :: !Clash(keys, cleanup, start, ls, t)
  }

  /** Literal keys that derive to different usernames never get in each other's way. */
  lemma LiteralKeysNeverClash(lower: Lower, keys: set<string>, cleanup: bool, start: Os,
                              ls: seq<Protocol.Label>, t: nat)
    requires Injective(lower, keys) && ProtocolDerived.AllDerived(lower, ls)
    ensures !Clash(keys, cleanup, start, ls, t)
  {
    var r := Protocol.Exec(Protocol.Init(cleanup, start), ls);
    if r.Some? { ProtocolDerived.OwnersDerive(lower, cleanup, start, ls, r.value); }
  }

  /** Of two colliding literal keys the second to connect can be refused. */
  lemma CollidingKeysClash(lower: Lower, keys: set<string>, cleanup: bool, start: Os, a: string, b: string)
    returns (ls: seq<Protocol.Label>)
    requires LiteralKey(keys, a) && LiteralKey(keys, b) && a != b && Derive(lower, a) == Derive(lower, b)
    ensures ProtocolDerived.AllDerived(lower, ls) && Clash(keys, cleanup, start, ls, 1)
  {
    DeriveIsNormal(lower, a);
    DeriveIsNormal(lower, b);
    var u := Derive(lower, a);
    var s0 := Protocol.Init(cleanup, start);
    var la, lb := Protocol.Accept(0, a, u, Perms([], "")), Protocol.Accept(1, b, u, Perms([], ""));
    var go := Protocol.Go(0, Protocol.Outcome(true, true, []));
    var s1 := Protocol.Apply(s0, la);
    var s2 := Protocol.Apply(s1, go);
    Protocol.ExecStep(s0, [], s0, la);
    Protocol.ExecStep(s0, [] + [la], s1, go);
    Protocol.ExecStep(s0, [] + [la] + [go], s2, lb);
    ls := [] + [la] + [go] + [lb];
  }

  /** No two of the keys are refused for each other, in any run whatever else it does, if and only if the
      literal ones among them derive to different usernames. */
  lemma CollisionCheckFits(lower: Lower, keys: set<string>, cleanup: bool, start: Os)
    ensures Injective(lower, keys) <==> NeverClash(lower, keys, cleanup, start)
  {
    if Injective(lower, keys) {
      forall ls, t | ProtocolDerived.AllDerived(lower, ls) ensures !Clash(keys, cleanup, start, ls, t) {
        LiteralKeysNeverClash(lower, keys, cleanup, start, ls, t);
      }
    } else {
      var a, b :| a in keys && b in keys && Literal(a) && Literal(b)
                  && Derive(lower, a) == Derive(lower, b) && a != b;
      var ls := CollidingKeysClash(lower, keys, cleanup, start, a, b);
    }
  }

  // ---- several services ----

  /** The keys of all services' configs; they share one user manager. */
  function AllKeys(services: seq<map<string, Perms>>): set<string> {
    set i, k | 0 <= i < |services| && k in services[i] :: k
  }

  /** Two services hold different literal keys that derive to one username. */
  predicate CrossCollision(lower: Lower, services: seq<map<string, Perms>>, i: nat, j: nat, a: string, b: string)
    requires i < |services| && j < |services|
  {
    && i != j && a != b && LiteralKey(services[i].Keys, a) && LiteralKey(services[j].Keys, b)
    && Derive(lower, a) == Derive(lower, b)
  }

  /** Each config is checked when its service is loaded. With every check passed, literal keys of all services
      together never clash if and only if no two services hold colliding ones, which nothing checks. */
  lemma SeparateChecksFitIff(lower: Lower, services: seq<map<string, Perms>>, cleanup: bool, start: Os)
    requires forall c | c in services :: Injective(lower, c.Keys)
    ensures NeverClash(lower, AllKeys(services), cleanup, start) <==>
              forall i, j, a, b | 0 <= i < |services| && 0 <= j < |services| ::
                !CrossCollision(lower, services, i, j, a, b)
  {
    var keys := AllKeys(services);
    CollisionCheckFits(lower, keys, cleanup, start);
    if i, j, a, b :| 0 <= i < |services| && 0 <= j < |services| && CrossCollision(lower, services, i, j, a, b) {
      assert a in keys && b in keys;
      assert !Injective(lower, keys);
    } else {
      forall a, b | a in keys && b in keys && Literal(a) && Literal(b) && Derive(lower, a) == Derive(lower, b)
        ensures a == b
      {
        var i :| 0 <= i < |services| && a in services[i];
        var j :| 0 <= j < |services| && b in services[j];
        assert services[i] in services && services[j] in services;
        assert !CrossCollision(lower, services, i, j, a, b);
      }
    }
  }

  lemma DigitGetsPrefix(lower: Lower)
    requires FixesKept(lower)
    ensures Derive(lower, "1") == Derive(lower, "z1")
  {
    assert CleanAll(lower, "1") == "1" && CleanAll(lower, "z1") == "z1";
    assert "z" + "1" == "z1";
  }

  /** Two services with one identity each, "1" and "z1", both derived to "z1": each config is accepted, and
      the second identity to connect can be refused. */
  lemma SeparateChecksMiss(lower: Lower, cleanup: bool, start: Os, one: map<string, Perms>, two: map<string, Perms>)
    requires FixesKept(lower) && one.Keys == {"1"} && two.Keys == {"z1"}
    ensures Injective(lower, one.Keys) && Injective(lower, two.Keys)
    ensures !NeverClash(lower, AllKeys([one, two]), cleanup, start)
  {
    DigitGetsPrefix(lower);
    DifferentLiterals();
    SecondServiceClashes(lower, cleanup, start, one, two, "1", "z1");
  }

  lemma DifferentLiterals()
    ensures Literal("1") && Literal("z1") && "1" != "z1"
  {
    assert |"1"| != |"z1"|;
  }

  lemma SecondServiceClashes(lower: Lower, cleanup: bool, start: Os, one: map<string, Perms>, two: map<string, Perms>,
                             a: string, b: string)
    requires one.Keys == {a} && two.Keys == {b} && a != b && Literal(a) && Literal(b)
    requires Derive(lower, a) == Derive(lower, b)
    ensures Injective(lower, one.Keys) && Injective(lower, two.Keys)
    ensures !NeverClash(lower, AllKeys([one, two]), cleanup, start)
  {
    var services := [one, two];
    assert services[0] == one && services[1] == two;
    assert a in one && b in two;
    assert CrossCollision(lower, services, 0, 1, a, b);
    SeparateChecksFitIff(lower, services, cleanup, start);
  }
}
