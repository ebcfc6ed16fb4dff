/** Once the daemon stops accepting connections (runProxy draining), every schedule comes to an end, and
    where it cannot go on all connections are finished. */
module ProtocolEnds {
  import opened Options
  import opened HostOs
  import opened Protocol
  import opened ProtocolRuns

  /** The steps that connections with numbers below n still have ahead of them, at most. */
  function Weight(threads: map<nat, Thread>, n: nat): nat {
    if n == 0 then 0
    else (if n - 1 in threads then Ahead(threads[n - 1].pc) else 0) + Weight(threads, n - 1)
  }

  predicate Below(threads: map<nat, Thread>, n: nat) {
    forall t | t in threads :: t < n
  }

  predicate NoAccepts(ls: seq<Label>) {
    forall l | l in ls :: l.Go?
  }

  lemma {:induction false} WeightShrinks(a: map<nat, Thread>, b: map<nat, Thread>, t: nat, n: nat)
    requires t in a && t in b && b == a[t := b[t]] && Ahead(b[t].pc) < Ahead(a[t].pc)
    ensures if t < n then Weight(b, n) < Weight(a, n) else Weight(b, n) == Weight(a, n)
  {
    if n == 0 {
    } else {
      WeightShrinks(a, b, t, n - 1);
    }
  }

  /** A run without new connections is no longer than the weight it started with. */
  lemma {:induction false} RunsAreShort(s: State, ls: seq<Label>, s': State, n: nat)
    requires Exec(s, ls) == Some(s') && NoAccepts(ls) && Below(s.threads, n)
    ensures |ls| + Weight(s'.threads, n) <= Weight(s.threads, n)
    ensures s'.threads.Keys == s.threads.Keys
  {
    if ls == [] {
    } else {
      var front, l := ls[..|ls| - 1], ls[|ls| - 1];
      var p := Exec(s, front).value;
      RunsAreShort(s, front, p, n);
      StepShrinksAhead(p, l.t, l.out);
      WeightShrinks(p.threads, s'.threads, l.t, n);
    }
  }

  lemma {:induction false} ExecTwice(s0: State, a: seq<Label>, s: State, b: seq<Label>, s': State)
    requires Exec(s0, a) == Some(s) && Exec(s, b) == Some(s')
    ensures Exec(s0, a + b) == Some(s')
  {
    if b == [] {
      assert a + b == a;
    } else {
      var front, l := b[..|b| - 1], b[|b| - 1];
      var p := Exec(s, front).value;
      ExecTwice(s0, a, s, front, p);
      ExecStep(s0, a + front, p, l);
      assert a + b == a + front + [l];
    }
  }

  /** Without new connections every schedule stops after a bounded number of steps, and it can only stop
      where all connections are finished - whatever the commands answer. */
  lemma EveryScheduleFinishes(cleanup: bool, start: Os, before: seq<Label>, s: State, ls: seq<Label>, s': State, n: nat)
    requires Exec(Init(cleanup, start), before) == Some(s)
    requires Exec(s, ls) == Some(s') && NoAccepts(ls) && Below(s.threads, n)
    ensures |ls| <= Weight(s.threads, n)
    ensures (forall t, o :: !Enabled(s', Go(t, o))) <==> AllFinished(s')
  {
    RunsAreShort(s, ls, s', n);
    if !AllFinished(s') {
      var t :| t in s'.threads && !Finished(s'.threads[t].pc);
      ExecTwice(Init(cleanup, start), before, s, ls, s');
      var l := DeadlockFree(cleanup, start, before + ls, s', t);
    }
  }
}
