/** Exactly which calls a limiter that never evicts admits, said without buckets: a call is admitted if and
    only if, counted from each earlier admission of its identity, the admissions up to and including it fit
    into burst plus rate times elapsed time. */
module RateExact {
  import opened RateLimit
  import opened RateBounds

  /** The admissions of one identity that one event makes, as their times. */
  function TimesOf(c: Config, es: map<string, Entry>, ev: Event, id: string): seq<real> {
    if ev.Call? && ev.id == id && AllowSpec(c, es, id, ev.at).1 then [ev.at] else []
  }

  /** When an identity is admitted in a run. */
  function Times(c: Config, evicting: bool, es: map<string, Entry>, evs: seq<Event>, id: string): seq<real>
    decreases |evs|
  {
    if evs == [] then []
    else TimesOf(c, es, evs[0], id) + Times(c, evicting, Next(c, evicting, es, evs[0]), evs[1..], id)
  }

  /** A call at now fits on top of the admissions at the times h. */
  predicate Fits(c: Config, h: seq<real>, now: real) {
    forall j | 0 <= j < |h| :: FitsSince(c, h, j, now)
  }

  predicate FitsSince(c: Config, h: seq<real>, j: nat, now: real)
    requires j < |h|
  {
    (|h| - j + 1) as real <= c.burst as real + c.rps * (now - h[j])
  }

  /** What is left at now of the allowance counted from the j-th admission. */
  function Left(c: Config, h: seq<real>, j: nat, now: real): real
    requires j < |h|
  {
    c.burst as real + c.rps * (now - h[j]) - (|h| - j) as real
  }

  /** a is the least allowance left. */
  predicate LeastLeft(c: Config, h: seq<real>, now: real, a: real) {
    && a <= c.burst as real
    && (forall j | 0 <= j < |h| :: a <= Left(c, h, j, now))
    && (a == c.burst as real || exists j :: 0 <= j < |h| && a == Left(c, h, j, now))
  }

  lemma LeftLater(c: Config, h: seq<real>, j: nat, t: real, t': real)
    requires j < |h|
    ensures Left(c, h, j, t') == Left(c, h, j, t) + c.rps * (t' - t)
  {
    MulSplit(c.rps, t - h[j], t' - t);
    assert (t - h[j]) + (t' - t) == t' - h[j];
  }

  /** Waiting adds rate times time, up to burst. */
  lemma LeastLeftLater(c: Config, h: seq<real>, t: real, t': real, a: real, a': real)
    requires c.Valid() && LeastLeft(c, h, t, a) && t <= t'
    requires a' == if c.burst as real <= a + c.rps * (t' - t) then c.burst as real else a + c.rps * (t' - t)
    ensures LeastLeft(c, h, t', a')
  {
    MulMono(c.rps, 0.0, t' - t);
    forall j | 0 <= j < |h| ensures Left(c, h, j, t') == Left(c, h, j, t) + c.rps * (t' - t) {
      LeftLater(c, h, j, t, t');
    }
    if a != c.burst as real && a' != c.burst as real {
      var j :| 0 <= j < |h| && a == Left(c, h, j, t);
      assert a' == Left(c, h, j, t');
    }
  }

  lemma LeftAdmitted(c: Config, h: seq<real>, j: nat, now: real)
    requires j < |h|
    ensures Left(c, h + [now], j, now) == Left(c, h, j, now) - 1.0
  {
    var h' := h + [now];
    var used := (|h| - j) as real;
    assert (|h'| - j) as real == used + 1.0;
    var gained := c.rps * (now - h[j]);
    assert c.rps * (now - h'[j]) == gained;
    assert Left(c, h, j, now) == c.burst as real + gained - used;
    assert Left(c, h', j, now) == c.burst as real + gained - (used + 1.0);
  }

  /** An admission takes one from every allowance, its own included. */
  lemma LeastLeftAdmitted(c: Config, h: seq<real>, now: real, a: real)
    requires LeastLeft(c, h, now, a)
    ensures LeastLeft(c, h + [now], now, a - 1.0)
  {
    var h' := h + [now];
    forall j | 0 <= j < |h| ensures Left(c, h', j, now) == Left(c, h, j, now) - 1.0 {
      LeftAdmitted(c, h, j, now);
    }
    assert Left(c, h', |h|, now) == c.burst as real - 1.0;
    if a != c.burst as real {
      var j :| 0 <= j < |h| && a == Left(c, h, j, now);
      assert a - 1.0 == Left(c, h', j, now);
    }
  }

  lemma LeastLeftDecides(c: Config, h: seq<real>, now: real, a: real)
    requires c.Valid() && LeastLeft(c, h, now, a)
    ensures a >= 1.0 <==> Fits(c, h, now)
  {
    forall j | 0 <= j < |h| ensures FitsSince(c, h, j, now) <==> Left(c, h, j, now) >= 1.0 { }
    if a < 1.0 && a != c.burst as real {
      var j :| 0 <= j < |h| && a == Left(c, h, j, now);
      assert !FitsSince(c, h, j, now);
    }
  }

  /** What a wait makes of an identity's level, and of the least allowance with it. */
  lemma LevelWaits(c: Config, es: map<string, Entry>, id: string, t: real, now: real)
    requires c.Valid() && EntriesOk(c, es, t) && t <= now
    ensures var a, b := Level(c, es, id, t), c.burst as real;
            Level(c, es, id, now) == if b <= a + c.rps * (now - t) then b else a + c.rps * (now - t)
  {
    LevelLater(c, es, id, t, now);
    assert Refill(c, now - t) == c.rps * (now - t);
  }

  lemma LeastLeftWaits(c: Config, es: map<string, Entry>, id: string, t: real, now: real, h: seq<real>)
    requires c.Valid() && EntriesOk(c, es, t) && t <= now && LeastLeft(c, h, t, Level(c, es, id, t))
    ensures EntriesOk(c, es, now) && LeastLeft(c, h, now, Level(c, es, id, now))
  {
    LevelWaits(c, es, id, t, now);
    LeastLeftLater(c, h, t, now, Level(c, es, id, t), Level(c, es, id, now));
  }

  /** Without eviction, or with a TTL that refills a bucket. */
  predicate Seamless(c: Config, evicting: bool) {
    evicting ==> c.rps * c.idleTTL >= c.burst as real
  }

  lemma EventKeepsLeastLeft(c: Config, evicting: bool, es: map<string, Entry>, ev: Event, id: string, t: real,
                            h: seq<real>)
    requires c.Valid() && Seamless(c, evicting) && EntriesOk(c, es, t) && LeastLeft(c, h, t, Level(c, es, id, t))
    requires if ev.Call? then ev.at == t else ev.at <= t
    ensures var es' := Next(c, evicting, es, ev);
            EntriesOk(c, es', t) && LeastLeft(c, h + TimesOf(c, es, ev, id), t, Level(c, es', id, t))
  {
    NextOk(c, evicting, es, t, ev);
    assert h + [] == h;
    if ev.Call? {
      CallUsesLevel(c, es, t, ev.id, t);
      LeastLeftAdmitted(c, h, t, Level(c, es, id, t));
    } else if evicting {
      EvictionKeepsLevels(c, es, t, ev.at);
    }
  }

  /** An identity's level is the least allowance left, all along a run. */
  lemma {:induction false} LevelIsLeastLeft(c: Config, evicting: bool, es: map<string, Entry>, h: seq<real>,
                                            clock: real, evs: seq<Event>, id: string)
    requires c.Valid() && Seamless(c, evicting) && EntriesOk(c, es, clock)
    requires LeastLeft(c, h, clock, Level(c, es, id, clock)) && Timed(clock, evs)
    ensures var es', t := Run(c, evicting, es, evs), Clock(clock, evs);
            EntriesOk(c, es', t) && LeastLeft(c, h + Times(c, evicting, es, evs, id), t, Level(c, es', id, t))
    decreases |evs|
  {
    if evs == [] {
      assert h + [] == h;
    } else {
      var ev, t := evs[0], Max(clock, evs[0].at);
      var es', times := Next(c, evicting, es, ev), TimesOf(c, es, ev, id);
      LeastLeftWaits(c, es, id, clock, t, h);
      EventKeepsLeastLeft(c, evicting, es, ev, id, t, h);
      LevelIsLeastLeft(c, evicting, es', h + times, t, evs[1..], id);
      assert h + (times + Times(c, evicting, es', evs[1..], id)) == h + times + Times(c, evicting, es', evs[1..], id);
    }
  }

  /** After any run of calls and sweeps, without eviction or with a TTL that refills a bucket, a call is
      admitted if and only if, since each earlier admission of its identity, there have been no more
      admissions than burst plus rps times the time since allows, this one included. */
  lemma AllowsExactly(c: Config, evicting: bool, before: seq<Event>, id: string, now: real)
    requires c.Valid() && Seamless(c, evicting) && Timed(0.0, before) && Clock(0.0, before) <= now
    ensures AllowSpec(c, Run(c, evicting, map[], before), id, now).1 <==>
              Fits(c, Times(c, evicting, map[], before, id), now)
  {
    var es, h := Run(c, evicting, map[], before), Times(c, evicting, map[], before, id);
    var t := Clock(0.0, before);
    LevelIsLeastLeft(c, evicting, map[], [], 0.0, before, id);
    assert [] + h == h;
    LeastLeftWaits(c, es, id, t, now, h);
    LeastLeftDecides(c, h, now, Level(c, es, id, now));
    CallUsesLevel(c, es, t, id, now);
  }

  /** In particular, for an identity with tokens a at t: what it has at a later call is a plus rps times the
      wait, at most burst, and it is admitted exactly with one token or more, which it gives up. */
  lemma WaitRefills(c: Config, es: map<string, Entry>, id: string, t: real, now: real)
    requires c.Valid() && EntriesOk(c, es, t) && t <= now
    ensures var a, b := Level(c, es, id, t), c.burst as real;
            var have := if b <= a + c.rps * (now - t) then b else a + c.rps * (now - t);
            var (es', ok) := AllowSpec(c, es, id, now);
            && (id !in es ==> a == b)
            && (ok <==> have >= 1.0)
            && Level(c, es', id, now) == (if ok then have - 1.0 else have)
  {
    LevelWaits(c, es, id, t, now);
    CallUsesLevel(c, es, t, id, now);
  }
}
