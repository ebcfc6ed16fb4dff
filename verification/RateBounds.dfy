/** How many requests the rate limiter can admit, and whose. */
module RateBounds {
  import opened RateLimit

  /** Admitted calls of one identity in a run. */
  function Admitted(c: Config, evicting: bool, es: map<string, Entry>, evs: seq<Event>, id: string): nat
    decreases |evs|
  {
    if evs == [] then 0
    else
      (if evs[0].Call? && evs[0].id == id && AllowSpec(c, es, id, evs[0].at).1 then 1 else 0)
      + Admitted(c, evicting, Next(c, evicting, es, evs[0]), evs[1..], id)
  }

  predicate Until(evs: seq<Event>, end: real) {
    forall ev | ev in evs :: ev.at <= end
  }

  lemma UntilRest(evs: seq<Event>, end: real)
    requires evs != [] && Until(evs, end)
    ensures evs[0].at <= end && Until(evs[1..], end)
  {
    assert evs[0] in evs;
  }

  lemma LevelGrowth(c: Config, es: map<string, Entry>, id: string, t: real, t': real, end: real)
    requires c.Valid() && EntriesOk(c, es, t) && t <= t' <= end
    ensures Level(c, es, id, t') + Refill(c, end - t') <= Level(c, es, id, t) + Refill(c, end - t)
  {
    LevelLater(c, es, id, t, t');
    RefillSum(c, end - t', t' - t);
    assert (end - t') + (t' - t) == end - t;
  }

  /** Without eviction: whatever tokens there are at the start, plus what the window refills. */
  lemma {:induction false} WindowBound(c: Config, es: map<string, Entry>, evs: seq<Event>, id: string,
                                       start: real, end: real)
    requires c.Valid() && EntriesOk(c, es, start) && start <= end && Timed(start, evs) && Until(evs, end)
    ensures Admitted(c, false, es, evs, id) as real <= Level(c, es, id, start) + Refill(c, end - start)
    decreases |evs|
  {
    LevelLater(c, es, id, start, start);
    RefillMono(c, 0.0, end - start);
    if evs == [] {
    } else {
      var ev := evs[0];
      var now := Max(start, ev.at);
      UntilRest(evs, end);
      NextOk(c, false, es, start, ev);
      LevelGrowth(c, es, id, start, now, end);
      if ev.Call? { CallUsesLevel(c, es, start, ev.id, ev.at); }
      WindowBound(c, Next(c, false, es, ev), evs[1..], id, now, end);
    }
  }

  // With eviction an identity may start over with a full bucket, but only once per TTL.

  /** burst / idleTTL * x: how many tokens fresh buckets can add over a time x. */
  function Renewal(c: Config, x: real): real
    requires c.Valid()
  {
    c.Cap() / c.idleTTL * x
  }

  /** An upper bound on what id can still be admitted until end. An entry not used since the window
      began is charged like no entry at all. */
  function Credit(c: Config, es: map<string, Entry>, id: string, begin: real, now: real, end: real): real
    requires c.Valid()
  {
    if id in es && es[id].lastSeen >= begin then
      Level(c, es, id, now) + Refill(c, end - now) + Renewal(c, end - es[id].lastSeen)
    else
      c.Cap() + Refill(c, end - now) + Renewal(c, end - now)
  }

  lemma RenewalMono(c: Config, x: real, y: real)
    requires c.Valid() && x <= y
    ensures Renewal(c, x) <= Renewal(c, y)
  {
    MulMono(c.Cap() / c.idleTTL, x, y);
  }

  lemma RenewalOfTTL(c: Config, x: real)
    requires c.Valid()
    ensures Renewal(c, x + c.idleTTL) == Renewal(c, x) + c.Cap()
  {
    MulSplit(c.Cap() / c.idleTTL, x, c.idleTTL);
    assert c.Cap() / c.idleTTL * c.idleTTL == c.Cap();
  }

  lemma CreditLater(c: Config, es: map<string, Entry>, id: string, begin: real, t: real, t': real, end: real)
    requires c.Valid() && EntriesOk(c, es, t) && t <= t' <= end
    ensures Credit(c, es, id, begin, t', end) <= Credit(c, es, id, begin, t, end)
  {
    if id in es && es[id].lastSeen >= begin {
      LevelGrowth(c, es, id, t, t', end);
    } else {
      RefillMono(c, end - t', end - t);
      RenewalMono(c, end - t', end - t);
    }
  }

  lemma CreditSwept(c: Config, es: map<string, Entry>, id: string, begin: real, now: real, end: real, at: real)
    requires c.Valid() && EntriesOk(c, es, now) && at <= now <= end
    ensures Credit(c, EvictSpec(c, es, at), id, begin, now, end) <= Credit(c, es, id, begin, now, end)
  {
    if id in es && id !in EvictSpec(c, es, at) && es[id].lastSeen >= begin {
      LevelLater(c, es, id, now, now);
      RenewalOfTTL(c, end - now);
      RenewalMono(c, end - now + c.idleTTL, end - es[id].lastSeen);
    }
  }

  lemma CreditCalled(c: Config, es: map<string, Entry>, id: string, begin: real, clock: real, end: real,
                     caller: string, now: real)
    requires c.Valid() && EntriesOk(c, es, clock) && clock <= now <= end && begin <= clock
    ensures var (es', ok) := AllowSpec(c, es, caller, now);
            Credit(c, es', id, begin, now, end) + (if ok && caller == id then 1.0 else 0.0)
              <= Credit(c, es, id, begin, now, end)
  {
    CallUsesLevel(c, es, clock, caller, now);
    LevelLater(c, es, id, clock, now);
    if caller == id && id in es { RenewalMono(c, end - now, end - es[id].lastSeen); }
  }

  lemma CreditNonNegative(c: Config, es: map<string, Entry>, id: string, begin: real, now: real, end: real)
    requires c.Valid() && EntriesOk(c, es, now) && now <= end
    ensures Credit(c, es, id, begin, now, end) >= 0.0
  {
    LevelLater(c, es, id, now, now);
    RefillMono(c, 0.0, end - now);
    if id in es && es[id].lastSeen >= begin { RenewalMono(c, 0.0, end - es[id].lastSeen); }
    else { RenewalMono(c, 0.0, end - now); }
  }

  /** No event pays out more than it takes from the credit. */
  lemma CreditStep(c: Config, es: map<string, Entry>, ev: Event, id: string, begin: real, now: real, end: real)
    requires c.Valid() && EntriesOk(c, es, now) && begin <= now <= end && ev.at <= end
    requires ev.Call? ==> now <= ev.at
    ensures Credit(c, Next(c, true, es, ev), id, begin, Max(now, ev.at), end)
            + (if ev.Call? && ev.id == id && AllowSpec(c, es, id, ev.at).1 then 1.0 else 0.0)
            <= Credit(c, es, id, begin, now, end)
  {
    CreditLater(c, es, id, begin, now, Max(now, ev.at), end);
    if ev.Call? { CreditCalled(c, es, id, begin, now, end, ev.id, ev.at); }
    else { NextOk(c, false, es, now, ev); CreditSwept(c, es, id, begin, Max(now, ev.at), end, ev.at); }
  }

  lemma {:induction false} CreditBound(c: Config, es: map<string, Entry>, evs: seq<Event>, id: string,
                                       begin: real, now: real, end: real)
    requires c.Valid() && EntriesOk(c, es, now) && begin <= now <= end && Timed(now, evs) && Until(evs, end)
    ensures Admitted(c, true, es, evs, id) as real <= Credit(c, es, id, begin, now, end)
    decreases |evs|
  {
    if evs == [] {
      CreditNonNegative(c, es, id, begin, now, end);
    } else {
      UntilRest(evs, end);
      NextOk(c, true, es, now, evs[0]);
      CreditStep(c, es, evs[0], id, begin, now, end);
      CreditBound(c, Next(c, true, es, evs[0]), evs[1..], id, begin, Max(now, evs[0].at), end);
    }
  }

  lemma RefillIs(c: Config, w: real)
    requires c.Valid()
    ensures Refill(c, w) == c.rps * w && Renewal(c, w) == c.burst as real / c.idleTTL * w
  {
  }

  lemma WindowCredit(c: Config, es: map<string, Entry>, evs: seq<Event>, id: string, begin: real, end: real)
    requires c.Valid() && EntriesOk(c, es, begin) && begin <= end && Timed(begin, evs) && Until(evs, end)
    ensures Admitted(c, false, es, evs, id) as real <= c.burst as real + Refill(c, end - begin)
    ensures Admitted(c, true, es, evs, id) as real <= c.burst as real + Renewal(c, end - begin) + Refill(c, end - begin)
  {
    WindowBound(c, es, evs, id, begin, end);
    LevelLater(c, es, id, begin, begin);
    CreditBound(c, es, evs, id, begin, begin, end);
    CreditAtStart(c, es, id, begin, end);
  }

  /** Any window of length w, without eviction: at most burst + rps * w admissions of one identity. */
  lemma RateBound(c: Config, es: map<string, Entry>, evs: seq<Event>, id: string, begin: real, w: real)
    requires c.Valid() && EntriesOk(c, es, begin) && w >= 0.0 && Timed(begin, evs) && Until(evs, begin + w)
    ensures Admitted(c, false, es, evs, id) as real <= c.burst as real + c.rps * w
  {
    WindowCredit(c, es, evs, id, begin, begin + w);
    assert begin + w - begin == w;
    RefillIs(c, w);
  }

  /** With eviction, whatever the rate and the TTL: at most burst + burst / idleTTL * w + rps * w. */
  lemma RateBoundWithEviction(c: Config, es: map<string, Entry>, evs: seq<Event>, id: string, begin: real, w: real)
    requires c.Valid() && EntriesOk(c, es, begin) && w >= 0.0 && Timed(begin, evs) && Until(evs, begin + w)
    ensures Admitted(c, true, es, evs, id) as real <= c.burst as real + c.burst as real / c.idleTTL * w + c.rps * w
  {
    WindowCredit(c, es, evs, id, begin, begin + w);
    assert begin + w - begin == w;
    RefillIs(c, w);
  }

  lemma CreditAtStart(c: Config, es: map<string, Entry>, id: string, begin: real, end: real)
    requires c.Valid() && EntriesOk(c, es, begin) && begin <= end
    ensures Credit(c, es, id, begin, begin, end) <= c.Cap() + Renewal(c, end - begin) + Refill(c, end - begin)
  {
    LevelLater(c, es, id, begin, begin);
    if id in es && es[id].lastSeen >= begin { assert es[id].lastSeen == begin; }
  }

  // ---- in any window of any run ----

  /** The clock after a run. */
  function Clock(clock: real, evs: seq<Event>): real
    decreases |evs|
  {
    if evs == [] then clock else Clock(Max(clock, evs[0].at), evs[1..])
  }

  lemma {:induction false} RunOk(c: Config, evicting: bool, es: map<string, Entry>, clock: real, evs: seq<Event>)
    requires c.Valid() && EntriesOk(c, es, clock) && Timed(clock, evs)
    ensures EntriesOk(c, Run(c, evicting, es, evs), Clock(clock, evs))
    decreases |evs|
  {
    if evs == [] {
    } else {
      NextOk(c, evicting, es, clock, evs[0]);
      RunOk(c, evicting, Next(c, evicting, es, evs[0]), Max(clock, evs[0].at), evs[1..]);
    }
  }

  /** The limiter starts empty, anything happens, and then a window of length w: whatever went before, one
      identity is admitted at most burst + rps * w times in it without eviction, and at most
      burst + burst * w / idleTTL + rps * w times with eviction. */
  lemma BoundsInEveryWindow(c: Config, before: seq<Event>, window: seq<Event>, id: string, begin: real, w: real)
    requires c.Valid() && w >= 0.0 && Timed(0.0, before) && Clock(0.0, before) <= begin
    requires Timed(begin, window) && Until(window, begin + w)
    ensures Admitted(c, false, Run(c, false, map[], before), window, id) as real <= c.burst as real + c.rps * w
    ensures Admitted(c, true, Run(c, true, map[], before), window, id) as real <=
              c.burst as real + c.burst as real / c.idleTTL * w + c.rps * w
  {
    RunOk(c, false, map[], 0.0, before);
    RunOk(c, true, map[], 0.0, before);
    RateBound(c, Run(c, false, map[], before), window, id, begin, w);
    RateBoundWithEviction(c, Run(c, true, map[], before), window, id, begin, w);
  }

  // ---- independence ----

  function Mine(evs: seq<Event>, id: string): seq<Event> {
    if evs == [] then []
    else (if evs[0].Call? && evs[0].id != id then [] else [evs[0]]) + Mine(evs[1..], id)
  }

  function VerdictsFor(answers: seq<(string, bool)>, id: string): seq<bool> {
    if answers == [] then []
    else (if answers[0].0 == id then [answers[0].1] else []) + VerdictsFor(answers[1..], id)
  }

  predicate Agree(a: map<string, Entry>, b: map<string, Entry>, id: string) {
    (id in a <==> id in b) && (id in a ==> a[id] == b[id])
  }

  /** Leaving out everybody else's calls changes nothing for an identity. */
  lemma {:induction false} OthersDoNotMatter(c: Config, evicting: bool, a: map<string, Entry>, b: map<string, Entry>,
                                             evs: seq<Event>, id: string)
    requires Agree(a, b, id)
    ensures VerdictsFor(Verdicts(c, evicting, a, evs), id) == VerdictsFor(Verdicts(c, evicting, b, Mine(evs, id)), id)
    decreases |evs|
  {
    if evs == [] {
    } else {
      var ev := evs[0];
      var a' := Next(c, evicting, a, ev);
      var rest := Verdicts(c, evicting, a', evs[1..]);
      if ev.Call? && ev.id != id {
        OthersDoNotMatter(c, evicting, a', b, evs[1..], id);
        assert Verdicts(c, evicting, a, evs)[1..] == rest;
        assert Mine(evs, id) == Mine(evs[1..], id);
      } else {
        var b' := Next(c, evicting, b, ev);
        OthersDoNotMatter(c, evicting, a', b', evs[1..], id);
        var mine := Mine(evs, id);
        assert mine[1..] == Mine(evs[1..], id);
        var rest' := Verdicts(c, evicting, b', mine[1..]);
        if ev.Call? {
          assert Verdicts(c, evicting, a, evs)[1..] == rest && Verdicts(c, evicting, b, mine)[1..] == rest';
        } else {
          assert Verdicts(c, evicting, a, evs) == rest && Verdicts(c, evicting, b, mine) == rest';
        }
      }
    }
  }
}
