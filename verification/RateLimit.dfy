/** The per-identity rate limiter: a map of token buckets from which idle entries are evicted. Time and
    tokens are reals; every operation is given one reading of a monotone clock. */
module RateLimit {

  /** Token bucket of golang.org/x/time/rate: tokens as of the time of the last admission. */
  datatype Bucket = Bucket(tokens: real, last: real)

  datatype Entry = Entry(bucket: Bucket, lastSeen: real)

  datatype Config = Config(rps: real, burst: int, idleTTL: real) {
    predicate Valid() {
      rps > 0.0 && burst >= 1 && idleTTL > 0.0
    }

    function Cap(): real {
      burst as real
    }
  }

  function Min(a: real, b: real): real {
    if a <= b then a else b
  }

  function Max(a: real, b: real): real {
    if a <= b then b else a
  }

  /** Tokens that flow in over a time. */
  function Refill(c: Config, time: real): real {
    c.rps * time
  }

  /** Tokens in the bucket at a time: refilled at rps per second, never above burst. */
  function Available(c: Config, b: Bucket, now: real): real {
    Min(c.Cap(), b.tokens + Refill(c, if now < b.last then 0.0 else now - b.last))
  }

  /** A new limiter starts full. */
  function Fresh(c: Config, now: real): Bucket {
    Bucket(c.Cap(), now)
  }

  /** rate.Limiter.Allow: take one token if there is one; a refusal changes nothing. */
  function TakeToken(c: Config, b: Bucket, now: real): (Bucket, bool) {
    var a := Available(c, b, now);
    if a >= 1.0 then (Bucket(a - 1.0, now), true) else (b, false)
  }

  function AllowSpec(c: Config, es: map<string, Entry>, id: string, now: real): (map<string, Entry>, bool) {
    var b := if id in es then es[id].bucket else Fresh(c, now);
    var (b', ok) := TakeToken(c, b, now);
    (es[id := Entry(b', now)], ok)
  }

  function EvictSpec(c: Config, es: map<string, Entry>, now: real): map<string, Entry> {
    map id | id in es && es[id].lastSeen >= now - c.idleTTL :: es[id]
  }

  class Map {
    var entries: map<string, Entry>
    const config: Config

    constructor (rps: real, burst: int, idleTTL: real)
      ensures entries == map[] && config == Config(rps, burst, idleTTL)
    {
      entries := map[];
      config := Config(rps, burst, idleTTL);
    }

    method Allow(identity: string, now: real) returns (allowed: bool)
      modifies this
      ensures (entries, allowed) == AllowSpec(config, old(entries), identity, now)
      ensures identity in entries && entries[identity].lastSeen == now && entries.Keys == old(entries).Keys + {identity}
      ensures forall id | id in old(entries) && id != identity :: entries[id] == old(entries)[id]
    {
      if identity !in entries {
        entries := entries[identity := Entry(Fresh(config, now), now)];
      }
      var e := entries[identity];
      var (bucket, ok) := TakeToken(config, e.bucket, now);
      entries := entries[identity := Entry(bucket, now)];
      assert entries == old(entries)[identity := Entry(bucket, now)];
      allowed := ok;
    }

    /** One sweep, deleting while iterating in whatever order the map yields its keys. */
    method Evict(now: real)
      modifies this
      ensures entries == EvictSpec(config, old(entries), now)
      ensures forall id :: id in entries <==> id in old(entries) && now - old(entries)[id].lastSeen <= config.idleTTL
      ensures forall id | id in entries :: entries[id] == old(entries)[id]
    {
      var cutoff := now - config.idleTTL;
      var rest := entries.Keys;
      while rest != {}
        invariant rest <= entries.Keys <= old(entries).Keys
        invariant forall id | id in entries :: entries[id] == old(entries)[id]
        invariant forall id | id in old(entries) ::
                    id in entries <==> id in rest || old(entries)[id].lastSeen >= cutoff
        decreases rest
      {
        var id :| id in rest;
        rest := rest - {id};
        if entries[id].lastSeen < cutoff {
          entries := entries - {id};
        }
      }
    }
  }

  // ---- runs ----

  /** A sweep carries the time its goroutine read before taking the lock, which may lie in the past. */
  datatype Event = Call(id: string, at: real) | Sweep(at: real)

  /** The clock never runs backwards between calls. */
  predicate Timed(clock: real, evs: seq<Event>)
    decreases |evs|
  {
    evs != [] ==>
      && (evs[0].Call? ==> evs[0].at >= clock)
      && Timed(Max(clock, evs[0].at), evs[1..])
  }

  /** One event; without evicting, sweeps do nothing. */
  function Next(c: Config, evicting: bool, es: map<string, Entry>, ev: Event): map<string, Entry> {
    match ev
    case Call(id, at) => AllowSpec(c, es, id, at).0
    case Sweep(at) => if evicting then EvictSpec(c, es, at) else es
  }

  function Verdict(c: Config, es: map<string, Entry>, ev: Event): seq<(string, bool)> {
    match ev
    case Call(id, at) => [(id, AllowSpec(c, es, id, at).1)]
    case Sweep(_) => []
  }

  /** What the callers of a run are told, in order. */
  function Verdicts(c: Config, evicting: bool, es: map<string, Entry>, evs: seq<Event>): seq<(string, bool)>
    decreases |evs|
  {
    if evs == [] then []
    else Verdict(c, es, evs[0]) + Verdicts(c, evicting, Next(c, evicting, es, evs[0]), evs[1..])
  }

  // ---- levels ----

  /** Tokens an identity has at a time; one without an entry would get a full bucket. */
  function Level(c: Config, es: map<string, Entry>, id: string, now: real): real {
    if id in es then Available(c, es[id].bucket, now) else c.Cap()
  }

  predicate EntryOk(c: Config, e: Entry, clock: real) {
    0.0 <= e.bucket.tokens <= c.Cap() && e.bucket.last <= e.lastSeen <= clock
  }

  predicate EntriesOk(c: Config, es: map<string, Entry>, clock: real) {
    forall id | id in es :: EntryOk(c, es[id], clock)
  }

  lemma MulMono(a: real, x: real, y: real)
    requires a >= 0.0 && x <= y
    ensures a * x <= a * y
  {
    assert a * (y - x) >= 0.0;
  }

  lemma MulSplit(a: real, x: real, y: real)
    ensures a * (x + y) == a * x + a * y
  {
  }

  lemma RefillMono(c: Config, x: real, y: real)
    requires c.Valid() && x <= y
    ensures Refill(c, x) <= Refill(c, y) && Refill(c, 0.0) == 0.0
  {
    MulMono(c.rps, x, y);
  }

  lemma RefillSum(c: Config, x: real, y: real)
    ensures Refill(c, x + y) == Refill(c, x) + Refill(c, y)
  {
    MulSplit(c.rps, x, y);
  }

  lemma AvailableBounds(c: Config, e: Entry, clock: real, now: real)
    requires c.Valid() && EntryOk(c, e, clock) && clock <= now
    ensures 0.0 <= Available(c, e.bucket, now) <= c.Cap()
  {
    RefillMono(c, 0.0, now - e.bucket.last);
  }

  /** Waiting refills at rate rps up to the cap, however the wait is divided. */
  lemma AvailableLater(c: Config, b: Bucket, t: real, t': real)
    requires c.Valid() && b.last <= t <= t'
    ensures Available(c, b, t') == Min(c.Cap(), Available(c, b, t) + Refill(c, t' - t))
  {
    RefillSum(c, t - b.last, t' - t);
    assert (t - b.last) + (t' - t) == t' - b.last;
    RefillMono(c, 0.0, t' - t);
  }

  lemma LevelLater(c: Config, es: map<string, Entry>, id: string, t: real, t': real)
    requires c.Valid() && EntriesOk(c, es, t) && t <= t'
    ensures Level(c, es, id, t') == Min(c.Cap(), Level(c, es, id, t) + Refill(c, t' - t))
    ensures 0.0 <= Level(c, es, id, t') <= c.Cap()
  {
    RefillMono(c, 0.0, t' - t);
    if id in es {
      AvailableLater(c, es[id].bucket, t, t');
      AvailableBounds(c, es[id], t, t');
    }
  }

  lemma NextOk(c: Config, evicting: bool, es: map<string, Entry>, clock: real, ev: Event)
    requires c.Valid() && EntriesOk(c, es, clock) && (ev.Call? ==> ev.at >= clock)
    ensures EntriesOk(c, Next(c, evicting, es, ev), Max(clock, ev.at))
  {
    if ev.Call? && ev.id in es {
      AvailableBounds(c, es[ev.id], clock, ev.at);
    }
  }

  /** A call is answered by its level, and takes one token from it when admitted. */
  lemma CallUsesLevel(c: Config, es: map<string, Entry>, clock: real, id: string, now: real)
    requires c.Valid() && EntriesOk(c, es, clock) && clock <= now
    ensures var (es', ok) := AllowSpec(c, es, id, now);
            && ok == (Level(c, es, id, now) >= 1.0)
            && Level(c, es', id, now) == Level(c, es, id, now) - (if ok then 1.0 else 0.0)
            && forall other | other != id :: Level(c, es', other, now) == Level(c, es, other, now)
  {
    LevelLater(c, es, id, clock, now);
    var b := if id in es then es[id].bucket else Fresh(c, now);
    assert Available(c, b, now) == Level(c, es, id, now);
  }

  // ---- eviction cannot be noticed ----

  ghost predicate SameLevels(c: Config, e: map<string, Entry>, n: map<string, Entry>, clock: real) {
    forall id :: Level(c, e, id, clock) == Level(c, n, id, clock)
  }

  lemma SameLevelsLater(c: Config, e: map<string, Entry>, n: map<string, Entry>, t: real, t': real)
    requires c.Valid() && EntriesOk(c, e, t) && EntriesOk(c, n, t) && t <= t' && SameLevels(c, e, n, t)
    ensures SameLevels(c, e, n, t')
  {
    forall id ensures Level(c, e, id, t') == Level(c, n, id, t') {
      LevelLater(c, e, id, t, t');
      LevelLater(c, n, id, t, t');
    }
  }

  /** An entry idle for longer than the TTL has a full bucket, if a TTL refills one. */
  lemma EvictionKeepsLevels(c: Config, es: map<string, Entry>, clock: real, at: real)
    requires c.Valid() && c.rps * c.idleTTL >= c.burst as real && EntriesOk(c, es, clock) && at <= clock
    ensures SameLevels(c, EvictSpec(c, es, at), es, clock)
  {
    forall id ensures Level(c, EvictSpec(c, es, at), id, clock) == Level(c, es, id, clock) {
      if id in es && id !in EvictSpec(c, es, at) {
        RefillMono(c, c.idleTTL, clock - es[id].bucket.last);
      }
    }
  }

  lemma {:induction false} SameLevelsSameVerdicts(c: Config, e: map<string, Entry>, n: map<string, Entry>,
                                                 clock: real, evs: seq<Event>)
    requires c.Valid() && c.rps * c.idleTTL >= c.burst as real
    requires EntriesOk(c, e, clock) && EntriesOk(c, n, clock) && SameLevels(c, e, n, clock) && Timed(clock, evs)
    ensures Verdicts(c, true, e, evs) == Verdicts(c, false, n, evs)
    decreases |evs|
  {
    if evs == [] {
    } else {
      var ev := evs[0];
      var clock' := Max(clock, ev.at);
      var e', n' := Next(c, true, e, ev), Next(c, false, n, ev);
      NextOk(c, true, e, clock, ev);
      NextOk(c, false, n, clock, ev);
      SameLevelsLater(c, e, n, clock, clock');
      if ev.Call? {
        CallUsesLevel(c, e, clock, ev.id, ev.at);
        CallUsesLevel(c, n, clock, ev.id, ev.at);
        forall id ensures Level(c, e', id, clock') == Level(c, n', id, clock') {
          assert Level(c, e, id, clock') == Level(c, n, id, clock');
        }
      } else {
        EvictionKeepsLevels(c, e, clock', ev.at);
      }
      SameLevelsSameVerdicts(c, e', n', clock', evs[1..]);
    }
  }

  // ---- and when it can ----

  function Calls(id: string, at: real, n: nat): seq<Event> {
    if n == 0 then [] else [Call(id, at)] + Calls(id, at, n - 1)
  }

  predicate AllTrue(answers: seq<(string, bool)>) {
    forall a | a in answers :: a.1
  }

  /** n calls at one instant are all admitted exactly when there are n tokens, and then take them. */
  lemma {:induction false} BurstNeedsTokens(c: Config, evicting: bool, es: map<string, Entry>, clock: real,
                                            id: string, at: real, n: nat)
    requires c.Valid() && EntriesOk(c, es, clock) && clock <= at
    ensures n > 0 ==> (AllTrue(Verdicts(c, evicting, es, Calls(id, at, n))) <==> Level(c, es, id, at) >= n as real)
    decreases n
  {
    if n == 0 {
    } else {
      var evs := Calls(id, at, n);
      var es' := Next(c, evicting, es, evs[0]);
      NextOk(c, evicting, es, clock, evs[0]);
      CallUsesLevel(c, es, clock, id, at);
      assert evs[1..] == Calls(id, at, n - 1);
      var rest := Verdicts(c, evicting, es', evs[1..]);
      var head := Verdict(c, es, evs[0]);
      BurstNeedsTokens(c, evicting, es', at, id, at, n - 1);
      LevelLater(c, es', id, at, at);
      assert AllTrue(head + rest) <==> AllTrue(head) && AllTrue(rest) by {
        forall a ensures a in head + rest <==> a in head || a in rest { }
      }
      assert AllTrue(head) <==> head[0].1;
    }
  }

  lemma {:induction false} CallsAreTimed(clock: real, id: string, at: real, n: nat)
    requires clock <= at
    ensures Timed(clock, Calls(id, at, n))
    decreases n
  {
    if n == 0 {
    } else {
      CallsAreTimed(at, id, at, n - 1);
    }
  }

  function Run(c: Config, evicting: bool, es: map<string, Entry>, evs: seq<Event>): map<string, Entry>
    decreases |evs|
  {
    if evs == [] then es else Run(c, evicting, Next(c, evicting, es, evs[0]), evs[1..])
  }

  lemma {:induction false} VerdictsSplit(c: Config, evicting: bool, es: map<string, Entry>,
                                         a: seq<Event>, b: seq<Event>)
    ensures Verdicts(c, evicting, es, a + b) ==
              Verdicts(c, evicting, es, a) + Verdicts(c, evicting, Run(c, evicting, es, a), b)
    decreases |a|
  {
    if a == [] {
      assert a + b == b;
    } else {
      assert (a + b)[1..] == a[1..] + b;
      VerdictsSplit(c, evicting, Next(c, evicting, es, a[0]), a[1..], b);
    }
  }

  /** n calls on n tokens leave none, in an entry last seen at that instant. */
  lemma {:induction false} BurstDrains(c: Config, evicting: bool, es: map<string, Entry>, clock: real,
                                       id: string, at: real, n: nat)
    requires c.Valid() && EntriesOk(c, es, clock) && clock <= at && Level(c, es, id, at) == n as real
    requires n == 0 ==> id in es && es[id].lastSeen == at
    ensures var es' := Run(c, evicting, es, Calls(id, at, n));
            EntriesOk(c, es', at) && id in es' && es'[id].lastSeen == at && Level(c, es', id, at) == 0.0
    decreases n
  {
    if n == 0 {
    } else {
      var evs := Calls(id, at, n);
      NextOk(c, evicting, es, clock, evs[0]);
      CallUsesLevel(c, es, clock, id, at);
      assert evs[1..] == Calls(id, at, n - 1);
      BurstDrains(c, evicting, Next(c, evicting, es, evs[0]), at, id, at, n - 1);
    }
  }

  /** A sweep that finds the entry still fresh leaves it alone. */
  lemma HarmlessSweep(c: Config, es: map<string, Entry>, clock: real, id: string, at: real)
    requires EntriesOk(c, es, clock) && id in es && es[id].lastSeen >= at - c.idleTTL
    ensures var es' := EvictSpec(c, es, at);
            EntriesOk(c, es', clock) && id in es' && es'[id] == es[id]
  {
  }

  /** A drained entry, a sweep later than the TTL but too early for a refill, and a full burst: with
      eviction all of it is admitted, without eviction not. */
  lemma DrainedTailsDiffer(c: Config, e: map<string, Entry>, n: map<string, Entry>, id: string,
                           drained: real, late: real)
    requires c.Valid() && EntriesOk(c, e, drained) && EntriesOk(c, n, drained)
    requires drained + c.idleTTL < late && Refill(c, late - drained) < c.Cap()
    requires id in e && e[id].lastSeen == drained && Level(c, n, id, drained) == 0.0
    ensures var tail := [Sweep(late)] + Calls(id, late, c.burst);
            Verdicts(c, true, e, tail) != Verdicts(c, false, n, tail)
  {
    var again := Calls(id, late, c.burst);
    var tail := [Sweep(late)] + again;
    var e' := EvictSpec(c, e, late);
    assert id !in e' && EntriesOk(c, e', late);
    LevelLater(c, n, id, drained, late);
    BurstNeedsTokens(c, true, e', late, id, late, c.burst);
    BurstNeedsTokens(c, false, n, drained, id, late, c.burst);
    assert tail[1..] == again;
    assert Verdicts(c, true, e, tail) == Verdicts(c, true, e', again);
    assert Verdicts(c, false, n, tail) == Verdicts(c, false, n, again);
  }

  /** Two earlier sweeps make no difference. */
  lemma SweptTailsDiffer(c: Config, e: map<string, Entry>, n: map<string, Entry>, id: string, drained: real, tick: real)
    requires c.Valid() && EntriesOk(c, e, drained) && EntriesOk(c, n, drained) && tick == c.idleTTL / 2.0
    requires 0.0 <= drained < tick && Refill(c, 3.0 * tick - drained) < c.Cap()
    requires id in e && e[id].lastSeen == drained && Level(c, n, id, drained) == 0.0
    ensures Verdicts(c, true, e, TickedTail(c, id, tick)) != Verdicts(c, false, n, TickedTail(c, id, tick))
  {
    var tail := [Sweep(3.0 * tick)] + Calls(id, 3.0 * tick, c.burst);
    var e1 := EvictSpec(c, e, tick);
    var e2 := EvictSpec(c, e1, 2.0 * tick);
    HarmlessSweep(c, e, drained, id, tick);
    HarmlessSweep(c, e1, drained, id, 2.0 * tick);
    DrainedTailsDiffer(c, e2, n, id, drained, 3.0 * tick);
    var evs := TickedTail(c, id, tick);
    assert evs[1..] == [Sweep(2.0 * tick)] + tail && evs[1..][1..] == tail;
    assert Verdicts(c, true, e, evs) == Verdicts(c, true, e1, evs[1..]) == Verdicts(c, true, e2, tail);
    assert Verdicts(c, false, n, evs) == Verdicts(c, false, n, evs[1..]) == Verdicts(c, false, n, tail);
  }

  function TickedTail(c: Config, id: string, tick: real): seq<Event>
    requires c.burst >= 0
  {
    [Sweep(tick)] + ([Sweep(2.0 * tick)] + ([Sweep(3.0 * tick)] + Calls(id, 3.0 * tick, c.burst)))
  }

  /** The sweeps of a run are those of the ticker: every half TTL, none left out, from the given tick on;
      calls come at any time between them. */
  predicate Ticking(c: Config, tick: nat, evs: seq<Event>)
    decreases |evs|
  {
    var next := tick as real * (c.idleTTL / 2.0);
    evs != [] ==>
      match evs[0]
      case Call(_, at) => at <= next && Ticking(c, tick, evs[1..])
      case Sweep(at) => at == next && Ticking(c, tick + 1, evs[1..])
  }

  /** If one TTL does not refill a bucket, some run under the ticker tells the callers about an eviction: a
      burst shortly before half a TTL less than the third tick, and another at that tick. */
  lemma EvictionNoticed(c: Config) returns (evs: seq<Event>)
    requires c.Valid() && c.rps * c.idleTTL < c.burst as real
    ensures Timed(0.0, evs) && Ticking(c, 1, evs)
    ensures Verdicts(c, true, map[], evs) != Verdicts(c, false, map[], evs)
  {
    var id := "x";
    var tick := c.idleTTL / 2.0;
    var drained := DrainTime(c);
    var drain, tail := Calls(id, drained, c.burst), TickedTail(c, id, tick);
    evs := drain + tail;
    BurstDrains(c, true, map[], 0.0, id, drained, c.burst);
    BurstDrains(c, false, map[], 0.0, id, drained, c.burst);
    SweptTailsDiffer(c, Run(c, true, map[], drain), Run(c, false, map[], drain), id, drained, tick);
    VerdictsSplit(c, true, map[], drain, tail);
    VerdictsSplit(c, false, map[], drain, tail);
    SameLength(c, map[], map[], drain);
    DifferentTails(Verdicts(c, true, map[], drain), Verdicts(c, true, Run(c, true, map[], drain), tail),
                   Verdicts(c, false, map[], drain), Verdicts(c, false, Run(c, false, map[], drain), tail));
    TimedDrain(c, id, 0.0, drained, tick, c.burst);
    TickingDrain(c, id, drained, tick, c.burst);
  }

  lemma DifferentTails<T>(a: seq<T>, b: seq<T>, a': seq<T>, b': seq<T>)
    requires |a| == |a'| && b != b'
    ensures a + b != a' + b'
  {
    assert (a + b)[|a|..] == b && (a' + b')[|a|..] == b';
  }

  /** When to drain the bucket: more than a TTL before the third tick, but too late for a refill by then. */
  lemma DrainTime(c: Config) returns (drained: real)
    requires c.Valid() && c.rps * c.idleTTL < c.burst as real
    ensures 0.0 <= drained < c.idleTTL / 2.0
    ensures Refill(c, 3.0 * (c.idleTTL / 2.0) - drained) < c.Cap()
  {
    var gap := c.Cap() - Refill(c, c.idleTTL);
    var extra := gap / (2.0 * c.rps);
    assert extra * (2.0 * c.rps) == gap;
    assert Refill(c, extra) == gap / 2.0;
    assert extra > 0.0;
    var x := Min(extra, c.idleTTL / 2.0);
    drained := c.idleTTL / 2.0 - x;
    assert 3.0 * (c.idleTTL / 2.0) - drained == c.idleTTL + x;
    RefillSum(c, c.idleTTL, x);
    RefillMono(c, x, extra);
  }

  /** Both runs answer the same calls, so they give answers of the same length. */
  lemma {:induction false} SameLength(c: Config, e: map<string, Entry>, n: map<string, Entry>, evs: seq<Event>)
    ensures |Verdicts(c, true, e, evs)| == |Verdicts(c, false, n, evs)|
    decreases |evs|
  {
    if evs == [] {
    } else {
      SameLength(c, Next(c, true, e, evs[0]), Next(c, false, n, evs[0]), evs[1..]);
    }
  }

  lemma {:induction false} TimedDrain(c: Config, id: string, clock: real, drained: real, tick: real, n: nat)
    requires 0.0 <= clock <= drained < tick && c.burst >= 0
    ensures Timed(clock, Calls(id, drained, n) + TickedTail(c, id, tick))
    decreases n
  {
    var tail := TickedTail(c, id, tick);
    var evs := Calls(id, drained, n) + tail;
    if n == 0 {
      var again := Calls(id, 3.0 * tick, c.burst);
      CallsAreTimed(3.0 * tick, id, 3.0 * tick, c.burst);
      assert evs == tail && tail[1..][1..][1..] == again;
      assert tail[1..] == [Sweep(2.0 * tick)] + ([Sweep(3.0 * tick)] + again);
      assert tail[1..][1..] == [Sweep(3.0 * tick)] + again;
    } else {
      assert evs[1..] == Calls(id, drained, n - 1) + tail;
      TimedDrain(c, id, drained, drained, tick, n - 1);
    }
  }

  lemma {:induction false} TickingCalls(c: Config, tick: nat, id: string, at: real, n: nat)
    requires at <= tick as real * (c.idleTTL / 2.0)
    ensures Ticking(c, tick, Calls(id, at, n))
    decreases n
  {
    if n == 0 {
    } else {
      assert Calls(id, at, n)[1..] == Calls(id, at, n - 1);
      TickingCalls(c, tick, id, at, n - 1);
    }
  }

  lemma TickingTail(c: Config, id: string, tick: real)
    requires c.Valid() && tick == c.idleTTL / 2.0
    ensures Ticking(c, 1, TickedTail(c, id, tick))
  {
    var again := Calls(id, 3.0 * tick, c.burst);
    var tail := TickedTail(c, id, tick);
    TickingCalls(c, 4, id, 3.0 * tick, c.burst);
    assert tail[1..] == [Sweep(2.0 * tick)] + ([Sweep(3.0 * tick)] + again);
    assert tail[1..][1..] == [Sweep(3.0 * tick)] + again;
    assert tail[1..][1..][1..] == again;
    assert Ticking(c, 3, tail[1..][1..]);
    assert Ticking(c, 2, tail[1..]);
  }

  lemma {:induction false} TickingDrain(c: Config, id: string, drained: real, tick: real, n: nat)
    requires c.Valid() && tick == c.idleTTL / 2.0 && drained <= tick
    ensures Ticking(c, 1, Calls(id, drained, n) + TickedTail(c, id, tick))
    decreases n
  {
    var evs := Calls(id, drained, n) + TickedTail(c, id, tick);
    if n == 0 {
      assert evs == TickedTail(c, id, tick);
      TickingTail(c, id, tick);
    } else {
      assert evs[1..] == Calls(id, drained, n - 1) + TickedTail(c, id, tick);
      TickingDrain(c, id, drained, tick, n - 1);
    }
  }

  /** Eviction is invisible to every caller in every run exactly when one TTL refills a bucket - whether the
      sweeps come as the ticker sends them or at any times at all. */
  lemma EvictionInvisibleIff(c: Config)
    requires c.Valid()
    ensures (forall evs | Timed(0.0, evs) && Ticking(c, 1, evs) ::
               Verdicts(c, true, map[], evs) == Verdicts(c, false, map[], evs))
            <==> c.rps * c.idleTTL >= c.burst as real
    ensures (forall evs | Timed(0.0, evs) :: Verdicts(c, true, map[], evs) == Verdicts(c, false, map[], evs))
            <==> c.rps * c.idleTTL >= c.burst as real
  {
    if c.rps * c.idleTTL >= c.burst as real {
      forall evs | Timed(0.0, evs) ensures Verdicts(c, true, map[], evs) == Verdicts(c, false, map[], evs) {
        SameLevelsSameVerdicts(c, map[], map[], 0.0, evs);
      }
    } else {
      var evs := EvictionNoticed(c);
    }
  }
}
