/** Which permissions a connecting identity gets: exact key, most specific matching glob, fallback. */
module Permissions {
  import opened Options
  import opened HostOs

  /** path.Match(pattern, name): whether it matches, or None for ErrBadPattern. */
  type Matcher = (string, string) -> Option<bool>

  predicate IsWild(ch: char) {
    ch == '*' || ch == '?'
  }

  predicate IsPattern(key: string) {
    exists i :: 0 <= i < |key| && IsWild(key[i])
  }

  lemma PatternHasWildcard(key: string)
    ensures IsPattern(key) <==> '*' in key || '?' in key
  {
    if IsPattern(key) {
      var i :| 0 <= i < |key| && IsWild(key[i]);
      assert key[i] in key;
    }
    if '*' in key || '?' in key {
      var i :| 0 <= i < |key| && (key[i] == '*' || key[i] == '?');
      assert IsWild(key[i]);
    }
  }

  /** Literal characters before the first wildcard. */
  function PrefixLen(p: string): (n: nat)
    ensures n <= |p|
  {
    if p == "" || IsWild(p[0]) then 0 else 1 + PrefixLen(p[1..])
  }

  /** Literal characters anywhere. */
  function Literals(p: string): (n: nat)
    ensures n <= |p|
  {
    if p == "" then 0 else (if IsWild(p[|p| - 1]) then 0 else 1) + Literals(p[..|p| - 1])
  }

  lemma {:induction false} PrefixIsLiteral(p: string)
    ensures forall i | 0 <= i < PrefixLen(p) :: !IsWild(p[i])
    ensures PrefixLen(p) < |p| ==> IsWild(p[PrefixLen(p)])
  {
    if p == "" || IsWild(p[0]) {
    } else {
      PrefixIsLiteral(p[1..]);
    }
  }

  lemma {:induction false} PrefixLenUnique(p: string, n: nat)
    requires n <= |p| && (forall i | 0 <= i < n :: !IsWild(p[i])) && (n < |p| ==> IsWild(p[n]))
    ensures n == PrefixLen(p)
  {
    if n == 0 {
    } else {
      PrefixLenUnique(p[1..], n - 1);
    }
  }

  /** The positions of the literal characters. */
  function LiteralAt(p: string): set<nat> {
    set i: nat | i < |p| && p[i] != '*' && p[i] != '?'
  }

  lemma {:induction false} LiteralsAreCounted(p: string)
    ensures Literals(p) == |LiteralAt(p)|
  {
    if p == "" {
      assert LiteralAt(p) == {};
    } else {
      var n := |p| - 1;
      LiteralsAreCounted(p[..n]);
      assert LiteralAt(p) == LiteralAt(p[..n]) + (if p[n] != '*' && p[n] != '?' then {n} else {});
    }
  }

  method PatternSpecificity(pattern: string) returns (prefixLen: nat, totalLiterals: nat)
    ensures prefixLen == PrefixLen(pattern) && totalLiterals == Literals(pattern)
    ensures prefixLen <= |pattern| && (forall i | 0 <= i < prefixLen :: pattern[i] != '*' && pattern[i] != '?')
    ensures prefixLen < |pattern| ==> pattern[prefixLen] == '*' || pattern[prefixLen] == '?'
    ensures totalLiterals == |set i: nat | i < |pattern| && pattern[i] != '*' && pattern[i] != '?'|
  {
    prefixLen, totalLiterals := 0, 0;
    var seenWildcard := false;
    for i := 0 to |pattern|
      invariant prefixLen <= i && totalLiterals == Literals(pattern[..i])
      invariant forall j | 0 <= j < prefixLen :: !IsWild(pattern[j])
      invariant if seenWildcard then prefixLen < i && IsWild(pattern[prefixLen]) else prefixLen == i
    {
      assert pattern[..i + 1][..i] == pattern[..i];
      if IsWild(pattern[i]) {
        seenWildcard := true;
      } else {
        totalLiterals := totalLiterals + 1;
        if !seenWildcard {
          prefixLen := prefixLen + 1;
        }
      }
    }
    assert pattern[..|pattern|] == pattern;
    PrefixLenUnique(pattern, prefixLen);
    LiteralsAreCounted(pattern);
    assert LiteralAt(pattern) == set i: nat | i < |pattern| && pattern[i] != '*' && pattern[i] != '?';
  }

  /** Lexicographic order on (prefixLen, totalLiterals). */
  predicate MoreSpecific(p: string, q: string) {
    PrefixLen(p) > PrefixLen(q) || (PrefixLen(p) == PrefixLen(q) && Literals(p) > Literals(q))
  }

  predicate Candidate(key: string, id: string, match_: Matcher) {
    IsPattern(key) && match_(key, id) == Some(true)
  }

  /** The entry a key stands for if it is a most specific matching pattern. */
  predicate Best(config: map<string, Perms>, id: string, match_: Matcher, key: string) {
    && key in config && Candidate(key, id, match_)
    && forall q | q in config && Candidate(q, id, match_) :: !MoreSpecific(q, key)
  }

  /** What Resolve may return, whatever the iteration order of the map. */
  ghost predicate Resolves(config: Option<map<string, Perms>>, id: string, fallback: Perms, match_: Matcher, r: Perms) {
    if config == None then r == fallback
    else if id in config.value then r == config.value[id]
    else if exists key :: key in config.value && Candidate(key, id, match_) then
      exists key :: Best(config.value, id, match_, key) && r == config.value[key]
    else r == fallback
  }

  /** The pattern the loop settles on when the map yields its keys in this order. */
  function Winner(order: seq<string>, id: string, match_: Matcher): Option<string> {
    if order == [] then None
    else
      var w, p := Winner(order[..|order| - 1], id, match_), order[|order| - 1];
      if Candidate(p, id, match_) && (w == None || MoreSpecific(p, w.value)) then Some(p) else w
  }

  function Chosen(config: map<string, Perms>, fallback: Perms, w: Option<string>): Perms {
    if w.Some? && w.value in config then config[w.value] else fallback
  }

  method Resolve(config: Option<map<string, Perms>>, id: string, groups: seq<string>, rule: string, match_: Matcher,
                 order: seq<string>)
    returns (r: Perms)
    requires config.Some? ==> Orders(order, config.value.Keys)
    ensures Resolves(config, id, Perms(groups, rule), match_, r)
    ensures config.Some? && id !in config.value ==>
              r == Chosen(config.value, Perms(groups, rule), Winner(order, id, match_))
  {
    if config.Some? {
      var perms := config.value;
      OrdersKeys(order, perms);
      if id in perms {
        return perms[id];
      }
      var bestPrefixLen: int, bestTotalLiterals := -1, 0;
      var bestEntry := Perms([], "");
      for i := 0 to |order|
        invariant var w := Winner(order[..i], id, match_);
                  if w == None then bestPrefixLen == -1
                  else
                    && w.value in perms && bestEntry == perms[w.value]
                    && bestPrefixLen == PrefixLen(w.value) && bestTotalLiterals == Literals(w.value)
      {
        assert order[..i + 1][..i] == order[..i];
        var pattern := order[i];
        if !IsPattern(pattern) {
          continue;
        }
        var matched := match_(pattern, id);
        if matched == None {
          continue;
        }
        if !matched.value {
          continue;
        }
        var pl, tl := PatternSpecificity(pattern);
        if pl > bestPrefixLen || (pl == bestPrefixLen && tl > bestTotalLiterals) {
          bestPrefixLen, bestTotalLiterals, bestEntry := pl, tl, perms[pattern];
        }
      }
      assert order[..|order|] == order;
      WinnerIsBest(perms, order, id, match_);
      if bestPrefixLen >= 0 {
        return bestEntry;
      }
    }
    return Perms(groups, rule);
  }

  lemma OrdersKeys(order: seq<string>, config: map<string, Perms>)
    requires Orders(order, config.Keys)
    ensures forall k :: k in order <==> k in config
  {
    forall k ensures k in order <==> k in config {
      assert k in order <==> k in multiset(order);
    }
  }

  /** The winner is the first of the most specific matches the order comes to. */
  predicate FirstBest(order: seq<string>, id: string, match_: Matcher, k: nat)
    requires k < |order|
  {
    && Candidate(order[k], id, match_)
    && (forall j | 0 <= j < |order| && Candidate(order[j], id, match_) :: !MoreSpecific(order[j], order[k]))
    && (forall j | 0 <= j < k && Candidate(order[j], id, match_) :: MoreSpecific(order[k], order[j]))
  }

  lemma {:induction false} WinnerIsFirstBest(order: seq<string>, id: string, match_: Matcher)
    ensures var w := Winner(order, id, match_);
            if w == None then forall k | 0 <= k < |order| :: !Candidate(order[k], id, match_)
            else exists k :: 0 <= k < |order| && FirstBest(order, id, match_, k) && order[k] == w.value
  {
    if order == [] {
    } else {
      var n := |order| - 1;
      var front, p := order[..n], order[n];
      WinnerIsFirstBest(front, id, match_);
      var w := Winner(front, id, match_);
      if Candidate(p, id, match_) && (w == None || MoreSpecific(p, w.value)) {
        assert FirstBest(order, id, match_, n);
      } else if w.Some? {
        var k :| 0 <= k < n && FirstBest(front, id, match_, k) && front[k] == w.value;
        assert forall j | 0 <= j < n :: order[j] == front[j];
        assert FirstBest(order, id, match_, k);
      }
    }
  }

  lemma WinnerIsBest(config: map<string, Perms>, order: seq<string>, id: string, match_: Matcher)
    requires Orders(order, config.Keys)
    ensures var w := Winner(order, id, match_);
            if w == None then forall key | key in config :: !Candidate(key, id, match_)
            else Best(config, id, match_, w.value)
  {
    OrdersKeys(order, config);
    WinnerIsFirstBest(order, id, match_);
    forall key | key in config ensures exists k :: 0 <= k < |order| && order[k] == key {
      assert key in order;
    }
  }

  /** A unique most specific match is returned by every order. */
  lemma UniqueBestDecides(config: map<string, Perms>, id: string, fallback: Perms, match_: Matcher,
                          key: string, r: Perms, r': Perms)
    requires id !in config && Best(config, id, match_, key)
    requires forall q | q in config && Candidate(q, id, match_) && q != key :: MoreSpecific(key, q)
    requires Resolves(Some(config), id, fallback, match_, r) && Resolves(Some(config), id, fallback, match_, r')
    ensures r == r' == config[key]
  {
    forall k | Best(config, id, match_, k) ensures k == key {
      assert k != key ==> MoreSpecific(key, k);
    }
  }

  /** Each of several most specific matches is what some order returns: exactly the best ones can win. */
  lemma TiesAreOpen(config: map<string, Perms>, id: string, match_: Matcher, key: string)
    ensures Best(config, id, match_, key) <==>
              exists order :: Orders(order, config.Keys) && Winner(order, id, match_) == Some(key)
  {
    if Best(config, id, match_, key) {
      var order := StartingWith(config, key);
      OrdersKeys(order, config);
      WinnerIsFirstBest(order, id, match_);
      var w := Winner(order, id, match_);
      assert Candidate(order[0], id, match_);
      var k :| 0 <= k < |order| && FirstBest(order, id, match_, k) && order[k] == w.value;
      assert order[k] in order;
      assert k == 0;
    }
    forall order | Orders(order, config.Keys) && Winner(order, id, match_) == Some(key)
      ensures Best(config, id, match_, key)
    {
      WinnerIsBest(config, order, id, match_);
    }
  }

  lemma StartingWith(config: map<string, Perms>, key: string) returns (order: seq<string>)
    requires key in config
    ensures Orders(order, config.Keys) && order != [] && order[0] == key
  {
    order := [key];
    var rest := config.Keys - {key};
    while rest != {}
      invariant rest <= config.Keys && multiset(order) + multiset(rest) == multiset(config.Keys)
      invariant order != [] && order[0] == key
      decreases rest
    {
      var k :| k in rest;
      order, rest := order + [k], rest - {k};
    }
  }

  // ---- in numbers ----

  /** A key with a wildcard that matches. */
  predicate Matches(key: string, id: string, match_: Matcher) {
    ('*' in key || '?' in key) && match_(key, id) == Some(true)
  }

  /** What Resolve returns for an identity that is no key of the config: the entry of a matching pattern such
      that every other one has a shorter literal prefix, or one as long and no more literals; the fallback
      if no pattern matches. */
  lemma ResolvesInNumbers(config: map<string, Perms>, id: string, fallback: Perms, match_: Matcher, r: Perms)
    requires id !in config && Resolves(Some(config), id, fallback, match_, r)
    ensures (forall q | q in config :: !Matches(q, id, match_)) ==> r == fallback
    ensures (exists q :: q in config && Matches(q, id, match_)) ==>
              exists k :: k in config && Matches(k, id, match_) && r == config[k]
                && forall q | q in config && Matches(q, id, match_) ::
                     PrefixLen(q) < PrefixLen(k) || (PrefixLen(q) == PrefixLen(k) && Literals(q) <= Literals(k))
  {
    forall q ensures Candidate(q, id, match_) <==> Matches(q, id, match_) { PatternHasWildcard(q); }
    if q :| q in config && Matches(q, id, match_) {
      assert Candidate(q, id, match_);
      var k :| Best(config, id, match_, k) && r == config[k];
      assert Matches(k, id, match_);
    }
  }

  /** A pattern with the strictly longest literal prefix, or with the strictly most literals among those with
      the longest, wins in every order. */
  lemma StrictMaximumWins(config: map<string, Perms>, order: seq<string>, id: string, match_: Matcher, key: string)
    requires Orders(order, config.Keys) && key in config && Matches(key, id, match_)
    requires forall q | q in config && Matches(q, id, match_) && q != key ::
               PrefixLen(q) < PrefixLen(key) || (PrefixLen(q) == PrefixLen(key) && Literals(q) < Literals(key))
    ensures Winner(order, id, match_) == Some(key)
  {
    forall q ensures Candidate(q, id, match_) <==> Matches(q, id, match_) { PatternHasWildcard(q); }
    WinnerIsBest(config, order, id, match_);
    assert Candidate(key, id, match_);
  }

  // ---- what specificity means for class- and escape-free patterns ----

  /** '*' stands for any characters but '/', '?' for one, everything else for itself. */
  predicate GlobMatch(p: string, s: string)
    decreases |p| + |s|
  {
    if p == "" then s == ""
    else if p[0] == '*' then GlobMatch(p[1..], s) || (s != "" && s[0] != '/' && GlobMatch(p, s[1..]))
    else if p[0] == '?' then s != "" && s[0] != '/' && GlobMatch(p[1..], s[1..])
    else s != "" && s[0] == p[0] && GlobMatch(p[1..], s[1..])
  }

  /** Literal characters stand for themselves ... */
  lemma {:induction false} LiteralThenRest(literal: string, p: string, s: string)
    requires '*' !in literal && '?' !in literal
    ensures GlobMatch(literal + p, s) <==> literal <= s && GlobMatch(p, s[|literal|..])
  {
    if literal == "" {
      assert literal + p == p;
    } else {
      assert (literal + p)[1..] == literal[1..] + p;
      if s != "" && s[0] == literal[0] {
        LiteralThenRest(literal[1..], p, s[1..]);
        assert literal <= s <==> literal[1..] <= s[1..];
      }
    }
  }

  /** ... a question mark for one character other than the slash ... */
  lemma QuestionThenRest(p: string, c: char, rest: string)
    ensures GlobMatch("?" + p, [c] + rest) <==> c != '/' && GlobMatch(p, rest)
    ensures !GlobMatch("?" + p, "")
  {
    assert ("?" + p)[1..] == p && ([c] + rest)[1..] == rest;
  }

  /** ... and a star for any run of such characters. */
  lemma {:induction false} StarThenRest(p: string, s: string)
    ensures GlobMatch("*" + p, s) <==> exists k :: 0 <= k <= |s| && '/' !in s[..k] && GlobMatch(p, s[k..])
    decreases |s|
  {
    assert ("*" + p)[1..] == p;
    assert s[0..] == s && s[..0] == "";
    if s == "" || s[0] == '/' {
      forall k | 0 < k <= |s| ensures '/' in s[..k] { assert s[..k][0] == s[0]; }
    } else {
      StarThenRest(p, s[1..]);
      forall k | 0 <= k <= |s| - 1
        ensures s[1..][k..] == s[k + 1..] && ('/' in s[1..][..k] <==> '/' in s[..k + 1])
      {
        assert s[..k + 1] == [s[0]] + s[1..][..k];
      }
      if k :| 0 <= k <= |s| - 1 && '/' !in s[1..][..k] && GlobMatch(p, s[1..][k..]) {
        assert '/' !in s[..k + 1] && GlobMatch(p, s[k + 1..]);
      }
      if k :| 0 < k <= |s| && '/' !in s[..k] && GlobMatch(p, s[k..]) {
        assert '/' !in s[1..][..k - 1] && GlobMatch(p, s[1..][k - 1..]);
      }
    }
  }

  function Glob(p: string, s: string): Option<bool> {
    Some(GlobMatch(p, s))
  }

  function LiteralPrefix(p: string): string {
    p[..PrefixLen(p)]
  }

  lemma LiteralsOfTail(p: string)
    requires p != ""
    ensures Literals(p) == (if IsWild(p[0]) then 0 else 1) + Literals(p[1..])
    decreases |p|
  {
    if |p| > 1 {
      LiteralsOfTail(p[..|p| - 1]);
      assert p[1..][..|p| - 2] == p[..|p| - 1][1..];
    }
  }

  /** A matching pattern's literal prefix starts the identity, and it has no more literals than the
      identity has characters. */
  lemma {:induction false} MatchBoundsSpecificity(p: string, s: string)
    requires GlobMatch(p, s)
    ensures LiteralPrefix(p) <= s && Literals(p) <= |s|
    decreases |p| + |s|
  {
    if p == "" {
    } else {
      LiteralsOfTail(p);
      if p[0] == '*' {
        if GlobMatch(p[1..], s) { MatchBoundsSpecificity(p[1..], s); } else { MatchBoundsSpecificity(p, s[1..]); }
      } else {
        MatchBoundsSpecificity(p[1..], s[1..]);
        if !IsWild(p[0]) { assert LiteralPrefix(p) == [p[0]] + LiteralPrefix(p[1..]); }
      }
    }
  }

  /** The winner's literal prefix extends every other matching pattern's. */
  lemma WinnerExtendsOthers(config: map<string, Perms>, id: string, key: string, other: string)
    requires Best(config, id, Glob, key) && other in config && Candidate(other, id, Glob)
    ensures LiteralPrefix(other) <= LiteralPrefix(key) <= id
  {
    MatchBoundsSpecificity(key, id);
    MatchBoundsSpecificity(other, id);
    assert !MoreSpecific(other, key);
  }

  lemma {:induction false} StarMatches(s: string)
    ensures GlobMatch("*", s) <==> '/' !in s
    decreases |s|
  {
    if s == "" {
    } else {
      StarMatches(s[1..]);
      assert "*"[1..] == "";
    }
  }
}
