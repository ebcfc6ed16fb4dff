/** The set of trusted CA keys: collecting them from the controllers, comparing key files regardless of
    order, and refreshing the file sshd reads. */
module TrustedKeys {
  import opened Options
  import opened Text
  import opened TextLaws

  // ---- string order and the in-place sort ----

  /** Go's < on strings, code point by code point. */
  predicate Less(a: string, b: string)
    decreases |a|
  {
    b != "" && (a == "" || a[0] < b[0] || (a[0] == b[0] && Less(a[1..], b[1..])))
  }

  lemma {:induction false} LessIsTotal(a: string, b: string)
    ensures Less(a, b) || Less(b, a) || a == b
    ensures !(Less(a, b) && Less(b, a))
    decreases |a|
  {
    if a == "" || b == "" {
    } else if a[0] == b[0] {
      LessIsTotal(a[1..], b[1..]);
      assert a == [a[0]] + a[1..] && b == [b[0]] + b[1..];
    }
  }

  lemma {:induction false} LessIsTransitive(a: string, b: string, c: string)
    requires Less(a, b) && !Less(c, b)
    ensures Less(a, c)
    decreases |a|
  {
    LessIsTotal(b, c);
    if a == "" || b == "" || c == "" {
    } else if a[0] == b[0] == c[0] {
      LessIsTransitive(a[1..], b[1..], c[1..]);
    }
  }

  /** The first difference decides; a proper prefix comes first. */
  lemma {:induction false} FirstDifferenceDecides(a: string, b: string, k: nat)
    requires k <= |a| && k <= |b| && a[..k] == b[..k]
    ensures k < |a| && k < |b| && a[k] != b[k] ==> (Less(a, b) <==> a[k] < b[k])
    ensures k == |a| ==> (Less(a, b) <==> k < |b|)
    decreases k
  {
    if k == 0 {
    } else {
      assert a[0] == a[..k][0] == b[..k][0] == b[0];
      assert a[1..][..k - 1] == a[..k][1..] && b[1..][..k - 1] == b[..k][1..];
      FirstDifferenceDecides(a[1..], b[1..], k - 1);
    }
  }

  ghost predicate Sorted(ss: seq<string>) {
    forall i, j | 0 <= i < j < |ss| :: !Less(ss[j], ss[i])
  }

  /** !Less(c, b) && !Less(b, a) ==> !Less(c, a) */
  lemma AtMostIsTransitive(a: string, b: string, c: string)
    requires !Less(b, a) && !Less(c, b)
    ensures !Less(c, a)
  {
    if Less(c, a) { LessIsTransitive(c, a, b); LessIsTotal(b, c); }
  }

  /** Sorted except that the element at j may be too small for its place. */
  ghost predicate SortedBut(ss: seq<string>, n: nat, j: nat)
    requires j < n <= |ss|
  {
    && (forall x, y | 0 <= x < y < n && x != j && y != j :: !Less(ss[y], ss[x]))
    && (forall y | j < y < n :: !Less(ss[y], ss[j]))
  }

  function Swapped(ss: seq<string>, j: nat): (r: seq<string>)
    requires 0 < j < |ss|
    ensures |r| == |ss|
  {
    ss[j := ss[j - 1]][j - 1 := ss[j]]
  }

  lemma SortedFront(ss: seq<string>, i: nat)
    requires i < |ss| && Sorted(ss[..i])
    ensures SortedBut(ss, i + 1, i)
  {
    forall x, y | 0 <= x < y < i ensures !Less(ss[y], ss[x]) {
      assert ss[..i][x] == ss[x] && ss[..i][y] == ss[y];
    }
  }

  lemma SwapKeepsSortedBut(ss: seq<string>, n: nat, j: nat)
    requires 0 < j < n <= |ss| && SortedBut(ss, n, j) && Less(ss[j], ss[j - 1])
    ensures SortedBut(Swapped(ss, j), n, j - 1)
  {
    var ss' := Swapped(ss, j);
    LessIsTotal(ss[j], ss[j - 1]);
    forall x, y | 0 <= x < y < n && x != j - 1 && y != j - 1 ensures !Less(ss'[y], ss'[x]) {
      if x == j { assert ss'[x] == ss[j - 1]; } else if y == j { assert ss'[y] == ss[j - 1]; }
    }
  }

  lemma InPlaceIsSorted(ss: seq<string>, n: nat, j: nat)
    requires j < n <= |ss| && SortedBut(ss, n, j) && (j == 0 || !Less(ss[j], ss[j - 1]))
    ensures Sorted(ss[..n])
  {
    forall x, y | 0 <= x < y < n ensures !Less(ss[y], ss[x]) {
      if y == j && x < j - 1 { AtMostIsTransitive(ss[x], ss[j - 1], ss[j]); }
    }
  }

  method SortStrings(ss: array<string>)
    modifies ss
    ensures Sorted(ss[..]) && multiset(ss[..]) == multiset(old(ss[..]))
  {
    if ss.Length == 0 {
      return;
    }
    var i := 1;
    while i < ss.Length
      invariant 1 <= i <= ss.Length
      invariant Sorted(ss[..i]) && multiset(ss[..]) == multiset(old(ss[..]))
    {
      Insert(ss, i);
      i := i + 1;
    }
    assert ss[..ss.Length] == ss[..];
  }

  /** The inner loop: move element i down to its place in the sorted front. */
  method Insert(ss: array<string>, i: nat)
    requires 0 < i < ss.Length && Sorted(ss[..i])
    modifies ss
    ensures Sorted(ss[..i + 1]) && multiset(ss[..]) == multiset(old(ss[..]))
  {
    var j := i;
    assert ss[..][..i] == ss[..i];
    SortedFront(ss[..], i);
    while j > 0 && Less(ss[j], ss[j - 1])
      invariant 0 <= j <= i
      invariant SortedBut(ss[..], i + 1, j)
      invariant multiset(ss[..]) == multiset(old(ss[..]))
    {
      SwapKeepsSortedBut(ss[..], i + 1, j);
      ghost var before := ss[..];
      ss[j], ss[j - 1] := ss[j - 1], ss[j];
      assert ss[..] == Swapped(before, j);
      SwapIsPermutation(before, j);
      j := j - 1;
    }
    InPlaceIsSorted(ss[..], i + 1, j);
    assert ss[..][..i + 1] == ss[..i + 1];
  }

  lemma SwapIsPermutation(ss: seq<string>, j: nat)
    requires 0 < j < |ss|
    ensures multiset(Swapped(ss, j)) == multiset(ss)
  {
  }

  lemma HeadIsLeast(a: seq<string>, x: string)
    requires Sorted(a) && a != [] && x in multiset(a)
    ensures !Less(x, a[0])
  {
    var k :| 0 <= k < |a| && a[k] == x;
    LessIsTotal(x, x);
  }

  /** A multiset of strings has one sorted arrangement. */
  lemma {:induction false} SortedIsUnique(a: seq<string>, b: seq<string>)
    requires Sorted(a) && Sorted(b) && multiset(a) == multiset(b)
    ensures a == b
  {
    assert |multiset(a)| == |a| && |multiset(b)| == |b|;
    if a == [] {
    } else {
      assert a[0] in multiset(a) && b[0] in multiset(b);
      HeadIsLeast(a, b[0]);
      HeadIsLeast(b, a[0]);
      LessIsTotal(a[0], b[0]);
      TailsOfEqualHeads(a, b);
      SortedIsUnique(a[1..], b[1..]);
    }
  }

  lemma TailsOfEqualHeads(a: seq<string>, b: seq<string>)
    requires a != [] && b != [] && a[0] == b[0] && multiset(a) == multiset(b)
    ensures multiset(a[1..]) == multiset(b[1..]) && (a[1..] == b[1..] ==> a == b)
  {
    assert a == [a[0]] + a[1..] && b == [b[0]] + b[1..];
    assert multiset(a) == multiset{a[0]} + multiset(a[1..]) && multiset(b) == multiset{b[0]} + multiset(b[1..]);
    assert multiset(a[1..]) == multiset(a) - multiset{a[0]};
    assert multiset(b[1..]) == multiset(b) - multiset{b[0]};
  }

  /** The loop's step: one more piece moves from what is left to what is kept. */
  lemma KeepStep(pieces: seq<string>, i: nat, out: seq<string>, line: string)
    requires i < |pieces| && line == TrimSpace(pieces[i])
    ensures out + KeepNonEmpty(pieces[i..]) ==
              (if line == "" then out else out + [line]) + KeepNonEmpty(pieces[i + 1..])
  {
    assert pieces[i..][1..] == pieces[i + 1..];
  }

  method NonEmptyLines(s: string) returns (out: seq<string>)
    ensures out == Lines(s)
  {
    out := KeptPieces(Split(s));
  }

  method KeptPieces(pieces: seq<string>) returns (out: seq<string>)
    ensures out == KeepNonEmpty(pieces)
  {
    out := [];
    assert pieces[0..] == pieces;
    for i := 0 to |pieces|
      invariant out + KeepNonEmpty(pieces[i..]) == KeepNonEmpty(pieces)
    {
      var line := TrimSpace(pieces[i]);
      KeepStep(pieces, i, out, line);
      if line != "" {
        out := out + [line];
      }
    }
    assert pieces[|pieces|..] == [];
  }

  method SortedCopy(lines: seq<string>) returns (a: array<string>)
    ensures fresh(a) && a.Length == |lines| && Sorted(a[..]) && multiset(a[..]) == multiset(lines)
  {
    a := new string[|lines|](i requires 0 <= i < |lines| => lines[i]);
    assert a[..] == lines;
    SortStrings(a);
  }

  method Compare(x: array<string>, y: array<string>) returns (equal: bool)
    requires x.Length == y.Length
    ensures equal <==> x[..] == y[..]
  {
    for i := 0 to x.Length
      invariant x[..i] == y[..i]
    {
      if x[i] != y[i] {
        assert x[..][i] != y[..][i];
        return false;
      }
    }
    assert x[..x.Length] == x[..] && y[..y.Length] == y[..];
    return true;
  }

  /** Same lines with the same multiplicities, in any order. */
  predicate SameLines(a: string, b: string) {
    multiset(Lines(a)) == multiset(Lines(b))
  }

  method SshPubKeySetsEqual(a: string, b: string) returns (equal: bool)
    ensures equal <==> SameLines(a, b)
  {
    var aLines := NonEmptyLines(a);
    var bLines := NonEmptyLines(b);
    if |aLines| != |bLines| {
      assert |multiset(aLines)| != |multiset(bLines)|;
      return false;
    }
    var x := SortedCopy(aLines);
    var y := SortedCopy(bLines);
    equal := Compare(x, y);
    if multiset(x[..]) == multiset(y[..]) { SortedIsUnique(x[..], y[..]); }
  }

  /** White space around a line - carriage returns, say - and blank lines make no difference. */
  lemma PaddingDoesNotMatter(left: string, core: string, right: string, rest: string)
    requires Core(left, core, right) && '\n' !in left + core + right
    ensures core != "" ==> SameLines(left + core + right + "\n" + rest, core + "\n" + rest)
    ensures core == "" ==> SameLines(left + right + "\n" + rest, rest)
  {
    if core != "" {
      PaddedLine(left, core, right, rest);
      assert "" + core + "" == core;
      PaddedLine("", core, "", rest);
    } else {
      assert left + core + right == left + right;
      BlankLine(left + right, rest);
    }
  }

  // ---- collecting the cluster's keys ----

  /** What dialling one controller yields: nothing, or a CA key with its DER encoding and its
      authorized_keys line where they can be computed. */
  datatype Probe = Unreachable | Presents(der: Option<string>, line: Option<string>)

  /** A collected key: encoding and line. */
  type Key = (string, string)

  predicate Encoded(p: Probe, der: string) {
    p.Presents? && p.der == Some(der)
  }

  predicate Gives(p: Probe, key: Key) {
    p == Presents(Some(key.0), Some(key.1))
  }

  predicate Seen(ps: seq<Probe>, der: string) {
    exists p :: p in ps && Encoded(p, der)
  }

  /** The first occurrence of each convertible key, in order. */
  function Firsts(ps: seq<Probe>): seq<Key> {
    if ps == [] then []
    else
      var front, p := ps[..|ps| - 1], ps[|ps| - 1];
      if p.Presents? && p.der.Some? && p.line.Some? && !Seen(front, p.der.value) then
        Firsts(front) + [(p.der.value, p.line.value)]
      else Firsts(front)
  }

  method CollectClusterCAs(ps: seq<Probe>) returns (out: seq<Key>)
    ensures out == Firsts(ps)
  {
    var seen: set<string> := {};
    out := [];
    for i := 0 to |ps|
      invariant forall der :: der in seen <==> Seen(ps[..i], der)
      invariant out == Firsts(ps[..i])
    {
      var p := ps[i];
      assert ps[..i + 1][..i] == ps[..i];
      SeenNext(ps, i);
      if p.Unreachable? || p.der == None {
        continue;
      }
      if p.der.value in seen {
        continue;
      }
      seen := seen + {p.der.value};
      if p.line == None {
        continue;
      }
      out := out + [(p.der.value, p.line.value)];
    }
    assert ps[..|ps|] == ps;
  }

  lemma SeenNext(ps: seq<Probe>, i: nat)
    requires i < |ps|
    ensures forall der :: Seen(ps[..i + 1], der) <==> Seen(ps[..i], der) || Encoded(ps[i], der)
  {
    assert ps[..i + 1] == ps[..i] + [ps[i]];
    forall der ensures Seen(ps[..i + 1], der) <==> Seen(ps[..i], der) || Encoded(ps[i], der) {
      if Encoded(ps[i], der) { assert ps[i] in ps[..i + 1]; }
      if Seen(ps[..i], der) {
        var p :| p in ps[..i] && Encoded(p, der);
        assert p in ps[..i + 1];
      }
    }
  }

  /** The same encoding is the same key, and its line is a single line. */
  ghost predicate Coherent(ps: seq<Probe>) {
    && (forall p, q | p in ps && q in ps && p.Presents? && q.Presents? && p.der.Some? && p.der == q.der :: p == q)
    && (forall p, key: Key | p in ps && Gives(p, key) :: PlainLine(key.1))
  }

  ghost predicate Given(ps: seq<Probe>, key: Key) {
    exists p :: p in ps && Gives(p, key)
  }

  ghost predicate FirstsExact(ps: seq<Probe>) {
    forall key: Key :: key in Firsts(ps) <==> Given(ps, key)
  }

  /** One entry per convertible key: exactly the keys given, none twice. */
  lemma {:induction false} OneEntryPerKey(ps: seq<Probe>)
    requires Coherent(ps)
    ensures FirstsExact(ps)
    ensures forall i, j | 0 <= i < j < |Firsts(ps)| :: Firsts(ps)[i] != Firsts(ps)[j]
  {
    if ps == [] {
    } else {
      var n := |ps| - 1;
      var front, p := ps[..n], ps[n];
      assert ps == front + [p];
      OneEntryPerKey(front);
      forall key ensures key in Firsts(ps) <==> Given(ps, key) { LastOfFirsts(front, p, key); }
      if Firsts(ps) != Firsts(front) { NewKeyIsNew(ps); }
    }
  }

  lemma GivenNext(front: seq<Probe>, p: Probe, key: Key)
    ensures Given(front + [p], key) <==> Given(front, key) || Gives(p, key)
  {
    var ps := front + [p];
    if q :| q in front && Gives(q, key) { assert q in ps; }
    if Gives(p, key) { assert p in ps; }
    if q :| q in ps && Gives(q, key) { assert q in front || q == p; }
  }

  /** A key seen before with its line: the earlier probe gave it too. */
  lemma SeenIsGiven(front: seq<Probe>, p: Probe, key: Key)
    requires Coherent(front + [p]) && Gives(p, key) && Seen(front, key.0)
    ensures Given(front, key)
  {
    var ps := front + [p];
    var q :| q in front && Encoded(q, key.0);
    assert q in ps && p in ps;
  }

  lemma FirstsNext(front: seq<Probe>, p: Probe)
    ensures Firsts(front + [p]) ==
              if p.Presents? && p.der.Some? && p.line.Some? && !Seen(front, p.der.value) then
                Firsts(front) + [(p.der.value, p.line.value)]
              else Firsts(front)
  {
    assert (front + [p])[..|front|] == front;
  }

  lemma LastOfFirsts(front: seq<Probe>, p: Probe, key: Key)
    requires Coherent(front + [p]) && (key in Firsts(front) <==> Given(front, key))
    ensures key in Firsts(front + [p]) <==> Given(front + [p], key)
  {
    FirstsNext(front, p);
    GivenNext(front, p, key);
    if Gives(p, key) && Seen(front, key.0) { SeenIsGiven(front, p, key); }
  }

  lemma NewKeyIsNew(ps: seq<Probe>)
    requires ps != [] && Firsts(ps) != Firsts(ps[..|ps| - 1])
    requires FirstsExact(ps[..|ps| - 1])
    ensures var p := ps[|ps| - 1];
            p.Presents? && p.der.Some? && p.line.Some? && (p.der.value, p.line.value) !in Firsts(ps[..|ps| - 1])
            && Firsts(ps) == Firsts(ps[..|ps| - 1]) + [(p.der.value, p.line.value)]
  {
    var front, p := ps[..|ps| - 1], ps[|ps| - 1];
    var key := (p.der.value, p.line.value);
    forall q | q in front ensures !Gives(q, key) { assert !Encoded(q, key.0); }
    assert key in Firsts(front) <==> Given(front, key);
  }

  /** The authorized_keys lines, in order. */
  function KeyLines(keys: seq<Key>): seq<string> {
    seq(|keys|, i requires 0 <= i < |keys| => keys[i].1)
  }

  lemma Without(s: seq<string>, i: nat)
    requires i < |s|
    ensures multiset(s) == multiset(s[..i] + s[i + 1..]) + multiset{s[i]}
  {
    assert s == s[..i] + ([s[i]] + s[i + 1..]);
    assert multiset(s) == multiset(s[..i]) + (multiset{s[i]} + multiset(s[i + 1..]));
  }

  lemma KeyLinesWithout(keys: seq<Key>, i: nat)
    requires i < |keys|
    ensures multiset(KeyLines(keys)) == multiset(KeyLines(keys[..i] + keys[i + 1..])) + multiset{keys[i].1}
  {
    KeyLinesSkip(keys, i);
    Without(KeyLines(keys), i);
  }

  lemma KeyLinesSkip(keys: seq<Key>, i: nat)
    requires i < |keys|
    ensures KeyLines(keys[..i] + keys[i + 1..]) == KeyLines(keys)[..i] + KeyLines(keys)[i + 1..]
  {
  }

  /** Two duplicate-free lists of the same keys have the same lines up to order. */
  lemma {:induction false} SameKeysSameLines(a: seq<Key>, b: seq<Key>)
    requires forall key :: key in a <==> key in b
    requires (forall i, j | 0 <= i < j < |a| :: a[i] != a[j]) && (forall i, j | 0 <= i < j < |b| :: b[i] != b[j])
    ensures multiset(KeyLines(a)) == multiset(KeyLines(b))
  {
    assert b != [] ==> b[0] in b;
    if a == [] {
    } else {
      var last := |a| - 1;
      var key := a[last];
      assert key in a;
      var i :| 0 <= i < |b| && b[i] == key;
      var a', b' := a[..last], b[..i] + b[i + 1..];
      assert a' + a[last + 1..] == a';
      forall k ensures k in a' <==> k in b' {
        assert k in a <==> k in a' || k == key;
        assert k in b <==> k in b' || k == key;
      }
      SameKeysSameLines(a', b');
      KeyLinesWithout(a, last);
      KeyLinesWithout(b, i);
    }
  }

  function CollectedLines(ps: seq<Probe>): seq<string> {
    KeyLines(Firsts(ps))
  }

  /** The file written for a cluster. */
  function KeyText(ps: seq<Probe>): string {
    Unlines(CollectedLines(ps))
  }

  /** Two clusters presenting the same keys. */
  ghost predicate SameCAs(a: seq<Probe>, b: seq<Probe>) {
    forall key :: Given(a, key) <==> Given(b, key)
  }

  /** They yield the same lines, in whatever order and from whichever controllers the keys come. */
  lemma SameCAsSameLines(a: seq<Probe>, b: seq<Probe>)
    requires Coherent(a) && Coherent(b) && SameCAs(a, b)
    ensures multiset(CollectedLines(a)) == multiset(CollectedLines(b))
  {
    OneEntryPerKey(a);
    OneEntryPerKey(b);
    SameKeysSameLines(Firsts(a), Firsts(b));
  }

  // ---- refreshing the file ----

  datatype Refreshed = NoControllers | NoKeys | Unreadable | Unchanged | WriteFailed | ReloadFailed | Updated

  /** How the system responds to one refresh. */
  datatype Responses = Responses(readable: bool, write: bool, reload: bool)

  function Content(file: Option<string>): string {
    if file == None then "" else file.value
  }

  function RefreshSpec(file: Option<string>, ps: seq<Probe>, e: Responses): (Option<string>, Refreshed) {
    var lines := CollectedLines(ps);
    if ps == [] then (file, NoControllers)
    else if lines == [] then (file, NoKeys)
    else Replace(file, KeyText(ps), e)
  }

  /** Read the file, compare, replace it by text and reload sshd. */
  function Replace(file: Option<string>, text: string, e: Responses): (Option<string>, Refreshed) {
    if file.Some? && !e.readable then (file, Unreadable)
    else if SameLines(Content(file), text) then (file, Unchanged)
    else if !e.write then (file, WriteFailed)
    else (Some(text), if e.reload then Updated else ReloadFailed)
  }

  predicate Compared(r: Refreshed) {
    r.Unchanged? || r.Updated? || r.ReloadFailed?
  }

  /** The file named by TrustedUserCAKeys, its content at the last successful reload, and whether sshd is
      socket-activated: then each connection forks an sshd that reads the file, and a reload only validates
      the configuration. */
  datatype Store = Store(file: Option<string>, loaded: Option<string>, socket: bool) {
    /** The keys a new connection is checked against. */
    function InUse(): Option<string> {
      if socket then file else loaded
    }
  }

  function RefreshStore(st: Store, ps: seq<Probe>, e: Responses): (Store, Refreshed) {
    var (file, r) := RefreshSpec(st.file, ps, e);
    (st.(file := file, loaded := if r.Updated? then file else st.loaded), r)
  }

  class TrustStore {
    var file: Option<string>
    var loaded: Option<string>
    var writes: nat
    var reloads: nat
    const socket: bool

    constructor (file: Option<string>, loaded: Option<string>, socket: bool)
      ensures this.file == file && this.loaded == loaded && this.socket == socket && writes == 0 && reloads == 0
    {
      this.file, this.loaded, this.writes, this.reloads, this.socket := file, loaded, 0, 0, socket;
    }

    /** What a new connection is checked against. */
    function InUse(): Option<string>
      reads this
    {
      Store(file, loaded, socket).InUse()
    }

    method Refresh(ps: seq<Probe>, e: Responses) returns (r: Refreshed)
      modifies this
      ensures (file, r) == RefreshSpec(old(file), ps, e)
      ensures loaded == if r.Updated? then file else old(loaded)
      ensures r.Updated? ==> InUse() == Some(KeyText(ps))
      ensures writes == old(writes) + (if r.Updated? || r.ReloadFailed? then 1 else 0)
      ensures reloads == old(reloads) + (if r.Updated? then 1 else 0)
    {
      if |ps| == 0 {
        return NoControllers;
      }
      var newCAs := CollectClusterCAs(ps);
      if |newCAs| == 0 {
        return NoKeys;
      }
      r := CompareAndReplace(Unlines(KeyLines(newCAs)), e);
    }

    /** The part of refreshTrustedCAs that follows collecting the keys. */
    method CompareAndReplace(newKeyBytes: string, e: Responses) returns (r: Refreshed)
      modifies this
      ensures (file, r) == Replace(old(file), newKeyBytes, e)
      ensures loaded == if r.Updated? then file else old(loaded)
      ensures writes == old(writes) + (if r.Updated? || r.ReloadFailed? then 1 else 0)
      ensures reloads == old(reloads) + (if r.Updated? then 1 else 0)
    {
      if file.Some? && !e.readable {
        return Unreadable;
      }
      var equal := SshPubKeySetsEqual(Content(file), newKeyBytes);
      if equal {
        return Unchanged;
      }
      if !e.write {
        return WriteFailed;
      }
      file := Some(newKeyBytes);
      writes := writes + 1;
      if !e.reload {
        return ReloadFailed;
      }
      loaded := file;
      reloads := reloads + 1;
      return Updated;
    }
  }

  lemma CollectedLinesSurvive(ps: seq<Probe>)
    requires Coherent(ps)
    ensures Lines(KeyText(ps)) == CollectedLines(ps)
  {
    OneEntryPerKey(ps);
    forall l | l in CollectedLines(ps) ensures PlainLine(l) {
      var i :| 0 <= i < |Firsts(ps)| && CollectedLines(ps)[i] == l;
      assert Firsts(ps)[i] in Firsts(ps);
      var p :| p in ps && Gives(p, Firsts(ps)[i]);
    }
    LinesInvertUnlines(CollectedLines(ps));
  }

  lemma ReplacedMatches(file: Option<string>, text: string, e: Responses)
    requires Compared(Replace(file, text, e).1)
    ensures SameLines(Content(Replace(file, text, e).0), text)
  {
  }

  lemma ComparedFileMatches(file: Option<string>, ps: seq<Probe>, e: Responses)
    requires Compared(RefreshSpec(file, ps, e).1)
    ensures SameLines(Content(RefreshSpec(file, ps, e).0), KeyText(ps))
    ensures CollectedLines(ps) != []
  {
    ReplacedMatches(file, KeyText(ps), e);
  }

  lemma MatchingFileIsLeft(file: Option<string>, ps: seq<Probe>, e: Responses)
    requires e.readable && CollectedLines(ps) != [] && SameLines(Content(file), KeyText(ps))
    ensures RefreshSpec(file, ps, e) == (file, Unchanged)
  {
  }

  /** A refresh that got as far as comparing is a fixpoint: seeing the same keys again, in any order and
      from any controllers, the next one writes nothing and reloads nothing. */
  lemma RefreshIsAFixpoint(file: Option<string>, a: seq<Probe>, b: seq<Probe>, e: Responses, e': Responses)
    requires Coherent(a) && Coherent(b) && SameCAs(a, b) && e'.readable
    requires Compared(RefreshSpec(file, a, e).1)
    ensures RefreshSpec(RefreshSpec(file, a, e).0, b, e') == (RefreshSpec(file, a, e).0, Unchanged)
  {
    CollectedLinesSurvive(a);
    CollectedLinesSurvive(b);
    SameCAsSameLines(a, b);
    assert |multiset(CollectedLines(a))| == |CollectedLines(a)|;
    ComparedFileMatches(file, a, e);
    MatchingFileIsLeft(RefreshSpec(file, a, e).0, b, e');
  }

  /** Later controllers only ever add at the end. */
  lemma {:induction false} FirstsGrow(ps: seq<Probe>, more: seq<Probe>)
    ensures Firsts(ps) <= Firsts(ps + more)
  {
    if more == [] {
      assert ps + more == ps;
    } else {
      var n := |more| - 1;
      FirstsGrow(ps, more[..n]);
      assert ps + more == (ps + more[..n]) + [more[n]];
      FirstsNext(ps + more[..n], more[n]);
    }
  }

  // ---- which result a refresh gives ----

  ghost predicate HasKey(ps: seq<Probe>) {
    exists key :: Given(ps, key)
  }

  /** Nothing to do without controllers; an error if none of them gives a key, if the file is there and cannot
      be read, or if replacing it or the reload fails; and otherwise no error, with the file replaced exactly
      if its lines are not those of the keys given. */
  lemma RefreshTells(file: Option<string>, ps: seq<Probe>, e: Responses)
    requires Coherent(ps)
    ensures var (file', r) := RefreshSpec(file, ps, e);
            var blocked := file.Some? && !e.readable;
            var same := SameLines(if file.Some? then file.value else "", KeyText(ps));
            && (r.NoControllers? <==> ps == [])
            && (r.NoKeys? <==> ps != [] && !HasKey(ps))
            && (r.Unreadable? <==> HasKey(ps) && blocked)
            && (r.Unchanged? <==> HasKey(ps) && !blocked && same)
            && (r.WriteFailed? <==> HasKey(ps) && !blocked && !same && !e.write)
            && (r.ReloadFailed? <==> HasKey(ps) && !blocked && !same && e.write && !e.reload)
            && (r.Updated? <==> HasKey(ps) && !blocked && !same && e.write && e.reload)
            && (if r.Updated? || r.ReloadFailed? then file' == Some(KeyText(ps)) else file' == file)
  {
    OneEntryPerKey(ps);
    if key :| Given(ps, key) {
      assert key in Firsts(ps);
      assert CollectedLines(ps) != [];
      var p :| p in ps && Gives(p, key);
    } else {
      NoMembers(Firsts(ps));
    }
  }

  lemma NoMembers(keys: seq<Key>)
    ensures keys != [] ==> exists key :: key in keys
  {
    if keys != [] { assert keys[0] in keys; }
  }

  // ---- when a refresh does something, and what sshd has loaded ----

  /** A line identifies its key: it encodes it. */
  ghost predicate LinesTellKeys(a: seq<Probe>, b: seq<Probe>) {
    forall k, k': Key | Given(a, k) && Given(b, k') && k.1 == k'.1 :: k == k'
  }

  lemma KeyFromLine(a: seq<Probe>, b: seq<Probe>, key: Key)
    requires Coherent(a) && Coherent(b) && LinesTellKeys(a, b) && Given(a, key)
    requires multiset(CollectedLines(a)) == multiset(CollectedLines(b))
    ensures Given(b, key)
  {
    OneEntryPerKey(a);
    OneEntryPerKey(b);
    var i :| 0 <= i < |Firsts(a)| && Firsts(a)[i] == key;
    assert CollectedLines(a)[i] == key.1;
    assert key.1 in multiset(CollectedLines(b));
    var j :| 0 <= j < |CollectedLines(b)| && CollectedLines(b)[j] == key.1;
    assert Firsts(b)[j] in Firsts(b);
  }

  /** The texts written for two clusters have the same lines exactly when they present the same keys. */
  lemma SameTextIffSameCAs(a: seq<Probe>, b: seq<Probe>)
    requires Coherent(a) && Coherent(b) && LinesTellKeys(a, b) && LinesTellKeys(b, a)
    ensures SameLines(KeyText(a), KeyText(b)) <==> SameCAs(a, b)
  {
    CollectedLinesSurvive(a);
    CollectedLinesSurvive(b);
    if SameCAs(a, b) {
      SameCAsSameLines(a, b);
    } else {
      forall key | multiset(CollectedLines(a)) == multiset(CollectedLines(b))
        ensures Given(a, key) <==> Given(b, key)
      {
        if Given(a, key) { KeyFromLine(a, b, key); }
        if Given(b, key) { KeyFromLine(b, a, key); }
      }
    }
  }

  /** After a refresh that got as far as comparing, the next one leaves everything alone if and only if the
      keys it sees are the same; otherwise, if file and sshd allow it, it updates both. This holds after a
      failed reload as well: whether it is made up for depends on the keys alone. */
  lemma NextRefreshActsIff(file: Option<string>, a: seq<Probe>, b: seq<Probe>, e: Responses, e': Responses)
    requires Coherent(a) && Coherent(b) && LinesTellKeys(a, b) && LinesTellKeys(b, a)
    requires Compared(RefreshSpec(file, a, e).1) && CollectedLines(b) != [] && e'.readable
    ensures var r := RefreshSpec(RefreshSpec(file, a, e).0, b, e').1;
            && (r.Unchanged? <==> SameCAs(a, b))
            && (e'.write && e'.reload ==> (r.Updated? <==> !SameCAs(a, b)))
  {
    ComparedFileMatches(file, a, e);
    SameTextIffSameCAs(a, b);
    assert b != [];
  }

  /** One attempt: what the controllers presented and how the system responded. */
  type Attempt = (seq<Probe>, Responses)

  function Attempts(st: Store, rs: seq<Attempt>): Store {
    if rs == [] then st
    else RefreshStore(Attempts(st, rs[..|rs| - 1]), rs[|rs| - 1].0, rs[|rs| - 1].1).0
  }

  function Result(st: Store, rs: seq<Attempt>): Refreshed
    requires rs != []
  {
    RefreshStore(Attempts(st, rs[..|rs| - 1]), rs[|rs| - 1].0, rs[|rs| - 1].1).1
  }

  /** What enrolment leaves: the file written from the first probes, and loaded. */
  function Enrolled(ps: seq<Probe>, socket: bool): Store {
    Store(Some(KeyText(ps)), Some(KeyText(ps)), socket)
  }

  /** The probes behind the last attempt that replaced the file ... */
  function Written(ps: seq<Probe>, socket: bool, rs: seq<Attempt>): seq<Probe> {
    if rs == [] then ps
    else
      var r := Result(Enrolled(ps, socket), rs);
      if r.Updated? || r.ReloadFailed? then rs[|rs| - 1].0 else Written(ps, socket, rs[..|rs| - 1])
  }

  /** ... and behind the last one whose reload succeeded. */
  function Loaded(ps: seq<Probe>, socket: bool, rs: seq<Attempt>): seq<Probe> {
    if rs == [] then ps
    else if Result(Enrolled(ps, socket), rs).Updated? then rs[|rs| - 1].0
    else Loaded(ps, socket, rs[..|rs| - 1])
  }

  lemma RefreshedStore(st: Store, ps: seq<Probe>, e: Responses)
    ensures var (st', r) := RefreshStore(st, ps, e);
            && st'.socket == st.socket
            && st'.file == (if r.Updated? || r.ReloadFailed? then Some(KeyText(ps)) else st.file)
            && st'.loaded == (if r.Updated? then Some(KeyText(ps)) else st.loaded)
  {
  }

  lemma {:induction false} StoreHolds(ps: seq<Probe>, socket: bool, rs: seq<Attempt>)
    ensures Attempts(Enrolled(ps, socket), rs) ==
              Store(Some(KeyText(Written(ps, socket, rs))), Some(KeyText(Loaded(ps, socket, rs))), socket)
  {
    if rs == [] {
    } else {
      StoreHolds(ps, socket, rs[..|rs| - 1]);
      RefreshedStore(Attempts(Enrolled(ps, socket), rs[..|rs| - 1]), rs[|rs| - 1].0, rs[|rs| - 1].1);
    }
  }

  /** Every set of probes that matters is coherent, and lines identify keys across them. */
  ghost predicate Consistent(ps: seq<Probe>, rs: seq<Attempt>) {
    forall a, b | Probed(ps, rs, a) && Probed(ps, rs, b) :: Coherent(a) && LinesTellKeys(a, b)
  }

  predicate Probed(ps: seq<Probe>, rs: seq<Attempt>, a: seq<Probe>) {
    a == ps || exists i :: 0 <= i < |rs| && rs[i].0 == a
  }

  lemma {:induction false} WrittenIsProbed(ps: seq<Probe>, socket: bool, rs: seq<Attempt>)
    ensures Probed(ps, rs, Written(ps, socket, rs)) && Probed(ps, rs, Loaded(ps, socket, rs))
  {
    if rs == [] {
    } else {
      var front := rs[..|rs| - 1];
      WrittenIsProbed(ps, socket, front);
      forall a | Probed(ps, front, a) ensures Probed(ps, rs, a) {
        if i :| 0 <= i < |front| && front[i].0 == a { assert rs[i].0 == a; }
      }
      assert rs[|rs| - 1].0 == Written(ps, socket, rs) || Written(ps, socket, rs) == Written(ps, socket, front);
    }
  }

  lemma ProbedTexts(ps: seq<Probe>, rs: seq<Attempt>, a: seq<Probe>, b: seq<Probe>)
    requires Consistent(ps, rs) && Probed(ps, rs, a) && Probed(ps, rs, b)
    ensures SameLines(KeyText(a), KeyText(b)) <==> SameCAs(a, b)
  {
    ProbedPair(ps, rs, a, b);
    SameTextIffSameCAs(a, b);
  }

  lemma ProbedPair(ps: seq<Probe>, rs: seq<Attempt>, a: seq<Probe>, b: seq<Probe>)
    requires Consistent(ps, rs) && Probed(ps, rs, a) && Probed(ps, rs, b)
    ensures Coherent(a) && Coherent(b) && LinesTellKeys(a, b) && LinesTellKeys(b, a)
  {
  }

  /** After any sequence of refreshes, the keys in use are those in the file exactly when sshd is
      socket-activated or the last cluster written and the last one loaded present the same keys. */
  lemma SshdHasTheFileIff(ps: seq<Probe>, socket: bool, rs: seq<Attempt>)
    requires Consistent(ps, rs)
    ensures var st := Attempts(Enrolled(ps, socket), rs);
            SameLines(Content(st.InUse()), Content(st.file)) <==>
              socket || SameCAs(Loaded(ps, socket, rs), Written(ps, socket, rs))
  {
    StoreHolds(ps, socket, rs);
    WrittenIsProbed(ps, socket, rs);
    ProbedTexts(ps, rs, Loaded(ps, socket, rs), Written(ps, socket, rs));
  }

  lemma UnchangedFileMatches(st: Store, ps: seq<Probe>, e: Responses)
    requires RefreshStore(st, ps, e).1.Unchanged?
    ensures SameLines(Content(st.file), KeyText(ps)) && RefreshStore(st, ps, e).0 == st
  {
  }

  /** What a refresh that returns no error means for sshd: after Updated the keys in use are the cluster's;
      after Unchanged they are exactly when sshd is socket-activated or they are those of the last successful
      reload. */
  lemma NoErrorMeansLoadedIff(ps: seq<Probe>, socket: bool, rs: seq<Attempt>)
    requires Consistent(ps, rs) && rs != []
    ensures var st, cluster := Attempts(Enrolled(ps, socket), rs), rs[|rs| - 1].0;
            var r := Result(Enrolled(ps, socket), rs);
            && (r.Updated? ==> st.InUse() == Some(KeyText(cluster)))
            && (r.Unchanged? ==>
                  (SameLines(Content(st.InUse()), KeyText(cluster)) <==>
                     socket || SameCAs(Loaded(ps, socket, rs), cluster)))
  {
    var front, cluster, e := rs[..|rs| - 1], rs[|rs| - 1].0, rs[|rs| - 1].1;
    RefreshedStore(Attempts(Enrolled(ps, socket), front), cluster, e);
    StoreHolds(ps, socket, rs);
    WrittenIsProbed(ps, socket, rs);
    ProbedTexts(ps, rs, Loaded(ps, socket, rs), cluster);
    if Result(Enrolled(ps, socket), rs).Unchanged? {
      UnchangedFileMatches(Attempts(Enrolled(ps, socket), front), cluster, e);
    }
  }

  /** Whenever the cluster's keys change, a failing reload is reported once and then goes unnoticed: the next
      refresh returns without error, and the new keys are in use exactly if sshd is socket-activated. */
  lemma FailedReloadIsNotRetried(ps: seq<Probe>, socket: bool, changed: seq<Probe>, e: Responses, e': Responses)
    requires Coherent(ps) && Coherent(changed) && LinesTellKeys(ps, changed) && LinesTellKeys(changed, ps)
    requires !SameCAs(ps, changed) && CollectedLines(changed) != []
    requires e.readable && e.write && !e.reload && e'.readable
    ensures var (st, r) := RefreshStore(Enrolled(ps, socket), changed, e);
            var (st', r') := RefreshStore(st, changed, e');
            && r == ReloadFailed && r' == Unchanged
            && (SameLines(Content(st'.InUse()), KeyText(changed)) <==> socket)
  {
    SameTextIffSameCAs(ps, changed);
    FailedAttempt(ps, socket, changed, e);
    MatchingFileIsLeft(Some(KeyText(changed)), changed, e');
  }

  lemma FailedAttempt(ps: seq<Probe>, socket: bool, changed: seq<Probe>, e: Responses)
    requires !SameLines(KeyText(ps), KeyText(changed)) && CollectedLines(changed) != []
    requires e.readable && e.write && !e.reload
    ensures RefreshStore(Enrolled(ps, socket), changed, e) ==
              (Store(Some(KeyText(changed)), Some(KeyText(ps)), socket), ReloadFailed)
  {
    assert changed != [];
  }

  /** Two refreshes that overlap, the event listener's and the poll's: one has collected the keys of an older
      cluster when another runs in full, and then goes on. The older keys end up in the file - so the newer
      ones are there exactly if they are the same. */
  lemma OverlappingRefreshes(file: Option<string>, older: seq<Probe>, newer: seq<Probe>, e: Responses, e': Responses)
    requires Coherent(older) && Coherent(newer) && LinesTellKeys(older, newer) && LinesTellKeys(newer, older)
    requires e'.readable && e'.write
    ensures var (file', _) := Replace(RefreshSpec(file, newer, e).0, KeyText(older), e');
            && SameLines(Content(file'), KeyText(older))
            && (SameLines(Content(file'), KeyText(newer)) <==> SameCAs(older, newer))
  {
    var mid := RefreshSpec(file, newer, e).0;
    ReplacedMatches(mid, KeyText(older), e');
    SameTextIffSameCAs(older, newer);
  }
}
