/** Deriving a Linux username from a Ziti identity name. */
module Username {
  import opened Text

  /** unicode.ToLower: a function on code points of which only its effect on the kept characters matters. */
  type Lower = char -> char

  predicate Kept(c: char) {
    'a' <= c <= 'z' || '0' <= c <= '9' || c == '_' || c == '-'
  }

  predicate IsDigit(c: char) {
    '0' <= c <= '9'
  }

  ghost predicate FixesKept(lower: Lower) {
    forall c :: Kept(c) ==> lower(c) == c
  }

  function Clean(lower: Lower, c: char): char {
    if Kept(lower(c)) then lower(c) else '_'
  }

  function CleanAll(lower: Lower, s: string): (r: string)
    ensures |r| == |s| && forall i | 0 <= i < |s| :: r[i] == Clean(lower, s[i])
  {
    if s == "" then "" else CleanAll(lower, s[..|s| - 1]) + [Clean(lower, s[|s| - 1])]
  }

  function Derive(lower: Lower, identity: string): string {
    var cleaned := CleanAll(lower, identity);
    var started := if cleaned != "" && IsDigit(cleaned[0]) then "z" + cleaned else cleaned;
    if |started| > 32 then started[..32] else started
  }

  method DeriveUsername(lower: Lower, identity: string) returns (result: string)
    ensures result == Derive(lower, identity)
  {
    var s := "";
    for i := 0 to |identity|
      invariant |s| == i && forall j | 0 <= j < i :: s[j] == lower(identity[j])
    {
      s := s + [lower(identity[i])];
    }
    var b := "";
    for i := 0 to |s|
      invariant b == CleanAll(lower, identity[..i])
    {
      assert identity[..i + 1][..i] == identity[..i];
      var r := s[i];
      if ('a' <= r <= 'z') || ('0' <= r <= '9') || r == '_' || r == '-' {
        b := b + [r];
      } else {
        b := b + ['_'];
      }
    }
    assert identity[..|identity|] == identity;
    result := b;
    if |result| > 0 && '0' <= result[0] <= '9' {
      result := "z" + result;
    }
    if |result| > 32 {
      result := result[..32];
    }
  }

  /** One more character if the first one is a digit. */
  function Shift(lower: Lower, identity: string): nat {
    if identity != "" && '0' <= lower(identity[0]) <= '9' then 1 else 0
  }

  /** What a character becomes. */
  function Becomes(lower: Lower, c: char): char {
    var l := lower(c);
    if 'a' <= l <= 'z' || '0' <= l <= '9' || l == '_' || l == '-' then l else '_'
  }

  lemma CleanIsBecomes(lower: Lower, c: char)
    ensures Clean(lower, c) == Becomes(lower, c)
    ensures IsDigit(Clean(lower, c)) <==> '0' <= lower(c) <= '9'
  {
  }

  /** Before the cut. */
  lemma Started(lower: Lower, identity: string) returns (started: string)
    ensures Derive(lower, identity) == if |started| > 32 then started[..32] else started
    ensures |started| == |identity| + Shift(lower, identity)
    ensures Shift(lower, identity) == 1 ==> started[0] == 'z'
    ensures forall i | Shift(lower, identity) <= i < |started| ::
              started[i] == Becomes(lower, identity[i - Shift(lower, identity)])
  {
    var cleaned := CleanAll(lower, identity);
    started := if cleaned != "" && IsDigit(cleaned[0]) then "z" + cleaned else cleaned;
    if identity != "" { CleanIsBecomes(lower, identity[0]); }
    forall i | Shift(lower, identity) <= i < |started|
      ensures started[i] == Becomes(lower, identity[i - Shift(lower, identity)])
    {
      CleanIsBecomes(lower, identity[i - Shift(lower, identity)]);
    }
  }

  /** A leading digit gets a z before it, and at most 32 characters are kept. */
  lemma LengthAndPrefix(lower: Lower, identity: string)
    ensures var u := Derive(lower, identity);
            if identity != "" && '0' <= lower(identity[0]) <= '9' then
              u != "" && u[0] == 'z' && |u| == if |identity| < 32 then |identity| + 1 else 32
            else |u| == if |identity| < 32 then |identity| else 32
  {
    var started := Started(lower, identity);
  }

  /** What the i-th character becomes, after the z if there is one: its lower-case form if that may stand in
      a username, an underscore otherwise. */
  lemma CharacterByCharacter(lower: Lower, identity: string, i: nat)
    requires i + Shift(lower, identity) < 32 && i < |identity|
    ensures var u, at := Derive(lower, identity), i + if '0' <= lower(identity[0]) <= '9' then 1 else 0;
            var c := lower(identity[i]);
            && at < |u|
            && u[at] == if 'a' <= c <= 'z' || '0' <= c <= '9' || c == '_' || c == '-' then c else '_'
  {
    var started := Started(lower, identity);
    var at := i + Shift(lower, identity);
    assert started[at] == Becomes(lower, identity[at - Shift(lower, identity)]);
  }

  /** A derived name is already derived. */
  predicate Normal(u: string) {
    && |u| <= 32
    && (forall i | 0 <= i < |u| :: Kept(u[i]))
    && (u != "" ==> !IsDigit(u[0]))
  }

  /** Every result is in normal form, empty only for the empty identity. */
  lemma DeriveIsNormal(lower: Lower, identity: string)
    ensures Normal(Derive(lower, identity))
    ensures Derive(lower, identity) == "" <==> identity == ""
  {
  }

  /** The normal forms are exactly the fixed points, so deriving twice is deriving once. */
  lemma NormalIffFixed(lower: Lower, u: string)
    requires FixesKept(lower)
    ensures Normal(u) <==> Derive(lower, u) == u
    ensures Derive(lower, Derive(lower, u)) == Derive(lower, u)
  {
    DeriveIsNormal(lower, u);
    forall v | Normal(v) ensures Derive(lower, v) == v {
      assert CleanAll(lower, v) == v;
    }
  }

  /** A derived username survives the state file. */
  lemma DerivedIsPlain(lower: Lower, identity: string)
    requires identity != ""
    ensures PlainLine(Derive(lower, identity))
  {
    var u := Derive(lower, identity);
    DeriveIsNormal(lower, identity);
    assert !IsSpace(u[0]) && !IsSpace(u[|u| - 1]);
    assert TrimLeft(u) == u && TrimRight(u) == u;
  }
}
