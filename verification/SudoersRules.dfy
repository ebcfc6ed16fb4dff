/** Which sudoers rules are accepted: those that cannot be anything but one rule for the user. */
module SudoersRules {
  import opened Text
  import opened TextLaws
  import opened HostOs

  /** The text begins a comment or a directive. */
  predicate Directive(s: string) {
    || "#" <= s || "@include" <= s || "Defaults" <= s
    || "Cmnd_Alias" <= s || "Host_Alias" <= s || "User_Alias" <= s || "Runas_Alias" <= s
  }

  /** k is where the text begins after its leading white space. */
  predicate BeginsAt(rule: string, k: nat)
    requires k <= |rule|
  {
    AllWhite(rule[..k]) && (k < |rule| ==> !White(rule[k]))
  }

  /** One line that begins no comment and no directive. */
  ghost predicate Admissible(rule: string) {
    && (forall i | 0 <= i < |rule| :: rule[i] != '\n' && rule[i] != '\r')
    && forall k | 0 <= k <= |rule| && BeginsAt(rule, k) :: !Directive(rule[k..])
  }

  /** Directives contain no white space, so what follows the core does not matter. */
  lemma PrefixInCore(kw: string, core: string, right: string)
    requires kw != "" && (forall i | 0 <= i < |kw| :: !White(kw[i])) && AllWhite(right)
    ensures kw <= core + right <==> kw <= core
  {
    var s := core + right;
    assert |core| < |s| ==> s[|core|] == right[0] && White(s[|core|]);
    if kw <= s && |kw| <= |core| {
      assert kw == s[..|kw|] == core[..|kw|];
    }
    if kw <= core {
      assert kw == core[..|kw|] == s[..|kw|];
    }
  }

  lemma DirectiveInCore(core: string, right: string)
    requires AllWhite(right)
    ensures Directive(core + right) <==> Directive(core)
  {
    PrefixInCore("#", core, right);
    PrefixInCore("@include", core, right);
    PrefixInCore("Defaults", core, right);
    PrefixInCore("Cmnd_Alias", core, right);
    PrefixInCore("Host_Alias", core, right);
    PrefixInCore("User_Alias", core, right);
    PrefixInCore("Runas_Alias", core, right);
  }

  lemma ValidCore(rule: string)
    ensures ValidRule(rule) <==>
              (forall i | 0 <= i < |rule| :: rule[i] != '\n' && rule[i] != '\r') && !Directive(TrimSpace(rule))
  {
    var kws := ["@include", "Defaults", "Cmnd_Alias", "Host_Alias", "User_Alias", "Runas_Alias"];
    assert kws[0] in kws && kws[1] in kws && kws[2] in kws && kws[3] in kws && kws[4] in kws && kws[5] in kws;
  }

  /** A text begins at one place only. */
  lemma BeginsOnce(rule: string, k: nat, j: nat)
    requires k <= |rule| && j <= |rule| && BeginsAt(rule, k) && BeginsAt(rule, j)
    ensures j == k
  {
  }

  /** ... after the white space on its left. */
  lemma BeginsAfterLeft(rule: string, left: string, core: string, right: string) returns (k: nat)
    requires Core(left, core, right) && rule == left + core + right
    ensures k <= |rule| && BeginsAt(rule, k) && (Directive(rule[k..]) <==> Directive(core))
  {
    DirectiveInCore(core, right);
    if core == "" {
      k := |rule|;
      assert rule[..k] == rule && rule[k..] == "";
    } else {
      k := |left|;
      assert rule[..k] == left && rule[k..] == core + right;
    }
  }

  /** Validation accepts exactly the admissible rules. */
  lemma ValidIffAdmissible(rule: string)
    ensures ValidRule(rule) <==> Admissible(rule)
  {
    ValidCore(rule);
    var left, right := HasACore(rule);
    var k := BeginsAfterLeft(rule, left, TrimSpace(rule), right);
    forall j | 0 <= j <= |rule| && BeginsAt(rule, j) ensures j == k { BeginsOnce(rule, k, j); }
  }
}
