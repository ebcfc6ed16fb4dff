/** The part of the operating system the host daemon drives, and the commands it runs there.
    Every command takes the outcome the system gives it as a parameter. */
module HostOs {
  import opened Options
  import opened Text

  /** IdentityPermissions: supplementary groups and a sudoers rule ("" for none). */
  datatype Perms = Perms(groups: seq<string>, rule: string)

  /** Accounts, their supplementary groups, the files in /etc/sudoers.d and the state file. */
  datatype Os = Os(
    accounts: set<string>,
    groups: map<string, seq<string>>,
    sudoers: map<string, string>,
    file: Option<string>)

  /** sessions[u]; reading a missing key of a Go map yields zero. */
  function Count(sessions: map<string, int>, u: string): int {
    if u in sessions then sessions[u] else 0
  }

  /** Any iteration order of a Go map's keys. */
  predicate Orders(order: seq<string>, keys: set<string>) {
    multiset(order) == multiset(keys)
  }

  /** ValidateSudoersRule: one line, not a comment, not a directive. */
  predicate ValidRule(rule: string) {
    && '\n' !in rule && '\r' !in rule
    && var trimmed := TrimSpace(rule);
       && !HasPrefix(trimmed, "#")
       && forall kw | kw in ["@include", "Defaults", "Cmnd_Alias", "Host_Alias", "User_Alias", "Runas_Alias"] ::
            !HasPrefix(trimmed, kw)
  }

  /** useradd -m; exit code 9 (the account exists) counts as success. */
  function UserAdd(os: Os, u: string, ok: bool): Os {
    if ok && u !in os.accounts then os.(accounts := os.accounts + {u}, groups := os.groups[u := []]) else os
  }

  /** usermod -G replaces the supplementary groups of an existing account. */
  function UserMod(os: Os, u: string, groups: seq<string>, ok: bool): Os {
    if ok && u in os.accounts then os.(groups := os.groups[u := groups]) else os
  }

  /** Validate, stage and rename; a failure leaves the installed file as it was. */
  function CreateSudoers(os: Os, u: string, rule: string, ok: bool): Os {
    if ok && ValidRule(rule) then os.(sudoers := os.sudoers[u := rule]) else os
  }

  /** A missing file is not an error. */
  function RemoveSudoers(os: Os, u: string, ok: bool): Os {
    if ok then os.(sudoers := os.sudoers - {u}) else os
  }

  /** userdel -r fails on an account that does not exist. */
  predicate Deletes(os: Os, u: string, ok: bool) {
    ok && u in os.accounts
  }

  /** deleteUser: remove the sudoers file (failure ignored), then userdel. */
  function DeleteUser(os: Os, u: string, rm: bool, ok: bool): Os {
    var os' := RemoveSudoers(os, u, rm);
    if Deletes(os, u, ok) then os'.(accounts := os'.accounts - {u}, groups := os'.groups - {u}) else os'
  }

  /** writeStateFile: the old content or the new lines, never a mixture (module AtomicFile). */
  function WriteStateFile(os: Os, lines: seq<string>, ok: bool): Os {
    if ok then os.(file := Some(Unlines(lines))) else os
  }
}
