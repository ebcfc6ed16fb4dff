/** One operation of the user manager at a time: what EnsureUser, ReleaseUser and CleanupOrphans do to
    the session books and the system, given the system's answers. */
module Serial {
  import opened Options
  import opened HostOs
  import opened Text

  /** sessions[username], owners[username] and the system. */
  datatype View = View(sessions: map<string, int>, owners: map<string, string>, os: Os)

  /** The answers to the commands of one operation. */
  datatype Answers = Answers(useradd: bool, usermod: bool, sudoers: bool, userdel: bool, sync: bool)

  datatype Ensured = Ready | Rejected(owner: string) | UserAddFailed
  datatype Released = Released | StillActive(remaining: int) | UntrackedError | DeleteFailed

  function Permit(os: Os, u: string, perms: Perms, e: Answers, first: bool): Os {
    var modded := UserMod(os, u, perms.groups, e.usermod);
    if perms.rule != "" then CreateSudoers(modded, u, perms.rule, e.sudoers)
    else if first then modded
    else RemoveSudoers(modded, u, e.sudoers)
  }

  function Ensure(v: View, identity: string, u: string, perms: Perms, e: Answers, order: seq<string>): (View, Ensured) {
    if u in v.owners && v.owners[u] != identity then (v, Rejected(v.owners[u]))
    else
      var n := Count(v.sessions, u) + 1;
      if n != 1 then
        (View(v.sessions[u := n], v.owners, Permit(v.os, u, perms, e, false)), Ready)
      else if !e.useradd then
        (v.(sessions := v.sessions - {u}, owners := v.owners - {u}), UserAddFailed)
      else
        var os := Permit(UserAdd(v.os, u, true), u, perms, e, true);
        (View(v.sessions[u := 1], v.owners[u := identity], WriteStateFile(os, order, e.sync)), Ready)
  }

  function Release(v: View, cleanup: bool, u: string, e: Answers, order: seq<string>): (View, Released) {
    var n := Count(v.sessions, u) - 1;
    if n < 0 then (v, UntrackedError)
    else if n > 0 then (v.(sessions := v.sessions[u := n]), StillActive(n))
    else
      var w := v.(sessions := v.sessions - {u}, owners := v.owners - {u});
      if !cleanup then (w.(os := WriteStateFile(RemoveSudoers(v.os, u, e.sudoers), order, e.sync)), Released)
      else
        var os := DeleteUser(v.os, u, e.sudoers, e.userdel);
        if Deletes(v.os, u, e.userdel) then (w.(os := WriteStateFile(os, order, e.sync)), Released)
        else (w.(os := os), DeleteFailed)
  }

  /** The usernames a restart finds in the state file. */
  function FileUsers(os: Os): seq<string> {
    if os.file == None then [] else Lines(os.file.value)
  }

  /** CleanupOrphans over the listed usernames; can holds those on which userdel would succeed, rm those
      whose sudoers file can be removed. */
  function Sweep(os: Os, cleanup: bool, users: seq<string>, can: set<string>, rm: set<string>): (Os, seq<string>) {
    if users == [] then (os, [])
    else
      var (os1, left) := Sweep(os, cleanup, users[..|users| - 1], can, rm);
      var u := users[|users| - 1];
      if !cleanup then (os1, left)
      else (DeleteUser(os1, u, u in rm, u in can), if Deletes(os1, u, u in can) then left else left + [u])
  }
}
