/** The user manager as the daemon runs it when operations do not overlap. */
module UserManagers {
  import opened Options
  import opened HostOs
  import opened Text
  import opened Serial

  class UserManager {
    var sessions: map<string, int>        // username -> active session count
    var owners: map<string, string>       // username -> identity that opened the account
    var userLocks: map<string, nat>       // username -> its mutex, by serial number
    var nextLock: nat
    var os: Os                            // the host, reached through commands
    const cleanupOnDisconnect: bool

    constructor (os: Os, cleanupOnDisconnect: bool)
      ensures View() == Serial.View(map[], map[], os) && userLocks == map[]
      ensures this.cleanupOnDisconnect == cleanupOnDisconnect
    {
      this.sessions, this.owners, this.userLocks, this.nextLock := map[], map[], map[], 0;
      this.os := os;
      this.cleanupOnDisconnect := cleanupOnDisconnect;
    }

    function View(): View
      reads this
    {
      Serial.View(sessions, owners, os)
    }

    method EnsureUser(identity: string, username: string, perms: Perms, e: Answers)
      returns (r: Ensured, ghost order: seq<string>)
      modifies this
      ensures (View(), r) == Ensure(old(View()), identity, username, perms, e, order)
      ensures r == Ready && old(Count(sessions, username)) == 0 ==> Orders(order, sessions.Keys)
      ensures forall u | u in old(userLocks) :: u in userLocks && userLocks[u] == old(userLocks[u])
      ensures !r.Rejected? ==> username in userLocks
    {
      order := [];
      // Phase 1: ownership check, session bookkeeping, user mutex.
      if username in owners && owners[username] != identity {
        return Rejected(owners[username]), order;
      }
      sessions := sessions[username := Count(sessions, username) + 1];
      var isFirst := sessions[username] == 1;
      if isFirst {
        owners := owners[username := identity];
      }
      if username !in userLocks {
        userLocks := userLocks[username := nextLock];
        nextLock := nextLock + 1;
      }
      // Phase 2: commands under the user mutex.
      if !isFirst {
        ApplyPermissions(username, perms, e, false);
        return Ready, order;
      }
      os := UserAdd(os, username, e.useradd);
      if !e.useradd {
        sessions := sessions[username := sessions[username] - 1];
        if sessions[username] == 0 {
          sessions := sessions - {username};
          owners := owners - {username};
        }
        Forget(old(sessions), username, 1, 0);
        Forget(old(owners), username, identity, identity);
        return UserAddFailed, order;
      }
      ApplyPermissions(username, perms, e, true);
      order := SyncStateFile(e.sync);
      return Ready, order;
    }

    /** Set the supplementary groups, then the sudoers file; only a later session removes a stale one. */
    method ApplyPermissions(username: string, perms: Perms, e: Answers, isFirst: bool)
      modifies this`os
      ensures os == Permit(old(os), username, perms, e, isFirst)
    {
      os := UserMod(os, username, perms.groups, e.usermod);
      if perms.rule != "" {
        os := CreateSudoers(os, username, perms.rule, e.sudoers);
      } else if !isFirst {
        os := RemoveSudoers(os, username, e.sudoers);
      }
    }

    method ReleaseUser(username: string, e: Answers) returns (r: Released, ghost order: seq<string>)
      modifies this`sessions, this`owners, this`os
      ensures (View(), r) == Release(old(View()), cleanupOnDisconnect, username, e, order)
      ensures r.Released? ==> Orders(order, sessions.Keys)
    {
      order := [];
      if Count(sessions, username) <= 0 {
        return UntrackedError, order;
      }
      sessions := sessions[username := sessions[username] - 1];
      if sessions[username] > 0 {
        return StillActive(sessions[username]), order;
      }
      sessions := sessions - {username};
      owners := owners - {username};
      Forget(old(sessions), username, 0, 0);
      if !cleanupOnDisconnect {
        os := RemoveSudoers(os, username, e.sudoers);
        order := SyncStateFile(e.sync);
        return Released.Released, order;
      }
      var gone := Deletes(os, username, e.userdel);
      os := DeleteUser(os, username, e.sudoers, e.userdel);
      if !gone {
        return DeleteFailed, order;
      }
      order := SyncStateFile(e.sync);
      return Released.Released, order;
    }

    /** Snapshot the session keys, in whatever order the map yields them, and write them. */
    method SyncStateFile(ok: bool) returns (lines: seq<string>)
      modifies this`os
      ensures Orders(lines, sessions.Keys)
      ensures os == WriteStateFile(old(os), lines, ok)
    {
      lines := [];
      var rest := sessions.Keys;
      while rest != {}
        invariant rest <= sessions.Keys && multiset(lines) + multiset(rest) == multiset(sessions.Keys)
        decreases rest
      {
        var u :| u in rest;
        lines, rest := lines + [u], rest - {u};
      }
      WriteLines(lines, ok);
    }

    /** Join with newlines and end with one, then replace the file. */
    method WriteLines(lines: seq<string>, ok: bool)
      modifies this`os
      ensures os == WriteStateFile(old(os), lines, ok)
    {
      var content := Join(lines);
      if |lines| > 0 {
        content := content + "\n";
      }
      JoinIsUnlines(lines);
      if ok {
        os := os.(file := Some(content));
      }
    }

    /** Startup recovery: delete every listed username, keep the ones that could not be deleted. */
    method CleanupOrphans(readable: bool, can: set<string>, rm: set<string>, ok: bool)
      returns (failed: bool, left: seq<string>)
      modifies this`os
      ensures old(os).file == None || !readable ==> os == old(os) && left == [] && failed == old(os).file.Some?
      ensures old(os).file.Some? && readable ==>
                var (os1, left1) := Sweep(old(os), cleanupOnDisconnect, FileUsers(old(os)), can, rm);
                left == left1 && os == WriteStateFile(os1, left, ok) && failed == !ok
    {
      left := [];
      if os.file == None {
        return false, [];
      }
      if !readable {
        return true, [];
      }
      var users := Lines(os.file.value);
      for i := 0 to |users|
        invariant (os, left) == Sweep(old(os), cleanupOnDisconnect, users[..i], can, rm)
      {
        assert users[..i + 1][..i] == users[..i];
        var username := users[i];
        if cleanupOnDisconnect {
          if !Deletes(os, username, username in can) {
            left := left + [username];
          }
          os := DeleteUser(os, username, username in rm, username in can);
        }
      }
      assert users[..|users|] == users;
      WriteLines(left, ok);
      failed := !ok;
    }
  }

  lemma Forget<T>(m: map<string, T>, u: string, a: T, b: T)
    ensures m[u := a] - {u} == m - {u} && m[u := a][u := b] - {u} == m - {u}
  {
  }

  /** strings.Join(lines, "\n") */
  function Join(lines: seq<string>): string {
    if lines == [] then "" else if |lines| == 1 then lines[0] else lines[0] + "\n" + Join(lines[1..])
  }

  lemma {:induction false} JoinIsUnlines(lines: seq<string>)
    ensures Join(lines) + (if |lines| > 0 then "\n" else "") == Unlines(lines)
  {
    if |lines| == 0 {
    } else if |lines| == 1 {
      assert Unlines(lines) == lines[0] + "\n" + Unlines([]);
    } else {
      JoinIsUnlines(lines[1..]);
      assert Join(lines) + "\n" == lines[0] + "\n" + (Join(lines[1..]) + "\n");
    }
  }
}
