/** Replacing a file through a temporary sibling, on a file system that may crash after any step. */
module AtomicFile {
  import opened Options

  type Content = seq<int>

  /** Names bind to inodes. Until the directory is synced a crash may bring back any binding a name has
      had since the last sync; until an inode is synced a crash may leave anything in it. */
  datatype Disk = Disk(
    dir: map<string, nat>,
    past: map<string, set<Option<nat>>>,
    data: map<nat, Content>,
    synced: set<nat>,
    next: nat)
  {
    function Binding(name: string): Option<nat> {
      if name in dir then Some(dir[name]) else None
    }

    /** The bindings a crash may leave for a name. */
    function Bindings(name: string): set<Option<nat>> {
      (if name in past then past[name] else {}) + {Binding(name)}
    }

    function Read(name: string): Option<Content> {
      if name in dir && dir[name] in data then Some(data[dir[name]]) else None
    }

    ghost predicate Valid() {
      && (forall name | name in dir :: dir[name] < next)
      && (forall name, b | name in past && b in past[name] && b.Some? :: b.value < next)
      && (forall i | i in synced :: i in data && i < next)
      && (forall i | i in data :: i < next)
    }
  }

  /** What a reader may find under a name after a crash in this state. */
  ghost predicate MayHold(d: Disk, name: string, c: Option<Content>) {
    exists b :: b in d.Bindings(name) && BoundTo(d, b, c)
  }

  ghost predicate BoundTo(d: Disk, b: Option<nat>, c: Option<Content>) {
    if b == None then c == None
    else c.Some? && (b.value in d.synced && b.value in d.data ==> c.value == d.data[b.value])
  }

  // ---- the system calls ----

  function Rebind(d: Disk, name: string, b: Option<nat>): Disk {
    d.(dir := if b == None then d.dir - {name} else d.dir[name := b.value],
       past := d.past[name := d.Bindings(name)])
  }

  function CreateFile(d: Disk, name: string): Disk {
    var d' := d.(data := d.data[d.next := []], next := d.next + 1, synced := d.synced - {d.next});
    Rebind(d', name, Some(d.next))
  }

  function WriteInode(d: Disk, i: nat, c: Content): Disk {
    d.(data := d.data[i := c], synced := d.synced - {i})
  }

  function SyncInode(d: Disk, i: nat): Disk {
    if i in d.data then d.(synced := d.synced + {i}) else d
  }

  function RenameFile(d: Disk, from: string, to: string): Disk
    requires from in d.dir
  {
    Rebind(Rebind(d, to, Some(d.dir[from])), from, None)
  }

  function RemoveFile(d: Disk, name: string): Disk {
    if name in d.dir then Rebind(d, name, None) else d
  }

  /** Every binding in the directory becomes the durable one. */
  function SyncDirectory(d: Disk): Disk {
    d.(past := map[])
  }

  /** Which calls of one replacement succeed; cut is how much a failing write gets out. */
  datatype Calls = Calls(create: bool, write: bool, cut: nat, sync: bool, chmod: bool, close: bool,
                         rename: bool, openDir: bool, syncDir: bool, remove: bool)

  /** The temporary file can be made ready and renamed. */
  predicate Replaces(c: Calls) {
    c.create && c.write && c.sync && c.chmod && c.close && c.rename
  }

  function Cut(data: Content, c: Calls): Content {
    if c.write then data else if c.cut < |data| then data[..c.cut] else data
  }

  class FileSystem {
    var disk: Disk
    ghost var trace: seq<Disk>   // every state so far in which the machine could have crashed

    constructor (disk: Disk)
      ensures this.disk == disk && trace == [disk]
    {
      this.disk, this.trace := disk, [disk];
    }

    method Become(d: Disk)
      modifies this
      ensures disk == d && trace == old(trace) + [d]
    {
      disk, trace := d, trace + [d];
    }

    /** The crash points of a replacement: the destination is wholly what it was or wholly new, both for
        a reader running now and for one after a crash. */
    ghost predicate AtomicSince(n: nat, was: Disk, dest: string, data: Content)
      reads this
    {
      n <= |trace| && forall k | n <= k < |trace| :: Whole(trace[k], was, dest, data)
    }

    /** Create, write, sync, chmod and close the temporary file. */
    method Stage(dest: string, data: Content, tmp: string, c: Calls) returns (created: bool, ok: bool)
      requires disk.Valid() && tmp !in disk.dir && tmp != dest
      modifies this
      ensures AtomicSince(|old(trace)|, old(disk), dest, data) && old(trace) <= trace
      ensures created == c.create && ok == (c.create && c.write && c.sync && c.chmod && c.close)
      ensures disk.Valid() && if created then Working(old(disk), disk, dest, tmp) else disk == old(disk)
      ensures ok ==> Staged(disk, tmp, data)
    {
      if !c.create {
        return false, false;
      }
      ghost var was := disk;
      var i := disk.next;
      Become(CreateFile(disk, tmp));
      CreateWorks(was, dest, tmp);
      StagingIsHarmless(was, disk, dest, tmp, data);
      ghost var created' := disk;
      Become(WriteInode(disk, i, Cut(data, c)));
      WriteWorks(was, created', dest, tmp, Cut(data, c));
      StagingIsHarmless(was, disk, dest, tmp, data);
      if !c.write || !c.sync {
        return true, false;
      }
      ghost var written := disk;
      Become(SyncInode(disk, i));
      SyncWorks(was, written, dest, tmp, data);
      StagingIsHarmless(was, disk, dest, tmp, data);
      return true, c.chmod && c.close;
    }

    /** os.Remove of the temporary file. */
    method CleanUp(tmp: string, ok: bool, ghost was: Disk, dest: string, data: Content)
      requires was.Valid() && Working(was, disk, dest, tmp)
      modifies this
      ensures old(trace) <= trace && forall k | |old(trace)| <= k < |trace| :: Whole(trace[k], was, dest, data)
      ensures disk.Valid() && Unseen(was, disk, dest)
      ensures ok ==> disk.dir == was.dir
    {
      if ok {
        ghost var d := disk;
        Become(RemoveFile(disk, tmp));
        RemoveWorks(was, d, dest, tmp, data);
      }
    }

    /** AtomicWriteFile of package config: the directory sync is best effort. */
    method AtomicWriteFile(dest: string, data: Content, tmp: string, c: Calls) returns (err: bool)
      requires disk.Valid() && tmp !in disk.dir && tmp != dest
      modifies this
      ensures disk.Valid() && old(trace) <= trace && AtomicSince(|old(trace)|, old(disk), dest, data)
      ensures err <==> !Replaces(c)
      ensures err ==> Unseen(old(disk), disk, dest) && (c.remove ==> disk.dir == old(disk).dir)
      ensures !err ==> disk.Read(dest) == Some(data) && disk.dir.Keys == old(disk).dir.Keys + {dest}
      ensures !err && c.openDir && c.syncDir ==> Durable(disk, dest, data)
      ensures !err && !(c.openDir && c.syncDir) ==> forall k | MayHold(old(disk), dest, k) :: MayHold(disk, dest, k)
    {
      ghost var was := disk;
      var created, ok := Stage(dest, data, tmp, c);
      if !created {
        return true;
      }
      if !ok || !c.rename {
        CleanUp(tmp, c.remove, was, dest, data);
        return true;
      }
      Install(dest, data, tmp, was);
      if c.openDir && c.syncDir {
        SyncDir(dest, data, was);
      }
      return false;
    }

    /** atomicWriteFile of package host: a failing directory sync is an error. */
    method HostAtomicWriteFile(dest: string, data: Content, tmp: string, c: Calls) returns (err: bool)
      requires disk.Valid() && tmp !in disk.dir && tmp != dest
      modifies this
      ensures disk.Valid() && old(trace) <= trace && AtomicSince(|old(trace)|, old(disk), dest, data)
      ensures err <==> !(Replaces(c) && c.openDir && c.syncDir)
      ensures !err ==> disk.Read(dest) == Some(data) && Durable(disk, dest, data)
      ensures err ==> Unseen(old(disk), disk, dest) || disk.Read(dest) == Some(data)
      ensures err && disk.Read(dest) != old(disk).Read(dest) ==> c.rename && !(c.openDir && c.syncDir)
      ensures err && c.remove ==> tmp !in disk.dir
    {
      ghost var was := disk;
      var created, ok := Stage(dest, data, tmp, c);
      if !created {
        return true;
      }
      if !ok || !c.rename {
        CleanUp(tmp, c.remove, was, dest, data);
        return true;
      }
      Install(dest, data, tmp, was);
      if !c.openDir || !c.syncDir {
        // The deferred removal finds no temporary file any more.
        return true;
      }
      SyncDir(dest, data, was);
      return false;
    }

    /** writeStateFile: like AtomicWriteFile, after creating the directory. */
    method WriteStateFile(mkdir: bool, dest: string, data: Content, tmp: string, c: Calls) returns (err: bool)
      requires disk.Valid() && tmp !in disk.dir && tmp != dest
      modifies this
      ensures disk.Valid() && old(trace) <= trace && AtomicSince(|old(trace)|, old(disk), dest, data)
      ensures err <==> !(mkdir && Replaces(c))
      ensures err ==> Unseen(old(disk), disk, dest) && (c.remove ==> disk.dir == old(disk).dir)
      ensures !err ==> disk.Read(dest) == Some(data) && disk.dir.Keys == old(disk).dir.Keys + {dest}
      ensures !err && c.openDir && c.syncDir ==> Durable(disk, dest, data)
      ensures !err && !(c.openDir && c.syncDir) ==> forall k | MayHold(old(disk), dest, k) :: MayHold(disk, dest, k)
    {
      if !mkdir {
        return true;
      }
      err := AtomicWriteFile(dest, data, tmp, c);
    }

    /** os.Rename of the staged file over the destination. */
    method Install(dest: string, data: Content, tmp: string, ghost was: Disk)
      requires was.Valid() && Working(was, disk, dest, tmp) && Staged(disk, tmp, data) && tmp != dest && tmp !in was.dir
      modifies this
      ensures disk.Valid() && trace == old(trace) + [disk] && Whole(disk, was, dest, data)
      ensures forall k | MayHold(was, dest, k) :: MayHold(disk, dest, k)
      ensures disk.Read(dest) == Some(data) && disk.dir.Keys == was.dir.Keys + {dest}
      ensures dest in disk.dir && disk.dir[dest] in disk.synced
    {
      ghost var d := disk;
      Become(RenameFile(disk, tmp, dest));
      RenameInstalls(was, d, dest, tmp, data);
    }

    method SyncDir(dest: string, data: Content, ghost was: Disk)
      requires disk.Valid() && disk.Read(dest) == Some(data) && disk.dir[dest] in disk.synced
      modifies this
      ensures disk.Valid() && trace == old(trace) + [disk] && Whole(disk, was, dest, data)
      ensures disk.Read(dest) == Some(data) && disk.dir == old(disk).dir && Durable(disk, dest, data)
    {
      Become(SyncDirectory(disk));
      SyncedIsDurable(disk, dest, data);
    }
  }

  ghost predicate Whole(d: Disk, was: Disk, dest: string, data: Content) {
    && (d.Read(dest) == was.Read(dest) || d.Read(dest) == Some(data))
    && forall c | MayHold(d, dest, c) :: MayHold(was, dest, c) || c == Some(data)
  }

  /** No reader of dest can tell, now or after a crash. */
  ghost predicate Unseen(was: Disk, d: Disk, dest: string) {
    d.Read(dest) == was.Read(dest) && forall c :: MayHold(d, dest, c) <==> MayHold(was, dest, c)
  }

  /** After any crash dest holds exactly data. */
  ghost predicate Durable(d: Disk, dest: string, data: Content) {
    forall c :: MayHold(d, dest, c) <==> c == Some(data)
  }

  /** A temporary file is in the works: a new inode under a new name, everything else as it was. */
  ghost predicate Working(was: Disk, d: Disk, dest: string, tmp: string) {
    && d.Valid() && was.next < d.next && tmp != dest
    && tmp in d.dir && d.dir[tmp] == was.next && d.dir - {tmp} == was.dir
    && d.Bindings(dest) == was.Bindings(dest)
    && was.next in d.data
    && (forall i | i < was.next :: (i in d.data <==> i in was.data) && (i in d.synced <==> i in was.synced))
    && (forall i | i < was.next && i in was.data :: d.data[i] == was.data[i])
  }

  /** The temporary name holds the complete new content, durably. */
  ghost predicate Staged(d: Disk, tmp: string, data: Content) {
    tmp in d.dir && d.dir[tmp] in d.synced && d.Read(tmp) == Some(data)
  }

  lemma CreateWorks(was: Disk, dest: string, tmp: string)
    requires was.Valid() && tmp !in was.dir && tmp != dest
    ensures Working(was, CreateFile(was, tmp), dest, tmp)
  {
  }

  lemma WriteWorks(was: Disk, d: Disk, dest: string, tmp: string, c: Content)
    requires Working(was, d, dest, tmp)
    ensures Working(was, WriteInode(d, was.next, c), dest, tmp)
    ensures WriteInode(d, was.next, c).Read(tmp) == Some(c)
  {
  }

  lemma SyncWorks(was: Disk, d: Disk, dest: string, tmp: string, data: Content)
    requires Working(was, d, dest, tmp)
    ensures Working(was, SyncInode(d, was.next), dest, tmp)
    ensures d.Read(tmp) == Some(data) ==> Staged(SyncInode(d, was.next), tmp, data)
  {
  }

  /** Old bindings of dest are old inodes, which staging does not touch. */
  lemma SameInodesSameContents(was: Disk, d: Disk, dest: string, c: Option<Content>)
    requires was.Valid() && d.Bindings(dest) == was.Bindings(dest)
    requires forall i | i < was.next :: (i in d.data <==> i in was.data) && (i in d.synced <==> i in was.synced)
    requires forall i | i < was.next && i in was.data :: d.data[i] == was.data[i]
    ensures MayHold(d, dest, c) <==> MayHold(was, dest, c)
  {
    forall b | b in was.Bindings(dest) ensures BoundTo(d, b, c) <==> BoundTo(was, b, c) {
      assert b.Some? ==> b.value < was.next;
    }
  }

  lemma StagingIsHarmless(was: Disk, d: Disk, dest: string, tmp: string, data: Content)
    requires was.Valid() && Working(was, d, dest, tmp)
    ensures Unseen(was, d, dest) && Whole(d, was, dest, data)
  {
    forall c ensures MayHold(d, dest, c) <==> MayHold(was, dest, c) {
      SameInodesSameContents(was, d, dest, c);
    }
    assert dest in was.dir <==> dest in d.dir - {tmp};
  }

  lemma RemoveWorks(was: Disk, d: Disk, dest: string, tmp: string, data: Content)
    requires was.Valid() && Working(was, d, dest, tmp)
    ensures var d' := RemoveFile(d, tmp);
            d'.Valid() && d'.dir == was.dir && Unseen(was, d', dest) && Whole(d', was, dest, data)
  {
    var d' := RemoveFile(d, tmp);
    assert d'.Bindings(dest) == was.Bindings(dest);
    forall c ensures MayHold(d', dest, c) <==> MayHold(was, dest, c) {
      SameInodesSameContents(was, d', dest, c);
    }
  }

  lemma RenameRebinds(was: Disk, d: Disk, dest: string, tmp: string, data: Content)
    requires was.Valid() && Working(was, d, dest, tmp) && Staged(d, tmp, data) && tmp !in was.dir
    ensures var d' := RenameFile(d, tmp, dest);
            && d'.Read(dest) == Some(data)
            && d'.dir.Keys == was.dir.Keys + {dest} && d'.dir[dest] in d'.synced
            && d'.Bindings(dest) == d.Bindings(dest) + {Some(was.next)}
            && d'.data == d.data && d'.synced == d.synced
  {
  }

  lemma RenameIsValid(d: Disk, from: string, to: string)
    requires d.Valid() && from in d.dir
    ensures RenameFile(d, from, to).Valid()
  {
    RebindIsValid(d, to, Some(d.dir[from]));
    RebindIsValid(Rebind(d, to, Some(d.dir[from])), from, None);
  }

  lemma RebindIsValid(d: Disk, name: string, b: Option<nat>)
    requires d.Valid() && (b.Some? ==> b.value < d.next)
    ensures Rebind(d, name, b).Valid()
  {
  }

  /** After the rename a crash may leave the old bindings of dest or the new inode, which is synced. */
  lemma RenameInstalls(was: Disk, d: Disk, dest: string, tmp: string, data: Content)
    requires was.Valid() && Working(was, d, dest, tmp) && Staged(d, tmp, data) && tmp !in was.dir
    ensures var d' := RenameFile(d, tmp, dest);
            && d'.Valid() && Whole(d', was, dest, data) && d'.Read(dest) == Some(data)
            && (forall c | MayHold(was, dest, c) :: MayHold(d', dest, c))
            && d'.dir.Keys == was.dir.Keys + {dest} && d'.dir[dest] in d'.synced
  {
    RenameRebinds(was, d, dest, tmp, data);
    RenameIsValid(d, tmp, dest);
    var d' := RenameFile(d, tmp, dest);
    forall c ensures MayHold(d', dest, c) <==> MayHold(was, dest, c) || c == Some(data) {
      SameInodesSameContents(was, d, dest, c);
      forall b | b in d.Bindings(dest) ensures BoundTo(d', b, c) <==> BoundTo(d, b, c) { }
      assert BoundTo(d', Some(was.next), c) <==> c == Some(data);
    }
  }

  lemma SyncedIsDurable(d: Disk, dest: string, data: Content)
    requires d.past == map[] && d.Read(dest) == Some(data) && d.dir[dest] in d.synced
    ensures Durable(d, dest, data)
  {
    assert d.Bindings(dest) == {Some(d.dir[dest])};
    assert BoundTo(d, Some(d.dir[dest]), Some(data));
  }
}
