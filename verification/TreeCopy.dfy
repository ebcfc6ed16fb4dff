/** Recursive copies between two file systems: what uploadDir and downloadDir create, where, and that one
    undoes the other. Paths are absolute, as sequences of components. */
module TreeCopy {
  import opened Options

  type Bytes = seq<int>
  type Path = seq<string>

  datatype Node = FileNode(data: Bytes) | DirNode

  /** A directory tree as a walk over listings finds it. */
  datatype Tree = File(data: Bytes) | Dir(kids: Entries)
  datatype Entries = Nil | Entry(name: string, tree: Tree, rest: Entries)

  function Size(es: Entries): nat {
    match es
    case Nil => 0
    case Entry(_, t, rest) => 1 + (if t.Dir? then Size(t.kids) else 0) + Size(rest)
  }

  // ---- names and paths ----

  /** Accepted by safeName. */
  predicate SafeName(name: string) {
    && name != "" && name != "." && name != ".."
    && '/' !in name && '\\' !in name
  }

  /** What a Unix directory can contain; a backslash is an ordinary character there. */
  predicate OsName(name: string) {
    name != "" && name != "." && name != ".." && '/' !in name
  }

  /** Follow the slash-separated components of name; acc is the component being read. */
  function Walk(dir: Path, name: string, acc: string): Path
    decreases |name|
  {
    if name == "" then Enter(dir, acc)
    else if name[0] == '/' then Walk(Enter(dir, acc), name[1..], "")
    else Walk(dir, name[1..], acc + [name[0]])
  }

  function Enter(dir: Path, component: string): Path {
    if component == "" || component == "." then dir
    else if component == ".." then (if dir == [] then [] else dir[..|dir| - 1])
    else dir + [component]
  }

  /** filepath.Join(dir, name): the lexically cleaned path. */
  function Join(dir: Path, name: string): Path {
    Walk(dir, name, "")
  }

  lemma {:induction false} WalkPlain(dir: Path, name: string, acc: string)
    requires '/' !in name
    ensures Walk(dir, name, acc) == Enter(dir, acc + name)
    decreases |name|
  {
    if name == "" {
      assert acc + name == acc;
    } else {
      WalkPlain(dir, name[1..], acc + [name[0]]);
      assert acc + [name[0]] + name[1..] == acc + name;
    }
  }

  /** A plain name adds exactly one component. */
  lemma JoinPlain(dir: Path, name: string)
    requires OsName(name)
    ensures Join(dir, name) == dir + [name]
  {
    WalkPlain(dir, name, "");
    assert "" + name == name;
  }

  /** Dots are followed as usual ... */
  lemma Dots(dir: Path)
    ensures Join(dir, ".") == dir && Join(dir, "") == dir
    ensures Join(dir, "..") == if dir == [] then [] else dir[..|dir| - 1]
  {
    WalkPlain(dir, ".", "");
    WalkPlain(dir, "..", "");
    assert "" + "." == "." && "" + ".." == "..";
  }

  lemma {:induction false} WalkStepwise(dir: Path, a: string, b: string, acc: string)
    ensures Walk(dir, a + "/" + b, acc) == Walk(Walk(dir, a, acc), b, "")
    decreases |a|
  {
    var name := a + "/" + b;
    if a == "" {
      assert name[1..] == b;
    } else {
      assert name[1..] == a[1..] + "/" + b;
      if a[0] == '/' { WalkStepwise(Enter(dir, acc), a[1..], b, ""); }
      else { WalkStepwise(dir, a[1..], b, acc + [a[0]]); }
    }
  }

  /** ... and what is on the two sides of a slash one after the other. */
  lemma JoinIsStepwise(dir: Path, a: string, b: string)
    ensures Join(dir, a + "/" + b) == Join(Join(dir, a), b)
  {
    WalkStepwise(dir, a, b, "");
  }

  predicate SlashFree(p: Path) {
    forall i | 0 <= i < |p| :: '/' !in p[i]
  }

  lemma {:induction false} WalkIsSlashFree(dir: Path, name: string, acc: string)
    requires SlashFree(dir) && '/' !in acc
    ensures SlashFree(Walk(dir, name, acc))
    decreases |name|
  {
    if name == "" {
    } else if name[0] == '/' {
      WalkIsSlashFree(Enter(dir, acc), name[1..], "");
    } else {
      WalkIsSlashFree(dir, name[1..], acc + [name[0]]);
    }
  }

  /** The names that add exactly one component wherever they are joined are the plain ones, so safeName
      refuses exactly the names that do anything else, and those with a backslash. */
  lemma PlainIffOneComponent(name: string)
    ensures OsName(name) <==> forall dir :: Join(dir, name) == dir + [name]
    ensures SafeName(name) <==> '\\' !in name && forall dir :: Join(dir, name) == dir + [name]
  {
    if OsName(name) {
      forall dir ensures Join(dir, name) == dir + [name] {
        JoinPlain(dir, name);
      }
    } else if '/' in name {
      WalkIsSlashFree([], name, "");
      var one: Path := [] + [name];
      assert one[0] == name && !SlashFree(one);
      assert Join([], name) != one;
    } else {
      WalkPlain([], name, "");
      assert "" + name == name;
      assert Join([], name) == [] != [] + [name];
    }
  }

  // ---- file systems ----

  function Prefixes(p: Path): set<Path> {
    set k | 0 <= k <= |p| :: p[..k]
  }

  /** No file stands where p or a directory above it should be. */
  predicate Clear(nodes: map<Path, Node>, p: Path) {
    forall q | q in Prefixes(p) :: q in nodes ==> nodes[q].DirNode?
  }

  function Mkdirs(nodes: map<Path, Node>, p: Path): map<Path, Node> {
    nodes + map q | q in Prefixes(p) :: DirNode
  }

  class FileSystem {
    var nodes: map<Path, Node>
    const reliable: bool   // no input or output error ever happens

    constructor (nodes: map<Path, Node>, reliable: bool)
      ensures this.nodes == nodes && this.reliable == reliable
    {
      this.nodes, this.reliable := nodes, reliable;
    }

    method MkdirAll(p: Path) returns (ok: bool)
      modifies this
      ensures ok ==> Clear(old(nodes), p) && nodes == Mkdirs(old(nodes), p)
      ensures !ok ==> nodes == old(nodes)
      ensures reliable && Clear(old(nodes), p) ==> ok
    {
      var broken := *;
      if (broken && !reliable) || !Clear(nodes, p) {
        return false;
      }
      nodes := Mkdirs(nodes, p);
      return true;
    }

    /** Create or truncate, then copy; an error may leave part of the content. */
    method WriteFile(p: Path, data: Bytes) returns (ok: bool)
      modifies this
      ensures ok ==> p != [] && Dirs(old(nodes), p[..|p| - 1]) && nodes == old(nodes)[p := FileNode(data)]
      ensures !ok ==> nodes == old(nodes) || exists part :: nodes == old(nodes)[p := FileNode(part)]
      ensures (reliable && p != [] && Dirs(old(nodes), p[..|p| - 1])
               && (p in old(nodes) ==> old(nodes)[p].FileNode?)) ==> ok
    {
      if p == [] || !Dirs(nodes, p[..|p| - 1]) || (p in nodes && nodes[p].DirNode?) {
        return false;
      }
      var openFails, copyFails := *, *;
      if openFails && !reliable {
        return false;
      }
      if copyFails && !reliable {
        nodes := nodes[p := FileNode([])];
        return false;
      }
      nodes := nodes[p := FileNode(data)];
      return true;
    }
  }

  /** p and everything above it are directories. */
  predicate Dirs(nodes: map<Path, Node>, p: Path) {
    forall q | q in Prefixes(p) :: q in nodes && nodes[q].DirNode?
  }

  // ---- what a copy creates ----

  function TreeNodes(t: Tree, at: Path): map<Path, Node>
    decreases t, 1
  {
    match t
    case File(data) => map[at := FileNode(data)]
    case Dir(kids) => map[at := DirNode] + KidNodes(kids, at)
  }

  /** Later entries win, as they do when copied in order. */
  function KidNodes(es: Entries, dir: Path): map<Path, Node>
    decreases es, 0
  {
    match es
    case Nil => map[]
    case Entry(name, t, rest) => TreeNodes(t, dir + [name]) + KidNodes(rest, dir)
  }

  predicate AllNames(es: Entries, good: string -> bool) {
    match es
    case Nil => true
    case Entry(name, t, rest) => good(name) && (t.Dir? ==> AllNames(t.kids, good)) && AllNames(rest, good)
  }

  lemma {:induction false} NodesAreBelow(es: Entries, dir: Path)
    ensures forall q | q in KidNodes(es, dir) :: dir < q
    decreases es
  {
    if es.Nil? {
    } else {
      TreeIsBelow(es.tree, dir + [es.name]);
      NodesAreBelow(es.rest, dir);
    }
  }

  lemma {:induction false} TreeIsBelow(t: Tree, at: Path)
    ensures forall q | q in TreeNodes(t, at) :: at <= q
    decreases t
  {
    if t.File? {
    } else {
      NodesAreBelow(t.kids, at);
    }
  }

  lemma MkdirsBelowDirs(nodes: map<Path, Node>, dir: Path, name: string)
    requires Dirs(nodes, dir)
    ensures Mkdirs(nodes, dir + [name]) == nodes + map[dir + [name] := DirNode]
  {
    var p := dir + [name];
    forall q ensures q in Prefixes(p) <==> q in Prefixes(dir) || q == p {
      if q in Prefixes(p) {
        var k :| 0 <= k <= |p| && q == p[..k];
        if k <= |dir| { assert q == dir[..k]; }
      }
      if q in Prefixes(dir) {
        var k :| 0 <= k <= |dir| && q == dir[..k];
        assert q == p[..k];
      }
      assert p[..|p|] == p;
    }
  }

  lemma MkdirsMakesDirs(nodes: map<Path, Node>, p: Path)
    ensures Dirs(Mkdirs(nodes, p), p)
  {
  }

  lemma DirsSurvive(nodes: map<Path, Node>, more: map<Path, Node>, dir: Path)
    requires Dirs(nodes, dir) && forall q | q in more :: dir < q
    ensures Dirs(nodes + more, dir)
  {
    forall q | q in Prefixes(dir) ensures q !in more { }
  }

  lemma PlusAssociates(a: map<Path, Node>, b: map<Path, Node>, c: map<Path, Node>)
    ensures a + b + c == a + (b + c)
  {
  }

  // ---- names ----

  function NamesOf(es: Entries): set<string> {
    match es case Nil => {} case Entry(name, _, rest) => {name} + NamesOf(rest)
  }

  /** No directory lists a name twice. */
  predicate Distinct(es: Entries) {
    match es
    case Nil => true
    case Entry(name, t, rest) => name !in NamesOf(rest) && (t.Dir? ==> Distinct(t.kids)) && Distinct(rest)
  }

  /** Nothing is at or below p yet. */
  predicate Vacant(nodes: map<Path, Node>, p: Path) {
    forall q | q in nodes :: !(p <= q)
  }

  /** A directory that is missing or empty, under directories. */
  predicate Fresh(nodes: map<Path, Node>, dir: Path) {
    Clear(nodes, dir) && forall q | q in nodes :: !(dir < q)
  }

  /** No entry of es has been copied into dir yet. */
  predicate Unstarted(nodes: map<Path, Node>, dir: Path, es: Entries) {
    forall q | q in nodes && dir < q :: q[|dir|] !in NamesOf(es)
  }

  lemma UnstartedEntry(nodes: map<Path, Node>, dir: Path, es: Entries)
    requires es.Entry? && Distinct(es) && Unstarted(nodes, dir, es) && Dirs(nodes, dir)
    ensures Vacant(nodes, dir + [es.name]) && Fresh(nodes, dir + [es.name])
    ensures Unstarted(nodes + TreeNodes(es.tree, dir + [es.name]), dir, es.rest)
  {
    var p := dir + [es.name];
    assert es.name in NamesOf(es);
    forall q | q in nodes && dir < q ensures !(p <= q) {
      assert q[|dir|] != es.name;
    }
    forall q | q in Prefixes(p) && q in nodes ensures nodes[q].DirNode? {
      var k :| 0 <= k <= |p| && q == p[..k];
      if k <= |dir| { assert q == dir[..k] && q in Prefixes(dir); }
    }
    TreeIsBelow(es.tree, p);
  }

  lemma FreshIsUnstarted(nodes: map<Path, Node>, dir: Path, es: Entries)
    requires Fresh(nodes, dir)
    ensures Unstarted(Mkdirs(nodes, dir), dir, es)
  {
  }

  /** The loop that copies a file: it may stop short because the source cannot be read on. */
  // ---- what a chain of names leads to ----

  /** Follow a chain of names through a listing and its sublistings. */
  function Lookup(es: Entries, chain: Path): Option<Tree>
    requires chain != []
    decreases es, 0
  {
    match es
    case Nil => None
    case Entry(name, t, rest) => if name == chain[0] then Within(t, chain[1..]) else Lookup(rest, chain)
  }

  function Within(t: Tree, chain: Path): Option<Tree>
    decreases t, 1
  {
    if chain == [] then Some(t)
    else match t case File(_) => None case Dir(kids) => Lookup(kids, chain)
  }

  /** What stands at q is what was found. */
  predicate Stands(nodes: map<Path, Node>, q: Path, found: Option<Tree>) {
    match found
    case None => q !in nodes
    case Some(File(data)) => q in nodes && nodes[q] == FileNode(data)
    case Some(Dir(_)) => q in nodes && nodes[q] == DirNode
  }

  lemma {:induction false} KidNodesStand(es: Entries, dir: Path, chain: Path)
    requires Distinct(es) && chain != []
    ensures Stands(KidNodes(es, dir), dir + chain, Lookup(es, chain))
    decreases es, 0
  {
    if es.Nil? {
    } else {
      var p := dir + [es.name];
      var mine, others := TreeNodes(es.tree, p), KidNodes(es.rest, dir);
      OthersAreElsewhere(es.rest, dir, es.name);
      TreeIsBelow(es.tree, p);
      if es.name == chain[0] {
        assert dir + chain == p + chain[1..];
        assert p <= dir + chain;
        TreeNodesStand(es.tree, p, chain[1..]);
        assert dir + chain !in others;
      } else {
        assert (dir + chain)[|dir|] == chain[0];
        assert dir + chain !in mine;
        KidNodesStand(es.rest, dir, chain);
      }
    }
  }

  lemma {:induction false} TreeNodesStand(t: Tree, at: Path, chain: Path)
    requires t.Dir? ==> Distinct(t.kids)
    ensures Stands(TreeNodes(t, at), at + chain, Within(t, chain))
    decreases t, 1
  {
    if chain == [] {
      assert at + chain == at;
      if t.Dir? { NodesAreBelow(t.kids, at); }
    } else {
      assert at + chain != at;
      if t.Dir? { KidNodesStand(t.kids, at, chain); }
    }
  }

  lemma {:induction false} OthersAreElsewhere(es: Entries, dir: Path, name: string)
    requires name !in NamesOf(es)
    ensures forall q | q in KidNodes(es, dir) :: !(dir + [name] <= q)
    decreases es
  {
    if es.Nil? {
    } else {
      OthersAreElsewhere(es.rest, dir, name);
      TreeIsBelow(es.tree, dir + [es.name]);
      forall q | q in TreeNodes(es.tree, dir + [es.name]) ensures !(dir + [name] <= q) {
        assert q[|dir|] == es.name;
      }
    }
  }

  /** From was to now: what the chains of kids lead to stands below dir, dir and everything above it are
      directories, and nothing else has changed. */
  ghost predicate Copied(was: map<Path, Node>, now: map<Path, Node>, dir: Path, kids: Entries) {
    && (forall chain: Path | chain != [] :: CopiedAt(was, now, dir, kids, chain))
    && (forall k | 0 <= k <= |dir| :: dir[..k] in now && now[dir[..k]] == DirNode)
    && (forall q | !(dir < q) && !(q <= dir) :: (q in now <==> q in was) && (q in was ==> now[q] == was[q]))
  }

  predicate CopiedAt(was: map<Path, Node>, now: map<Path, Node>, dir: Path, kids: Entries, chain: Path)
    requires chain != []
  {
    if Lookup(kids, chain) != None then Stands(now, dir + chain, Lookup(kids, chain))
    else (dir + chain in now <==> dir + chain in was) && (dir + chain in was ==> now[dir + chain] == was[dir + chain])
  }

  lemma CopyIsCopied(was: map<Path, Node>, dir: Path, kids: Entries)
    requires Distinct(kids)
    ensures Copied(was, Mkdirs(was, dir) + KidNodes(kids, dir), dir, kids)
  {
    var now := Mkdirs(was, dir) + KidNodes(kids, dir);
    NodesAreBelow(kids, dir);
    forall q | q in Prefixes(dir) ensures q <= dir && !(dir < q) {
      var k :| 0 <= k <= |dir| && q == dir[..k];
    }
    forall chain: Path | chain != [] ensures CopiedAt(was, now, dir, kids, chain) {
      KidNodesStand(kids, dir, chain);
      assert dir < dir + chain;
    }
    forall k | 0 <= k <= |dir| ensures dir[..k] in now && now[dir[..k]] == DirNode {
      assert dir[..k] in Prefixes(dir) && !(dir < dir[..k]);
    }
  }

  method CopyInto(dst: FileSystem, p: Path, data: Bytes, readable: bool) returns (ok: bool)
    modifies dst
    ensures ok ==> p != [] && Dirs(old(dst.nodes), p[..|p| - 1]) && dst.nodes == old(dst.nodes)[p := FileNode(data)]
    ensures !ok ==> dst.nodes == old(dst.nodes) || exists part :: dst.nodes == old(dst.nodes)[p := FileNode(part)]
    ensures (readable && dst.reliable && p != [] && Dirs(old(dst.nodes), p[..|p| - 1])
             && (p in old(dst.nodes) ==> old(dst.nodes)[p].FileNode?)) ==> ok
  {
    var cut := *;
    if !readable && 0 <= cut < |data| {
      ok := dst.WriteFile(p, data[..cut]);
      return false;
    }
    ok := dst.WriteFile(p, data);
  }

  // ---- upload ----

  /** readable says that no read of the source fails; otherwise any may. */
  method UploadDir(kids: Entries, readable: bool, dst: FileSystem, remoteDir: Path) returns (ok: bool)
    requires AllNames(kids, OsName)
    modifies dst
    ensures ok ==> Clear(old(dst.nodes), remoteDir)
                   && dst.nodes == Mkdirs(old(dst.nodes), remoteDir) + KidNodes(kids, remoteDir)
    ensures ok && Distinct(kids) ==> Copied(old(dst.nodes), dst.nodes, remoteDir, kids)
    ensures readable && dst.reliable && Fresh(old(dst.nodes), remoteDir) && Distinct(kids) ==> ok
    decreases Size(kids), 1
  {
    ok := dst.MkdirAll(remoteDir);
    if !ok {
      return;
    }
    var unlisted := *;
    if unlisted && !readable {
      return false;
    }
    ghost var made := dst.nodes;
    ghost var smooth := readable && dst.reliable && Fresh(old(dst.nodes), remoteDir) && Distinct(kids);
    MkdirsMakesDirs(old(dst.nodes), remoteDir);
    if smooth { FreshIsUnstarted(old(dst.nodes), remoteDir, kids); }
    var es := kids;
    while es.Entry?
      invariant Size(es) <= Size(kids) && AllNames(es, OsName)
      invariant Dirs(dst.nodes, remoteDir)
      invariant dst.nodes + KidNodes(es, remoteDir) == made + KidNodes(kids, remoteDir)
      invariant smooth ==> Distinct(es) && Unstarted(dst.nodes, remoteDir, es)
      decreases es
    {
      ghost var before := dst.nodes;
      if smooth { UnstartedEntry(before, remoteDir, es); }
      ok := UploadEntry(es.name, es.tree, readable, dst, remoteDir);
      if !ok {
        return;
      }
      PlusAssociates(before, TreeNodes(es.tree, remoteDir + [es.name]), KidNodes(es.rest, remoteDir));
      es := es.rest;
    }
    if Distinct(kids) { CopyIsCopied(old(dst.nodes), remoteDir, kids); }
  }

  /** One entry of the listing: a directory is copied in turn, a file opened, truncated and filled. */
  method UploadEntry(name: string, t: Tree, readable: bool, dst: FileSystem, remoteDir: Path) returns (ok: bool)
    requires OsName(name) && (t.Dir? ==> AllNames(t.kids, OsName)) && Dirs(dst.nodes, remoteDir)
    modifies dst
    ensures ok ==> dst.nodes == old(dst.nodes) + TreeNodes(t, remoteDir + [name]) && Dirs(dst.nodes, remoteDir)
    ensures (readable && dst.reliable
             && Vacant(old(dst.nodes), remoteDir + [name]) && Fresh(old(dst.nodes), remoteDir + [name])
             && (t.Dir? ==> Distinct(t.kids))) ==> ok
    decreases if t.Dir? then Size(t.kids) + 1 else 0, 0
  {
    var remotePath := Join(remoteDir, name);
    JoinPlain(remoteDir, name);
    ghost var before := dst.nodes;
    assert remotePath[..|remotePath| - 1] == remoteDir;
    if t.Dir? {
      ok := UploadDir(t.kids, readable, dst, remotePath);
      MkdirsBelowDirs(before, remoteDir, name);
      if ok { PlusAssociates(before, map[remotePath := DirNode], KidNodes(t.kids, remotePath)); }
    } else {
      var unopened := *;
      if unopened && !readable {
        return false;
      }
      ok := CopyInto(dst, remotePath, t.data, readable);
    }
    if ok {
      assert dst.nodes == before + TreeNodes(t, remotePath);
      TreeIsBelow(t, remotePath);
      DirsSurvive(before, TreeNodes(t, remotePath), remoteDir);
    }
  }

  // ---- download ----

  predicate AllSafe(p: Path, from: nat) {
    forall i | from <= i < |p| :: SafeName(p[i])
  }

  /** From was to now, only missing directories on the way to dir have been made, and below dir only
      paths made of accepted names have changed. */
  ghost predicate Contained(was: map<Path, Node>, now: map<Path, Node>, dir: Path) {
    && (forall q | q in was :: q in now)
    && (forall q | q in now && !(dir < q) ::
          if q in was then now[q] == was[q] || (q in Prefixes(dir) && now[q].DirNode?)
          else q in Prefixes(dir) && now[q].DirNode?)
    && (forall q | q in now && dir < q && !AllSafe(q, |dir|) :: q in was && now[q] == was[q])
  }

  lemma ContainedTwice(a: map<Path, Node>, b: map<Path, Node>, c: map<Path, Node>, dir: Path)
    requires Contained(a, b, dir) && Contained(b, c, dir)
    ensures Contained(a, c, dir)
  {
  }

  lemma ContainedDeeper(a: map<Path, Node>, b: map<Path, Node>, dir: Path, name: string)
    requires Contained(a, b, dir + [name]) && Dirs(a, dir) && SafeName(name)
    ensures Contained(a, b, dir)
  {
    var p := dir + [name];
    assert AllSafe(p, |dir|);
    forall q | q in Prefixes(p) && dir < q ensures q == p {
      var k :| 0 <= k <= |p| && q == p[..k];
    }
    forall q | q in b && dir < q && !AllSafe(q, |dir|) ensures q in a && b[q] == a[q] {
      if p < q {
        assert q[|dir|] == name;
        assert !AllSafe(q, |p|);
      }
    }
    forall q | q in b && !(dir < q) && q in Prefixes(p) ensures q in Prefixes(dir) {
      var k :| 0 <= k <= |p| && q == p[..k];
      assert q == dir[..k];
    }
  }

  lemma SelfContained(nodes: map<Path, Node>, dir: Path)
    ensures Contained(nodes, nodes, dir)
  {
  }

  lemma MkdirsContained(nodes: map<Path, Node>, dir: Path)
    ensures Contained(nodes, Mkdirs(nodes, dir), dir)
  {
    forall q | q in Prefixes(dir) ensures !(dir < q) {
      var k :| 0 <= k <= |dir| && q == dir[..k];
    }
  }

  method DownloadDir(kids: Entries, readable: bool, dst: FileSystem, localDir: Path) returns (ok: bool)
    modifies dst
    ensures ok ==> AllNames(kids, SafeName) && Clear(old(dst.nodes), localDir)
                   && dst.nodes == Mkdirs(old(dst.nodes), localDir) + KidNodes(kids, localDir)
    ensures ok && Distinct(kids) ==> Copied(old(dst.nodes), dst.nodes, localDir, kids)
    ensures Contained(old(dst.nodes), dst.nodes, localDir)
    ensures readable && dst.reliable && Fresh(old(dst.nodes), localDir) && Distinct(kids) ==>
              (ok <==> AllNames(kids, SafeName))
    decreases Size(kids), 1
  {
    ghost var was := dst.nodes;
    SelfContained(was, localDir);
    var unseen, unlisted := *, *;
    if unseen && !readable {
      return false;
    }
    ok := dst.MkdirAll(localDir);
    if !ok {
      return;
    }
    MkdirsContained(was, localDir);
    if unlisted && !readable {
      return false;
    }
    ghost var made := dst.nodes;
    ghost var smooth := readable && dst.reliable && Fresh(was, localDir) && Distinct(kids);
    MkdirsMakesDirs(was, localDir);
    if smooth { FreshIsUnstarted(was, localDir, kids); }
    var es := kids;
    while es.Entry?
      invariant Size(es) <= Size(kids)
      invariant Dirs(dst.nodes, localDir) && Contained(was, dst.nodes, localDir)
      invariant dst.nodes + KidNodes(es, localDir) == made + KidNodes(kids, localDir)
      invariant AllNames(es, SafeName) <==> AllNames(kids, SafeName)
      invariant smooth ==> Distinct(es) && Unstarted(dst.nodes, localDir, es)
      decreases es
    {
      ghost var before := dst.nodes;
      if !SafeName(es.name) {
        return false;
      }
      if smooth { UnstartedEntry(before, localDir, es); }
      ok := DownloadEntry(es.name, es.tree, readable, dst, localDir);
      ContainedTwice(was, before, dst.nodes, localDir);
      if !ok {
        return;
      }
      PlusAssociates(before, TreeNodes(es.tree, localDir + [es.name]), KidNodes(es.rest, localDir));
      es := es.rest;
    }
    if Distinct(kids) { CopyIsCopied(was, localDir, kids); }
  }

  /** One accepted entry; downloadFile first makes the parent directory, which exists. */
  method DownloadEntry(name: string, t: Tree, readable: bool, dst: FileSystem, localDir: Path) returns (ok: bool)
    requires SafeName(name) && Dirs(dst.nodes, localDir)
    modifies dst
    ensures ok ==> (t.Dir? ==> AllNames(t.kids, SafeName)) && Dirs(dst.nodes, localDir)
                   && dst.nodes == old(dst.nodes) + TreeNodes(t, localDir + [name])
    ensures Contained(old(dst.nodes), dst.nodes, localDir)
    ensures (readable && dst.reliable
             && Vacant(old(dst.nodes), localDir + [name]) && Fresh(old(dst.nodes), localDir + [name])
             && (t.Dir? ==> Distinct(t.kids))) ==> (ok <==> (t.Dir? ==> AllNames(t.kids, SafeName)))
    decreases if t.Dir? then Size(t.kids) + 1 else 0, 0
  {
    var lPath := Join(localDir, name);
    JoinPlain(localDir, name);
    ghost var before := dst.nodes;
    assert lPath[..|lPath| - 1] == localDir;
    if t.Dir? {
      ok := DownloadDir(t.kids, readable, dst, lPath);
      ContainedDeeper(before, dst.nodes, localDir, name);
      MkdirsBelowDirs(before, localDir, name);
      if ok { PlusAssociates(before, map[lPath := DirNode], KidNodes(t.kids, lPath)); }
    } else {
      SelfContained(before, localDir);
      MkdirsOfDirs(before, localDir);
      DirsAreClear(before, localDir);
      ok := DownloadFile(t.data, readable, dst, lPath);
      assert AllSafe(lPath, |localDir|);
    }
    if ok {
      assert dst.nodes == before + TreeNodes(t, lPath);
      TreeIsBelow(t, lPath);
      DirsSurvive(before, TreeNodes(t, lPath), localDir);
    }
  }

  function Parent(p: Path): Path {
    if p == [] then [] else p[..|p| - 1]
  }

  /** Any target path: missing parent directories are made first. */
  method DownloadFile(data: Bytes, readable: bool, dst: FileSystem, localPath: Path) returns (ok: bool)
    modifies dst
    ensures ok ==> localPath != [] && Clear(old(dst.nodes), Parent(localPath))
                   && dst.nodes == Mkdirs(old(dst.nodes), Parent(localPath))[localPath := FileNode(data)]
    ensures !ok ==> dst.nodes == old(dst.nodes) || dst.nodes == Mkdirs(old(dst.nodes), Parent(localPath))
                    || exists part ::
                         dst.nodes == Mkdirs(old(dst.nodes), Parent(localPath))[localPath := FileNode(part)]
    ensures (readable && dst.reliable && localPath != [] && Clear(old(dst.nodes), Parent(localPath))
             && (localPath in old(dst.nodes) ==> old(dst.nodes)[localPath].FileNode?)) ==> ok
  {
    var unopened := *;
    if unopened && !readable {
      return false;
    }
    ok := dst.MkdirAll(Parent(localPath));
    if !ok {
      return;
    }
    MkdirsMakesDirs(old(dst.nodes), Parent(localPath));
    if localPath != [] { NotItsOwnParent(localPath); }
    ok := CopyInto(dst, localPath, data, readable);
  }

  lemma NotItsOwnParent(p: Path)
    requires p != []
    ensures p !in Prefixes(Parent(p))
  {
    forall k | 0 <= k < |p| ensures Parent(p)[..k] != p {
      assert |Parent(p)[..k]| < |p|;
    }
  }

  lemma DirsAreClear(nodes: map<Path, Node>, dir: Path)
    requires Dirs(nodes, dir)
    ensures Clear(nodes, dir)
  {
  }

  lemma MkdirsOfDirs(nodes: map<Path, Node>, dir: Path)
    requires Dirs(nodes, dir)
    ensures Mkdirs(nodes, dir) == nodes
  {
  }

  // ---- there and back ----

  /** kids is what a walk over dir finds, in some order. */
  ghost predicate Lists(nodes: map<Path, Node>, dir: Path, kids: Entries) {
    Distinct(kids) && forall chain: Path | chain != [] :: Stands(nodes, dir + chain, Lookup(kids, chain))
  }

  /** Two directories hold the same names, kinds and contents. */
  ghost predicate SameTree(a: map<Path, Node>, x: Path, b: map<Path, Node>, y: Path) {
    forall s: Path | s != [] ::
      && (x + s in a <==> y + s in b)
      && (x + s in a && y + s in b ==> a[x + s] == b[y + s])
  }

  /** Into a fresh directory nothing but the copy gets. */
  lemma FreshCopyLists(was: map<Path, Node>, now: map<Path, Node>, dir: Path, kids: Entries)
    requires Fresh(was, dir) && Distinct(kids) && Copied(was, now, dir, kids)
    ensures Lists(now, dir, kids)
  {
    forall chain: Path | chain != [] ensures Stands(now, dir + chain, Lookup(kids, chain)) {
      assert CopiedAt(was, now, dir, kids, chain) && dir < dir + chain;
    }
  }

  /** Two listings of one directory: a chain leads somewhere in the one exactly when it does in the other. */
  lemma SameChains(nodes: map<Path, Node>, dir: Path, a: Entries, b: Entries, chain: Path)
    requires Lists(nodes, dir, a) && Lists(nodes, dir, b) && chain != []
    ensures Lookup(a, chain) == None <==> Lookup(b, chain) == None
  {
    assert Stands(nodes, dir + chain, Lookup(a, chain)) && Stands(nodes, dir + chain, Lookup(b, chain));
  }

  /** All names are accepted exactly when all names of all chains that lead somewhere are. */
  lemma NamesOnChains(es: Entries)
    requires Distinct(es)
    ensures AllNames(es, SafeName) <==>
              forall chain: Path | chain != [] && Lookup(es, chain) != None :: AllSafe(chain, 0)
    decreases es
  {
    if AllNames(es, SafeName) {
      forall chain: Path | chain != [] && Lookup(es, chain) != None ensures AllSafe(chain, 0) {
        ChainsAreSafe(es, chain);
      }
    } else {
      var chain := UnsafeChain(es);
    }
  }

  lemma {:induction false} ChainsAreSafe(es: Entries, chain: Path)
    requires AllNames(es, SafeName) && chain != [] && Lookup(es, chain) != None
    ensures AllSafe(chain, 0)
    decreases es
  {
    if es.name == chain[0] {
      if chain[1..] != [] { ChainsAreSafe(es.tree.kids, chain[1..]); }
      forall i | 0 <= i < |chain| ensures SafeName(chain[i]) {
        if i > 0 { assert chain[i] == chain[1..][i - 1]; }
      }
    } else {
      ChainsAreSafe(es.rest, chain);
    }
  }

  lemma {:induction false} UnsafeChain(es: Entries) returns (chain: Path)
    requires Distinct(es) && !AllNames(es, SafeName)
    ensures chain != [] && Lookup(es, chain) != None && !AllSafe(chain, 0) && chain[0] in NamesOf(es)
    decreases es
  {
    if !SafeName(es.name) {
      chain := [es.name];
    } else if es.tree.Dir? && !AllNames(es.tree.kids, SafeName) {
      var c := UnsafeChain(es.tree.kids);
      chain := [es.name] + c;
      var i :| 0 <= i < |c| && !SafeName(c[i]);
      assert chain[i + 1] == c[i] && chain[1..] == c;
    } else {
      chain := UnsafeChain(es.rest);
    }
  }

  /** Uploading a directory into a fresh remote one, then downloading whatever listing the remote side
      gives into a fresh local one: the copy is the original tree, and the download accepts the listing
      exactly when every original name is one safeName accepts. */
  lemma ThereAndBack(here: map<Path, Node>, dir: Path, kids: Entries,
                     remote: map<Path, Node>, remote': map<Path, Node>, remoteDir: Path, listing: Entries,
                     local: map<Path, Node>, local': map<Path, Node>, localDir: Path)
    requires Lists(here, dir, kids)
    requires Fresh(remote, remoteDir) && Copied(remote, remote', remoteDir, kids)
    requires Lists(remote', remoteDir, listing)
    requires Fresh(local, localDir)
    ensures AllNames(listing, SafeName) <==> AllNames(kids, SafeName)
    ensures Copied(local, local', localDir, listing) ==> SameTree(here, dir, local', localDir)
  {
    FreshCopyLists(remote, remote', remoteDir, kids);
    NamesOnChains(kids);
    NamesOnChains(listing);
    forall chain: Path | chain != [] ensures Lookup(kids, chain) == None <==> Lookup(listing, chain) == None {
      SameChains(remote', remoteDir, kids, listing, chain);
    }
    if Copied(local, local', localDir, listing) {
      FreshCopyLists(local, local', localDir, listing);
      forall s: Path | s != []
        ensures dir + s in here <==> localDir + s in local'
        ensures dir + s in here && localDir + s in local' ==> here[dir + s] == local'[localDir + s]
      {
        assert Stands(here, dir + s, Lookup(kids, s)) && Stands(remote', remoteDir + s, Lookup(kids, s));
        assert Stands(remote', remoteDir + s, Lookup(listing, s)) && Stands(local', localDir + s, Lookup(listing, s));
      }
    }
  }
}
