/** The in-memory filesystem of kernel-rs/src/vfs.rs: nested maps of entries under one root, and the
    flat map from component sequences to nodes that they stand for. */
module Vfs {
  import opened Bytes

  datatype FileType = Regular | Directory

  datatype FileEntry = FileEntry(name: string, kind: FileType, data: seq<byte>, children: map<string, FileEntry>)

  type Path = seq<string>

  // ----- path components -----

  /** The text before the first slash, or all of it. */
  function UpToSlash(s: string): (t: string)
    ensures t <= s && '/' !in t && (|t| < |s| ==> s[|t|] == '/')
  {
    if s == [] || s[0] == '/' then [] else [s[0]] + UpToSlash(s[1..])
  }

  /** `split('/')`. */
  function Split(s: string): seq<string>
    decreases |s|
  {
    var t := UpToSlash(s);
    if |t| == |s| then [t] else [t] + Split(s[|t| + 1..])
  }

  /** `filter(|s| !s.is_empty())`. */
  function NonEmpty(ts: seq<string>): seq<string> {
    if ts == [] then [] else (if ts[0] == [] then [] else [ts[0]]) + NonEmpty(ts[1..])
  }

  /** A null path has no components. */
  function Components(path: Option<string>): Path {
    match path
    case None => []
    case Some(s) => NonEmpty(Split(s))
  }

  predicate IsComponent(c: string) {
    c != [] && '/' !in c
  }

  /** "/a/b/c" for its components. */
  function Spell(p: Path): string {
    if p == [] then [] else ['/'] + p[0] + Spell(p[1..])
  }

  lemma UpToSlashAppend(a: string, b: string)
    requires '/' !in a
    ensures UpToSlash(a + ['/'] + b) == a
  {
    if a == [] {
      assert (a + ['/'] + b)[0] == '/';
    } else {
      assert (a + ['/'] + b)[1..] == a[1..] + ['/'] + b;
    }
  }

  lemma {:induction false} SplitAppend(a: string, b: string)
    ensures Split(a + ['/'] + b) == Split(a) + Split(b)
    decreases |a|
  {
    var t := UpToSlash(a);
    var s := a + ['/'] + b;
    if |t| == |a| {
      assert t == a;
      UpToSlashAppend(a, b);
      assert s[|a| + 1..] == b;
    } else {
      var rest := a[|t| + 1..];
      assert a == t + ['/'] + rest;
      assert s == t + ['/'] + (rest + ['/'] + b);
      UpToSlashAppend(t, rest + ['/'] + b);
      assert s[|t| + 1..] == rest + ['/'] + b;
      SplitAppend(rest, b);
      assert Split(s) == [t] + (Split(rest) + Split(b)) == ([t] + Split(rest)) + Split(b);
    }
  }

  lemma {:induction false} NonEmptyAppend(a: seq<string>, b: seq<string>)
    ensures NonEmpty(a + b) == NonEmpty(a) + NonEmpty(b)
  {
    if a == [] {
      assert a + b == b;
    } else {
      assert (a + b)[1..] == a[1..] + b;
      NonEmptyAppend(a[1..], b);
    }
  }

  /** Joining two spellings with a slash joins their components, so repeated, leading and trailing
      slashes never matter. */
  lemma ComponentsAppend(a: string, b: string)
    ensures Components(Some(a + ['/'] + b)) == Components(Some(a)) + Components(Some(b))
  {
    SplitAppend(a, b);
    NonEmptyAppend(Split(a), Split(b));
  }

  lemma NoSlashNoSplit(c: string)
    requires '/' !in c
    ensures Split(c) == [c]
  {
    assert UpToSlash(c) == c;
  }

  lemma NoComponents()
    ensures Components(Some([])) == []
  {
    NoSlashNoSplit([]);
    assert [""][1..] == [];
  }

  lemma LeadingSlash(s: string)
    ensures Components(Some(['/'] + s)) == Components(Some(s))
  {
    var empty: string := [];
    assert empty + ['/'] == ['/'];
    NoComponents();
    ComponentsAppend(empty, s);
    NothingBefore(Components(Some(s)));
  }

  lemma NothingBefore(p: Path)
    ensures [] + p == p
  {
  }

  lemma OneComponent(c: string)
    requires IsComponent(c)
    ensures Components(Some(c)) == [c]
  {
    NoSlashNoSplit(c);
    assert [c][1..] == [];
    assert NonEmpty([c]) == [c] + NonEmpty([]);
  }

  lemma FirstComponent(c: string, rest: string)
    requires IsComponent(c) && (rest == [] || rest[0] == '/')
    ensures Components(Some(c + rest)) == [c] + Components(Some(rest))
  {
    OneComponent(c);
    if rest == [] {
      NoComponents();
      assert c + rest == c;
    } else {
      assert rest == ['/'] + rest[1..] && c + rest == c + ['/'] + rest[1..];
      LeadingSlash(rest[1..]);
      ComponentsAppend(c, rest[1..]);
    }
  }

  /** Every component sequence has a spelling that parses back to it. */
  lemma {:induction false} SpellParses(p: Path)
    requires forall c :: c in p ==> IsComponent(c)
    ensures Components(Some(Spell(p))) == p
  {
    if p == [] {
      NoComponents();
    } else {
      SpellParses(p[1..]);
      var rest := Spell(p[1..]);
      assert Spell(p) == ['/'] + (p[0] + rest);
      LeadingSlash(p[0] + rest);
      FirstComponent(p[0], rest);
    }
  }

  lemma {:induction false} SplitHasNoSlash(s: string)
    ensures forall t :: t in Split(s) ==> '/' !in t
    decreases |s|
  {
    var t := UpToSlash(s);
    if |t| < |s| {
      SplitHasNoSlash(s[|t| + 1..]);
    }
  }

  lemma {:induction false} NonEmptyMembers(ts: seq<string>)
    ensures forall t :: t in NonEmpty(ts) <==> t in ts && t != []
  {
    if ts != [] {
      NonEmptyMembers(ts[1..]);
    }
  }

  lemma ComponentsAreComponents(path: Option<string>)
    ensures forall c :: c in Components(path) ==> IsComponent(c)
  {
    if path.Some? {
      SplitHasNoSlash(path.value);
      NonEmptyMembers(Split(path.value));
    }
  }

  // ----- the tree and the flat map it stands for -----

  /** find_entry: descend one component at a time. */
  function Find(e: FileEntry, p: Path): Option<FileEntry>
    decreases |p|
  {
    if p == [] then Some(e)
    else if p[0] in e.children then Find(e.children[p[0]], p[1..])
    else None
  }

  /** What a path names: the recorded name, the type and the bytes. */
  datatype Node = Node(name: string, kind: FileType, data: seq<byte>)

  function NodeAt(e: FileEntry, p: Path): Option<Node> {
    match Find(e, p)
    case None => None
    case Some(x) => Some(Node(x.name, x.kind, x.data))
  }

  /** The flat view: every path that exists, with its node. */
  ghost function View(e: FileEntry): imap<Path, Node> {
    imap p: Path | NodeAt(e, p).Some? :: NodeAt(e, p).value
  }

  lemma {:induction false} FindAppend(e: FileEntry, p: Path, q: Path)
    ensures Find(e, p + q) == match Find(e, p) case None => None case Some(x) => Find(x, q)
    decreases |p|
  {
    if p == [] {
      assert p + q == q;
    } else {
      assert (p + q)[1..] == p[1..] + q;
      if p[0] in e.children {
        FindAppend(e.children[p[0]], p[1..], q);
      }
    }
  }

  /** A path exists only if all its prefixes do. */
  lemma PrefixClosed(e: FileEntry, p: Path, q: Path)
    requires p + q in View(e)
    ensures p in View(e)
  {
    FindAppend(e, p, q);
  }

  /** Replace the entry at p. */
  function Put(e: FileEntry, p: Path, x: FileEntry): FileEntry
    requires Find(e, p).Some?
    decreases |p|
  {
    if p == [] then x else e.(children := e.children[p[0] := Put(e.children[p[0]], p[1..], x)])
  }

  /** Replacing the entry at p changes what p and the paths below it name, and nothing else. */
  lemma {:induction false} PutNodes(e: FileEntry, p: Path, x: FileEntry, q: Path)
    requires Find(e, p).Some?
    ensures NodeAt(Put(e, p, x), q) == if p <= q then NodeAt(x, q[|p|..]) else NodeAt(e, q)
    decreases |p|
  {
    if p == [] {
      assert q[0..] == q;
    } else if q != [] && q[0] == p[0] {
      PutNodes(e.children[p[0]], p[1..], x, q[1..]);
      assert p <= q <==> p[1..] <= q[1..];
      if p <= q {
        assert q[1..][|p[1..]|..] == q[|p|..];
      }
    }
  }

  // ----- the operations -----

  function NewEntry(name: string, kind: FileType): FileEntry {
    FileEntry(name, kind, [], map[])
  }

  function Parent(p: Path): Path
    requires p != []
  {
    p[..|p| - 1]
  }

  function Last(p: Path): string
    requires p != []
  {
    p[|p| - 1]
  }

  const ENOENT: int := -2
  const EEXIST: int := -17
  const EISDIR: int := -21
  const EINVAL: int := -22

  /** create_file and create_directory. */
  function Created(root: FileEntry, p: Path, kind: FileType): (FileEntry, int) {
    if p == [] || Find(root, Parent(p)).None? then (root, ENOENT)
    else
      var parent := Find(root, Parent(p)).value;
      if Last(p) in parent.children then (root, EEXIST)
      else
        (Put(root, Parent(p), parent.(children := parent.children[Last(p) := NewEntry(Last(p), kind)])), 0)
  }

  /** delete_file: no look at the type, no look at what lies below. */
  function Deleted(root: FileEntry, p: Path): (FileEntry, int) {
    if p == [] || Find(root, Parent(p)).None? then (root, ENOENT)
    else
      var parent := Find(root, Parent(p)).value;
      if Last(p) in parent.children
      then (Put(root, Parent(p), parent.(children := parent.children - {Last(p)})), 0)
      else (root, ENOENT)
  }

  /** write_file replaces the bytes of a regular file and answers how many were written. */
  function Overwritten(root: FileEntry, p: Path, bytes: seq<byte>): (FileEntry, nat) {
    match Find(root, p)
    case None => (root, 0)
    case Some(x) =>
      if x.kind.Directory? then (root, 0) else (Put(root, p, x.(data := bytes)), |bytes|)
  }

  // ----- what they do to the flat map -----

  lemma SplitLast(p: Path)
    requires p != []
    ensures p == Parent(p) + [Last(p)]
  {
  }

  lemma FindLast(root: FileEntry, p: Path)
    requires p != []
    ensures Find(root, p) == match Find(root, Parent(p))
                             case None => None
                             case Some(x) => if Last(p) in x.children then Some(x.children[Last(p)]) else None
  {
    SplitLast(p);
    FindAppend(root, Parent(p), [Last(p)]);
    assert [Last(p)][1..] == [];
  }

  lemma PrefixOrNot(p: Path, q: Path)
    requires p != [] && Parent(p) <= q
    ensures p <= q <==> q[|Parent(p)|..] != [] && q[|Parent(p)|] == Last(p)
    ensures p <= q ==> q[|Parent(p)|..][1..] == q[|p|..]
    ensures q == p <==> q[|Parent(p)|..] == [Last(p)]
  {
  }

  /** Changing one child changes what lies below that child. */
  lemma ChildNodes(parent: FileEntry, x: FileEntry, name: string, rest: Path)
    requires x.name == parent.name && x.kind == parent.kind && x.data == parent.data
    requires forall c :: c != name ==> (c in x.children <==> c in parent.children)
    requires forall c :: c != name && c in x.children ==> x.children[c] == parent.children[c]
    ensures rest == [] || rest[0] != name ==> NodeAt(x, rest) == NodeAt(parent, rest)
  {
  }

  lemma CreatedNode(root: FileEntry, p: Path, kind: FileType, q: Path)
    requires Created(root, p, kind).1 == 0
    ensures NodeAt(Created(root, p, kind).0, q) == if q == p then Some(Node(Last(p), kind, [])) else NodeAt(root, q)
  {
    var parent := Find(root, Parent(p)).value;
    var made := NewEntry(Last(p), kind);
    var x := parent.(children := parent.children[Last(p) := made]);
    PutNodes(root, Parent(p), x, q);
    if Parent(p) <= q {
      PrefixOrNot(p, q);
      var rest := q[|Parent(p)|..];
      assert q == Parent(p) + rest;
      FindAppend(root, Parent(p), rest);
      ChildNodes(parent, x, Last(p), rest);
      if rest != [] && rest[0] == Last(p) {
        assert Find(x, rest) == Find(made, rest[1..]);
        assert Find(parent, rest) == None;
        if q != p {
          assert rest[1..] != [];
        }
      }
    }
  }

  lemma DeletedNode(root: FileEntry, p: Path, q: Path)
    requires Deleted(root, p).1 == 0
    ensures NodeAt(Deleted(root, p).0, q) == if p <= q then None else NodeAt(root, q)
  {
    var parent := Find(root, Parent(p)).value;
    var x := parent.(children := parent.children - {Last(p)});
    PutNodes(root, Parent(p), x, q);
    if Parent(p) <= q {
      PrefixOrNot(p, q);
      var rest := q[|Parent(p)|..];
      assert q == Parent(p) + rest;
      FindAppend(root, Parent(p), rest);
      ChildNodes(parent, x, Last(p), rest);
    }
  }

  lemma OverwrittenNode(root: FileEntry, p: Path, bytes: seq<byte>, q: Path)
    requires NodeAt(root, p).Some? && NodeAt(root, p).value.kind.Regular?
    ensures NodeAt(Overwritten(root, p, bytes).0, q)
         == if q == p then Some(NodeAt(root, p).value.(data := bytes)) else NodeAt(root, q)
  {
    var x := Find(root, p).value;
    PutNodes(root, p, x.(data := bytes), q);
    if p <= q {
      var rest := q[|p|..];
      assert q == p + rest;
      FindAppend(root, p, rest);
    }
  }

  /** Creating adds exactly one path, if its parent exists and it does not; any other call changes
      nothing and says why. */
  lemma CreateAddsOnePath(root: FileEntry, p: Path, kind: FileType)
    ensures var (root', code) := Created(root, p, kind);
            && (code == 0 <==> p != [] && Parent(p) in View(root) && p !in View(root))
            && (code == -17 <==> p != [] && p in View(root))
            && (code == 0 ==> View(root') == View(root)[p := Node(Last(p), kind, [])])
            && (code != 0 ==> root' == root && (code == -17 || code == -2))
  {
    var (root', code) := Created(root, p, kind);
    if p != [] {
      FindLast(root, p);
    }
    if code == 0 {
      forall q: Path
        ensures NodeAt(root', q) == if q == p then Some(Node(Last(p), kind, [])) else NodeAt(root, q)
      {
        CreatedNode(root, p, kind, q);
      }
    }
  }

  /** Deleting removes exactly the path and everything below it; the root cannot be deleted. */
  lemma DeleteRemovesSubtree(root: FileEntry, p: Path)
    ensures var (root', code) := Deleted(root, p);
            && (code == 0 <==> p != [] && p in View(root))
            && (code == 0 ==> View(root') == imap q | q in View(root) && !(p <= q) :: View(root)[q])
            && (code != 0 ==> root' == root && code == -2)
  {
    var (root', code) := Deleted(root, p);
    if p != [] {
      FindLast(root, p);
    }
    if code == 0 {
      forall q: Path
        ensures NodeAt(root', q) == if p <= q then None else NodeAt(root, q)
      {
        DeletedNode(root, p, q);
      }
    }
  }

  /** Writing changes the bytes of one regular file. */
  lemma WriteChangesOneFile(root: FileEntry, p: Path, bytes: seq<byte>)
    ensures var (root', n) := Overwritten(root, p, bytes);
            && (p in View(root) && View(root)[p].kind.Regular? ==>
                  n == |bytes| && View(root') == View(root)[p := View(root)[p].(data := bytes)])
            && (!(p in View(root) && View(root)[p].kind.Regular?) ==> n == 0 && root' == root)
  {
    var (root', n) := Overwritten(root, p, bytes);
    if p in View(root) && View(root)[p].kind.Regular? {
      forall q: Path
        ensures NodeAt(root', q) == if q == p then Some(NodeAt(root, p).value.(data := bytes)) else NodeAt(root, q)
      {
        OverwrittenNode(root, p, bytes, q);
      }
    }
  }

  /** Creating a path and deleting it again restores the flat view. */
  lemma CreateDeleteRestores(root: FileEntry, p: Path, kind: FileType)
    requires Created(root, p, kind).1 == 0
    ensures var root' := Created(root, p, kind).0;
            Deleted(root', p).1 == 0 && View(Deleted(root', p).0) == View(root)
  {
    var root' := Created(root, p, kind).0;
    CreateAddsOnePath(root, p, kind);
    DeleteRemovesSubtree(root', p);
    forall q: Path | p <= q && q in View(root)
      ensures false
    {
      assert q == p + q[|p|..];
      PrefixClosed(root, p, q[|p|..]);
    }
  }

  // ----- every run -----

  datatype Call = Create(p: Path, kind: FileType) | Delete(p: Path) | Write(p: Path, bytes: seq<byte>)

  function Step(root: FileEntry, c: Call): FileEntry {
    match c
    case Create(p, kind) => Created(root, p, kind).0
    case Delete(p) => Deleted(root, p).0
    case Write(p, bytes) => Overwritten(root, p, bytes).0
  }

  function Run(root: FileEntry, calls: seq<Call>): FileEntry
    decreases |calls|
  {
    if calls == [] then root else Run(Step(root, calls[0]), calls[1..])
  }

  /** The root stays an empty directory node, every entry carries the name it is filed under, and
      directories have no bytes. */
  ghost predicate Consistent(root: FileEntry) {
    && View(root)[[]] == Node("/", Directory, [])
    && (forall p :: p in View(root) && p != [] ==> View(root)[p].name == Last(p))
    && (forall p :: p in View(root) && View(root)[p].kind.Directory? ==> View(root)[p].data == [])
  }

  lemma StepConsistent(root: FileEntry, c: Call)
    requires Consistent(root)
    ensures Consistent(Step(root, c))
  {
    match c
    case Create(p, kind) => CreateAddsOnePath(root, p, kind);
    case Delete(p) => DeleteRemovesSubtree(root, p);
    case Write(p, bytes) => WriteChangesOneFile(root, p, bytes);
  }

  /** ... in every run, from the root that init makes. */
  lemma {:induction false} RunConsistent(root: FileEntry, calls: seq<Call>)
    requires Consistent(root)
    ensures Consistent(Run(root, calls))
    decreases |calls|
  {
    if calls != [] {
      StepConsistent(root, calls[0]);
      RunConsistent(Step(root, calls[0]), calls[1..]);
    }
  }

  /** The same calls on the flat map alone, and what they answer. */
  ghost function FlatStep(v: imap<Path, Node>, c: Call): imap<Path, Node> {
    match c
    case Create(p, kind) =>
      if p != [] && Parent(p) in v && p !in v then v[p := Node(Last(p), kind, [])] else v
    case Delete(p) =>
      if p != [] && p in v then imap q | q in v && !(p <= q) :: v[q] else v
    case Write(p, bytes) =>
      if p in v && v[p].kind.Regular? then v[p := v[p].(data := bytes)] else v
  }

  ghost function FlatAnswer(v: imap<Path, Node>, c: Call): int {
    match c
    case Create(p, _) => if p == [] then -2 else if p in v then -17 else if Parent(p) in v then 0 else -2
    case Delete(p) => if p != [] && p in v then 0 else -2
    case Write(p, bytes) => if p in v && v[p].kind.Regular? then |bytes| else 0
  }

  ghost function FlatRun(v: imap<Path, Node>, calls: seq<Call>): imap<Path, Node>
    decreases |calls|
  {
    if calls == [] then v else FlatRun(FlatStep(v, calls[0]), calls[1..])
  }

  ghost function FlatAnswers(v: imap<Path, Node>, calls: seq<Call>): seq<int>
    decreases |calls|
  {
    if calls == [] then [] else [FlatAnswer(v, calls[0])] + FlatAnswers(FlatStep(v, calls[0]), calls[1..])
  }

  function Answer(root: FileEntry, c: Call): int {
    match c
    case Create(p, kind) => Created(root, p, kind).1
    case Delete(p) => Deleted(root, p).1
    case Write(p, bytes) => Overwritten(root, p, bytes).1
  }

  function Answers(root: FileEntry, calls: seq<Call>): seq<int>
    decreases |calls|
  {
    if calls == [] then [] else [Answer(root, calls[0])] + Answers(Step(root, calls[0]), calls[1..])
  }

  lemma StepIsFlat(root: FileEntry, c: Call)
    ensures View(Step(root, c)) == FlatStep(View(root), c) && Answer(root, c) == FlatAnswer(View(root), c)
  {
    match c
    case Create(p, kind) => CreateAddsOnePath(root, p, kind);
    case Delete(p) => DeleteRemovesSubtree(root, p);
    case Write(p, bytes) => WriteChangesOneFile(root, p, bytes);
  }

  /** The nested maps refine the flat one: after any run, from any tree, the paths, names, types and bytes are what the
      same calls leave in the flat map, and every call answers as it does there. */
  lemma {:induction false} RunIsFlat(root: FileEntry, calls: seq<Call>)
    ensures View(Run(root, calls)) == FlatRun(View(root), calls)
    ensures Answers(root, calls) == FlatAnswers(View(root), calls)
    decreases |calls|
  {
    if calls != [] {
      StepIsFlat(root, calls[0]);
      RunIsFlat(Step(root, calls[0]), calls[1..]);
    }
  }

  // ----- a regular file may have children -----

  ghost predicate OnlyDirectoriesHaveChildren(root: FileEntry) {
    forall p, c :: p + [c] in View(root) ==> p in View(root) && View(root)[p].kind.Directory?
  }

  /** Nothing checks the type of the parent: a creation keeps the tree well-typed exactly when the
      parent is a directory. */
  lemma CreateKeepsTypesIff(root: FileEntry, p: Path, kind: FileType)
    requires OnlyDirectoriesHaveChildren(root) && Created(root, p, kind).1 == 0
    ensures Parent(p) in View(root)
    ensures OnlyDirectoriesHaveChildren(Created(root, p, kind).0) <==> View(root)[Parent(p)].kind.Directory?
  {
    var root' := Created(root, p, kind).0;
    CreateAddsOnePath(root, p, kind);
    SplitLast(p);
    assert Parent(p) != p;
    if View(root)[Parent(p)].kind.Directory? {
      forall q, c | q + [c] in View(root')
        ensures q in View(root') && View(root')[q].kind.Directory?
      {
        if q + [c] == p {
          assert q == Parent(p);
        } else {
          assert q + [c] in View(root);
          if q == p {
            PrefixClosed(root, p, [c]);
          }
        }
      }
    } else {
      assert Parent(p) + [Last(p)] in View(root');
    }
  }

  /** And it does happen: "/a" as a file, then "/a/b" below it. */
  lemma FileWithAChild()
    ensures var root := NewEntry("/", Directory);
            var calls := [Create(["a"], Regular), Create(["a", "b"], Regular)];
            !OnlyDirectoriesHaveChildren(Run(root, calls))
  {
    var root := NewEntry("/", Directory);
    var file, child := ["a"], ["a", "b"];
    assert NodeAt(root, file) == None && NodeAt(root, child) == None && [] in View(root);
    var r1 := Created(root, file, Regular).0;
    assert Parent(file) == [] && Parent(child) == file;
    CreateAddsOnePath(root, file, Regular);
    assert View(r1)[file].kind.Regular? && child !in View(r1);
    var r2 := Created(r1, child, Regular).0;
    CreateAddsOnePath(r1, child, Regular);
    assert child in View(r2) && View(r2)[file].kind.Regular?;
    assert file + ["b"] == child;
    var calls := [Create(file, Regular), Create(child, Regular)];
    assert calls[1..] == [Create(child, Regular)] && [Create(child, Regular)][1..] == [];
    assert Run(r1, [Create(child, Regular)]) == Run(r2, []) == r2;
    assert Run(root, calls) == Run(r1, calls[1..]);
  }

  // ----- the filesystem object -----

  class FileSystem {
    var root: Option<FileEntry>

    constructor ()
      ensures root == None
    {
      root := None;
    }

    method Init()
      modifies this
      ensures root == Some(NewEntry("/", Directory)) && Consistent(root.value)
    {
      root := Some(NewEntry("/", Directory));
      assert forall p: Path :: p != [] ==> NodeAt(root.value, p) == None;
    }

    method FindEntry(path: Option<string>) returns (e: Option<FileEntry>)
      ensures e == if root.None? then None else Find(root.value, Components(path))
    {
      if root.None? {
        return None;
      }
      var current := root.value;
      var rest := Components(path);
      while rest != []
        invariant Find(current, rest) == Find(root.value, Components(path))
        decreases |rest|
      {
        if rest[0] !in current.children {
          return None;
        }
        current, rest := current.children[rest[0]], rest[1..];
      }
      return Some(current);
    }

    method FindParentAndName(path: Option<string>) returns (r: Option<(FileEntry, string)>)
      ensures var p := Components(path);
              r == if p == [] || root.None? || Find(root.value, Parent(p)).None? then None
                   else Some((Find(root.value, Parent(p)).value, Last(p)))
    {
      var components := Components(path);
      if components == [] {
        return None;
      }
      var filename, rest := Last(components), Parent(components);
      if root.None? {
        return None;
      }
      var current := root.value;
      while rest != []
        invariant Find(current, rest) == Find(root.value, Parent(components))
        decreases |rest|
      {
        if rest[0] !in current.children {
          return None;
        }
        current, rest := current.children[rest[0]], rest[1..];
      }
      return Some((current, filename));
    }

    /** create_file and create_directory: the parent found is changed where it stands. */
    method Make(path: Option<string>, kind: FileType) returns (code: int)
      modifies this
      ensures old(root).None? ==> root == None && code == -2
      ensures old(root).Some? ==> root.Some? && (root.value, code) == Created(old(root).value, Components(path), kind)
    {
      var found := FindParentAndName(path);
      if found.None? {
        return ENOENT;
      }
      var (parent, name) := found.value;
      if name in parent.children {
        return EEXIST;
      }
      parent := parent.(children := parent.children[name := NewEntry(name, kind)]);
      root := Some(Put(root.value, Parent(Components(path)), parent));
      return 0;
    }

    method DeleteFile(path: Option<string>) returns (code: int)
      modifies this
      ensures old(root).None? ==> root == None && code == -2
      ensures old(root).Some? ==> root.Some? && (root.value, code) == Deleted(old(root).value, Components(path))
    {
      var found := FindParentAndName(path);
      if found.None? {
        return ENOENT;
      }
      var (parent, name) := found.value;
      if name !in parent.children {
        return ENOENT;
      }
      parent := parent.(children := parent.children - {name});
      root := Some(Put(root.value, Parent(Components(path)), parent));
      return 0;
    }

    /** The bytes that reach the caller's buffer, and the count or error. */
    method ReadFile(path: Option<string>, bufIsNull: bool, maxLen: int) returns (code: int, bytes: seq<byte>)
      ensures bufIsNull || maxLen <= 0 ==> code == -22 && bytes == []
      ensures !bufIsNull && maxLen > 0 ==>
                var node := if root.None? then None else NodeAt(root.value, Components(path));
                match node
                case None => code == -2 && bytes == []
                case Some(n) =>
                  if n.kind.Directory? then code == -21 && bytes == []
                  else code == |bytes| && bytes == n.data[..if |n.data| < maxLen then |n.data| else maxLen]
    {
      bytes := [];
      if bufIsNull || maxLen <= 0 {
        return EINVAL, [];
      }
      var e := FindEntry(path);
      if e.None? {
        return ENOENT, [];
      }
      if e.value.kind.Directory? {
        return EISDIR, [];
      }
      var copyLen := if |e.value.data| < maxLen then |e.value.data| else maxLen;
      bytes := e.value.data[..copyLen];
      code := copyLen;
    }

    /** A null buffer writes nothing; otherwise the old bytes are cleared and the new ones pushed. */
    method WriteFile(path: Option<string>, buf: Option<seq<byte>>) returns (written: nat)
      modifies this
      ensures old(root).None? || buf.None? ==> root == old(root) && written == 0
      ensures old(root).Some? && buf.Some? ==>
                root.Some? && (root.value, written) == Overwritten(old(root).value, Components(path), buf.value)
    {
      if buf.None? {
        return 0;
      }
      var e := FindEntry(path);
      if e.None? || e.value.kind.Directory? {
        return 0;
      }
      var data: seq<byte> := [];
      var i := 0;
      while i < |buf.value|
        invariant 0 <= i <= |buf.value| && data == buf.value[..i]
      {
        data := data + [buf.value[i]];
        i := i + 1;
      }
      assert data == buf.value;
      root := Some(Put(root.value, Components(path), e.value.(data := data)));
      return |buf.value|;
    }

    /** A write and then a read. If both name the same regular file, in whatever spelling, the read returns what
        was written, as much of it as the reader has room for; and no other file reads differently. */
    method WriteThenRead(path: Option<string>, path': Option<string>, buf: seq<byte>, maxLen: int)
      returns (written: nat, code: int, bytes: seq<byte>)
      requires maxLen > 0
      modifies this
      ensures written == if IsFile(old(root), path) then |buf| else 0
      ensures code >= 0 <==> IsFile(old(root), path')
      ensures IsFile(old(root), path') ==>
                var data := if Components(path') == Components(path) then buf
                            else NodeAt(old(root).value, Components(path')).value.data;
                code == |bytes| && bytes == data[..if |data| < maxLen then |data| else maxLen]
    {
      if IsFile(root, path) {
        OverwrittenNode(root.value, Components(path), buf, Components(path'));
      }
      written := WriteFile(path, Some(buf));
      code, bytes := ReadFile(path', false, maxLen);
    }
  }

  /** The path names a regular file. */
  predicate IsFile(root: Option<FileEntry>, path: Option<string>) {
    root.Some? && NodeAt(root.value, Components(path)).Some? && NodeAt(root.value, Components(path)).value.kind.Regular?
  }
}
