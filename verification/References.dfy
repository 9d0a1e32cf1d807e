/** The pinned-reference policy: a depth-first walk over files, aliases and references. */
module References {
  import opened Commons
  import opened Sums

  /** Paths are opaque; files are canonical paths. */
  type Path = string

  // ----- References -----

  /** Which characters are white space; the policy works for any answer. */
  type Space = char -> bool

  predicate LowerHex(c: char) { '0' <= c <= '9' || 'a' <= c <= 'f' }

  /** `docker://name@sha256:` and 64 lower-case hexadecimal digits. */
  predicate PinnedDocker(space: Space, s: string) {
    var name := |s| - 72;
    && name > 9 && s[..9] == "docker://" && s[name..name + 8] == "@sha256:"
    && (forall i | 9 <= i < name :: s[i] != '@' && !space(s[i]))
    && (forall i | name + 8 <= i < |s| :: LowerHex(s[i]))
  }

  /** The first slash of `s` is at `j`; but for it, no `@` and no space stand before `at`. */
  predicate Spelled(space: Space, s: string, j: nat, at: nat)
    requires j < at <= |s|
  {
    forall i | 0 <= i < at && i != j :: s[i] != '@' && !space(s[i]) && (i < j ==> s[i] != '/')
  }

  /** `owner/name@` and 40 lower-case hexadecimal digits; the owner holds no slash. */
  predicate PinnedExternal(space: Space, s: string) {
    var at := |s| - 41;
    && at > 0 && s[at] == '@'
    && (exists j | 0 < j < at - 1 :: s[j] == '/' && Spelled(space, s, j, at))
    && (forall i | at + 1 <= i < |s| :: LowerHex(s[i]))
  }

  // ----- The world the inspector reads -----

  datatype Child = Scalar | Str(text: string) | Coll(id: nat)

  /** A mapping entry: whether its key is `uses`, and its value. */
  datatype Entry = Entry(uses: bool, child: Child)

  datatype Node = Dict(entries: seq<Entry>) | List(items: seq<Child>)

  /** A parsed file: unreadable or not one mapping, or a graph of collections with aliases. */
  datatype Document = Unusable | Mapping(nodes: map<nat, Node>, root: nat)

  /** What a local reference resolves to on disk. */
  datatype Target = Target(
    inside: bool, yaml: bool, underWorkflows: bool, path: Path, isDirectory: bool, directoryInside: bool,
    metadata: seq<Path>)

  datatype World = World(
    space: Space,
    canonical: map<Path, Path>, // the paths that are files, and their canonical paths
    inside: set<Path>,          // the canonical paths inside the repository
    documents: map<Path, Document>,
    resolve: string -> Target)

  /** What a collection holds, in order. */
  function Children(node: Node): (cs: seq<Child>)
    ensures node.Dict? ==> |cs| == |node.entries|
  {
    match node
    case Dict(entries) => seq(|entries|, i requires 0 <= i < |entries| => entries[i].child)
    case List(items) => items
  }

  predicate Has(node: Node, id: nat) { Coll(id) in Children(node) }

  ghost predicate Closed(nodes: map<nat, Node>) {
    forall n, id | n in nodes && Has(nodes[n], id) :: id in nodes
  }

  /** Every file can be opened, and every alias leads to a collection of its document. */
  ghost predicate Sound(w: World) {
    && (forall p | p in w.canonical :: w.canonical[p] in w.documents)
    && (forall f | f in w.documents && w.documents[f].Mapping? ::
          w.documents[f].root in w.documents[f].nodes && Closed(w.documents[f].nodes))
  }

  /** The file a configuration path names: it exists and lies inside the repository. */
  function ConfigFile(w: World, path: Path): Option<Path> {
    if path in w.canonical && w.canonical[path] in w.inside then Some(w.canonical[path]) else None
  }

  /** The file a local reference names, if every check on the way passes. */
  function LocalFile(w: World, reference: string): Option<Path> {
    var t := w.resolve(reference);
    if !t.inside then None
    else if t.yaml then if t.underWorkflows then ConfigFile(w, t.path) else None
    else if t.isDirectory && t.directoryInside && |t.metadata| == 1 then ConfigFile(w, t.metadata[0])
    else None
  }

  predicate IsLocal(reference: string) { Starts(reference, "./") }

  /** A reference the policy accepts on its own, before the file it names is inspected. */
  predicate Acceptable(w: World, reference: string) {
    if IsLocal(reference) then LocalFile(w, reference).Some?
    else if Starts(reference, "docker://") then PinnedDocker(w.space, reference)
    else PinnedExternal(w.space, reference)
  }

  // ----- What the policy forbids -----

  /** A chain of nested collections from the root of a document. */
  predicate AliasPath(d: Document, p: seq<nat>)
    requires d.Mapping?
  {
    && p != [] && p[0] == d.root
    && (forall i | 0 <= i < |p| :: p[i] in d.nodes)
    && forall i | 0 < i < |p| :: Has(d.nodes[p[i - 1]], p[i])
  }

  predicate Repeats<T(==)>(p: seq<T>) { p != [] && p[|p| - 1] in p[..|p| - 1] }

  predicate BadEntry(w: World, e: Entry) {
    e.uses && (!e.child.Str? || !Acceptable(w, e.child.text))
  }

  predicate BadNode(w: World, node: Node) {
    node.Dict? && exists i | 0 <= i < |node.entries| :: BadEntry(w, node.entries[i])
  }

  /** The file cannot be used, or its collections contain themselves, or some `uses` is refused. */
  ghost predicate BadFile(w: World, f: Path)
    requires f in w.documents
  {
    var d := w.documents[f];
    d.Unusable? || exists p: seq<nat> :: AliasPath(d, p) && (Repeats(p) || BadNode(w, d.nodes[p[|p| - 1]]))
  }

  /** Some collection of `f` uses `reference`. */
  ghost predicate Uses(w: World, f: Path, reference: string) {
    && f in w.documents && w.documents[f].Mapping?
    && exists p: seq<nat> ::
         AliasPath(w.documents[f], p) && NodeUses(w.documents[f].nodes[p[|p| - 1]], reference)
  }

  predicate NodeUses(node: Node, reference: string) {
    node.Dict? && Entry(true, Str(reference)) in node.entries
  }

  ghost predicate Edge(w: World, f: Path, g: Path) {
    exists reference :: Uses(w, f, reference) && IsLocal(reference) && LocalFile(w, reference) == Some(g)
  }

  ghost predicate FilePath(w: World, p: seq<Path>) {
    && p != [] && (forall i | 0 <= i < |p| :: p[i] in w.documents)
    && forall i | 0 < i < |p| :: Edge(w, p[i - 1], p[i])
  }

  /** From some continuation of the chain `prefix` the policy is violated: a bad file is reached, or
      the chain of references comes back to a file already on it. */
  ghost predicate Trouble(w: World, prefix: seq<Path>) {
    exists p :: prefix <= p && FilePath(w, p) && (Repeats(p) || BadFile(w, p[|p| - 1]))
  }

  lemma TroubleOfPrefix(w: World, prefix: seq<Path>, longer: seq<Path>)
    requires prefix <= longer && Trouble(w, longer)
    ensures Trouble(w, prefix)
  {
    var p :| longer <= p && FilePath(w, p) && (Repeats(p) || BadFile(w, p[|p| - 1]));
    assert prefix <= p;
  }

  // ----- What a completed walk establishes -----

  /** `order` lists collections so that each comes after the ones it contains, none is bad, and the
      file of each local reference is in `done`. */
  ghost predicate NodeDone(w: World, d: Document, order: seq<nat>, i: nat, done: seq<Path>)
    requires d.Mapping? && i < |order|
  {
    && order[i] in d.nodes
    && (forall id | Has(d.nodes[order[i]], id) :: id in order[..i])
    && (d.nodes[order[i]].Dict? ==>
          forall k | 0 <= k < |d.nodes[order[i]].entries| :: EntryDone(w, d.nodes[order[i]].entries[k], done))
  }

  predicate EntryDone(w: World, e: Entry, done: seq<Path>) {
    !BadEntry(w, e) && (e.uses && IsLocal(e.child.text) ==> LocalFile(w, e.child.text).value in done)
  }

  ghost predicate NodesDone(w: World, d: Document, order: seq<nat>, done: seq<Path>)
    requires d.Mapping?
  {
    Distinct(order) && forall i | 0 <= i < |order| :: NodeDone(w, d, order, i, done)
  }

  lemma {:induction false} AliasPathDescends(w: World, d: Document, order: seq<nat>, done: seq<Path>, p: seq<nat>)
    returns (at: seq<nat>)
    requires d.Mapping? && NodesDone(w, d, order, done) && d.root in order && AliasPath(d, p)
    ensures |at| == |p| && forall i | 0 <= i < |p| :: at[i] < |order| && order[at[i]] == p[i]
    ensures forall i, j | 0 <= i < j < |p| :: at[j] < at[i]
    decreases |p|
  {
    var n := |p| - 1;
    if n == 0 {
      var k :| 0 <= k < |order| && order[k] == d.root;
      at := [k];
    } else {
      var before := AliasPathDescends(w, d, order, done, p[..n]);
      var k := before[n - 1];
      assert NodeDone(w, d, order, k, done);
      assert Has(d.nodes[order[k]], p[n]);
      var j :| 0 <= j < k && order[j] == p[n];
      at := before + [j];
    }
  }

  /** A document whose root is done is not bad, and every file it refers to is done. */
  lemma RootDone(w: World, f: Path, order: seq<nat>, done: seq<Path>)
    requires f in w.documents && w.documents[f].Mapping? && w.documents[f].root in order
    requires NodesDone(w, w.documents[f], order, done)
    ensures !BadFile(w, f) && forall g | Edge(w, f, g) :: g in done
  {
    hide Acceptable, LocalFile, NodeDone;
    var d := w.documents[f];
    forall p: seq<nat> | AliasPath(d, p) ensures !(Repeats(p) || BadNode(w, d.nodes[p[|p| - 1]])) {
      PathDone(w, d, order, done, p);
    }
    forall g | Edge(w, f, g) ensures g in done {
      var reference :| Uses(w, f, reference) && IsLocal(reference) && LocalFile(w, reference) == Some(g);
      var p: seq<nat> :| AliasPath(d, p) && NodeUses(d.nodes[p[|p| - 1]], reference);
      PathDone(w, d, order, done, p);
    }
  }

  lemma PathDone(w: World, d: Document, order: seq<nat>, done: seq<Path>, p: seq<nat>)
    requires d.Mapping? && NodesDone(w, d, order, done) && d.root in order && AliasPath(d, p)
    ensures !Repeats(p)
    ensures var node := d.nodes[p[|p| - 1]];
      !BadNode(w, node) && (node.Dict? ==> forall e | e in node.entries :: EntryDone(w, e, done))
  {
    hide Acceptable, LocalFile, BadEntry;
    var at := AliasPathDescends(w, d, order, done, p);
    var n := |p| - 1;
    assert NodeDone(w, d, order, at[n], done);
    forall i | 0 <= i < n ensures p[i] != p[n] { assert order[at[n]] != order[at[i]]; }
  }

  /** `done` lists files so that each comes after the ones it refers to, and none is bad. */
  ghost predicate FileDone(w: World, done: seq<Path>, i: nat)
    requires i < |done|
  {
    done[i] in w.documents && !BadFile(w, done[i]) && forall g | Edge(w, done[i], g) :: g in done[..i]
  }

  ghost predicate FilesDone(w: World, done: seq<Path>) {
    Distinct(done) && forall i | 0 <= i < |done| :: FileDone(w, done, i)
  }

  lemma {:induction false} FilePathDescends(w: World, done: seq<Path>, p: seq<Path>) returns (at: seq<nat>)
    requires FilesDone(w, done) && FilePath(w, p) && p[0] in done
    ensures |at| == |p| && forall i | 0 <= i < |p| :: at[i] < |done| && done[at[i]] == p[i]
    ensures forall i, j | 0 <= i < j < |p| :: at[j] < at[i]
    decreases |p|
  {
    hide Edge, BadFile;
    var n := |p| - 1;
    if n == 0 {
      var k :| 0 <= k < |done| && done[k] == p[0];
      at := [k];
    } else {
      var before := FilePathDescends(w, done, p[..n]);
      var k := before[n - 1];
      assert FileDone(w, done, k);
      assert Edge(w, done[k], p[n]);
      var j :| 0 <= j < k && done[j] == p[n];
      at := before + [j];
    }
  }

  /** From a file that is done, no chain of references meets a bad file or itself. */
  lemma DoneIsClean(w: World, done: seq<Path>, f: Path)
    requires FilesDone(w, done) && f in done
    ensures !Trouble(w, [f])
  {
    hide Edge, BadFile;
    forall p | [f] <= p && FilePath(w, p) ensures !(Repeats(p) || BadFile(w, p[|p| - 1])) {
      assert p[0] == f;
      var at := FilePathDescends(w, done, p);
      var n := |p| - 1;
      assert FileDone(w, done, at[n]);
      forall i | 0 <= i < n ensures p[i] != p[n] { assert done[at[n]] != done[at[i]]; }
    }
  }

  lemma NodesStayDone(w: World, d: Document, order: seq<nat>, done: seq<Path>, more: seq<Path>)
    requires d.Mapping? && NodesDone(w, d, order, done) && done <= more
    ensures NodesDone(w, d, order, more)
  {
    hide Acceptable, LocalFile, BadEntry, Has;
    forall i | 0 <= i < |order| ensures NodeDone(w, d, order, i, more) {
      assert NodeDone(w, d, order, i, done);
    }
  }

  lemma NodeBecomesDone(w: World, d: Document, order: seq<nat>, done: seq<Path>, id: nat)
    requires d.Mapping? && NodesDone(w, d, order, done) && id in d.nodes && id !in order
    requires forall c | Has(d.nodes[id], c) :: c in order
    requires d.nodes[id].Dict? ==>
      forall k | 0 <= k < |d.nodes[id].entries| :: EntryDone(w, d.nodes[id].entries[k], done)
    ensures NodesDone(w, d, order + [id], done)
  {
    hide EntryDone, Has;
    var more := order + [id];
    forall i | 0 <= i < |more| ensures NodeDone(w, d, more, i, done) {
      if i < |order| {
        assert NodeDone(w, d, order, i, done);
        assert more[..i] == order[..i];
      } else {
        assert more[..i] == order;
      }
    }
  }

  lemma FileBecomesDone(w: World, done: seq<Path>, f: Path)
    requires FilesDone(w, done) && f in w.documents && f !in done && !BadFile(w, f)
    requires forall g | Edge(w, f, g) :: g in done
    ensures FilesDone(w, done + [f])
  {
    hide Edge, BadFile;
    var more := done + [f];
    forall i | 0 <= i < |more| ensures FileDone(w, more, i) {
      if i < |done| {
        assert FileDone(w, done, i);
        assert more[..i] == done[..i];
      } else {
        assert more[..i] == done;
      }
    }
  }

  /** A bad file at the end of a chain of references is trouble for the chain. */
  lemma BadEndIsTrouble(w: World, chain: seq<Path>)
    requires FilePath(w, chain) && (Repeats(chain) || BadFile(w, chain[|chain| - 1]))
    ensures Trouble(w, chain)
  {
  }

  lemma ChainGrows(w: World, stack: seq<Path>, f: Path)
    requires f in w.documents && (stack != [] ==> FilePath(w, stack) && Edge(w, stack[|stack| - 1], f))
    ensures FilePath(w, stack + [f])
  {
    hide Edge;
    var p := stack + [f];
    forall i | 0 < i < |p| ensures Edge(w, p[i - 1], p[i]) {
      if i < |stack| {
        assert p[i - 1] == stack[i - 1] && p[i] == stack[i];
      }
    }
  }

  lemma AliasChainGrows(d: Document, chain: seq<nat>, id: nat)
    requires d.Mapping? && id in d.nodes
    requires if chain == [] then id == d.root else AliasPath(d, chain) && Has(d.nodes[chain[|chain| - 1]], id)
    ensures AliasPath(d, chain + [id])
  {
    hide Has;
    var p := chain + [id];
    forall i | 0 < i < |p| ensures Has(d.nodes[p[i - 1]], p[i]) {
      if i < |chain| {
        assert p[i - 1] == chain[i - 1] && p[i] == chain[i];
      }
    }
  }

  lemma ChildIsHad(node: Node, i: nat)
    requires i < |Children(node)|
    ensures Children(node)[i].Coll? ==> Has(node, Children(node)[i].id)
  {
    if Children(node)[i].Coll? {
      assert Children(node)[i] == Coll(Children(node)[i].id);
    }
  }

  /** Child `k` has been walked, and its reference, if any, inspected. */
  ghost predicate ChildDone(w: World, node: Node, k: nat, order: seq<nat>, done: seq<Path>)
    requires k < |Children(node)|
  {
    && (Children(node)[k].Coll? ==> Children(node)[k].id in order)
    && (node.Dict? ==> EntryDone(w, node.entries[k], done))
  }

  lemma EntryStaysDone(w: World, e: Entry, done: seq<Path>, more: seq<Path>)
    requires done <= more && EntryDone(w, e, done)
    ensures EntryDone(w, e, more)
  {
    hide BadEntry, LocalFile;
  }

  lemma ChildrenStayDone(
    w: World, node: Node, n: nat, order: seq<nat>, done: seq<Path>, order': seq<nat>, done': seq<Path>)
    requires n <= |Children(node)| && order <= order' && done <= done'
    requires forall k | 0 <= k < n :: ChildDone(w, node, k, order, done)
    ensures forall k | 0 <= k < n :: ChildDone(w, node, k, order', done')
  {
    hide EntryDone;
    forall k | 0 <= k < n ensures ChildDone(w, node, k, order', done') {
      assert ChildDone(w, node, k, order, done);
      if node.Dict? { EntryStaysDone(w, node.entries[k], done, done'); }
    }
  }

  lemma NodeFinished(w: World, d: Document, order: seq<nat>, done: seq<Path>, id: nat)
    requires d.Mapping? && NodesDone(w, d, order, done) && id in d.nodes && id !in order
    requires forall k | 0 <= k < |Children(d.nodes[id])| :: ChildDone(w, d.nodes[id], k, order, done)
    ensures NodesDone(w, d, order + [id], done)
  {
    hide EntryDone, NodesDone;
    var node := d.nodes[id];
    forall c | Has(node, c) ensures c in order {
      var k :| 0 <= k < |Children(node)| && Children(node)[k] == Coll(c);
      assert ChildDone(w, node, k, order, done);
    }
    forall k | node.Dict? && 0 <= k < |node.entries| ensures EntryDone(w, node.entries[k], done) {
      assert ChildDone(w, node, k, order, done);
    }
    NodeBecomesDone(w, d, order, done, id);
  }

  lemma UnusableIsBad(w: World, f: Path)
    requires f in w.documents && w.documents[f].Unusable?
    ensures BadFile(w, f)
  {
  }

  lemma AliasPathIsBad(w: World, f: Path, p: seq<nat>)
    requires f in w.documents && w.documents[f].Mapping? && AliasPath(w.documents[f], p)
    requires Repeats(p) || BadNode(w, w.documents[f].nodes[p[|p| - 1]])
    ensures BadFile(w, f)
  {
  }

  lemma NothingDone(w: World, d: Document, done: seq<Path>)
    requires d.Mapping?
    ensures NodesDone(w, d, [], done)
  {
  }

  lemma IdIsKnown(w: World, f: Path, chain: seq<nat>, id: nat)
    requires Sound(w) && f in w.documents && w.documents[f].Mapping?
    requires chain == [] ==> id == w.documents[f].root
    requires chain != [] ==>
      AliasPath(w.documents[f], chain) && Has(w.documents[f].nodes[chain[|chain| - 1]], id)
    ensures id in w.documents[f].nodes
  {
  }

  // ----- What a successful run guarantees -----

  predicate Plain(space: Space, s: string) { s != [] && forall i | 0 <= i < |s| :: s[i] != '@' && !space(s[i]) }

  predicate Digest(s: string, n: nat) { |s| == n && forall i | 0 <= i < n :: s[i] in "0123456789abcdef" }

  predicate ExternalParts(space: Space, s: string, owner: string, name: string, digest: string) {
    && s == owner + "/" + name + "@" + digest && Digest(digest, 40)
    && Plain(space, owner) && '/' !in owner && Plain(space, name)
  }

  predicate DockerParts(space: Space, s: string, name: string, digest: string) {
    s == "docker://" + name + "@sha256:" + digest && Digest(digest, 64) && Plain(space, name)
  }

  lemma HexDigit(c: char)
    ensures LowerHex(c) <==> c in "0123456789abcdef"
  {
    if '0' <= c <= '9' {
      assert "0123456789abcdef"[c as int - '0' as int] == c;
    } else if 'a' <= c <= 'f' {
      assert "0123456789abcdef"[10 + c as int - 'a' as int] == c;
    }
  }

  lemma DigestIff(s: string, from: nat, n: nat)
    requires from + n == |s|
    ensures Digest(s[from..], n) <==> forall i | from <= i < |s| :: LowerHex(s[i])
  {
    hide LowerHex;
    var d := s[from..];
    forall c: char ensures LowerHex(c) <==> c in "0123456789abcdef" {
      HexDigit(c);
    }
    assert forall i | from <= i < |s| :: s[i] == d[i - from];
  }

  /** An owner and a name, both free of spaces and further `@`, and the 40 digits of a revision. */
  lemma PinnedExternalIff(space: Space, s: string)
    ensures PinnedExternal(space, s) <==> exists owner, name, digest :: ExternalParts(space, s, owner, name, digest)
  {
    hide LowerHex, Digest, Plain;
    if PinnedExternal(space, s) {
      var at := |s| - 41;
      var j :| 0 < j < at - 1 && s[j] == '/' && Spelled(space, s, j, at);
      DigestIff(s, at + 1, 40);
      SpelledIsPlain(space, s, j, at);
      SplitTwice(s, j, at);
      assert ExternalParts(space, s, s[..j], s[j + 1..at], s[at + 1..]);
    }
    hide PinnedExternal, ExternalParts;
    forall owner, name, digest | ExternalParts(space, s, owner, name, digest) ensures PinnedExternal(space, s) {
      ExternalIsPinned(space, s, owner, name, digest);
    }
  }

  lemma SpelledIsPlain(space: Space, s: string, j: nat, at: nat)
    requires 0 < j < at - 1 && at <= |s| && Spelled(space, s, j, at)
    ensures Plain(space, s[..j]) && '/' !in s[..j] && Plain(space, s[j + 1..at])
  {
    var name := s[j + 1..at];
    assert forall i | 0 <= i < |name| :: name[i] == s[j + 1 + i];
  }

  lemma SplitTwice(s: string, j: nat, at: nat)
    requires j < at < |s| && s[j] == '/' && s[at] == '@'
    ensures s == s[..j] + "/" + s[j + 1..at] + "@" + s[at + 1..]
  {
    assert s[..at] == s[..j] + "/" + s[j + 1..at];
    assert s == s[..at] + "@" + s[at + 1..];
  }

  lemma ExternalIsPinned(space: Space, s: string, owner: string, name: string, digest: string)
    requires ExternalParts(space, s, owner, name, digest)
    ensures PinnedExternal(space, s)
  {
    hide LowerHex;
    var j, at := |owner|, |owner| + 1 + |name|;
    assert s[at + 1..] == digest;
    DigestIff(s, at + 1, 40);
    assert s[j] == '/' && s[at] == '@';
    forall i | 0 <= i < at && i != j ensures s[i] != '@' && !space(s[i]) && (i < j ==> s[i] != '/') {
      assert s[i] == if i < j then owner[i] else name[i - j - 1];
    }
    assert Spelled(space, s, j, at);
  }

  /** A name free of spaces and further `@`, and the 64 digits of an image. */
  lemma PinnedDockerIff(space: Space, s: string)
    ensures PinnedDocker(space, s) <==> exists name, digest :: DockerParts(space, s, name, digest)
  {
    hide LowerHex;
    if PinnedDocker(space, s) {
      var at := |s| - 72;
      var name, digest := s[9..at], s[at + 8..];
      DigestIff(s, at + 8, 64);
      assert s == s[..9] + name + s[at..at + 8] + digest;
      assert forall i | 0 <= i < |name| :: name[i] == s[9 + i];
      assert DockerParts(space, s, name, digest);
    }
    forall name, digest | DockerParts(space, s, name, digest) ensures PinnedDocker(space, s) {
      DockerIsPinned(space, s, name, digest);
    }
  }

  lemma DockerIsPinned(space: Space, s: string, name: string, digest: string)
    requires DockerParts(space, s, name, digest)
    ensures PinnedDocker(space, s)
  {
    hide LowerHex;
    var at := 9 + |name|;
    assert s[..9] == "docker://" && s[at..at + 8] == "@sha256:" && s[at + 8..] == digest;
    DigestIff(s, at + 8, 64);
    assert forall i | 9 <= i < at :: s[i] == name[i - 9];
  }

  /** A local reference, an image that ends in a digest, or else a reference that ends in a revision. */
  predicate Fixed(s: string) {
    if "./" <= s then true
    else if "docker://" <= s then
      |s| >= 72 && s[|s| - 72..|s| - 64] == "@sha256:" && Digest(s[|s| - 64..], 64)
    else |s| >= 41 && s[|s| - 41] == '@' && Digest(s[|s| - 40..], 40)
  }

  lemma AcceptableIsFixed(w: World, reference: string)
    requires Acceptable(w, reference)
    ensures Fixed(reference)
    ensures "./" <= reference ==> LocalFile(w, reference).Some? && LocalFile(w, reference).value in w.inside
  {
    hide LowerHex, Digest;
    var n := |reference|;
    if !IsLocal(reference) {
      if Starts(reference, "docker://") {
        assert n - 72 > 9;
        DigestIff(reference, n - 64, 64);
        assert reference[n - 72..n - 72 + 8] == reference[n - 72..n - 64];
      } else {
        DigestIff(reference, n - 40, 40);
      }
    }
  }

  /** Whatever a file reachable from `f` uses is fixed, and lies inside the repository if it is local. */
  ghost predicate AllFixed(w: World, f: Path) {
    forall p: seq<Path>, reference: string | FilePath(w, p) && p[0] == f && Uses(w, p[|p| - 1], reference) ::
      && Fixed(reference)
      && ("./" <= reference ==> LocalFile(w, reference).Some? && LocalFile(w, reference).value in w.inside)
  }

  lemma UsedIsAcceptable(w: World, f: Path, reference: string)
    requires Uses(w, f, reference) && !BadFile(w, f)
    ensures Acceptable(w, reference)
  {
    hide Acceptable;
    var d := w.documents[f];
    var p :| AliasPath(d, p) && NodeUses(d.nodes[p[|p| - 1]], reference);
    assert Acceptable(w, reference) by {
      if !Acceptable(w, reference) {
        AliasPathIsBad(w, f, p);
      }
    }
  }

  lemma CleanIsFixed(w: World, f: Path)
    requires !Trouble(w, [f])
    ensures AllFixed(w, f)
  {
    hide Edge, BadFile, Uses, Fixed, LocalFile, Acceptable;
    forall p: seq<Path>, reference: string | FilePath(w, p) && p[0] == f && Uses(w, p[|p| - 1], reference)
      ensures Fixed(reference)
      ensures "./" <= reference ==> LocalFile(w, reference).Some? && LocalFile(w, reference).value in w.inside
    {
      assert [f] <= p;
      UsedIsAcceptable(w, p[|p| - 1], reference);
      AcceptableIsFixed(w, reference);
    }
  }

  // ----- The inspector -----

  datatype Status = Visiting | Done

  /** The walk inside one document: the chain being visited and the collections finished. */
  ghost predicate WalkInv(
    w: World, d: Document, chain: seq<nat>, visiting: set<nat>, visited: set<nat>, order: seq<nat>, done: seq<Path>)
  {
    && d.Mapping? && visiting == (set x | x in chain) && visited == (set x | x in order) && visiting !! visited
    && visiting + visited <= d.nodes.Keys
    && NodesDone(w, d, order, done) && (chain != [] ==> AliasPath(d, chain))
  }

  class ReferenceInspector {
    const w: World
    var state: map<Path, Status>
    ghost var done: seq<Path>

    /** `stack` is the chain of files being visited; everything done is clean and closed. */
    ghost predicate Inv(stack: seq<Path>)
      reads this
    {
      && Sound(w) && state.Keys <= w.documents.Keys
      && (forall f | f in state :: (state[f].Done? <==> f in done) && (state[f].Visiting? <==> f in stack))
      && (forall f | f in done :: f in state) && (forall f | f in stack :: f in state)
      && FilesDone(w, done) && (stack != [] ==> FilePath(w, stack))
    }

    constructor (w: World)
      requires Sound(w)
      ensures this.w == w && state == map[] && done == [] && Inv([])
    {
      this.w, state, done := w, map[], [];
    }

    method InspectConfig(path: Path, ghost stack: seq<Path>) returns (ok: bool)
      requires Inv(stack)
      requires ConfigFile(w, path).Some? && stack != [] ==> Edge(w, stack[|stack| - 1], ConfigFile(w, path).value)
      modifies this
      ensures old(state.Keys) <= state.Keys
      ensures ok ==> Inv(stack) && old(done) <= done && ConfigFile(w, path).Some? && ConfigFile(w, path).value in done
      ensures !ok && ConfigFile(w, path).Some? ==> Trouble(w, stack + [ConfigFile(w, path).value])
      decreases w.documents.Keys - state.Keys, 0
    {
      hide Edge, BadFile, Trouble, AliasPath, FilesDone, NodesDone, Has;
      if path !in w.canonical { return false; }
      var canonical := w.canonical[path];
      if canonical !in w.inside { return false; }
      ChainGrows(w, stack, canonical);
      ghost var chain := stack + [canonical];
      if canonical in state && state[canonical].Visiting? {
        BadEndIsTrouble(w, chain);
        return false;
      }
      if canonical in state && state[canonical].Done? { return true; }
      state := state[canonical := Visiting];
      var document := w.documents[canonical];
      if document.Unusable? {
        assert BadFile(w, canonical) by { UnusableIsBad(w, canonical); }
        BadEndIsTrouble(w, chain);
        return false;
      }
      NothingDone(w, document, done);
      assert canonical in w.documents.Keys - old(state.Keys) && canonical !in w.documents.Keys - state.Keys;
      var visited;
      ghost var order;
      ok, visited, order := Walk(canonical, Coll(document.root), {}, {}, chain, [], []);
      if !ok { return false; }
      RootDone(w, canonical, order, done);
      FileBecomesDone(w, done, canonical);
      state := state[canonical := Done];
      done := done + [canonical];
    }

    method Walk(f: Path, child: Child, visiting: set<nat>, visited: set<nat>,
                ghost stack: seq<Path>, ghost chain: seq<nat>, ghost order: seq<nat>)
      returns (ok: bool, finished: set<nat>, ghost order': seq<nat>)
      requires Inv(stack) && stack != [] && stack[|stack| - 1] == f
      requires WalkInv(w, w.documents[f], chain, visiting, visited, order, done)
      requires child.Coll? ==>
        if chain == [] then child.id == w.documents[f].root
        else Has(w.documents[f].nodes[chain[|chain| - 1]], child.id)
      modifies this
      ensures old(state.Keys) <= state.Keys
      ensures ok ==>
        && Inv(stack) && old(done) <= done && order <= order'
        && WalkInv(w, w.documents[f], chain, visiting, finished, order', done)
        && (child.Coll? ==> child.id in order')
      ensures !ok ==> Trouble(w, stack)
      decreases w.documents.Keys - state.Keys, 4, w.documents[f].nodes.Keys - visiting - visited, 0
    {
      hide Edge, BadFile, Trouble, FilesDone, NodesDone, Has, BadEntry, EntryDone, Acceptable;
      finished, order' := visited, order;
      if !child.Coll? { return true, visited, order; }
      var d := w.documents[f];
      var id := child.id;
      assert id in d.nodes by { IdIsKnown(w, f, chain, id); }
      AliasChainGrows(d, chain, id);
      ghost var deeper := chain + [id];
      if id in visiting {
        assert BadFile(w, f) by { AliasPathIsBad(w, f, deeper); }
        BadEndIsTrouble(w, stack);
        return false, visited, order;
      }
      if id in visited { return true, visited, order; }
      var node := d.nodes[id];
      var inner := visiting + {id};
      assert WalkInv(w, d, deeper, inner, visited, order, done);
      for i := 0 to |Children(node)|
        invariant old(state.Keys) <= state.Keys && Inv(stack) && old(done) <= done && order <= order'
        invariant WalkInv(w, d, deeper, inner, finished, order', done) && visited <= finished
        invariant forall k | 0 <= k < i :: ChildDone(w, node, k, order', done)
      {
        hide WalkInv;
        assert id in d.nodes.Keys - visiting - visited && id !in d.nodes.Keys - inner - finished;
        ghost var before, earlier := done, order';
        ok, finished, order' := VisitChild(f, node, i, inner, finished, stack, deeper, order');
        if !ok { return false, finished, order'; }
        ChildrenStayDone(w, node, i, earlier, before, order', done);
      }
      NodeFinished(w, d, order', done, id);
      return true, finished + {id}, order' + [id];
    }

    method VisitChild(f: Path, node: Node, i: nat, visiting: set<nat>, visited: set<nat>,
                      ghost stack: seq<Path>, ghost chain: seq<nat>, ghost order: seq<nat>)
      returns (ok: bool, finished: set<nat>, ghost order': seq<nat>)
      requires Inv(stack) && stack != [] && stack[|stack| - 1] == f
      requires WalkInv(w, w.documents[f], chain, visiting, visited, order, done)
      requires chain != [] && node == w.documents[f].nodes[chain[|chain| - 1]] && i < |Children(node)|
      modifies this
      ensures old(state.Keys) <= state.Keys
      ensures ok ==>
        && Inv(stack) && old(done) <= done && order <= order' && visited <= finished
        && WalkInv(w, w.documents[f], chain, visiting, finished, order', done)
        && ChildDone(w, node, i, order', done)
      ensures !ok ==> Trouble(w, stack)
      decreases w.documents.Keys - state.Keys, 4, w.documents[f].nodes.Keys - visiting - visited, 1
    {
      hide Edge, BadFile, Trouble, FilesDone, NodesDone, Has, BadEntry, EntryDone, Acceptable, AliasPath;
      finished, order' := visited, order;
      if node.Dict? {
        ok := InspectEntry(f, node.entries[i], stack, chain);
        if !ok { return false, visited, order; }
        NodesStayDone(w, w.documents[f], order, old(done), done);
      }
      ghost var middle := done;
      ChildIsHad(node, i);
      ok, finished, order' := Walk(f, Children(node)[i], visiting, visited, stack, chain, order);
      if ok && node.Dict? { EntryStaysDone(w, node.entries[i], middle, done); }
    }

    method InspectEntry(f: Path, e: Entry, ghost stack: seq<Path>, ghost chain: seq<nat>) returns (ok: bool)
      requires Inv(stack) && stack != [] && stack[|stack| - 1] == f
      requires w.documents[f].Mapping? && AliasPath(w.documents[f], chain)
      requires var node := w.documents[f].nodes[chain[|chain| - 1]]; node.Dict? && e in node.entries
      modifies this
      ensures old(state.Keys) <= state.Keys
      ensures ok ==> Inv(stack) && old(done) <= done && EntryDone(w, e, done)
      ensures !ok ==> Trouble(w, stack)
      decreases w.documents.Keys - state.Keys, 3
    {
      hide Edge, BadFile, Trouble, FilesDone, AliasPath, Acceptable, LocalFile, IsLocal;
      if !e.uses { return true; }
      if !e.child.Str? {
        AliasPathIsBad(w, f, chain);
        BadEndIsTrouble(w, stack);
        return false;
      }
      assert Uses(w, f, e.child.text);
      ok := InspectReference(f, e.child.text, stack);
      if !ok && !Acceptable(w, e.child.text) {
        AliasPathIsBad(w, f, chain);
        BadEndIsTrouble(w, stack);
      }
    }

    method InspectReference(f: Path, reference: string, ghost stack: seq<Path>) returns (ok: bool)
      requires Inv(stack) && stack != [] && stack[|stack| - 1] == f && Uses(w, f, reference)
      modifies this
      ensures old(state.Keys) <= state.Keys
      ensures ok ==>
        && Inv(stack) && old(done) <= done && Acceptable(w, reference)
        && (IsLocal(reference) ==> LocalFile(w, reference).value in done)
      ensures !ok ==> !Acceptable(w, reference) || Trouble(w, stack)
      decreases w.documents.Keys - state.Keys, 2
    {
      hide Edge, BadFile, Trouble, FilesDone, Uses, PinnedDocker, PinnedExternal, LocalFile;
      if IsLocal(reference) {
        ok := InspectLocalReference(f, reference, stack);
      } else if Starts(reference, "docker://") {
        return PinnedDocker(w.space, reference);
      } else {
        return PinnedExternal(w.space, reference);
      }
    }

    method InspectLocalReference(f: Path, reference: string, ghost stack: seq<Path>) returns (ok: bool)
      requires Inv(stack) && stack != [] && stack[|stack| - 1] == f && Uses(w, f, reference) && IsLocal(reference)
      modifies this
      ensures old(state.Keys) <= state.Keys
      ensures ok ==>
        && Inv(stack) && old(done) <= done
        && LocalFile(w, reference).Some? && LocalFile(w, reference).value in done
      ensures !ok ==> LocalFile(w, reference).None? || Trouble(w, stack)
      decreases w.documents.Keys - state.Keys, 1
    {
      hide BadFile, Trouble, FilesDone, Uses, ConfigFile;
      var target := w.resolve(reference);
      if !target.inside { return false; }
      if target.yaml {
        if !target.underWorkflows { return false; }
        ok := InspectConfig(target.path, stack);
      } else {
        if !target.isDirectory { return false; }
        if !target.directoryInside { return false; }
        if |target.metadata| > 1 { return false; }
        if |target.metadata| == 0 { return false; }
        ok := InspectConfig(target.metadata[0], stack);
      }
      if !ok && LocalFile(w, reference).Some? {
        TroubleOfPrefix(w, stack, stack + [LocalFile(w, reference).value]);
      }
    }

    /** Every root is inspected in turn; the first failure ends the run. It succeeds exactly when
        every root names a file in the repository from which no chain of local references reaches
        a bad file or closes a cycle; every reference reachable from a root is then fixed. */
    method Run(roots: seq<Path>) returns (ok: bool)
      requires Inv([]) && state == map[]
      modifies this
      ensures ok <==> forall i | 0 <= i < |roots| ::
        ConfigFile(w, roots[i]).Some? && !Trouble(w, [ConfigFile(w, roots[i]).value])
      ensures ok ==> forall i | 0 <= i < |roots| ::
        ConfigFile(w, roots[i]).Some? && AllFixed(w, ConfigFile(w, roots[i]).value)
    {
      hide Edge, BadFile, Trouble, FilesDone, ConfigFile, AllFixed;
      for i := 0 to |roots|
        invariant Inv([])
        invariant forall k | 0 <= k < i :: ConfigFile(w, roots[k]).Some? && ConfigFile(w, roots[k]).value in done
      {
        ok := InspectConfig(roots[i], []);
        if !ok {
          var config := ConfigFile(w, roots[i]);
          assert config.Some? ==> [] + [config.value] == [config.value];
          return false;
        }
      }
      forall i | 0 <= i < |roots|
        ensures !Trouble(w, [ConfigFile(w, roots[i]).value]) && AllFixed(w, ConfigFile(w, roots[i]).value)
      {
        DoneIsClean(w, done, ConfigFile(w, roots[i]).value);
        CleanIsFixed(w, ConfigFile(w, roots[i]).value);
      }
      return true;
    }
  }
}
