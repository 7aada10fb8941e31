/** The folder tree of the provider contract, as the end-to-end stub serves it
    (cmd/atrium-e2e/stubprovider.go, cmd/atrium-e2e/fixtures.go). */
module ShareTree {
  import opened Wrappers
  import opened SharePath

  datatype FolderEntry = FolderEntry(id: string, name: string, size: Option<int>, isFolder: bool, isOwn: bool)

  /** A file or folder; children is the one field that changes. depth counts the steps from the root. */
  class Node {
    const entry: FolderEntry
    const content: seq<int>
    ghost const depth: nat
    var children: seq<Node>

    constructor (entry: FolderEntry, content: seq<int>, ghost depth: nat)
      ensures this.entry == entry && this.content == content && this.depth == depth && children == []
    {
      this.entry := entry;
      this.content := content;
      this.depth := depth;
      children := [];
    }
  }

  /** A snapshot of a tree: the children of each of its nodes. */
  type Kids = map<Node, seq<Node>>

  // ----- Paths over a snapshot -----

  ghost predicate Level(kids: Kids, nodes: seq<Node>, depth: nat) {
    forall i :: 0 <= i < |nodes| ==> nodes[i] in kids && nodes[i].depth == depth
  }

  /** Children lie in the tree one level down, no deeper than height; only the root and folders have any. */
  ghost predicate Closed(kids: Kids, root: Node, height: nat) {
    && root in kids && root.depth == 0
    && forall n :: n in kids ==>
         && n.depth <= height
         && (n != root && !n.entry.isFolder ==> kids[n] == [])
         && Level(kids, kids[n], n.depth + 1)
  }

  function FirstNamed(nodes: seq<Node>, name: string): (found: Option<Node>)
    ensures found.Some? ==> found.value in nodes && found.value.entry.name == name
  {
    if nodes == [] then None
    else if nodes[0].entry.name == name then Some(nodes[0])
    else FirstNamed(nodes[1..], name)
  }

  /** The fold of first-child-by-name over the names. */
  ghost function Walk(kids: Kids, from: Node, names: seq<string>): Option<Node>
    decreases |names|
  {
    if names == [] then Some(from)
    else if from !in kids then None
    else
      match FirstNamed(kids[from], names[0])
      case None => None
      case Some(child) => Walk(kids, child, names[1..])
  }

  /** What uploading does to a snapshot. */
  ghost function Appended(kids: Kids, folder: Node, added: Node): Kids
    requires folder in kids
  {
    kids[folder := kids[folder] + [added]][added := []]
  }

  lemma {:induction false} FirstNamedAppend(nodes: seq<Node>, added: Node, name: string)
    ensures FirstNamed(nodes + [added], name)
         == if FirstNamed(nodes, name).Some? then FirstNamed(nodes, name)
            else if added.entry.name == name then Some(added) else None
    ensures FirstNamed(nodes, name).None? <==> forall n :: n in nodes ==> n.entry.name != name
  {
    if nodes != [] {
      assert (nodes + [added])[1..] == nodes[1..] + [added];
      FirstNamedAppend(nodes[1..], added, name);
    }
  }

  lemma {:induction false} WalkConcat(kids: Kids, from: Node, a: seq<string>, b: seq<string>)
    ensures Walk(kids, from, a + b)
         == match Walk(kids, from, a) case None => None case Some(n) => Walk(kids, n, b)
    decreases |a|
  {
    if a == [] {
      assert a + b == b;
    } else {
      assert (a + b)[1..] == a[1..] + b && (a + b)[0] == a[0];
      if from in kids && FirstNamed(kids[from], a[0]).Some? {
        WalkConcat(kids, FirstNamed(kids[from], a[0]).value, a[1..], b);
      }
    }
  }

  lemma {:induction false} WalkStays(kids: Kids, root: Node, height: nat, from: Node, names: seq<string>)
    requires Closed(kids, root, height) && from in kids
    ensures Walk(kids, from, names).Some? ==> Walk(kids, from, names).value in kids
    decreases |names|
  {
    if names != [] && FirstNamed(kids[from], names[0]).Some? {
      WalkStays(kids, root, height, FirstNamed(kids[from], names[0]).value, names[1..]);
    }
  }

  lemma FoundInTree(kids: Kids, root: Node, height: nat, from: Node, name: string)
    requires Closed(kids, root, height) && from in kids && FirstNamed(kids[from], name).Some?
    ensures FirstNamed(kids[from], name).value in kids
  {
  }

  /** Every path that resolved before an upload resolves to the same node after it. */
  lemma {:induction false} UploadKeepsPaths(kids: Kids, root: Node, height: nat, folder: Node, added: Node,
                                           from: Node, names: seq<string>)
    requires Closed(kids, root, height) && folder in kids && added !in kids && from in kids
    requires Walk(kids, from, names).Some?
    ensures Walk(Appended(kids, folder, added), from, names) == Walk(kids, from, names)
    decreases |names|
  {
    hide Closed, FirstNamed;
    if names != [] {
      FoundInTree(kids, root, height, from, names[0]);
      FirstNamedAppend(kids[folder], added, names[0]);
      UploadKeepsPaths(kids, root, height, folder, added, FirstNamed(kids[from], names[0]).value, names[1..]);
    }
  }

  /** The uploaded file is found at its own path exactly when its name is one plain step and no earlier
      sibling has it. */
  lemma UploadedResolves(kids: Kids, root: Node, height: nat, path: string, folder: Node, added: Node)
    requires Closed(kids, root, height) && added !in kids
    requires Walk(kids, root, Segments(path)) == Some(folder)
    ensures var name := added.entry.name;
            && folder in kids
            && (Walk(Appended(kids, folder, added), root, Segments(JoinPath(path, name))) == Some(added)
                <==> Plain(name) && forall n :: n in kids[folder] ==> n.entry.name != name)
  {
    var name := added.entry.name;
    WalkStays(kids, root, height, root, Segments(path));
    var after := Appended(kids, folder, added);
    SegmentsOfJoinPath(path, name);
    UploadKeepsPaths(kids, root, height, folder, added, root, Segments(path));
    WalkConcat(after, root, Segments(path), Segments(name));
    FirstNamedAppend(kids[folder], added, name);
    if Plain(name) {
      SegmentsOfPlain(name);
      assert Walk(after, folder, [name]) == FirstNamed(after[folder], name);
    } else {
      NamelessNeverResolves(kids, root, height, folder, added);
    }
  }

  /** A name with a slash, or none, is never what a walk ends on. */
  lemma NamelessNeverResolves(kids: Kids, root: Node, height: nat, folder: Node, added: Node)
    requires Closed(kids, root, height) && folder in kids && added !in kids && !Plain(added.entry.name)
    ensures Walk(Appended(kids, folder, added), folder, Segments(added.entry.name)) != Some(added)
  {
    var names := Segments(added.entry.name);
    SegmentsArePlain(added.entry.name);
    if names != [] && Walk(Appended(kids, folder, added), folder, names).Some? {
      WalkEndsOnName(Appended(kids, folder, added), folder, names);
    }
  }

  lemma {:induction false} WalkEndsOnName(kids: Kids, from: Node, names: seq<string>)
    requires names != [] && Walk(kids, from, names).Some?
    ensures Walk(kids, from, names).value.entry.name == names[|names| - 1]
    decreases |names|
  {
    if |names| > 1 {
      WalkEndsOnName(kids, FirstNamed(kids[from], names[0]).value, names[1..]);
    }
  }

  // ----- Lookup by id -----

  /** The pre-order listing of some siblings, descending only into folders, over at most levels levels. */
  ghost function Forest(kids: Kids, nodes: seq<Node>, levels: nat): seq<Node>
    decreases levels, |nodes|
  {
    if levels == 0 || nodes == [] then []
    else [nodes[0]] + Below(kids, nodes[0], levels - 1) + Forest(kids, nodes[1..], levels)
  }

  /** What the listing shows between a node and its next sibling. */
  ghost function Below(kids: Kids, node: Node, levels: nat): seq<Node>
    decreases levels, if node in kids then |kids[node]| + 1 else 0
  {
    if node.entry.isFolder && node in kids then Forest(kids, kids[node], levels) else []
  }

  /** Everything below the root of a tree of that height. */
  ghost function PreOrder(kids: Kids, root: Node, height: nat): seq<Node>
    requires root in kids
  {
    Forest(kids, kids[root], height)
  }

  function FirstWithId(nodes: seq<Node>, id: string): (found: Option<Node>)
    ensures found.Some? ==> found.value in nodes && found.value.entry.id == id
    ensures found.None? ==> forall n :: n in nodes ==> n.entry.id != id
  {
    if nodes == [] then None
    else if nodes[0].entry.id == id then Some(nodes[0])
    else FirstWithId(nodes[1..], id)
  }

  lemma {:induction false} FirstWithIdConcat(a: seq<Node>, b: seq<Node>, id: string)
    ensures FirstWithId(a + b, id) == if FirstWithId(a, id).Some? then FirstWithId(a, id) else FirstWithId(b, id)
  {
    if a == [] {
      assert a + b == b;
    } else {
      assert (a + b)[1..] == a[1..] + b;
      FirstWithIdConcat(a[1..], b, id);
    }
  }

  lemma ChildInTree(kids: Kids, root: Node, height: nat, node: Node, i: nat)
    requires Closed(kids, root, height) && node in kids && i < |kids[node]|
    ensures kids[node][i] in kids && kids[node][i].depth == node.depth + 1 <= height
  {
  }

  /** One step of the search: the next sibling, then what is below it, then the siblings after it. */
  lemma SearchStep(kids: Kids, nodes: seq<Node>, i: nat, levels: nat, id: string)
    requires i < |nodes| && levels > 0
    ensures FirstWithId(Forest(kids, nodes[i..], levels), id)
         == if nodes[i].entry.id == id then Some(nodes[i])
            else if FirstWithId(Below(kids, nodes[i], levels - 1), id).Some? then
              FirstWithId(Below(kids, nodes[i], levels - 1), id)
            else FirstWithId(Forest(kids, nodes[i + 1..], levels), id)
  {
    var node, below := nodes[i], Below(kids, nodes[i], levels - 1);
    var rest := Forest(kids, nodes[i + 1..], levels);
    assert nodes[i..][1..] == nodes[i + 1..];
    assert Forest(kids, nodes[i..], levels) == [node] + (below + rest);
    FirstWithIdConcat([node], below + rest, id);
    FirstWithIdConcat(below, rest, id);
    assert [node][1..] == [];
  }

  lemma NothingListed(kids: Kids, nodes: seq<Node>, levels: nat, id: string)
    requires nodes == []
    ensures FirstWithId(Forest(kids, nodes, levels), id) == None
  {
  }

  /** No two places of the listing carry the same id. */
  predicate DistinctIds(nodes: seq<Node>) {
    forall i, j :: 0 <= i < j < |nodes| ==> nodes[i].entry.id != nodes[j].entry.id
  }

  lemma {:induction false} ForestHasRoots(kids: Kids, nodes: seq<Node>, levels: nat)
    requires levels > 0
    ensures forall n :: n in nodes ==> n in Forest(kids, nodes, levels)
    decreases |nodes|
  {
    if nodes != [] {
      ForestHasRoots(kids, nodes[1..], levels);
    }
  }

  lemma {:induction false} ForestHasChildren(kids: Kids, root: Node, height: nat, nodes: seq<Node>, levels: nat, folder: Node)
    requires Closed(kids, root, height) && levels <= height && Level(kids, nodes, height + 1 - levels)
    requires folder in Forest(kids, nodes, levels) && folder.entry.isFolder
    ensures folder in kids
    ensures forall c :: c in kids[folder] ==> c in Forest(kids, nodes, levels)
    decreases levels, |nodes|
  {
    var node := nodes[0];
    assert node.depth == height + 1 - levels;
    if folder == node {
      if kids[folder] != [] {
        assert kids[folder][0].depth <= height;
        ForestHasRoots(kids, kids[folder], levels - 1);
      }
    } else if folder in Below(kids, node, levels - 1) {
      ForestHasChildren(kids, root, height, kids[node], levels - 1, folder);
    } else {
      ForestHasChildren(kids, root, height, nodes[1..], levels, folder);
    }
  }

  /** Whatever a path leads to below the root is in the share's listing. */
  lemma {:induction false} WalkIsListed(kids: Kids, root: Node, height: nat, names: seq<string>)
    requires Closed(kids, root, height) && names != [] && Walk(kids, root, names).Some?
    ensures Walk(kids, root, names).value in PreOrder(kids, root, height)
    decreases |names|
  {
    var last := names[|names| - 1];
    var before := names[..|names| - 1];
    assert names == before + [last];
    WalkConcat(kids, root, before, [last]);
    var parent := Walk(kids, root, before).value;
    WalkStays(kids, root, height, root, before);
    assert Walk(kids, parent, [last]) == FirstNamed(kids[parent], last);
    if before != [] {
      WalkIsListed(kids, root, height, before);
    }
    ChildrenAreListed(kids, root, height, parent);
  }

  lemma ChildrenAreListed(kids: Kids, root: Node, height: nat, folder: Node)
    requires Closed(kids, root, height) && folder in kids
    requires folder == root || folder in PreOrder(kids, root, height)
    ensures forall c :: c in kids[folder] ==> c in PreOrder(kids, root, height)
  {
    if kids[folder] != [] {
      assert kids[folder][0].depth <= height;
      if folder == root {
        ForestHasRoots(kids, kids[root], height);
      } else {
        ForestHasChildren(kids, root, height, kids[root], height, folder);
      }
    }
  }

  /** The node stands in the listing with no place before it that carries its id. */
  ghost predicate ComesFirst(nodes: seq<Node>, node: Node) {
    exists i :: 0 <= i < |nodes| && nodes[i] == node && forall j :: 0 <= j < i ==> nodes[j].entry.id != node.entry.id
  }

  lemma {:induction false} FirstWithIdExactly(nodes: seq<Node>, node: Node)
    ensures FirstWithId(nodes, node.entry.id) == Some(node) <==> ComesFirst(nodes, node)
  {
    if nodes != [] && nodes[0].entry.id != node.entry.id {
      FirstWithIdExactly(nodes[1..], node);
      if ComesFirst(nodes[1..], node) {
        var i :| 0 <= i < |nodes[1..]| && nodes[1..][i] == node
                 && forall j :: 0 <= j < i ==> nodes[1..][j].entry.id != node.entry.id;
        assert nodes[i + 1] == node;
      }
      if ComesFirst(nodes, node) {
        var i :| 0 <= i < |nodes| && nodes[i] == node && forall j :: 0 <= j < i ==> nodes[j].entry.id != node.entry.id;
        assert nodes[1..][i - 1] == node;
      }
    } else if nodes != [] && nodes[0] == node {
      assert ComesFirst(nodes, node);
    }
  }

  /** An entry listed under a path is what its id downloads exactly when no other node with that id comes before it in
      the share's listing; with ids unique in the share it always is. */
  lemma ListedIsDownloaded(kids: Kids, root: Node, height: nat, path: string, entry: Node)
    requires Closed(kids, root, height)
    requires Walk(kids, root, Segments(path)).Some? && Walk(kids, root, Segments(path)).value in kids
    requires entry in kids[Walk(kids, root, Segments(path)).value]
    ensures var listing := PreOrder(kids, root, height);
            && entry in listing
            && (FirstWithId(listing, entry.entry.id) == Some(entry) <==> ComesFirst(listing, entry))
            && (DistinctIds(listing) ==> ComesFirst(listing, entry))
  {
    var folder := Walk(kids, root, Segments(path)).value;
    var listing := PreOrder(kids, root, height);
    if Segments(path) != [] {
      WalkIsListed(kids, root, height, Segments(path));
    }
    ChildrenAreListed(kids, root, height, folder);
    FirstWithIdExactly(listing, entry);
    var i :| 0 <= i < |listing| && listing[i] == entry;
  }

  /** Every listed node is what its id downloads. */
  ghost predicate AllDownload(nodes: seq<Node>) {
    forall n :: n in nodes ==> FirstWithId(nodes, n.entry.id) == Some(n)
  }

  predicate IdsTellApart(nodes: seq<Node>) {
    forall m, n :: m in nodes && n in nodes && m != n ==> m.entry.id != n.entry.id
  }

  /** Everything listed can be downloaded by its id if and only if no two different nodes share an id. */
  lemma AllDownloadExactly(nodes: seq<Node>)
    ensures AllDownload(nodes) <==> IdsTellApart(nodes)
  {
    if AllDownload(nodes) {
      forall m, n | m in nodes && n in nodes && m != n ensures m.entry.id != n.entry.id {
        assert FirstWithId(nodes, m.entry.id) == Some(m) && FirstWithId(nodes, n.entry.id) == Some(n);
      }
    } else {
      var n :| n in nodes && FirstWithId(nodes, n.entry.id) != Some(n);
      var found := FirstWithId(nodes, n.entry.id).value;
      assert found in nodes && found != n;
    }
  }

  // ----- What an upload does to the ids -----

  /** The snapshot after an upload is closed again, one level higher at most. */
  lemma AppendedIsClosed(kids: Kids, root: Node, height: nat, folder: Node, added: Node, taller: nat)
    requires Closed(kids, root, height) && folder in kids && added !in kids
    requires folder == root || folder.entry.isFolder
    requires added.depth == folder.depth + 1 && height <= taller && folder.depth + 1 <= taller
    ensures Closed(Appended(kids, folder, added), root, taller) && Closed(kids, root, taller)
  {
  }

  lemma {:induction false} ForestAppend(kids: Kids, a: seq<Node>, b: seq<Node>, levels: nat)
    ensures Forest(kids, a + b, levels) == Forest(kids, a, levels) + Forest(kids, b, levels)
    decreases |a|
  {
    if a == [] {
      assert a + b == b;
    } else {
      assert (a + b)[1..] == a[1..] + b;
      ForestAppend(kids, a[1..], b, levels);
    }
  }

  lemma {:induction false} ForestInside(kids: Kids, root: Node, height: nat, nodes: seq<Node>, levels: nat)
    requires Closed(kids, root, height) && levels <= height && Level(kids, nodes, height + 1 - levels)
    ensures forall n :: n in Forest(kids, nodes, levels) ==> n in kids && n.depth > 0
    decreases levels, |nodes|
  {
    if levels > 0 && nodes != [] {
      ForestInside(kids, root, height, kids[nodes[0]], levels - 1);
      ForestInside(kids, root, height, nodes[1..], levels);
    }
  }

  /** The second listing has the first one's nodes, and the new file once per occurrence of its folder; onTop says
      that the nodes are listed below the folder itself, which adds the file once more. */
  ghost predicate Gains(before: seq<Node>, after: seq<Node>, folder: Node, added: Node, onTop: bool) {
    var extra := multiset(before)[folder] + if onTop then 1 else 0;
    multiset(after) == multiset(before)[added := multiset(before)[added] + extra]
  }

  /** The count adds up over a node, what is below it and what follows it. */
  lemma GainsAdd(node: Node, below: seq<Node>, rest: seq<Node>, below': seq<Node>, rest': seq<Node>, folder: Node, added: Node)
    requires added != node && added != folder
    requires Gains(below, below', folder, added, node == folder) && Gains(rest, rest', folder, added, false)
    ensures Gains([node] + below + rest, [node] + below' + rest', folder, added, false)
  {
    assert multiset([node] + below' + rest') == multiset{node} + multiset(below') + multiset(rest');
    assert multiset([node] + below + rest) == multiset{node} + multiset(below) + multiset(rest);
  }

  lemma GainsOneMore(before: seq<Node>, after: seq<Node>, folder: Node, added: Node)
    requires Gains(before, after, folder, added, false)
    ensures Gains(before, after + [added], folder, added, true)
  {
  }

  /** Below the folder itself the new file comes last. */
  lemma LastInFolder(after: Kids, before: seq<Node>, folder: Node, added: Node, levels: nat)
    requires folder in after && after[folder] == before + [added] && !added.entry.isFolder && levels > 0
    ensures Forest(after, after[folder], levels) == Forest(after, before, levels) + [added]
  {
    ForestAppend(after, before, [added], levels);
    assert [added][1..] == [];
    assert Forest(after, [added], levels) == [added];
  }

  /** Uploading inserts the new file once for every place the folder is listed, and nothing else. */
  lemma {:induction false} ForestAfterUpload(kids: Kids, root: Node, height: nat, folder: Node, added: Node,
                                            nodes: seq<Node>, levels: nat)
    requires Closed(kids, root, height) && levels <= height && Level(kids, nodes, height + 1 - levels)
    requires folder in kids && folder.depth < height && (folder != root ==> folder.entry.isFolder)
    requires added !in kids && !added.entry.isFolder
    ensures Gains(Forest(kids, nodes, levels), Forest(Appended(kids, folder, added), nodes, levels), folder, added, false)
    decreases levels, |nodes|, 1
  {
    if levels > 0 && nodes != [] {
      var after := Appended(kids, folder, added);
      var node := nodes[0];
      ForestAfterUpload(kids, root, height, folder, added, nodes[1..], levels);
      BelowAfterUpload(kids, root, height, folder, added, node, levels - 1);
      GainsAdd(node, Below(kids, node, levels - 1), Forest(kids, nodes[1..], levels),
               Below(after, node, levels - 1), Forest(after, nodes[1..], levels), folder, added);
    }
  }

  lemma {:induction false} BelowAfterUpload(kids: Kids, root: Node, height: nat, folder: Node, added: Node,
                                           node: Node, levels: nat)
    requires Closed(kids, root, height) && levels < height && node in kids && node.depth == height - levels
    requires folder in kids && folder.depth < height && (folder != root ==> folder.entry.isFolder)
    requires added !in kids && !added.entry.isFolder
    ensures Gains(Below(kids, node, levels), Below(Appended(kids, folder, added), node, levels), folder, added, node == folder)
    decreases levels, |kids[node]|, 2
  {
    if node.entry.isFolder {
      ForestAfterUpload(kids, root, height, folder, added, kids[node], levels);
      BelowGains(kids, Appended(kids, folder, added), folder, added, node, levels);
    }
  }

  lemma BelowGains(kids: Kids, after: Kids, folder: Node, added: Node, node: Node, levels: nat)
    requires node in kids && folder in kids && added !in kids && node.entry.isFolder && !added.entry.isFolder
    requires after == Appended(kids, folder, added)
    requires node == folder ==> levels > 0
    requires Gains(Forest(kids, kids[node], levels), Forest(after, kids[node], levels), folder, added, false)
    ensures Gains(Below(kids, node, levels), Below(after, node, levels), folder, added, node == folder)
  {
    hide Forest, Gains;
    if node == folder {
      LastInFolder(after, kids[folder], folder, added, levels);
      GainsOneMore(Forest(kids, kids[node], levels), Forest(after, kids[node], levels), folder, added);
    }
  }

  /** The whole share's listing gains the new file once for every place its folder is listed. */
  lemma UploadInsertsOne(kids: Kids, root: Node, height: nat, folder: Node, added: Node)
    requires Closed(kids, root, height) && folder in kids && folder.depth < height
    requires folder != root ==> folder.entry.isFolder
    requires added !in kids && !added.entry.isFolder
    ensures var listing := multiset(PreOrder(kids, root, height));
            && listing[added] == 0
            && multiset(PreOrder(Appended(kids, folder, added), root, height))
               == listing[added := if folder == root then 1 else listing[folder]]
  {
    hide Forest;
    var after := Appended(kids, folder, added);
    ForestInside(kids, root, height, kids[root], height);
    ForestAfterUpload(kids, root, height, folder, added, kids[root], height);
    if folder == root {
      assert root !in PreOrder(kids, root, height);
      LastInFolder(after, kids[root], root, added, height);
    }
  }

  lemma OccursOnce(nodes: seq<Node>, i: nat)
    requires i < |nodes| && forall j :: 0 <= j < |nodes| && j != i ==> nodes[j] != nodes[i]
    ensures multiset(nodes)[nodes[i]] == 1
  {
    var a, b := nodes[..i], nodes[i + 1..];
    assert nodes == a + [nodes[i]] + b;
    assert nodes[i] !in a && nodes[i] !in b;
  }

  lemma OccursTwice(nodes: seq<Node>, i: nat, j: nat)
    requires i < j < |nodes| && nodes[i] == nodes[j]
    ensures multiset(nodes)[nodes[i]] >= 2
  {
    var a, b := nodes[..i + 1], nodes[i + 1..];
    assert nodes == a + b;
    assert a[i] == nodes[i] && b[j - i - 1] == nodes[i];
    assert nodes[i] in multiset(a) && nodes[i] in multiset(b);
  }

  /** Distinct ids, in terms of how often each node is listed. */
  lemma DistinctByCount(nodes: seq<Node>)
    ensures DistinctIds(nodes)
       <==> (forall n :: n in nodes ==> multiset(nodes)[n] == 1)
            && forall m, n :: m in nodes && n in nodes && m != n ==> m.entry.id != n.entry.id
  {
    if DistinctIds(nodes) {
      forall n | n in nodes ensures multiset(nodes)[n] == 1 {
        var i :| 0 <= i < |nodes| && nodes[i] == n;
        OccursOnce(nodes, i);
      }
    } else {
      var i, j :| 0 <= i < j < |nodes| && nodes[i].entry.id == nodes[j].entry.id;
      assert nodes[i] in nodes && nodes[j] in nodes;
      if nodes[i] == nodes[j] {
        OccursTwice(nodes, i, j);
      }
    }
  }

  /** Ids stay unique exactly as long as no file in the share has the new file's id yet. */
  lemma UploadKeepsIdsDistinct(kids: Kids, root: Node, height: nat, folder: Node, added: Node)
    requires Closed(kids, root, height) && folder in kids && folder.depth < height
    requires folder == root || (folder.entry.isFolder && folder in PreOrder(kids, root, height))
    requires added !in kids && !added.entry.isFolder
    ensures DistinctIds(PreOrder(Appended(kids, folder, added), root, height))
       <==> DistinctIds(PreOrder(kids, root, height))
            && forall n :: n in PreOrder(kids, root, height) ==> n.entry.id != added.entry.id
  {
    var listing := PreOrder(kids, root, height);
    var listing' := PreOrder(Appended(kids, folder, added), root, height);
    UploadInsertsOne(kids, root, height, folder, added);
    DistinctByCount(listing);
    DistinctByCount(listing');
    CountsDecide(listing, listing', folder, added, folder == root);
  }

  /** After an upload everything listed can still be downloaded if and only if it could before and no listed node has
      the new file's id. */
  lemma UploadKeepsDownloads(kids: Kids, root: Node, height: nat, folder: Node, added: Node)
    requires Closed(kids, root, height) && folder in kids && folder.depth < height
    requires folder == root || (folder.entry.isFolder && folder in PreOrder(kids, root, height))
    requires added !in kids && !added.entry.isFolder
    ensures AllDownload(PreOrder(Appended(kids, folder, added), root, height))
       <==> AllDownload(PreOrder(kids, root, height))
            && forall n :: n in PreOrder(kids, root, height) ==> n.entry.id != added.entry.id
  {
    var listing := PreOrder(kids, root, height);
    var listing' := PreOrder(Appended(kids, folder, added), root, height);
    UploadInsertsOne(kids, root, height, folder, added);
    DownloadsDecide(listing, listing', folder, added, folder == root);
  }

  lemma DownloadsDecide(listing: seq<Node>, listing': seq<Node>, folder: Node, added: Node, atRoot: bool)
    requires multiset(listing)[added] == 0
    requires multiset(listing') == multiset(listing)[added := if atRoot then 1 else multiset(listing)[folder]]
    requires atRoot || folder in listing
    ensures AllDownload(listing')
       <==> AllDownload(listing) && forall n :: n in listing ==> n.entry.id != added.entry.id
  {
    hide AllDownload;
    AllDownloadExactly(listing);
    AllDownloadExactly(listing');
    SameNodesAndOne(listing, listing', folder, added, atRoot);
  }

  lemma SameNodesAndOne(listing: seq<Node>, listing': seq<Node>, folder: Node, added: Node, atRoot: bool)
    requires multiset(listing)[added] == 0
    requires multiset(listing') == multiset(listing)[added := if atRoot then 1 else multiset(listing)[folder]]
    requires atRoot || folder in listing
    ensures added !in listing && added in listing' && forall n :: n in listing' <==> n in listing || n == added
  {
    assert forall n :: n in listing <==> n in multiset(listing);
    assert forall n :: n in listing' <==> n in multiset(listing');
  }

  lemma CountsDecide(listing: seq<Node>, listing': seq<Node>, folder: Node, added: Node, atRoot: bool)
    requires multiset(listing)[added] == 0
    requires multiset(listing') == multiset(listing)[added := if atRoot then 1 else multiset(listing)[folder]]
    requires atRoot || folder in listing
    ensures DistinctIds(listing')
       <==> DistinctIds(listing) && forall n :: n in listing ==> n.entry.id != added.entry.id
  {
    DistinctByCount(listing);
    DistinctByCount(listing');
    SameNodesAndOne(listing, listing', folder, added, atRoot);
    assert forall n :: n in listing <==> n in multiset(listing);
    assert added in listing';
    assert forall n :: n in listing ==> n in listing' && n != added;
  }
}
