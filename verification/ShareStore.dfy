/** The stub provider's shares and the handlers that read and grow them under its lock
    (cmd/atrium-e2e/stubprovider.go, cmd/atrium-e2e/fixtures.go). */
module ShareStore {
  import opened Wrappers
  import opened DownloadCap
  import opened Numerals
  import opened SharePath
  import opened ShareTree

  function UploadId(n: nat): string {
    "up-" + Decimal(n)
  }

  /** No two uploads into one folder can clash: ids differ, and an upload's id never names a later place. */
  ghost predicate UploadReady(children: seq<Node>) {
    && DistinctIds(children)
    && forall i, k :: 0 <= i < |children| && k > i + 1 ==> children[i].entry.id != UploadId(k)
  }

  lemma UploadIdInjective(m: nat, n: nat)
    requires UploadId(m) == UploadId(n)
    ensures m == n
  {
    assert UploadId(m)[3..] == Decimal(m) && UploadId(n)[3..] == Decimal(n);
    ValueOfDecimal(m);
    ValueOfDecimal(n);
  }

  /** Appending the next upload keeps a folder ready for the one after. */
  lemma UploadStaysReady(children: seq<Node>, added: Node)
    requires UploadReady(children) && added.entry.id == UploadId(|children| + 1)
    ensures UploadReady(children + [added])
  {
    var longer := children + [added];
    forall i, k | 0 <= i < |longer| && k > i + 1 ensures longer[i].entry.id != UploadId(k) {
      if longer[i].entry.id == UploadId(k) && i == |children| {
        UploadIdInjective(k, |children| + 1);
      }
    }
  }

  ghost predicate AllReady(kids: Kids) {
    forall n :: n in kids ==> UploadReady(kids[n])
  }

  lemma AppendedIsReady(kids: Kids, folder: Node, added: Node)
    requires AllReady(kids) && folder in kids && added.entry.id == UploadId(|kids[folder]| + 1)
    ensures AllReady(Appended(kids, folder, added))
  {
    UploadStaysReady(kids[folder], added);
  }

  /** One upload: the folder it goes to and the file it makes. */
  datatype Placed = Placed(folder: Node, added: Node)

  /** Uploads one after another, each numbered by the children its folder has by then. */
  ghost predicate Uploads(kids: Kids, uploads: seq<Placed>)
    decreases |uploads|
  {
    uploads == [] ||
    var first := uploads[0];
    && first.folder in kids && first.added.entry.id == UploadId(|kids[first.folder]| + 1)
    && Uploads(Appended(kids, first.folder, first.added), uploads[1..])
  }

  ghost function AfterUploads(kids: Kids, uploads: seq<Placed>): Kids
    requires Uploads(kids, uploads)
    decreases |uploads|
  {
    if uploads == [] then kids
    else AfterUploads(Appended(kids, uploads[0].folder, uploads[0].added), uploads[1..])
  }

  /** Over every run of uploads the ids inside each folder stay pairwise distinct. */
  lemma {:induction false} UploadsKeepFoldersDistinct(kids: Kids, uploads: seq<Placed>)
    requires AllReady(kids) && Uploads(kids, uploads)
    ensures AllReady(AfterUploads(kids, uploads))
    ensures var after := AfterUploads(kids, uploads); forall n :: n in after ==> DistinctIds(after[n])
    decreases |uploads|
  {
    if uploads != [] {
      AppendedIsReady(kids, uploads[0].folder, uploads[0].added);
      UploadsKeepFoldersDistinct(Appended(kids, uploads[0].folder, uploads[0].added), uploads[1..]);
    }
  }

  // ----- Sharing modes -----

  /** Whether a listing in this mode shows the entry: write/read-own shows own files, a dropzone none. */
  predicate Shown(entry: FolderEntry, mode: int) {
    if mode == 1 then entry.isOwn else mode != 3
  }

  function Visible(children: seq<Node>, mode: int): seq<FolderEntry> {
    if children == [] then []
    else (if Shown(children[0].entry, mode) then [children[0].entry] else []) + Visible(children[1..], mode)
  }

  lemma {:induction false} VisibleStep(children: seq<Node>, i: nat, mode: int)
    requires i < |children|
    ensures Visible(children[..i + 1], mode)
         == Visible(children[..i], mode) + if Shown(children[i].entry, mode) then [children[i].entry] else []
  {
    if i == 0 {
      assert children[..1] == [children[0]] && children[..0] == [];
      assert Visible([children[0]][1..], mode) == [];
    } else {
      assert children[..i + 1][1..] == children[1..][..i] && children[..i][1..] == children[1..][..i - 1];
      VisibleStep(children[1..], i - 1, mode);
    }
  }

  /** What each mode shows: with mode 3, the dropzone, nothing; with mode 1 one's own entries; otherwise everything, in
      the folder's order. */
  lemma {:induction false} VisibleExactly(children: seq<Node>, mode: int)
    ensures mode == 3 ==> Visible(children, mode) == []
    ensures mode != 1 && mode != 3 ==> |Visible(children, mode)| == |children|
                                       && forall i :: 0 <= i < |children| ==> Visible(children, mode)[i] == children[i].entry
    ensures mode == 1 ==> (forall e :: e in Visible(children, mode) ==> e.isOwn)
                          && forall n :: n in children && n.entry.isOwn ==> n.entry in Visible(children, mode)
  {
    if children != [] {
      VisibleExactly(children[1..], mode);
    }
  }

  /** An upload shows up at the end of the recipient's listing, except in a dropzone. */
  lemma {:induction false} UploadShows(children: seq<Node>, added: Node, mode: int)
    requires added.entry.isOwn
    ensures Visible(children + [added], mode) == Visible(children, mode) + if mode == 3 then [] else [added.entry]
  {
    var longer := children + [added];
    VisibleStep(longer, |children|, mode);
    assert longer[..|children|] == children && longer[..|children| + 1] == longer;
  }

  method FilterByMode(children: seq<Node>, mode: int) returns (out: seq<FolderEntry>)
    ensures out == Visible(children, mode)
  {
    out := [];
    for i := 0 to |children|
      invariant out == Visible(children[..i], mode)
    {
      VisibleStep(children, i, mode);
      if mode == 1 {
        if !children[i].entry.isOwn {
          continue;
        }
      } else if mode == 3 {
        continue;
      }
      out := out + [children[i].entry];
    }
    assert children[..|children|] == children;
  }

  // ----- One share -----

  datatype Listing = NotFound | File(entry: FolderEntry) | Folder(entries: seq<FolderEntry>)

  class ShareState {
    const recipient: string
    const mode: int
    const maxDownloads: Option<int>
    const content: seq<int>
    const root: Node?
    var downloadCount: int
    ghost var nodes: set<Node>
    ghost var height: nat

    /** A share over a tree already built, or over none. */
    constructor (recipient: string, mode: int, maxDownloads: Option<int>, content: seq<int>, root: Node?,
                 ghost nodes: set<Node>, ghost height: nat)
      requires root != null ==> Closed(map n | n in nodes :: n.children, root, height)
      requires AllReady(map n | n in nodes :: n.children)
      ensures Valid() && this.recipient == recipient && this.mode == mode && this.maxDownloads == maxDownloads
      ensures this.root == root && this.nodes == nodes && downloadCount == 0
    {
      this.recipient, this.mode, this.maxDownloads, this.content, this.root :=
        recipient, mode, maxDownloads, content, root;
      this.downloadCount, this.nodes, this.height := 0, nodes, height;
    }

    ghost function Snapshot(): Kids
      reads this, nodes
    {
      map n | n in nodes :: n.children
    }

    /** The tree is a tree, and every folder of it can take another upload. */
    ghost predicate Valid()
      reads this, nodes
    {
      && (root != null ==> Closed(Snapshot(), root, height))
      && AllReady(Snapshot())
    }

    /** The node at a path, by the fold of first-child-by-name over its segments. */
    ghost function Lookup(path: string): Option<Node>
      reads this, nodes
    {
      if root == null then None else Walk(Snapshot(), root, Segments(path))
    }

    /** Whether a node found by Lookup counts as a file: the root never does. */
    ghost predicate IsFile(node: Node) {
      node != root && !node.entry.isFolder
    }

    method Resolve(path: string) returns (node: Node?, isFile: bool)
      requires Valid()
      ensures match Lookup(path)
              case None => node == null && !isFile
              case Some(found) => node == found && found in nodes && isFile == IsFile(found)
    {
      if root == null {
        return null, false;
      }
      var cur: Node := root;
      var parts := Split(path);
      for i := 0 to |parts|
        invariant cur in nodes
        invariant Lookup(path) == Walk(Snapshot(), cur, NonEmpty(parts[i..]))
      {
        assert parts[i..][1..] == parts[i + 1..];
        if parts[i] == "" {
          continue;
        }
        var next: Node? := null;
        var children := cur.children;
        for j := 0 to |children|
          invariant next == null
          invariant FirstNamed(children, parts[i]) == FirstNamed(children[j..], parts[i])
        {
          assert children[j..][1..] == children[j + 1..];
          if children[j].entry.name == parts[i] {
            next := children[j];
            break;
          }
        }
        if next == null {
          return null, false;
        }
        cur := next;
      }
      if cur != root && !cur.entry.isFolder {
        return cur, true;
      }
      return cur, false;
    }

    /** The first node with that id in the walk that descends only into folders. */
    method FindById(node: Node, id: string, ghost levels: nat) returns (found: Node?)
      requires Valid() && root != null && node in nodes && levels == height - node.depth
      ensures (if found == null then None else Some(found)) == FirstWithId(Forest(Snapshot(), node.children, levels), id)
      decreases levels
    {
      hide Forest, FirstWithId;
      ghost var kids := Snapshot();
      var children := node.children;
      assert children[0..] == children;
      NothingListed(kids, children[|children|..], levels, id);
      for i := 0 to |children|
        invariant FirstWithId(Forest(kids, children, levels), id) == FirstWithId(Forest(kids, children[i..], levels), id)
      {
        var child := children[i];
        ChildInTree(kids, root, height, node, i);
        SearchStep(kids, children, i, levels, id);
        if child.entry.id == id {
          return child;
        }
        if child.entry.isFolder {
          found := FindById(child, id, levels - 1);
          if found != null {
            return;
          }
        }
      }
      return null;
    }

    method HandleFolder(path: string) returns (listing: Listing)
      requires Valid()
      ensures listing == match Lookup(path)
                         case None => NotFound
                         case Some(found) =>
                           if IsFile(found) then File(found.entry) else Folder(Visible(found.children, mode))
      ensures root != null && Segments(path) == [] ==> listing == Folder(Visible(root.children, mode))
    {
      var target, isFile := Resolve(path);
      if target == null {
        return NotFound;
      }
      if isFile {
        return File(target.entry);
      }
      var entries := FilterByMode(target.children, mode);
      return Folder(entries);
    }

    method HandleFolderFile(id: string) returns (status: int, served: Node?)
      requires Valid()
      ensures root == null ==> status == 404 && served == null
      ensures root != null ==>
                match FirstWithId(PreOrder(Snapshot(), root, height), id)
                case None => status == 404 && served == null
                case Some(found) => status == 200 && served == found
    {
      if root == null {
        return 404, null;
      }
      served := FindById(root, id, height);
      status := if served == null then 404 else 200;
    }

    /** Appends a file to a folder of the tree. */
    method AppendFile(folder: Node, name: string, body: seq<int>) returns (file: Node)
      requires Valid() && root != null && folder in nodes && !IsFile(folder)
      modifies this`nodes, this`height, folder
      ensures Valid() && nodes == old(nodes) + {file}
      ensures fresh(file) && file.content == body
      ensures file.entry == FolderEntry(UploadId(|old(folder.children)| + 1), name, Some(|body|), false, true)
      ensures Snapshot() == Appended(old(Snapshot()), folder, file)
    {
      hide Closed, AllReady;
      ghost var kids := Snapshot();
      file := new Node(FolderEntry(UploadId(|folder.children| + 1), name, Some(|body|), false, true), body, folder.depth + 1);
      AppendedIsReady(kids, folder, file);
      ghost var taller := if height > folder.depth + 1 then height else folder.depth + 1;
      AppendedIsClosed(kids, root, height, folder, file, taller);
      folder.children := folder.children + [file];
      nodes := nodes + {file};
      height := taller;
      assert Snapshot() == Appended(kids, folder, file);
    }

    /** Appends the uploaded file to the folder at the path; a body of None is one that fails to read. On success the
        snapshot gains exactly that file, at the end of exactly that folder; otherwise nothing changes. */
    method HandleUpload(path: string, name: string, body: Option<seq<int>>) returns (status: int, ghost added: Node?)
      requires Valid()
      modifies this`nodes, this`height, nodes
      ensures Valid() && old(nodes) <= nodes
      ensures mode == 0 ==> status == 403
      ensures mode != 0 && body == None ==> status == 400
      ensures mode != 0 && body != None && root != null && Segments(path) == [] ==> status == 201
      ensures mode != 0 && body != None ==>
                status == if old(Lookup(path).Some? && !IsFile(Lookup(path).value)) then 201 else 404
      ensures status != 201 ==> added == null && Snapshot() == old(Snapshot())
      ensures status == 201 ==>
                && body.Some? && added != null && fresh(added) && added.content == body.value
                && old(Lookup(path)).value in old(nodes)
                && added.entry == FolderEntry(UploadId(|old(Snapshot())[old(Lookup(path)).value]| + 1), name,
                                              Some(|body.value|), false, true)
                && Snapshot() == Appended(old(Snapshot()), old(Lookup(path)).value, added)
    {
      hide Closed, AllReady, Appended, UploadId;
      if mode == 0 {
        return 403, null;
      }
      if body == None {
        return 400, null;
      }
      var folder, isFile := Resolve(path);
      if folder == null || isFile {
        return 404, null;
      }
      added := AppendFile(folder, name, body.value);
      return 201, added;
    }

    /** The locked part of a content download. */
    method HandleContent() returns (status: int)
      modifies this`downloadCount
      ensures status == DownloadStatus(maxDownloads, old(downloadCount))
      ensures downloadCount == old(downloadCount) + if status == 200 then 1 else 0
    {
      if maxDownloads.Some? && downloadCount >= maxDownloads.value {
        return 410;
      }
      downloadCount := downloadCount + 1;
      return 200;
    }
  }

  // ----- The store -----

  /** The listed ids whose share belongs to the recipient, in the given order. */
  ghost function Owned(shares: map<string, ShareState>, order: seq<string>, email: string): seq<string> {
    if order == [] then []
    else
      var last := order[|order| - 1];
      Owned(shares, order[..|order| - 1], email)
      + if last in shares && shares[last].recipient == email then [last] else []
  }

  class Store {
    var shares: map<string, ShareState>

    constructor (canonical: map<string, ShareState>)
      ensures shares == canonical
    {
      shares := canonical;
    }

    method Seed(canonical: map<string, ShareState>)
      modifies this
      ensures shares == canonical
    {
      shares := canonical;
    }

    method Find(id: string) returns (st: ShareState?)
      ensures st == if id in shares then shares[id] else null
    {
      if id in shares {
        return shares[id];
      }
      return null;
    }

    /** A share of somebody else is answered as one that does not exist. */
    method Authorize(id: string, email: string) returns (st: ShareState?)
      ensures st != null <==> id in shares && shares[id].recipient == email
      ensures st != null ==> st == shares[id]
    {
      st := Find(id);
      if st == null || st.recipient != email {
        return null;
      }
    }

    method ListFor(email: string, order: seq<string>) returns (out: seq<string>)
      ensures out == Owned(shares, order, email)
    {
      out := [];
      for i := 0 to |order|
        invariant out == Owned(shares, order[..i], email)
      {
        assert order[..i + 1][..i] == order[..i];
        if order[i] in shares && shares[order[i]].recipient == email {
          out := out + [order[i]];
        }
      }
      assert order[..|order|] == order;
    }
  }

  /** The listing follows the given order, list by list. */
  lemma {:induction false} OwnedInOrder(shares: map<string, ShareState>, a: seq<string>, b: seq<string>, email: string)
    ensures Owned(shares, a + b, email) == Owned(shares, a, email) + Owned(shares, b, email)
    ensures forall id :: Owned(shares, [id], email) == if id in shares && shares[id].recipient == email then [id] else []
  {
    forall id ensures Owned(shares, [id], email) == if id in shares && shares[id].recipient == email then [id] else [] {
      assert [id][..0] == [];
    }
    if b == [] {
      assert a + b == a;
    } else {
      var init, last := b[..|b| - 1], b[|b| - 1];
      assert (a + b)[..|a + b| - 1] == a + init;
      OwnedInOrder(shares, a, init, email);
      Assoc(Owned(shares, a, email), Owned(shares, init, email),
            if last in shares && shares[last].recipient == email then [last] else []);
    }
  }

  /** Listing and authorization agree: of the listed ids, a recipient sees exactly those that Authorize admits. */
  lemma {:induction false} ListedIsAuthorized(shares: map<string, ShareState>, order: seq<string>, email: string, id: string)
    ensures id in Owned(shares, order, email) <==> id in order && id in shares && shares[id].recipient == email
  {
    if order != [] {
      ListedIsAuthorized(shares, order[..|order| - 1], email, id);
      assert order == order[..|order| - 1] + [order[|order| - 1]];
    }
  }

  // ----- Ids across folders -----

  /** A share whose root holds a file and a folder with one file in it. */
  ghost function SmallShare(root: Node, plan: Node, papers: Node, detail: Node): Kids {
    map[root := [plan, papers], plan := [], papers := [detail], detail := []]
  }

  /** Ids are counted per folder, so they can repeat across folders: after one upload into the root and two into the
      sub-folder of this share, the root's upload can no longer be downloaded by the id it is listed under. */
  lemma UploadIdsRepeat(root: Node, plan: Node, papers: Node, detail: Node, x: Node, y: Node, z: Node)
    requires root != plan && root != papers && root != detail && plan != papers && plan != detail && papers != detail
    requires papers.entry.isFolder && !plan.entry.isFolder && !detail.entry.isFolder
    requires plan.entry.id == "plan" && papers.entry.id == "papers" && detail.entry.id == "detail"
    requires !x.entry.isFolder && !y.entry.isFolder && !z.entry.isFolder
    requires var kids := SmallShare(root, plan, papers, detail);
             && x !in kids && x.entry.id == UploadId(|kids[root]| + 1)
             && y !in Appended(kids, root, x) && y.entry.id == UploadId(|kids[papers]| + 1)
             && z !in Appended(Appended(kids, root, x), papers, y)
             && z.entry.id == UploadId(|Appended(kids, papers, y)[papers]| + 1)
    ensures var after := Appended(Appended(Appended(SmallShare(root, plan, papers, detail), root, x), papers, y), papers, z);
            && x in after[root] && z in after[papers] && x != z
            && FirstWithId(PreOrder(after, root, 2), x.entry.id) == Some(z)
  {
    var kids := SmallShare(root, plan, papers, detail);
    var after := Appended(Appended(Appended(kids, root, x), papers, y), papers, z);
    assert after[root] == [plan, papers, x] && after[papers] == [detail, y, z];
    if y.entry.id == x.entry.id {
      UploadIdInjective(2, 3);
    }
    SearchFindsSecond(after, root, plan, papers, detail, x, y, z);
  }

  lemma SearchFindsSecond(after: Kids, root: Node, plan: Node, papers: Node, detail: Node, x: Node, y: Node, z: Node)
    requires root in after && papers in after && papers.entry.isFolder && !plan.entry.isFolder && !detail.entry.isFolder
    requires after[root] == [plan, papers, x] && after[papers] == [detail, y, z]
    requires plan.entry.id == "plan" && papers.entry.id == "papers" && detail.entry.id == "detail"
    requires x.entry.id == z.entry.id == UploadId(3) && y.entry.id == UploadId(2) != UploadId(3)
    requires !x.entry.isFolder && !y.entry.isFolder && !z.entry.isFolder
    ensures FirstWithId(PreOrder(after, root, 2), UploadId(3)) == Some(z)
  {
    var id := UploadId(3);
    assert id[0] == 'u' && |id| == 4 && id[1] == 'p';
    assert after[papers][0..] == after[papers] && after[root][0..] == after[root];
    SearchStep(after, after[papers], 0, 1, id);
    SearchStep(after, after[papers], 1, 1, id);
    SearchStep(after, after[papers], 2, 1, id);
    assert FirstWithId(Forest(after, after[papers], 1), id) == Some(z);
    SearchStep(after, after[root], 0, 2, id);
    SearchStep(after, after[root], 1, 2, id);
  }
}
