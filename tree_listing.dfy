/**
 * The full directory listing of `GET /directory/:id`: a LIFO walk from the
 * tenant root that gives every entry a `TreeNode` at `<parent.path>/<name>`,
 * appends it to its parent's children in listing order, and pushes it when it
 * is a directory. The finished root is sent as a JSON document.
 *
 * The nodes live in an arena, a sequence indexed by node reference; a node's
 * `children` are references into it.
 */
module TreeListing {
  import opened Storage

  /** What `mime.lookup` gives: a MIME type, or `false` (None) for an unknown extension. */
  type MimeType = Option<string>

  /** The `file` object of a listed node: base name, MIME type, mtime and size. */
  datatype FileInfo = FileInfo(name: string, mimeType: MimeType, lastModified: int, size: int)

  /** A `TreeNode`. The root has no `file`; `children` are arena references. */
  datatype TreeNode = TreeNode(path: string, file: Option<FileInfo>, children: seq<nat>)

  /** The JSON document of a `TreeNode`, children inlined. */
  datatype Doc = Doc(path: string, file: Option<FileInfo>, children: seq<Doc>)

  /** A node waiting on the stack, with the frame (path and listing) it will expand. */
  datatype Pending = Pending(node: nat, frame: Frame)

  // ---------------------------------------------------------------------
  // `path.basename`

  function StripTrailingSlashes(s: string): string
  {
    if |s| > 0 && s[|s| - 1] == '/' then StripTrailingSlashes(s[..|s| - 1]) else s
  }

  function LastSegment(s: string): string
  {
    if s == [] || s[|s| - 1] == '/' then [] else LastSegment(s[..|s| - 1]) + [s[|s| - 1]]
  }

  /** The last `/`-separated segment once trailing separators are dropped. */
  function Basename(s: string): (b: string)
    ensures '/' !in b
  {
    LastSegmentHasNoSlash(StripTrailingSlashes(s));
    LastSegment(StripTrailingSlashes(s))
  }

  lemma {:induction false} LastSegmentHasNoSlash(s: string)
    ensures '/' !in LastSegment(s)
    decreases |s|
  {
    if s != [] && s[|s| - 1] != '/' {
      LastSegmentHasNoSlash(s[..|s| - 1]);
    }
  }

  lemma {:induction false} LastSegmentAfterSlash(q: string, name: string)
    requires '/' !in name
    ensures LastSegment(q + "/" + name) == name
    decreases |name|
  {
    var s := q + "/" + name;
    if name == [] {
      assert s[|s| - 1] == '/';
    } else {
      var n := |name| - 1;
      assert s[..|s| - 1] == q + "/" + name[..n];
      assert s[|s| - 1] == name[n];
      LastSegmentAfterSlash(q, name[..n]);
    }
  }

  /** For an entry name a storage medium can hold, the base name of its path is the name. */
  lemma BasenameOfChild(parent: string, name: string)
    requires name != [] && '/' !in name
    ensures Basename(ChildPath(parent, name)) == name
  {
    var s := ChildPath(parent, name);
    assert s[|s| - 1] == name[|name| - 1];
    assert StripTrailingSlashes(s) == s;
    LastSegmentAfterSlash(parent, name);
  }

  // ---------------------------------------------------------------------
  // The document the handler is meant to produce

  /** The metadata the handler records for the entry `e` listed at `childPath`. */
  function Describe(childPath: string, e: Entry, mime: string -> MimeType): FileInfo
  {
    FileInfo(Basename(childPath), mime(childPath), e.stat.lastModified, e.stat.size)
  }

  /** The document of the node at `path`, with `file`, whose listing is `es`. */
  function NodeDoc(path: string, file: Option<FileInfo>, es: seq<Entry>, mime: string -> MimeType): Doc
    decreases es
  {
    Doc(path, file, seq(|es|, k requires 0 <= k < |es| =>
      var cp := ChildPath(path, es[k].name);
      var info := Some(Describe(cp, es[k], mime));
      if es[k].Dir? then NodeDoc(cp, info, es[k].entries, mime) else Doc(cp, info, [])))
  }

  /** The `k`th child of a node's document, one entry at a time. */
  lemma NodeDocChild(path: string, file: Option<FileInfo>, es: seq<Entry>, mime: string -> MimeType, k: int)
    requires 0 <= k < |es|
    ensures |NodeDoc(path, file, es, mime).children| == |es|
    ensures
      var cp := ChildPath(path, es[k].name);
      var info := Some(Describe(cp, es[k], mime));
      NodeDoc(path, file, es, mime).children[k]
        == if es[k].Dir? then NodeDoc(cp, info, es[k].entries, mime) else Doc(cp, info, [])
  {
  }

  /** The listing of the tenant root `rootDir` whose entries are `root`. */
  function Listing(rootDir: string, root: seq<Entry>, mime: string -> MimeType): Doc
  {
    NodeDoc(rootDir, None, root, mime)
  }

  // ---------------------------------------------------------------------
  // The arena

  /** Every child reference points further into the arena. */
  ghost predicate Linked(nodes: seq<TreeNode>)
  {
    forall i, k :: 0 <= i < |nodes| && 0 <= k < |nodes[i].children| ==> i < nodes[i].children[k] < |nodes|
  }

  /** The JSON document of the node `i`. */
  function Render(nodes: seq<TreeNode>, i: nat): Doc
    requires Linked(nodes) && i < |nodes|
    decreases |nodes| - i
  {
    Doc(nodes[i].path, nodes[i].file, seq(|nodes[i].children|, k requires 0 <= k < |nodes[i].children| =>
      Render(nodes, nodes[i].children[k])))
  }

  /** The `k`th child of node `i` is the node of the `k`th entry of its listing. */
  ghost predicate ChildOk(nodes: seq<TreeNode>, listings: seq<seq<Entry>>, mime: string -> MimeType, i: nat, k: nat)
    requires Linked(nodes) && |listings| == |nodes| && i < |nodes| && k < |nodes[i].children| && k < |listings[i]|
  {
    var j := nodes[i].children[k];
    var e := listings[i][k];
    var cp := ChildPath(nodes[i].path, e.name);
    nodes[j].path == cp && nodes[j].file == Some(Describe(cp, e, mime)) && listings[j] == Contents(e)
  }

  /** Node `i` holds one correct child per entry of its listing. */
  ghost predicate Expanded(nodes: seq<TreeNode>, listings: seq<seq<Entry>>, mime: string -> MimeType, i: nat)
    requires Linked(nodes) && |listings| == |nodes| && i < |nodes|
  {
    |nodes[i].children| == |listings[i]|
    && forall k :: 0 <= k < |listings[i]| ==> ChildOk(nodes, listings, mime, i, k)
  }

  /** A node on the stack has no children yet and will expand its own listing. */
  ghost predicate Waiting(nodes: seq<TreeNode>, listings: seq<seq<Entry>>, p: Pending)
  {
    && |listings| == |nodes| && p.node < |nodes|
    && nodes[p.node].children == []
    && nodes[p.node].path == p.frame.path
    && listings[p.node] == p.frame.entries
  }

  ghost predicate OnStack(stack: seq<Pending>, i: nat)
  {
    exists q :: 0 <= q < |stack| && stack[q].node == i
  }

  function FramesOf(stack: seq<Pending>): (r: seq<Frame>)
    ensures |r| == |stack| && forall q :: 0 <= q < |stack| ==> r[q] == stack[q].frame
  {
    seq(|stack|, q requires 0 <= q < |stack| => stack[q].frame)
  }

  /** Once every node is expanded, the arena renders as the listing the storage medium describes. */
  lemma {:induction false} RenderIsNodeDoc(nodes: seq<TreeNode>, listings: seq<seq<Entry>>, mime: string -> MimeType, i: nat)
    requires Linked(nodes) && |listings| == |nodes| && i < |nodes|
    requires forall x :: 0 <= x < |nodes| ==> Expanded(nodes, listings, mime, x)
    ensures Render(nodes, i) == NodeDoc(nodes[i].path, nodes[i].file, listings[i], mime)
    decreases |nodes| - i
  {
    var es := listings[i];
    var ch := nodes[i].children;
    assert Expanded(nodes, listings, mime, i);
    var left := Render(nodes, i).children;
    var right := NodeDoc(nodes[i].path, nodes[i].file, es, mime).children;
    forall k | 0 <= k < |es| ensures left[k] == right[k] {
      assert ChildOk(nodes, listings, mime, i, k);
      RenderIsNodeDoc(nodes, listings, mime, ch[k]);
    }
    assert left == right;
  }

  // ---------------------------------------------------------------------
  // The walk

  /** The node the walk creates for the entry `e` listed under `parent`. */
  function NewNode(parent: string, e: Entry, mime: string -> MimeType): TreeNode
  {
    var cp := ChildPath(parent, e.name);
    TreeNode(cp, Some(Describe(cp, e, mime)), [])
  }

  /** The arena once the first `i` entries of `cur`'s listing have their nodes. */
  ghost predicate Grown(nodes: seq<TreeNode>, listings: seq<seq<Entry>>, cur: Pending, mime: string -> MimeType,
                        nodes': seq<TreeNode>, listings': seq<seq<Entry>>, i: nat)
  {
    var c, es, base := cur.node, cur.frame.entries, |nodes|;
    && c < base && i <= |es| && |listings| == base
    && |nodes'| == |listings'| == base + i
    && (forall x :: 0 <= x < base && x != c ==> nodes'[x] == nodes[x])
    && nodes'[c].path == nodes[c].path && nodes'[c].file == nodes[c].file
    && listings'[..base] == listings
    && |nodes'[c].children| == i
    && (forall k :: 0 <= k < i ==> nodes'[c].children[k] == base + k)
    && (forall k :: 0 <= k < i ==> nodes'[base + k] == NewNode(cur.frame.path, es[k], mime))
    && (forall k :: 0 <= k < i ==> listings'[base + k] == Contents(es[k]))
  }

  /** What has been pushed once the first `i` entries of `cur`'s listing are enumerated. */
  ghost predicate PushedSoFar(base: nat, cur: Pending, nodes': seq<TreeNode>, listings': seq<seq<Entry>>,
                              pushed: seq<Pending>, i: nat)
    requires i <= |cur.frame.entries|
  {
    && PushedNodes(base, cur.frame.entries, pushed, i)
    && (forall q :: 0 <= q < |pushed| ==> Waiting(nodes', listings', pushed[q]))
    && FramesOf(pushed) == ChildFrames(cur.frame.path, cur.frame.entries[..i])
  }

  /** The pushed nodes are exactly the new nodes of the directory entries among the first `i`, in order. */
  ghost predicate PushedNodes(base: nat, es: seq<Entry>, pushed: seq<Pending>, i: nat)
    requires i <= |es|
  {
    && (forall k :: 0 <= k < i && es[k].Dir? ==> OnStack(pushed, base + k))
    && (forall q :: 0 <= q < |pushed| ==> base <= pushed[q].node < base + i)
    && (forall a, b :: 0 <= a < b < |pushed| ==> pushed[a].node < pushed[b].node)
  }

  lemma GrowStep(nodes: seq<TreeNode>, listings: seq<seq<Entry>>, cur: Pending, mime: string -> MimeType,
                 n0: seq<TreeNode>, l0: seq<seq<Entry>>, i: nat, n1: seq<TreeNode>, l1: seq<seq<Entry>>)
    requires Grown(nodes, listings, cur, mime, n0, l0, i) && i < |cur.frame.entries|
    requires n1 == n0[cur.node := n0[cur.node].(children := n0[cur.node].children + [|n0|])]
                  + [NewNode(cur.frame.path, cur.frame.entries[i], mime)]
    requires l1 == l0 + [Contents(cur.frame.entries[i])]
    ensures Grown(nodes, listings, cur, mime, n1, l1, i + 1)
  {
    assert l1[..|nodes|] == l0[..|nodes|];
  }

  lemma PushStep(nodes: seq<TreeNode>, listings: seq<seq<Entry>>, cur: Pending, mime: string -> MimeType,
                 n0: seq<TreeNode>, l0: seq<seq<Entry>>, p0: seq<Pending>, i: nat,
                 n1: seq<TreeNode>, l1: seq<seq<Entry>>, p1: seq<Pending>)
    requires Grown(nodes, listings, cur, mime, n0, l0, i) && i < |cur.frame.entries|
    requires Grown(nodes, listings, cur, mime, n1, l1, i + 1)
    requires PushedSoFar(|nodes|, cur, n0, l0, p0, i)
    requires var e := cur.frame.entries[i];
      p1 == p0 + if e.Dir? then [Pending(|n0|, Frame(ChildPath(cur.frame.path, e.name), e.entries))] else []
    ensures PushedSoFar(|nodes|, cur, n1, l1, p1, i + 1)
  {
    var es, base := cur.frame.entries, |nodes|;
    var e := es[i];
    assert p1[..|p0|] == p0;
    PushNodesStep(base, es, p0, i, p1);
    PushWaitingStep(nodes, listings, cur, mime, n0, l0, p0, i, n1, l1, p1);
    assert es[..i + 1] == es[..i] + [e];
    ChildFramesSnoc(cur.frame.path, es[..i], e);
    assert FramesOf(p1) == FramesOf(p0) + (if e.Dir? then [Frame(ChildPath(cur.frame.path, e.name), e.entries)] else []);
  }

  lemma PushNodesStep(base: nat, es: seq<Entry>, p0: seq<Pending>, i: nat, p1: seq<Pending>)
    requires i < |es| && PushedNodes(base, es, p0, i)
    requires |p1| == |p0| + (if es[i].Dir? then 1 else 0) && p1[..|p0|] == p0
    requires es[i].Dir? ==> p1[|p0|].node == base + i
    ensures PushedNodes(base, es, p1, i + 1)
  {
    forall k | 0 <= k <= i && es[k].Dir? ensures OnStack(p1, base + k) {
      if k < i {
        var q :| 0 <= q < |p0| && p0[q].node == base + k;
        assert p1[q] == p1[..|p0|][q];
      } else {
        assert p1[|p0|].node == base + k;
      }
    }
  }

  lemma PushWaitingStep(nodes: seq<TreeNode>, listings: seq<seq<Entry>>, cur: Pending, mime: string -> MimeType,
                        n0: seq<TreeNode>, l0: seq<seq<Entry>>, p0: seq<Pending>, i: nat,
                        n1: seq<TreeNode>, l1: seq<seq<Entry>>, p1: seq<Pending>)
    requires Grown(nodes, listings, cur, mime, n0, l0, i) && i < |cur.frame.entries|
    requires Grown(nodes, listings, cur, mime, n1, l1, i + 1)
    requires forall q :: 0 <= q < |p0| ==> |nodes| <= p0[q].node < |nodes| + i && Waiting(n0, l0, p0[q])
    requires var e := cur.frame.entries[i];
      p1 == p0 + if e.Dir? then [Pending(|n0|, Frame(ChildPath(cur.frame.path, e.name), e.entries))] else []
    ensures forall q :: 0 <= q < |p1| ==> Waiting(n1, l1, p1[q])
  {
    var es, base := cur.frame.entries, |nodes|;
    var e := es[i];
    forall q | 0 <= q < |p1| ensures Waiting(n1, l1, p1[q]) {
      if q < |p0| {
        assert p1[q] == p0[q] && Waiting(n0, l0, p0[q]);
        var k := p0[q].node - base;
        assert n1[base + k] == NewNode(cur.frame.path, es[k], mime) == n0[base + k];
        assert l1[base + k] == Contents(es[k]) == l0[base + k];
      } else {
        assert n1[base + i] == NewNode(cur.frame.path, e, mime);
        assert l1[base + i] == Contents(e);
      }
    }
  }

  /**
   * The `for` loop over one listing: node `cur.node` receives one new node per
   * entry of its listing, in listing order, and the directory entries among
   * them are returned for pushing, in listing order.
   */
  method ExpandListing(nodes: seq<TreeNode>, ghost listings: seq<seq<Entry>>, cur: Pending, mime: string -> MimeType)
    returns (nodes': seq<TreeNode>, ghost listings': seq<seq<Entry>>, pushed: seq<Pending>)
    requires Waiting(nodes, listings, cur)
    ensures Grown(nodes, listings, cur, mime, nodes', listings', |cur.frame.entries|)
    ensures PushedSoFar(|nodes|, cur, nodes', listings', pushed, |cur.frame.entries|)
  {
    var c := cur.node;
    var es := cur.frame.entries;
    nodes', listings', pushed := nodes, listings, [];
    var i := 0;
    while i < |es|
      invariant i <= |es|
      invariant Grown(nodes, listings, cur, mime, nodes', listings', i)
      invariant PushedSoFar(|nodes|, cur, nodes', listings', pushed, i)
    {
      var e := es[i];
      var childPath := ChildPath(cur.frame.path, e.name);
      var childNode := TreeNode(childPath, Some(Describe(childPath, e, mime)), []);
      var j := |nodes'|;
      ghost var n0, l0, p0 := nodes', listings', pushed;
      nodes' := nodes'[c := nodes'[c].(children := nodes'[c].children + [j])] + [childNode];
      listings' := listings' + [Contents(e)];
      if e.Dir? {
        pushed := pushed + [Pending(j, Frame(childPath, e.entries))];
      }
      GrowStep(nodes, listings, cur, mime, n0, l0, i, nodes', listings');
      PushStep(nodes, listings, cur, mime, n0, l0, p0, i, nodes', listings', pushed);
      i := i + 1;
    }
  }

  /** What one expansion leaves behind, in the terms the walk's invariant uses. */
  lemma ExpansionDone(nodes: seq<TreeNode>, listings: seq<seq<Entry>>, cur: Pending, mime: string -> MimeType,
                      nodes': seq<TreeNode>, listings': seq<seq<Entry>>, pushed: seq<Pending>)
    requires Linked(nodes) && Waiting(nodes, listings, cur)
    requires Grown(nodes, listings, cur, mime, nodes', listings', |cur.frame.entries|)
    requires PushedSoFar(|nodes|, cur, nodes', listings', pushed, |cur.frame.entries|)
    ensures Linked(nodes') && |listings'| == |nodes'| >= |nodes| && listings'[..|nodes|] == listings
    ensures Expanded(nodes', listings', mime, cur.node)
    ensures forall x :: |nodes| <= x < |nodes'| ==> nodes'[x].children == []
    ensures forall x :: |nodes| <= x < |nodes'| ==> listings'[x] == [] || OnStack(pushed, x)
    ensures forall q :: 0 <= q < |pushed| ==> |nodes| <= pushed[q].node && Waiting(nodes', listings', pushed[q])
    ensures FramesOf(pushed) == ChildFrames(cur.frame.path, cur.frame.entries)
  {
    var c, es, base := cur.node, cur.frame.entries, |nodes|;
    assert es[..|es|] == es;
    forall x | base <= x < |nodes'| ensures nodes'[x].children == [] && (listings'[x] == [] || OnStack(pushed, x)) {
      var k := x - base;
      assert nodes'[base + k] == NewNode(cur.frame.path, es[k], mime);
      assert listings'[base + k] == Contents(es[k]);
      assert es[k].Dir? ==> OnStack(pushed, base + k);
    }
    forall x, k | 0 <= x < |nodes'| && 0 <= k < |nodes'[x].children|
      ensures x < nodes'[x].children[k] < |nodes'|
    {
      if x < base && x != c {
        assert nodes'[x] == nodes[x];
      }
    }
    assert Linked(nodes');
    forall k | 0 <= k < |es| ensures ChildOk(nodes', listings', mime, c, k) {
      assert nodes'[base + k] == NewNode(cur.frame.path, es[k], mime);
      assert listings'[base + k] == Contents(es[k]);
      assert listings'[c] == listings[c];
    }
  }

  /** The handler's walk. `listed` records, in order, the frames the walk expands. */
  method ListDirectory(rootDir: string, root: seq<Entry>, mime: string -> MimeType)
    returns (doc: Doc, listed: seq<Frame>)
    ensures doc == Listing(rootDir, root, mime)
    ensures listed == Order(Frame(rootDir, root))
  {
    var nodes := [TreeNode(rootDir, None, [])];
    ghost var listings := [root];
    var stack := [Pending(0, Frame(rootDir, root))];
    ghost var order := Order(Frame(rootDir, root));
    listed := [];
    assert OrderOfStack(FramesOf(stack)) == order by {
      assert FramesOf(stack) == [Frame(rootDir, root)];
      assert FramesOf(stack)[..0] == [];
    }
    while |stack| > 0
      invariant Linked(nodes) && |listings| == |nodes| && 0 < |nodes|
      invariant nodes[0].path == rootDir && nodes[0].file == None && listings[0] == root
      invariant forall q :: 0 <= q < |stack| ==> Waiting(nodes, listings, stack[q])
      invariant forall a, b :: 0 <= a < b < |stack| ==> stack[a].node < stack[b].node
      invariant forall x :: 0 <= x < |nodes| ==> Expanded(nodes, listings, mime, x) || OnStack(stack, x)
      invariant listed + OrderOfStack(FramesOf(stack)) == order
      decreases |order| - |listed|
    {
      var cur := stack[|stack| - 1];
      ghost var rest := stack[..|stack| - 1];
      assert stack == rest + [cur];
      ghost var before := listed;
      ghost var oldNodes, oldListings := nodes, listings;
      listed := listed + [cur.frame];
      var pushed;
      nodes, listings, pushed := ExpandListing(nodes, listings, cur, mime);
      ExpansionDone(oldNodes, oldListings, cur, mime, nodes, listings, pushed);
      stack := stack[..|stack| - 1] + pushed;
      StackStep(oldNodes, oldListings, rest, cur, nodes, listings, pushed);
      ExpandedStep(oldNodes, oldListings, rest, cur, mime, nodes, listings, pushed);
      OrderStep(order, before, rest, cur, pushed);
    }
    RenderIsNodeDoc(nodes, listings, mime, 0);
    doc := Render(nodes, 0);
  }

  /** The stack after one expansion still holds waiting nodes in increasing order. */
  lemma StackStep(nodes: seq<TreeNode>, listings: seq<seq<Entry>>, rest: seq<Pending>, cur: Pending,
                  nodes': seq<TreeNode>, listings': seq<seq<Entry>>, pushed: seq<Pending>)
    requires forall q :: 0 <= q < |rest + [cur]| ==> Waiting(nodes, listings, (rest + [cur])[q])
    requires forall a, b :: 0 <= a < b < |rest + [cur]| ==> (rest + [cur])[a].node < (rest + [cur])[b].node
    requires |listings'| == |nodes'| >= |nodes| && listings'[..|nodes|] == listings
    requires forall x :: 0 <= x < |nodes| && x != cur.node ==> nodes'[x] == nodes[x]
    requires forall q :: 0 <= q < |pushed| ==> |nodes| <= pushed[q].node && Waiting(nodes', listings', pushed[q])
    requires forall a, b :: 0 <= a < b < |pushed| ==> pushed[a].node < pushed[b].node
    ensures forall q :: 0 <= q < |rest + pushed| ==> Waiting(nodes', listings', (rest + pushed)[q])
    ensures forall a, b :: 0 <= a < b < |rest + pushed| ==> (rest + pushed)[a].node < (rest + pushed)[b].node
  {
    var old' := rest + [cur];
    forall q | 0 <= q < |rest| ensures Waiting(nodes', listings', rest[q]) && rest[q].node < cur.node {
      assert old'[q] == rest[q] && old'[|rest|] == cur;
      assert Waiting(nodes, listings, old'[q]);
      assert listings'[rest[q].node] == listings'[..|nodes|][rest[q].node];
    }
    forall a, b | 0 <= a < b < |rest + pushed| ensures (rest + pushed)[a].node < (rest + pushed)[b].node {
      if b < |rest| {
        assert old'[a] == rest[a] && old'[b] == rest[b];
      } else if a < |rest| {
        assert Waiting(nodes, listings, old'[|rest|]);
      }
    }
  }

  /** After one expansion every node is expanded or still on the stack. */
  lemma ExpandedStep(nodes: seq<TreeNode>, listings: seq<seq<Entry>>, rest: seq<Pending>, cur: Pending,
                     mime: string -> MimeType,
                     nodes': seq<TreeNode>, listings': seq<seq<Entry>>, pushed: seq<Pending>)
    requires Linked(nodes) && |listings| == |nodes|
    requires forall x :: 0 <= x < |nodes| ==> Expanded(nodes, listings, mime, x) || OnStack(rest + [cur], x)
    requires forall a, b :: 0 <= a < b < |rest + [cur]| ==> (rest + [cur])[a].node < (rest + [cur])[b].node
    requires cur.node < |nodes|
    requires Linked(nodes') && |listings'| == |nodes'| >= |nodes| && listings'[..|nodes|] == listings
    requires forall x :: 0 <= x < |nodes| && x != cur.node ==> nodes'[x] == nodes[x]
    requires nodes'[cur.node].path == nodes[cur.node].path && nodes'[cur.node].file == nodes[cur.node].file
    requires Expanded(nodes', listings', mime, cur.node)
    requires forall x :: |nodes| <= x < |nodes'| ==> nodes'[x].children == []
    requires forall x :: |nodes| <= x < |nodes'| ==> listings'[x] == [] || OnStack(pushed, x)
    ensures forall x :: 0 <= x < |nodes'| ==> Expanded(nodes', listings', mime, x) || OnStack(rest + pushed, x)
  {
    var st := rest + [cur];
    forall x | 0 <= x < |nodes'|
      ensures Expanded(nodes', listings', mime, x) || OnStack(rest + pushed, x)
    {
      if x >= |nodes| {
        if OnStack(pushed, x) {
          var q :| 0 <= q < |pushed| && pushed[q].node == x;
          assert (rest + pushed)[|rest| + q] == pushed[q];
        }
      } else if x != cur.node {
        assert listings'[x] == listings[x];
        if Expanded(nodes, listings, mime, x) {
          forall k | 0 <= k < |listings[x]| ensures ChildOk(nodes', listings', mime, x, k) {
            assert ChildOk(nodes, listings, mime, x, k);
            var j := nodes[x].children[k];
            assert listings'[j] == listings[j];
            assert nodes'[j].path == nodes[j].path && nodes'[j].file == nodes[j].file;
          }
        } else {
          var q :| 0 <= q < |st| && st[q].node == x;
          if q < |rest| {
            assert st[q] == rest[q] && (rest + pushed)[q] == rest[q];
          }
        }
      }
    }
  }

  /** After one expansion the stack still pops the rest of the expansion order. */
  lemma OrderStep(order: seq<Frame>, before: seq<Frame>, rest: seq<Pending>, cur: Pending, pushed: seq<Pending>)
    requires before + OrderOfStack(FramesOf(rest + [cur])) == order
    requires FramesOf(pushed) == ChildFrames(cur.frame.path, cur.frame.entries)
    ensures (before + [cur.frame]) + OrderOfStack(FramesOf(rest + pushed)) == order
    ensures |before| < |order|
  {
    assert FramesOf(rest + [cur]) == FramesOf(rest) + [cur.frame];
    assert FramesOf(rest + pushed) == FramesOf(rest) + FramesOf(pushed);
    assert (FramesOf(rest) + [cur.frame])[..|rest|] == FramesOf(rest);
    OrderOfChildFrames(cur.frame.path, cur.frame.entries);
    OrderOfStackAppend(FramesOf(rest), FramesOf(pushed));
  }

  // ---------------------------------------------------------------------
  // What the listing holds

  /** The paths of all nodes of a document. */
  ghost function DocPaths(d: Doc): set<string>
    decreases d
  {
    {d.path} + (set k, x | 0 <= k < |d.children| && x in DocPaths(d.children[k]) :: x)
  }

  /** `x` is the tenant root `rootDir` or the path of an entry stored below it. */
  ghost predicate StoragePath(rootDir: string, root: seq<Entry>, x: string)
  {
    x == rootDir || exists names :: IsChain(root, names) && x == JoinPath(rootDir, names)
  }

  /**
   * Completeness and soundness of the listing: its node paths are exactly the
   * root and the paths `<root>/<n1>/.../<nk>` of the entries of the storage tree.
   */
  lemma ListingPathsAreStoragePaths(rootDir: string, root: seq<Entry>, mime: string -> MimeType)
    ensures forall x :: x in DocPaths(Listing(rootDir, root, mime)) <==> StoragePath(rootDir, root, x)
  {
    forall x
      ensures x in DocPaths(Listing(rootDir, root, mime)) <==> StoragePath(rootDir, root, x)
    {
      assert rootDir in DocPaths(Listing(rootDir, root, mime));
      if x in DocPaths(Listing(rootDir, root, mime)) {
        DocPathIsChain(rootDir, None, root, mime, x);
      } else if x != rootDir && StoragePath(rootDir, root, x) {
        var names :| IsChain(root, names) && x == JoinPath(rootDir, names);
        ChainInDoc(rootDir, None, root, mime, names);
      }
    }
  }

  lemma {:induction false} ChainInDoc(path: string, file: Option<FileInfo>, es: seq<Entry>, mime: string -> MimeType,
                                      names: seq<string>)
    requires IsChain(es, names)
    ensures JoinPath(path, names) in DocPaths(NodeDoc(path, file, es, mime))
    decreases es
  {
    var d := NodeDoc(path, file, es, mime);
    var k :| 0 <= k < |es| && es[k].name == names[0]
         && (|names| == 1 || (es[k].Dir? && IsChain(es[k].entries, names[1..])));
    var cp := ChildPath(path, names[0]);
    NodeDocChild(path, file, es, mime, k);
    var child := d.children[k];
    assert JoinPath(path, names) == JoinPath(cp, names[1..]);
    if |names| > 1 {
      ChainInDoc(cp, Some(Describe(cp, es[k], mime)), es[k].entries, mime, names[1..]);
    }
    assert JoinPath(path, names) in DocPaths(child);
  }

  lemma {:induction false} DocPathIsChain(path: string, file: Option<FileInfo>, es: seq<Entry>, mime: string -> MimeType,
                                          x: string)
    requires x in DocPaths(NodeDoc(path, file, es, mime))
    ensures x == path || exists names :: IsChain(es, names) && x == JoinPath(path, names)
    decreases es
  {
    var d := NodeDoc(path, file, es, mime);
    if x != path {
      var k :| 0 <= k < |d.children| && x in DocPaths(d.children[k]);
      var n := es[k].name;
      var cp := ChildPath(path, n);
      NodeDocChild(path, file, es, mime, k);
      var child := d.children[k];
      var rest: seq<string>;
      if x == cp {
        rest := [];
      } else {
        assert es[k].Dir?;
        DocPathIsChain(cp, Some(Describe(cp, es[k], mime)), es[k].entries, mime, x);
        rest :| IsChain(es[k].entries, rest) && x == JoinPath(cp, rest);
      }
      var names := [n] + rest;
      assert names[1..] == rest;
      assert JoinPath(path, names) == JoinPath(cp, rest);
      assert IsChain(es, names);
    }
  }

  /**
   * Every node of the document, read against the listing it came from: the
   * `k`th child sits at `<parent.path>/<name>` of the `k`th entry, its `file`
   * records that name (the base name of its path) and the entry's stat, and
   * only directory entries have children.
   */
  ghost predicate Shaped(d: Doc, es: seq<Entry>, mime: string -> MimeType)
    decreases es
  {
    && |d.children| == |es|
    && forall k :: 0 <= k < |es| ==>
      var c := d.children[k];
      && c.path == ChildPath(d.path, es[k].name)
      && c.file == Some(FileInfo(es[k].name, mime(c.path), es[k].stat.lastModified, es[k].stat.size))
      && (es[k].File? ==> c.children == [])
      && (es[k].Dir? ==> Shaped(c, es[k].entries, mime))
  }

  lemma {:induction false} NodeDocShaped(path: string, file: Option<FileInfo>, es: seq<Entry>, mime: string -> MimeType)
    requires WellFormed(es)
    ensures Shaped(NodeDoc(path, file, es, mime), es, mime)
    decreases es
  {
    var d := NodeDoc(path, file, es, mime);
    forall k | 0 <= k < |es|
      ensures
        var c := d.children[k];
        && c.path == ChildPath(d.path, es[k].name)
        && c.file == Some(FileInfo(es[k].name, mime(c.path), es[k].stat.lastModified, es[k].stat.size))
        && (es[k].File? ==> c.children == [])
        && (es[k].Dir? ==> Shaped(c, es[k].entries, mime))
    {
      var cp := ChildPath(path, es[k].name);
      NodeDocChild(path, file, es, mime, k);
      BasenameOfChild(path, es[k].name);
      if es[k].Dir? {
        NodeDocShaped(cp, Some(Describe(cp, es[k], mime)), es[k].entries, mime);
      }
    }
  }

  /** The listing of a well-formed storage tree has that shape at every node. */
  lemma ListingShaped(rootDir: string, root: seq<Entry>, mime: string -> MimeType)
    requires WellFormed(root)
    ensures Listing(rootDir, root, mime).path == rootDir && Listing(rootDir, root, mime).file.None?
    ensures Shaped(Listing(rootDir, root, mime), root, mime)
  {
    NodeDocShaped(rootDir, None, root, mime);
  }

  // ---------------------------------------------------------------------
  // One node per path

  /** The sequences of `ls`, one after the other. */
  function Concat(ls: seq<seq<string>>): (r: seq<string>)
    ensures forall x :: x in r <==> exists k :: 0 <= k < |ls| && x in ls[k]
  {
    if ls == [] then []
    else
      var r := Concat(ls[..|ls| - 1]) + ls[|ls| - 1];
      assert forall k :: 0 <= k < |ls| - 1 ==> ls[..|ls| - 1][k] == ls[k];
      r
  }

  /** The paths of all nodes of a document, one per node, in pre-order. */
  ghost function DocPathList(d: Doc): seq<string>
    decreases d
  {
    [d.path] + Concat(seq(|d.children|, k requires 0 <= k < |d.children| => DocPathList(d.children[k])))
  }

  /** The pre-order list holds exactly the node paths of the document. */
  lemma {:induction false} DocPathListEnumerates(d: Doc)
    ensures forall x :: x in DocPathList(d) <==> x in DocPaths(d)
    decreases d
  {
    var ls := seq(|d.children|, k requires 0 <= k < |d.children| => DocPathList(d.children[k]));
    assert DocPathList(d) == [d.path] + Concat(ls);
    forall k | 0 <= k < |d.children|
      ensures forall x :: x in ls[k] <==> x in DocPaths(d.children[k])
    {
      DocPathListEnumerates(d.children[k]);
    }
  }

  predicate Distinct(s: seq<string>)
  {
    forall i, j :: 0 <= i < j < |s| ==> s[i] != s[j]
  }

  lemma DistinctAppend(a: seq<string>, b: seq<string>)
    requires Distinct(a) && Distinct(b)
    requires forall x :: x in a ==> x !in b
    ensures Distinct(a + b)
  {
    forall i, j | 0 <= i < j < |a + b|
      ensures (a + b)[i] != (a + b)[j]
    {
      if i < |a| && |a| <= j {
        assert (a + b)[i] in a && (a + b)[j] == b[j - |a|];
      }
    }
  }

  /** Sequences that are each free of repeats and pairwise disjoint concatenate without repeats. */
  lemma {:induction false} ConcatDistinct(ls: seq<seq<string>>)
    requires forall k :: 0 <= k < |ls| ==> Distinct(ls[k])
    requires forall k1, k2, x :: 0 <= k1 < k2 < |ls| && x in ls[k1] ==> x !in ls[k2]
    ensures Distinct(Concat(ls))
    decreases |ls|
  {
    if ls != [] {
      var init := ls[..|ls| - 1];
      assert forall k :: 0 <= k < |init| ==> init[k] == ls[k];
      ConcatDistinct(init);
      DistinctAppend(Concat(init), ls[|ls| - 1]);
    }
  }

  /** A path below the child `<path>/<name>` lies strictly below `path`. */
  lemma UnderChild(x: string, path: string, name: string)
    requires Under(x, ChildPath(path, name))
    ensures Under(x, path) && |x| > |path|
  {
    var cp := ChildPath(path, name);
    assert x[..|cp|][..|path|] == x[..|path|];
  }

  /** Nothing lies below two differently named children of one directory. */
  lemma UnderOneChild(x: string, path: string, n1: string, n2: string)
    requires '/' !in n1 && '/' !in n2 && n1 != n2
    requires Under(x, ChildPath(path, n1))
    ensures !Under(x, ChildPath(path, n2))
  {
    if Under(x, ChildPath(path, n2)) {
      if |n1| <= |n2| {
        LongerUnder(x, path, n1, n2);
      } else {
        LongerUnder(x, path, n2, n1);
      }
    }
  }

  lemma LongerUnder(x: string, path: string, n1: string, n2: string)
    requires '/' !in n1 && '/' !in n2 && |n1| <= |n2|
    requires Under(x, ChildPath(path, n1)) && Under(x, ChildPath(path, n2))
    ensures n1 == n2
  {
    var c1, c2 := ChildPath(path, n1), ChildPath(path, n2);
    var o := |path| + 1;
    assert x[o..|c1|] == n1 by { assert x[..|c1|][o..] == n1; }
    assert x[o..|c2|] == n2 by { assert x[..|c2|][o..] == n2; }
    assert n2[..|n1|] == n1 by { assert x[o..|c2|][..|n1|] == x[o..|c1|]; }
  }

  /**
   * The node paths of a document built from a storage tree lie at or below
   * its own path, and no path occurs twice.
   */
  lemma {:induction false} NodePathsDistinct(path: string, file: Option<FileInfo>, es: seq<Entry>, mime: string -> MimeType)
    requires WellFormed(es)
    ensures Distinct(DocPathList(NodeDoc(path, file, es, mime)))
    ensures forall x :: x in DocPathList(NodeDoc(path, file, es, mime)) ==> Under(x, path)
    decreases es
  {
    var d := NodeDoc(path, file, es, mime);
    var ls := seq(|d.children|, k requires 0 <= k < |d.children| => DocPathList(d.children[k]));
    assert DocPathList(d) == [path] + Concat(ls);
    forall k | 0 <= k < |es|
      ensures Distinct(ls[k])
      ensures forall x :: x in ls[k] ==> Under(x, ChildPath(path, es[k].name))
    {
      var cp := ChildPath(path, es[k].name);
      NodeDocChild(path, file, es, mime, k);
      if es[k].Dir? {
        NodePathsDistinct(cp, Some(Describe(cp, es[k], mime)), es[k].entries, mime);
      } else {
        assert ls[k] == [cp] + Concat([]);
      }
    }
    forall k1, k2, x | 0 <= k1 < k2 < |ls| && x in ls[k1]
      ensures x !in ls[k2]
    {
      UnderOneChild(x, path, es[k1].name, es[k2].name);
    }
    ConcatDistinct(ls);
    forall x | x in Concat(ls)
      ensures Under(x, path) && x != path
    {
      var k :| 0 <= k < |ls| && x in ls[k];
      UnderChild(x, path, es[k].name);
    }
    DistinctAppend([path], Concat(ls));
  }

  /**
   * Within the listing of a storage tree, no two nodes have the same path:
   * the pre-order list of node paths holds every node path once.
   */
  lemma ListingPathsDistinct(rootDir: string, root: seq<Entry>, mime: string -> MimeType)
    requires WellFormed(root)
    ensures Distinct(DocPathList(Listing(rootDir, root, mime)))
    ensures forall x :: x in DocPathList(Listing(rootDir, root, mime)) <==> x in DocPaths(Listing(rootDir, root, mime))
  {
    NodePathsDistinct(rootDir, None, root, mime);
    DocPathListEnumerates(Listing(rootDir, root, mime));
  }
}
