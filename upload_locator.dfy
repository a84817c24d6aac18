/**
 * The upload-target search of `POST /file/upload/:id/:dir`: the stack walk of
 * the tenant root with a name search bolted on. `dirPath` starts at the root;
 * every entry whose name equals the search name overwrites it with that
 * entry's path; once a directory's listing has been enumerated the walk stops
 * if `dirPath` has moved away from the root.
 */
module UploadLocator {
  import opened Storage

  /** The `:dir` value that means "no target directory, upload to the root". */
  const NoTarget: string := "null"

  /** The position of the first frame whose listing holds an entry named `name`. */
  function FirstListing(frames: seq<Frame>, name: string): (r: Option<nat>)
    ensures r.Some? ==> r.value < |frames| && Lists(frames[r.value].entries, name)
    ensures r.Some? ==> forall k :: 0 <= k < r.value ==> !Lists(frames[k].entries, name)
    ensures r.None? <==> !AnyLists(frames, name)
  {
    if frames == [] then None
    else if Lists(frames[0].entries, name) then Some(0)
    else
      match FirstListing(frames[1..], name)
      case None =>
        assert forall k :: 1 <= k < |frames| ==> frames[k] == frames[1..][k - 1];
        None
      case Some(k) =>
        assert forall j :: 1 <= j < |frames| ==> frames[j] == frames[1..][j - 1];
        Some(k + 1)
  }

  /**
   * Where the upload lands: the root for the "no target" value; otherwise
   * `<p>/<searchDir>` for the first directory `p`, in the walk's expansion
   * order, whose listing holds an entry named `searchDir`; the root when no
   * directory does.
   */
  function Locate(rootDir: string, root: seq<Entry>, searchDir: string): string
  {
    if searchDir == NoTarget then rootDir
    else
      var order := Order(Frame(rootDir, root));
      match FirstListing(order, searchDir)
      case None => rootDir
      case Some(k) => ChildPath(order[k].path, searchDir)
  }

  /** The position of the last entry of `es` named `name`. */
  function LastListed(es: seq<Entry>, name: string): (r: Option<nat>)
    ensures r.Some? ==> r.value < |es| && es[r.value].name == name
    ensures r.Some? ==> forall k :: r.value < k < |es| ==> es[k].name != name
    ensures r.None? <==> !Lists(es, name)
  {
    if es == [] then None
    else if es[|es| - 1].name == name then Some(|es| - 1)
    else
      var r := LastListed(es[..|es| - 1], name);
      assert forall k :: 0 <= k < |es| - 1 ==> es[k] == es[..|es| - 1][k];
      r
  }

  /**
   * One pass of the handler's `for` loop over the listing `children` of the
   * directory at `parent`: every entry named `searchDir` overwrites `dirPath`
   * (so the last one in listing order is the one kept) and every directory
   * entry is pushed, in listing order.
   */
  method ScanListing(parent: string, children: seq<Entry>, searchDir: string, dirPath: string)
    returns (newDirPath: string, pushed: seq<Frame>)
    ensures pushed == ChildFrames(parent, children)
    ensures newDirPath == match LastListed(children, searchDir)
                          case None => dirPath
                          case Some(j) => ChildPath(parent, children[j].name)
  {
    newDirPath := dirPath;
    pushed := [];
    var i := 0;
    while i < |children|
      invariant 0 <= i <= |children|
      invariant pushed == ChildFrames(parent, children[..i])
      invariant newDirPath == match LastListed(children[..i], searchDir)
                              case None => dirPath
                              case Some(j) => ChildPath(parent, children[j].name)
    {
      var child := children[i];
      var childPath := ChildPath(parent, child.name);
      assert children[..i + 1] == children[..i] + [child];
      assert children[..i + 1][..i] == children[..i];
      ChildFramesSnoc(parent, children[..i], child);
      if child.name == searchDir {
        newDirPath := childPath;
      }
      if child.Dir? {
        pushed := pushed + [Frame(childPath, child.entries)];
      }
      i := i + 1;
    }
    assert children[..i] == children;
  }

  /** Within one listing every match gives the same path, so which match wins is not observable. */
  lemma LastMatchPath(parent: string, children: seq<Entry>, searchDir: string)
    requires LastListed(children, searchDir).Some?
    ensures ChildPath(parent, children[LastListed(children, searchDir).value].name)
         == ChildPath(parent, searchDir)
  {
  }

  /**
   * The handler's search loop. `listed` records, in order, the directories
   * whose listing the loop reads.
   */
  method UploadTarget(rootDir: string, root: seq<Entry>, searchDir: string)
    returns (dirPath: string, listed: seq<Frame>)
    ensures dirPath == Locate(rootDir, root, searchDir)
    ensures searchDir == NoTarget ==> listed == []
    ensures searchDir != NoTarget ==>
      var order := Order(Frame(rootDir, root));
      && (FirstListing(order, searchDir).None? ==> listed == order)
      && (FirstListing(order, searchDir).Some? ==> listed == order[..FirstListing(order, searchDir).value + 1])
  {
    dirPath := rootDir;
    listed := [];
    if searchDir != NoTarget {
      ghost var order := Order(Frame(rootDir, root));
      var stack := [Frame(rootDir, root)];
      assert OrderOfStack(stack) == order by { assert stack[..0] == []; }
      while |stack| > 0
        invariant listed + OrderOfStack(stack) == order
        invariant dirPath == rootDir
        invariant !AnyLists(listed, searchDir)
        invariant forall k :: 0 <= k < |stack| ==> |rootDir| <= |stack[k].path|
        decreases |order| - |listed|
      {
        var cur := stack[|stack| - 1];
        ghost var rest := stack[..|stack| - 1];
        ghost var before := listed;
        listed := listed + [cur];
        var pushed;
        dirPath, pushed := ScanListing(cur.path, cur.entries, searchDir, dirPath);
        stack := stack[..|stack| - 1] + pushed;
        ListedStep(order, before, cur, rest, pushed);
        if dirPath != rootDir {
          FirstListingAt(order, before, cur, searchDir);
          break;
        }
        AnyListsAppend(before, [cur], searchDir);
        ChildFramesExtend(cur.path, cur.entries);
      }
    }
  }

  /** The first listing frame is the first one after a prefix that lists nothing. */
  lemma FirstListingAt(order: seq<Frame>, before: seq<Frame>, cur: Frame, name: string)
    requires |before| < |order| && order[..|before| + 1] == before + [cur]
    requires !AnyLists(before, name) && Lists(cur.entries, name)
    ensures FirstListing(order, name) == Some(|before|)
  {
    assert order[|before|] == cur;
    forall k | 0 <= k < |before| ensures !Lists(order[k].entries, name) {
      assert order[k] == before[k];
    }
  }

  /** The stack after one expansion still pops the rest of the expansion order. */
  lemma ListedStep(order: seq<Frame>, before: seq<Frame>, cur: Frame, rest: seq<Frame>, pushed: seq<Frame>)
    requires before + OrderOfStack(rest + [cur]) == order
    requires pushed == ChildFrames(cur.path, cur.entries)
    ensures (before + [cur]) + OrderOfStack(rest + pushed) == order
    ensures order[..|before| + 1] == before + [cur]
  {
    assert (rest + [cur])[..|rest|] == rest;
    OrderOfChildFrames(cur.path, cur.entries);
    OrderOfStackAppend(rest, pushed);
  }

  /** The frames pushed for a listing have paths that extend the parent's path. */
  lemma ChildFramesExtend(parent: string, es: seq<Entry>)
    ensures forall k :: 0 <= k < |ChildFrames(parent, es)| ==> |parent| < |ChildFrames(parent, es)[k].path|
  {
    OrderChildrenExtend(parent, es);
    OrderOfChildFrames(parent, es);
    var cf := ChildFrames(parent, es);
    forall k | 0 <= k < |cf| ensures |parent| < |cf[k].path| {
      OrderOfStackHeads(cf, k);
    }
  }

  /** Every frame on a stack is itself popped at some point. */
  lemma {:induction false} OrderOfStackHeads(stack: seq<Frame>, k: nat)
    requires k < |stack|
    ensures stack[k] in OrderOfStack(stack)
    decreases |stack|
  {
    var n := |stack| - 1;
    assert Order(stack[n])[0] == stack[n];
    if k < n {
      OrderOfStackHeads(stack[..n], k);
    }
  }

  /** With the "no target" value the root is the target, whatever the tree holds. */
  lemma NoTargetIsRoot(rootDir: string, root: seq<Entry>)
    ensures Locate(rootDir, root, NoTarget) == rootDir
  {
  }

  /**
   * The root is the answer exactly when no entry anywhere in the tree carries
   * the searched name (for any search name other than the "no target" value).
   */
  lemma {:induction false} FallbackIffAbsent(rootDir: string, root: seq<Entry>, searchDir: string)
    requires searchDir != NoTarget
    ensures Locate(rootDir, root, searchDir) == rootDir <==> !Mentions(root, searchDir)
  {
    var f := Frame(rootDir, root);
    MentionsIffExpandedLists(f, searchDir);
    var order := Order(f);
    match FirstListing(order, searchDir)
    case None =>
    case Some(k) =>
      OrderExtendsRoot(f);
      assert |ChildPath(order[k].path, searchDir)| > |rootDir|;
  }

  /**
   * A target other than the root is `<p>/<searchDir>` where `p` is an expanded
   * directory whose listing holds an entry of that name (file or directory),
   * and no directory expanded before `p` holds one.
   */
  lemma FoundInFirstListingDirectory(rootDir: string, root: seq<Entry>, searchDir: string)
    requires Locate(rootDir, root, searchDir) != rootDir
    ensures searchDir != NoTarget
    ensures exists k :: (0 <= k < |Order(Frame(rootDir, root))|
      && Locate(rootDir, root, searchDir) == ChildPath(Order(Frame(rootDir, root))[k].path, searchDir)
      && Lists(Order(Frame(rootDir, root))[k].entries, searchDir)
      && forall j :: 0 <= j < k ==> !Lists(Order(Frame(rootDir, root))[j].entries, searchDir))
  {
    var order := Order(Frame(rootDir, root));
    var k := FirstListing(order, searchDir).value;
    assert Locate(rootDir, root, searchDir) == ChildPath(order[k].path, searchDir);
  }

  /** The match need not be a directory: a file named like the target is chosen too. */
  lemma MatchMayBeAFile(s: Stat)
    ensures Locate("u1", [File("docs", s)], "docs") == "u1/docs"
  {
    var root := [File("docs", s)];
    assert OrderChildren("u1", root) == [] by { assert root[..0] == []; }
    var order := Order(Frame("u1", root));
    assert order == [Frame("u1", root)];
    assert Lists(order[0].entries, "docs") by { assert root[0].name == "docs"; }
  }

  /**
   * With `u1/a/docs` and `u1/docs` both present, the root's own listing is
   * expanded first and wins; the deeper match is never looked at.
   */
  lemma ShallowMatchInRootWins(s: Stat)
    ensures Locate("u1", [Dir("a", s, [Dir("docs", s, [])]), Dir("docs", s, [])], "docs") == "u1/docs"
  {
    var root := [Dir("a", s, [Dir("docs", s, [])]), Dir("docs", s, [])];
    var order := Order(Frame("u1", root));
    assert order[0] == Frame("u1", root);
    assert Lists(order[0].entries, "docs") by { assert root[1].name == "docs"; }
  }

  /**
   * With `u1/b/docs` and `u1/a/docs`, where `b` is listed before `a`, the walk
   * pops `a` (pushed last) first, so `u1/a/docs` wins: the stack's LIFO order,
   * not the listing order, breaks ties between directories.
   */
  lemma LastListedSiblingWins(s: Stat)
    ensures Locate("u1", [Dir("b", s, [Dir("docs", s, [])]), Dir("a", s, [Dir("docs", s, [])])], "docs")
         == "u1/a/docs"
  {
    var a := Dir("a", s, [Dir("docs", s, [])]);
    var b := Dir("b", s, [Dir("docs", s, [])]);
    var root := [b, a];
    var fa := Frame(ChildPath("u1", "a"), a.entries);
    assert ChildPath("u1", "a") == "u1/a";
    var order := Order(Frame("u1", root));
    assert root[..1] == [b];
    assert OrderChildren("u1", root) == Order(fa) + OrderChildren("u1", [b]);
    assert Order(fa)[0] == fa;
    assert order == [Frame("u1", root)] + Order(fa) + OrderChildren("u1", [b]);
    assert order[1] == fa;
    assert !Lists(order[0].entries, "docs") by {
      assert root[0].name == "b" && root[1].name == "a";
    }
    assert Lists(order[1].entries, "docs") by { assert fa.entries[0].name == "docs"; }
    assert FirstListing(order, "docs") == Some(1);
  }
}
