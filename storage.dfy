/**
 * The storage medium as an immutable value, and the order in which the
 * stack-based walk of `routes/index.js` expands its directories.
 *
 * A directory's listing is the sequence of its entries in the order the
 * storage medium reports them; `readdirSync(p)` on the path of an entry
 * returns the names of that entry's `entries`.
 */
module Storage {

  datatype Option<T> = None | Some(value: T)

  /** What `statSync` reports besides the entry kind; the model never interprets it. */
  datatype Stat = Stat(lastModified: int, size: int)

  datatype Entry =
    | File(name: string, stat: Stat)
    | Dir(name: string, stat: Stat, entries: seq<Entry>)

  /** The listing of an entry: a file lists nothing. */
  function Contents(e: Entry): seq<Entry>
  {
    if e.Dir? then e.entries else []
  }

  /** The path the walk gives the child `name` of the node at `parent`. */
  function ChildPath(parent: string, name: string): (p: string)
    ensures |p| == |parent| + 1 + |name|
    ensures p[..|parent|] == parent && p[|parent|] == '/' && p[|parent| + 1..] == name
  {
    parent + "/" + name
  }

  /**
   * Names a storage medium can actually hold: not empty, free of the `/`
   * separator, and distinct within one directory.
   */
  predicate WellFormed(es: seq<Entry>)
    decreases es
  {
    && (forall k :: 0 <= k < |es| ==> es[k].name != [] && '/' !in es[k].name)
    && (forall a, b :: 0 <= a < b < |es| ==> es[a].name != es[b].name)
    && (forall k :: 0 <= k < |es| ==> es[k].Dir? ==> WellFormed(es[k].entries))
  }

  /** `names` = [n1, ..., nk] (k >= 1) names a chain of entries below the listing `es`. */
  ghost predicate IsChain(es: seq<Entry>, names: seq<string>)
    decreases es
  {
    && |names| > 0
    && exists k :: 0 <= k < |es| && es[k].name == names[0]
         && (|names| == 1 || (es[k].Dir? && IsChain(es[k].entries, names[1..])))
  }

  /** `<p>/<n1>/.../<nk>`. */
  function JoinPath(p: string, names: seq<string>): string
    decreases |names|
  {
    if names == [] then p else JoinPath(ChildPath(p, names[0]), names[1..])
  }

  /** `q` is `top` or lies below it. */
  predicate Under(q: string, top: string)
  {
    q == top || (|top| < |q| && q[..|top|] == top && q[|top|] == '/')
  }

  /** A directory waiting on the stack: its path and what listing it gives. */
  datatype Frame = Frame(path: string, entries: seq<Entry>)

  /** The frames of the directory entries of `es`, in listing order: what the walk
      pushes while it enumerates one listing under `parent`. */
  function ChildFrames(parent: string, es: seq<Entry>): (r: seq<Frame>)
    ensures |r| <= |es|
  {
    if es == [] then []
    else
      var e := es[|es| - 1];
      ChildFrames(parent, es[..|es| - 1])
        + (if e.Dir? then [Frame(ChildPath(parent, e.name), e.entries)] else [])
  }

  /**
   * The order in which a LIFO walk started on `f` alone pops directories:
   * `f` first, then each directory child, the LAST listed first, each one
   * completely before the one listed before it.
   */
  function Order(f: Frame): seq<Frame>
    decreases f.entries, 1
  {
    [f] + OrderChildren(f.path, f.entries)
  }

  function OrderChildren(parent: string, es: seq<Entry>): seq<Frame>
    decreases es, 0
  {
    if es == [] then []
    else
      var e := es[|es| - 1];
      (if e.Dir? then Order(Frame(ChildPath(parent, e.name), e.entries)) else [])
        + OrderChildren(parent, es[..|es| - 1])
  }

  /** The order in which a stack holding `stack` (top last) pops directories. */
  function OrderOfStack(stack: seq<Frame>): seq<Frame>
  {
    if stack == [] then []
    else Order(stack[|stack| - 1]) + OrderOfStack(stack[..|stack| - 1])
  }

  /** Pushing `b` on top of `a`: everything under `b` is popped first. */
  lemma {:induction false} OrderOfStackAppend(a: seq<Frame>, b: seq<Frame>)
    ensures OrderOfStack(a + b) == OrderOfStack(b) + OrderOfStack(a)
    decreases |b|
  {
    if b == [] {
      assert a + b == a;
    } else {
      var n := |b| - 1;
      assert (a + b)[..|a + b| - 1] == a + b[..n];
      assert (a + b)[|a + b| - 1] == b[n];
      OrderOfStackAppend(a, b[..n]);
    }
  }

  /** The frames pushed for one listing are popped in exactly the order Order gives them. */
  lemma {:induction false} OrderOfChildFrames(parent: string, es: seq<Entry>)
    ensures OrderOfStack(ChildFrames(parent, es)) == OrderChildren(parent, es)
    decreases |es|
  {
    if es != [] {
      var n := |es| - 1;
      var e := es[n];
      OrderOfChildFrames(parent, es[..n]);
      if e.Dir? {
        var fe := Frame(ChildPath(parent, e.name), e.entries);
        OrderOfStackAppend(ChildFrames(parent, es[..n]), [fe]);
        assert OrderOfStack([fe]) == Order(fe) by {
          assert [fe][..0] == [];
        }
      } else {
        assert ChildFrames(parent, es) == ChildFrames(parent, es[..n]);
      }
    }
  }

  /** ChildFrames grows by at most the frame of the entry appended to the listing. */
  lemma ChildFramesSnoc(parent: string, es: seq<Entry>, e: Entry)
    ensures ChildFrames(parent, es + [e])
         == ChildFrames(parent, es) + (if e.Dir? then [Frame(ChildPath(parent, e.name), e.entries)] else [])
  {
    assert (es + [e])[..|es|] == es;
  }

  // ---------------------------------------------------------------------
  // A reference enumeration of the directories, independent of the stack

  /** Every directory of the tree under `f`, `f` first, in pre-order and listing order. */
  function DirFrames(f: Frame): seq<Frame>
    decreases f.entries, 1
  {
    [f] + DirFramesOf(f.path, f.entries)
  }

  function DirFramesOf(parent: string, es: seq<Entry>): seq<Frame>
    decreases es, 0
  {
    if es == [] then []
    else
      (if es[0].Dir? then DirFrames(Frame(ChildPath(parent, es[0].name), es[0].entries)) else [])
        + DirFramesOf(parent, es[1..])
  }

  lemma {:induction false} DirFramesOfSnoc(parent: string, es: seq<Entry>, e: Entry)
    ensures DirFramesOf(parent, es + [e])
         == DirFramesOf(parent, es)
            + (if e.Dir? then DirFrames(Frame(ChildPath(parent, e.name), e.entries)) else [])
    decreases |es|
  {
    if es == [] {
      assert DirFramesOf(parent, [e][1..]) == [];
    } else {
      assert (es + [e])[1..] == es[1..] + [e];
      DirFramesOfSnoc(parent, es[1..], e);
    }
  }

  /**
   * The stack walk expands every directory of the tree exactly as often as
   * the tree holds it (once per directory entry, plus the root) and expands
   * nothing else: its expansion order is a permutation of DirFrames.
   */
  lemma {:induction false} OrderIsPermutationOfDirectories(f: Frame)
    ensures multiset(Order(f)) == multiset(DirFrames(f))
    decreases f.entries, 1
  {
    OrderChildrenPermutation(f.path, f.entries);
  }

  lemma {:induction false} OrderChildrenPermutation(parent: string, es: seq<Entry>)
    ensures multiset(OrderChildren(parent, es)) == multiset(DirFramesOf(parent, es))
    decreases es, 0
  {
    if es != [] {
      var n := |es| - 1;
      var e := es[n];
      assert es == es[..n] + [e];
      OrderChildrenPermutation(parent, es[..n]);
      DirFramesOfSnoc(parent, es[..n], e);
      if e.Dir? {
        OrderIsPermutationOfDirectories(Frame(ChildPath(parent, e.name), e.entries));
      }
    }
  }

  /** Every path the walk expands starts with the path of the frame it started from. */
  lemma {:induction false} OrderExtendsRoot(f: Frame)
    ensures forall k :: 0 <= k < |Order(f)| ==>
      |f.path| <= |Order(f)[k].path| && Order(f)[k].path[..|f.path|] == f.path
    decreases f.entries, 1
  {
    OrderChildrenExtend(f.path, f.entries);
  }

  lemma {:induction false} OrderChildrenExtend(parent: string, es: seq<Entry>)
    ensures forall k :: 0 <= k < |OrderChildren(parent, es)| ==>
      |parent| < |OrderChildren(parent, es)[k].path|
      && OrderChildren(parent, es)[k].path[..|parent|] == parent
    decreases es, 0
  {
    if es != [] {
      var n := |es| - 1;
      var e := es[n];
      OrderChildrenExtend(parent, es[..n]);
      if e.Dir? {
        var cp := ChildPath(parent, e.name);
        OrderExtendsRoot(Frame(cp, e.entries));
        var head := Order(Frame(cp, e.entries));
        var whole := OrderChildren(parent, es);
        forall k | 0 <= k < |whole|
          ensures |parent| < |whole[k].path| && whole[k].path[..|parent|] == parent
        {
          if k < |head| {
            var q := head[k].path;
            assert q[..|cp|] == cp;
            assert q[..|parent|] == cp[..|parent|];
          } else {
            assert whole[k] == OrderChildren(parent, es[..n])[k - |head|];
          }
        }
      }
    }
  }

  // ---------------------------------------------------------------------
  // Names anywhere in the tree

  /** Some entry of the listing carries the name `name`. */
  predicate Lists(es: seq<Entry>, name: string)
  {
    exists k :: 0 <= k < |es| && es[k].name == name
  }

  /** Some entry anywhere in the tree below the listing `es` carries `name`. */
  predicate Mentions(es: seq<Entry>, name: string)
    decreases es
  {
    if es == [] then false
    else es[0].name == name || (es[0].Dir? && Mentions(es[0].entries, name)) || Mentions(es[1..], name)
  }

  /** Some frame of `frames` lists an entry named `name`. */
  predicate AnyLists(frames: seq<Frame>, name: string)
  {
    exists k :: 0 <= k < |frames| && Lists(frames[k].entries, name)
  }

  lemma AnyListsAppend(a: seq<Frame>, b: seq<Frame>, name: string)
    ensures AnyLists(a + b, name) <==> AnyLists(a, name) || AnyLists(b, name)
  {
    if AnyLists(a + b, name) {
      var k :| 0 <= k < |a + b| && Lists((a + b)[k].entries, name);
      if k >= |a| {
        assert b[k - |a|] == (a + b)[k];
      }
    }
    if AnyLists(a, name) {
      var k :| 0 <= k < |a| && Lists(a[k].entries, name);
      assert (a + b)[k] == a[k];
    }
    if AnyLists(b, name) {
      var k :| 0 <= k < |b| && Lists(b[k].entries, name);
      assert (a + b)[|a| + k] == b[k];
    }
  }

  lemma ListsCons(es: seq<Entry>, name: string)
    requires es != []
    ensures Lists(es, name) <==> es[0].name == name || Lists(es[1..], name)
  {
    if Lists(es, name) && es[0].name != name {
      var k :| 0 <= k < |es| && es[k].name == name;
      assert es[1..][k - 1] == es[k];
    }
  }

  /** A name occurs in the tree exactly when some directory of the tree lists it. */
  lemma {:induction false} MentionsIffDirectoryLists(f: Frame, name: string)
    ensures Mentions(f.entries, name) <==> AnyLists(DirFrames(f), name)
    decreases f.entries, 1
  {
    AnyListsAppend([f], DirFramesOf(f.path, f.entries), name);
    assert AnyLists([f], name) <==> Lists(f.entries, name) by {
      if Lists(f.entries, name) { assert [f][0] == f; }
    }
    MentionsIffListsBelow(f.path, f.entries, name);
  }

  lemma {:induction false} MentionsIffListsBelow(parent: string, es: seq<Entry>, name: string)
    ensures Mentions(es, name) <==> Lists(es, name) || AnyLists(DirFramesOf(parent, es), name)
    decreases es, 0
  {
    if es == [] {
    } else {
      var e := es[0];
      var sub := if e.Dir? then DirFrames(Frame(ChildPath(parent, e.name), e.entries)) else [];
      AnyListsAppend(sub, DirFramesOf(parent, es[1..]), name);
      MentionsIffListsBelow(parent, es[1..], name);
      ListsCons(es, name);
      if e.Dir? {
        MentionsIffDirectoryLists(Frame(ChildPath(parent, e.name), e.entries), name);
      }
    }
  }

  /** The same, for the stack walk's own order. */
  lemma MentionsIffExpandedLists(f: Frame, name: string)
    ensures Mentions(f.entries, name) <==> AnyLists(Order(f), name)
  {
    MentionsIffDirectoryLists(f, name);
    OrderIsPermutationOfDirectories(f);
    var a, b := Order(f), DirFrames(f);
    if AnyLists(a, name) {
      var k :| 0 <= k < |a| && Lists(a[k].entries, name);
      assert a[k] in multiset(b);
      var j :| 0 <= j < |b| && b[j] == a[k];
    }
    if AnyLists(b, name) {
      var k :| 0 <= k < |b| && Lists(b[k].entries, name);
      assert b[k] in multiset(a);
      var j :| 0 <= j < |a| && a[j] == b[k];
    }
  }
}
