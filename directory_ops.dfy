/**
 * The directory add and directory rename handlers of `routes/index.js`:
 * one existence check, then one change to the file system, which is
 * modelled as the sets of paths that exist as directories and as files.
 */
module DirectoryOps {
  import opened Storage
  import opened RenamePath

  /** What a handler answers: a 200 carrying a JSON string, or a bare 500. */
  datatype Reply = Json(body: string) | InternalError

  const Created: Reply := Json("created")
  const DirectoryExists: Reply := Json("directory-exists")
  const Renamed: Reply := Json("renamed")
  const DirectoryNameExists: Reply := Json("directory-name-exists")

  /** The directory holding `p` exists; a path without `/` names an entry of the working directory. */
  predicate ParentIsDir(dirs: set<string>, p: string)
  {
    '/' !in p || p[..LastIndexOf(p, '/')] in dirs
  }

  /** Where `q` is after the entry at `from` is renamed to `to`. */
  function Relocate(q: string, from: string, to: string): string
  {
    if Under(q, from) then to + q[|from|..] else q
  }

  /** The paths of `s` after the entry at `from`, with everything below it, is renamed to `to`. */
  function Moved(s: set<string>, from: string, to: string): (r: set<string>)
    ensures forall q :: q in s ==> Relocate(q, from, to) in r
    ensures forall x :: x in r ==> exists q :: q in s && x == Relocate(q, from, to)
  {
    set q | q in s :: Relocate(q, from, to)
  }

  /** A file system: no path is both a file and a directory, and everything sits in a directory. */
  ghost predicate Consistent(dirs: set<string>, files: set<string>)
  {
    && dirs !! files
    && forall p :: (p in dirs || p in files) ==> ParentIsDir(dirs, p)
  }

  class Store {
    var dirs: set<string>
    var files: set<string>

    ghost predicate Valid()
      reads this
    {
      Consistent(dirs, files)
    }

    constructor (dirs0: set<string>, files0: set<string>)
      requires Consistent(dirs0, files0)
      ensures Valid() && dirs == dirs0 && files == files0
    {
      dirs := dirs0;
      files := files0;
    }

    /** `fs.existsSync(p)`. */
    predicate Exists(p: string)
      reads this
    {
      p in dirs || p in files
    }

    /**
     * `POST /directory/add`: an existing path is left alone; otherwise
     * `mkdirSync` creates it, and fails when its parent is not a directory.
     */
    method AddDirectory(newDirPath: string) returns (reply: Reply)
      requires Valid()
      modifies this
      ensures Valid()
      ensures old(Exists(newDirPath)) ==> reply == DirectoryExists && dirs == old(dirs) && files == old(files)
      ensures !old(Exists(newDirPath)) && ParentIsDir(old(dirs), newDirPath) ==>
        reply == Created && dirs == old(dirs) + {newDirPath} && files == old(files)
      ensures !old(Exists(newDirPath)) && !ParentIsDir(old(dirs), newDirPath) ==>
        reply == InternalError && dirs == old(dirs) && files == old(files)
    {
      if Exists(newDirPath) {
        reply := DirectoryExists;
      } else if ParentIsDir(dirs, newDirPath) {
        AddPreservesConsistent(dirs, files, newDirPath);
        dirs := dirs + {newDirPath};
        reply := Created;
      } else {
        reply := InternalError;
      }
    }

    /**
     * `POST /directory/rename`: the entry at `dirPath` is moved to
     * RenameTarget(dirPath, newName) unless that path exists. `renameSync`
     * fails when `dirPath` does not exist, when the target's parent is not a
     * directory, and when the target lies below `dirPath`.
     */
    method RenameDirectory(dirPath: string, newName: string) returns (reply: Reply)
      requires Valid()
      modifies this
      ensures Valid()
      ensures var target := RenameTarget(dirPath, newName);
        if old(Exists(target)) then
          reply == DirectoryNameExists && dirs == old(dirs) && files == old(files)
        else if old(Exists(dirPath)) && ParentIsDir(old(dirs), target) && !Under(target, dirPath) then
          && reply == Renamed
          && dirs == Moved(old(dirs), dirPath, target)
          && files == Moved(old(files), dirPath, target)
        else
          reply == InternalError && dirs == old(dirs) && files == old(files)
    {
      var target := RenameTarget(dirPath, newName);
      if Exists(target) {
        reply := DirectoryNameExists;
      } else if Exists(dirPath) && ParentIsDir(dirs, target) && !Under(target, dirPath) {
        RenamePreservesConsistent(dirs, files, dirPath, target);
        dirs, files := Moved(dirs, dirPath, target), Moved(files, dirPath, target);
        reply := Renamed;
      } else {
        reply := InternalError;
      }
    }
  }

  // ---------------------------------------------------------------------
  // What the handlers keep and change

  /** Creating a directory whose parent is a directory keeps the file system consistent. */
  lemma AddPreservesConsistent(dirs: set<string>, files: set<string>, p: string)
    requires Consistent(dirs, files)
    requires p !in dirs && p !in files && ParentIsDir(dirs, p)
    ensures Consistent(dirs + {p}, files)
  {
  }

  /**
   * After a rename, a path exists exactly when it existed outside the moved
   * entry, or it lies below the target and its counterpart below the source
   * existed.
   */
  lemma MovedPaths(s: set<string>, from: string, to: string)
    ensures forall x :: x in Moved(s, from, to) <==>
      (x in s && !Under(x, from)) || (Under(x, to) && from + x[|to|..] in s)
  {
    forall x
      ensures x in Moved(s, from, to) <==>
        (x in s && !Under(x, from)) || (Under(x, to) && from + x[|to|..] in s)
    {
      if x in Moved(s, from, to) {
        var q :| q in s && x == Relocate(q, from, to);
        if Under(q, from) {
          assert x == to + q[|from|..];
          assert x[|to|..] == q[|from|..];
          assert q == from + q[|from|..];
        }
      }
      if Under(x, to) && from + x[|to|..] in s {
        var q := from + x[|to|..];
        assert q[..|from|] == from;
        assert Relocate(q, from, to) == x;
      }
    }
  }

  /** Every path below an existing path is below a directory that exists. */
  lemma {:induction false} AncestorIsDir(dirs: set<string>, files: set<string>, p: string, a: string)
    requires Consistent(dirs, files)
    requires (p in dirs || p in files) && Under(p, a) && p != a
    ensures a in dirs
    decreases |p|
  {
    assert p[|a|] == '/';
    var j := LastIndexOf(p, '/');
    assert j >= |a|;
    var parent := p[..j];
    assert parent in dirs;
    if j > |a| {
      assert parent[..|a|] == a && parent[|a|] == '/';
      AncestorIsDir(dirs, files, parent, a);
    }
  }

  /** A path whose parent lies below `a` lies below `a`. */
  lemma UnderParent(q: string, a: string)
    requires '/' in q && Under(q[..LastIndexOf(q, '/')], a)
    ensures Under(q, a)
  {
    var j := LastIndexOf(q, '/');
    assert q[..j][..|a|] == q[..|a|];
  }

  /** Moving the entry at `from` to a new `to` does not merge two existing paths. */
  lemma RelocateInjective(dirs: set<string>, files: set<string>, from: string, to: string, q1: string, q2: string)
    requires Consistent(dirs, files)
    requires to !in dirs && to !in files
    requires q1 in dirs || q1 in files
    requires q2 in dirs || q2 in files
    requires Relocate(q1, from, to) == Relocate(q2, from, to)
    ensures q1 == q2
  {
    if Under(q1, from) && Under(q2, from) {
      var x := Relocate(q1, from, to);
      assert q1[|from|..] == x[|to|..] == q2[|from|..];
      assert q1 == from + q1[|from|..] && q2 == from + q2[|from|..];
    } else if Under(q1, from) && !Under(q2, from) {
      BelowTargetIsFree(dirs, files, from, to, q1, q2);
    } else if Under(q2, from) && !Under(q1, from) {
      BelowTargetIsFree(dirs, files, from, to, q2, q1);
    }
  }

  /** No existing path is where a moved path lands, since nothing exists at or below `to`. */
  lemma BelowTargetIsFree(dirs: set<string>, files: set<string>, from: string, to: string, q: string, r: string)
    requires Consistent(dirs, files)
    requires to !in dirs && to !in files
    requires r in dirs || r in files
    requires Under(q, from)
    ensures r != to + q[|from|..]
  {
    if r == to + q[|from|..] {
      assert Under(r, to) by {
        assert r[..|to|] == to;
        if q != from {
          assert r[|to|] == q[|from|];
        }
      }
      if r != to {
        AncestorIsDir(dirs, files, r, to);
      }
      assert false;
    }
  }

  /** The parent of a moved path below the source is the moved parent. */
  lemma RelocatedParent(q: string, from: string, to: string)
    requires Under(q, from) && q != from
    ensures '/' in q && '/' in to + q[|from|..]
    ensures var j := LastIndexOf(q, '/');
      && Under(q[..j], from)
      && (to + q[|from|..])[..LastIndexOf(to + q[|from|..], '/')] == Relocate(q[..j], from, to)
  {
    assert q[|from|] == '/';
    var j := LastIndexOf(q, '/');
    assert j >= |from|;
    var x := to + q[|from|..];
    var k := |to| + (j - |from|);
    assert x[k] == '/';
    assert x[k + 1..] == q[j + 1..];
    LastIndexOfAt(x, '/', k);
    assert q[..j][..|from|] == from;
    assert x[..k] == to + q[..j][|from|..];
  }

  /** A rename the handler lets through keeps the file system consistent. */
  lemma RenamePreservesConsistent(dirs: set<string>, files: set<string>, from: string, to: string)
    requires Consistent(dirs, files)
    requires from in dirs || from in files
    requires to !in dirs && to !in files
    requires ParentIsDir(dirs, to) && !Under(to, from)
    ensures Consistent(Moved(dirs, from, to), Moved(files, from, to))
  {
    var dirs', files' := Moved(dirs, from, to), Moved(files, from, to);
    forall x | x in dirs' && x in files'
      ensures false
    {
      var q1 :| q1 in dirs && x == Relocate(q1, from, to);
      var q2 :| q2 in files && x == Relocate(q2, from, to);
      RelocateInjective(dirs, files, from, to, q1, q2);
    }
    forall x | x in dirs' || x in files'
      ensures ParentIsDir(dirs', x)
    {
      var q :| (q in dirs || q in files) && x == Relocate(q, from, to);
      if !Under(q, from) {
        if '/' in q {
          var pq := q[..LastIndexOf(q, '/')];
          if Under(pq, from) {
            UnderParent(q, from);
          }
          assert Relocate(pq, from, to) == pq;
        }
      } else if q == from {
        assert x == to by {
          assert q[|from|..] == [];
        }
        if '/' in to {
          var pt := to[..LastIndexOf(to, '/')];
          if Under(pt, from) {
            UnderParent(to, from);
          }
          assert Relocate(pt, from, to) == pt;
        }
      } else {
        RelocatedParent(q, from, to);
      }
    }
  }
}
