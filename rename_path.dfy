/**
 * The target path of the file and directory rename handlers of
 * `routes/index.js`. The path is split on `/`, its last component dropped,
 * the rest turned back into one string with `Array.prototype.toString`
 * (which joins with `,`), every `,` replaced by `/`, and `/<newName>`
 * appended.
 */
module RenamePath {

  /** `s.split(sep)` for a one-character separator: always at least one part. */
  function Split(s: string, sep: char): (parts: seq<string>)
    ensures |parts| >= 1
    ensures forall i :: 0 <= i < |parts| ==> sep !in parts[i]
    decreases |s|
  {
    if s == [] then [[]]
    else
      var rest := Split(s[1..], sep);
      if s[0] == sep then [[]] + rest
      else [[s[0]] + rest[0]] + rest[1..]
  }

  /** `parts.join(sep)`; `parts.toString()` is `Join(parts, ',')`. */
  function Join(parts: seq<string>, sep: char): (s: string)
    ensures |parts| == 1 ==> s == parts[0]
    decreases |parts|
  {
    if parts == [] then []
    else if |parts| == 1 then parts[0]
    else parts[0] + [sep] + Join(parts[1..], sep)
  }

  /** `s.replace(/<from>/g, <to>)` for one-character patterns. */
  function ReplaceAll(s: string, from: char, to: char): (r: string)
    ensures |r| == |s|
    ensures forall i :: 0 <= i < |s| ==> r[i] == if s[i] == from then to else s[i]
  {
    seq(|s|, i requires 0 <= i < |s| => if s[i] == from then to else s[i])
  }

  /** `s.lastIndexOf(c)`: -1 when `c` does not occur. */
  function LastIndexOf(s: string, c: char): (r: int)
    ensures -1 <= r < |s|
    ensures r == -1 <==> c !in s
    ensures 0 <= r ==> s[r] == c && c !in s[r + 1..]
    decreases |s|
  {
    if s == [] then -1
    else if s[|s| - 1] == c then |s| - 1
    else
      var r := LastIndexOf(s[..|s| - 1], c);
      assert r >= 0 ==> s[r + 1..] == s[..|s| - 1][r + 1..] + [s[|s| - 1]];
      r
  }

  /** The path the rename handlers move `path` to: it always ends in `/<newName>`. */
  function RenameTarget(path: string, newName: string): (target: string)
    ensures |target| > |newName| && target[|target| - |newName| - 1..] == "/" + newName
  {
    var parts := Split(path, '/');
    ReplaceAll(Join(parts[..|parts| - 1], ','), ',', '/') + "/" + newName
  }

  // ---------------------------------------------------------------------
  // Split and Join

  /** Joining the parts of a split gives back the string. */
  lemma {:induction false} JoinSplit(s: string, sep: char)
    ensures Join(Split(s, sep), sep) == s
    decreases |s|
  {
    if s != [] {
      var rest := Split(s[1..], sep);
      JoinSplit(s[1..], sep);
      if s[0] == sep {
        assert ([[]] + rest)[1..] == rest;
      } else {
        var parts := [[s[0]] + rest[0]] + rest[1..];
        assert parts[1..] == rest[1..];
        if |rest| > 1 {
          assert rest[1..] == (rest[1..])[0..];
          assert Join(rest, sep) == rest[0] + [sep] + Join(rest[1..], sep);
        }
      }
    }
  }

  /** Splitting around one separator splits each side. */
  lemma {:induction false} SplitAround(a: string, sep: char, b: string)
    ensures Split(a + [sep] + b, sep) == Split(a, sep) + Split(b, sep)
    decreases |a|
  {
    var s := a + [sep] + b;
    if a == [] {
      assert s[1..] == b;
    } else {
      assert s[1..] == a[1..] + [sep] + b;
      SplitAround(a[1..], sep, b);
      var ra := Split(a[1..], sep);
      var rb := Split(b, sep);
      if a[0] != sep {
        assert (ra + rb)[0] == ra[0];
        assert (ra + rb)[1..] == ra[1..] + rb;
      }
    }
  }

  /** Replacing commas after joining with `,` is replacing them after joining with `/`. */
  lemma {:induction false} ReplaceJoin(parts: seq<string>)
    ensures ReplaceAll(Join(parts, ','), ',', '/') == ReplaceAll(Join(parts, '/'), ',', '/')
    decreases |parts|
  {
    if |parts| > 1 {
      ReplaceJoin(parts[1..]);
      ReplaceConcat(parts[0] + [','], Join(parts[1..], ','));
      ReplaceConcat(parts[0] + ['/'], Join(parts[1..], '/'));
      ReplaceConcat(parts[0], [',']);
      ReplaceConcat(parts[0], ['/']);
    }
  }

  lemma ReplaceConcat(a: string, b: string)
    ensures ReplaceAll(a + b, ',', '/') == ReplaceAll(a, ',', '/') + ReplaceAll(b, ',', '/')
  {
  }

  // ---------------------------------------------------------------------
  // What the rename target is

  /**
   * The target is the part of `path` before its last `/` with every `,`
   * turned into `/`, then `/` and `newName`; with no `/` in `path` it is
   * `/<newName>`.
   */
  lemma RenameTargetShape(path: string, newName: string)
    ensures var j := LastIndexOf(path, '/');
      RenameTarget(path, newName)
        == (if j < 0 then "" else ReplaceAll(path[..j], ',', '/')) + "/" + newName
  {
    var j := LastIndexOf(path, '/');
    var parts := Split(path, '/');
    ReplaceJoin(parts[..|parts| - 1]);
    if j < 0 {
      assert Split(path, '/') == [path] by {
        JoinSplit(path, '/');
        SingleWhenAbsent(path, '/');
      }
    } else {
      var a := path[..j];
      var b := path[j + 1..];
      assert path == a + ['/'] + b;
      SplitAround(a, '/', b);
      SingleWhenAbsent(b, '/');
      assert parts[..|parts| - 1] == Split(a, '/');
      JoinSplit(a, '/');
    }
  }

  /** A string without the separator splits into itself alone. */
  lemma {:induction false} SingleWhenAbsent(s: string, sep: char)
    requires sep !in s
    ensures Split(s, sep) == [s]
    decreases |s|
  {
    if s != [] {
      SingleWhenAbsent(s[1..], sep);
      assert [s[0]] + s[1..] == s;
    }
  }

  /** For a path with a `/` and no `,`, the target is the sibling `newName` of the last component. */
  lemma RenameTargetIsSibling(path: string, newName: string)
    requires '/' in path && ',' !in path
    ensures var j := LastIndexOf(path, '/');
      RenameTarget(path, newName) == path[..j] + "/" + newName
  {
    RenameTargetShape(path, newName);
    var j := LastIndexOf(path, '/');
    assert ReplaceAll(path[..j], ',', '/') == path[..j];
  }

  /** A path without `/` is renamed to `/<newName>`, at the root of the file system. */
  lemma RenameTargetWithoutSlash(path: string, newName: string)
    requires '/' !in path
    ensures RenameTarget(path, newName) == "/" + newName
  {
    RenameTargetShape(path, newName);
  }

  /** The last occurrence is the one with no occurrence after it. */
  lemma LastIndexOfAt(s: string, c: char, j: int)
    requires 0 <= j < |s| && s[j] == c && c !in s[j + 1..]
    ensures LastIndexOf(s, c) == j
  {
  }

  /**
   * A `,` in a directory name above the renamed entry becomes a separator:
   * renaming `<dir>/<a>,<b>/<name>` targets `<dir>/<a>/<b>/<newName>`.
   */
  lemma CommaBecomesSeparator(dir: string, a: string, b: string, name: string, newName: string)
    requires ',' !in dir && ',' !in a && ',' !in b && '/' !in name
    ensures RenameTarget(dir + "/" + a + "," + b + "/" + name, newName) == dir + "/" + a + "/" + b + "/" + newName
  {
    var q := dir + "/" + a + "," + b;
    var p := q + "/" + name;
    assert p == dir + "/" + a + "," + b + "/" + name;
    assert p[|q| + 1..] == name;
    LastIndexOfAt(p, '/', |q|);
    RenameTargetShape(p, newName);
    assert p[..|q|] == q;
    ReplaceConcat(dir + "/" + a + ",", b);
    ReplaceConcat(dir + "/" + a, ",");
    ReplaceConcat(dir + "/", a);
    ReplaceConcat(dir, "/");
  }
}
