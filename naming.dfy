/**
 * Names derived from the source path: the file name (`file_name`), the table name used as the
 * lookup key, and the table descriptor `name(col,col,...)` (`value_str`).
 */
module Naming {
  import opened Wrappers
  import opened Strings
  import opened Sorting

  /** `path` without the slashes it ends with. */
  function StripTrailingSlashes(s: string): (r: string)
    ensures |r| <= |s| && r == s[..|r|]
    ensures |r| == 0 || r[|r| - 1] != '/'
    ensures forall i :: |r| <= i < |s| ==> s[i] == '/'
  {
    if |s| > 0 && s[|s| - 1] == '/' then StripTrailingSlashes(s[..|s| - 1]) else s
  }

  /** The characters after the last slash. */
  function LastSegment(s: string): (r: string)
    ensures '/' !in r
    ensures |r| <= |s| && r == s[|s| - |r|..]
    ensures |r| < |s| ==> s[|s| - |r| - 1] == '/'
  {
    if |s| == 0 || s[|s| - 1] == '/' then "" else LastSegment(s[..|s| - 1]) + [s[|s| - 1]]
  }

  /**
   * The file name, modelled as the POSIX basename: trailing slashes are ignored and the last
   * segment is kept; a path made only of slashes gives `"/"`, the empty path gives `""`.
   */
  function FileName(path: string): (r: string)
    ensures r == "/" || '/' !in r
    ensures |r| <= |path|
    ensures |path| > 0 ==> |r| > 0
    ensures r == "/" <==> (|path| > 0 && forall i :: 0 <= i < |path| ==> path[i] == '/')
  {
    var t := StripTrailingSlashes(path);
    if |t| == 0 then (if |path| == 0 then "" else "/") else LastSegment(t)
  }

  lemma {:induction false} LastSegmentOfPlain(s: string)
    requires '/' !in s
    ensures LastSegment(s) == s
  {
    if |s| > 0 {
      LastSegmentOfPlain(s[..|s| - 1]);
      assert s == s[..|s| - 1] + [s[|s| - 1]];
    }
  }

  lemma {:induction false} LastSegmentAfterSlash(dir: string, name: string)
    requires '/' !in name
    ensures LastSegment(dir + "/" + name) == name
    decreases |name|
  {
    var p := dir + "/" + name;
    if |name| == 0 {
      assert p[|p| - 1] == '/';
    } else {
      var name' := name[..|name| - 1];
      assert p[..|p| - 1] == dir + "/" + name';
      LastSegmentAfterSlash(dir, name');
      assert name == name' + [name[|name| - 1]];
    }
  }

  /** A name with no directory part is its own file name. */
  lemma FileNameOfPlain(name: string)
    requires '/' !in name
    ensures FileName(name) == name
  {
    if |name| > 0 {
      assert name[|name| - 1] in name;
      LastSegmentOfPlain(name);
    }
  }

  /** Joining a directory and a name with a slash, then taking the file name, gives the name back. */
  lemma FileNameAfterSlash(dir: string, name: string)
    requires |name| > 0 && '/' !in name
    ensures FileName(dir + "/" + name) == name
  {
    var p := dir + "/" + name;
    assert p[|p| - 1] == name[|name| - 1] && name[|name| - 1] in name;
    LastSegmentAfterSlash(dir, name);
  }

  /** A slash at the end of a non-empty path does not change its file name. */
  lemma FileNameTrailingSlash(p: string)
    requires |p| > 0
    ensures FileName(p + "/") == FileName(p)
  {
    var q := p + "/";
    assert q[..|q| - 1] == p;
  }

  /** Index of the last dot, or -1. */
  function LastDot(f: string): (k: int)
    ensures -1 <= k < |f|
    ensures k >= 0 ==> f[k] == '.' && '.' !in f[k + 1..]
    ensures k == -1 ==> '.' !in f
  {
    if |f| == 0 then -1
    else if f[|f| - 1] == '.' then |f| - 1
    else
      var k := LastDot(f[..|f| - 1]);
      assert f == f[..|f| - 1] + [f[|f| - 1]];
      k
  }

  lemma {:induction false} LastDotBeforeExtension(stem: string, ext: string)
    requires '.' !in ext
    ensures LastDot(stem + "." + ext) == |stem|
    decreases |ext|
  {
    var f := stem + "." + ext;
    if |ext| > 0 {
      var ext' := ext[..|ext| - 1];
      assert f[..|f| - 1] == stem + "." + ext';
      assert f[|f| - 1] == ext[|ext| - 1] && ext[|ext| - 1] in ext;
      LastDotBeforeExtension(stem, ext');
    }
  }

  /**
   * The file name without its extension (everything from the last dot on), unless the only dot
   * starts the name: the table name the attribute lookup is keyed on, with its case kept.
   */
  function BaseName(path: string): (r: string)
    ensures '/' !in r || r == "/"
    ensures |r| <= |FileName(path)| && r == FileName(path)[..|r|]
    ensures |r| < |FileName(path)| ==>
      0 < |r| && FileName(path)[|r|] == '.' && '.' !in FileName(path)[|r| + 1..]
    ensures (forall i :: 0 < i < |FileName(path)| ==> FileName(path)[i] != '.') ==> r == FileName(path)
  {
    var f := FileName(path);
    var k := LastDot(f);
    if k > 0 then f[..k] else f
  }

  /** A path `dir/stem.ext` has the base name `stem`, dots inside the stem included. */
  lemma BaseNameOf(dir: string, stem: string, ext: string)
    requires |stem| > 0 && '/' !in stem && '/' !in ext && '.' !in ext
    ensures FileName(dir + "/" + stem + "." + ext) == stem + "." + ext
    ensures BaseName(dir + "/" + stem + "." + ext) == stem
  {
    var name := stem + "." + ext;
    AppendAssociative(dir + "/", stem, ".");
    AppendAssociative(dir + "/", stem + ".", ext);
    assert '/' !in name by {
      forall i | 0 <= i < |name| ensures name[i] != '/' {
        if i < |stem| { assert name[i] == stem[i]; }
        else if i > |stem| { assert name[i] == ext[i - |stem| - 1]; }
      }
    }
    FileNameAfterSlash(dir, name);
    LastDotBeforeExtension(stem, ext);
    assert name[..|stem|] == stem;
  }

  /** A file name `stem.ext` with no directory part has the table name `stem`. */
  lemma BaseNameOfPlain(stem: string, ext: string)
    requires |stem| > 0 && '/' !in stem && '/' !in ext && '.' !in ext
    ensures BaseName(stem + "." + ext) == stem
  {
    var name := stem + "." + ext;
    assert '/' !in name by {
      forall i | 0 <= i < |name| ensures name[i] != '/' {
        if i < |stem| { assert name[i] == stem[i]; }
        else if i > |stem| { assert name[i] == ext[i - |stem| - 1]; }
      }
    }
    FileNameOfPlain(name);
    LastDotBeforeExtension(stem, ext);
    assert name[..|stem|] == stem;
  }

  /** A name without an extension (no dot after its first character) is its own table name. */
  lemma BaseNameWithoutExtension(dir: string, name: string)
    requires |name| > 0 && '/' !in name
    requires forall i :: 0 < i < |name| ==> name[i] != '.'
    ensures BaseName(dir + "/" + name) == name
  {
    FileNameAfterSlash(dir, name);
  }

  /** An underscore goes before `c`: a capital after a lower-case letter or digit, or a capital that
      ends a run of capitals and starts a capitalised word. */
  predicate Boundary(prev: Option<char>, c: char, next: Option<char>)
  {
    IsUpper(c) && prev.Some? &&
      (IsLower(prev.value) || IsDigit(prev.value) ||
       (IsUpper(prev.value) && next.Some? && IsLower(next.value)))
  }

  /** Snake case of `s`, given the character that precedes it. */
  function SnakeFrom(prev: Option<char>, s: string): (r: string)
    ensures forall i :: 0 <= i < |r| ==> !IsUpper(r[i])
    ensures |s| <= |r|
    decreases |s|
  {
    if |s| == 0 then ""
    else
      var next := if |s| > 1 then Some(s[1]) else None;
      (if Boundary(prev, s[0], next) then "_" else "") + [ToLower(s[0])] + SnakeFrom(Some(s[0]), s[1..])
  }

  /** `UserId` to `user_id`: words split at capital letters, joined by `_`, lower-cased. */
  function SnakeCase(s: string): string
  {
    SnakeFrom(None, s)
  }

  /** A capitalised word: a capital followed by at least one lower-case letter or digit. */
  predicate IsWord(w: string)
  {
    |w| >= 2 && IsUpper(w[0]) && forall i :: 1 <= i < |w| ==> IsLower(w[i]) || IsDigit(w[i])
  }

  /** A first character that is not a capital is only lower-cased. */
  lemma SnakeFromPlain(prev: Option<char>, s: string)
    requires |s| > 0 && !IsUpper(s[0])
    ensures SnakeFrom(prev, s) == [ToLower(s[0])] + SnakeFrom(Some(s[0]), s[1..])
  {
    var next := if |s| > 1 then Some(s[1]) else None;
    assert !Boundary(prev, s[0], next);
    assert "" + [ToLower(s[0])] == [ToLower(s[0])];
  }

  /** Characters that are not capitals only get lower-cased: no underscore goes in. */
  lemma {:induction false} SnakeNoCapitals(prev: Option<char>, u: string, t: string)
    requires forall i :: 0 <= i < |u| ==> !IsUpper(u[i])
    ensures SnakeFrom(prev, u + t) == Lower(u) + SnakeFrom(if |u| == 0 then prev else Some(u[|u| - 1]), t)
    decreases |u|
  {
    if |u| == 0 {
      assert u + t == t;
    } else {
      var s := u + t;
      var last := Some(u[|u| - 1]);
      assert s[0] == u[0] && s[1..] == u[1..] + t;
      SnakeFromPlain(prev, s);
      SnakeNoCapitals(Some(u[0]), u[1..], t);
      assert (if |u[1..]| == 0 then Some(u[0]) else Some(u[1..][|u[1..]| - 1])) == last;
      assert Lower(u) == [ToLower(u[0])] + Lower(u[1..]);
      AppendAssociative([ToLower(u[0])], Lower(u[1..]), SnakeFrom(last, t));
    }
  }

  lemma Regroup(a: string, b: string, c: string, d: string)
    ensures a + b + (c + d) == a + (b + c) + d
  {
  }

  /** A capitalised word becomes its lower-case form, preceded by `_` unless it comes first. */
  lemma SnakeWord(prev: Option<char>, w: string, t: string)
    requires IsWord(w)
    requires prev.None? || IsLower(prev.value) || IsDigit(prev.value)
    ensures SnakeFrom(prev, w + t)
      == (if prev.Some? then "_" else "") + Lower(w) + SnakeFrom(Some(w[|w| - 1]), t)
  {
    var s := w + t;
    var p := if prev.Some? then "_" else "";
    var c := [ToLower(w[0])];
    assert s[0] == w[0] && s[1] == w[1] && s[1..] == w[1..] + t;
    assert Boundary(prev, s[0], Some(s[1])) <==> prev.Some?;
    assert SnakeFrom(prev, s) == p + c + SnakeFrom(Some(w[0]), w[1..] + t);
    SnakeNoCapitals(Some(w[0]), w[1..], t);
    assert w[1..][|w[1..]| - 1] == w[|w| - 1];
    assert Lower(w) == c + Lower(w[1..]);
    Regroup(p, c, Lower(w[1..]), SnakeFrom(Some(w[|w| - 1]), t));
  }

  /** The lower-case form of each word. */
  function LowerEach(ws: seq<string>): (r: seq<string>)
    ensures |r| == |ws|
  {
    if |ws| == 0 then [] else [Lower(ws[0])] + LowerEach(ws[1..])
  }

  /** The lower-case words joined by `_`: the first word, then `_` and the others if any. */
  lemma JoinLowerEachFront(ws: seq<string>)
    requires |ws| > 0
    ensures Join(LowerEach(ws), "_")
      == Lower(ws[0]) + ((if |ws| > 1 then "_" else "") + Join(LowerEach(ws[1..]), "_"))
  {
    var ls := LowerEach(ws);
    assert ls == [Lower(ws[0])] + LowerEach(ws[1..]);
    assert ls[1..] == LowerEach(ws[1..]);
    if |ws| > 1 {
      AppendAssociative(Lower(ws[0]), "_", Join(ls[1..], "_"));
    }
  }

  /** One word in front of words whose snake case is already known. */
  lemma SnakeWordsStep(prev: Option<char>, w: string, rest: seq<string>, tail: string)
    requires IsWord(w)
    requires prev.None? || IsLower(prev.value) || IsDigit(prev.value)
    requires SnakeFrom(Some(w[|w| - 1]), Concat(rest)) == tail
    ensures SnakeFrom(prev, w + Concat(rest)) == (if prev.Some? then "_" else "") + (Lower(w) + tail)
  {
    SnakeWord(prev, w, Concat(rest));
    AppendAssociative(if prev.Some? then "_" else "", Lower(w), tail);
  }

  /**
   * For a name built from capitalised words (`UserId` = `User` + `Id`), snake case is the words
   * lower-cased and joined by underscores (`user_id`).
   */
  lemma {:induction false} SnakeWords(prev: Option<char>, ws: seq<string>)
    requires forall i :: 0 <= i < |ws| ==> IsWord(ws[i])
    requires prev.None? || IsLower(prev.value) || IsDigit(prev.value)
    ensures SnakeFrom(prev, Concat(ws)) == (if prev.Some? && |ws| > 0 then "_" else "") + Join(LowerEach(ws), "_")
    decreases |ws|
  {
    if |ws| > 0 {
      var w, rest := ws[0], ws[1..];
      var last := w[|w| - 1];
      assert Concat(ws) == w + Concat(rest);
      assert IsLower(last) || IsDigit(last);
      SnakeWords(Some(last), rest);
      SnakeWordsStep(prev, w, rest, (if |rest| > 0 then "_" else "") + Join(LowerEach(rest), "_"));
      JoinLowerEachFront(ws);
    }
  }

  /** The snake-case form of every column. */
  function SnakeAll(columns: seq<string>): (r: seq<string>)
    ensures |r| == |columns|
  {
    if |columns| == 0 then [] else [SnakeCase(columns[0])] + SnakeAll(columns[1..])
  }

  /** `value_str`: the lower-cased table name and the sorted snake-case columns, `name(a,b,c)`. */
  function ValueStr(path: string, columns: seq<string>): string
  {
    Lower(BaseName(path)) + "(" + Join(Sort(SnakeAll(columns)), ",") + ")"
  }

  lemma {:induction false} SnakeAllNoCapitals(columns: seq<string>)
    ensures forall s :: s in SnakeAll(columns) ==> NoCapitals(s)
  {
    if |columns| > 0 {
      SnakeAllNoCapitals(columns[1..]);
    }
  }

  lemma SortedSnakeNoCapitals(columns: seq<string>)
    ensures forall i :: 0 <= i < |Sort(SnakeAll(columns))| ==> NoCapitals(Sort(SnakeAll(columns))[i])
  {
    var cols := Sort(SnakeAll(columns));
    SnakeAllNoCapitals(columns);
    forall i | 0 <= i < |cols| ensures NoCapitals(cols[i]) {
      assert cols[i] in multiset(SnakeAll(columns));
      assert cols[i] in SnakeAll(columns);
    }
  }

  /** The descriptor is entirely lower case, whatever the case of the file name and the columns. */
  lemma ValueStrNoCapitals(path: string, columns: seq<string>)
    ensures NoCapitals(ValueStr(path, columns))
  {
    var cols := Sort(SnakeAll(columns));
    SortedSnakeNoCapitals(columns);
    JoinNoCapitals(cols, ",");
    var name := Lower(BaseName(path));
    AppendNoCapitals(name, "(");
    AppendNoCapitals(name + "(", Join(cols, ","));
    AppendNoCapitals(name + "(" + Join(cols, ","), ")");
  }

  /**
   * The column list of the descriptor is THE sorted arrangement of the snake-case columns: any
   * sorted permutation of them spells the same descriptor.
   */
  lemma ValueStrColumns(path: string, columns: seq<string>, cols: seq<string>)
    requires Sorted(cols) && multiset(cols) == multiset(SnakeAll(columns))
    ensures ValueStr(path, columns) == Lower(BaseName(path)) + "(" + Join(cols, ",") + ")"
  {
    SortIsUnique(SnakeAll(columns), cols);
  }
}
