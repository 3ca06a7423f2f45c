/**
  The part of Rust's `Path` that the markdown filter relies on, for
  '/'-separated paths: the file name (the last normal component) and the
  extension (what follows the last dot of the file name, unless that dot
  starts the name).
*/
module RustPath {
  import opened Wrappers

  /** The pieces of `p` between separators, empty pieces included. */
  function Split(p: string): (parts: seq<string>)
    ensures |parts| >= 1
  {
    if p == [] then [[]]
    else if p[0] == '/' then [[]] + Split(p[1..])
    else
      var rest := Split(p[1..]);
      [[p[0]] + rest[0]] + rest[1..]
  }

  /** Drops the pieces that are not components: empty ones (repeated or trailing separators) and ".". */
  function Normal(parts: seq<string>): (comps: seq<string>)
    ensures forall i :: 0 <= i < |comps| ==> comps[i] != "" && comps[i] != "."
  {
    if parts == [] then []
    else if parts[0] == "" || parts[0] == "." then Normal(parts[1..])
    else [parts[0]] + Normal(parts[1..])
  }

  function Components(p: string): seq<string> {
    Normal(Split(p))
  }

  /** `Path::file_name`: the last component, unless there is none or it is "..". */
  function FileName(p: string): (r: Option<string>)
    ensures r.Some? ==> r.value != "" && r.value != "." && r.value != ".."
  {
    var comps := Components(p);
    if comps == [] || comps[|comps| - 1] == ".." then None else Some(comps[|comps| - 1])
  }

  function LastIndexOf(s: string, c: char): (r: Option<nat>)
    ensures r.None? <==> c !in s
    ensures r.Some? ==> r.value < |s| && s[r.value] == c && c !in s[r.value + 1..]
  {
    if s == [] then None
    else if s[|s| - 1] == c then Some(|s| - 1)
    else
      var r := LastIndexOf(s[..|s| - 1], c);
      assert s == s[..|s| - 1] + [s[|s| - 1]];
      r
  }

  /** The extension of a file name, as `Path::extension` splits it at its last dot. */
  function ExtensionOf(name: string): (r: Option<string>)
    ensures r.Some? ==> && name != ".." && '.' !in r.value && |r.value| + 1 < |name|
                        && name == name[..|name| - |r.value| - 1] + "." + r.value
    ensures r.None? ==> || name == ".." || '.' !in name
                        || (name[0] == '.' && '.' !in name[1..])
  {
    if name == ".." then None
    else match LastIndexOf(name, '.')
      case None => None
      case Some(k) =>
        assert name == name[..k] + "." + name[k + 1..];
        if k == 0 then None else Some(name[k + 1..])
  }

  /** `Path::extension`: the extension of the file name, if there is a file name. */
  function Extension(p: string): (r: Option<string>)
    ensures FileName(p).None? ==> r.None?
    ensures r.Some? ==> && FileName(p).Some? && '.' !in r.value
                        && HasSuffix(FileName(p).value, "." + r.value)
  {
    match FileName(p)
    case None => None
    case Some(name) =>
      var r := ExtensionOf(name);
      if r.None? then r
      else
        StemSuffix(name[..|name| - |r.value| - 1], r.value);
        r
  }

  /** A non-empty stem, a dot and `e` end with the dot and `e`. */
  lemma StemSuffix(stem: string, e: string)
    requires stem != []
    ensures HasSuffix(stem + "." + e, "." + e)
  {
    assert (stem + "." + e)[|stem|..] == "." + e;
  }

  /** The walk's filter: a file (not a directory) whose extension is exactly `md` or `markdown`. */
  predicate ValidPath(p: string, isDir: bool) {
    !isDir && match Extension(p)
              case Some(e) => e == "md" || e == "markdown"
              case None => false
  }

  /** `n` ends with `x` and has something before it. */
  predicate HasSuffix(n: string, x: string) {
    |n| > |x| && n[|n| - |x|..] == x
  }

  /**
    A file name has the non-empty, dot-free extension `e` exactly when it ends
    with a dot and `e` after a non-empty stem.
  */
  lemma ExtensionOfSuffix(n: string, e: string)
    requires e != [] && '.' !in e
    ensures ExtensionOf(n) == Some(e) <==> HasSuffix(n, "." + e)
  {
    if HasSuffix(n, "." + e) {
      var k := |n| - |e| - 1;
      assert n[k] == ("." + e)[0] == '.';
      assert n[k + 1..] == e by { assert n[k..] == "." + e; }
      assert n != ".." by { assert n[|n| - 1] == e[|e| - 1]; }
      var j := LastIndexOf(n, '.');
      assert j.Some? by { assert n[k] in n; }
      assert j.value == k;
    }
    if ExtensionOf(n) == Some(e) {
      assert n[|n| - |e| - 1..] == "." + e;
    }
  }

  /**
    The filter in the terms of its tests: a file (not a directory) whose file
    name is a non-empty stem followed by `.md` or `.markdown`.
  */
  lemma ValidPathMeaning(p: string, isDir: bool)
    ensures ValidPath(p, isDir) <==>
              && !isDir && FileName(p).Some?
              && (HasSuffix(FileName(p).value, ".md") || HasSuffix(FileName(p).value, ".markdown"))
  {
    if FileName(p).Some? {
      MarkdownName(FileName(p).value);
    }
  }

  /** A file name has extension `md` or `markdown` exactly when it ends so after a non-empty stem. */
  lemma MarkdownName(n: string)
    ensures (ExtensionOf(n) == Some("md") || ExtensionOf(n) == Some("markdown")) <==>
              HasSuffix(n, ".md") || HasSuffix(n, ".markdown")
  {
    ExtensionOfSuffix(n, "md");
    ExtensionOfSuffix(n, "markdown");
    assert "." + "md" == ".md" && "." + "markdown" == ".markdown";
  }

  lemma {:induction false} SplitAppend(a: string, b: string)
    ensures Split(a + "/" + b) == Split(a) + Split(b)
  {
    if a == [] {
      assert a + "/" + b == "/" + b;
      assert ("/" + b)[1..] == b;
    } else {
      assert (a + "/" + b)[0] == a[0];
      assert (a + "/" + b)[1..] == a[1..] + "/" + b;
      SplitAppend(a[1..], b);
    }
  }

  lemma {:induction false} SplitWhole(b: string)
    requires '/' !in b
    ensures Split(b) == [b]
  {
    if b != [] {
      assert b[0] in b;
      assert forall i :: 0 <= i < |b[1..]| ==> b[1..][i] == b[i + 1];
      SplitWhole(b[1..]);
      assert [b[0]] + b[1..] == b;
    }
  }

  lemma {:induction false} NormalAppend(xs: seq<string>, ys: seq<string>)
    ensures Normal(xs + ys) == Normal(xs) + Normal(ys)
  {
    if xs == [] {
      assert xs + ys == ys;
    } else {
      assert (xs + ys)[0] == xs[0];
      assert (xs + ys)[1..] == xs[1..] + ys;
      NormalAppend(xs[1..], ys);
    }
  }

  /** Whatever directory precedes it, a plain name after the last separator is the file name. */
  lemma FileNameOfJoin(dir: string, name: string)
    requires '/' !in name && name != "" && name != "." && name != ".."
    ensures FileName(dir + "/" + name) == Some(name)
  {
    SplitAppend(dir, name);
    SplitWhole(name);
    NormalAppend(Split(dir), [name]);
    assert Normal([name]) == [name];
  }

  /** A stem followed by a dot and a dot-free suffix has that suffix as its extension. */
  lemma ExtensionOfStem(stem: string, ext: string)
    requires stem != "" && '.' !in ext
    requires stem + "." + ext != ".."
    ensures ExtensionOf(stem + "." + ext) == Some(ext)
  {
    var name := stem + "." + ext;
    var k := |stem|;
    assert name[k] == '.';
    assert name[k + 1..] == ext;
  }

  /**
    The filter decides on the last extension alone: a file `dir/stem.ext`
    passes exactly when it is not a directory and `ext` is `md` or `markdown`.
  */
  lemma ValidPathOfParts(dir: string, stem: string, ext: string, isDir: bool)
    requires stem != "" && '/' !in stem && '/' !in ext && '.' !in ext
    requires stem + "." + ext != ".."
    ensures ValidPath(dir + "/" + stem + "." + ext, isDir) <==> !isDir && (ext == "md" || ext == "markdown")
  {
    var name := stem + "." + ext;
    assert '/' !in name by {
      forall i | 0 <= i < |name| ensures name[i] != '/' {
        if i < |stem| { assert name[i] == stem[i]; }
        else if i > |stem| { assert name[i] == ext[i - |stem| - 1]; }
      }
    }
    assert dir + "/" + stem + "." + ext == dir + "/" + name;
    FileNameOfJoin(dir, name);
    ExtensionOfStem(stem, ext);
  }

  /** A path with no file name, such as the root, never passes. */
  lemma RootIsNeverValid(isDir: bool)
    ensures !ValidPath("/", isDir)
  {
    assert Split("/") == [[], []];
  }

  /** The paths the filter is exercised with, under any directory (the root one included). */
  lemma Examples(dir: string)
    ensures ValidPath(dir + "/foo.md", false)
    ensures ValidPath(dir + "/foo.markdown", false)
    ensures !ValidPath(dir + "/foo.txt", false)
    ensures !ValidPath(dir + "/foo.md", true)
  {
    Spellings(dir);
    NamedFile(dir, "foo.md", "foo", "md", false);
    NamedFile(dir, "foo.md", "foo", "md", true);
    NamedFile(dir, "foo.markdown", "foo", "markdown", false);
    NamedFile(dir, "foo.txt", "foo", "txt", false);
  }

  /** `ValidPathOfParts` for a file name given whole. */
  lemma NamedFile(dir: string, name: string, stem: string, ext: string, isDir: bool)
    requires name == stem + "." + ext
    requires stem != "" && '/' !in stem && '/' !in ext && '.' !in ext && name != ".."
    ensures ValidPath(dir + "/" + name, isDir) <==> !isDir && (ext == "md" || ext == "markdown")
  {
    ValidPathOfParts(dir, stem, ext, isDir);
    assert dir + "/" + stem + "." + ext == dir + "/" + name;
  }

  /**
    How the example paths are spelled. Kept apart from `Examples`, where the
    same facts sit next to the filter's definitions and cost the solver far more.
  */
  lemma Spellings(dir: string)
    ensures dir + "/" + "foo.md" == dir + "/foo.md"
    ensures dir + "/" + "foo.markdown" == dir + "/foo.markdown"
    ensures dir + "/" + "foo.txt" == dir + "/foo.txt"
    ensures "foo.md" == "foo" + "." + "md" && "foo.markdown" == "foo" + "." + "markdown"
    ensures "foo.txt" == "foo" + "." + "txt"
  {
  }
}
