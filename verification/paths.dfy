/** File paths with one directory separator (the backslash), and the output
    location both programs write to: a `Moved_Parameters` folder beside the
    origin file, under the origin file's own name. */
module FilePaths {

  const Separator: char := '\\'

  /** The folder created next to every origin file. */
  const OutputFolder: string := "Moved_Parameters"

  /** `Path.GetFileName`: the text after the last separator. */
  function FileName(p: string): (r: string)
    ensures Separator !in r
    ensures |r| <= |p| && r == p[|p| - |r|..]
  {
    if p == [] || p[|p| - 1] == Separator then []
    else
      var r := FileName(p[..|p| - 1]);
      assert p[..|p| - 1][|p| - 1 - |r|..] == p[|p| - 1 - |r|..|p| - 1];
      r + [p[|p| - 1]]
  }

  /** `Path.GetDirectoryName(p) ?? ""`: the text before the last separator,
      empty when there is none. */
  function DirectoryName(p: string): (r: string)
    ensures |r| < |p| || r == []
  {
    if p == [] then []
    else if p[|p| - 1] == Separator then p[..|p| - 1]
    else DirectoryName(p[..|p| - 1])
  }

  /** `Path.Combine(a, b)`: `a` alone when `b` is empty, `b` alone when `a` is
      empty or `b` is rooted, no separator added when `a` already ends with one. */
  function Combine(a: string, b: string): (r: string)
    ensures |r| >= |b|
  {
    if b == [] then a
    else if a == [] || b[0] == Separator then b
    else if a[|a| - 1] == Separator then a + b
    else a + [Separator] + b
  }

  /** Where the processed copy of origin file `p` is written. */
  function OutputPath(p: string): string
  {
    Combine(Combine(DirectoryName(p), OutputFolder), FileName(p))
  }

  /** A path is its directory, a separator and its file name (or just the file
      name when it has no separator). */
  lemma {:induction false} PathSplit(p: string)
    ensures Separator in p ==> p == DirectoryName(p) + [Separator] + FileName(p)
    ensures Separator !in p ==> DirectoryName(p) == [] && FileName(p) == p
  {
    if p == [] {
    } else if p[|p| - 1] == Separator {
      assert p == p[..|p| - 1] + [Separator] + [];
    } else {
      var init, last := p[..|p| - 1], p[|p| - 1];
      PathSplit(init);
      assert p == init + [last];
      assert DirectoryName(p) == DirectoryName(init);
      assert FileName(p) == FileName(init) + [last];
      if Separator in p {
        assert Separator in init;
        JoinSnoc(DirectoryName(init), FileName(init), last);
      } else {
        assert Separator !in init;
      }
    }
  }

  lemma JoinSnoc(dir: string, name: string, c: char)
    ensures dir + [Separator] + name + [c] == dir + [Separator] + (name + [c])
  {
  }

  /** The last component of `dir + separator + name` is `name` and the rest is `dir`. */
  lemma {:induction false} SplitJoined(dir: string, name: string)
    requires Separator !in name
    ensures FileName(dir + [Separator] + name) == name
    ensures DirectoryName(dir + [Separator] + name) == dir
    decreases |name|
  {
    var p := dir + [Separator] + name;
    if name != [] {
      var init := name[..|name| - 1];
      assert p[..|p| - 1] == dir + [Separator] + init;
      SplitJoined(dir, init);
      assert name == init + [name[|name| - 1]];
    } else {
      assert p[..|p| - 1] == dir;
    }
  }

  /** Combining a directory with a plain, non-empty name gives back that name as
      the file name; combining with the empty name gives back the directory. */
  lemma CombineFileName(a: string, b: string)
    requires Separator !in b
    ensures b != [] ==> FileName(Combine(a, b)) == b
    ensures b == [] ==> Combine(a, b) == a
  {
    if b == [] {
    } else if a != [] && a[|a| - 1] == Separator {
      assert a + b == a[..|a| - 1] + [Separator] + b;
      SplitJoined(a[..|a| - 1], b);
    } else if a != [] {
      SplitJoined(a, b);
    } else {
      PathSplit(b);
    }
  }

  /** The output file keeps the origin's file name, and sits directly in the
      `Moved_Parameters` folder beside the origin. A path that ends with a
      separator has an empty file name, and its output path is that folder. */
  lemma OutputPathParts(p: string)
    ensures FileName(p) != [] ==> FileName(OutputPath(p)) == FileName(p)
    ensures FileName(p) != [] ==> DirectoryName(OutputPath(p)) == Combine(DirectoryName(p), OutputFolder)
    ensures FileName(p) == [] ==> OutputPath(p) == Combine(DirectoryName(p), OutputFolder)
  {
    var dir := Combine(DirectoryName(p), OutputFolder);
    if FileName(p) != [] {
      OutputFolderLast(DirectoryName(p));
      CombineAppends(dir, FileName(p));
      SplitJoined(dir, FileName(p));
    }
  }

  /** The output folder path ends with the folder's last letter, not a separator. */
  lemma OutputFolderLast(d: string)
    ensures var dir := Combine(d, OutputFolder);
            dir != [] && dir[|dir| - 1] == 's'
  {
  }

  /** Combining a directory that does not end with a separator with a plain name. */
  lemma CombineAppends(a: string, b: string)
    requires a != [] && a[|a| - 1] != Separator && b != [] && Separator !in b
    ensures Combine(a, b) == a + [Separator] + b
  {
  }

  /** The output path is strictly longer than the origin path, so the origin
      file is never overwritten. */
  lemma OutputPathLonger(p: string)
    ensures |OutputPath(p)| > |p|
    ensures OutputPath(p) != p
  {
    var d, n := DirectoryName(p), FileName(p);
    var dir := Combine(d, OutputFolder);
    CombineLength(d, OutputFolder);
    PathSplit(p);
    if n != [] {
      OutputFolderLast(d);
      CombineAppends(dir, n);
    }
  }

  /** Combining with an unrooted nonempty name keeps both parts. */
  lemma CombineLength(a: string, b: string)
    requires b != [] && b[0] != Separator
    ensures |Combine(a, b)| >= |a| + |b|
  {
  }
}
