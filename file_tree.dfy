/**
 * The working tree the repackaging writes into: paths are '/'-separated
 * strings, and the tree maps each existing regular file to its bytes.
 * Directories are implicit (Files.createDirectories always succeeds here).
 */
module FileTree {
  import opened JavaText

  /** The position of the last '/' in `p`, or -1. */
  function LastSlash(p: string): (r: int)
    ensures -1 <= r < |p|
    ensures r >= 0 ==> p[r] == '/'
    ensures forall i :: r < i < |p| ==> p[i] != '/'
  {
    if p == [] then -1
    else if p[|p| - 1] == '/' then |p| - 1
    else LastSlash(p[..|p| - 1])
  }

  /** Path.resolve: a relative name is appended under `dir`, an absolute one replaces it. */
  function Resolve(dir: string, name: string): string {
    if StartsWith(name, "/") then name else dir + "/" + name
  }

  /** Path.getFileName: the last component. */
  function FileName(p: string): (r: string)
    ensures '/' !in r
  {
    p[LastSlash(p) + 1..]
  }

  /** Path.getParent: everything before the last component (empty when there is none). */
  function Parent(p: string): string {
    if LastSlash(p) < 0 then "" else p[..LastSlash(p)]
  }

  /** base.relativize(p) for a path under `base`. */
  function Relativize(base: string, p: string): string {
    if StartsWith(p, base + "/") then p[|base| + 1..] else p
  }

  /** Resolving a relative name and relativizing it back gives the name. */
  lemma RelativizeResolve(base: string, name: string)
    requires !StartsWith(name, "/")
    ensures Relativize(base, Resolve(base, name)) == name
  {
    var p := base + "/" + name;
    assert p[..|base + "/"|] == base + "/";
  }

  /** A single-component name is the file name of the path it resolves to, and `dir` its parent. */
  lemma {:induction false} ResolveComponents(dir: string, name: string)
    requires name != "" && '/' !in name
    ensures FileName(Resolve(dir, name)) == name
    ensures Parent(Resolve(dir, name)) == dir
  {
    var p := dir + "/" + name;
    assert !StartsWith(name, "/") by { assert name[0] != '/'; }
    LastSlashAfter(dir + "/", name);
    assert p[|dir| + 1..] == name;
    assert p[..|dir|] == dir;
  }

  /** The last slash of x + y is the last slash of x when y has none. */
  lemma {:induction false} LastSlashAfter(x: string, y: string)
    requires '/' !in y && x != [] && x[|x| - 1] == '/'
    ensures LastSlash(x + y) == |x| - 1
    decreases |y|
  {
    if y == [] {
      assert x + y == x;
    } else {
      var p := x + y;
      assert p[|p| - 1] == y[|y| - 1];
      assert p[..|p| - 1] == x + y[..|y| - 1];
      LastSlashAfter(x, y[..|y| - 1]);
    }
  }

  /**
   * A jar entry as JarInputStream.getNextJarEntry yields it, with the bytes
   * read from the stream after it. A leading META-INF/MANIFEST.MF is consumed
   * by the stream itself and is not among the entries.
   */
  datatype Entry = Entry(name: string, isDirectory: bool, content: seq<byte>)

  /** The working tree: every existing file with its content. */
  class Tree {
    var files: map<string, seq<byte>>

    constructor(files: map<string, seq<byte>>)
      ensures this.files == files
    {
      this.files := files;
    }

    predicate Exists(path: string)
      reads this
    {
      path in files
    }
  }
}
