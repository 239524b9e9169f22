/**
 * sdk.mk, the make include file that tells the Make tool where the source
 * tree and the build output are: it is looked for in the execution directory
 * and its ancestors, each of its lines is cut into tokens on spaces, ':' and
 * '=', and the first two tokens of a line are a key and its value, a later
 * line overriding an earlier one. Both snapshots of the tool read it the same
 * way.
 */
module SdkMk {
  import opened Wrappers
  import opened JavaText
  import opened FileTree

  const SdkMkName: string := "sdk.mk"
  const SdkSrcBase: string := "SDK_SRC_BASE"
  const SdkBuildBase: string := "SDK_BUILD_BASE"

  /** The delimiters given to StringTokenizer: " :=". */
  predicate IsDelimiter(c: char) {
    c == ' ' || c == ':' || c == '='
  }

  /** A token: a non-empty run of non-delimiter characters. */
  predicate IsToken(t: string) {
    t != [] && forall j :: 0 <= j < |t| ==> !IsDelimiter(t[j])
  }

  /** The length of the token at the head of `s`. */
  function TokenLength(s: string): (n: nat)
    ensures n <= |s|
    ensures forall j :: 0 <= j < n ==> !IsDelimiter(s[j])
    ensures n < |s| ==> IsDelimiter(s[n])
  {
    if s == [] || IsDelimiter(s[0]) then 0 else 1 + TokenLength(s[1..])
  }

  /** StringTokenizer(line, " :="): the maximal runs of non-delimiters, in order. */
  function Tokens(line: string): (r: seq<string>)
    ensures forall i :: 0 <= i < |r| ==> IsToken(r[i])
    decreases |line|
  {
    if line == [] then []
    else if IsDelimiter(line[0]) then Tokens(line[1..])
    else
      var n := TokenLength(line);
      [line[..n]] + Tokens(line[n..])
  }

  /** Delimiters before a token are skipped. */
  lemma {:induction false} TokensSkip(d: string, rest: string)
    requires forall j :: 0 <= j < |d| ==> IsDelimiter(d[j])
    ensures Tokens(d + rest) == Tokens(rest)
  {
    if d != [] {
      assert (d + rest)[0] == d[0] && (d + rest)[1..] == d[1..] + rest;
      TokensSkip(d[1..], rest);
    } else {
      assert d + rest == rest;
    }
  }

  /** A token followed by a delimiter (or by nothing) is read whole. */
  lemma {:induction false} TokensHead(t: string, rest: string)
    requires IsToken(t) && (rest == [] || IsDelimiter(rest[0]))
    ensures Tokens(t + rest) == [t] + Tokens(rest)
  {
    var s := t + rest;
    TokenLengthOf(t, rest);
    assert s[..|t|] == t && s[|t|..] == rest;
  }

  lemma {:induction false} TokenLengthOf(t: string, rest: string)
    requires forall j :: 0 <= j < |t| ==> !IsDelimiter(t[j])
    requires rest == [] || IsDelimiter(rest[0])
    ensures TokenLength(t + rest) == |t|
  {
    if t != [] {
      assert (t + rest)[0] == t[0] && (t + rest)[1..] == t[1..] + rest;
      TokenLengthOf(t[1..], rest);
    } else {
      assert t + rest == rest;
    }
  }

  /** "KEY := value", "KEY=value", "KEY: value"...: the key and the value are the two tokens. */
  lemma AssignmentTokens(key: string, sep: string, value: string)
    requires IsToken(key) && IsToken(value)
    requires sep != [] && forall j :: 0 <= j < |sep| ==> IsDelimiter(sep[j])
    ensures Tokens(key + sep + value) == [key, value]
  {
    assert key + sep + value == key + (sep + value);
    TokensHead(key, sep + value);
    TokensSkip(sep, value);
    assert value + [] == value;
    TokensHead(value, []);
  }

  /** The key and value a line sets, if it has at least two tokens. */
  function Assignment(line: string): (r: Option<(string, string)>)
    ensures r.Some? <==> |Tokens(line)| >= 2
  {
    var tokens := Tokens(line);
    if |tokens| < 2 then None else Some((tokens[0], tokens[1]))
  }

  /** The line sets `key`. */
  predicate Sets(line: string, key: string) {
    Assignment(line).Some? && Assignment(line).value.0 == key
  }

  /** The context after reading `lines` in order. */
  function Context(lines: seq<string>): map<string, string>
    decreases |lines|
  {
    if lines == [] then map[]
    else
      var context := Context(lines[..|lines| - 1]);
      match Assignment(lines[|lines| - 1])
      case None => context
      case Some((key, value)) => context[key := value]
  }

  /**
   * A key is in the context exactly when some line sets it, and its value is
   * the one set by the last such line.
   */
  lemma {:induction false} ContextLastWins(lines: seq<string>, key: string)
    ensures key in Context(lines) <==> exists i :: 0 <= i < |lines| && Sets(lines[i], key)
    ensures forall i :: 0 <= i < |lines| && Sets(lines[i], key) && (forall j :: i < j < |lines| ==> !Sets(lines[j], key)) ==>
      Context(lines)[key] == Assignment(lines[i]).value.1
    decreases |lines|
  {
    if lines != [] {
      var n := |lines| - 1;
      var init := lines[..n];
      ContextLastWins(init, key);
      assert forall i :: 0 <= i < n ==> init[i] == lines[i];
      if !Sets(lines[n], key) {
        forall i | 0 <= i < |lines| && Sets(lines[i], key) && (forall j :: i < j < |lines| ==> !Sets(lines[j], key))
          ensures Context(lines)[key] == Assignment(lines[i]).value.1
        {
          assert i < n;
          assert forall j :: i < j < |init| ==> !Sets(init[j], key);
        }
      }
    }
  }

  /** The loop over the lines of sdk.mk, filling the context. */
  method ReadContext(lines: seq<string>) returns (context: map<string, string>)
    ensures context == Context(lines)
  {
    context := map[];
    var i := 0;
    while i < |lines|
      invariant 0 <= i <= |lines|
      invariant context == Context(lines[..i])
    {
      assert lines[..i + 1][..i] == lines[..i];
      var tokens := Tokens(lines[i]);
      if |tokens| >= 2 {
        context := context[tokens[0] := tokens[1]];
      }
      i := i + 1;
    }
    assert lines[..i] == lines;
  }

  /** computeIfAbsent with a throwing function: the value, or an IllegalStateException naming the key. */
  function Required(context: map<string, string>, key: string): (r: Result<string, Failure>)
    ensures key in context <==> r.Success?
    ensures key in context ==> r.value == context[key]
    ensures key !in context ==> r == Failure(IllegalState(key + " not found"))
  {
    if key in context then Success(context[key]) else Failure(IllegalState(key + " not found"))
  }

  /** findSdkMk: sdk.mk in the directory or in its nearest ancestor having one; the root directory is written "". */
  function FindSdkMk(directory: string, existing: set<string>): (r: Option<string>)
    ensures r.Some? ==> r.value in existing
    decreases |directory|
  {
    var candidate := Resolve(directory, SdkMkName);
    if candidate in existing then Some(candidate)
    else if LastSlash(directory) < 0 then None
    else FindSdkMk(Parent(directory), existing)
  }

  /** Ancestor directories, nearest first, down to the root. */
  function Ancestors(directory: string): (r: seq<string>)
    ensures r != [] && r[0] == directory
    decreases |directory|
  {
    if LastSlash(directory) < 0 then [directory] else [directory] + Ancestors(Parent(directory))
  }

  /** The directory holds an sdk.mk. */
  predicate HasSdkMk(directory: string, existing: set<string>) {
    Resolve(directory, SdkMkName) in existing
  }

  /** When no sdk.mk is found, none of the ancestors has one. */
  lemma {:induction false} NotFoundAnywhere(directory: string, existing: set<string>, i: nat)
    requires FindSdkMk(directory, existing).None?
    requires i < |Ancestors(directory)|
    ensures !HasSdkMk(Ancestors(directory)[i], existing)
    decreases |directory|
  {
    if i > 0 {
      var dirs := Ancestors(directory);
      var above := Ancestors(Parent(directory));
      assert dirs == [directory] + above;
      NotFoundAnywhere(Parent(directory), existing, i - 1);
      assert dirs[i] == above[i - 1];
    }
  }

  /** When an ancestor has an sdk.mk, one is found. */
  lemma {:induction false} FoundSomewhere(directory: string, existing: set<string>, i: nat)
    requires i < |Ancestors(directory)| && HasSdkMk(Ancestors(directory)[i], existing)
    ensures FindSdkMk(directory, existing).Some?
    decreases |directory|
  {
    if i > 0 && !HasSdkMk(directory, existing) {
      var dirs := Ancestors(directory);
      var above := Ancestors(Parent(directory));
      assert dirs == [directory] + above;
      assert dirs[i] == above[i - 1];
      FoundSomewhere(Parent(directory), existing, i - 1);
    }
  }

  /** The sdk.mk found is that of the `i`-th ancestor, and none nearer has one. */
  predicate FoundAt(directory: string, existing: set<string>, i: nat)
    requires i < |Ancestors(directory)|
  {
    && FindSdkMk(directory, existing) == Some(Resolve(Ancestors(directory)[i], SdkMkName))
    && forall j :: 0 <= j < i ==> !HasSdkMk(Ancestors(directory)[j], existing)
  }

  /** The sdk.mk found is that of the first ancestor having one. */
  lemma {:induction false} FindSdkMkNearest(directory: string, existing: set<string>)
    requires FindSdkMk(directory, existing).Some?
    ensures exists i :: 0 <= i < |Ancestors(directory)| && FoundAt(directory, existing, i)
    decreases |directory|
  {
    var dirs := Ancestors(directory);
    if HasSdkMk(directory, existing) {
      assert dirs[0] == directory;
      assert FoundAt(directory, existing, 0);
    } else {
      var above := Ancestors(Parent(directory));
      FindSdkMkNearest(Parent(directory), existing);
      assert dirs == [directory] + above;
      var i :| 0 <= i < |above| && FoundAt(Parent(directory), existing, i);
      assert dirs[i + 1] == above[i];
      forall j | 0 <= j < i + 1 ensures !HasSdkMk(dirs[j], existing) {
        if j > 0 {
          assert dirs[j] == above[j - 1];
        }
      }
      assert FoundAt(directory, existing, i + 1);
    }
  }

  /** Paths.get(p).toAbsolutePath(): a relative path is taken from the working directory. */
  function AbsolutePath(workingDirectory: string, p: string): string {
    Resolve(workingDirectory, p)
  }
}
