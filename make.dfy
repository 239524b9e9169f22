/**
 * The Make tool (current snapshot): it finds sdk.mk to lay out the source
 * and build directories, reads an action and its options from the command
 * line, and for the "bundle" action computes, for each bundle, the jar it
 * writes under the a2 output. Compilation itself (ECJ), BND's manifest
 * computation and the writing of the jars are not modelled; the checks that
 * guard them and the paths they use are.
 */
module Make {
  import opened Wrappers
  import opened JavaText
  import opened FileTree
  import opened Headers
  import opened CommandLine
  import opened SdkMk

  /** The directories a Make instance works with. */
  datatype Layout = Layout(
    execDirectory: string,
    sdkSrcBase: string,
    argeoBuildBase: string,
    sdkBuildBase: string,
    buildBase: string,
    a2Output: string)

  /** The sdk.mk read from `texts` (each existing text file with its lines), looked up from `execDirectory`. */
  function SdkMkLines(execDirectory: string, texts: map<string, seq<string>>): (r: Option<seq<string>>)
    ensures r.Some? <==> FindSdkMk(execDirectory, texts.Keys).Some?
  {
    match FindSdkMk(execDirectory, texts.Keys)
    case None => None
    case Some(path) => Some(texts[path])
  }

  /**
   * The Make constructor: sdk.mk must exist, then SDK_SRC_BASE, then
   * SDK_BUILD_BASE must be set in it; the build base of this layer is named
   * after the source tree, and the a2 output is shared by all layers.
   */
  function NewLayout(execDirectory: string, texts: map<string, seq<string>>): (r: Result<Layout, Failure>)
    ensures SdkMkLines(execDirectory, texts).None? ==>
      r == Failure(NullPointer("No " + SdkMkName + " found under " + execDirectory))
    ensures SdkMkLines(execDirectory, texts).Some? ==>
      var context := Context(SdkMkLines(execDirectory, texts).value);
      && (SdkSrcBase !in context ==> r == Failure(IllegalState(SdkSrcBase + " not found")))
      && (SdkSrcBase in context && SdkBuildBase !in context ==> r == Failure(IllegalState(SdkBuildBase + " not found")))
      && (SdkSrcBase in context && SdkBuildBase in context ==>
            (&& r.Success?
             && r.value.execDirectory == execDirectory
             && r.value.sdkSrcBase == AbsolutePath(execDirectory, context[SdkSrcBase])
             && r.value.sdkBuildBase == AbsolutePath(execDirectory, context[SdkBuildBase])))
  {
    match SdkMkLines(execDirectory, texts)
    case None => Failure(NullPointer("No " + SdkMkName + " found under " + execDirectory))
    case Some(lines) =>
      var context := Context(lines);
      match Required(context, SdkSrcBase)
      case Failure(e) => Failure(e)
      case Success(src) =>
        match Required(context, SdkBuildBase)
        case Failure(e) => Failure(e)
        case Success(build) =>
          var sdkSrcBase := AbsolutePath(execDirectory, src);
          var sdkBuildBase := AbsolutePath(execDirectory, build);
          Success(Layout(
            execDirectory,
            sdkSrcBase,
            Resolve(sdkSrcBase, "sdk/argeo-build"),
            sdkBuildBase,
            Resolve(sdkBuildBase, FileName(sdkSrcBase)),
            Resolve(sdkBuildBase, "a2")))
  }

  /**
   * The base directories come from the last lines of sdk.mk setting them, and
   * the build base of the layer and the a2 output are sibling directories
   * right under the build base of the SDK, the former named as the source tree.
   */
  lemma LayoutFromSdkMk(execDirectory: string, texts: map<string, seq<string>>, i: nat, j: nat)
    requires SdkMkLines(execDirectory, texts).Some?
    requires var lines := SdkMkLines(execDirectory, texts).value;
      && i < |lines| && Sets(lines[i], SdkSrcBase) && (forall k :: i < k < |lines| ==> !Sets(lines[k], SdkSrcBase))
      && j < |lines| && Sets(lines[j], SdkBuildBase) && (forall k :: j < k < |lines| ==> !Sets(lines[k], SdkBuildBase))
    ensures var lines := SdkMkLines(execDirectory, texts).value;
      var r := NewLayout(execDirectory, texts);
      && r.Success?
      && r.value.sdkSrcBase == AbsolutePath(execDirectory, Assignment(lines[i]).value.1)
      && r.value.sdkBuildBase == AbsolutePath(execDirectory, Assignment(lines[j]).value.1)
      && (FileName(r.value.sdkSrcBase) != "" ==>
            && Parent(r.value.buildBase) == r.value.sdkBuildBase
            && FileName(r.value.buildBase) == FileName(r.value.sdkSrcBase))
      && Parent(r.value.a2Output) == r.value.sdkBuildBase
      && FileName(r.value.a2Output) == "a2"
  {
    var lines := SdkMkLines(execDirectory, texts).value;
    ContextLastWins(lines, SdkSrcBase);
    ContextLastWins(lines, SdkBuildBase);
    var layout := NewLayout(execDirectory, texts).value;
    if FileName(layout.sdkSrcBase) != "" {
      ResolveComponents(layout.sdkBuildBase, FileName(layout.sdkSrcBase));
    }
    ResolveComponents(layout.sdkBuildBase, "a2");
  }

  /** The actions of the current snapshot. */
  datatype Action = Compile | Bundle | All

  /** main's switch on the action name. */
  function ActionOf(name: string): (r: Result<Action, Failure>)
    ensures r.Success? <==> name == "compile" || name == "bundle" || name == "all"
    ensures r.Failure? ==> r.error == IllegalArgument("Unkown action: " + name)
    ensures name == "bundle" ==> r == Success(Bundle)
  {
    if name == "compile" then Success(Compile)
    else if name == "bundle" then Success(Bundle)
    else if name == "all" then Success(All)
    else Failure(IllegalArgument("Unkown action: " + name))
  }

  const BundlesRequired: string := "--bundles argument must be set"
  const OneCategory: string := "One and only one category must be specified"
  /** The message of the NullPointerException raised by categories.size() on a null list. */
  const NullCategories: string := "Cannot invoke \"java.util.List.size()\" because \"categories\" is null"
  const CategoryRequired: string := "--category argument must be set"

  /** compile's checks: the bundles to compile, none meaning nothing to do. */
  function CompileBundles(options: Options): (r: Result<seq<string>, Failure>)
    ensures r.Failure? <==> "--bundles" !in options
    ensures r.Failure? ==> r.error == NullPointer(BundlesRequired)
    ensures r.Success? ==> r.value == options["--bundles"]
  {
    if "--bundles" !in options then Failure(NullPointer(BundlesRequired)) else Success(options["--bundles"])
  }

  /** What the bundle action packages: the bundles, and the one category their jars go to. */
  datatype BundleRequest = BundleRequest(bundles: seq<string>, category: string)

  /**
   * bundle's checks as written: the second null check tests the bundles
   * again, so a missing --category ends in a NullPointerException on the
   * null list rather than in the intended message.
   */
  function BundleArgumentsAsWritten(options: Options): (r: Result<Option<BundleRequest>, Failure>)
    ensures "--bundles" !in options ==> r == Failure(NullPointer(BundlesRequired))
  {
    if "--bundles" !in options then Failure(NullPointer(BundlesRequired))
    else if options["--bundles"] == [] then Success(None)
    else if "--category" !in options then Failure(NullPointer(NullCategories))
    else if |options["--category"]| != 1 then Failure(IllegalArgument(OneCategory))
    else Success(Some(BundleRequest(options["--bundles"], options["--category"][0])))
  }

  /** bundle's checks as intended: the second null check tests the categories. */
  function BundleArguments(options: Options): (r: Result<Option<BundleRequest>, Failure>)
    ensures "--bundles" !in options ==> r == Failure(NullPointer(BundlesRequired))
    ensures "--bundles" in options && options["--bundles"] == [] ==> r == Success(None)
    ensures "--bundles" in options && options["--bundles"] != [] ==>
      && ("--category" !in options ==> r == Failure(NullPointer(CategoryRequired)))
      && ("--category" in options && |options["--category"]| != 1 ==> r == Failure(IllegalArgument(OneCategory)))
      && ("--category" in options && |options["--category"]| == 1 ==>
            r == Success(Some(BundleRequest(options["--bundles"], options["--category"][0]))))
  {
    if "--bundles" !in options then Failure(NullPointer(BundlesRequired))
    else if options["--bundles"] == [] then Success(None)
    else if "--category" !in options then Failure(NullPointer(CategoryRequired))
    else if |options["--category"]| != 1 then Failure(IllegalArgument(OneCategory))
    else Success(Some(BundleRequest(options["--bundles"], options["--category"][0])))
  }

  /** As written, bundles without a category fail on the null list, never with the argument's message. */
  lemma MissingCategoryAsWritten(options: Options)
    requires "--bundles" in options && options["--bundles"] != [] && "--category" !in options
    ensures BundleArgumentsAsWritten(options) == Failure(NullPointer(NullCategories))
    ensures BundleArgumentsAsWritten(options) != BundleArguments(options)
  {
  }

  /** The two versions of the checks differ only when the category is missing. */
  lemma BundleArgumentsAgree(options: Options)
    requires "--category" in options || "--bundles" !in options || options["--bundles"] == []
    ensures BundleArgumentsAsWritten(options) == BundleArguments(options)
  {
  }

  /** The descriptor files of a bundle, loaded in this order, the later overriding. */
  function ArgeoBnd(layout: Layout): string { Resolve(layout.argeoBuildBase, "argeo.bnd") }
  function BranchBnd(layout: Layout): string { Resolve(layout.sdkSrcBase, "cnf/unstable.bnd") }
  function BundleBnd(layout: Layout, bundle: string): string { Resolve(Resolve(layout.execDirectory, bundle), "bnd.bnd") }

  /**
   * createBundle's properties: argeo.bnd, then the branch's unstable.bnd,
   * then the bundle's bnd.bnd (a missing one raises NoSuchFileException),
   * then the symbolic name forced to the bundle's directory name.
   */
  function BundleProperties(layout: Layout, bundle: string, bndFiles: map<string, Properties>): (r: Result<Properties, Failure>)
    ensures r.Success? <==> ArgeoBnd(layout) in bndFiles && BranchBnd(layout) in bndFiles && BundleBnd(layout, bundle) in bndFiles
    ensures ArgeoBnd(layout) !in bndFiles ==> r == Failure(FileNotFound(ArgeoBnd(layout)))
    ensures ArgeoBnd(layout) in bndFiles && BranchBnd(layout) !in bndFiles ==> r == Failure(FileNotFound(BranchBnd(layout)))
    ensures r.Success? ==> Property(r.value, BundleSymbolicName) == Some(FileName(Resolve(layout.execDirectory, bundle)))
  {
    if ArgeoBnd(layout) !in bndFiles then Failure(FileNotFound(ArgeoBnd(layout)))
    else if BranchBnd(layout) !in bndFiles then Failure(FileNotFound(BranchBnd(layout)))
    else if BundleBnd(layout, bundle) !in bndFiles then Failure(FileNotFound(BundleBnd(layout, bundle)))
    else
      var loaded := bndFiles[ArgeoBnd(layout)] + bndFiles[BranchBnd(layout)] + bndFiles[BundleBnd(layout, bundle)];
      Success(loaded[BundleSymbolicName := FileName(Resolve(layout.execDirectory, bundle))])
  }

  /**
   * Any other property comes from the bundle's own bnd.bnd if set there,
   * else from the branch's, else from argeo.bnd.
   */
  lemma BundlePropertiesPrecedence(layout: Layout, bundle: string, bndFiles: map<string, Properties>, key: string)
    requires BundleProperties(layout, bundle, bndFiles).Success? && key != BundleSymbolicName
    ensures var own := bndFiles[BundleBnd(layout, bundle)];
      var branch := bndFiles[BranchBnd(layout)];
      var common := bndFiles[ArgeoBnd(layout)];
      Property(BundleProperties(layout, bundle, bndFiles).value, key) ==
        if key in own then Some(own[key])
        else if key in branch then Some(branch[key])
        else Property(common, key)
  {
  }

  /** The a2 directory a bundle's jar goes to: under its parent directory, if any, then under the category. */
  function JarDirectory(layout: Layout, bundle: string, category: string): string {
    var bundleParent := Parent(bundle);
    if bundleParent != "" then Resolve(Resolve(layout.a2Output, bundleParent), category)
    else Resolve(layout.a2Output, category)
  }

  /**
   * The jar of a bundle: MAJOR then MINOR must be set, and the jar is named
   * after the compiled directory with the major and minor versions.
   */
  function JarPath(layout: Layout, bundle: string, category: string, props: Properties): (r: Result<string, Failure>)
    ensures "MAJOR" !in props ==> r == Failure(NullPointer("MAJOR must be set"))
    ensures "MAJOR" in props && "MINOR" !in props ==> r == Failure(NullPointer("MINOR must be set"))
    ensures r.Success? <==> "MAJOR" in props && "MINOR" in props
  {
    match Property(props, "MAJOR")
    case None => Failure(NullPointer("MAJOR must be set"))
    case Some(major) =>
      match Property(props, "MINOR")
      case None => Failure(NullPointer("MINOR must be set"))
      case Some(minor) =>
        var compiled := Resolve(layout.buildBase, bundle);
        Success(Resolve(JarDirectory(layout, bundle, category), FileName(compiled) + "." + major + "." + minor + ".jar"))
  }

  /** The jar's name is the compiled directory's name with the versions, and it lies in the jar directory. */
  lemma JarPathParts(layout: Layout, bundle: string, category: string, props: Properties)
    requires "MAJOR" in props && "MINOR" in props && '/' !in props["MAJOR"] && '/' !in props["MINOR"]
    ensures var name := FileName(Resolve(layout.buildBase, bundle));
      var jar := JarPath(layout, bundle, category, props).value;
      && FileName(jar) == name + "." + props["MAJOR"] + "." + props["MINOR"] + ".jar"
      && Parent(jar) == JarDirectory(layout, bundle, category)
  {
    var jarName := FileName(Resolve(layout.buildBase, bundle)) + "." + props["MAJOR"] + "." + props["MINOR"] + ".jar";
    assert '/' !in jarName;
    assert jarName != "";
    ResolveComponents(JarDirectory(layout, bundle, category), jarName);
  }

  /** A bundle directly under the execution directory is packaged as `<a2 output>/<category>/name.MAJOR.MINOR.jar`. */
  lemma JarPathTopLevel(layout: Layout, name: string, category: string, props: Properties)
    requires name != "" && '/' !in name && !StartsWith(category, "/")
    requires "MAJOR" in props && "MINOR" in props && '/' !in props["MAJOR"] && '/' !in props["MINOR"]
    ensures var jar := JarPath(layout, name, category, props).value;
      && FileName(jar) == name + "." + props["MAJOR"] + "." + props["MINOR"] + ".jar"
      && Parent(jar) == layout.a2Output + "/" + category
  {
    assert Parent(name) == "" by {
      assert forall k :: 0 <= k < |name| ==> name[k] != '/';
    }
    ResolveComponents(layout.buildBase, name);
    JarPathParts(layout, name, category, props);
  }

  /** A bundle at `group/name` is packaged as `<a2 output>/group/<category>/name.MAJOR.MINOR.jar`. */
  lemma JarPathInGroup(layout: Layout, group: string, name: string, category: string, props: Properties)
    requires name != "" && '/' !in name && !StartsWith(category, "/")
    requires group != "" && group[0] != '/'
    requires "MAJOR" in props && "MINOR" in props && '/' !in props["MAJOR"] && '/' !in props["MINOR"]
    ensures var jar := JarPath(layout, group + "/" + name, category, props).value;
      && FileName(jar) == name + "." + props["MAJOR"] + "." + props["MINOR"] + ".jar"
      && Parent(jar) == layout.a2Output + "/" + group + "/" + category
  {
    var bundle := group + "/" + name;
    assert !StartsWith(name, "/") by { assert name[0] != '/'; }
    ResolveComponents(group, name);
    assert !StartsWith(bundle, "/") by { assert bundle[0] == group[0]; }
    assert !StartsWith(group, "/") by { assert group[0] != '/'; }
    assert Resolve(layout.buildBase, bundle) == Resolve(layout.buildBase + "/" + group, name);
    ResolveComponents(layout.buildBase + "/" + group, name);
    JarPathParts(layout, bundle, category, props);
  }

  /** One bundle's jar: its properties, then the path the jar is written to. */
  function BundleJar(layout: Layout, bundle: string, category: string, bndFiles: map<string, Properties>): Result<string, Failure> {
    match BundleProperties(layout, bundle, bndFiles)
    case Failure(e) => Failure(e)
    case Success(props) => JarPath(layout, bundle, category, props)
  }

  /** The outcome of each bundle, in order. */
  function JarResults(layout: Layout, bundles: seq<string>, category: string, bndFiles: map<string, Properties>): (r: seq<Result<string, Failure>>)
    ensures |r| == |bundles|
  {
    seq(|bundles|, i requires 0 <= i < |bundles| => BundleJar(layout, bundles[i], category, bndFiles))
  }

  /** A loop stopping at the first failure: all the values in order, or that failure. */
  function Collect(results: seq<Result<string, Failure>>): Result<seq<string>, Failure>
    decreases |results|
  {
    if results == [] then Success([])
    else
      match results[0]
      case Failure(e) => Failure(e)
      case Success(v) =>
        match Collect(results[1..])
        case Failure(e) => Failure(e)
        case Success(vs) => Success([v] + vs)
  }

  /** The `i`-th result is the first failure, and the loop fails with it. */
  predicate FirstFailure(results: seq<Result<string, Failure>>, i: nat)
    requires i < |results|
  {
    && results[i].Failure?
    && Collect(results) == Failure(results[i].error)
    && forall j :: 0 <= j < i ==> results[j].Success?
  }

  /**
   * The loop succeeds exactly when every step does, with every value in
   * order; otherwise it fails as the first failing step does.
   */
  lemma {:induction false} CollectEach(results: seq<Result<string, Failure>>)
    ensures Collect(results).Success? <==> forall i :: 0 <= i < |results| ==> results[i].Success?
    ensures Collect(results).Success? ==>
      |Collect(results).value| == |results| && forall i :: 0 <= i < |results| ==> Collect(results).value[i] == results[i].value
    ensures Collect(results).Failure? ==> exists i :: 0 <= i < |results| && FirstFailure(results, i)
    decreases |results|
  {
    if results != [] {
      var rest := results[1..];
      CollectEach(rest);
      assert forall i :: 0 < i < |results| ==> results[i] == rest[i - 1];
      if results[0].Failure? {
        assert FirstFailure(results, 0);
      } else if Collect(rest).Failure? {
        var i :| 0 <= i < |rest| && FirstFailure(rest, i);
        assert results[i + 1] == rest[i];
        assert FirstFailure(results, i + 1);
      }
    }
  }

  /** createBundle, up to the jar path (the manifest and the jar's content are not modelled). */
  method CreateBundle(layout: Layout, bundle: string, category: string, bndFiles: map<string, Properties>)
    returns (r: Result<string, Failure>)
    ensures r == BundleJar(layout, bundle, category, bndFiles)
  {
    var props := BundleProperties(layout, bundle, bndFiles);
    if props.Failure? {
      return Failure(props.error);
    }
    r := JarPath(layout, bundle, category, props.value);
  }

  /** The values collected so far before the outcome of the rest of the loop. */
  function Prepend(vs: seq<string>, r: Result<seq<string>, Failure>): Result<seq<string>, Failure> {
    match r
    case Failure(e) => Failure(e)
    case Success(rest) => Success(vs + rest)
  }

  /** The loop from position i, after the values `vs`: one step, or the end. */
  lemma CollectFrom(results: seq<Result<string, Failure>>, i: int, vs: seq<string>)
    requires 0 <= i <= |results|
    ensures i == 0 && vs == [] ==> Prepend(vs, Collect(results[i..])) == Collect(results)
    ensures i == |results| ==> Prepend(vs, Collect(results[i..])) == Success(vs)
    ensures i < |results| && results[i].Failure? ==> Prepend(vs, Collect(results[i..])) == Failure(results[i].error)
    ensures i < |results| && results[i].Success? ==>
      Prepend(vs, Collect(results[i..])) == Prepend(vs + [results[i].value], Collect(results[i + 1..]))
  {
    if i == 0 {
      assert results[i..] == results;
      assert Collect(results).Success? ==> [] + Collect(results).value == Collect(results).value;
    }
    if i == |results| {
      assert results[i..] == [];
      assert vs + [] == vs;
    } else {
      assert results[i..][0] == results[i] && results[i..][1..] == results[i + 1..];
      if results[i].Success? && Collect(results[i + 1..]).Success? {
        var rest := Collect(results[i + 1..]).value;
        assert vs + ([results[i].value] + rest) == (vs + [results[i].value]) + rest;
      }
    }
  }

  /** createBundle for each bundle in turn, stopping at the first failure. */
  method CreateBundles(layout: Layout, bundles: seq<string>, category: string, bndFiles: map<string, Properties>)
    returns (r: Result<seq<string>, Failure>)
    ensures r == Collect(JarResults(layout, bundles, category, bndFiles))
  {
    ghost var results := JarResults(layout, bundles, category, bndFiles);
    var jars: seq<string> := [];
    var i := 0;
    CollectFrom(results, 0, []);
    while i < |bundles|
      invariant 0 <= i <= |bundles|
      invariant Collect(results) == Prepend(jars, Collect(results[i..]))
    {
      var jar := CreateBundle(layout, bundles[i], category, bndFiles);
      assert jar == results[i];
      CollectFrom(results, i, jars);
      if jar.Failure? {
        return Failure(jar.error);
      }
      jars := jars + [jar.value];
      i := i + 1;
    }
    CollectFrom(results, i, jars);
    r := Success(jars);
  }

  /** The bundle action: its checks, then the jars of the bundles (none when the list is empty). */
  method BundleAction(layout: Layout, options: Options, bndFiles: map<string, Properties>) returns (r: Result<seq<string>, Failure>)
    ensures BundleArguments(options).Failure? ==> r == Failure(BundleArguments(options).error)
    ensures BundleArguments(options) == Success(None) ==> r == Success([])
    ensures BundleArguments(options).Success? && BundleArguments(options).value.Some? ==>
      var request := BundleArguments(options).value.value;
      r == Collect(JarResults(layout, request.bundles, request.category, bndFiles))
    ensures r == BundleJars(layout, options, bndFiles)
  {
    match BundleArguments(options)
    case Failure(e) => r := Failure(e);
    case Success(None) => r := Success([]);
    case Success(Some(request)) => r := CreateBundles(layout, request.bundles, request.category, bndFiles);
  }

  /** The jars of the bundle action: its checks, then nothing for an empty list, then the bundles' jars. */
  function BundleJars(layout: Layout, options: Options, bndFiles: map<string, Properties>): Result<seq<string>, Failure> {
    match BundleArguments(options)
    case Failure(e) => Failure(e)
    case Success(None) => Success([])
    case Success(Some(request)) => Collect(JarResults(layout, request.bundles, request.category, bndFiles))
  }

  /**
   * The jars an action writes, compilation aside: compile writes none and
   * needs --bundles; all needs --bundles and then writes what bundle writes.
   */
  function ActionJars(action: Action, layout: Layout, options: Options, bndFiles: map<string, Properties>): (r: Result<seq<string>, Failure>)
    ensures action == Compile ==> (r.Success? <==> "--bundles" in options)
    ensures action == Compile && r.Success? ==> r.value == []
    ensures action != Bundle && "--bundles" !in options ==> r == Failure(NullPointer(BundlesRequired))
    ensures action == Bundle || (action == All && "--bundles" in options) ==> r == BundleJars(layout, options, bndFiles)
  {
    match action
    case Compile => (match CompileBundles(options) case Failure(e) => Failure(e) case Success(_) => Success([]))
    case Bundle => BundleJars(layout, options, bndFiles)
    case All => (match CompileBundles(options) case Failure(e) => Failure(e) case Success(_) => BundleJars(layout, options, bndFiles))
  }

  /**
   * main: the command line first, then the Make instance (sdk.mk), then the
   * action; any exception ends the run with exit status 1.
   */
  function Run(args: seq<string>, execDirectory: string, texts: map<string, seq<string>>, bndFiles: map<string, Properties>): (r: Result<seq<string>, Failure>)
    ensures r.Success? ==>
      && CommandLineOf(args).Success? && NewLayout(execDirectory, texts).Success?
      && (args[0] == "compile" || args[0] == "bundle" || args[0] == "all")
      && r == ActionJars(ActionOf(args[0]).value, NewLayout(execDirectory, texts).value, CommandLineOf(args).value.options, bndFiles)
  {
    match CommandLineOf(args)
    case Failure(e) => Failure(e)
    case Success(invocation) =>
      match NewLayout(execDirectory, texts)
      case Failure(e) => Failure(e)
      case Success(layout) =>
        match ActionOf(invocation.action)
        case Failure(e) => Failure(e)
        case Success(action) => ActionJars(action, layout, invocation.options, bndFiles)
  }

  /**
   * A bad command line fails before sdk.mk is looked for, and a missing or
   * incomplete sdk.mk fails before the action is even checked.
   */
  lemma RunChecksInOrder(args: seq<string>, execDirectory: string, texts: map<string, seq<string>>, bndFiles: map<string, Properties>)
    ensures CommandLineOf(args).Failure? ==> Run(args, execDirectory, texts, bndFiles) == Failure(CommandLineOf(args).error)
    ensures CommandLineOf(args).Success? && NewLayout(execDirectory, texts).Failure? ==>
      Run(args, execDirectory, texts, bndFiles) == Failure(NewLayout(execDirectory, texts).error)
    ensures CommandLineOf(args).Success? && NewLayout(execDirectory, texts).Success? && ActionOf(args[0]).Failure? ==>
      Run(args, execDirectory, texts, bndFiles) == Failure(IllegalArgument("Unkown action: " + args[0]))
  {
  }

  /** "bundle" followed only by an empty --bundles writes nothing once sdk.mk is usable. */
  lemma EmptyBundlesDoNothing(execDirectory: string, texts: map<string, seq<string>>, bndFiles: map<string, Properties>)
    requires NewLayout(execDirectory, texts).Success?
    ensures Run(["bundle", "--bundles"], execDirectory, texts, bndFiles) == Success([])
  {
    var args := ["bundle", "--bundles"];
    OptionValues(args, "--bundles");
    assert "--bundles" in args[1..];
    assert IsOption("--bundles");
  }
}
