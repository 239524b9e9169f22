/**
 * The earlier snapshot of the Make tool: the same command line and sdk.mk,
 * no a2 output, only the "bundle" action, and every jar written flat in the
 * build base of the layer, named after the bundle's last path component.
 */
module LegacyMake {
  import opened Wrappers
  import opened JavaText
  import opened FileTree
  import opened Headers
  import opened CommandLine
  import opened SdkMk
  import Make

  /** The directories the earlier Make instance works with. */
  datatype LegacyLayout = LegacyLayout(
    execDirectory: string,
    sdkSrcBase: string,
    argeoBuildBase: string,
    sdkBuildBase: string,
    buildBase: string)

  /** The constructor: sdk.mk must exist, then SDK_SRC_BASE, then SDK_BUILD_BASE must be set in it. */
  function NewLegacyLayout(execDirectory: string, texts: map<string, seq<string>>): (r: Result<LegacyLayout, Failure>)
    ensures Make.SdkMkLines(execDirectory, texts).None? ==>
      r == Failure(NullPointer("No " + SdkMkName + " found under " + execDirectory))
    ensures Make.SdkMkLines(execDirectory, texts).Some? ==>
      var context := Context(Make.SdkMkLines(execDirectory, texts).value);
      && (SdkSrcBase !in context ==> r == Failure(IllegalState(SdkSrcBase + " not found")))
      && (SdkSrcBase in context && SdkBuildBase !in context ==> r == Failure(IllegalState(SdkBuildBase + " not found")))
      && (SdkSrcBase in context && SdkBuildBase in context ==>
            (&& r.Success?
             && r.value.sdkSrcBase == AbsolutePath(execDirectory, context[SdkSrcBase])
             && r.value.sdkBuildBase == AbsolutePath(execDirectory, context[SdkBuildBase])))
  {
    match Make.SdkMkLines(execDirectory, texts)
    case None => Failure(NullPointer("No " + SdkMkName + " found under " + execDirectory))
    case Some(lines) =>
      var context := Context(lines);
      match Required(context, SdkSrcBase)
      case Failure(e) => Failure(e)
      case Success(src) =>
        match Required(context, SdkBuildBase)
        case Failure(e) => Failure(e)
        case Success(build) =>
          var sdkSrcBase := AbsolutePath(execDirectory, src);
          var sdkBuildBase := AbsolutePath(execDirectory, build);
          Success(LegacyLayout(
            execDirectory,
            sdkSrcBase,
            Resolve(sdkSrcBase, "sdk/argeo-build"),
            sdkBuildBase,
            Resolve(sdkBuildBase, FileName(sdkSrcBase))))
  }

  /** Both snapshots lay out the same directories from the same sdk.mk. */
  lemma SameLayout(execDirectory: string, texts: map<string, seq<string>>)
    ensures NewLegacyLayout(execDirectory, texts).Success? <==> Make.NewLayout(execDirectory, texts).Success?
    ensures NewLegacyLayout(execDirectory, texts).Failure? ==>
      NewLegacyLayout(execDirectory, texts).error == Make.NewLayout(execDirectory, texts).error
    ensures NewLegacyLayout(execDirectory, texts).Success? ==>
      var legacy := NewLegacyLayout(execDirectory, texts).value;
      var current := Make.NewLayout(execDirectory, texts).value;
      && legacy.sdkSrcBase == current.sdkSrcBase
      && legacy.argeoBuildBase == current.argeoBuildBase
      && legacy.sdkBuildBase == current.sdkBuildBase
      && legacy.buildBase == current.buildBase
  {
  }

  /** main's switch: "bundle" is the only action. */
  function LegacyActionOf(name: string): (r: Result<(), Failure>)
    ensures r.Success? <==> name == "bundle"
    ensures r.Failure? ==> r.error == IllegalArgument("Unkown action: " + name)
  {
    if name == "bundle" then Success(()) else Failure(IllegalArgument("Unkown action: " + name))
  }

  /** bundle's check: the bundles must be given (an empty list packages nothing). */
  function LegacyBundles(options: Options): (r: Result<seq<string>, Failure>)
    ensures r.Failure? <==> "--bundles" !in options
    ensures r.Failure? ==> r.error == NullPointer(Make.BundlesRequired)
    ensures r.Success? ==> r.value == options["--bundles"]
  {
    if "--bundles" !in options then Failure(NullPointer(Make.BundlesRequired)) else Success(options["--bundles"])
  }

  /** The jar of a bundle: in the build base, named after the compiled directory. */
  function LegacyJarPath(layout: LegacyLayout, bundle: string): string {
    Resolve(layout.buildBase, FileName(Resolve(layout.buildBase, bundle)) + ".jar")
  }

  /**
   * createBundle up to the jar: argeo.bnd, the branch's unstable.bnd and
   * the bundle's bnd.bnd (under the source tree) must exist.
   */
  function LegacyBundleJar(layout: LegacyLayout, bundle: string, bndFiles: map<string, Properties>): (r: Result<string, Failure>)
    ensures r.Success? <==>
      && Resolve(layout.argeoBuildBase, "argeo.bnd") in bndFiles
      && Resolve(layout.sdkSrcBase, "cnf/unstable.bnd") in bndFiles
      && Resolve(Resolve(layout.sdkSrcBase, bundle), "bnd.bnd") in bndFiles
    ensures r.Success? ==> r.value == LegacyJarPath(layout, bundle)
  {
    var argeoBnd := Resolve(layout.argeoBuildBase, "argeo.bnd");
    var branchBnd := Resolve(layout.sdkSrcBase, "cnf/unstable.bnd");
    var bundleBnd := Resolve(Resolve(layout.sdkSrcBase, bundle), "bnd.bnd");
    if argeoBnd !in bndFiles then Failure(FileNotFound(argeoBnd))
    else if branchBnd !in bndFiles then Failure(FileNotFound(branchBnd))
    else if bundleBnd !in bndFiles then Failure(FileNotFound(bundleBnd))
    else Success(LegacyJarPath(layout, bundle))
  }

  /** Every jar lies directly in the build base, named after the bundle's last component. */
  lemma LegacyJarPlacement(layout: LegacyLayout, group: string, name: string)
    requires name != "" && '/' !in name
    requires group != "" && group[0] != '/'
    ensures var jar := LegacyJarPath(layout, group + "/" + name);
      Parent(jar) == layout.buildBase && FileName(jar) == name + ".jar"
  {
    var bundle := group + "/" + name;
    assert !StartsWith(bundle, "/") by { assert bundle[0] == group[0]; }
    assert !StartsWith(name, "/") by { assert name[0] != '/'; }
    assert Resolve(layout.buildBase, bundle) == Resolve(layout.buildBase + "/" + group, name);
    ResolveComponents(layout.buildBase + "/" + group, name);
    ResolveComponents(layout.buildBase, name + ".jar");
  }

  /** A top-level bundle's jar lies directly in the build base too, named after the bundle. */
  lemma LegacyJarTopLevel(layout: LegacyLayout, name: string)
    requires name != "" && '/' !in name
    ensures var jar := LegacyJarPath(layout, name);
      Parent(jar) == layout.buildBase && FileName(jar) == name + ".jar"
  {
    assert !StartsWith(name, "/") by { assert name[0] != '/'; }
    ResolveComponents(layout.buildBase, name);
    ResolveComponents(layout.buildBase, name + ".jar");
  }

  /** Two bundles of the same name in different groups are packaged to the same jar. */
  lemma LegacyJarsCollide(layout: LegacyLayout, group1: string, group2: string, name: string)
    requires name != "" && '/' !in name
    requires group1 != "" && group1[0] != '/' && group2 != "" && group2[0] != '/'
    ensures LegacyJarPath(layout, group1 + "/" + name) == LegacyJarPath(layout, group2 + "/" + name)
  {
    LegacyJarPlacement(layout, group1, name);
    LegacyJarPlacement(layout, group2, name);
  }

  /** The outcome of each bundle, in order. */
  function LegacyResults(layout: LegacyLayout, bundles: seq<string>, bndFiles: map<string, Properties>): (r: seq<Result<string, Failure>>)
    ensures |r| == |bundles|
  {
    seq(|bundles|, i requires 0 <= i < |bundles| => LegacyBundleJar(layout, bundles[i], bndFiles))
  }

  /** createBundle, up to the jar path (the manifest and the jar's content are not modelled). */
  method LegacyCreateBundle(layout: LegacyLayout, bundle: string, bndFiles: map<string, Properties>)
    returns (r: Result<string, Failure>)
    ensures r == LegacyBundleJar(layout, bundle, bndFiles)
  {
    var source := Resolve(layout.sdkSrcBase, bundle);
    var compiled := Resolve(layout.buildBase, bundle);
    var argeoBnd := Resolve(layout.argeoBuildBase, "argeo.bnd");
    if argeoBnd !in bndFiles {
      return Failure(FileNotFound(argeoBnd));
    }
    var branchBnd := Resolve(layout.sdkSrcBase, "cnf/unstable.bnd");
    if branchBnd !in bndFiles {
      return Failure(FileNotFound(branchBnd));
    }
    var bndBnd := Resolve(source, "bnd.bnd");
    if bndBnd !in bndFiles {
      return Failure(FileNotFound(bndBnd));
    }
    var jar := Resolve(layout.buildBase, FileName(compiled) + ".jar");
    r := Success(jar);
  }

  /** The bundles loop: createBundle for each bundle in turn, stopping at the first failure. */
  method LegacyCreateBundles(layout: LegacyLayout, bundles: seq<string>, bndFiles: map<string, Properties>)
    returns (r: Result<seq<string>, Failure>)
    ensures r == Make.Collect(LegacyResults(layout, bundles, bndFiles))
  {
    ghost var results := LegacyResults(layout, bundles, bndFiles);
    var jars: seq<string> := [];
    var i := 0;
    Make.CollectFrom(results, 0, []);
    while i < |bundles|
      invariant 0 <= i <= |bundles|
      invariant Make.Collect(results) == Make.Prepend(jars, Make.Collect(results[i..]))
    {
      var jar := LegacyCreateBundle(layout, bundles[i], bndFiles);
      assert jar == results[i];
      Make.CollectFrom(results, i, jars);
      if jar.Failure? {
        return Failure(jar.error);
      }
      jars := jars + [jar.value];
      i := i + 1;
    }
    Make.CollectFrom(results, i, jars);
    r := Success(jars);
  }

  /** The bundle action: the --bundles check, then the bundles loop. */
  method LegacyBundle(layout: LegacyLayout, options: Options, bndFiles: map<string, Properties>)
    returns (r: Result<seq<string>, Failure>)
    ensures LegacyBundles(options).Failure? ==> r == Failure(NullPointer(Make.BundlesRequired))
    ensures LegacyBundles(options).Success? ==> r == Make.Collect(LegacyResults(layout, options["--bundles"], bndFiles))
    ensures r == LegacyBundleJars(layout, options, bndFiles)
  {
    if "--bundles" !in options {
      return Failure(NullPointer(Make.BundlesRequired));
    }
    r := LegacyCreateBundles(layout, options["--bundles"], bndFiles);
  }

  /** The bundle action as a value. */
  function LegacyBundleJars(layout: LegacyLayout, options: Options, bndFiles: map<string, Properties>): (r: Result<seq<string>, Failure>)
    ensures "--bundles" !in options ==> r == Failure(NullPointer(Make.BundlesRequired))
    ensures "--bundles" in options ==> r == Make.Collect(LegacyResults(layout, options["--bundles"], bndFiles))
  {
    match LegacyBundles(options)
    case Failure(e) => Failure(e)
    case Success(bundles) => Make.Collect(LegacyResults(layout, bundles, bndFiles))
  }

  /** main: the command line, then the Make instance, then the action; exceptions propagate. */
  function LegacyRun(args: seq<string>, execDirectory: string, texts: map<string, seq<string>>, bndFiles: map<string, Properties>): (r: Result<seq<string>, Failure>)
    ensures r.Success? ==>
      && CommandLineOf(args).Success? && NewLegacyLayout(execDirectory, texts).Success?
      && args[0] == "bundle" && "--bundles" in CommandLineOf(args).value.options
      && r == LegacyBundleJars(NewLegacyLayout(execDirectory, texts).value, CommandLineOf(args).value.options, bndFiles)
  {
    match CommandLineOf(args)
    case Failure(e) => Failure(e)
    case Success(invocation) =>
      match NewLegacyLayout(execDirectory, texts)
      case Failure(e) => Failure(e)
      case Success(layout) =>
        match LegacyActionOf(invocation.action)
        case Failure(e) => Failure(e)
        case Success(_) => LegacyBundleJars(layout, invocation.options, bndFiles)
  }

  /**
   * The actions the current snapshot added ("compile" and "all") are
   * refused by the earlier one once sdk.mk is usable, and a bundle run
   * without --bundles fails in both with the same message.
   */
  lemma LegacyRefusesNewActions(args: seq<string>, execDirectory: string, texts: map<string, seq<string>>, bndFiles: map<string, Properties>)
    requires CommandLineOf(args).Success? && NewLegacyLayout(execDirectory, texts).Success?
    ensures args[0] == "compile" || args[0] == "all" ==>
      LegacyRun(args, execDirectory, texts, bndFiles) == Failure(IllegalArgument("Unkown action: " + args[0]))
    ensures args[0] == "bundle" && "--bundles" !in CommandLineOf(args).value.options ==>
      && LegacyRun(args, execDirectory, texts, bndFiles) == Failure(NullPointer(Make.BundlesRequired))
      && Make.Run(args, execDirectory, texts, bndFiles) == Failure(NullPointer(Make.BundlesRequired))
  {
    SameLayout(execDirectory, texts);
  }
}
