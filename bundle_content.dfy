/**
 * The content part of processBundleJar: the entries of one binary jar copied
 * into its bundle directory, minus what is stripped, with the native libraries
 * of bundles under the A2 lib base hoisted to the category directory.
 */
module BundleContent {
  import opened Wrappers
  import opened JavaText
  import opened FileTree
  import opened Provenance
  import opened Merge

  /** Where and how one bundle jar is unpacked. */
  datatype Unpacking = Unpacking(
    bundleDir: string,
    name: string,               // the bundle symbolic name
    doNotModify: bool,          // Argeo-Origin-Do-Not-Modify
    platform: Option<Platform>) // os and arch for a bundle under the A2 lib base

  datatype Platform = Platform(os: string, arch: string)

  /**
   * The os and arch of a native bundle: the first two components of its path
   * relative to the lib base; a bundle outside the lib base is not native, and
   * a native one with fewer than two components makes getName fail.
   */
  function NativePlatform(libBase: string, bundleDir: string): (r: Option<Result<Platform, Failure>>)
    ensures r.None? <==> !StartsWith(bundleDir, libBase + "/")
  {
    if !StartsWith(bundleDir, libBase + "/") then None
    else
      var components := Split(bundleDir[|libBase| + 1..], '/');
      if |components| < 2 then Some(Failure(IllegalArgument("getName(1) of " + bundleDir)))
      else Some(Success(Platform(components[0], components[1])))
  }

  lemma NativePlatformOf(libBase: string, os: string, arch: string, rest: string)
    requires '/' !in os && '/' !in arch && arch != ""
    requires rest == [] || rest[0] == '/'
    ensures NativePlatform(libBase, libBase + "/" + os + "/" + arch + rest) == Some(Success(Platform(os, arch)))
  {
    var dir := libBase + "/" + os + "/" + arch + rest;
    assert dir[..|libBase + "/"|] == libBase + "/";
    assert dir[|libBase| + 1..] == os + ['/'] + arch + rest;
    SplitFirstTwo(os, '/', arch, rest);
  }

  /** JNA names its platform directories "darwin" and "x86-64". */
  function JnaPlatform(p: Platform): (r: Platform)
    ensures r.os == (if p.os == "macosx" then "darwin" else p.os)
    ensures r.arch == (if p.arch == "x86_64" then "x86-64" else p.arch)
  {
    Platform(if p.os == "macosx" then "darwin" else p.os, if p.arch == "x86_64" then "x86-64" else p.arch)
  }

  /** The rewrite of the JNA platform, kept across entries, changes nothing the second time. */
  lemma JnaPlatformIdempotent(p: Platform)
    ensures JnaPlatform(JnaPlatform(p)) == JnaPlatform(p)
    ensures JnaPlatform(p).os != "macosx" && JnaPlatform(p).arch != "x86_64"
  {
  }

  predicate IsNativeLibrary(name: string) {
    EndsWith(name, ".so") || EndsWith(name, ".dll") || EndsWith(name, ".jnilib") || EndsWith(name, ".a")
  }

  /** Why processBundleJar strips an entry of a bundle it may modify, if it does. */
  function StripReason(name: string): Option<string> {
    if IsSignature(name) then Some("cryptographic signatures")
    else if EndsWith(name, "module-info.class") then Some("Java module information (module-info.class)")
    else if StartsWith(name, "META-INF/versions/") then Some("additional Java versions (META-INF/versions)")
    else if StartsWith(name, "META-INF/maven/") then Some("Maven information (META-INF/maven)")
    else if StartsWith(name, "META-INF/services/java.nio.file.spi.FileSystemProvider") then
      Some("file system providers (META-INF/services/java.nio.file.spi.FileSystemProvider)")
    else None
  }

  /** The deleted message for an entry that is not unpacked, if it is not. */
  function SkipReason(u: Unpacking, name: string): (r: Option<string>)
    ensures StartsWith(name, "OSGI-OPT/src/") ==> r.Some?
    ensures u.doNotModify ==> (r.Some? <==> StartsWith(name, "OSGI-OPT/src/"))
  {
    if !u.doNotModify && StripReason(name).Some? then StripReason(name)
    else if StartsWith(name, "OSGI-OPT/src/") then Some("embedded sources")
    else None
  }

  /**
   * Where a native library goes in the category directory, if it is copied:
   * JNA keeps only the library of the bundle's own platform directory and
   * flattens it; any other bundle keeps its relative path.
   */
  function HoistTarget(u: Unpacking, p: Platform, target: string): Option<string> {
    var categoryDir := Parent(u.bundleDir);
    if u.name == "com.sun.jna" then
      var jna := JnaPlatform(p);
      if FileName(Parent(target)) == jna.os + "-" + jna.arch then Some(Resolve(categoryDir, FileName(target))) else None
    else Some(Resolve(categoryDir, Relativize(u.bundleDir, target)))
  }

  /** The tree once the file at `target` is copied to `copy`, if anywhere, and removed. */
  function Hoisted(files: Files, target: string, copy: Option<string>): Files
    requires target in files
  {
    var copied := if copy.Some? then files[copy.value := files[target]] else files;
    copied - {target}
  }

  /** Only the target leaves the tree, and only the copy can appear or change, with the target's content. */
  lemma HoistedFiles(files: Files, target: string, copy: Option<string>)
    requires target in files
    ensures var r := Hoisted(files, target, copy);
      && target !in r
      && (forall p :: p != target ==> (p in r <==> p in files || copy == Some(p)))
      && (forall p :: p in r ==> r[p] == if copy == Some(p) then files[target] else files[p])
      && (copy.None? ==> r == files - {target})
  {
  }

  /** One entry of the jar. */
  function UnpackEntry(w: Work, u: Unpacking, e: Entry): (o: Outcome)
  {
    var target := Resolve(u.bundleDir, e.name);
    if e.isDirectory then Outcome(w, None)
    else if SkipReason(u, e.name).Some? then Outcome(w.(changes := w.changes.Deleted(SkipReason(u, e.name).value)), None)
    else if target in w.files then Outcome(w, Some(FileAlreadyExists(target)))
    else if u.platform.Some? && IsNativeLibrary(e.name) then
      Outcome(Work(Hoisted(w.files[target := e.content], target, HoistTarget(u, u.platform.value, target)),
                   w.changes.Deleted(Relativize(u.bundleDir, target))), None)
    else Outcome(w.(files := w.files[target := e.content]), None)
  }

  function UnpackEntries(w: Work, u: Unpacking, entries: seq<Entry>): (o: Outcome)
    decreases |entries|
  {
    if entries == [] then Outcome(w, None)
    else
      var o := UnpackEntry(w, u, entries[0]);
      if o.failure.Some? then o else UnpackEntries(o.work, u, entries[1..])
  }

  // ---------------------------------------------------------------- properties

  /** Embedded sources are never unpacked; stripped entries only when the bundle may be modified. */
  lemma UnpackSkipped(w: Work, u: Unpacking, e: Entry)
    requires !e.isDirectory && SkipReason(u, e.name).Some?
    ensures UnpackEntry(w, u, e) == Outcome(w.(changes := w.changes.Deleted(SkipReason(u, e.name).value)), None)
    ensures StartsWith(e.name, "OSGI-OPT/src/") && (u.doNotModify || StripReason(e.name).None?) ==>
      UnpackEntry(w, u, e).work.changes.deleted == w.changes.deleted + {"embedded sources"}
  {
  }

  /** An entry is never written over an existing file. */
  lemma UnpackNeverOverwrites(w: Work, u: Unpacking, e: Entry)
    requires !e.isDirectory && SkipReason(u, e.name).None?
    requires Resolve(u.bundleDir, e.name) in w.files
    ensures UnpackEntry(w, u, e) == Outcome(w, Some(FileAlreadyExists(Resolve(u.bundleDir, e.name))))
  {
  }

  /**
   * A native library of a native bundle does not stay in the bundle and is
   * recorded as deleted; when it is hoisted, the category directory gets its
   * content.
   */
  lemma NativeLibraryHoisted(w: Work, u: Unpacking, e: Entry)
    requires !e.isDirectory && SkipReason(u, e.name).None?
    requires u.platform.Some? && IsNativeLibrary(e.name)
    requires Resolve(u.bundleDir, e.name) !in w.files
    ensures var o := UnpackEntry(w, u, e); var target := Resolve(u.bundleDir, e.name);
      && o.failure.None?
      && target !in o.work.files
      && o.work.changes == w.changes.Deleted(Relativize(u.bundleDir, target))
      && (forall t :: HoistTarget(u, u.platform.value, target) == Some(t) && t != target ==>
            t in o.work.files && o.work.files[t] == e.content)
      && (HoistTarget(u, u.platform.value, target).None? ==> o.work.files == w.files)
      && (forall p :: p in o.work.files && HoistTarget(u, u.platform.value, target) != Some(p) ==>
            p in w.files && o.work.files[p] == w.files[p])
  {
    var target := Resolve(u.bundleDir, e.name);
    var files := w.files[target := e.content];
    var hoist := HoistTarget(u, u.platform.value, target);
    assert UnpackEntry(w, u, e) == Outcome(Work(Hoisted(files, target, hoist), w.changes.Deleted(Relativize(u.bundleDir, target))), None);
    HoistedFiles(files, target, hoist);
    if hoist.None? {
      AddThenRemove(w.files, target, e.content);
    }
  }

  lemma AddThenRemove(files: Files, p: string, content: seq<byte>)
    requires p !in files
    ensures files[p := content] - {p} == files
  {
  }

  /** Any other entry is copied to the same path under the bundle directory. */
  lemma PlainEntryCopied(w: Work, u: Unpacking, e: Entry)
    requires !e.isDirectory && SkipReason(u, e.name).None?
    requires u.platform.None? || !IsNativeLibrary(e.name)
    requires Resolve(u.bundleDir, e.name) !in w.files
    ensures UnpackEntry(w, u, e) == Outcome(w.(files := w.files[Resolve(u.bundleDir, e.name) := e.content]), None)
  {
  }

  /** What may change: the tree gains files only at the entry's path or its hoisted path, loses none, and keeps every message. */
  lemma UnpackEntryFrame(w: Work, u: Unpacking, e: Entry)
    ensures var o := UnpackEntry(w, u, e); var target := Resolve(u.bundleDir, e.name);
      && w.changes.Within(o.work.changes)
      && w.files.Keys <= o.work.files.Keys
      && forall p :: p in o.work.files && (p !in w.files || o.work.files[p] != w.files[p]) ==>
           p == target || (u.platform.Some? && HoistTarget(u, u.platform.value, target) == Some(p))
  {
    var o := UnpackEntry(w, u, e);
    var target := Resolve(u.bundleDir, e.name);
    if e.isDirectory || SkipReason(u, e.name).Some? || target in w.files {
      assert o.work.files == w.files;
    } else if u.platform.Some? && IsNativeLibrary(e.name) {
      NativeLibraryHoisted(w, u, e);
    } else {
      PlainEntryCopied(w, u, e);
    }
  }

  /** A bundle that may not be modified keeps its signatures, module information and Maven metadata. */
  lemma DoNotModifyKeepsEntries(w: Work, u: Unpacking, e: Entry)
    requires u.doNotModify && !e.isDirectory && !StartsWith(e.name, "OSGI-OPT/src/")
    requires Resolve(u.bundleDir, e.name) !in w.files
    requires u.platform.None? || !IsNativeLibrary(e.name)
    ensures UnpackEntry(w, u, e) == Outcome(w.(files := w.files[Resolve(u.bundleDir, e.name) := e.content]), None)
  {
    PlainEntryCopied(w, u, e);
  }

  /**
   * Only the JNA libraries of the bundle's own platform directory (after the
   * darwin and x86-64 rewrite) are hoisted, under their file name alone.
   */
  lemma JnaHoisting(u: Unpacking, p: Platform, dirPath: string, platformDir: string, file: string)
    requires u.name == "com.sun.jna"
    requires file != "" && '/' !in file && platformDir != "" && '/' !in platformDir
    ensures HoistTarget(u, p, dirPath + "/" + platformDir + "/" + file)
      == if platformDir == JnaPlatform(p).os + "-" + JnaPlatform(p).arch then Some(Resolve(Parent(u.bundleDir), file)) else None
  {
    var parent := dirPath + "/" + platformDir;
    assert !StartsWith(file, "/") by { assert file[0] != '/'; }
    assert !StartsWith(platformDir, "/") by { assert platformDir[0] != '/'; }
    ResolveComponents(parent, file);
    ResolveComponents(dirPath, platformDir);
    assert Resolve(parent, file) == dirPath + "/" + platformDir + "/" + file;
  }

  /** Over a whole jar: the change sets only grow and no file already in the tree disappears. */
  lemma {:induction false} UnpackEntriesKeepsMessages(w: Work, u: Unpacking, entries: seq<Entry>)
    ensures w.changes.Within(UnpackEntries(w, u, entries).work.changes)
    ensures w.files.Keys <= UnpackEntries(w, u, entries).work.files.Keys
    decreases |entries|
  {
    if entries != [] {
      UnpackEntryFrame(w, u, entries[0]);
      var o := UnpackEntry(w, u, entries[0]);
      if o.failure.None? {
        UnpackEntriesKeepsMessages(o.work, u, entries[1..]);
      }
    }
  }

  // ---------------------------------------------------------------- the loop

  /**
   * The copy of a native library just unpacked at `target` to the category
   * directory, then its removal from the bundle.
   */
  method HoistLibrary(tree: Tree, u: Unpacking, target: string, os0: string, arch0: string) returns (os: string, arch: string)
    requires u.platform.Some? && target in tree.files
    requires JnaPlatform(Platform(os0, arch0)) == JnaPlatform(u.platform.value)
    modifies tree
    ensures tree.files == Hoisted(old(tree.files), target, HoistTarget(u, u.platform.value, target))
    ensures JnaPlatform(Platform(os, arch)) == JnaPlatform(u.platform.value)
  {
    os, arch := os0, arch0;
    ghost var hoist := HoistTarget(u, u.platform.value, target);
    ghost var files0 := tree.files;
    var categoryDir := Parent(u.bundleDir);
    var copyDll := false;
    var targetDll := Resolve(categoryDir, Relativize(u.bundleDir, target));
    if u.name == "com.sun.jna" {
      JnaPlatformIdempotent(Platform(os, arch));
      if arch == "x86_64" {
        arch := "x86-64";
      }
      if os == "macosx" {
        os := "darwin";
      }
      HoistTargetJna(u, u.platform.value, target, os, arch);
      if FileName(Parent(target)) == os + "-" + arch {
        copyDll := true;
      }
      targetDll := Resolve(categoryDir, FileName(target));
    } else {
      copyDll := true;
    }
    assert copyDll == hoist.Some? && (copyDll ==> targetDll == hoist.value);
    if copyDll {
      tree.files := tree.files[targetDll := tree.files[target]];
    }
    var copied := tree.files;
    tree.files := copied - {target};
    HoistedAfterCopy(files0, target, hoist, copied);
  }

  /** The copy then the removal, as the loop does them, give Hoisted. */
  lemma HoistedAfterCopy(files: Files, target: string, copy: Option<string>, copied: Files)
    requires target in files
    requires copied == if copy.Some? then files[copy.value := files[target]] else files
    ensures copied - {target} == Hoisted(files, target, copy)
  {
  }

  /** For JNA, once os and arch are rewritten, the library is copied exactly when it sits in the os-arch directory. */
  lemma HoistTargetJna(u: Unpacking, p: Platform, target: string, os: string, arch: string)
    requires u.name == "com.sun.jna" && Platform(os, arch) == JnaPlatform(p)
    ensures HoistTarget(u, p, target)
      == if FileName(Parent(target)) == os + "-" + arch then Some(Resolve(Parent(u.bundleDir), FileName(target))) else None
  {
  }

  /** One turn of the entry loop of processBundleJar; os and arch are the loop's own variables. */
  method UnpackJarEntry(tree: Tree, origin: A2Origin, u: Unpacking, e: Entry, os0: string, arch0: string)
    returns (failure: Option<Failure>, os: string, arch: string)
    requires u.platform.Some? ==> JnaPlatform(Platform(os0, arch0)) == JnaPlatform(u.platform.value)
    modifies tree, origin
    ensures var o := UnpackEntry(Work(old(tree.files), old(origin.Changes())), u, e);
      tree.files == o.work.files && origin.Changes() == o.work.changes && failure == o.failure
    ensures u.platform.Some? ==> JnaPlatform(Platform(os, arch)) == JnaPlatform(u.platform.value)
  {
    os, arch := os0, arch0;
    var target := Resolve(u.bundleDir, e.name);
    if e.isDirectory {
    } else if !u.doNotModify && StripReason(e.name).Some? {
      origin.deleted := origin.deleted + {StripReason(e.name).value};
    } else if StartsWith(e.name, "OSGI-OPT/src/") {
      origin.deleted := origin.deleted + {"embedded sources"};
    } else {
      if target in tree.files {
        return Some(FileAlreadyExists(target)), os, arch;
      }
      tree.files := tree.files[target := e.content];
      if u.platform.Some? && IsNativeLibrary(e.name) {
        os, arch := HoistLibrary(tree, u, target, os, arch);
        origin.deleted := origin.deleted + {Relativize(u.bundleDir, target)};
      }
    }
    failure := None;
  }

  /**
   * The entry loop of processBundleJar. The JNA platform rewrite is applied to
   * the loop's own os and arch variables and kept for the following entries.
   */
  method UnpackJar(tree: Tree, origin: A2Origin, u: Unpacking, entries: seq<Entry>) returns (failure: Option<Failure>)
    modifies tree, origin
    ensures var o := UnpackEntries(Work(old(tree.files), old(origin.Changes())), u, entries);
      tree.files == o.work.files && origin.Changes() == o.work.changes && failure == o.failure
  {
    ghost var goal := UnpackEntries(Work(tree.files, origin.Changes()), u, entries);
    var os, arch := "", "";
    if u.platform.Some? {
      os, arch := u.platform.value.os, u.platform.value.arch;
    }
    var i := 0;
    while i < |entries|
      invariant 0 <= i <= |entries|
      invariant UnpackEntries(Work(tree.files, origin.Changes()), u, entries[i..]) == goal
      invariant u.platform.Some? ==> JnaPlatform(Platform(os, arch)) == JnaPlatform(u.platform.value)
    {
      assert entries[i..][0] == entries[i] && entries[i..][1..] == entries[i + 1..];
      failure, os, arch := UnpackJarEntry(tree, origin, u, entries[i], os, arch);
      if failure.Some? {
        return;
      }
      i := i + 1;
    }
    failure := None;
  }
}
