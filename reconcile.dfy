/**
 * The decisions processBundleJar takes on the MANIFEST of a single bundle:
 * the name and version the bundle is filed under, whether it is an OSGi
 * singleton, which descriptor headers override the original ones, and which
 * headers are stripped as build-tool pollution. Every override, deletion and
 * addition is recorded in the bundle's A2Origin.
 */
module Reconcile {
  import opened Wrappers
  import opened JavaText
  import opened Identity
  import opened Headers
  import opened FileTree
  import opened Provenance

  // ---------------------------------------------------------------- singleton

  const SingletonDirective: string := "singleton:=true"

  /** One of the ';'-separated parts after the first one is, once trimmed, the singleton directive. */
  predicate IsSingleton(rawSymbolicName: Option<string>) {
    && rawSymbolicName.Some?
    && exists i :: 1 <= i < |Split(rawSymbolicName.value, ';')| && Trim(Split(rawSymbolicName.value, ';')[i]) == SingletonDirective
  }

  /** The scan of the original Bundle-SymbolicName for a singleton directive. */
  method DetectSingleton(rawSymbolicName: Option<string>) returns (singleton: bool)
    ensures singleton == IsSingleton(rawSymbolicName)
  {
    singleton := false;
    if rawSymbolicName.Some? {
      var parts := Split(rawSymbolicName.value, ';');
      var i := 1;
      while i < |parts|
        invariant 1 <= i <= |parts| + 1
        invariant singleton <==> exists j :: 1 <= j < i && j < |parts| && Trim(parts[j]) == SingletonDirective
      {
        if Trim(parts[i]) == SingletonDirective {
          singleton := true;
        }
        i := i + 1;
      }
    }
  }

  /** "name;...;singleton:=true;..." is a singleton, with or without spaces around the directive. */
  lemma SingletonDetected(name: string, directive: string, rest: string)
    requires ';' !in name && ';' !in directive && Trim(directive) == SingletonDirective
    requires rest == [] || rest[0] == ';'
    ensures IsSingleton(Some(name + ";" + directive + rest))
  {
    SplitFirstTwo(name, ';', directive, rest);
    assert name + ";" + directive + rest == name + [';'] + directive + rest;
  }

  /** A directive standing where the name is expected does not make a singleton. */
  lemma SingletonNeedsName(directive: string)
    requires ';' !in directive
    ensures !IsSingleton(Some(directive)) && !IsSingleton(Some(directive + ";"))
  {
    SplitOnePiece(directive, ';', true);
    assert directive + ";" == directive + [';'];
  }

  /** The descriptor's symbolic name gets the directive back when the original bundle was a singleton. */
  function WithSingleton(entries: Attributes, singleton: bool): (r: Attributes)
    requires entries.Valid()
    ensures r.Valid() && r.names == entries.names
    ensures forall k :: k != BundleSymbolicName ==> r.Get(k) == entries.Get(k)
    ensures r.Get(BundleSymbolicName) ==
      if singleton && entries.Has(BundleSymbolicName) then Some(entries.values[BundleSymbolicName] + ";" + SingletonDirective)
      else entries.Get(BundleSymbolicName)
  {
    if singleton && entries.Has(BundleSymbolicName) then
      entries.Put(BundleSymbolicName, entries.values[BundleSymbolicName] + ";" + SingletonDirective)
    else entries
  }

  // ---------------------------------------------------------------- name and version

  const NoNameVersion: string := "Could not compute name/version from Manifest"

  /**
   * nameVersionFromManifest: the original symbolic name without its
   * directives and the original version; no identity without a symbolic name.
   */
  function ManifestNameVersion(manifest: Attributes): (r: Result<Option<NameVersion>, Failure>)
    ensures !manifest.Has(BundleSymbolicName) ==> r == Success(None)
    ensures r.Success? && r.value.Some? ==>
      && manifest.Has(BundleSymbolicName)
      && ';' !in r.value.value.name
      && r.value.value.version == manifest.Get(BundleVersion)
  {
    match manifest.Get(BundleSymbolicName)
    case None => Success(None)
    case Some(raw) =>
      var parts := Split(raw, ';');
      if parts == [] then Failure(IndexOutOfBounds("Index 0 out of bounds for length 0"))
      else Success(Some(NameVersion(parts[0], manifest.Get(BundleVersion))))
  }

  /**
   * The identity of the bundle: the descriptor's name and version when it
   * gives both; otherwise the original manifest's, with the descriptor's
   * name (only) forced over the original one. A descriptor version compared
   * with a missing original version is a NullPointerException.
   */
  function BundleNameVersion(entries: Attributes, manifest: Attributes): (r: Result<NameVersion, Failure>)
    ensures entries.Has(BundleSymbolicName) && entries.Has(BundleVersion) ==>
      r == Success(NameVersion(entries.values[BundleSymbolicName], Some(entries.values[BundleVersion])))
    ensures !(entries.Has(BundleSymbolicName) && entries.Has(BundleVersion)) && !manifest.Has(BundleSymbolicName) ==>
      r == Failure(IllegalState(NoNameVersion))
    ensures r.Success? && entries.Has(BundleSymbolicName) ==> r.value.name == entries.values[BundleSymbolicName]
    ensures r.Success? && !entries.Has(BundleSymbolicName) ==> ';' !in r.value.name
    ensures (&& !entries.Has(BundleSymbolicName) && entries.Has(BundleVersion) && !manifest.Has(BundleVersion)
             && manifest.Has(BundleSymbolicName) && ManifestNameVersion(manifest).Success?) ==>
      r == Failure(NullPointer(BundleVersion))
    ensures r.Success? && entries.Has(BundleVersion) ==> r.value.version.Some?
  {
    var ourName := entries.Get(BundleSymbolicName);
    var ourVersion := entries.Get(BundleVersion);
    if ourName.Some? && ourVersion.Some? then Success(NameVersion(ourName.value, ourVersion))
    else
      match ManifestNameVersion(manifest)
      case Failure(e) => Failure(e)
      case Success(None) => Failure(IllegalState(NoNameVersion))
      case Success(Some(nv)) =>
        if ourVersion.Some? && nv.version.None? then Failure(NullPointer(BundleVersion))
        else Success(NameVersion(ourName.GetOr(nv.name), nv.version))
  }

  /**
   * When the descriptor gives a version but no name, the original version
   * still decides the identity, hence the branch the bundle is filed under.
   */
  lemma OriginalVersionDecidesBranch(entries: Attributes, manifest: Attributes)
    requires !entries.Has(BundleSymbolicName)
    requires BundleNameVersion(entries, manifest).Success?
    ensures BundleNameVersion(entries, manifest).value.version == manifest.Get(BundleVersion)
  {
  }

  /** The bundle directory: the target base resolved with name.branch. */
  function BundleDir(targetBase: string, nv: NameVersion): (r: Result<string, Failure>)
    ensures r.Success? <==> Branch(nv.version).Success?
  {
    match Branch(nv.version)
    case Failure(e) => Failure(e)
    case Success(branch) => Success(Resolve(targetBase, nv.name + "." + branch))
  }

  // ---------------------------------------------------------------- precedence of the descriptor

  /** The MANIFEST being decided, with the change messages gathered so far. */
  datatype Draft = Draft(manifest: Attributes, changes: ChangeSets)

  function HeaderMessage(key: string): string {
    "MANIFEST header " + key
  }

  /**
   * A differing original value is kept for the license identifier, and for
   * the version when it is the descriptor's with ".0" appended (a Maven first
   * release).
   */
  predicate KeepsPrevious(key: string, previous: Option<string>, value: string) {
    && previous.Some? && previous.value != value
    && (key == SpdxLicenseIdentifier || (key == BundleVersion && previous.value == value + ".0"))
  }

  /** The descriptor's value replaces a different original one. */
  predicate Overrides(key: string, previous: Option<string>, value: string) {
    previous.Some? && previous.value != value && !KeepsPrevious(key, previous, value)
  }

  /** The capabilities of the OSGi core and compendium bundles cannot be resolved and are removed. */
  predicate IsUnresolvableCapability(key: string, name: string) {
    (key == ProvideCapability || key == RequireCapability) && (name == "osgi.core" || name == "osgi.cmpn")
  }

  /** What one descriptor header leaves in the MANIFEST. */
  function Settled(key: string, previous: Option<string>, value: string, name: string): Option<string> {
    if IsUnresolvableCapability(key, name) then None
    else if KeepsPrevious(key, previous, value) then previous
    else Some(value)
  }

  /** One turn of the loop over the descriptor headers. */
  function Settle(d: Draft, name: string, key: string, value: string): (r: Draft)
    requires d.manifest.Valid()
    ensures r.manifest.Valid()
  {
    var previous := d.manifest.Get(key);
    var m := d.manifest.Put(key, if KeepsPrevious(key, previous, value) then previous.value else value);
    var c := if Overrides(key, previous, value) then d.changes.Modified(HeaderMessage(key)) else d.changes;
    if IsUnresolvableCapability(key, name) then Draft(m.Remove(key), c.Deleted(HeaderMessage(key)))
    else Draft(m, c)
  }

  /** The loop over the descriptor headers, in the order `keys` visits them. */
  function SettleAll(d: Draft, name: string, entries: Attributes, keys: seq<string>): (r: Draft)
    requires d.manifest.Valid()
    requires forall k | k in keys :: k in entries.values
    ensures r.manifest.Valid()
    decreases keys
  {
    if keys == [] then d
    else SettleAll(Settle(d, name, keys[0], entries.values[keys[0]]), name, entries, keys[1..])
  }

  /** One turn changes the header it settles and no other, and records what it did. */
  lemma SettleStep(d: Draft, name: string, key: string, value: string)
    requires d.manifest.Valid()
    ensures var r := Settle(d, name, key, value);
      && r.manifest.Get(key) == Settled(key, d.manifest.Get(key), value, name)
      && (forall k :: k != key ==> r.manifest.Get(k) == d.manifest.Get(k))
      && r.changes.added == d.changes.added && r.changes.moved == d.changes.moved
      && r.changes.modified == (if Overrides(key, d.manifest.Get(key), value) then d.changes.modified + {HeaderMessage(key)} else d.changes.modified)
      && r.changes.deleted == (if IsUnresolvableCapability(key, name) then d.changes.deleted + {HeaderMessage(key)} else d.changes.deleted)
  {
  }

  lemma DistinctTail(keys: seq<string>)
    requires Distinct(keys) && keys != []
    ensures Distinct(keys[1..]) && keys[0] !in keys[1..]
  {
    forall i, j | 0 <= i < j < |keys[1..]|
      ensures keys[1..][i] != keys[1..][j]
    {
      assert keys[1..][i] == keys[i + 1] && keys[1..][j] == keys[j + 1];
    }
  }

  /** Each descriptor header ends up as Settled says; the other headers are untouched. */
  lemma {:induction false} SettleAllValue(d: Draft, name: string, entries: Attributes, keys: seq<string>, k: string)
    requires d.manifest.Valid() && Distinct(keys)
    requires forall k | k in keys :: k in entries.values
    ensures SettleAll(d, name, entries, keys).manifest.Get(k)
      == if k in keys then Settled(k, d.manifest.Get(k), entries.values[k], name) else d.manifest.Get(k)
    decreases keys
  {
    if keys != [] {
      var d' := Settle(d, name, keys[0], entries.values[keys[0]]);
      SettleStep(d, name, keys[0], entries.values[keys[0]]);
      DistinctTail(keys);
      SettleAllValue(d', name, entries, keys[1..], k);
      if k != keys[0] && k in keys {
        assert k in keys[1..];
      }
    }
  }

  /** Every override is recorded as modified and every removed capability as deleted. */
  lemma {:induction false} SettleAllRecords(d: Draft, name: string, entries: Attributes, keys: seq<string>)
    requires d.manifest.Valid() && Distinct(keys)
    requires forall k | k in keys :: k in entries.values
    ensures var r := SettleAll(d, name, entries, keys);
      && (forall k :: k in keys && Overrides(k, d.manifest.Get(k), entries.values[k]) ==> HeaderMessage(k) in r.changes.modified)
      && (forall k :: k in keys && IsUnresolvableCapability(k, name) ==> HeaderMessage(k) in r.changes.deleted)
      && d.changes.Within(r.changes)
      && r.changes.added == d.changes.added && r.changes.moved == d.changes.moved
    decreases keys
  {
    if keys != [] {
      var key := keys[0];
      var d' := Settle(d, name, key, entries.values[key]);
      SettleStep(d, name, key, entries.values[key]);
      DistinctTail(keys);
      SettleAllRecords(d', name, entries, keys[1..]);
      forall k | k in keys[1..]
        ensures d'.manifest.Get(k) == d.manifest.Get(k)
      {
        assert k != key;
      }
    }
  }


  // ---------------------------------------------------------------- de-pollution

  const JnaPlatformName: string := "com.sun.jna.platform"

  /** Headers left by build tools, which are always removed. */
  predicate IsPollution(key: string) {
    || key == "Archiver-Version" || key == "Build-By" || key == "Created-By"
    || key == "Originally-Created-By" || key == "Tool" || key == "Bnd-LastModified"
  }

  /** The Require-Bundle of the JNA platform bundle is dropped. */
  predicate IsJnaRequirement(key: string, name: string) {
    key == RequireBundle && name == JnaPlatformName
  }

  /**
   * One turn of the de-pollution loop: pollution is removed and recorded as
   * deleted; any other header the original manifest lacked is recorded as
   * added, including a JNA Require-Bundle the same turn removes.
   */
  function Clean(d: Draft, name: string, source: Option<Attributes>, key: string): (r: Draft)
    requires d.manifest.Valid()
    ensures r.manifest.Valid()
  {
    var m := if IsJnaRequirement(key, name) then d.manifest.Remove(key) else d.manifest;
    if IsPollution(key) then Draft(m.Remove(key), d.changes.Deleted(HeaderMessage(key)))
    else if source.Some? && !source.value.Has(key) then Draft(m, d.changes.Added(HeaderMessage(key)))
    else Draft(m, d.changes)
  }

  /** The de-pollution loop over the headers present when it starts. */
  function CleanAll(d: Draft, name: string, source: Option<Attributes>, keys: seq<string>): (r: Draft)
    requires d.manifest.Valid()
    ensures r.manifest.Valid()
    decreases keys
  {
    if keys == [] then d else CleanAll(Clean(d, name, source, keys[0]), name, source, keys[1..])
  }

  /** One turn of the de-pollution loop changes at most the header it visits, and records what it did. */
  lemma CleanStep(d: Draft, name: string, source: Option<Attributes>, key: string)
    requires d.manifest.Valid()
    ensures var r := Clean(d, name, source, key);
      && r.manifest.Get(key) == (if IsPollution(key) || IsJnaRequirement(key, name) then None else d.manifest.Get(key))
      && (forall k :: k != key ==> r.manifest.Get(k) == d.manifest.Get(k))
      && r.changes.modified == d.changes.modified && r.changes.moved == d.changes.moved
      && r.changes.deleted == (if IsPollution(key) then d.changes.deleted + {HeaderMessage(key)} else d.changes.deleted)
      && r.changes.added == (if !IsPollution(key) && source.Some? && !source.value.Has(key) then d.changes.added + {HeaderMessage(key)} else d.changes.added)
  {
  }

  /** A visited pollution header or JNA requirement is gone; every other header is untouched. */
  lemma {:induction false} CleanAllValue(d: Draft, name: string, source: Option<Attributes>, keys: seq<string>, k: string)
    requires d.manifest.Valid()
    ensures CleanAll(d, name, source, keys).manifest.Get(k)
      == if k in keys && (IsPollution(k) || IsJnaRequirement(k, name)) then None else d.manifest.Get(k)
    decreases keys
  {
    if keys != [] {
      var d' := Clean(d, name, source, keys[0]);
      CleanStep(d, name, source, keys[0]);
      CleanAllValue(d', name, source, keys[1..], k);
      if k in keys && k !in keys[1..] {
        assert k == keys[0];
      }
    }
  }

  /** Visited pollution is recorded as deleted, visited headers the original lacked as added. */
  lemma {:induction false} CleanAllRecords(d: Draft, name: string, source: Option<Attributes>, keys: seq<string>)
    requires d.manifest.Valid()
    ensures var r := CleanAll(d, name, source, keys);
      && (forall k :: k in keys && IsPollution(k) ==> HeaderMessage(k) in r.changes.deleted)
      && (forall k :: k in keys && !IsPollution(k) && source.Some? && !source.value.Has(k) ==> HeaderMessage(k) in r.changes.added)
      && d.changes.Within(r.changes)
      && r.changes.modified == d.changes.modified && r.changes.moved == d.changes.moved
    decreases keys
  {
    if keys != [] {
      var d' := Clean(d, name, source, keys[0]);
      CleanStep(d, name, source, keys[0]);
      CleanAllRecords(d', name, source, keys[1..]);
      assert forall k :: k in keys ==> k == keys[0] || k in keys[1..];
    }
  }


  // ---------------------------------------------------------------- the final MANIFEST

  /**
   * The MANIFEST after the descriptor headers (the singleton directive
   * restored) have been settled over the original ones and the pollution
   * removed, with the messages recorded on the way and, last, the record that
   * the MANIFEST itself was modified.
   */
  function FinalManifest(entries: Attributes, manifest: Attributes, source: Option<Attributes>, name: string, singleton: bool, changes: ChangeSets): (r: Draft)
    requires entries.Valid() && manifest.Valid()
    ensures r.manifest.Valid()
  {
    var ours := WithSingleton(entries, singleton);
    var settled := SettleAll(Draft(manifest, changes), name, ours, ours.names);
    var cleaned := CleanAll(settled, name, source, settled.manifest.names);
    cleaned.(changes := cleaned.changes.Modified(ManifestModified))
  }

  const ManifestModified: string := "MANIFEST (META-INF/MANIFEST.MF)"

  /** The value each header ends with, header by header. */
  function FinalValue(key: string, ours: Attributes, manifest: Attributes, name: string): Option<string> {
    if IsPollution(key) || IsJnaRequirement(key, name) then None
    else if ours.Has(key) then Settled(key, manifest.Get(key), ours.values[key], name)
    else manifest.Get(key)
  }

  /** The final MANIFEST, header by header. */
  lemma FinalManifestValue(entries: Attributes, manifest: Attributes, source: Option<Attributes>, name: string, singleton: bool, changes: ChangeSets, k: string)
    requires entries.Valid() && manifest.Valid()
    ensures FinalManifest(entries, manifest, source, name, singleton, changes).manifest.Get(k)
      == FinalValue(k, WithSingleton(entries, singleton), manifest, name)
  {
    var ours := WithSingleton(entries, singleton);
    var d := Draft(manifest, changes);
    SettleAllValue(d, name, ours, ours.names, k);
    var settled := SettleAll(d, name, ours, ours.names);
    CleanAllValue(settled, name, source, settled.manifest.names, k);
    assert ours.Has(k) <==> k in ours.names;
    assert settled.manifest.Has(k) <==> k in settled.manifest.names;
  }

  /** Every override of an original header is recorded as modified, every pollution header as deleted. */
  lemma FinalManifestRecords(entries: Attributes, manifest: Attributes, source: Option<Attributes>, name: string, singleton: bool, changes: ChangeSets)
    requires entries.Valid() && manifest.Valid()
    ensures var r := FinalManifest(entries, manifest, source, name, singleton, changes);
      var ours := WithSingleton(entries, singleton);
      && (forall k :: ours.Has(k) && Overrides(k, manifest.Get(k), ours.values[k]) ==> HeaderMessage(k) in r.changes.modified)
      && (forall k :: IsPollution(k) && (manifest.Has(k) || ours.Has(k)) ==> HeaderMessage(k) in r.changes.deleted)
      && ManifestModified in r.changes.modified
      && changes.Within(r.changes)
  {
    var ours := WithSingleton(entries, singleton);
    var d := Draft(manifest, changes);
    SettleAllRecords(d, name, ours, ours.names);
    var settled := SettleAll(d, name, ours, ours.names);
    CleanAllRecords(settled, name, source, settled.manifest.names);
    PollutionLeftForCleaning(d, name, ours);
    assert forall k :: ours.Has(k) ==> k in ours.names;
  }

  /** Settling never removes a pollution header, so the de-pollution loop visits it. */
  lemma PollutionLeftForCleaning(d: Draft, name: string, ours: Attributes)
    requires d.manifest.Valid() && ours.Valid()
    ensures forall k :: IsPollution(k) && (d.manifest.Has(k) || ours.Has(k)) ==>
      k in SettleAll(d, name, ours, ours.names).manifest.names
  {
    var settled := SettleAll(d, name, ours, ours.names);
    forall k | IsPollution(k) && (d.manifest.Has(k) || ours.Has(k))
      ensures k in settled.manifest.names
    {
      SettleAllValue(d, name, ours, ours.names, k);
      assert ours.Has(k) <==> k in ours.names;
      assert !IsUnresolvableCapability(k, name);
      assert settled.manifest.Get(k).Some?;
    }
  }


  /** The symbolic name, the version and the license identifier are ordinary headers. */
  lemma OrdinaryHeader(k: string, name: string)
    requires k == BundleSymbolicName || k == BundleVersion || k == SpdxLicenseIdentifier
    ensures !IsPollution(k) && !IsJnaRequirement(k, name) && !IsUnresolvableCapability(k, name)
    ensures k == SpdxLicenseIdentifier <==> k != BundleSymbolicName && k != BundleVersion
  {
  }

  /** A singleton keeps its directive, since the symbolic name is never kept from the original. */
  lemma SingletonSurvives(entries: Attributes, manifest: Attributes, source: Option<Attributes>, name: string, changes: ChangeSets)
    requires entries.Valid() && manifest.Valid() && entries.Has(BundleSymbolicName)
    ensures FinalManifest(entries, manifest, source, name, true, changes).manifest.Get(BundleSymbolicName)
      == Some(entries.values[BundleSymbolicName] + ";" + SingletonDirective)
  {
    OrdinaryHeader(BundleSymbolicName, name);
    FinalManifestValue(entries, manifest, source, name, true, changes, BundleSymbolicName);
  }

  /** An original license identifier is never overridden by the descriptor's. */
  lemma OriginalLicenseKept(entries: Attributes, manifest: Attributes, source: Option<Attributes>, name: string, singleton: bool, changes: ChangeSets)
    requires entries.Valid() && manifest.Valid() && manifest.Has(SpdxLicenseIdentifier)
    ensures FinalManifest(entries, manifest, source, name, singleton, changes).manifest.Get(SpdxLicenseIdentifier)
      == manifest.Get(SpdxLicenseIdentifier)
  {
    OrdinaryHeader(SpdxLicenseIdentifier, name);
    FinalManifestValue(entries, manifest, source, name, singleton, changes, SpdxLicenseIdentifier);
  }

  /** An original version "v.0" is kept over the descriptor's "v"; any other original version is overridden. */
  lemma MavenFirstReleaseKept(entries: Attributes, manifest: Attributes, source: Option<Attributes>, name: string, singleton: bool, changes: ChangeSets)
    requires entries.Valid() && manifest.Valid() && entries.Has(BundleVersion)
    ensures var v := entries.values[BundleVersion];
      FinalManifest(entries, manifest, source, name, singleton, changes).manifest.Get(BundleVersion)
        == if manifest.Get(BundleVersion) == Some(v + ".0") then Some(v + ".0") else Some(v)
  {
    OrdinaryHeader(BundleVersion, name);
    FinalManifestValue(entries, manifest, source, name, singleton, changes, BundleVersion);
    var v := entries.values[BundleVersion];
    assert v + ".0" != v by { assert |v + ".0"| != |v|; }
  }

  /** No build-tool header survives, whatever the original manifest or the descriptor held. */
  lemma NoPollutionLeft(entries: Attributes, manifest: Attributes, source: Option<Attributes>, name: string, singleton: bool, changes: ChangeSets, key: string)
    requires entries.Valid() && manifest.Valid() && IsPollution(key)
    ensures FinalManifest(entries, manifest, source, name, singleton, changes).manifest.Get(key) == None
  {
    FinalManifestValue(entries, manifest, source, name, singleton, changes, key);
  }

  /** Descriptor capabilities are dropped from the OSGi core and compendium bundles. */
  lemma OsgiCapabilitiesDropped(entries: Attributes, manifest: Attributes, source: Option<Attributes>, name: string, singleton: bool, changes: ChangeSets, key: string)
    requires entries.Valid() && manifest.Valid()
    requires IsUnresolvableCapability(key, name) && entries.Has(key)
    ensures var r := FinalManifest(entries, manifest, source, name, singleton, changes);
      r.manifest.Get(key) == None
  {
    FinalManifestValue(entries, manifest, source, name, singleton, changes, key);
  }

  /** Original headers the descriptor does not mention pass through unless they are pollution. */
  lemma OriginalHeadersKept(entries: Attributes, manifest: Attributes, source: Option<Attributes>, name: string, singleton: bool, changes: ChangeSets, key: string)
    requires entries.Valid() && manifest.Valid()
    requires !entries.Has(key) && !IsPollution(key) && !IsJnaRequirement(key, name)
    ensures FinalManifest(entries, manifest, source, name, singleton, changes).manifest.Get(key) == manifest.Get(key)
  {
    FinalManifestValue(entries, manifest, source, name, singleton, changes, key);
  }

  /** One turn of the loop over the descriptor headers, on the MANIFEST and the A2Origin. */
  method SettleHeader(manifest: Attributes, name: string, key: string, value: string, origin: A2Origin) returns (result: Attributes)
    requires manifest.Valid()
    modifies origin
    ensures Draft(result, origin.Changes()) == Settle(Draft(manifest, old(origin.Changes())), name, key, value)
  {
    var previous := manifest.Get(key);
    var wasDifferent := previous.Some? && previous.value != value;
    var keepPrevious := false;
    if wasDifferent {
      if key == SpdxLicenseIdentifier {
        keepPrevious := true;
      } else if key == BundleVersion && previous.value == value + ".0" {
        keepPrevious := true;
      }
    }
    result := manifest.Put(key, if keepPrevious then previous.value else value);
    if wasDifferent && !keepPrevious {
      origin.modified := origin.modified + {HeaderMessage(key)};
    }
    if (key == ProvideCapability || key == RequireCapability) && (name == "osgi.core" || name == "osgi.cmpn") {
      result := result.Remove(key);
      origin.deleted := origin.deleted + {HeaderMessage(key)};
    }
  }

  /** One turn of the de-pollution loop, on the MANIFEST and the A2Origin. */
  method CleanHeader(manifest: Attributes, name: string, source: Option<Attributes>, key: string, origin: A2Origin) returns (result: Attributes)
    requires manifest.Valid()
    modifies origin
    ensures Draft(result, origin.Changes()) == Clean(Draft(manifest, old(origin.Changes())), name, source, key)
  {
    result := manifest;
    if key == RequireBundle && name == JnaPlatformName {
      result := result.Remove(key);
    }
    if IsPollution(key) {
      result := result.Remove(key);
      origin.deleted := origin.deleted + {HeaderMessage(key)};
    } else if source.Some? && !source.value.Has(key) {
      origin.added := origin.added + {HeaderMessage(key)};
    }
  }

  /** The loop over the descriptor headers from position i is one turn, then the loop from i + 1. */
  lemma SettleAllUnfold(d: Draft, name: string, ours: Attributes, keys: seq<string>, i: int)
    requires d.manifest.Valid() && 0 <= i < |keys|
    requires forall k | k in keys :: k in ours.values
    ensures SettleAll(d, name, ours, keys[i..]) == SettleAll(Settle(d, name, keys[i], ours.values[keys[i]]), name, ours, keys[i + 1..])
  {
    assert keys[i..][0] == keys[i] && keys[i..][1..] == keys[i + 1..];
  }

  /** The de-pollution loop from position j is one turn, then the loop from j + 1. */
  lemma CleanAllUnfold(d: Draft, name: string, source: Option<Attributes>, keys: seq<string>, j: int)
    requires d.manifest.Valid() && 0 <= j < |keys|
    ensures CleanAll(d, name, source, keys[j..]) == CleanAll(Clean(d, name, source, keys[j]), name, source, keys[j + 1..])
  {
    assert keys[j..][0] == keys[j] && keys[j..][1..] == keys[j + 1..];
  }

  /** The loop over the descriptor headers, in place. */
  method SettleHeaders(manifest: Attributes, name: string, ours: Attributes, origin: A2Origin) returns (result: Attributes)
    requires manifest.Valid() && ours.Valid()
    modifies origin
    ensures result.Valid()
    ensures Draft(result, origin.Changes()) == SettleAll(Draft(manifest, old(origin.Changes())), name, ours, ours.names)
  {
    result := manifest;
    var keys := ours.names;
    ghost var settled := SettleAll(Draft(manifest, origin.Changes()), name, ours, keys);
    var i := 0;
    while i < |keys|
      invariant 0 <= i <= |keys| && result.Valid()
      invariant SettleAll(Draft(result, origin.Changes()), name, ours, keys[i..]) == settled
    {
      ghost var before := Draft(result, origin.Changes());
      var key := keys[i];
      SettleAllUnfold(before, name, ours, keys, i);
      result := SettleHeader(result, name, key, ours.values[key], origin);
      i := i + 1;
    }
    assert keys[i..] == [];
  }

  /** The de-pollution loop over the headers present when it starts, in place. */
  method CleanHeaders(manifest: Attributes, name: string, source: Option<Attributes>, origin: A2Origin) returns (result: Attributes)
    requires manifest.Valid()
    modifies origin
    ensures Draft(result, origin.Changes()) == CleanAll(Draft(manifest, old(origin.Changes())), name, source, manifest.names)
  {
    result := manifest;
    var present := manifest.names;
    ghost var cleaned := CleanAll(Draft(manifest, origin.Changes()), name, source, present);
    var j := 0;
    while j < |present|
      invariant 0 <= j <= |present| && result.Valid()
      invariant CleanAll(Draft(result, origin.Changes()), name, source, present[j..]) == cleaned
    {
      ghost var before := Draft(result, origin.Changes());
      var key := present[j];
      CleanAllUnfold(before, name, source, present, j);
      result := CleanHeader(result, name, source, key, origin);
      j := j + 1;
    }
    assert present[j..] == [];
  }

  /**
   * The final MANIFEST decisions, in place: the singleton directive, the loop
   * over the descriptor headers, then the de-pollution loop, each message
   * added to the bundle's A2Origin.
   */
  method ReconcileManifest(entries: Attributes, manifest: Attributes, source: Option<Attributes>, name: string, singleton: bool, origin: A2Origin)
    returns (result: Attributes)
    requires entries.Valid() && manifest.Valid()
    modifies origin
    ensures Draft(result, origin.Changes()) == FinalManifest(entries, manifest, source, name, singleton, old(origin.Changes()))
  {
    var ours := entries;
    if singleton && ours.Has(BundleSymbolicName) {
      ours := ours.Put(BundleSymbolicName, ours.values[BundleSymbolicName] + ";" + SingletonDirective);
    }
    assert ours == WithSingleton(entries, singleton);
    result := SettleHeaders(manifest, name, ours, origin);
    result := CleanHeaders(result, name, source, origin);
    origin.modified := origin.modified + {ManifestModified};
  }
}
