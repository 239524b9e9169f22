/**
 * Manifest headers: the names of the ManifestHeader enumeration and the main
 * attributes of a java.util.jar.Manifest, an insertion-ordered map from header
 * name to value (putValue on an existing name keeps its position, remove drops
 * it). Descriptor properties (java.util.Properties) have no order and are
 * plain maps.
 */
module Headers {
  import opened Wrappers

  const BundleSymbolicName: string := "Bundle-SymbolicName"
  const BundleVersion: string := "Bundle-Version"
  const BundleLicense: string := "Bundle-License"
  const ExportPackage: string := "Export-Package"
  const ImportPackage: string := "Import-Package"
  const RequireBundle: string := "Require-Bundle"
  const EclipseSourceBundle: string := "Eclipse-SourceBundle"
  const SpdxLicenseIdentifier: string := "SPDX-License-Identifier"
  const ArgeoOriginM2: string := "Argeo-Origin-M2"
  const ArgeoOriginM2Merge: string := "Argeo-Origin-M2-Merge"
  const ArgeoOriginM2Repo: string := "Argeo-Origin-M2-Repo"
  const ArgeoOriginNoMetadataGeneration: string := "Argeo-Origin-NoMetadataGeneration"
  const ArgeoDoNotModify: string := "Argeo-Origin-Do-Not-Modify"
  const ArgeoOriginUri: string := "Argeo-Origin-URI"
  const ArgeoOriginSourcesUri: string := "Argeo-Origin-Sources-URI"
  const ManifestVersion: string := "Manifest-Version"
  const ProvideCapability: string := "Provide-Capability"
  const RequireCapability: string := "Require-Capability"

  /** A descriptor (.bnd file) or any other java.util.Properties. */
  type Properties = map<string, string>

  /** Properties.getProperty: null when absent. */
  function Property(props: Properties, key: string): (r: Option<string>)
    ensures r.Some? <==> key in props
    ensures r.Some? ==> r.value == props[key]
  {
    if key in props then Some(props[key]) else None
  }

  predicate Distinct(names: seq<string>) {
    forall i, j :: 0 <= i < j < |names| ==> names[i] != names[j]
  }

  /** `names` without `name`, order kept. */
  function Without(names: seq<string>, name: string): (r: seq<string>)
    ensures forall x :: x in r <==> x in names && x != name
    ensures |r| <= |names|
    ensures Distinct(names) ==> Distinct(r)
  {
    if names == [] then []
    else
      var rest := Without(names[1..], name);
      if names[0] == name then rest
      else
        assert Distinct(names) ==> names[0] !in names[1..];
        [names[0]] + rest
  }

  /** Main attributes of a manifest: header names in insertion order and their values. */
  datatype Attributes = Attributes(names: seq<string>, values: map<string, string>)
  {
    ghost predicate Valid() {
      Distinct(names) && forall k :: k in values <==> k in names
    }

    /** getValue: null when the header is absent. */
    function Get(name: string): Option<string> {
      if name in values then Some(values[name]) else None
    }

    predicate Has(name: string) {
      name in values
    }

    /** putValue: an existing header keeps its position, a new one comes last. */
    function Put(name: string, value: string): (r: Attributes)
      requires Valid()
      ensures r.Valid()
      ensures r.Get(name) == Some(value)
      ensures forall k :: k != name ==> r.Get(k) == Get(k)
      ensures |names| <= |r.names| <= |names| + 1 && r.names[..|names|] == names
    {
      if name in values then Attributes(names, values[name := value])
      else Attributes(names + [name], values[name := value])
    }

    /** remove: the header disappears, the others keep their order. */
    function Remove(name: string): (r: Attributes)
      requires Valid()
      ensures r.Valid()
      ensures r.Get(name) == None
      ensures forall k :: k != name ==> r.Get(k) == Get(k)
      ensures r.names == Without(names, name)
    {
      Attributes(Without(names, name), map k | k in values && k != name :: values[k])
    }
  }

  const NoAttributes: Attributes := Attributes([], map[])
}
