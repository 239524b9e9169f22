/**
 * Licensing of a repackaged bundle: the SPDX identifier the MANIFEST ends up
 * with (only the first of alternative licenses, and a forced license for some
 * well-known component families), the registry of the bundles using each
 * license, and the license paragraph of the repackaging README.
 */
module Licensing {
  import opened Wrappers
  import opened JavaText
  import opened Headers
  import opened FileTree

  const OrSeparator: string := " OR "
  const WithSeparator: string := " WITH "
  const SpdxBase: string := "https://spdx.org/licenses/"

  /** Only the first licensing option: the text before " OR ", trimmed; an id with one option is kept as it is. */
  function FirstOption(id: string): string {
    var i := IndexOf(id, OrSeparator);
    if i >= 0 then Trim(id[..i]) else id
  }

  /** A license id with no space or control character in it, as SPDX short identifiers are. */
  predicate IsPlainId(id: string) {
    id != [] && forall i :: 0 <= i < |id| ==> !IsTrimmed(id[i])
  }

  /** Of "a OR b", only a is kept. */
  lemma FirstOptionOf(a: string, b: string)
    requires IsPlainId(a)
    ensures FirstOption(a + OrSeparator + b) == a
  {
    assert ' ' !in a by {
      forall i | 0 <= i < |a| ensures a[i] != ' ' { assert !IsTrimmed(a[i]); }
    }
    IndexOfAfterPlainPrefix(a, OrSeparator, b);
    assert (a + OrSeparator + b)[..|a|] == a;
    TrimmedAlready(a);
  }

  /** An identifier offering a single license is left as it is. */
  lemma FirstOptionSingle(id: string)
    requires !Contains(id, OrSeparator)
    ensures FirstOption(id) == id
  {
  }

  /** Component families whose license is forced, by bundle directory name prefix, in the order they are tested. */
  const ForcedLicenses: seq<(string, string)> := [
    ("org.apache.", "Apache-2.0"),
    ("com.sun.jna.", "Apache-2.0"),
    ("com.ibm.icu.", "ICU"),
    ("javax.annotation.", "GPL-2.0-only WITH Classpath-exception-2.0"),
    ("javax.inject.", "Apache-2.0"),
    ("org.osgi.", "Apache-2.0")
  ]

  /** The successive prefix tests, each overwriting the id when it matches: the last match wins. */
  function ApplyForced(id: string, dirName: string, table: seq<(string, string)>): string
    decreases |table|
  {
    if table == [] then id
    else ApplyForced(if StartsWith(dirName, table[0].0) then table[0].1 else id, dirName, table[1..])
  }

  /** No prefix of the table is a prefix of another, so a name matches at most one of them. */
  predicate PrefixFree(table: seq<(string, string)>) {
    forall i, j :: 0 <= i < |table| && 0 <= j < |table| && i != j ==> !StartsWith(table[i].0, table[j].0)
  }

  /** Two prefixes of the same name: the shorter is a prefix of the longer. */
  lemma CommonPrefixes(name: string, p: string, q: string)
    requires StartsWith(name, p) && StartsWith(name, q) && |q| <= |p|
    ensures StartsWith(p, q)
  {
    assert p[..|q|] == name[..|q|];
  }

  /** With a prefix-free table, the id is forced to the license of the one matching prefix. */
  lemma {:induction false} ApplyForcedMatch(id: string, dirName: string, table: seq<(string, string)>, i: int)
    requires PrefixFree(table) && 0 <= i < |table| && StartsWith(dirName, table[i].0)
    ensures ApplyForced(id, dirName, table) == table[i].1
    decreases |table|
  {
    var next := if StartsWith(dirName, table[0].0) then table[0].1 else id;
    if i == 0 {
      ApplyForcedNoMatch(next, dirName, table[1..]) by {
        forall j | 0 <= j < |table[1..]|
          ensures !StartsWith(dirName, table[1..][j].0)
        {
          if StartsWith(dirName, table[j + 1].0) {
            if |table[j + 1].0| <= |table[0].0| {
              CommonPrefixes(dirName, table[0].0, table[j + 1].0);
            } else {
              CommonPrefixes(dirName, table[j + 1].0, table[0].0);
            }
          }
        }
      }
    } else {
      assert PrefixFree(table[1..]) by {
        forall a, b | 0 <= a < |table[1..]| && 0 <= b < |table[1..]| && a != b
          ensures !StartsWith(table[1..][a].0, table[1..][b].0)
        {
          assert table[1..][a] == table[a + 1] && table[1..][b] == table[b + 1];
        }
      }
      ApplyForcedMatch(next, dirName, table[1..], i - 1);
    }
  }

  /** With no matching prefix the id is kept. */
  lemma {:induction false} ApplyForcedNoMatch(id: string, dirName: string, table: seq<(string, string)>)
    requires forall j :: 0 <= j < |table| ==> !StartsWith(dirName, table[j].0)
    ensures ApplyForced(id, dirName, table) == id
    decreases |table|
  {
    if table != [] {
      assert forall j :: 0 <= j < |table[1..]| ==> table[1..][j] == table[j + 1];
      ApplyForcedNoMatch(id, dirName, table[1..]);
    }
  }

  /** The prefix tests run one after the other over the table. */
  method ForceLicense(id: string, dirName: string, table: seq<(string, string)>) returns (r: string)
    ensures r == ApplyForced(id, dirName, table)
  {
    r := id;
    var i := 0;
    while i < |table|
      invariant 0 <= i <= |table|
      invariant ApplyForced(r, dirName, table[i..]) == ApplyForced(id, dirName, table)
    {
      assert table[i..][0] == table[i] && table[i..][1..] == table[i + 1..];
      if StartsWith(dirName, table[i].0) {
        r := table[i].1;
      }
      i := i + 1;
    }
    assert table[i..] == [];
  }

  /** The forced families are disjoint. */
  lemma ForcedLicensesPrefixFree()
    ensures PrefixFree(ForcedLicenses)
  {
    forall i, j | 0 <= i < |ForcedLicenses| && 0 <= j < |ForcedLicenses| && i != j
      ensures !StartsWith(ForcedLicenses[i].0, ForcedLicenses[j].0)
    {
      var p := ForcedLicenses[i].0;
      var q := ForcedLicenses[j].0;
      if |q| <= |p| {
        assert p[..|q|] != q by { assert FamilyKey(p) != FamilyKey(q); }
      }
    }
  }

  /** The characters that tell the forced families apart (positions 1, 4 and 6). */
  function FamilyKey(p: string): seq<char>
    requires |p| >= 9
  {
    [p[1], p[4], p[6]]
  }

  /** The license id the MANIFEST gets: the first option, unless the bundle belongs to a forced family. */
  function NormalizedLicense(id: string, dirName: string): string {
    ApplyForced(FirstOption(id), dirName, ForcedLicenses)
  }

  /** A bundle of a forced family gets its family's license, whatever its MANIFEST said. */
  lemma ForcedFamilyLicense(id: string, dirName: string, i: int)
    requires 0 <= i < |ForcedLicenses| && StartsWith(dirName, ForcedLicenses[i].0)
    ensures NormalizedLicense(id, dirName) == ForcedLicenses[i].1
  {
    ForcedLicensesPrefixFree();
    ApplyForcedMatch(FirstOption(id), dirName, ForcedLicenses, i);
  }

  /** Any other bundle keeps the first option of its own license. */
  lemma OwnLicenseKept(id: string, dirName: string)
    requires forall i :: 0 <= i < |ForcedLicenses| ==> !StartsWith(dirName, ForcedLicenses[i].0)
    ensures NormalizedLicense(id, dirName) == FirstOption(id)
  {
    ApplyForcedNoMatch(FirstOption(id), dirName, ForcedLicenses);
  }

  /** The label a bundle is listed under: its category directory and its own directory. */
  function BundleLabel(bundleDir: string): string {
    FileName(Parent(bundleDir)) + "/" + FileName(bundleDir)
  }

  /** The bundles using each license, gathered over a whole build. */
  class LicenseRegistry {
    var used: map<string, set<string>>

    constructor()
      ensures used == map[]
    {
      used := map[];
    }

    /**
     * processLicense: a MANIFEST without a license identifier is left as it
     * is; otherwise its identifier is normalised and the bundle is listed
     * under it.
     */
    method ProcessLicense(bundleDir: string, manifest: Attributes) returns (result: Attributes)
      requires manifest.Valid()
      modifies this
      ensures result.Valid()
      ensures !manifest.Has(SpdxLicenseIdentifier) ==> result == manifest && used == old(used)
      ensures manifest.Has(SpdxLicenseIdentifier) ==>
        var id := NormalizedLicense(manifest.values[SpdxLicenseIdentifier], FileName(bundleDir));
        && result == manifest.Put(SpdxLicenseIdentifier, id)
        && used == old(used)[id := (if id in old(used) then old(used)[id] else {}) + {BundleLabel(bundleDir)}]
    {
      result := manifest;
      var spdx := manifest.Get(SpdxLicenseIdentifier);
      if spdx.Some? {
        var id := spdx.value;
        var orIndex := IndexOf(id, OrSeparator);
        if orIndex >= 0 {
          id := Trim(id[..orIndex]);
        }
        assert id == FirstOption(spdx.value);
        id := ForceLicense(id, FileName(bundleDir), ForcedLicenses);
        result := manifest.Put(SpdxLicenseIdentifier, id);
        ghost var normalized := NormalizedLicense(spdx.value, FileName(bundleDir));
        assert id == normalized;
        var users := if id in used then used[id] else {};
        used := used[id := users + {BundleLabel(bundleDir)}];
      }
    }
  }

  // ---------------------------------------------------------------- README

  const NoLicense: string := "An SPDX license id must have beend defined at this stage."

  /** The links of a standard SPDX identifier: one for a plain license, two for "license WITH exception". */
  function SpdxLinks(id: string): string {
    var w := IndexOf(id, WithSeparator);
    if w >= 0 then
      "which are available here: " + SpdxBase + Trim(id[..w]) + "\nand here: " + SpdxBase + id[w + |WithSeparator|..] + "\n"
    else "which is available here: " + SpdxBase + id + "\n"
  }

  /**
   * The license paragraph of README.repackaged: the identifier, then the
   * spdx.org links of a standard identifier, or the Bundle-License URL of a
   * LicenseRef (nothing when there is none). No identifier is an error.
   */
  function LicenseNotice(spdx: Option<string>, bundleLicense: Option<string>): (r: Result<string, Failure>)
    ensures spdx.None? <==> r == Failure(IllegalState(NoLicense))
  {
    match spdx
    case None => Failure(IllegalState(NoLicense))
    case Some(id) =>
      var links :=
        if !StartsWith(id, "LicenseRef") then SpdxLinks(id)
        else if bundleLicense.Some? then "which is available here: " + bundleLicense.value + "\n"
        else "";
      Success("\nIt is redistributed under the following license:\n\n" + "SPDX-Identifier: " + id + "\n\n" + links)
  }

  /** The paragraph names the identifier and the text that follows it gives the links. */
  function NoticeOf(id: string, links: string): string {
    "\nIt is redistributed under the following license:\n\n" + "SPDX-Identifier: " + id + "\n\n" + links
  }

  /** The exception follows the first " WITH " of a plain license id. */
  lemma SpdxLinksOfException(license: string, exception: string)
    requires IsPlainId(license)
    ensures SpdxLinks(license + WithSeparator + exception)
      == "which are available here: " + SpdxBase + license + "\nand here: " + SpdxBase + exception + "\n"
  {
    var id := license + WithSeparator + exception;
    assert ' ' !in license by {
      forall i | 0 <= i < |license| ensures license[i] != ' ' { assert !IsTrimmed(license[i]); }
    }
    IndexOfAfterPlainPrefix(license, WithSeparator, exception);
    assert id[..|license|] == license;
    assert id[|license| + |WithSeparator|..] == exception;
    TrimmedAlready(license);
  }

  /** A plain id that is not a LicenseRef stays one when an exception is appended. */
  lemma NotLicenseRef(license: string, tail: string)
    requires IsPlainId(license) && !StartsWith(license, "LicenseRef")
    requires tail != [] && tail[0] == ' '
    ensures !StartsWith(license + tail, "LicenseRef")
  {
    var id := license + tail;
    if |license| >= 10 {
      assert id[..10] == license[..10];
    } else {
      assert id[|license|] == ' ' && "LicenseRef"[|license|] != ' ';
    }
  }

  /** "license WITH exception" links to the license and to the exception separately. */
  lemma ExceptionLinks(license: string, exception: string, bundleLicense: Option<string>)
    requires IsPlainId(license) && !StartsWith(license, "LicenseRef")
    ensures var id := license + WithSeparator + exception;
      LicenseNotice(Some(id), bundleLicense)
        == Success(NoticeOf(id, "which are available here: " + SpdxBase + license + "\nand here: " + SpdxBase + exception + "\n"))
  {
    var id := license + WithSeparator + exception;
    assert id == license + (WithSeparator + exception);
    NotLicenseRef(license, WithSeparator + exception);
    SpdxLinksOfException(license, exception);
  }

  /** A plain standard identifier gets its one spdx.org link. */
  lemma PlainLicenseLink(id: string, bundleLicense: Option<string>)
    requires !Contains(id, WithSeparator) && !StartsWith(id, "LicenseRef")
    ensures LicenseNotice(Some(id), bundleLicense) == Success(NoticeOf(id, "which is available here: " + SpdxBase + id + "\n"))
  {
  }

  /** A LicenseRef is not on spdx.org: the Bundle-License URL is given instead, when there is one. */
  lemma LicenseRefLink(id: string, bundleLicense: Option<string>)
    requires StartsWith(id, "LicenseRef")
    ensures LicenseNotice(Some(id), bundleLicense)
      == Success(NoticeOf(id, if bundleLicense.Some? then "which is available here: " + bundleLicense.value + "\n" else ""))
  {
  }
}
