/**
 * The SBOM generator's format handling and the SPDX document it builds (sbom/generator.go,
 * sbom/types.go): one package and one DESCRIBES relationship per component.
 */
module SbomGenerator {
  import opened Wrappers
  import opened Text

  /** A software component found in an environment (Type is a Dafny keyword, hence `kind`). */
  datatype Component = Component(name: string, version: string, kind: string, purl: string,
                                 license: string, supplier: string, origin: string)

  const FormatCycloneDX: string := "cyclonedx"
  const FormatSPDX: string := "spdx"
  const CycloneDXMediaType: string := "application/vnd.cyclonedx+json"
  const SPDXMediaType: string := "application/spdx+json"

  /** ParseFormat: the exact spellings the switch lists, nothing else. */
  function ParseFormat(format: string): Result<string>
  {
    if format == "cyclonedx" || format == "CycloneDX" || format == "CYCLONEDX" then Ok(FormatCycloneDX)
    else if format == "spdx" || format == "SPDX" then Ok(FormatSPDX)
    else Err("unsupported SBOM format: " + format + " (supported: cyclonedx, spdx)")
  }

  /** GetMediaType: the media type of a known format, else plain JSON. */
  function GetMediaType(format: string): string
  {
    if format == FormatCycloneDX then CycloneDXMediaType
    else if format == FormatSPDX then SPDXMediaType
    else "application/json"
  }

  predicate Accepted(format: string)
  {
    format in ["cyclonedx", "CycloneDX", "CYCLONEDX", "spdx", "SPDX"]
  }

  /**
   * ParseFormat succeeds exactly on the five listed spellings, always with one of the two
   * canonical names, which parse to themselves and have their own media type.
   */
  lemma ParseFormatCorrect(format: string)
    ensures ParseFormat(format).Ok? <==> Accepted(format)
    ensures ParseFormat(format).Ok? ==>
      var f := ParseFormat(format).value;
      (f == FormatCycloneDX || f == FormatSPDX) && ParseFormat(f) == Ok(f)
      && GetMediaType(f) != "application/json"
  {
  }

  /** Which spelling maps to which format; mixed case other than the listed ones is refused. */
  lemma ParseFormatExamples()
    ensures ParseFormat("cyclonedx") == Ok(FormatCycloneDX)
    ensures ParseFormat("CycloneDX") == Ok(FormatCycloneDX)
    ensures ParseFormat("CYCLONEDX") == Ok(FormatCycloneDX)
    ensures ParseFormat("spdx") == Ok(FormatSPDX)
    ensures ParseFormat("SPDX") == Ok(FormatSPDX)
    ensures ParseFormat("invalid").Err? && ParseFormat("").Err?
    ensures ParseFormat("Spdx").Err? && ParseFormat("cycloneDX").Err?
  {
  }

  lemma MediaTypes()
    ensures GetMediaType(FormatCycloneDX) == "application/vnd.cyclonedx+json"
    ensures GetMediaType(FormatSPDX) == "application/spdx+json"
    ensures forall f :: f != FormatCycloneDX && f != FormatSPDX ==> GetMediaType(f) == "application/json"
  {
  }

  // ---------------------------------------------------------------- SPDX

  datatype SpdxExternalRef = SpdxExternalRef(category: string, refType: string, locator: string)

  datatype SpdxPackage = SpdxPackage(
    spdxId: string, name: string, versionInfo: string, downloadLocation: string, filesAnalyzed: bool,
    licenseConcluded: string, licenseDeclared: string, copyrightText: string,
    externalRefs: seq<SpdxExternalRef>, purpose: string, supplier: string)

  datatype SpdxRelationship = SpdxRelationship(element: string, relType: string, related: string)

  datatype SpdxDocument = SpdxDocument(
    spdxVersion: string, dataLicense: string, spdxId: string, name: string, namespace: string,
    created: string, creators: seq<string>, packages: seq<SpdxPackage>, relationships: seq<SpdxRelationship>)

  const NoAssertion: string := "NOASSERTION"

  /** The SPDX identifier of the i-th component (counted from 0): SPDXRef-Package-(i+1). */
  function PackageId(i: nat): string
  {
    "SPDXRef-Package-" + NatToString(i + 1)
  }

  /** The package recorded for one component. */
  function PackageOf(c: Component, id: string): SpdxPackage
  {
    SpdxPackage(id, c.name, c.version, NoAssertion, false,
                if c.license != "" then c.license else NoAssertion,
                if c.license != "" then c.license else NoAssertion,
                NoAssertion,
                if c.purl != "" then [SpdxExternalRef("PACKAGE-MANAGER", "purl", c.purl)] else [],
                "LIBRARY",
                if c.supplier != "" then "Organization: " + c.supplier else "")
  }

  function Describes(id: string): SpdxRelationship
  {
    SpdxRelationship("SPDXRef-DOCUMENT", "DESCRIBES", id)
  }

  /**
   * generateSPDX, short of its JSON rendering: the document header, then per component its
   * package and the relationship that says the document describes it. The creation time is a
   * parameter.
   */
  method GenerateSpdx(blueprintHash: string, toolName: string, toolVersion: string, created: string,
                      components: seq<Component>) returns (doc: SpdxDocument)
    ensures doc.spdxVersion == "SPDX-2.3" && doc.dataLicense == "CC0-1.0" && doc.spdxId == "SPDXRef-DOCUMENT"
    ensures doc.name == "holotree-sbom-" + blueprintHash
    ensures doc.namespace == "https://rcc.robocorp.com/spdx/" + blueprintHash
    ensures doc.created == created && doc.creators == ["Tool: " + toolName + "-" + toolVersion]
    ensures |doc.packages| == |components| && |doc.relationships| == |components|
    ensures forall i :: 0 <= i < |components| ==>
      doc.packages[i] == PackageOf(components[i], PackageId(i)) && doc.relationships[i] == Describes(PackageId(i))
  {
    var packages: seq<SpdxPackage> := [];
    var relationships: seq<SpdxRelationship> := [];
    var i := 0;
    while i < |components|
      invariant 0 <= i <= |components|
      invariant |packages| == i && |relationships| == i
      invariant forall k :: 0 <= k < i ==>
        packages[k] == PackageOf(components[k], PackageId(k)) && relationships[k] == Describes(PackageId(k))
    {
      var spdxId := "SPDXRef-Package-" + NatToString(i + 1);
      var pkg := NewPackage(components[i], spdxId);
      packages := packages + [pkg];
      relationships := relationships + [SpdxRelationship("SPDXRef-DOCUMENT", "DESCRIBES", spdxId)];
      i := i + 1;
    }
    doc := SpdxDocument("SPDX-2.3", "CC0-1.0", "SPDXRef-DOCUMENT", "holotree-sbom-" + blueprintHash,
                        "https://rcc.robocorp.com/spdx/" + blueprintHash, created,
                        ["Tool: " + toolName + "-" + toolVersion], packages, relationships);
  }

  /** The body of generateSPDX's loop for one component: the package, filled in field by field. */
  method NewPackage(comp: Component, spdxId: string) returns (pkg: SpdxPackage)
    ensures pkg == PackageOf(comp, spdxId)
  {
    pkg := SpdxPackage(spdxId, comp.name, comp.version, "NOASSERTION", false, "", "",
                       "NOASSERTION", [], "LIBRARY", "");
    if comp.license != "" {
      pkg := pkg.(licenseConcluded := comp.license, licenseDeclared := comp.license);
    } else {
      pkg := pkg.(licenseConcluded := "NOASSERTION", licenseDeclared := "NOASSERTION");
    }
    if comp.supplier != "" {
      pkg := pkg.(supplier := "Organization: " + comp.supplier);
    }
    if comp.purl != "" {
      pkg := pkg.(externalRefs := [SpdxExternalRef("PACKAGE-MANAGER", "purl", comp.purl)]);
    }
  }

  /** Different positions get different identifiers. */
  lemma PackageIdsDistinct(i: nat, j: nat)
    requires PackageId(i) == PackageId(j)
    ensures i == j
  {
    var p := "SPDXRef-Package-";
    assert NatToString(i + 1) == PackageId(i)[|p|..];
    assert NatToString(j + 1) == PackageId(j)[|p|..];
    NatToStringInjective(i + 1, j + 1);
  }

  /** Each relationship of a generated document names the package at its own position, and no other. */
  lemma RelationshipsResolve(doc: SpdxDocument, components: seq<Component>, i: nat, j: nat)
    requires |doc.packages| == |components| && |doc.relationships| == |components|
    requires forall k :: 0 <= k < |components| ==>
      doc.packages[k] == PackageOf(components[k], PackageId(k)) && doc.relationships[k] == Describes(PackageId(k))
    requires i < |components| && j < |components|
    ensures doc.relationships[i] == SpdxRelationship("SPDXRef-DOCUMENT", "DESCRIBES", doc.packages[i].spdxId)
    ensures doc.relationships[i].related == doc.packages[j].spdxId <==> i == j
  {
    if doc.relationships[i].related == doc.packages[j].spdxId {
      PackageIdsDistinct(i, j);
    }
  }

  /** What each package says about its component: license or NOASSERTION, purl reference, supplier. */
  lemma PackageFields(c: Component, id: string)
    ensures var p := PackageOf(c, id);
      p.spdxId == id && p.name == c.name && p.versionInfo == c.version
      && p.downloadLocation == NoAssertion && p.copyrightText == NoAssertion && !p.filesAnalyzed
    ensures var p := PackageOf(c, id);
      c.license == "" ==> p.licenseConcluded == NoAssertion && p.licenseDeclared == NoAssertion
    ensures var p := PackageOf(c, id);
      c.license != "" ==> p.licenseConcluded == c.license && p.licenseDeclared == c.license
    ensures var p := PackageOf(c, id);
      (|p.externalRefs| == 1 <==> c.purl != "") && (p.externalRefs == [] <==> c.purl == "")
      && (c.purl != "" ==> p.externalRefs[0].locator == c.purl)
    ensures var p := PackageOf(c, id);
      (p.supplier == "" <==> c.supplier == "") && (c.supplier != "" ==> HasSuffix(p.supplier, c.supplier))
  {
    var p := PackageOf(c, id);
    if c.supplier != "" {
      assert p.supplier == "Organization: " + c.supplier;
      assert p.supplier[|p.supplier| - |c.supplier|..] == c.supplier;
    }
  }
}
