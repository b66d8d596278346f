/**
 * multi-org-comparator/src/packageXml.ts: the legacy package.xml builder,
 * which writes one wildcard `<types>` block per requested type.
 */
module PackageXml {
  import opened Strings
  import opened Seqs
  import RecentMetadata

  /** The block that `generatePackageXmlForAllMetadata` writes for one type. */
  function WildcardBlock(t: string): string
  {
    "  <types>\n    <members>*</members>\n    <name>" + t + "</name>\n  </types>"
  }

  /** `generatePackageXmlForAllMetadata` as written in this file. */
  function GeneratePackageXmlForAllMetadata(types: seq<string>): (xml: string)
    ensures StartsWith(xml, RecentMetadata.Header) && EndsWith(xml, RecentMetadata.Footer)
  {
    var body := Join(MapSeq(types, WildcardBlock), "\n");
    var xml := RecentMetadata.Header + body + RecentMetadata.Footer;
    assert xml[..|RecentMetadata.Header|] == RecentMetadata.Header;
    assert xml[|xml| - |RecentMetadata.Footer|..] == RecentMetadata.Footer;
    xml
  }

  /**
   * `generatePackageXml`, kept for backward compatibility: the same document
   * as the recent-metadata module's wildcard builder, which is the grouped
   * document with one `*` member per listed type, in input order, repeats kept.
   */
  function GeneratePackageXml(types: seq<string>): (xml: string)
    ensures xml == RecentMetadata.GeneratePackageXmlForAllMetadata(types)
    ensures xml == RecentMetadata.RenderPackage(RecentMetadata.StarGroups(types))
  {
    SameAsRecentMetadata(types);
    RecentMetadata.AllMetadataIsStarGroups(types);
    GeneratePackageXmlForAllMetadata(types)
  }

  lemma WildcardBlockIsStarBlock(t: string)
    ensures WildcardBlock(t) == RecentMetadata.StarBlock(t)
  {
    var open := "  <types>\n";
    var member := "    <members>*</members>";
    assert open + member == "  <types>\n    <members>*</members>";
    assert "  <types>\n    <members>*</members>\n    <name>" == open + member + "\n    <name>";
  }

  /** The two copies of the wildcard builder agree on every input. */
  lemma SameAsRecentMetadata(types: seq<string>)
    ensures GeneratePackageXmlForAllMetadata(types) == RecentMetadata.GeneratePackageXmlForAllMetadata(types)
  {
    forall i | 0 <= i < |types| ensures WildcardBlock(types[i]) == RecentMetadata.StarBlock(types[i]) {
      WildcardBlockIsStarBlock(types[i]);
    }
    assert MapSeq(types, WildcardBlock) == MapSeq(types, RecentMetadata.StarBlock);
  }
}
