/** Small feeds and what loading them yields, for any markup walk and any
    platform rule that treat the entries as stated. */
module LoadScenarios {
  import opened Wrappers
  import opened WinSparkle

  /** One applicable entry with a version and a download URL is kept and is
      installed directly. */
  lemma DirectDownloadEntryKept(
    xml: string, walk: string -> Result<seq<Appcast>, LoadError>, applicable: Appcast -> bool, a: Appcast)
    requires walk(xml) == Success([a]) && applicable(a)
    requires a.version != [] && a.enclosure.downloadURL != []
    ensures Appcast.Load(xml, walk, applicable) == Success([a])
    ensures a.IsValid() && a.HasDownload()
  {
    assert [a][1..] == [];
    assert KeepUsable([a], applicable) == [a];
  }

  /** One entry for another platform leaves an empty, successful result. */
  lemma ForeignPlatformEntrySkipped(
    xml: string, walk: string -> Result<seq<Appcast>, LoadError>, applicable: Appcast -> bool, a: Appcast)
    requires walk(xml) == Success([a]) && !applicable(a)
    ensures Appcast.Load(xml, walk, applicable) == Success([])
  {
    assert [a][1..] == [];
  }

  /** One applicable entry with a version and only a web-browser URL is kept
      and sends the user to the browser. */
  lemma ManualUpdateEntryKept(
    xml: string, walk: string -> Result<seq<Appcast>, LoadError>, applicable: Appcast -> bool, a: Appcast)
    requires walk(xml) == Success([a]) && applicable(a)
    requires a.version != [] && a.enclosure.downloadURL == [] && a.webBrowserURL != []
    ensures Appcast.Load(xml, walk, applicable) == Success([a])
    ensures a.IsValid() && !a.HasDownload()
  {
    assert [a][1..] == [];
    assert KeepUsable([a], applicable) == [a];
  }

  /** An entry without a version is dropped even with a valid enclosure. */
  lemma VersionlessEntrySkipped(
    xml: string, walk: string -> Result<seq<Appcast>, LoadError>, applicable: Appcast -> bool, a: Appcast)
    requires walk(xml) == Success([a]) && applicable(a)
    requires a.version == [] && a.enclosure.IsValid()
    ensures Appcast.Load(xml, walk, applicable) == Success([])
  {
    assert [a][1..] == [];
  }

  /** A dropped entry between two kept ones leaves the kept ones in feed order. */
  lemma DroppedEntryKeepsOrder(
    xml: string, walk: string -> Result<seq<Appcast>, LoadError>, applicable: Appcast -> bool,
    a: Appcast, b: Appcast, c: Appcast)
    requires walk(xml) == Success([a, b, c])
    requires Usable(a, applicable) && !b.IsValid() && Usable(c, applicable)
    ensures Appcast.Load(xml, walk, applicable) == Success([a, c])
  {
    assert [a, b, c][1..] == [b, c];
    assert [b, c][1..] == [c];
    assert [c][1..] == [];
    assert KeepUsable([c], applicable) == [c];
    assert KeepUsable([b, c], applicable) == [c];
    assert KeepUsable([a, b, c], applicable) == [a] + [c];
    assert [a] + [c] == [a, c];
  }
}
