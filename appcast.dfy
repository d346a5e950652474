/** The update records of a WinSparkle appcast feed, their validity
    predicates, and the feed loader that keeps the usable records in feed order. */
module WinSparkle {
  import opened Wrappers
  import opened Sequences

  /** The direct-download payload of an update. The signatures, the OS tag and
      the installer arguments are opaque strings: only the download URL takes
      part in validity. */
  datatype Enclosure = Enclosure(
    downloadURL: string,
    dsaSignature: string,
    edDsaSignature: string,
    os: string,
    installerArguments: string)
  {
    /** The enclosure can be downloaded: its URL is non-empty. */
    predicate IsValid() {
      downloadURL != []
    }

    /** A default-initialised enclosure: every string empty. */
    static function Default(): (e: Enclosure)
      ensures !e.IsValid()
      ensures e.dsaSignature == [] && e.edDsaSignature == [] && e.os == [] && e.installerArguments == []
    {
      Enclosure("", "", "", "", "")
    }
  }

  /** Why a feed could not be read at all: the markup is not well formed. */
  datatype LoadError = MarkupError(reason: string)

  /** One update candidate described by a feed entry. The enclosure is always
      present; an entry without a usable download has an invalid one. */
  datatype Appcast = Appcast(
    version: string,
    shortVersionString: string,
    releaseNotesURL: string,
    webBrowserURL: string,
    title: string,
    description: string,
    minOSVersion: string,
    criticalUpdate: bool,
    enclosure: Enclosure)
  {
    /** Download and install the update directly (true) or send the user to
        `webBrowserURL` (false). */
    predicate HasDownload() {
      enclosure.IsValid()
    }

    /** The record is usable: it has a version and some way to obtain the update. */
    predicate IsValid() {
      version != [] && (HasDownload() || webBrowserURL != [])
    }

    /** A default-constructed record: no data, not critical. */
    static function Default(): (a: Appcast)
      ensures !a.criticalUpdate
      ensures a.version == [] && a.webBrowserURL == [] && a.enclosure == Enclosure.Default()
      ensures !a.IsValid() && !a.HasDownload()
    {
      Appcast("", "", "", "", "", "", "", false, Enclosure.Default())
    }

    /** Loads the updates of the feed `xml`. `walk` is the markup parser and
        tree walk that turns the text into one candidate record per entry, in
        document order, or reports malformed markup; `applicable` says whether a
        candidate targets the running platform. Malformed markup is the only
        failure and yields no list; every other anomaly only drops the entry. */
    static function Load(
      xml: string,
      walk: string -> Result<seq<Appcast>, LoadError>,
      applicable: Appcast -> bool): (r: Result<seq<Appcast>, LoadError>)
      ensures r.Failure? <==> walk(xml).Failure?
      ensures r.Failure? ==> r.error == walk(xml).error
      ensures r.Success? ==> IsSubsequence(r.value, walk(xml).value)
      ensures r.Success? ==> forall k :: 0 <= k < |r.value| ==> applicable(r.value[k]) && r.value[k].IsValid()
    {
      match walk(xml)
      case Failure(e) => Failure(e)
      case Success(candidates) =>
        KeepUsableIsSubsequence(candidates, applicable);
        Success(KeepUsable(candidates, applicable))
    }
  }

  /** A candidate the loader keeps: it applies to this platform and is valid. */
  predicate Usable(a: Appcast, applicable: Appcast -> bool) {
    applicable(a) && a.IsValid()
  }

  /** The filtering pass of the loader: the usable candidates, in feed order. */
  function KeepUsable(candidates: seq<Appcast>, applicable: Appcast -> bool): (kept: seq<Appcast>)
    ensures |kept| <= |candidates|
    ensures forall k :: 0 <= k < |kept| ==> applicable(kept[k]) && kept[k].IsValid()
    ensures forall x :: x in kept ==> x in candidates
  {
    if candidates == [] then []
    else
      (if Usable(candidates[0], applicable) then [candidates[0]] else [])
      + KeepUsable(candidates[1..], applicable)
  }

  /** The positions of the usable candidates, in increasing order. */
  function UsableIndices(candidates: seq<Appcast>, applicable: Appcast -> bool): (idx: seq<nat>)
    ensures StrictlyIncreasing(idx)
    ensures forall k :: 0 <= k < |idx| ==> idx[k] < |candidates|
    ensures forall i :: 0 <= i < |candidates| ==> (i in idx <==> Usable(candidates[i], applicable))
  {
    if candidates == [] then []
    else
      var n := |candidates| - 1;
      UsableIndices(candidates[..n], applicable)
      + (if Usable(candidates[n], applicable) then [n] else [])
  }

  // ---------------------------------------------------------------------------
  // Validity predicates

  /** An enclosure is valid exactly when its download URL is non-empty; its
      signatures, OS tag and installer arguments play no part. */
  lemma EnclosureValidIffDownloadURL(e: Enclosure, dsa: string, edDsa: string, os: string, args: string)
    ensures e.IsValid() <==> |e.downloadURL| > 0
    ensures e.(dsaSignature := dsa, edDsaSignature := edDsa, os := os, installerArguments := args).IsValid()
            == e.IsValid()
  {
  }

  /** A record has a download exactly when its enclosure is valid, that is,
      when the enclosure's download URL is non-empty. */
  lemma HasDownloadIffEnclosureValid(a: Appcast)
    ensures a.HasDownload() <==> a.enclosure.IsValid()
    ensures a.HasDownload() <==> |a.enclosure.downloadURL| > 0
  {
  }

  /** A record is valid exactly when its version is non-empty and it has
      either a download URL or a web-browser URL. */
  lemma AppcastValidIff(a: Appcast)
    ensures a.IsValid() <==> |a.version| > 0 && (|a.enclosure.downloadURL| > 0 || |a.webBrowserURL| > 0)
  {
  }

  /** The version is required even on the manual-update path. */
  lemma EmptyVersionNeverValid(a: Appcast)
    requires a.version == []
    ensures !a.IsValid()
  {
  }

  /** When a valid record offers no download, the browser fallback has a URL to open. */
  lemma ValidWithoutDownloadHasBrowserURL(a: Appcast)
    requires a.IsValid() && !a.HasDownload()
    ensures a.webBrowserURL != []
  {
  }

  /** Validity depends only on the version, the web-browser URL and the
      download URL: two records that agree on those agree on both predicates. */
  lemma ValidityDependsOnlyOnKeyFields(a: Appcast, b: Appcast)
    requires a.version == b.version && a.webBrowserURL == b.webBrowserURL
    requires a.enclosure.downloadURL == b.enclosure.downloadURL
    ensures a.IsValid() == b.IsValid()
    ensures a.HasDownload() == b.HasDownload()
  {
  }

  /** The predicates are recomputed from the fields: emptying the download
      URL removes the download, and the record stays valid only through its
      version and web-browser URL. */
  lemma ClearingDownloadURL(a: Appcast)
    ensures !a.(enclosure := a.enclosure.(downloadURL := "")).HasDownload()
    ensures a.(enclosure := a.enclosure.(downloadURL := "")).IsValid()
            <==> a.version != [] && a.webBrowserURL != []
  {
  }

  // ---------------------------------------------------------------------------
  // The filtering pass

  /** Filtering a concatenation filters each part: entries are judged one at a
      time and appended in document order. */
  lemma {:induction false} KeepUsableAppend(a: seq<Appcast>, b: seq<Appcast>, applicable: Appcast -> bool)
    ensures KeepUsable(a + b, applicable) == KeepUsable(a, applicable) + KeepUsable(b, applicable)
  {
    if a == [] {
      assert a + b == b;
    } else {
      assert (a + b)[0] == a[0];
      assert (a + b)[1..] == a[1..] + b;
      KeepUsableAppend(a[1..], b, applicable);
    }
  }

  /** The kept records are a subsequence of the candidates: nothing is
      re-sorted. */
  lemma {:induction false} KeepUsableIsSubsequence(candidates: seq<Appcast>, applicable: Appcast -> bool)
    ensures IsSubsequence(KeepUsable(candidates, applicable), candidates)
  {
    if candidates != [] {
      var rest := KeepUsable(candidates[1..], applicable);
      KeepUsableIsSubsequence(candidates[1..], applicable);
      if Usable(candidates[0], applicable) {
        var kept := KeepUsable(candidates, applicable);
        assert kept == [candidates[0]] + rest;
        assert kept[0] == candidates[0] && kept[1..] == rest;
      } else {
        assert KeepUsable(candidates, applicable) == rest;
      }
    }
  }

  /** The kept records are exactly the usable candidates, in feed order: the
      k-th kept record is the candidate at the k-th usable position. */
  lemma {:induction false} KeepUsableByIndices(candidates: seq<Appcast>, applicable: Appcast -> bool)
    ensures |KeepUsable(candidates, applicable)| == |UsableIndices(candidates, applicable)|
    ensures forall k :: 0 <= k < |UsableIndices(candidates, applicable)| ==>
              KeepUsable(candidates, applicable)[k] == candidates[UsableIndices(candidates, applicable)[k]]
  {
    if candidates != [] {
      var n := |candidates| - 1;
      var prefix, last := candidates[..n], candidates[n];
      assert candidates == prefix + [last];
      KeepUsableAppend(prefix, [last], applicable);
      KeepUsableByIndices(prefix, applicable);
      assert [last][1..] == [];
      var kept, idx := KeepUsable(candidates, applicable), UsableIndices(candidates, applicable);
      var keptPrefix, idxPrefix := KeepUsable(prefix, applicable), UsableIndices(prefix, applicable);
      forall k | 0 <= k < |idx|
        ensures kept[k] == candidates[idx[k]]
      {
        if k < |idxPrefix| {
          assert kept[k] == keptPrefix[k];
          assert idx[k] == idxPrefix[k];
        }
      }
    }
  }

  /** The filter returns the empty list exactly when no candidate is usable. */
  lemma KeepUsableEmptyIff(candidates: seq<Appcast>, applicable: Appcast -> bool)
    ensures KeepUsable(candidates, applicable) == []
            <==> forall i :: 0 <= i < |candidates| ==> !Usable(candidates[i], applicable)
  {
    KeepUsableByIndices(candidates, applicable);
    var idx := UsableIndices(candidates, applicable);
    if exists i :: 0 <= i < |candidates| && Usable(candidates[i], applicable) {
      var i :| 0 <= i < |candidates| && Usable(candidates[i], applicable);
      assert i in idx;
    }
  }

  /** A list that is already all usable passes through the filter unchanged. */
  lemma {:induction false} KeepUsableKeepsAllUsable(candidates: seq<Appcast>, applicable: Appcast -> bool)
    requires forall i :: 0 <= i < |candidates| ==> Usable(candidates[i], applicable)
    ensures KeepUsable(candidates, applicable) == candidates
  {
    if candidates != [] {
      KeepUsableKeepsAllUsable(candidates[1..], applicable);
      assert candidates == [candidates[0]] + candidates[1..];
    }
  }

  /** Filtering the loader's own output again changes nothing; a corollary of
      `KeepUsableKeepsAllUsable`, since every kept record is usable. */
  lemma KeepUsableIdempotent(candidates: seq<Appcast>, applicable: Appcast -> bool)
    ensures KeepUsable(KeepUsable(candidates, applicable), applicable) == KeepUsable(candidates, applicable)
  {
    KeepUsableKeepsAllUsable(KeepUsable(candidates, applicable), applicable);
  }

  // ---------------------------------------------------------------------------
  // The loader

  /** On a well-formed feed the result holds exactly the usable entries, in
      feed order, and nothing else. */
  lemma LoadKeepsExactlyUsableInOrder(
    xml: string, walk: string -> Result<seq<Appcast>, LoadError>, applicable: Appcast -> bool)
    requires walk(xml).Success?
    ensures Appcast.Load(xml, walk, applicable).Success?
    ensures |Appcast.Load(xml, walk, applicable).value| == |UsableIndices(walk(xml).value, applicable)|
    ensures forall k :: 0 <= k < |UsableIndices(walk(xml).value, applicable)| ==>
              Appcast.Load(xml, walk, applicable).value[k]
              == walk(xml).value[UsableIndices(walk(xml).value, applicable)[k]]
  {
    KeepUsableByIndices(walk(xml).value, applicable);
  }

  /** A well-formed feed with no usable entry loads as the empty list, which
      is a success; and the empty list is returned only in that case. */
  lemma LoadEmptyIffNothingUsable(
    xml: string, walk: string -> Result<seq<Appcast>, LoadError>, applicable: Appcast -> bool)
    requires walk(xml).Success?
    ensures Appcast.Load(xml, walk, applicable) == Success([])
            <==> forall i :: 0 <= i < |walk(xml).value| ==> !Usable(walk(xml).value[i], applicable)
  {
    KeepUsableEmptyIff(walk(xml).value, applicable);
  }

  /** An entry that is not usable never appears in the result: one for
      another platform, one without a version, and one with a version but
      neither a download URL nor a web-browser URL alike. */
  lemma LoadOmitsUnusable(
    xml: string, walk: string -> Result<seq<Appcast>, LoadError>, applicable: Appcast -> bool, i: nat)
    requires walk(xml).Success? && i < |walk(xml).value|
    requires !Usable(walk(xml).value[i], applicable)
    ensures walk(xml).value[i] !in Appcast.Load(xml, walk, applicable).value
  {
  }
}
