# WinSparkle appcast records and feed loader

This project models the appcast component of WinSparkle, a software-update library for Windows. An appcast is a feed that lists update candidates. Each feed entry becomes an `Appcast` record. The record holds:

- the version and short version string;
- the release-notes URL and the web-browser URL;
- the title and the description;
- the minimum OS version;
- the critical-update flag;
- an `Enclosure`, the direct-download payload: download URL, DSA and EdDSA signatures, OS tag and installer arguments.

Three predicates are computed from the current field values: `Enclosure.IsValid`, `Appcast.HasDownload` and `Appcast.IsValid`. Downstream code uses them to choose between "download and install it ourselves" and "open the browser".

`Appcast.Load` reads a feed and returns the usable records in feed order. Malformed markup is its only failure. An entry that does not apply to the running platform is skipped, and so is an invalid entry. A feed with nothing usable loads as an empty list, and that counts as success.

Files:

- `wrappers.dfy`: the `Result` datatype that stands for "returns a list or throws".
- `sequences.dfy`: `IsSubsequence`, a reference definition of "the same elements with some deleted, order kept", and `StrictlyIncreasing`.
- `appcast.dfy`: module `WinSparkle`. It holds the records, the predicates, the loader, its filtering pass `KeepUsable` and the lemmas about them.
- `scenarios.dfy`: module `LoadScenarios`, which loads small feeds (one entry, three entries) and states what comes out.

How the loader is modelled:

- The markup parser and the tree walk over it are a foreign collaborator. They are the parameter `walk: string -> Result<seq<Appcast>, LoadError>`, which yields one candidate record per entry, in document order, or a markup error.
- The rule that decides whether an entry applies to this platform (OS tag, minimum OS version) is also not part of the visible code. It is the parameter `applicable: Appcast -> bool`.
- `Load` passes a markup error through unchanged. Otherwise it keeps the candidates that are applicable and valid (`Usable`), in their original order.

The enclosure is a plain member of the record (src/appcast.h:83), not an optional one. An entry without a usable download therefore has an enclosure whose download URL is empty, and `HasDownload` is false for it. The model follows the code here.

## Model

| member | source | states |
|---|---|---|
| `WinSparkle.Enclosure.Default` | src/appcast.h:63-80 | a default-constructed enclosure has all strings empty and is not valid |
| `WinSparkle.Appcast.Default` | src/appcast.h:39-61 | a default-constructed record is not critical, has no version, no browser URL and an empty enclosure, and is neither valid nor has a download |
| `WinSparkle.Enclosure.IsValid` | src/appcast.h:80 | no contract: its body is the source's one-line test that the download URL is non-empty; `EnclosureValidIffDownloadURL` states what it means |
| `WinSparkle.Appcast.HasDownload` | src/appcast.h:105-107 | no contract: its body is the source's one-line delegation to the enclosure's validity; `HasDownloadIffEnclosureValid` states what it means |
| `WinSparkle.Appcast.IsValid` | src/appcast.h:102-103 | no contract: its body is the source's one-line expression, a non-empty version and either a download or a non-empty web-browser URL; `AppcastValidIff` states what it means |
| `WinSparkle.Usable` | src/appcast.h:91-96 | no contract: the model's reading of a "usable update", a candidate that is applicable and valid; the filter keeps exactly these (`KeepUsableByIndices`) |
| `WinSparkle.EnclosureValidIffDownloadURL` | src/appcast.h:80 | an enclosure is valid iff its download URL is non-empty; changing its signatures, OS tag or installer arguments never changes its validity |
| `WinSparkle.HasDownloadIffEnclosureValid` | src/appcast.h:105-107 | a record has a download iff its enclosure is valid, i.e. iff the enclosure's download URL is non-empty |
| `WinSparkle.AppcastValidIff` | src/appcast.h:102-103 | a record is valid iff its version is non-empty and its download URL or its web-browser URL is non-empty |
| `WinSparkle.EmptyVersionNeverValid` | src/appcast.h:103 | a record with an empty version is never valid, whatever its URLs |
| `WinSparkle.ValidWithoutDownloadHasBrowserURL` | src/appcast.h:103-107 | a valid record without a download always has a web-browser URL to open |
| `WinSparkle.ValidityDependsOnlyOnKeyFields` | src/appcast.h:80-107 | two records that agree on version, web-browser URL and download URL agree on `IsValid` and `HasDownload`; no other field plays a part |
| `WinSparkle.ClearingDownloadURL` | src/appcast.h:80-107 | after the download URL is set to empty, `HasDownload` is false, and the record is valid iff its version and web-browser URL are both non-empty |
| `WinSparkle.Appcast.Load` | src/appcast.h:86-100 | fails iff the markup walk fails, with the same error and no list; on success the list is a subsequence of the feed's entries, and each record in it is applicable and valid |
| `WinSparkle.KeepUsable` | src/appcast.h:89-96 | the filtering pass returns no more records than it was given; each kept record is applicable and valid and is one of the candidates |
| `WinSparkle.UsableIndices` | src/appcast.h:91 | the positions it returns are strictly increasing and in range; a position is among them iff the candidate there is applicable and valid |
| `WinSparkle.KeepUsableAppend` | src/appcast.h:89 | filtering a concatenation equals concatenating the filtered parts: each entry is judged on its own and appended in document order |
| `WinSparkle.KeepUsableIsSubsequence` | src/appcast.h:89 | the kept records are a subsequence of the candidates; nothing is re-sorted |
| `WinSparkle.KeepUsableByIndices` | src/appcast.h:89-91 | the k-th kept record is the candidate at the k-th usable position, and there are exactly as many kept records as usable positions |
| `WinSparkle.KeepUsableEmptyIff` | src/appcast.h:95-96 | the filter returns the empty list iff no candidate is applicable and valid |
| `WinSparkle.KeepUsableKeepsAllUsable` | src/appcast.h:91-96 | a list whose entries are all applicable and valid passes through the filter unchanged |
| `WinSparkle.KeepUsableIdempotent` | src/appcast.h:91-96 | filtering the filter's output again changes nothing; a corollary of `KeepUsableKeepsAllUsable` |
| `WinSparkle.LoadKeepsExactlyUsableInOrder` | src/appcast.h:89-91 | on well-formed markup, `Load` succeeds; its k-th record is the feed entry at the k-th usable position, and it returns no other records |
| `WinSparkle.LoadEmptyIffNothingUsable` | src/appcast.h:93-96 | on well-formed markup, `Load` returns a successful empty list iff no entry is applicable and valid |
| `WinSparkle.LoadOmitsUnusable` | src/appcast.h:91-96 | an entry that is not usable (not applicable, or without a version, or with neither a download URL nor a web-browser URL) is absent from the result |
| `LoadScenarios.DirectDownloadEntryKept` | src/appcast.h:100-107 | a feed with one applicable entry that has a version and a download URL loads as that one record, which is valid and has a download |
| `LoadScenarios.ForeignPlatformEntrySkipped` | src/appcast.h:91 | a feed whose only entry is for another platform loads as an empty, successful list |
| `LoadScenarios.ManualUpdateEntryKept` | src/appcast.h:100-107 | a feed with one applicable entry that has a version and only a web-browser URL loads as that record, which is valid and has no download |
| `LoadScenarios.VersionlessEntrySkipped` | src/appcast.h:91-96 | a feed whose only entry lacks a version but has a valid enclosure loads as an empty, successful list |
| `LoadScenarios.DroppedEntryKeepsOrder` | src/appcast.h:89-91 | a feed [A, B, C] in which B is invalid and A and C are usable loads as [A, C] |

## Left out

- Markup parsing and the walk over the element tree: the body of `Load` is in src/appcast.cpp, which is not part of this model. The walk is the `walk` parameter. How an entry's elements become record fields is not modelled, including which enclosure is chosen when an entry has several.
- OS matching and the minimum-OS-version comparison: these rules sit in src/appcast.cpp, whose body is outside this model. They are the `applicable` parameter, and no string-matching semantics is assumed.
- Dropping invalid entries: the header's comment names only inapplicable entries as skipped (src/appcast.h:91) and speaks of "no usable update" (src/appcast.h:95). The model reads "usable" as "applicable and valid", so `Load` also drops entries that fail `Appcast.IsValid`. Where src/appcast.cpp, whose body is outside this model, performs that check is not modelled.
- `LoadError` carries only a reason string. The position reported by the markup parser is not modelled separately.
- Fetching the feed over the network, verifying DSA/EdDSA signatures, comparing versions with the running application, downloading, installing and launching the browser: all are outside this component. Signatures, the OS tag and installer arguments are opaque strings that no predicate checks; URLs are checked only for emptiness, as the code does.
- URL syntax: the code checks only that a URL is non-empty, and so does the model.
- Thread safety: calls share no state, so there is nothing concurrent to model.
