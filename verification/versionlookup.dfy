/** Finding the configured release in the version manifest: a scan of the
    manifest's `versions` array in order that stops at the first entry
    whose `id` is the wanted version. */
module VersionLookup {
  import opened Wrappers

  /** One entry of the manifest's `versions` array: the fields the program
      reads are the `id` and the `url` of the per-version metadata. */
  datatype VersionEntry = VersionEntry(id: string, url: string)

  /** Position `i` holds the wanted version and no earlier position does. */
  predicate IsFirstMatch(versions: seq<VersionEntry>, version: string, i: int) {
    0 <= i < |versions| && versions[i].id == version
    && forall j :: 0 <= j < i ==> versions[j].id != version
  }

  /** The position where the scan stops, or None when it runs off the end. */
  function FindVersion(versions: seq<VersionEntry>, version: string): (r: Option<nat>)
    ensures r.None? <==> forall j :: 0 <= j < |versions| ==> versions[j].id != version
    ensures r.Some? ==> IsFirstMatch(versions, version, r.value)
  {
    FindFrom(versions, version, 0)
  }

  /** The scan continued from position `from`. */
  function FindFrom(versions: seq<VersionEntry>, version: string, from: nat): (r: Option<nat>)
    requires from <= |versions|
    ensures r.None? ==> forall j :: from <= j < |versions| ==> versions[j].id != version
    ensures r.Some? ==> from <= r.value < |versions| && versions[r.value].id == version
    ensures r.Some? ==> forall j :: from <= j < r.value ==> versions[j].id != version
    decreases |versions| - from
  {
    if from == |versions| then None
    else if versions[from].id == version then Some(from)
    else FindFrom(versions, version, from + 1)
  }

  /** There is only one first match, so the scan's answer is it. */
  lemma FirstMatchUnique(versions: seq<VersionEntry>, version: string, i: int)
    requires IsFirstMatch(versions, version, i)
    ensures FindVersion(versions, version) == Some(i)
  {
  }
}
