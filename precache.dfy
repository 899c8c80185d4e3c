/** The precache manifest: the paths install stores, in order. */
module Precache {
  import opened CacheStorage

  const Manifest: seq<string> := [
    "/",
    "/index.html",
    "/pages/furniture.html",
    "/pages/ac.html",
    "/pages/contact.html",
    "/pages/privacy.html",
    "/src/style.css",
    "/src/main.js",
    "/images/logo.jpg",
    "/images/furniture-moving.jpg",
    "/images/furniture-disassembly.jpg",
    "/images/furniture-wrapping.jpg",
    "/images/furniture-assembly.jpg",
    "/images/ac-installation.jpg",
    "/images/ac-disassembly.jpg",
    "/images/ac-moving.jpg",
    "/images/ac-cleaning.jpg",
    "/manifest.json"
  ]

  /** Where a path sits in the manifest, read from its length and its sixth
      character from the end, which already tell the 18 paths apart; -1 for
      a path that fingerprint does not place. */
  function Position(path: string): int
  {
    match (|path|, if |path| < 6 then ' ' else path[|path| - 6])
      case (1, ' ') => 0
      case (11, 'x') => 1
      case (21, 'e') => 2
      case (14, 'c') => 3
      case (19, 't') => 4
      case (19, 'y') => 5
      case (14, 'l') => 6
      case (12, 'a') => 7
      case (16, 'g') => 8
      case (28, 'n') => 9
      case (33, 'l') => 10
      case (30, 'n') => 11
      case (30, 'l') => 12
      case (27, 'o') => 13
      case (26, 'l') => 14
      case (21, 'n') => 15
      case (23, 'n') => 16
      case (14, 't') => 17
      case _ => -1
  }

  /** The manifest lists 18 distinct paths, so its `addAll` batch never
      names one request twice. */
  lemma ManifestDistinct()
    ensures |Manifest| == 18
    ensures NoDuplicates(Manifest)
  {
    assert forall i :: 0 <= i < |Manifest| ==> Position(Manifest[i]) == i;
  }
}
