# ModelPickerAR model catalog, in Dafny

ModelPickerAR is an iOS augmented-reality app that shows a strip of 3D model
thumbnails. The list of models is computed once, when the content view is
created: the app lists the files of its resource bundle, keeps every file
name ending in `usdz`, deletes every `.usdz` from it, and keeps the results in
listing order. When the bundle has no resource path, or its directory cannot
be listed, the list is empty. A model asset later loads its 3D entity from
the file name `modelName + ".usdz"`.

This project models that derivation and proves what it does.

- `Strings.dfy` models the two string operations used. `HasSuffix` is Swift's
  `hasSuffix`. `RemoveAll` is Foundation's `replacingOccurrences(of:with:)`
  with an empty replacement: it scans left to right and deletes
  non-overlapping matches, and it does not rescan text that a deletion joins
  together. `RemoveAllByFind` is a second definition, in the style of
  Foundation's find-then-continue loop. The two are proved equal.
- `ContentView.dfy` models the `models` closure. `Models` is a method with the
  closure's loop; it covers both guard failures. `Catalog` is the pure
  specification the loop invariant relates to. Lemmas state the
  filter-and-rename property, order, length, and the two quirks of the code:
  - the filter tests `usdz` without the dot, while the deletion removes
    `.usdz` with the dot;
  - every `.usdz` is removed, not only the final extension.
- `Model.dfy` models the file-name construction of the model asset. It proves
  the round trip between that construction and the catalog.
- `Wrappers.dfy` holds `Option`, which stands for Swift's optionals.

The bundle's resource path and the file manager's directory listing are
parameters of `Models`. The path is an `Option<string>`. The listing is a
function from a path to `Option<seq<string>>`, where `None` stands for the
error that `try?` turns into `nil`.

## Model

| member | source | states |
|---|---|---|
| ContentView.Models | ContentView.swift:12-29 | No resource path gives `[]`. A directory that cannot be listed gives `[]`. Otherwise the result is exactly `Catalog` of the listing; the loop invariant says the array built so far is the catalog of the files seen so far. |
| ContentView.Catalog | ContentView.swift:21-27 | The catalog never has more entries than the listing has files. |
| ContentView.ModelFileIndices | ContentView.swift:22 | The positions of the files ending in `usdz`, strictly increasing. Every position it lists holds such a file, and every such file's position is listed. |
| ContentView.CatalogSelectsModelFiles | ContentView.swift:21-25 | The catalog has one entry per file ending in `usdz`. Entry k is the model name of the k-th such file, so listing order is kept. |
| ContentView.CatalogKeepsExactlyModelFiles | ContentView.swift:22-24 | A listed file contributes an entry, namely its model name, if and only if its name ends in `usdz`. |
| ContentView.CatalogAppend | ContentView.swift:21-25 | The catalog of two listings joined is the two catalogs joined, so the order of the listing is preserved. |
| ContentView.CatalogOfOne | ContentView.swift:22-24 | A single file gives its model name when it ends in `usdz`, and nothing otherwise. |
| ContentView.KeptUnchanged | ContentView.swift:22-23 | A name that ends in `usdz` but contains no `.usdz` is kept, and kept unchanged. |
| ContentView.KeptUnchangedExample | ContentView.swift:22-23 | `"fooxusdz"` is catalogued as `"fooxusdz"`. |
| ContentView.EveryExtensionRemovedExample | ContentView.swift:23 | `"a.usdz.usdz"` is catalogued as `"a"`: every occurrence is deleted, not only the extension. |
| ContentView.NameMayKeepExtensionExample | ContentView.swift:23 | `"..usdzusdz"` is catalogued as `".usdz"`, so a model name can still contain `.usdz`. |
| ContentView.ModelNameUnchangedIff | ContentView.swift:23 | The deletion leaves a file name unchanged if and only if the name contains no `.usdz`. |
| Strings.RemoveAll | ContentView.swift:23 | Deleting occurrences never makes a string longer. |
| Strings.FirstOccurrence | ContentView.swift:23 | The first match at or after a position: it is a match, and no earlier position from there matches. If there is none, no position from there matches. |
| Strings.RemoveAllSkip | ContentView.swift:23 | Text before the first match is kept as it is, and the scan goes on from there. |
| Strings.RemoveAllNoOccurrence | ContentView.swift:23 | A string with no match is returned unchanged. |
| Strings.RemoveAllIsRemoveAllByFind | ContentView.swift:23 | The left-to-right scan gives the same result as the find-first, delete, continue-after definition, for every string and pattern. |
| Strings.RemoveAllShrinks | ContentView.swift:23 | A string that contains the pattern loses at least one full copy of it. |
| Strings.RemoveAllUnchangedIff | ContentView.swift:23 | For a non-empty pattern, the result equals the input if and only if the input does not contain the pattern. |
| Strings.RemoveAllAppended | ContentView.swift:23 | Take a string without the pattern and append one copy of a pattern that cannot overlap itself. Deleting every occurrence then gives back the original string. |
| Model.FileName | Model.swift:25 | The file name built from a model name passes the catalog's filter, ends in `.usdz`, and starts with the model name. |
| Model.FileNameRoundTrip | Model.swift:25 | For a name containing no `.usdz`, the file `name + ".usdz"` is kept by the filter and strips back to exactly `name` (ContentView.swift:22-23). |
| Model.CatalogOfFileNames | Model.swift:25 | A listing made of the file names of some `.usdz`-free model names is catalogued as exactly those names, in the same order. |
| Model.ModelNameRoundTrip | Model.swift:25 | Take a file name whose only `.usdz` is its final extension. Its model name, with `.usdz` appended, rebuilds it exactly. |

## Left out

- `Bundle.main.resourcePath` and `FileManager.contentsOfDirectory` (ContentView.swift:14-17) are file-system I/O. They become the parameters of `Models`.
- The SwiftUI views (`ContentView.body`, `ARViewContainer`, `ModelPickerView`, `PlacementButtonsView`, the previews) are presentation only.
- The picker's button and the cancel and confirm buttons only log a message. The code has no selection, confirmation or placement state, so none is modelled.
- `Model`'s asynchronous entity load through Combine and RealityKit is left out. It is a foreign, concurrent call with a callback. Only its file-name construction (Model.swift:25) is modelled. The completion handler logs a failure message on every completion, including a successful one; that logging is not modelled.
- The force-unwrapped `UIImage(named:)` lookups (ContentView.swift:67, Model.swift:22) are asset-catalog lookups, not logic.
- Strings are sequences of characters compared one by one. Swift compares `String`s by grapheme clusters under Unicode canonical equivalence, and Foundation's search works on UTF-16 units. Strings whose characters combine or normalise differently are outside this model.
- `Catalog` does not state the count of files ending in `usdz` as a set cardinality. `CatalogSelectsModelFiles` states it instead: the catalog's length equals the number of such positions in `ModelFileIndices`, which is at most the listing's length.
