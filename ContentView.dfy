/**
 * The model catalog of the content view: the list of model names the picker
 * shows, derived once from the directory listing of the app's resource
 * bundle. A file is taken as a model when its name ends in "usdz" (no dot),
 * and its model name is the file name with every ".usdz" (with the dot)
 * deleted from it.
 */
module ContentView {
  import opened Wrappers
  import opened Strings

  /** The suffix a file name is tested for. */
  const ModelSuffix: string := "usdz"

  /** The text deleted from a kept file name. */
  const ModelExtension: string := ".usdz"

  /** The filter of the catalog loop. */
  predicate IsModelFile(filename: string)
  {
    HasSuffix(filename, ModelSuffix)
  }

  /** The model name derived from a kept file name. */
  function ModelName(filename: string): string
  {
    RemoveAll(filename, ModelExtension)
  }

  /** The catalog of a directory listing: the model names of the model files,
      in listing order. Defined on prefixes, the way the loop builds it. */
  function Catalog(files: seq<string>): (models: seq<string>)
    ensures |models| <= |files|
  {
    if files == [] then []
    else
      var last := files[|files| - 1];
      Catalog(files[..|files| - 1]) + (if IsModelFile(last) then [ModelName(last)] else [])
  }

  /** The positions of the model files in a listing, in increasing order:
      exactly the indices whose file name ends in "usdz". */
  function ModelFileIndices(files: seq<string>): (idx: seq<nat>)
    ensures forall k :: 0 <= k < |idx| ==> idx[k] < |files| && IsModelFile(files[idx[k]])
    ensures forall k, l :: 0 <= k < l < |idx| ==> idx[k] < idx[l]
    ensures forall i :: 0 <= i < |files| && IsModelFile(files[i]) ==> i in idx
  {
    if files == [] then []
    else
      var n := |files| - 1;
      var prefix := files[..n];
      var before := ModelFileIndices(prefix);
      assert forall k :: 0 <= k < |before| ==> files[before[k]] == prefix[before[k]];
      before + (if IsModelFile(files[n]) then [n] else [])
  }

  /**
   * The models closure: nothing when the bundle has no resource path or its
   * directory cannot be listed; otherwise every listed file name ending in
   * "usdz", with ".usdz" deleted, appended in listing order.
   * `contentsOfDirectory` stands for the file manager's directory listing,
   * `None` for the error it throws.
   */
  method Models(resourcePath: Option<string>, contentsOfDirectory: string -> Option<seq<string>>)
    returns (availableModels: seq<string>)
    ensures resourcePath.None? ==> availableModels == []
    ensures resourcePath.Some? && contentsOfDirectory(resourcePath.value).None? ==> availableModels == []
    ensures resourcePath.Some? && contentsOfDirectory(resourcePath.value).Some? ==>
              availableModels == Catalog(contentsOfDirectory(resourcePath.value).value)
  {
    if resourcePath.None? {
      return [];
    }
    var listing := contentsOfDirectory(resourcePath.value);
    if listing.None? {
      return [];
    }
    var files := listing.value;
    availableModels := [];
    for i := 0 to |files|
      invariant availableModels == Catalog(files[..i])
    {
      assert files[..i + 1][..i] == files[..i];
      var filename := files[i];
      if IsModelFile(filename) {
        var modelName := ModelName(filename);
        availableModels := availableModels + [modelName];
      }
    }
    assert files[..|files|] == files;
  }

  /** The catalog holds one entry per model file, in listing order: entry k
      is the model name of the k-th model file. */
  lemma {:induction false} CatalogSelectsModelFiles(files: seq<string>)
    ensures |Catalog(files)| == |ModelFileIndices(files)|
    ensures forall k :: 0 <= k < |Catalog(files)| ==>
              Catalog(files)[k] == ModelName(files[ModelFileIndices(files)[k]])
  {
    if files != [] {
      var n := |files| - 1;
      var prefix := files[..n];
      CatalogSelectsModelFiles(prefix);
      var before := ModelFileIndices(prefix);
      assert forall k :: 0 <= k < |before| ==> files[before[k]] == prefix[before[k]];
    }
  }

  /** A listed file name contributes a catalog entry, its model name,
      exactly when it ends in "usdz". */
  lemma CatalogKeepsExactlyModelFiles(files: seq<string>, i: nat)
    requires i < |files|
    ensures IsModelFile(files[i]) <==>
              exists k :: 0 <= k < |ModelFileIndices(files)| && ModelFileIndices(files)[k] == i &&
                          k < |Catalog(files)| && Catalog(files)[k] == ModelName(files[i])
  {
    CatalogSelectsModelFiles(files);
    var idx := ModelFileIndices(files);
    if IsModelFile(files[i]) {
      var k :| 0 <= k < |idx| && idx[k] == i;
    }
  }

  /** Cataloguing two listings one after the other is cataloguing their
      concatenation: the catalog keeps the order of the listing. */
  lemma {:induction false} CatalogAppend(a: seq<string>, b: seq<string>)
    ensures Catalog(a + b) == Catalog(a) + Catalog(b)
    decreases |b|
  {
    if b == [] {
      assert a + b == a;
    } else {
      var n := |b| - 1;
      assert (a + b)[..|a + b| - 1] == a + b[..n];
      CatalogAppend(a, b[..n]);
    }
  }

  /** A listing of a single file name. */
  lemma CatalogOfOne(filename: string)
    ensures Catalog([filename]) == if IsModelFile(filename) then [ModelName(filename)] else []
  {
  }

  /** The filter and the deletion disagree: a name ending in "usdz" without
      a dot before it is kept, and kept unchanged. */
  lemma KeptUnchanged(filename: string)
    requires IsModelFile(filename) && !Contains(filename, ModelExtension)
    ensures Catalog([filename]) == [filename]
  {
    CatalogOfOne(filename);
    RemoveAllNoOccurrence(filename, ModelExtension);
  }

  /** "fooxusdz" is kept under its own name. */
  lemma KeptUnchangedExample()
    ensures Catalog(["fooxusdz"]) == ["fooxusdz"]
  {
    var f := "fooxusdz";
    assert f[|f| - 4..] == ModelSuffix;
    forall i: nat | i <= |f|
      ensures !OccursAt(f, ModelExtension, i)
    {
      if i + 5 <= |f| {
        assert f[i..i + 5][0] == f[i] != '.';
      }
    }
    KeptUnchanged(f);
  }

  /** Every ".usdz" goes, not only the last one: "a.usdz.usdz" becomes "a". */
  lemma EveryExtensionRemovedExample()
    ensures Catalog(["a.usdz.usdz"]) == ["a"]
  {
    var f := "a.usdz.usdz";
    assert f[|f| - 4..] == ModelSuffix;
    assert f[..5][0] == 'a';
    assert !OccursAt(f, ModelExtension, 0);
    var g := f[1..];
    assert g == ".usdz.usdz" && OccursAt(g, ModelExtension, 0);
    var h := g[5..];
    assert h == ".usdz" && OccursAt(h, ModelExtension, 0);
    assert h[5..] == [];
    assert ModelName(f) == [f[0]] + ModelName(g) == "a";
    CatalogOfOne(f);
  }

  /** Deleting can bring a new ".usdz" together, so a model name may still
      contain ".usdz": "..usdzusdz" becomes ".usdz". */
  lemma NameMayKeepExtensionExample()
    ensures Catalog(["..usdzusdz"]) == [".usdz"]
    ensures Contains(".usdz", ModelExtension)
  {
    var f := "..usdzusdz";
    assert f[|f| - 4..] == ModelSuffix;
    assert f[..5][1] == '.';
    assert !OccursAt(f, ModelExtension, 0);
    var g := f[1..];
    assert g == ".usdzusdz" && OccursAt(g, ModelExtension, 0);
    var h := g[5..];
    assert h == "usdz";
    assert ModelName(f) == [f[0]] + ModelName(g) == ".usdz";
    CatalogOfOne(f);
    assert OccursAt(".usdz", ModelExtension, 0);
  }

  /** A file name whose deletion changes nothing is one without ".usdz". */
  lemma ModelNameUnchangedIff(filename: string)
    ensures ModelName(filename) == filename <==> !Contains(filename, ModelExtension)
  {
    RemoveAllUnchangedIff(filename, ModelExtension);
  }
}
