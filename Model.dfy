/**
 * The file name a model asset loads its entity from: the model name with
 * ".usdz" appended. Proved to be the inverse of the catalog's name
 * derivation for every name that does not itself contain ".usdz".
 */
module Model {
  import opened Strings
  import opened ContentView

  /** The file name the asynchronous entity load is keyed by. */
  function FileName(modelName: string): (fileName: string)
    ensures IsModelFile(fileName)
    ensures HasSuffix(fileName, ModelExtension)
    ensures |fileName| == |modelName| + |ModelExtension| && fileName[..|modelName|] == modelName
  {
    modelName + ModelExtension
  }

  /** ".usdz" never overlaps itself. */
  lemma ExtensionHasNoBorder()
    ensures NoBorder(ModelExtension)
  {
    var e := ModelExtension;
    forall k | 0 < k < |e|
      ensures e[..k] != e[|e| - k..]
    {
      assert e[..k][0] == '.' != e[|e| - k..][0];
    }
  }

  /** A model name without ".usdz" survives the trip to its file name and
      back through the catalog. */
  lemma FileNameRoundTrip(name: string)
    requires !Contains(name, ModelExtension)
    ensures ModelName(FileName(name)) == name
    ensures Catalog([FileName(name)]) == [name]
  {
    ExtensionHasNoBorder();
    RemoveAllAppended(name, ModelExtension);
    CatalogOfOne(FileName(name));
  }

  /** A bundle holding exactly the model files of some names, in some order,
      is catalogued as exactly those names, in that order. */
  lemma {:induction false} CatalogOfFileNames(names: seq<string>)
    requires forall k :: 0 <= k < |names| ==> !Contains(names[k], ModelExtension)
    ensures Catalog(seq(|names|, k requires 0 <= k < |names| => FileName(names[k]))) == names
  {
    var files := seq(|names|, k requires 0 <= k < |names| => FileName(names[k]));
    if names != [] {
      var n := |names| - 1;
      var prefix := names[..n];
      CatalogOfFileNames(prefix);
      assert files[..n] == seq(|prefix|, k requires 0 <= k < |prefix| => FileName(prefix[k]));
      FileNameRoundTrip(names[n]);
      assert prefix + [names[n]] == names;
    }
  }

  /** A file name whose only ".usdz" is the one it ends with is rebuilt
      exactly from its model name. */
  lemma ModelNameRoundTrip(fileName: string)
    requires HasSuffix(fileName, ModelExtension)
    requires !Contains(fileName[..|fileName| - |ModelExtension|], ModelExtension)
    ensures FileName(ModelName(fileName)) == fileName
  {
    var stem := fileName[..|fileName| - |ModelExtension|];
    assert fileName == stem + ModelExtension;
    FileNameRoundTrip(stem);
  }
}
