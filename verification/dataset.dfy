/** The reference catalog built at startup: the dataset directory listing is filtered by
    image extension, each file is named by its base name without extension, and every
    file's decoded buffer is stored under that name in an object, so a later file with
    the same name replaces the buffer while the name keeps its first position. */
module Dataset {
  import opened Common
  import opened JsText
  import opened NodePath
  import opened ImageDistance

  /** One key of the in-memory buffer object: a catalog name and its buffer, or `null`
      when `processImage` failed for that file. */
  datatype Entry = Entry(name: string, pixels: Option<Pixels>)

  /** The extension filter applied to the directory listing (case-sensitive). */
  predicate HasImageExtension(file: string)
  {
    EndsWith(file, ".png") || EndsWith(file, ".jpg") || EndsWith(file, ".jpeg")
  }

  /** The listing filtered down to image files, in listing order. */
  function DatasetFiles(listing: seq<string>): (files: seq<string>)
  {
    if |listing| == 0 then []
    else
      var n := |listing| - 1;
      var f := DatasetFiles(listing[..n]);
      if HasImageExtension(listing[n]) then f + [listing[n]] else f
  }

  /** The filter keeps exactly the image files of the listing. */
  lemma {:induction false} DatasetFilesMembers(listing: seq<string>)
    ensures forall i | 0 <= i < |DatasetFiles(listing)| ::
              HasImageExtension(DatasetFiles(listing)[i]) && DatasetFiles(listing)[i] in listing
    ensures forall i | 0 <= i < |listing| :: HasImageExtension(listing[i]) ==> listing[i] in DatasetFiles(listing)
  {
    if |listing| > 0 {
      var n := |listing| - 1;
      DatasetFilesMembers(listing[..n]);
      assert listing == listing[..n] + [listing[n]];
    }
  }

  /** A one-entry listing keeps its entry, once, exactly when it is an image file. */
  lemma DatasetFilesSingle(file: string)
    ensures DatasetFiles([file]) == if HasImageExtension(file) then [file] else []
  {
    assert [file][..0] == [];
  }

  /** The filter keeps the listing's order: filtering a concatenation concatenates the parts. */
  lemma {:induction false} DatasetFilesAppend(a: seq<string>, b: seq<string>)
    ensures DatasetFiles(a + b) == DatasetFiles(a) + DatasetFiles(b)
    decreases |b|
  {
    if |b| > 0 {
      var n := |b| - 1;
      DatasetFilesAppend(a, b[..n]);
      var ab := a + b;
      assert ab[..|ab| - 1] == a + b[..n];
      assert ab[|ab| - 1] == b[n];
      assert DatasetFiles(ab) == if HasImageExtension(b[n]) then DatasetFiles(a + b[..n]) + [b[n]] else DatasetFiles(a + b[..n]);
      assert DatasetFiles(b) == if HasImageExtension(b[n]) then DatasetFiles(b[..n]) + [b[n]] else DatasetFiles(b[..n]);
    } else {
      assert a + b == a;
    }
  }

  /** The catalog name of a file: its base name with its extension, as Node sees it, cut off. */
  function DatasetName(file: string): string
  {
    BaseName(file, ExtName(file))
  }

  lemma ExtensionIsLastDot(file: string, ext: string)
    requires |ext| >= 2 && ext[0] == '.' && '.' !in ext[1..]
    requires EndsWith(file, ext) && file != ext
    ensures ExtName(file) == ext
  {
    var p := |file| - |ext|;
    assert file[p..] == ext;
    assert file[p] == '.';
    var q := LastIndexOf(file, '.');
    assert q.Some?;
    assert q.value == p;
  }

  /** A file ending in one of the accepted extensions (and longer than it) is named by
      what precedes the extension. */
  lemma DatasetNameStripsExtension(file: string, ext: string)
    requires ext == ".png" || ext == ".jpg" || ext == ".jpeg"
    requires EndsWith(file, ext) && file != ext
    ensures DatasetName(file) + ext == file
    ensures |DatasetName(file)| > 0
  {
    assert ext[1..] == "png" || ext[1..] == "jpg" || ext[1..] == "jpeg";
    ExtensionIsLastDot(file, ext);
    assert file[..|file| - |ext|] + ext == file;
  }

  /** A file that is nothing but an extension has no extension for Node: its name is the
      whole file name. */
  lemma DatasetNameOfBareExtension(file: string)
    requires file == ".png" || file == ".jpg" || file == ".jpeg"
    ensures DatasetName(file) == file
  {
    assert file[0] == '.' && '.' !in file[1..];
    assert LastIndexOf(file, '.') == Some(0);
  }

  /** An image file is named by its base name without the matched extension; a file that
      is nothing but an extension (".png") keeps its whole name. Either way the name is
      never empty. */
  lemma DatasetNameSpec(file: string, ext: string)
    requires ext == ".png" || ext == ".jpg" || ext == ".jpeg"
    requires EndsWith(file, ext)
    ensures |DatasetName(file)| > 0
    ensures file == ext ==> DatasetName(file) == file
    ensures file != ext ==> DatasetName(file) + ext == file
  {
    if file == ext {
      DatasetNameOfBareExtension(file);
    } else {
      DatasetNameStripsExtension(file, ext);
    }
  }

  /** Every file that passes the extension filter gets a non-empty name. */
  lemma DatasetNameNonEmpty(file: string)
    requires HasImageExtension(file)
    ensures |DatasetName(file)| > 0
  {
    if EndsWith(file, ".png") {
      DatasetNameSpec(file, ".png");
    } else if EndsWith(file, ".jpg") {
      DatasetNameSpec(file, ".jpg");
    } else {
      DatasetNameSpec(file, ".jpeg");
    }
  }

  /** One element of the startup `dataset` array: a catalog name and the file it comes from. */
  datatype DataFile = DataFile(name: string, file: string)

  /** The startup `dataset` array: every image file of the listing, in listing order, with
      its derived name. */
  function DataFiles(listing: seq<string>): (dataset: seq<DataFile>)
  {
    var files := DatasetFiles(listing);
    seq(|files|, k requires 0 <= k < |files| => DataFile(DatasetName(files[k]), files[k]))
  }

  /** The name of a dataset file is the file name without its image extension, or the whole
      file name when that is nothing but the extension. */
  predicate NamedAfterExtension(d: DataFile)
  {
    && (EndsWith(d.file, ".png") && d.file != ".png" ==> d.name + ".png" == d.file)
    && (EndsWith(d.file, ".jpg") && d.file != ".jpg" ==> d.name + ".jpg" == d.file)
    && (EndsWith(d.file, ".jpeg") && d.file != ".jpeg" ==> d.name + ".jpeg" == d.file)
    && (d.file == ".png" || d.file == ".jpg" || d.file == ".jpeg" ==> d.name == d.file)
  }

  /** The name derived for an image file follows its extension. */
  lemma DataFileNamed(file: string)
    requires HasImageExtension(file)
    ensures NamedAfterExtension(DataFile(DatasetName(file), file))
    ensures DatasetName(file) != ""
  {
    if EndsWith(file, ".png") {
      DatasetNameSpec(file, ".png");
    }
    if EndsWith(file, ".jpg") {
      DatasetNameSpec(file, ".jpg");
    }
    if EndsWith(file, ".jpeg") {
      DatasetNameSpec(file, ".jpeg");
    }
  }

  /** Every element of the `dataset` array is an image file of the listing with a non-empty
      name that follows its extension, and every image file of the listing is there. */
  lemma DataFilesSpec(listing: seq<string>)
    ensures forall k | 0 <= k < |DataFiles(listing)| ::
              && DataFiles(listing)[k].file in listing
              && HasImageExtension(DataFiles(listing)[k].file)
              && DataFiles(listing)[k].name != ""
              && NamedAfterExtension(DataFiles(listing)[k])
    ensures forall i | 0 <= i < |listing| && HasImageExtension(listing[i]) ::
              exists k | 0 <= k < |DataFiles(listing)| :: DataFiles(listing)[k].file == listing[i]
  {
    var files := DatasetFiles(listing);
    var dataset := DataFiles(listing);
    DatasetFilesMembers(listing);
    forall k | 0 <= k < |dataset|
      ensures dataset[k].file in listing && HasImageExtension(dataset[k].file)
      ensures dataset[k].name != "" && NamedAfterExtension(dataset[k])
    {
      assert dataset[k] == DataFile(DatasetName(files[k]), files[k]);
      DataFileNamed(files[k]);
    }
    forall i | 0 <= i < |listing| && HasImageExtension(listing[i])
      ensures exists k | 0 <= k < |dataset| :: dataset[k].file == listing[i]
    {
      var k :| 0 <= k < |files| && files[k] == listing[i];
      assert dataset[k].file == listing[i];
    }
  }

  /** A one-entry listing gives one named dataset file when it is an image file, and none
      otherwise. */
  lemma DataFilesSingle(file: string)
    ensures DataFiles([file]) == if HasImageExtension(file) then [DataFile(DatasetName(file), file)] else []
  {
    DatasetFilesSingle(file);
  }

  /** The `dataset` array keeps listing order: the array of a concatenated listing is the
      concatenation of the arrays. */
  lemma DataFilesAppend(a: seq<string>, b: seq<string>)
    ensures DataFiles(a + b) == DataFiles(a) + DataFiles(b)
  {
    DatasetFilesAppend(a, b);
    var fa := DatasetFiles(a);
    var l := DataFiles(a + b);
    var r := DataFiles(a) + DataFiles(b);
    forall k | 0 <= k < |l|
      ensures l[k] == r[k]
    {
      if k < |fa| {
        assert r[k] == DataFiles(a)[k];
      } else {
        assert r[k] == DataFiles(b)[k - |fa|];
      }
    }
  }

  /** The catalog names in catalog order. */
  function Names(cat: seq<Entry>): seq<string>
  {
    seq(|cat|, i requires 0 <= i < |cat| => cat[i].name)
  }

  function IndexOfName(cat: seq<Entry>, name: string): (r: Option<nat>)
    ensures r.None? ==> forall i | 0 <= i < |cat| :: cat[i].name != name
    ensures r.Some? ==> r.value < |cat| && cat[r.value].name == name
  {
    if |cat| == 0 then None
    else if cat[0].name == name then Some(0)
    else
      match IndexOfName(cat[1..], name)
      case None => None
      case Some(i) => Some(i + 1)
  }

  /** Storing a buffer under a name in the buffer object: an existing key keeps its
      position and takes the new buffer, a new key is appended; every other key is
      untouched. */
  function Put(cat: seq<Entry>, name: string, pixels: Option<Pixels>): (r: seq<Entry>)
    requires NoDup(Names(cat))
    ensures NoDup(Names(r))
    ensures Names(r) == if name in Names(cat) then Names(cat) else Names(cat) + [name]
    ensures forall i | 0 <= i < |r| :: r[i].name == name ==> r[i].pixels == pixels
    ensures forall i | 0 <= i < |cat| :: cat[i].name != name ==> r[i] == cat[i]
  {
    match IndexOfName(cat, name)
    case Some(i) =>
      var r := cat[i := Entry(name, pixels)];
      assert Names(cat)[i] == name;
      assert Names(r) == Names(cat);
      forall j | 0 <= j < |r| && j != i
        ensures r[j].name != name
      {
        assert r[j] == cat[j];
        assert Names(cat)[j] == cat[j].name;
      }
      r
    case None =>
      assert name !in Names(cat);
      var r := cat + [Entry(name, pixels)];
      assert Names(r) == Names(cat) + [name];
      r
  }

  /** The names of a dataset, position by position. */
  function DataNames(dataset: seq<DataFile>): seq<string>
  {
    seq(|dataset|, k requires 0 <= k < |dataset| => dataset[k].name)
  }

  /** The position of the last dataset file carrying `name`, if any. */
  function LastNamed(dataset: seq<DataFile>, name: string): (r: Option<nat>)
    ensures r.None? ==> forall k | 0 <= k < |dataset| :: dataset[k].name != name
    ensures r.Some? ==> r.value < |dataset| && dataset[r.value].name == name
    ensures r.Some? ==> forall k | r.value < k < |dataset| :: dataset[k].name != name
  {
    if |dataset| == 0 then None
    else if dataset[|dataset| - 1].name == name then Some(|dataset| - 1)
    else LastNamed(dataset[..|dataset| - 1], name)
  }

  /** `loadDatasetImages`: one assignment per dataset file, in order; `load` stands for
      `processImage` on the file in the dataset folder. */
  function Load(dataset: seq<DataFile>, load: string -> Option<Pixels>): (cat: seq<Entry>)
    ensures NoDup(Names(cat))
  {
    if |dataset| == 0 then []
    else
      var n := |dataset| - 1;
      Put(Load(dataset[..n], load), dataset[n].name, load(dataset[n].file))
  }

  /** The catalog after startup. */
  function BuildCatalog(listing: seq<string>, load: string -> Option<Pixels>): seq<Entry>
  {
    Load(DataFiles(listing), load)
  }

  /** The catalog holds each distinct dataset name once, in order of first appearance. */
  lemma {:induction false} LoadNames(dataset: seq<DataFile>, load: string -> Option<Pixels>)
    ensures Names(Load(dataset, load)) == Dedup(DataNames(dataset))
  {
    if |dataset| > 0 {
      var n := |dataset| - 1;
      var prefix := dataset[..n];
      LoadNames(prefix, load);
      var names := DataNames(dataset);
      assert names[..n] == DataNames(prefix);
      assert names[n] == dataset[n].name;
    }
  }

  /** Each catalog name holds the buffer loaded from the LAST dataset file carrying it. */
  lemma {:induction false} LoadBuffers(dataset: seq<DataFile>, load: string -> Option<Pixels>, i: nat)
    requires i < |Load(dataset, load)|
    ensures LastNamed(dataset, Load(dataset, load)[i].name).Some?
    ensures Load(dataset, load)[i].pixels
            == load(dataset[LastNamed(dataset, Load(dataset, load)[i].name).value].file)
  {
    var n := |dataset| - 1;
    var prefix := dataset[..n];
    var c0 := Load(prefix, load);
    var cat := Load(dataset, load);
    var nm := dataset[n].name;
    if cat[i].name != nm {
      assert i < |c0| by {
        assert Names(cat)[i] == cat[i].name;
      }
      assert cat[i] == c0[i];
      LoadBuffers(prefix, load, i);
      assert LastNamed(dataset, cat[i].name) == LastNamed(prefix, cat[i].name);
    }
  }

  /** The catalog after startup lists each dataset name once, in order of first
      appearance. */
  lemma CatalogNames(listing: seq<string>, load: string -> Option<Pixels>)
    ensures Names(BuildCatalog(listing, load)) == Dedup(DataNames(DataFiles(listing)))
    ensures NoDup(Names(BuildCatalog(listing, load)))
  {
    LoadNames(DataFiles(listing), load);
  }

  /** Some image file of the listing is named `name`. */
  ghost predicate Listed(listing: seq<string>, name: string)
  {
    exists f | f in listing :: HasImageExtension(f) && DatasetName(f) == name
  }

  /** A name is in the catalog exactly when some image file of the listing carries it. */
  lemma CatalogMembership(listing: seq<string>, load: string -> Option<Pixels>, name: string)
    ensures name in Names(BuildCatalog(listing, load)) <==> Listed(listing, name)
  {
    var files := DatasetFiles(listing);
    var dataset := DataFiles(listing);
    var names := DataNames(dataset);
    CatalogNames(listing, load);
    DatasetFilesMembers(listing);
    if name in names {
      var k :| 0 <= k < |names| && names[k] == name;
      assert dataset[k] == DataFile(DatasetName(files[k]), files[k]);
      var f := files[k];
      assert f in listing && HasImageExtension(f) && DatasetName(f) == name;
    }
    if Listed(listing, name) {
      var f :| f in listing && HasImageExtension(f) && DatasetName(f) == name;
      var k :| 0 <= k < |files| && files[k] == f;
      assert dataset[k] == DataFile(DatasetName(files[k]), files[k]);
      assert names[k] == name;
    }
  }

  /** Catalog names are never empty, so a match's name is always truthy. */
  lemma CatalogNamesNonEmpty(listing: seq<string>, load: string -> Option<Pixels>)
    ensures forall i | 0 <= i < |BuildCatalog(listing, load)| :: BuildCatalog(listing, load)[i].name != ""
  {
    var dataset := DataFiles(listing);
    var cat := BuildCatalog(listing, load);
    var d := Dedup(DataNames(dataset));
    CatalogNames(listing, load);
    DataFilesSpec(listing);
    forall i | 0 <= i < |cat|
      ensures cat[i].name != ""
    {
      assert d[i] == Names(cat)[i] == cat[i].name;
      var k :| 0 <= k < |dataset| && DataNames(dataset)[k] == cat[i].name;
      assert dataset[k].name != "";
    }
  }
}
