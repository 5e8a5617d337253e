/**
 * The tag catalogue (package-collector.go lines 260-304): the curated tag
 * definitions, keyed by file name without `.json`, extended with every tag
 * some package carries. A curated entry keeps its description; a tag known
 * only from packages gets an empty one. The test `all_tags[tag].Name == ""`
 * also treats an entry whose name is empty as missing.
 */
module TagCatalogue {
  import opened GoStrings
  import opened Packages

  /** A curated definition as read from one file: its base name and its description. */
  datatype TagFile = TagFile(baseName: string, description: string)

  /** Every entry is stored under its own name. */
  ghost predicate NamesMatchKeys(tags: map<string, Tag>) {
    forall name :: name in tags ==> tags[name].name == name
  }

  /** The curated definitions in walk order; a later file with the same name replaces an earlier one. */
  function CuratedTags(files: seq<TagFile>): (tags: map<string, Tag>)
    ensures NamesMatchKeys(tags)
    ensures forall name :: name in tags <==> exists f :: f in files && TrimSuffix(f.baseName, ".json") == name
  {
    if files == [] then map[]
    else
      var f := files[|files| - 1];
      var name := TrimSuffix(f.baseName, ".json");
      CuratedTags(files[..|files| - 1])[name := Tag(name, f.description)]
  }

  /** The entry for a file's name holds that file's description when no later file has the same name. */
  lemma {:induction false} CuratedLastWins(files: seq<TagFile>, i: int)
    requires 0 <= i < |files|
    requires forall j :: i < j < |files| ==> TrimSuffix(files[j].baseName, ".json") != TrimSuffix(files[i].baseName, ".json")
    ensures var name := TrimSuffix(files[i].baseName, ".json");
      name in CuratedTags(files) && CuratedTags(files)[name] == Tag(name, files[i].description)
  {
    if i < |files| - 1 {
      CuratedLastWins(files[..|files| - 1], i);
    }
  }

  /** The inner step of lines 296-302 for one tag. */
  function AddTag(tags: map<string, Tag>, tag: string): map<string, Tag> {
    if tag !in tags || tags[tag].name == "" then tags[tag := Tag(tag, "")] else tags
  }

  function AddTags(tags: map<string, Tag>, labels: seq<string>): map<string, Tag> {
    if labels == [] then tags else AddTag(AddTags(tags, labels[..|labels| - 1]), labels[|labels| - 1])
  }

  /** The nested loop of lines 295-304, as a specification. */
  function AddPackageTags(tags: map<string, Tag>, packages: seq<Package>): map<string, Tag> {
    if packages == [] then tags
    else AddTags(AddPackageTags(tags, packages[..|packages| - 1]), packages[|packages| - 1].tags)
  }

  method ExtendCatalogue(curated: map<string, Tag>, packages: seq<Package>) returns (tags: map<string, Tag>)
    ensures tags == AddPackageTags(curated, packages)
  {
    tags := curated;
    for i := 0 to |packages|
      invariant tags == AddPackageTags(curated, packages[..i])
    {
      var labels := packages[i].tags;
      ghost var before := tags;
      for j := 0 to |labels|
        invariant tags == AddTags(before, labels[..j])
      {
        var tag := labels[j];
        if tag !in tags || tags[tag].name == "" {
          tags := tags[tag := Tag(tag, "")];
        }
        assert labels[..j + 1][..j] == labels[..j];
      }
      assert labels[..|labels|] == labels;
      assert packages[..i + 1][..i] == packages[..i];
    }
    assert packages[..|packages|] == packages;
  }

  /** What adding labels does to a catalogue whose entries carry their own names. */
  lemma {:induction false} AddTagsSpec(tags: map<string, Tag>, labels: seq<string>)
    requires NamesMatchKeys(tags)
    ensures NamesMatchKeys(AddTags(tags, labels))
    ensures forall name :: name in AddTags(tags, labels) <==> name in tags || name in labels
    ensures forall name :: name in tags && name != "" ==> AddTags(tags, labels)[name] == tags[name]
    ensures forall name :: name in tags ==> AddTags(tags, labels)[name] in {tags[name], Tag(name, "")}
    ensures forall name :: name in AddTags(tags, labels) && name !in tags ==> AddTags(tags, labels)[name].description == ""
  {
    if labels != [] {
      var init := labels[..|labels| - 1];
      AddTagsSpec(tags, init);
      assert labels == init + [labels[|labels| - 1]];
    }
  }

  /** The set of tags carried by any of the packages. */
  ghost predicate OnSomePackage(packages: seq<Package>, name: string) {
    exists p :: p in packages && name in p.tags
  }

  /**
   * The finished catalogue: every package tag is in it under its own name, a
   * curated entry with a non-empty name keeps its description, and a tag that
   * only packages carry has an empty description.
   */
  lemma {:induction false} CatalogueSpec(curated: map<string, Tag>, packages: seq<Package>)
    requires NamesMatchKeys(curated)
    ensures NamesMatchKeys(AddPackageTags(curated, packages))
    ensures forall name :: name in AddPackageTags(curated, packages) <==> name in curated || OnSomePackage(packages, name)
    ensures forall name :: name in curated && name != "" ==> AddPackageTags(curated, packages)[name] == curated[name]
    ensures forall name :: name in AddPackageTags(curated, packages) && name !in curated ==> AddPackageTags(curated, packages)[name].description == ""
  {
    if packages != [] {
      var init, last := packages[..|packages| - 1], packages[|packages| - 1];
      CatalogueSpec(curated, init);
      AddTagsSpec(AddPackageTags(curated, init), last.tags);
      assert packages == init + [last];
      forall name | OnSomePackage(packages, name) && name !in last.tags
        ensures OnSomePackage(init, name)
      {
        var p :| p in packages && name in p.tags;
        assert p in init;
      }
      forall name | OnSomePackage(init, name)
        ensures OnSomePackage(packages, name)
      {
        var p :| p in init && name in p.tags;
        assert p in packages;
      }
    }
  }
}
