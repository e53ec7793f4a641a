/**
 * The variant handling of cmd/templater.go: the required-field check of a
 * variant and of the whole variants file, the choice between a plain and a
 * templated variants file, the injection of `image` and `name` into a
 * variant's data, the command-line overrides (`UpdateData`) and the order in
 * which `Render` prepares each variant.
 *
 * Every `utils.Error` is fatal, so each check returns the error that would
 * end the run, and nothing after it happens. Decoding YAML, executing the
 * Dockerfile template, computing the output file name and writing the file
 * are parameters of the operations that use them.
 */
module Templater {
  import opened Wrappers
  import GoStrings
  import opened DataBag

  /** The `image` block of a variant; a missing YAML key is `None`, as a nil
      pointer is in Go. */
  datatype Image = Image(name: Option<string>, tag: Option<string>)

  /** A variant as decoded from the variants file (cmd/templater.go:194-201):
      its name, its image block and every other key in the data bag. */
  datatype VariantDoc = VariantDoc(name: Option<string>, image: Option<Image>, data: Bag)

  /** The conditions that end a run. */
  datatype Fatal =
    | MissingAttribute(attribute: string)
    | NoVariants
    | NilMapAssignment(key: string)
    | LoadFailed(msg: string)
    | OutputNameFailed(msg: string)
    | ExecuteFailed(msg: string)
    | WriteFailed(file: string, msg: string)

  /** The required attributes. */
  datatype Attribute = NameAttr | ImageAttr | ImageNameAttr | ImageTagAttr

  /** The attribute as the fatal message names it. */
  function Label(a: Attribute): string
  {
    match a
    case NameAttr => "name"
    case ImageAttr => "image"
    case ImageNameAttr => "image.name"
    case ImageTagAttr => "image.tag"
  }

  /** The required attributes, in the order they are checked
      (cmd/templater.go:220-233). */
  const Required: seq<Attribute> := [NameAttr, ImageAttr, ImageNameAttr, ImageTagAttr]

  /** The variant defines the attribute. */
  predicate Has(doc: VariantDoc, a: Attribute)
  {
    match a
    case NameAttr => doc.name.Some?
    case ImageAttr => doc.image.Some?
    case ImageNameAttr => doc.image.Some? && doc.image.value.name.Some?
    case ImageTagAttr => doc.image.Some? && doc.image.value.tag.Some?
  }

  /** The first required attribute the variant lacks, if any. */
  function FirstMissing(doc: VariantDoc): (r: Option<Attribute>)
    ensures r.None? <==> forall i :: 0 <= i < |Required| ==> Has(doc, Required[i])
    ensures r.Some? ==> exists i :: 0 <= i < |Required| && Required[i] == r.value && !Has(doc, r.value)
                          && forall j :: 0 <= j < i ==> Has(doc, Required[j])
  {
    assert Required[0] == NameAttr && Required[1] == ImageAttr;
    assert Required[2] == ImageNameAttr && Required[3] == ImageTagAttr;
    if doc.name.None? then Some(NameAttr)
    else if doc.image.None? then Some(ImageAttr)
    else if doc.image.value.name.None? then Some(ImageNameAttr)
    else if doc.image.value.tag.None? then Some(ImageTagAttr)
    else None
  }

  /** Every required attribute is there: what `SetDataImage` dereferences. */
  predicate Ready(doc: VariantDoc)
  {
    doc.name.Some? && doc.image.Some? && doc.image.value.name.Some? && doc.image.value.tag.Some?
  }

  function VerifyDoc(doc: VariantDoc): Option<Fatal>
  {
    if FirstMissing(doc).Some? then Some(MissingAttribute(Label(FirstMissing(doc).value))) else None
  }

  /** cmd/templater.go:354-362: no variants at all is fatal before any variant
      is looked at; otherwise the first variant, in list order, that fails its
      own check. */
  function VerifyAll(docs: seq<VariantDoc>): Option<Fatal>
  {
    if docs == [] then Some(NoVariants) else FirstInvalid(docs)
  }

  function FirstInvalid(docs: seq<VariantDoc>): Option<Fatal>
    decreases |docs|
  {
    if docs == [] then None
    else if VerifyDoc(docs[0]).Some? then VerifyDoc(docs[0])
    else FirstInvalid(docs[1..])
  }

  /** The variants pass exactly when there is at least one and every one has
      all required attributes; otherwise the error is that of the first
      variant that lacks one. */
  lemma {:induction false} VerifyAllCharacterized(docs: seq<VariantDoc>)
    ensures VerifyAll(docs).None? <==> docs != [] && forall i :: 0 <= i < |docs| ==> Ready(docs[i])
    ensures docs != [] && VerifyAll(docs).Some? ==>
              exists i :: 0 <= i < |docs| && !Ready(docs[i]) && VerifyAll(docs) == VerifyDoc(docs[i])
                && forall j :: 0 <= j < i ==> Ready(docs[j])
  {
    FirstInvalidCharacterized(docs);
  }

  lemma {:induction false} FirstInvalidCharacterized(docs: seq<VariantDoc>)
    ensures FirstInvalid(docs).None? <==> forall i :: 0 <= i < |docs| ==> Ready(docs[i])
    ensures FirstInvalid(docs).Some? ==>
              exists i :: 0 <= i < |docs| && !Ready(docs[i]) && FirstInvalid(docs) == VerifyDoc(docs[i])
                && forall j :: 0 <= j < i ==> Ready(docs[j])
    decreases |docs|
  {
    if docs != [] {
      FirstInvalidCharacterized(docs[1..]);
      if VerifyDoc(docs[0]).None? {
        assert Ready(docs[0]);
        if FirstInvalid(docs).Some? {
          var i :| 0 <= i < |docs[1..]| && !Ready(docs[1..][i]) && FirstInvalid(docs[1..]) == VerifyDoc(docs[1..][i])
                   && forall j :: 0 <= j < i ==> Ready(docs[1..][j]);
          assert docs[i + 1] == docs[1..][i];
          assert forall j :: 0 <= j < i + 1 ==> Ready(docs[j]) by {
            forall j | 0 < j < i + 1 ensures Ready(docs[j]) {
              assert docs[j] == docs[1..][j - 1];
            }
          }
        } else {
          forall i | 0 <= i < |docs| ensures Ready(docs[i]) {
            if i > 0 { assert docs[i] == docs[1..][i - 1]; }
          }
        }
      }
    }
  }

  /** cmd/templater.go:337-343: `image` becomes exactly the map of the image
      name and tag, and `name` the variant's name. */
  function Injected(data: Bag, name: string, imageName: string, imageTag: string): Bag
  {
    data["image" := Map(map["name" := Str(imageName), "tag" := Str(imageTag)])]["name" := Str(name)]
  }

  /** After the injection the template finds `.name`, `.image.name` and
      `.image.tag`, and every other top-level key is as it was. */
  lemma InjectedReadBack(data: Bag, name: string, imageName: string, imageTag: string)
    ensures var d := Injected(data, name, imageName, imageTag);
            && Lookup(Map(d), ["name"]) == Some(Str(name))
            && Lookup(Map(d), ["image", "name"]) == Some(Str(imageName))
            && Lookup(Map(d), ["image", "tag"]) == Some(Str(imageTag))
            && d.Keys == data.Keys + {"image", "name"}
            && forall k :: k in data && k != "image" && k != "name" ==> d[k] == data[k]
  {
    var d := Injected(data, name, imageName, imageTag);
    var img := map["name" := Str(imageName), "tag" := Str(imageTag)];
    assert ["image", "name"][1..] == ["name"] && ["image", "tag"][1..] == ["tag"];
    assert ["name"][1..] == [] && ["tag"][1..] == [];
    assert d["image"] == Map(img);
    assert Lookup(Map(img), ["name"]) == Some(Str(imageName));
    assert Lookup(Map(img), ["tag"]) == Some(Str(imageTag));
  }

  /** What one override does to a variant's data. */
  datatype Override = Skipped | Applied(data: Bag) | NilMap

  /** The dotted path an override key names: the part after its last `:`,
      split on `.`. */
  function KeyPath(key: string): (path: seq<string>)
    ensures |path| >= 1
  {
    var variantKey := GoStrings.Split(key, ":");
    GoStrings.Split(variantKey[|variantKey| - 1], ".")
  }

  /** cmd/templater.go:288-332 for one key. A key with exactly one `:` whose
      prefix is another variant's name is skipped. Otherwise the map that
      holds the last dotted key is found (created where missing) and the
      value stored there as a string, replacing what was there; a non-map
      value on the way leaves nil, and the assignment into the nil map
      panics. */
  function ApplyOverride(data: Bag, variantName: string, key: string, val: string): Override
  {
    var variantKey := GoStrings.Split(key, ":");
    if |variantKey| == 2 && variantKey[0] != variantName then Skipped
    else
      var keyPathList := KeyPath(key);
      var parent := keyPathList[..|keyPathList| - 1];
      var elem := if |keyPathList| > 1 then UpdateAndGetMapElementByPath(data, parent)
                  else Traversal(data, Some(data));
      if elem.reached.None? then NilMap
      else Applied(PutAt(elem.structure, parent, keyPathList[|keyPathList| - 1], Str(val)))
  }

  /** The overrides in the order given (Go map iteration order is not
      specified, so every order is allowed); the first panic ends the run. */
  function ApplyOverrides(data: Bag, variantName: string, variables: seq<(string, string)>): Result<Bag, Fatal>
    decreases |variables|
  {
    if variables == [] then Success(data)
    else
      match ApplyOverride(data, variantName, variables[0].0, variables[0].1)
      case Skipped => ApplyOverrides(data, variantName, variables[1..])
      case Applied(d) => ApplyOverrides(d, variantName, variables[1..])
      case NilMap => Failure(NilMapAssignment(variables[0].0))
  }

  /** The overrides fail only by the nil-map panic. */
  lemma {:induction false} OverridesFailOnlyByNilMap(data: Bag, variantName: string, variables: seq<(string, string)>)
    ensures ApplyOverrides(data, variantName, variables).Failure? ==>
              ApplyOverrides(data, variantName, variables).error.NilMapAssignment?
    decreases |variables|
  {
    if variables != [] {
      match ApplyOverride(data, variantName, variables[0].0, variables[0].1)
      case Skipped => OverridesFailOnlyByNilMap(data, variantName, variables[1..]);
      case Applied(d) => OverridesFailOnlyByNilMap(d, variantName, variables[1..]);
      case NilMap =>
    }
  }

  /** A key scoped to another variant (`other:path`) is skipped. */
  lemma ScopedOverrideSkipsOtherVariants(data: Bag, variantName: string, scope: string, path: string, val: string)
    requires ':' !in scope && ':' !in path && scope != variantName
    ensures ApplyOverride(data, variantName, scope + ":" + path, val).Skipped?
  {
    GoStrings.SplitAround(scope, ':', path);
    GoStrings.SplitWithout(scope, ':');
    GoStrings.SplitWithout(path, ':');
    assert scope + ":" + path == scope + [':'] + path;
  }

  /** A key scoped to this variant (`name:path`) acts as the bare `path`. */
  lemma ScopedOverrideActsUnscoped(data: Bag, variantName: string, path: string, val: string)
    requires ':' !in variantName && ':' !in path
    ensures ApplyOverride(data, variantName, variantName + ":" + path, val) == ApplyOverride(data, variantName, path, val)
  {
    GoStrings.SplitAround(variantName, ':', path);
    GoStrings.SplitWithout(variantName, ':');
    GoStrings.SplitWithout(path, ':');
    assert variantName + ":" + path == variantName + [':'] + path;
  }

  /** A key without `:` is never skipped and does the same to every
      variant. */
  lemma UnscopedOverrideAppliesToEveryVariant(data: Bag, v1: string, v2: string, key: string, val: string)
    requires ':' !in key
    ensures !ApplyOverride(data, v1, key, val).Skipped?
    ensures ApplyOverride(data, v1, key, val) == ApplyOverride(data, v2, key, val)
  {
    GoStrings.SplitWithout(key, ':');
  }

  /** A key with two or more `:` is not scoped at all: only the text after
      its last `:` counts, for every variant. */
  lemma MultiColonUsesLastSegment(data: Bag, variantName: string, first: string, middle: string, last: string, val: string)
    requires ':' !in last
    ensures ApplyOverride(data, variantName, first + ":" + middle + ":" + last, val) == ApplyOverride(data, variantName, last, val)
  {
    var key := first + ":" + middle + ":" + last;
    assert key == (first + [':'] + middle) + [':'] + last;
    GoStrings.SplitAround(first + [':'] + middle, ':', last);
    GoStrings.SplitAround(first, ':', middle);
    GoStrings.SplitWithout(last, ':');
  }

  /** A key that is not skipped is the nested assignment of its value at its
      dotted path: it fails exactly when that assignment meets a non-map. */
  lemma OverrideIsAssign(data: Bag, variantName: string, key: string, val: string)
    requires !ApplyOverride(data, variantName, key, val).Skipped?
    ensures ApplyOverride(data, variantName, key, val) ==
              match Assign(data, KeyPath(key), Str(val))
              case Some(d) => Applied(d)
              case None => NilMap
  {
    var path := KeyPath(key);
    var parent := path[..|path| - 1];
    assert path == parent + [path[|path| - 1]];
    TraverseThenPutIsAssign(data, parent, path[|path| - 1], Str(val));
  }

  /** After an override is applied, its path holds the string value, and
      every path that parts ways with it is untouched. */
  lemma OverrideSetsValue(data: Bag, variantName: string, key: string, val: string, q: seq<string>)
    requires ApplyOverride(data, variantName, key, val).Applied?
    ensures Lookup(Map(ApplyOverride(data, variantName, key, val).data), KeyPath(key)) == Some(Str(val))
    ensures Diverges(KeyPath(key), q) ==>
              Lookup(Map(ApplyOverride(data, variantName, key, val).data), q) == Lookup(Map(data), q)
  {
    OverrideIsAssign(data, variantName, key, val);
    AssignReadBack(data, KeyPath(key), Str(val));
    if Diverges(KeyPath(key), q) {
      AssignLeavesOtherPaths(data, KeyPath(key), Str(val), q);
    }
  }

  /** An override that is not skipped panics exactly when an existing
      non-map value lies on the way to its last key. */
  lemma OverrideFailsExactlyWhenBlocked(data: Bag, variantName: string, key: string, val: string)
    requires !ApplyOverride(data, variantName, key, val).Skipped?
    ensures ApplyOverride(data, variantName, key, val).NilMap? <==> Blocked(data, KeyPath(key)[..|KeyPath(key)| - 1])
  {
    OverrideIsAssign(data, variantName, key, val);
    AssignFailsWhenBlocked(data, KeyPath(key), Str(val));
  }

  /** Overrides that are all scoped to other variants leave the data as it
      is. */
  lemma {:induction false} OverridesForOthersChangeNothing(data: Bag, variantName: string, variables: seq<(string, string)>)
    requires forall i :: 0 <= i < |variables| ==> ApplyOverride(data, variantName, variables[i].0, variables[i].1).Skipped?
    ensures ApplyOverrides(data, variantName, variables) == Success(data)
    decreases |variables|
  {
    if variables != [] {
      assert ApplyOverride(data, variantName, variables[0].0, variables[0].1).Skipped?;
      forall i | 0 <= i < |variables[1..]|
        ensures ApplyOverride(data, variantName, variables[1..][i].0, variables[1..][i].1).Skipped?
      {
        assert variables[1..][i] == variables[i + 1];
      }
      OverridesForOthersChangeNothing(data, variantName, variables[1..]);
    }
  }

  /** A variant's data as `Render` hands it to the template: `image` and
      `name` injected first, the overrides applied after
      (cmd/templater.go:436-437). */
  function Prepare(doc: VariantDoc, variables: seq<(string, string)>): Result<Bag, Fatal>
    requires Ready(doc)
  {
    var injected := Injected(doc.data, doc.name.value, doc.image.value.name.value, doc.image.value.tag.value);
    ApplyOverrides(injected, doc.name.value, variables)
  }

  lemma KeyPathImageTag()
    ensures KeyPath("image.tag") == ["image", "tag"]
  {
    assert "image.tag" == "image" + ['.'] + "tag";
    KeyPathTwoKeys("image", "tag");
  }

  /** A key of two plain names joined by a dot, with no variant prefix. */
  lemma KeyPathTwoKeys(a: string, b: string)
    requires '.' !in a && '.' !in b && ':' !in a && ':' !in b
    ensures KeyPath(a + ['.'] + b) == [a, b]
  {
    var key := a + ['.'] + b;
    assert ':' !in key by {
      assert forall i :: 0 <= i < |key| ==> key[i] == '.' || key[i] in a || key[i] in b;
    }
    GoStrings.SplitWithout(key, ':');
    GoStrings.SplitAround(a, '.', b);
    GoStrings.SplitWithout(a, '.');
    GoStrings.SplitWithout(b, '.');
  }

  /** Because the injection comes first, an `image.tag` override replaces the
      tag of the variant's image, and the image name stays. */
  lemma OverrideReplacesInjectedTag(doc: VariantDoc, tag: string)
    requires Ready(doc)
    ensures var r := Prepare(doc, [("image.tag", tag)]);
            && r.Success?
            && Lookup(Map(r.value), ["image", "tag"]) == Some(Str(tag))
            && Lookup(Map(r.value), ["image", "name"]) == Some(Str(doc.image.value.name.value))
            && Lookup(Map(r.value), ["name"]) == Some(Str(doc.name.value))
  {
    var name := doc.name.value;
    var injected := Injected(doc.data, name, doc.image.value.name.value, doc.image.value.tag.value);
    InjectedReadBack(doc.data, name, doc.image.value.name.value, doc.image.value.tag.value);
    ImageTagOverrideApplies(injected, name, tag);
    ImageTagOverrideReadBack(injected, name, tag);
    SingleOverride(injected, name, "image.tag", tag);
  }

  /** An `image.tag` override applies to a bag whose `image` is a map. */
  lemma ImageTagOverrideApplies(data: Bag, variantName: string, tag: string)
    requires Lookup(Map(data), ["image", "tag"]).Some?
    ensures ApplyOverride(data, variantName, "image.tag", tag).Applied?
  {
    KeyPathImageTag();
    assert ':' !in "image.tag";
    UnscopedOverrideAppliesToEveryVariant(data, variantName, variantName, "image.tag", tag);
    OverrideFailsExactlyWhenBlocked(data, variantName, "image.tag", tag);
    assert ["image", "tag"][..1] == ["image"] && ["image"][1..] == [];
  }

  /** After an `image.tag` override the tag is the new one, and `image.name`
      and `name` are as before. */
  lemma ImageTagOverrideReadBack(data: Bag, variantName: string, tag: string)
    requires ApplyOverride(data, variantName, "image.tag", tag).Applied?
    ensures var d := ApplyOverride(data, variantName, "image.tag", tag).data;
            && Lookup(Map(d), ["image", "tag"]) == Some(Str(tag))
            && Lookup(Map(d), ["image", "name"]) == Lookup(Map(data), ["image", "name"])
            && Lookup(Map(d), ["name"]) == Lookup(Map(data), ["name"])
  {
    KeyPathImageTag();
    OverrideSetsValue(data, variantName, "image.tag", tag, ["image", "name"]);
    OverrideSetsValue(data, variantName, "image.tag", tag, ["name"]);
    assert Diverges(["image", "tag"], ["image", "name"]) by {
      assert ["image", "tag"][1..] == ["tag"] && ["image", "name"][1..] == ["name"];
    }
  }

  /** A list of one applicable override gives its result. */
  lemma SingleOverride(data: Bag, variantName: string, key: string, val: string)
    requires ApplyOverride(data, variantName, key, val).Applied?
    ensures ApplyOverrides(data, variantName, [(key, val)]) == Success(ApplyOverride(data, variantName, key, val).data)
  {
    assert [(key, val)][1..] == [];
  }

  /** A variant as `Load` creates it and `Render` updates it. */
  class Variant {
    var name: Option<string>
    var image: Option<Image>
    var data: Bag

    constructor (doc: VariantDoc)
      ensures Doc() == doc
    {
      name, image, data := doc.name, doc.image, doc.data;
    }

    function Doc(): VariantDoc
      reads this
    {
      VariantDoc(name, image, data)
    }

    /** cmd/templater.go:205-234: the required attributes one after the
        other; the first one missing is fatal. */
    method Verify() returns (err: Option<Fatal>)
      ensures err == VerifyDoc(Doc())
    {
      if name.None? {
        return Some(MissingAttribute("name"));
      }
      if image.None? {
        return Some(MissingAttribute("image"));
      }
      if image.value.name.None? {
        return Some(MissingAttribute("image.name"));
      }
      if image.value.tag.None? {
        return Some(MissingAttribute("image.tag"));
      }
      return None;
    }

    /** cmd/templater.go:337-343. */
    method SetDataImage()
      requires Ready(Doc())
      modifies this
      ensures name == old(name) && image == old(image)
      ensures data == Injected(old(data), name.value, image.value.name.value, image.value.tag.value)
    {
      data := data["image" := Map(map["name" := Str(image.value.name.value), "tag" := Str(image.value.tag.value)])];
      data := data["name" := Str(name.value)];
    }

    /** cmd/templater.go:282-334: the overrides one by one, in the order
        given; an override whose parent path is blocked panics. */
    method UpdateData(variables: seq<(string, string)>) returns (err: Option<Fatal>)
      requires name.Some?
      modifies this
      ensures name == old(name) && image == old(image)
      ensures err.None? ==> ApplyOverrides(old(data), name.value, variables) == Success(data)
      ensures err.Some? ==> ApplyOverrides(old(data), name.value, variables) == Failure(err.value)
    {
      ghost var start := data;
      var i := 0;
      while i < |variables|
        invariant 0 <= i <= |variables|
        invariant name == old(name) && image == old(image)
        invariant ApplyOverrides(start, name.value, variables) == ApplyOverrides(data, name.value, variables[i..])
      {
        var (key, val) := variables[i];
        assert variables[i..][1..] == variables[i + 1..];
        var variantKey := GoStrings.Split(key, ":");
        if |variantKey| == 2 && variantKey[0] != name.value {
          i := i + 1;
          continue;
        }
        var keyPathList := GoStrings.Split(variantKey[|variantKey| - 1], ".");
        var parent := keyPathList[..|keyPathList| - 1];
        var elem := Some(data);
        if |keyPathList| > 1 {
          var t := UpdateAndGetMapElementByPath(data, parent);
          data, elem := t.structure, t.reached;
        }
        if elem.None? {
          return Some(NilMapAssignment(key));
        }
        data := PutAt(data, parent, keyPathList[|keyPathList| - 1], Str(val));
        i := i + 1;
      }
      return None;
    }
  }

  /** The variants as values, read from the objects. */
  function Docs(variants: seq<Variant>): (docs: seq<VariantDoc>)
    reads set v | v in variants
    ensures |docs| == |variants|
    ensures forall i :: 0 <= i < |variants| ==> docs[i] == variants[i].Doc()
  {
    if variants == [] then [] else [variants[0].Doc()] + Docs(variants[1..])
  }

  /** The objects are pairwise different. */
  predicate Distinct(variants: seq<Variant>)
  {
    forall i, j :: 0 <= i < j < |variants| ==> variants[i] != variants[j]
  }

  /** Where the variants come from (cmd/templater.go:389-409): the variants
      file read as plain YAML, or executed as a template over the config file
      first. */
  datatype LoadSource = Plain(tplFile: string) | Templated(cfgFile: string, tplFile: string)

  /** The variants file and the optional config file
      (cmd/templater.go:346-351). */
  class VariantSet {
    var variants: seq<Variant>
    const cfgFile: string
    const tplFile: string

    constructor (cfgFile: string, tplFile: string)
      ensures this.cfgFile == cfgFile && this.tplFile == tplFile && variants == []
    {
      this.cfgFile, this.tplFile := cfgFile, tplFile;
      variants := [];
    }

    /** The plain file exactly when no config file is given. */
    function Source(): (src: LoadSource)
      ensures src.Plain? <==> cfgFile == ""
      ensures src.tplFile == tplFile
      ensures src.Templated? ==> src.cfgFile == cfgFile
    {
      if cfgFile == "" then Plain(tplFile) else Templated(cfgFile, tplFile)
    }

    /** cmd/templater.go:354-362. */
    method Verify() returns (err: Option<Fatal>)
      ensures err == VerifyAll(Docs(variants))
    {
      if |variants| == 0 {
        return Some(NoVariants);
      }
      ghost var docs := Docs(variants);
      var i := 0;
      while i < |variants|
        invariant 0 <= i <= |variants|
        invariant FirstInvalid(docs) == FirstInvalid(docs[i..])
      {
        assert docs[i..][0] == variants[i].Doc();
        assert docs[i..][1..] == docs[i + 1..];
        err := variants[i].Verify();
        if err.Some? {
          return;
        }
        i := i + 1;
      }
      assert docs[i..] == [];
      return None;
    }

    /** cmd/templater.go:411-419: decode the chosen source into fresh
        variants, then always verify them. */
    method Load(decode: LoadSource -> Result<seq<VariantDoc>, string>) returns (err: Option<Fatal>)
      modifies this
      ensures decode(Source()).Failure? ==> err == Some(LoadFailed(decode(Source()).error))
      ensures decode(Source()).Success? ==>
                && Docs(variants) == decode(Source()).value
                && err == VerifyAll(decode(Source()).value)
      ensures Distinct(variants) && forall v :: v in variants ==> fresh(v)
    {
      var decoded := decode(Source());
      if decoded.Failure? {
        variants := [];
        return Some(LoadFailed(decoded.error));
      }
      var docs := decoded.value;
      var vs: seq<Variant> := [];
      var i := 0;
      while i < |docs|
        invariant 0 <= i <= |docs|
        invariant |vs| == i
        invariant forall j :: 0 <= j < i ==> fresh(vs[j]) && vs[j].Doc() == docs[j]
        invariant Distinct(vs)
      {
        var v := new Variant(docs[i]);
        vs := vs + [v];
        i := i + 1;
      }
      variants := vs;
      assert Docs(variants) == docs;
      err := Verify();
    }
  }

  /** One Dockerfile written: the output file name and the rendered text. */
  datatype Written = Written(file: string, text: string)

  datatype RenderOutcome = RenderOutcome(written: seq<Written>, err: Option<Fatal>)

  /** Output name, rendering and writing for one variant; the name and the
      text are computed from the prepared data. */
  function RenderOne(doc: VariantDoc, variables: seq<(string, string)>,
                     outputFile: Bag -> Result<string, string>,
                     execute: Bag -> Result<string, string>,
                     write: (string, string) -> Option<string>): Result<Written, Fatal>
    requires Ready(doc)
  {
    match Prepare(doc, variables)
    case Failure(e) => Failure(e)
    case Success(data) =>
      match outputFile(data)
      case Failure(msg) => Failure(OutputNameFailed(msg))
      case Success(file) =>
        match execute(data)
        case Failure(msg) => Failure(ExecuteFailed(msg))
        case Success(text) =>
          if write(file, text).Some? then Failure(WriteFailed(file, write(file, text).value))
          else Success(Written(file, text))
  }

  /** `order` lists the entries of `m`, each once: one iteration of Go's
      `range` over the map, whose order is unspecified and may differ from
      one `range` to the next. */
  predicate Enumerates(order: seq<(string, string)>, m: map<string, string>)
  {
    multiset(order) == multiset(m.Items)
  }

  /** `data` is what the injection and the overrides make of `doc`. */
  predicate PreparedAs(doc: VariantDoc, order: seq<(string, string)>, data: Bag)
  {
    Ready(doc) && Prepare(doc, order) == Success(data)
  }

  /** Every variant passed verification, as `Render` requires. */
  predicate AllReady(docs: seq<VariantDoc>)
  {
    forall i :: 0 <= i < |docs| ==> Ready(docs[i])
  }

  /** The variants in order, the variant at position `i` taking the
      overrides in the order `orders[i]`; the first fatal error ends the
      run. */
  function RenderAll(docs: seq<VariantDoc>, orders: seq<seq<(string, string)>>,
                     outputFile: Bag -> Result<string, string>,
                     execute: Bag -> Result<string, string>,
                     write: (string, string) -> Option<string>): RenderOutcome
    requires |orders| == |docs|
    requires AllReady(docs)
    decreases |docs|
  {
    if docs == [] then RenderOutcome([], None)
    else
      match RenderOne(docs[0], orders[0], outputFile, execute, write)
      case Failure(e) => RenderOutcome([], Some(e))
      case Success(w) =>
        var rest := RenderAll(docs[1..], orders[1..], outputFile, execute, write);
        RenderOutcome([w] + rest.written, rest.err)
  }

  /** The run from position `i` on. */
  function RenderFrom(docs: seq<VariantDoc>, orders: seq<seq<(string, string)>>, i: nat,
                      outputFile: Bag -> Result<string, string>,
                      execute: Bag -> Result<string, string>,
                      write: (string, string) -> Option<string>): RenderOutcome
    requires |orders| == |docs| && AllReady(docs) && i <= |docs|
  {
    RenderAll(docs[i..], orders[i..], outputFile, execute, write)
  }

  /** The loop step of `Renderer.Render`: with `written` produced before
      position `i`, the variant at `i` either ends the run with its error or
      adds its file. */
  lemma RenderAllAdvance(docs: seq<VariantDoc>, orders: seq<seq<(string, string)>>, i: nat, written: seq<Written>,
                         outputFile: Bag -> Result<string, string>,
                         execute: Bag -> Result<string, string>,
                         write: (string, string) -> Option<string>)
    requires i < |docs| == |orders| && AllReady(docs)
    requires RenderAll(docs, orders, outputFile, execute, write) ==
               var rest := RenderFrom(docs, orders, i, outputFile, execute, write);
               RenderOutcome(written + rest.written, rest.err)
    ensures var whole := RenderAll(docs, orders, outputFile, execute, write);
            match RenderOne(docs[i], orders[i], outputFile, execute, write)
            case Failure(e) => whole == RenderOutcome(written, Some(e))
            case Success(w) =>
              var rest := RenderFrom(docs, orders, i + 1, outputFile, execute, write);
              whole == RenderOutcome((written + [w]) + rest.written, rest.err)
  {
    assert docs[i..][0] == docs[i] && docs[i..][1..] == docs[i + 1..];
    assert orders[i..][0] == orders[i] && orders[i..][1..] == orders[i + 1..];
    match RenderOne(docs[i], orders[i], outputFile, execute, write)
    case Failure(e) =>
      assert written + [] == written;
    case Success(w) =>
      var rest := RenderAll(docs[i + 1..], orders[i + 1..], outputFile, execute, write);
      assert written + ([w] + rest.written) == (written + [w]) + rest.written;
  }

  /** A run writes the variants' files in order, one per variant, until the
      first variant that fails; no file is written for it or after it. */
  lemma {:induction false} RenderStopsAtFirstFailure(docs: seq<VariantDoc>, orders: seq<seq<(string, string)>>,
                                                     outputFile: Bag -> Result<string, string>,
                                                     execute: Bag -> Result<string, string>,
                                                     write: (string, string) -> Option<string>)
    requires |orders| == |docs|
    requires AllReady(docs)
    ensures var r := RenderAll(docs, orders, outputFile, execute, write);
            && |r.written| <= |docs|
            && (forall i :: 0 <= i < |r.written| ==>
                  RenderOne(docs[i], orders[i], outputFile, execute, write) == Success(r.written[i]))
            && (r.err.None? <==> |r.written| == |docs|)
            && (r.err.Some? ==>
                  RenderOne(docs[|r.written|], orders[|r.written|], outputFile, execute, write) == Failure(r.err.value))
  {
    var r := RenderAll(docs, orders, outputFile, execute, write);
    RenderAllLength(docs, orders, outputFile, execute, write);
    forall i | 0 <= i < |r.written|
      ensures RenderOne(docs[i], orders[i], outputFile, execute, write) == Success(r.written[i])
    {
      RenderedAt(docs, orders, i, outputFile, execute, write);
    }
    if r.err.Some? {
      FailedAt(docs, orders, outputFile, execute, write);
    }
  }

  /** A run writes at most one file per variant, all of them exactly when
      no error stops it. */
  lemma {:induction false} RenderAllLength(docs: seq<VariantDoc>, orders: seq<seq<(string, string)>>,
                                           outputFile: Bag -> Result<string, string>,
                                           execute: Bag -> Result<string, string>,
                                           write: (string, string) -> Option<string>)
    requires |orders| == |docs| && AllReady(docs)
    ensures var r := RenderAll(docs, orders, outputFile, execute, write);
            |r.written| <= |docs| && (r.err.None? <==> |r.written| == |docs|)
    decreases |docs|
  {
    if docs != [] && RenderOne(docs[0], orders[0], outputFile, execute, write).Success? {
      RenderAllLength(docs[1..], orders[1..], outputFile, execute, write);
    }
  }

  /** The `i`-th file written is the one the `i`-th variant renders. */
  lemma {:induction false} RenderedAt(docs: seq<VariantDoc>, orders: seq<seq<(string, string)>>, i: nat,
                                      outputFile: Bag -> Result<string, string>,
                                      execute: Bag -> Result<string, string>,
                                      write: (string, string) -> Option<string>)
    requires |orders| == |docs| && AllReady(docs)
    requires i < |RenderAll(docs, orders, outputFile, execute, write).written|
    ensures i < |docs|
    ensures RenderOne(docs[i], orders[i], outputFile, execute, write)
              == Success(RenderAll(docs, orders, outputFile, execute, write).written[i])
    decreases i
  {
    if i > 0 {
      RenderedAt(docs[1..], orders[1..], i - 1, outputFile, execute, write);
      assert docs[1..][i - 1] == docs[i] && orders[1..][i - 1] == orders[i];
    }
  }

  /** A run that stops does so at the variant after the last file written,
      with that variant's error. */
  lemma {:induction false} FailedAt(docs: seq<VariantDoc>, orders: seq<seq<(string, string)>>,
                                    outputFile: Bag -> Result<string, string>,
                                    execute: Bag -> Result<string, string>,
                                    write: (string, string) -> Option<string>)
    requires |orders| == |docs| && AllReady(docs)
    requires RenderAll(docs, orders, outputFile, execute, write).err.Some?
    ensures var r := RenderAll(docs, orders, outputFile, execute, write);
            && |r.written| < |docs|
            && RenderOne(docs[|r.written|], orders[|r.written|], outputFile, execute, write) == Failure(r.err.value)
    decreases |docs|
  {
    if RenderOne(docs[0], orders[0], outputFile, execute, write).Success? {
      FailedAt(docs[1..], orders[1..], outputFile, execute, write);
      var rest := RenderAll(docs[1..], orders[1..], outputFile, execute, write);
      assert docs[1..][|rest.written|] == docs[1 + |rest.written|];
      assert orders[1..][|rest.written|] == orders[1 + |rest.written|];
    }
  }

  /** The variants after a run that rendered the first `count` of them:
      each keeps its name and image, those rendered hold their prepared
      data, and the others before any failure still hold their own. */
  ghost predicate RenderedUpTo(docs: seq<VariantDoc>, orders: seq<seq<(string, string)>>, after: seq<VariantDoc>, count: nat)
  {
    && |after| == |docs| == |orders| && count <= |docs|
    && (forall j :: 0 <= j < |docs| ==> after[j].name == docs[j].name && after[j].image == docs[j].image)
    && (forall j :: 0 <= j < count ==> PreparedAs(docs[j], orders[j], after[j].data))
  }

  /** Rendering the variant at `i` extends `RenderedUpTo` by one, and the
      variants after it are as they were. */
  lemma RenderedStep(docs: seq<VariantDoc>, orders: seq<seq<(string, string)>>, current: seq<VariantDoc>,
                     i: nat, d: VariantDoc, prepared: bool)
    requires RenderedUpTo(docs, orders, current, i) && i < |docs| && current[i] == docs[i]
    requires d.name == docs[i].name && d.image == docs[i].image
    requires prepared ==> PreparedAs(docs[i], orders[i], d.data)
    ensures RenderedUpTo(docs, orders, current[i := d], i)
    ensures prepared ==> RenderedUpTo(docs, orders, current[i := d], i + 1)
    ensures forall j :: i < j < |docs| ==> current[i := d][j] == current[j]
  {
  }

  /** The renderer of cmd/templater.go:422-430, with the overrides given on
      the command line. */
  class Renderer {
    const additionalVariables: map<string, string>

    constructor (additionalVariables: map<string, string>)
      ensures this.additionalVariables == additionalVariables
    {
      this.additionalVariables := additionalVariables;
    }

    /** cmd/templater.go:436-468, the body of the loop for one variant: the
        variant's data is prepared in place, then the output name is
        computed, the template rendered and the file written. Only the
        variant at `i` changes; whenever the preparation succeeds it holds
        the prepared data. */
    method RenderVariant(variants: seq<Variant>, i: nat, order: seq<(string, string)>,
                         outputFile: Bag -> Result<string, string>,
                         execute: Bag -> Result<string, string>,
                         write: (string, string) -> Option<string>) returns (r: Result<Written, Fatal>)
      requires i < |variants| && Distinct(variants) && Ready(variants[i].Doc())
      modifies variants[i]
      ensures Docs(variants) == old(Docs(variants))[i := variants[i].Doc()]
      ensures variants[i].name == old(variants[i].name) && variants[i].image == old(variants[i].image)
      ensures r == RenderOne(old(variants[i].Doc()), order, outputFile, execute, write)
      ensures r.Success? || !r.error.NilMapAssignment? ==> PreparedAs(old(variants[i].Doc()), order, variants[i].data)
    {
      var v := variants[i];
      ghost var doc := v.Doc();
      v.SetDataImage();
      var e := v.UpdateData(order);
      forall j | 0 <= j < |variants|
        ensures Docs(variants)[j] == old(Docs(variants))[i := v.Doc()][j]
      {
        if j != i {
          assert variants[j] != v;
        }
      }
      if e.Some? {
        OverridesFailOnlyByNilMap(Injected(doc.data, doc.name.value, doc.image.value.name.value, doc.image.value.tag.value), doc.name.value, order);
        return Failure(e.value);
      }
      var file := outputFile(v.data);
      if file.Failure? {
        return Failure(OutputNameFailed(file.error));
      }
      var text := execute(v.data);
      if text.Failure? {
        return Failure(ExecuteFailed(text.error));
      }
      var w := write(file.value, text.value);
      if w.Some? {
        return Failure(WriteFailed(file.value, w.value));
      }
      r := Success(Written(file.value, text.value));
    }

    /** cmd/templater.go:433-469: for each variant, inject `image` and
        `name`, apply the overrides, compute the output name from the result,
        render the template over it and write the file. Each variant's
        `UpdateData` ranges over the override map anew, so `orders[i]` is the
        order the variant at position `i` sees. The variants are updated in
        place: those rendered hold their prepared data, the one that failed
        (if the overrides did not panic on it) too, and those after it are
        untouched. */
    method Render(variants: seq<Variant>, orders: seq<seq<(string, string)>>,
                  outputFile: Bag -> Result<string, string>,
                  execute: Bag -> Result<string, string>,
                  write: (string, string) -> Option<string>) returns (written: seq<Written>, err: Option<Fatal>)
      requires Distinct(variants) && AllReady(Docs(variants))
      requires |orders| == |variants| && forall i :: 0 <= i < |orders| ==> Enumerates(orders[i], additionalVariables)
      modifies set v | v in variants
      ensures RenderOutcome(written, err) == RenderAll(old(Docs(variants)), orders, outputFile, execute, write)
      ensures |written| <= |variants| && (err.Some? ==> |written| < |variants|)
      ensures RenderedUpTo(old(Docs(variants)), orders, Docs(variants), |written|)
      ensures err.Some? && !err.value.NilMapAssignment? ==>
                PreparedAs(old(Docs(variants))[|written|], orders[|written|], Docs(variants)[|written|].data)
      ensures forall i :: |written| < i < |variants| ==> Docs(variants)[i] == old(Docs(variants))[i]
    {
      ghost var docs := Docs(variants);
      written := [];
      var i := 0;
      while i < |variants|
        invariant 0 <= i <= |variants| && |written| == i
        invariant AllReady(docs) && |docs| == |variants|
        invariant RenderedUpTo(docs, orders, Docs(variants), i)
        invariant forall j :: i <= j < |variants| ==> Docs(variants)[j] == docs[j]
        invariant RenderAll(docs, orders, outputFile, execute, write) ==
                    var rest := RenderFrom(docs, orders, i, outputFile, execute, write);
                    RenderOutcome(written + rest.written, rest.err)
      {
        RenderAllAdvance(docs, orders, i, written, outputFile, execute, write);
        ghost var current := Docs(variants);
        var r := RenderVariant(variants, i, orders[i], outputFile, execute, write);
        RenderedStep(docs, orders, current, i, variants[i].Doc(), r.Success? || !r.error.NilMapAssignment?);
        if r.Failure? {
          return written, Some(r.error);
        }
        written := written + [r.value];
        i := i + 1;
      }
      assert docs[i..] == [];
      err := None;
    }
  }
}
