/**
 * The older, single-file revision of the templater (main.go): a variant has
 * no `name` attribute, the variants file is chosen through optional
 * pointers, `Render` injects only `image`, there is at most one fragment
 * directory, and logging goes through `logf` with a level filter.
 */
module LegacyMain {
  import opened Wrappers
  import opened DataBag
  import IncludeEngine
  import TemplateLoad
  import Templater

  /** A variant as decoded in this revision (main.go:24-33): the image block
      and the data bag. */
  datatype VariantDoc = VariantDoc(image: Option<Templater.Image>, data: Bag)

  /** The required attributes in the order main.go:37-47 checks them; there
      is no `name`. */
  const Required: seq<Templater.Attribute> := [Templater.ImageAttr, Templater.ImageNameAttr, Templater.ImageTagAttr]

  predicate Has(doc: VariantDoc, a: Templater.Attribute)
  {
    match a
    case NameAttr => true
    case ImageAttr => doc.image.Some?
    case ImageNameAttr => doc.image.Some? && doc.image.value.name.Some?
    case ImageTagAttr => doc.image.Some? && doc.image.value.tag.Some?
  }

  /** The first required attribute the variant lacks, if any. */
  function FirstMissing(doc: VariantDoc): (r: Option<Templater.Attribute>)
    ensures r.None? <==> forall i :: 0 <= i < |Required| ==> Has(doc, Required[i])
    ensures r.Some? ==> exists i :: 0 <= i < |Required| && Required[i] == r.value && !Has(doc, r.value)
                          && forall j :: 0 <= j < i ==> Has(doc, Required[j])
    ensures r != Some(Templater.NameAttr)
  {
    assert Required[0] == Templater.ImageAttr && Required[1] == Templater.ImageNameAttr;
    assert Required[2] == Templater.ImageTagAttr;
    if doc.image.None? then Some(Templater.ImageAttr)
    else if doc.image.value.name.None? then Some(Templater.ImageNameAttr)
    else if doc.image.value.tag.None? then Some(Templater.ImageTagAttr)
    else None
  }

  predicate Ready(doc: VariantDoc)
  {
    doc.image.Some? && doc.image.value.name.Some? && doc.image.value.tag.Some?
  }

  function VerifyDoc(doc: VariantDoc): Option<Templater.Fatal>
  {
    if FirstMissing(doc).Some? then Some(Templater.MissingAttribute(Templater.Label(FirstMissing(doc).value)))
    else None
  }

  /** main.go:94-104. */
  function VerifyAll(docs: seq<VariantDoc>): Option<Templater.Fatal>
  {
    if docs == [] then Some(Templater.NoVariants) else FirstInvalid(docs)
  }

  function FirstInvalid(docs: seq<VariantDoc>): Option<Templater.Fatal>
    decreases |docs|
  {
    if docs == [] then None
    else if VerifyDoc(docs[0]).Some? then VerifyDoc(docs[0])
    else FirstInvalid(docs[1..])
  }

  /** The variants pass exactly when there is at least one and each has its
      image name and tag; a variant without `name` passes. */
  lemma {:induction false} VerifyAllCharacterized(docs: seq<VariantDoc>)
    ensures VerifyAll(docs).None? <==> docs != [] && forall i :: 0 <= i < |docs| ==> Ready(docs[i])
    ensures docs != [] && VerifyAll(docs).Some? ==>
              exists i :: 0 <= i < |docs| && !Ready(docs[i]) && VerifyAll(docs) == VerifyDoc(docs[i])
                && forall j :: 0 <= j < i ==> Ready(docs[j])
  {
    FirstInvalidCharacterized(docs);
  }

  lemma {:induction false} FirstInvalidCharacterized(docs: seq<VariantDoc>)
    ensures FirstInvalid(docs).None? <==> forall i :: 0 <= i < |docs| ==> Ready(docs[i])
    ensures FirstInvalid(docs).Some? ==>
              exists i :: 0 <= i < |docs| && !Ready(docs[i]) && FirstInvalid(docs) == VerifyDoc(docs[i])
                && forall j :: 0 <= j < i ==> Ready(docs[j])
    decreases |docs|
  {
    if docs != [] {
      FirstInvalidCharacterized(docs[1..]);
      if VerifyDoc(docs[0]).None? {
        assert Ready(docs[0]);
        if FirstInvalid(docs).Some? {
          var i :| 0 <= i < |docs[1..]| && !Ready(docs[1..][i]) && FirstInvalid(docs[1..]) == VerifyDoc(docs[1..][i])
                   && forall j :: 0 <= j < i ==> Ready(docs[1..][j]);
          assert docs[i + 1] == docs[1..][i];
          assert forall j :: 0 <= j < i + 1 ==> Ready(docs[j]) by {
            forall j | 0 < j < i + 1 ensures Ready(docs[j]) {
              assert docs[j] == docs[1..][j - 1];
            }
          }
        } else {
          forall i | 0 <= i < |docs| ensures Ready(docs[i]) {
            if i > 0 { assert docs[i] == docs[1..][i - 1]; }
          }
        }
      }
    }
  }

  /** main.go:182-185: `image` replaced by the map of the image name and tag;
      nothing else, `name` included, is touched. */
  function WithImage(data: Bag, imageName: string, imageTag: string): Bag
  {
    data["image" := Map(map["name" := Str(imageName), "tag" := Str(imageTag)])]
  }

  lemma WithImageReadBack(data: Bag, imageName: string, imageTag: string)
    ensures var d := WithImage(data, imageName, imageTag);
            && Lookup(Map(d), ["image", "name"]) == Some(Str(imageName))
            && Lookup(Map(d), ["image", "tag"]) == Some(Str(imageTag))
            && d.Keys == data.Keys + {"image"}
            && forall k :: k in data && k != "image" ==> d[k] == data[k]
  {
    var img := map["name" := Str(imageName), "tag" := Str(imageTag)];
    assert ["image", "name"][1..] == ["name"] && ["image", "tag"][1..] == ["tag"];
    assert ["name"][1..] == [] && ["tag"][1..] == [];
    assert Lookup(Map(img), ["name"]) == Some(Str(imageName));
    assert Lookup(Map(img), ["tag"]) == Some(Str(imageTag));
  }

  class Variant {
    var image: Option<Templater.Image>
    var data: Bag

    constructor (doc: VariantDoc)
      ensures Doc() == doc
    {
      image, data := doc.image, doc.data;
    }

    function Doc(): VariantDoc
      reads this
    {
      VariantDoc(image, data)
    }

    /** main.go:37-47. */
    method Verify() returns (err: Option<Templater.Fatal>)
      ensures err == VerifyDoc(Doc())
    {
      if image.None? {
        return Some(Templater.MissingAttribute("image"));
      }
      if image.value.name.None? {
        return Some(Templater.MissingAttribute("image.name"));
      }
      if image.value.tag.None? {
        return Some(Templater.MissingAttribute("image.tag"));
      }
      return None;
    }
  }

  function Docs(variants: seq<Variant>): (docs: seq<VariantDoc>)
    reads set v | v in variants
    ensures |docs| == |variants|
    ensures forall i :: 0 <= i < |variants| ==> docs[i] == variants[i].Doc()
  {
    if variants == [] then [] else [variants[0].Doc()] + Docs(variants[1..])
  }

  predicate Distinct(variants: seq<Variant>)
  {
    forall i, j :: 0 <= i < j < |variants| ==> variants[i] != variants[j]
  }

  /** Where the variants come from: the variants file read as plain YAML, or
      executed as a template over the config file first (main.go:124-152). */
  datatype LoadSource = Plain(tplFile: string) | Templated(cfgFile: string, tplFile: string)

  /** main.go:86-91: the two file options are optional pointers. */
  class TemplateData {
    var variants: seq<Variant>
    const cfgFile: Option<string>
    const tplFile: string

    constructor (cfgFile: Option<string>, tplFile: string)
      ensures this.cfgFile == cfgFile && this.tplFile == tplFile && variants == []
    {
      this.cfgFile, this.tplFile := cfgFile, tplFile;
      variants := [];
    }

    /** The templated source exactly when a config file is given and is not
        empty (main.go:156). */
    function Source(): (src: LoadSource)
      ensures src.Templated? <==> cfgFile.Some? && cfgFile.value != ""
      ensures src.tplFile == tplFile
      ensures src.Templated? ==> Some(src.cfgFile) == cfgFile
    {
      if cfgFile.Some? && cfgFile.value != "" then Templated(cfgFile.value, tplFile) else Plain(tplFile)
    }

    /** main.go:94-104. */
    method Verify() returns (err: Option<Templater.Fatal>)
      ensures err == VerifyAll(Docs(variants))
    {
      if |variants| == 0 {
        return Some(Templater.NoVariants);
      }
      ghost var docs := Docs(variants);
      var i := 0;
      while i < |variants|
        invariant 0 <= i <= |variants|
        invariant FirstInvalid(docs) == FirstInvalid(docs[i..])
      {
        assert docs[i..][0] == variants[i].Doc();
        assert docs[i..][1..] == docs[i + 1..];
        err := variants[i].Verify();
        if err.Some? {
          return;
        }
        i := i + 1;
      }
      assert docs[i..] == [];
      return None;
    }

    /** main.go:154-163: decode the chosen source, then always verify. */
    method Load(decode: LoadSource -> Result<seq<VariantDoc>, string>) returns (err: Option<Templater.Fatal>)
      modifies this
      ensures decode(Source()).Failure? ==> err == Some(Templater.LoadFailed(decode(Source()).error))
      ensures decode(Source()).Success? ==>
                && Docs(variants) == decode(Source()).value
                && err == VerifyAll(decode(Source()).value)
      ensures Distinct(variants) && forall v :: v in variants ==> fresh(v)
    {
      var decoded := decode(Source());
      if decoded.Failure? {
        variants := [];
        return Some(Templater.LoadFailed(decoded.error));
      }
      var docs := decoded.value;
      var vs: seq<Variant> := [];
      var i := 0;
      while i < |docs|
        invariant 0 <= i <= |docs|
        invariant |vs| == i
        invariant forall j :: 0 <= j < i ==> fresh(vs[j]) && vs[j].Doc() == docs[j]
        invariant Distinct(vs)
      {
        var v := new Variant(docs[i]);
        vs := vs + [v];
        i := i + 1;
      }
      variants := vs;
      assert Docs(variants) == docs;
      err := Verify();
    }
  }

  /** Output name, rendering and writing for one variant, all over the data
      with `image` replaced. */
  function RenderOne(doc: VariantDoc,
                     outputFile: Bag -> Result<string, string>,
                     execute: Bag -> Result<string, string>,
                     write: (string, string) -> Option<string>): Result<Templater.Written, Templater.Fatal>
    requires Ready(doc)
  {
    var data := WithImage(doc.data, doc.image.value.name.value, doc.image.value.tag.value);
    match outputFile(data)
    case Failure(msg) => Failure(Templater.OutputNameFailed(msg))
    case Success(file) =>
      match execute(data)
      case Failure(msg) => Failure(Templater.ExecuteFailed(msg))
      case Success(text) =>
        if write(file, text).Some? then Failure(Templater.WriteFailed(file, write(file, text).value))
        else Success(Templater.Written(file, text))
  }

  function RenderAll(docs: seq<VariantDoc>,
                     outputFile: Bag -> Result<string, string>,
                     execute: Bag -> Result<string, string>,
                     write: (string, string) -> Option<string>): Templater.RenderOutcome
    requires forall i :: 0 <= i < |docs| ==> Ready(docs[i])
    decreases |docs|
  {
    if docs == [] then Templater.RenderOutcome([], None)
    else
      match RenderOne(docs[0], outputFile, execute, write)
      case Failure(e) => Templater.RenderOutcome([], Some(e))
      case Success(w) =>
        var rest := RenderAll(docs[1..], outputFile, execute, write);
        Templater.RenderOutcome([w] + rest.written, rest.err)
  }

  /** The loop step of `Renderer.Render`: with `written` produced before
      position `i`, the variant at `i` either ends the run with its error or
      adds its file. */
  lemma RenderAllAdvance(docs: seq<VariantDoc>, i: nat, written: seq<Templater.Written>,
                         outputFile: Bag -> Result<string, string>,
                         execute: Bag -> Result<string, string>,
                         write: (string, string) -> Option<string>)
    requires i < |docs| && forall j :: 0 <= j < |docs| ==> Ready(docs[j])
    requires RenderAll(docs, outputFile, execute, write) ==
               var rest := RenderAll(docs[i..], outputFile, execute, write);
               Templater.RenderOutcome(written + rest.written, rest.err)
    ensures var whole := RenderAll(docs, outputFile, execute, write);
            match RenderOne(docs[i], outputFile, execute, write)
            case Failure(e) => whole == Templater.RenderOutcome(written, Some(e))
            case Success(w) =>
              var rest := RenderAll(docs[i + 1..], outputFile, execute, write);
              whole == Templater.RenderOutcome((written + [w]) + rest.written, rest.err)
  {
    assert docs[i..][0] == docs[i] && docs[i..][1..] == docs[i + 1..];
    match RenderOne(docs[i], outputFile, execute, write)
    case Failure(e) =>
      assert written + [] == written;
    case Success(w) =>
      var rest := RenderAll(docs[i + 1..], outputFile, execute, write);
      assert written + ([w] + rest.written) == (written + [w]) + rest.written;
  }

  /** The output name and the rendered text only ever see the injected
      image: two variants that differ only in their old `image` entry render
      alike. */
  lemma RenderIgnoresOldImage(doc1: VariantDoc, doc2: VariantDoc,
                              outputFile: Bag -> Result<string, string>,
                              execute: Bag -> Result<string, string>,
                              write: (string, string) -> Option<string>)
    requires Ready(doc1) && doc2.image == doc1.image
    requires doc2.data == doc1.data["image" := Other]
    ensures RenderOne(doc1, outputFile, execute, write) == RenderOne(doc2, outputFile, execute, write)
  {
    var m := map["name" := Str(doc1.image.value.name.value), "tag" := Str(doc1.image.value.tag.value)];
    assert WithImage(doc1.data, doc1.image.value.name.value, doc1.image.value.tag.value)
        == WithImage(doc2.data, doc1.image.value.name.value, doc1.image.value.tag.value);
  }

  /** The variants after a run that gave the first `count` of them their
      injected image: each keeps its image, those `count` hold their data
      with `image` replaced. */
  ghost predicate ImagedUpTo(docs: seq<VariantDoc>, after: seq<VariantDoc>, count: nat)
  {
    && |after| == |docs| && count <= |docs|
    && (forall j :: 0 <= j < |docs| ==> after[j].image == docs[j].image)
    && (forall j :: 0 <= j < count ==>
          && Ready(docs[j])
          && after[j].data == WithImage(docs[j].data, docs[j].image.value.name.value, docs[j].image.value.tag.value))
  }

  /** Replacing `image` in the variant at `i` extends `ImagedUpTo` by one,
      and the variants after it are as they were. */
  lemma ImagedStep(docs: seq<VariantDoc>, current: seq<VariantDoc>, i: nat, d: VariantDoc)
    requires ImagedUpTo(docs, current, i) && i < |docs| && current[i] == docs[i] && Ready(docs[i])
    requires d.image == docs[i].image
    requires d.data == WithImage(docs[i].data, docs[i].image.value.name.value, docs[i].image.value.tag.value)
    ensures ImagedUpTo(docs, current[i := d], i + 1)
    ensures forall j :: i < j < |docs| ==> current[i := d][j] == current[j]
  {
  }

  /** The templater of main.go:166-174. */
  class Renderer {
    constructor ()
    {
    }

    /** main.go:181-207, the body of the loop for one variant: `image` is
        replaced in place, then the output name is computed, the template
        rendered and the file written. Only the variant at `i` changes. */
    method RenderVariant(variants: seq<Variant>, i: nat,
                         outputFile: Bag -> Result<string, string>,
                         execute: Bag -> Result<string, string>,
                         write: (string, string) -> Option<string>) returns (r: Result<Templater.Written, Templater.Fatal>)
      requires i < |variants| && Distinct(variants) && Ready(variants[i].Doc())
      modifies variants[i]
      ensures Docs(variants) == old(Docs(variants))[i := variants[i].Doc()]
      ensures variants[i].image == old(variants[i].image)
      ensures variants[i].data == WithImage(old(variants[i].data), old(variants[i].image).value.name.value,
                                            old(variants[i].image).value.tag.value)
      ensures r == RenderOne(old(variants[i].Doc()), outputFile, execute, write)
    {
      var v := variants[i];
      v.data := WithImage(v.data, v.image.value.name.value, v.image.value.tag.value);
      forall j | 0 <= j < |variants|
        ensures Docs(variants)[j] == old(Docs(variants))[i := v.Doc()][j]
      {
        if j != i {
          assert variants[j] != v;
        }
      }
      var file := outputFile(v.data);
      if file.Failure? {
        return Failure(Templater.OutputNameFailed(file.error));
      }
      var text := execute(v.data);
      if text.Failure? {
        return Failure(Templater.ExecuteFailed(text.error));
      }
      var w := write(file.value, text.value);
      if w.Some? {
        return Failure(Templater.WriteFailed(file.value, w.value));
      }
      r := Success(Templater.Written(file.value, text.value));
    }

    /** main.go:176-209: every variant in turn gets its `image` replaced and
        is rendered, until the first fatal error. The variants are updated in
        place: those rendered and the one that failed hold their data with
        `image` replaced, those after it are untouched. */
    method Render(variants: seq<Variant>,
                  outputFile: Bag -> Result<string, string>,
                  execute: Bag -> Result<string, string>,
                  write: (string, string) -> Option<string>) returns (written: seq<Templater.Written>, err: Option<Templater.Fatal>)
      requires Distinct(variants)
      requires forall v :: v in variants ==> Ready(v.Doc())
      modifies set v | v in variants
      ensures forall i :: 0 <= i < |old(Docs(variants))| ==> Ready(old(Docs(variants))[i])
      ensures Templater.RenderOutcome(written, err) == RenderAll(old(Docs(variants)), outputFile, execute, write)
      ensures |written| <= |variants| && (err.Some? ==> |written| < |variants|)
      ensures ImagedUpTo(old(Docs(variants)), Docs(variants), if err.Some? then |written| + 1 else |written|)
      ensures forall i :: |written| < i < |variants| ==> Docs(variants)[i] == old(Docs(variants))[i]
    {
      ghost var docs := Docs(variants);
      written := [];
      var i := 0;
      while i < |variants|
        invariant 0 <= i <= |variants| && |written| == i
        invariant forall j :: 0 <= j < |docs| ==> Ready(docs[j])
        invariant ImagedUpTo(docs, Docs(variants), i)
        invariant forall j :: i <= j < |variants| ==> Docs(variants)[j] == docs[j]
        invariant RenderAll(docs, outputFile, execute, write) ==
                    var rest := RenderAll(docs[i..], outputFile, execute, write);
                    Templater.RenderOutcome(written + rest.written, rest.err)
      {
        RenderAllAdvance(docs, i, written, outputFile, execute, write);
        ghost var current := Docs(variants);
        var r := RenderVariant(variants, i, outputFile, execute, write);
        ImagedStep(docs, current, i, variants[i].Doc());
        if r.Failure? {
          return written, Some(r.error);
        }
        written := written + [r.value];
        i := i + 1;
      }
      assert docs[i..] == [];
      err := None;
    }
  }

  /** main.go:212-228: no directory option, or an empty one, adds nothing;
      otherwise the directory's `*.tpl` files join the set, a parse error
      being fatal. */
  method InitTemplateDir(e: IncludeEngine.Engine, dir: Option<string>, parse: TemplateLoad.Parser)
    returns (err: Option<TemplateLoad.LoadError>)
    modifies e
    ensures unchanged(e.counter)
    ensures (dir.None? || dir.value == "") ==> err.None? && e.defs == old(e.defs)
    ensures dir.Some? && dir.value != "" ==>
              if err.None? then TemplateLoad.LoadAll(old(e.defs), [TemplateLoad.Glob(dir.value)], parse) == Success(e.defs)
              else TemplateLoad.LoadAll(old(e.defs), [TemplateLoad.Glob(dir.value)], parse) == Failure(err.value)
  {
    if dir.None? || dir.value == "" {
      return None;
    }
    var m := TemplateLoad.ParseSource(e, TemplateLoad.Glob(dir.value), parse);
    if m.Some? {
      return Some(TemplateLoad.DirFailed(dir.value, m.value));
    }
    assert [TemplateLoad.Glob(dir.value)][1..] == [];
    return None;
  }

  /** The sources main.go:231-234 loads: the main file, then the fragment
      directory when one is given. */
  function LegacySources(file: string, dir: Option<string>): (sources: seq<TemplateLoad.Source>)
    ensures |sources| == if dir.None? || dir.value == "" then 1 else 2
    ensures sources[0] == TemplateLoad.File(file)
    ensures |sources| == 2 ==> sources[1] == TemplateLoad.Glob(dir.value)
  {
    if dir.None? || dir.value == "" then [TemplateLoad.File(file)]
    else [TemplateLoad.File(file), TemplateLoad.Glob(dir.value)]
  }

  /** main.go:231-234 with parseTemplate (main.go:336-352): a set named after
      the file's base name, the file parsed first, then the guarded fragment
      directory. This revision has no `include` or `tpl`, so the counter
      stays empty. */
  method InitTemplate(file: string, dir: Option<string>, parse: TemplateLoad.Parser)
    returns (e: IncludeEngine.Engine, err: Option<TemplateLoad.LoadError>)
    ensures fresh(e) && e.rootName == TemplateLoad.Base(file)
    ensures err.None? ==> TemplateLoad.LoadAll(map[], LegacySources(file, dir), parse) == Success(e.defs)
    ensures err.Some? ==> TemplateLoad.LoadAll(map[], LegacySources(file, dir), parse) == Failure(err.value)
  {
    e := new IncludeEngine.Engine(TemplateLoad.Base(file), map[]);
    var m := TemplateLoad.ParseSource(e, TemplateLoad.File(file), parse);
    var sources := LegacySources(file, dir);
    assert sources[1..] == if |sources| == 1 then [] else [TemplateLoad.Glob(dir.value)];
    if m.Some? {
      return e, Some(TemplateLoad.FileFailed(file, m.value));
    }
    err := InitTemplateDir(e, dir, parse);
  }

  /** The log levels of main.go:286-294. */
  datatype Level = Error | Info | Warn | Debug

  function LevelName(level: Level): string
  {
    match level
    case Error => "ERROR"
    case Info => "INFO"
    case Warn => "WARN"
    case Debug => "DEBUG"
  }

  /** What a `logf` call does: nothing, hand a line to `log.Printf`, or hand
      a line to `log.Fatalf`, which also ends the run. `line` is the string
      passed to the standard logger, which prints it after its own date and
      time prefix. */
  datatype LogEffect = Suppressed | Printed(line: string) | PrintedAndExit(line: string)

  /** main.go:297-317: a DEBUG message is dropped unless verbose; any other
      message is handed to the logger behind its level tag, and only an
      ERROR, always, ends the run. */
  function Logf(level: Level, verbose: bool, message: string): (effect: LogEffect)
    ensures effect.Suppressed? <==> level == Debug && !verbose
    ensures effect.PrintedAndExit? <==> level == Error
    ensures !effect.Suppressed? ==>
              && |effect.line| == |LevelName(level)| + 4 + |message|
              && effect.line[..|LevelName(level)| + 1] == "[" + LevelName(level)
              && effect.line[|LevelName(level)| + 1..|LevelName(level)| + 4] == "]: "
              && effect.line[|effect.line| - |message|..] == message
  {
    if level == Debug && !verbose then Suppressed
    else
      var line := "[" + LevelName(level) + "]: " + message;
      if level == Error then PrintedAndExit(line) else Printed(line)
  }
}
