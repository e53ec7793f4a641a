/**
 * Building the template set: `ParseTemplate` and `InitTemplateDirs` of
 * utils/helpers.go, and the `initTemplate`/`initTemplateDirs` pair of
 * cmd/templater.go, which loads the same sources in the other order.
 *
 * Parsing itself (text/template's ParseFiles and ParseGlob) is a parameter:
 * `parse(File(f))` or `parse(Glob(dir))` gives the named templates that the
 * file, or the `*.tpl` files of the directory, define, or the parse error.
 * The set grows by map union, so a name defined again replaces the earlier
 * definition. Every parse error is fatal (utils.Error is log.Fatalf), so the
 * first failing source ends the load.
 */
module TemplateLoad {
  import opened Wrappers
  import GoStrings
  import IncludeEngine

  type Defs = IncludeEngine.Defs

  /** A main template file, or a directory whose `*.tpl` files are parsed
      as one glob. */
  datatype Source = File(path: string) | Glob(dir: string)

  type Parser = Source -> Result<Defs, string>

  datatype LoadError =
    | FileFailed(file: string, msg: string)
    | DirFailed(dir: string, msg: string)

  /** The fatal message that names the source that could not be parsed
      (utils/helpers.go:199-202 for a file, 224-229 for a directory). */
  function Blame(src: Source, msg: string): (e: LoadError)
    ensures src.File? <==> e.FileFailed?
    ensures e.msg == msg
  {
    match src
    case File(f) => FileFailed(f, msg)
    case Glob(d) => DirFailed(d, msg)
  }

  function Globs(dirs: seq<string>): (r: seq<Source>)
    ensures |r| == |dirs|
    ensures forall i :: 0 <= i < |dirs| ==> r[i] == Glob(dirs[i])
  {
    if dirs == [] then [] else [Glob(dirs[0])] + Globs(dirs[1..])
  }

  /** Parsing the sources in order into the set `defs`: the first source
      that fails ends the load with its error. */
  function LoadAll(defs: Defs, sources: seq<Source>, parse: Parser): Result<Defs, LoadError>
    decreases |sources|
  {
    if sources == [] then Success(defs)
    else
      match parse(sources[0])
      case Failure(msg) => Failure(Blame(sources[0], msg))
      case Success(d) => LoadAll(defs + d, sources[1..], parse)
  }

  /** The load fails exactly when some source fails to parse, and then with
      the error of the first such source. */
  lemma {:induction false} LoadFailsAtFirstFailure(defs: Defs, sources: seq<Source>, parse: Parser)
    ensures LoadAll(defs, sources, parse).Failure? <==>
              exists i :: 0 <= i < |sources| && parse(sources[i]).Failure?
    ensures LoadAll(defs, sources, parse).Failure? ==>
              exists i :: 0 <= i < |sources| && parse(sources[i]).Failure?
                && (forall j :: 0 <= j < i ==> parse(sources[j]).Success?)
                && LoadAll(defs, sources, parse).error == Blame(sources[i], parse(sources[i]).error)
    decreases |sources|
  {
    if sources != [] {
      match parse(sources[0])
      case Failure(msg) =>
      case Success(d) =>
        LoadFailsAtFirstFailure(defs + d, sources[1..], parse);
        var r := LoadAll(defs, sources, parse);
        if r.Failure? {
          var i :| 0 <= i < |sources[1..]| && parse(sources[1..][i]).Failure?
                    && (forall j :: 0 <= j < i ==> parse(sources[1..][j]).Success?)
                    && r.error == Blame(sources[1..][i], parse(sources[1..][i]).error);
          assert forall j :: 0 <= j < i + 1 ==> parse(sources[j]).Success? by {
            forall j | 0 < j < i + 1 ensures parse(sources[j]).Success? {
              assert sources[j] == sources[1..][j - 1];
            }
          }
        } else {
          forall i | 0 <= i < |sources| ensures parse(sources[i]).Success? {
            if i > 0 { assert sources[i] == sources[1..][i - 1]; }
          }
        }
    }
  }

  /** `src` parses and defines `name`. */
  ghost predicate Defines(parse: Parser, src: Source, name: string)
  {
    parse(src).Success? && name in parse(src).value
  }

  /** `i` is the last of the sources to define `name`. */
  ghost predicate LastToDefine(sources: seq<Source>, parse: Parser, name: string, i: int)
  {
    && 0 <= i < |sources|
    && Defines(parse, sources[i], name)
    && forall j :: i < j < |sources| ==> !Defines(parse, sources[j], name)
  }

  /** After a successful load, a name holds the definition of the last source
      that defines it; a name no source defines keeps its earlier state. */
  lemma {:induction false} LastDefinitionWins(defs: Defs, sources: seq<Source>, parse: Parser, name: string)
    requires LoadAll(defs, sources, parse).Success?
    ensures forall i :: LastToDefine(sources, parse, name, i) ==>
              name in LoadAll(defs, sources, parse).value
              && LoadAll(defs, sources, parse).value[name] == parse(sources[i]).value[name]
    ensures (forall i :: 0 <= i < |sources| ==> !Defines(parse, sources[i], name)) ==>
              (name in LoadAll(defs, sources, parse).value <==> name in defs)
              && (name in defs ==> LoadAll(defs, sources, parse).value[name] == defs[name])
    decreases |sources|
  {
    if sources != [] {
      var d := parse(sources[0]).value;
      var rest := sources[1..];
      LastDefinitionWins(defs + d, rest, parse, name);
      var r := LoadAll(defs, sources, parse);
      assert r == LoadAll(defs + d, rest, parse);
      forall i | LastToDefine(sources, parse, name, i)
        ensures name in r.value && r.value[name] == parse(sources[i]).value[name]
      {
        if i > 0 {
          assert LastToDefine(rest, parse, name, i - 1) by {
            forall j | i - 1 < j < |rest|
              ensures !Defines(parse, rest[j], name)
            {
              assert rest[j] == sources[j + 1];
            }
          }
        } else {
          forall i | 0 <= i < |rest| ensures !Defines(parse, rest[i], name) {
            assert rest[i] == sources[i + 1];
          }
        }
      }
      if forall i :: 0 <= i < |sources| ==> !Defines(parse, sources[i], name) {
        assert !Defines(parse, sources[0], name);
        forall i | 0 <= i < |rest| ensures !Defines(parse, rest[i], name) {
          assert rest[i] == sources[i + 1];
        }
      }
    }
  }

  /** `path` with its trailing slashes removed. */
  function TrimTrailingSlashes(path: string): (r: string)
    ensures r <= path
    ensures r == [] || r[|r| - 1] != '/'
    ensures forall i :: |r| <= i < |path| ==> path[i] == '/'
  {
    if path != [] && path[|path| - 1] == '/' then TrimTrailingSlashes(path[..|path| - 1])
    else path
  }

  /** Go's filepath.Base on a slash-separated path: the last element, "." for
      the empty path and "/" for a path of slashes only. The root template
      takes this name (utils/helpers.go:170). */
  function Base(path: string): (r: string)
    ensures r != []
  {
    if path == [] then "."
    else
      var trimmed := TrimTrailingSlashes(path);
      if trimmed == [] then "/"
      else
        var parts := GoStrings.Split(trimmed, "/");
        SplitLastPiece(trimmed, '/');
        parts[|parts| - 1]
  }

  /** A string that does not end with the separator has a non-empty last
      piece. */
  lemma {:induction false} SplitLastPiece(s: string, c: char)
    requires s != [] && s[|s| - 1] != c
    ensures var parts := GoStrings.Split(s, [c]); parts[|parts| - 1] != []
    decreases |s|
  {
    var rest := GoStrings.Split(s[1..], [c]);
    if |s| > 1 {
      assert s[1..][|s[1..]| - 1] == s[|s| - 1];
      SplitLastPiece(s[1..], c);
    }
    if s[..1] == [c] {
      assert |s| > 1;
      assert GoStrings.Split(s, [c]) == [""] + rest;
    }
  }

  /** The base of `dir/name` is `name`, whatever the directory. */
  lemma BaseOfJoin(dir: string, name: string)
    requires name != [] && '/' !in name
    ensures Base(dir + "/" + name) == name
  {
    var p := dir + "/" + name;
    assert p[|p| - 1] == name[|name| - 1];
    assert TrimTrailingSlashes(p) == p;
    GoStrings.SplitAround(dir, '/', name);
    GoStrings.SplitWithout(name, '/');
    assert dir + ['/'] + name == p;
  }

  /** The base of a path holds no slash, except the base "/" of the root. */
  lemma BaseHasNoSlash(path: string)
    ensures Base(path) == "/" || '/' !in Base(path)
  {
    if path != [] {
      var trimmed := TrimTrailingSlashes(path);
      if trimmed != [] {
        var parts := GoStrings.Split(trimmed, "/");
        var last := parts[|parts| - 1];
        if '/' in last {
          GoStrings.SplitCount(trimmed, '/');
          SplitPiecesHaveNoSeparator(trimmed, '/');
          assert false;
        }
      }
    }
  }

  lemma {:induction false} SplitPiecesHaveNoSeparator(s: string, c: char)
    ensures forall p :: p in GoStrings.Split(s, [c]) ==> c !in p
    decreases |s|
  {
    var parts := GoStrings.Split(s, [c]);
    if |s| < 1 {
    } else if s[..1] == [c] {
      SplitPiecesHaveNoSeparator(s[1..], c);
    } else {
      SplitPiecesHaveNoSeparator(s[1..], c);
      var rest := GoStrings.Split(s[1..], [c]);
      assert s[0] != c;
      assert parts == [[s[0]] + rest[0]] + rest[1..];
      forall p | p in parts ensures c !in p {
        if p != [s[0]] + rest[0] {
          assert p in rest[1..];
        }
      }
    }
  }

  /** Adds what `parse(src)` defines to the set; on a parse error the set is
      left as it was and the error returned. */
  method ParseSource(e: IncludeEngine.Engine, src: Source, parse: Parser) returns (err: Option<string>)
    modifies e
    ensures unchanged(e.counter)
    ensures parse(src).Failure? ==> err == Some(parse(src).error) && e.defs == old(e.defs)
    ensures parse(src).Success? ==> err.None? && e.defs == old(e.defs) + parse(src).value
  {
    var r := parse(src);
    if r.Failure? {
      return Some(r.error);
    }
    e.defs := e.defs + r.value;
    err := None;
  }

  /** utils/helpers.go:210-232 (and cmd/templater.go:472-493): each
      directory's `*.tpl` files in the order given; the first failure is
      fatal. */
  method InitTemplateDirs(e: IncludeEngine.Engine, dirs: seq<string>, parse: Parser) returns (err: Option<LoadError>)
    modifies e
    ensures unchanged(e.counter)
    ensures err.None? ==> LoadAll(old(e.defs), Globs(dirs), parse) == Success(e.defs)
    ensures err.Some? ==> LoadAll(old(e.defs), Globs(dirs), parse) == Failure(err.value)
  {
    ghost var start := e.defs;
    var i := 0;
    while i < |dirs|
      invariant 0 <= i <= |dirs|
      invariant unchanged(e.counter)
      invariant LoadAll(start, Globs(dirs), parse) == LoadAll(e.defs, Globs(dirs)[i..], parse)
    {
      assert Globs(dirs)[i..][0] == Glob(dirs[i]);
      assert Globs(dirs)[i..][1..] == Globs(dirs)[i + 1..];
      var m := ParseSource(e, Glob(dirs[i]), parse);
      if m.Some? {
        return Some(DirFailed(dirs[i], m.value));
      }
      i := i + 1;
    }
    return None;
  }

  /** utils/helpers.go:167-207: a root template named after the file's base
      name, with a fresh include counter, then the fragment directories,
      then the file itself, so the file's own definitions take precedence
      over same-named fragments. */
  method ParseTemplate(file: string, dirs: seq<string>, parse: Parser) returns (e: IncludeEngine.Engine, err: Option<LoadError>)
    ensures fresh(e) && fresh(e.counter) && e.Valid()
    ensures e.rootName == Base(file) && e.counter.includedNames == map[]
    ensures err.None? ==> LoadAll(map[], Globs(dirs) + [File(file)], parse) == Success(e.defs)
    ensures err.Some? ==> LoadAll(map[], Globs(dirs) + [File(file)], parse) == Failure(err.value)
  {
    e := new IncludeEngine.Engine(Base(file), map[]);
    err := InitTemplateDirs(e, dirs, parse);
    LoadAppend(map[], Globs(dirs), File(file), parse);
    if err.Some? {
      return;
    }
    var m := ParseSource(e, File(file), parse);
    if m.Some? {
      err := Some(FileFailed(file, m.value));
    }
  }

  /** cmd/templater.go:496-499: the main file first, then the fragment
      directories, so a fragment replaces a same-named definition of the
      main file. */
  method InitTemplate(file: string, dirs: seq<string>, parse: Parser) returns (e: IncludeEngine.Engine, err: Option<LoadError>)
    ensures fresh(e) && fresh(e.counter) && e.Valid()
    ensures e.rootName == Base(file) && e.counter.includedNames == map[]
    ensures err.None? ==> LoadAll(map[], [File(file)] + Globs(dirs), parse) == Success(e.defs)
    ensures err.Some? ==> LoadAll(map[], [File(file)] + Globs(dirs), parse) == Failure(err.value)
  {
    e, err := ParseTemplate(file, [], parse);
    assert Globs([]) + [File(file)] == [File(file)];
    assert ([File(file)] + Globs(dirs))[1..] == Globs(dirs);
    if err.Some? {
      return;
    }
    err := InitTemplateDirs(e, dirs, parse);
  }

  /** Loading one more source after a successful load continues from the
      loaded set. */
  lemma {:induction false} LoadAppend(defs: Defs, sources: seq<Source>, last: Source, parse: Parser)
    ensures LoadAll(defs, sources + [last], parse) ==
              match LoadAll(defs, sources, parse)
              case Failure(e) => Failure(e)
              case Success(d) => LoadAll(d, [last], parse)
    decreases |sources|
  {
    if sources != [] {
      assert (sources + [last])[0] == sources[0];
      assert (sources + [last])[1..] == sources[1..] + [last];
      if parse(sources[0]).Success? {
        LoadAppend(defs + parse(sources[0]).value, sources[1..], last, parse);
      }
    }
  }

  /** The two revisions disagree when the main file and a fragment define the
      same name: the file's definition survives in utils/helpers.go, the
      fragment's in cmd/templater.go. */
  lemma PrecedenceDiffers(file: string, dir: string, parse: Parser, name: string)
    requires parse(File(file)).Success? && parse(Glob(dir)).Success?
    requires name in parse(File(file)).value && name in parse(Glob(dir)).value
    ensures var r := LoadAll(map[], Globs([dir]) + [File(file)], parse);
              r.Success? && name in r.value && r.value[name] == parse(File(file)).value[name]
    ensures var r := LoadAll(map[], [File(file)] + Globs([dir]), parse);
              r.Success? && name in r.value && r.value[name] == parse(Glob(dir)).value[name]
  {
    var f, g := parse(File(file)).value, parse(Glob(dir)).value;
    var helpersOrder := Globs([dir]) + [File(file)];
    assert helpersOrder == [Glob(dir), File(file)];
    assert helpersOrder[1..] == [File(file)];
    assert LoadAll(map[], helpersOrder, parse) == LoadAll(map[] + g, [File(file)], parse);
    assert [File(file)][1..] == [];
    assert LoadAll(map[] + g, [File(file)], parse) == LoadAll(map[] + g + f, [], parse);
    var cmdOrder := [File(file)] + Globs([dir]);
    assert cmdOrder == [File(file), Glob(dir)];
    assert cmdOrder[1..] == [Glob(dir)];
    assert LoadAll(map[], cmdOrder, parse) == LoadAll(map[] + f, [Glob(dir)], parse);
    assert [Glob(dir)][1..] == [];
    assert LoadAll(map[] + f, [Glob(dir)], parse) == LoadAll(map[] + f + g, [], parse);
  }
}
