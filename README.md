# dockerfile-templater, modelled in Dafny

dockerfile-templater renders one Dockerfile per *variant* from a Go
`text/template`. A variants file lists the variants, each with a name, an
`image` block (`name`, `tag`) and free-form data. Fragment directories add
named `*.tpl` templates. Command-line overrides (`key=value`, optionally
scoped as `variant:key`) patch each variant's data before rendering. The
templates get two extra functions: `include`, which renders a named template
behind a recursion guard, and `tpl`, which renders a string as a template.

This project models the parts of that program that are logic rather than
library calls:

- `GoStrings` (go_strings.dfy): `strings.Split`, `strings.Join` and
  `strings.ReplaceAll`, as the program uses them.
- `DataBag` (data_bag.dfy): a variant's data as a tree of maps, strings and
  other values, and the path-creating walk `UpdateAndGetMapElementByPath`.
- `IncludeEngine` (include_engine.dfy): the shared `includedNames` counter
  behind `include` and `tpl`, with template execution replaced by a small body
  language: text, an absent value (printed as `<no value>`), a call of
  `include`, and a failing action. The methods update the shared counter in
  place and are proved equal to a pure reference semantics.
- `TemplateLoad` (template_load.dfy): building the template set from the main
  file and the fragment directories, in the order of each revision.
- `Templater` (templater.dfy): the variant handling of cmd/templater.go, i.e.
  required fields, loading, `image`/`name` injection, overrides and `Render`.
- `LegacyMain` (legacy_main.dfy): the older main.go revision: its variant
  check, load dispatch, `Render`, fragment-directory guard and `logf`.

Every fatal log call (`utils.Error`, `logf` at level ERROR) is `log.Fatalf`,
which ends the process. Each such call is modelled as an error result, and
nothing after it runs. Parsing and executing templates, decoding YAML,
computing the output file name and writing files are function parameters of
the operations that need them.

Where the two revisions or the code and its documentation differ, the model
follows the code:

- utils/helpers.go:196-197 loads the fragment directories before the main
  file. cmd/templater.go:497-498 loads the main file first.
  `TemplateLoad.PrecedenceDiffers` shows that a name both define ends up with
  the main file's definition in the first order and the fragment's in the
  second.
- A `*.tpl` glob that matches no file is an error of `ParseGlob`. Whether a
  directory parses is left to the parse parameter, so an empty directory is
  an error exactly when the parser says so.
- An override whose parent path meets a scalar only logs a warning
  (cmd/templater.go:314-320). The assignment at line 332 then writes into a
  nil map, which panics. The model returns an error there instead of
  dropping the override silently.

## Model

| member | source | states |
|---|---|---|
| GoStrings.Split | cmd/templater.go:288 | a split always has at least one piece |
| GoStrings.JoinSplit | cmd/templater.go:288 | joining the pieces of a split with the same separator gives the string back |
| GoStrings.ReplaceAllIsSplitJoin | utils/helpers.go:162 | replacing every occurrence is splitting on it and joining with the replacement |
| GoStrings.ReplaceAllWithoutOccurrence | utils/helpers.go:162 | a string without the pattern is returned unchanged |
| GoStrings.ReplaceAllKeepsPrefix | utils/helpers.go:162 | text at whose positions the pattern does not start is copied as it is, and the pass goes on after it |
| GoStrings.SplitCount | cmd/templater.go:288-289 | splitting on one character gives one more piece than the character's occurrences, which decides whether a key is scoped |
| GoStrings.SplitAround | cmd/templater.go:288 | splitting distributes over a concatenation around one separator |
| GoStrings.SplitWithout | cmd/templater.go:288 | a string without the separator is a single piece |
| DataBag.UpdateAndGetMapElementByPath | utils/helpers.go:305-326 | nil exactly when an existing non-map value is on the path; then nothing is inserted; otherwise the returned map is found at the path; only the first key is added at top level and no other entry changes |
| DataBag.TraversalPreserves | utils/helpers.go:313-319 | existing entries are never overwritten or removed: every value in the tree is kept, and maps only gain keys |
| DataBag.TraversalReachedMap | utils/helpers.go:309-322 | an empty path, or a path of existing maps, returns that map and leaves the tree unchanged; a path of missing keys reaches a fresh empty map |
| DataBag.EmptyTraversal | utils/helpers.go:313-319 | in an empty tree every path is created and reaches an empty map |
| DataBag.TraverseThenPutIsAssign | cmd/templater.go:303-332 | walking to the parent map and then assigning the last key is the nested assignment `Assign`, and it fails exactly when the walk returns nil |
| DataBag.AssignFailsWhenBlocked | cmd/templater.go:303-332 | a nested assignment fails exactly when an existing non-map value lies before its last key |
| DataBag.AssignReadBack | cmd/templater.go:332 | after a nested assignment the value is found at its path |
| DataBag.AssignLeavesOtherPaths | cmd/templater.go:332 | a nested assignment leaves every path that parts ways with it unchanged |
| DataBag.EmptyAssignHasOnlyPath | utils/helpers.go:314-317 | a tree built in an empty map holds nothing off the assigned path |
| IncludeEngine.SelfInclusionFails | utils/helpers.go:116-119 | a template that includes itself, with only text and absent values before the call, is refused when its count passes 1000; the outermost call ends with the recursion error and keeps just the text its body printed before the call ("" if the count was already past the ceiling) |
| IncludeEngine.GuardAdmitsBoundedNesting | utils/helpers.go:116-126 | while no count plus the nesting depth exceeds 1001, the guarded include gives the same result as unguarded execution |
| IncludeEngine.IncludeSpecCountsOnly | utils/helpers.go:122-125 | a name left in the map with count 0 behaves like a name never included |
| IncludeEngine.Engine.Include | utils/helpers.go:113-128 | refuses with "" and an error, leaving the counter as it was, when the count is above 1000; otherwise the count goes up by one (or becomes 1) while the body runs and back down after, on success or error; the result is the reference semantics, every count is as before, the key stays, and no count exceeds 1001 |
| IncludeEngine.Engine.RunBody | utils/helpers.go:124 | executing a body against the shared counter gives the reference semantics and puts every count back |
| IncludeEngine.Engine.Execute | utils/helpers.go:235-258 | rendering the root template: no such template is an error, otherwise its body's result |
| IncludeEngine.Engine.Clone | utils/helpers.go:133-142 | a clone has the same templates and shares the same counter |
| IncludeEngine.Engine.ParseInto | utils/helpers.go:151 | the parsed text's definitions join the clone, and its body becomes the root template |
| IncludeEngine.Engine.Tpl | utils/helpers.go:131-164 | clone, parse and execution errors in that order, each with ""; otherwise the executed text with "<no value>" stripped; the parent's templates are untouched and the counter is restored |
| IncludeEngine.StripLeavesPlainText | utils/helpers.go:162 | text without the marker comes out of `tpl` unchanged |
| IncludeEngine.AbsentValueRendersEmpty | utils/helpers.go:160-162 | a `tpl` text that is one action on an absent value renders as empty text, with no error |
| IncludeEngine.ReplaceInsidePattern | utils/helpers.go:162 | for a pattern whose first character does not recur among the next three, removing it from a copy wrapped around a second copy gives the outer copy back whole |
| IncludeEngine.StripIsSinglePass | utils/helpers.go:162 | one pass can leave a marker behind: "<no" + "<no value>" + " value>" becomes "<no value>" |
| TemplateLoad.Blame | utils/helpers.go:199-202 | a failing source is reported as a file error exactly when it is the main file, with the parser's message |
| TemplateLoad.Globs | utils/helpers.go:219-223 | one `*.tpl` glob per directory, in the order given |
| TemplateLoad.LoadFailsAtFirstFailure | utils/helpers.go:211-231 | a load fails exactly when some source fails to parse, with the error of the first one; every earlier source parsed |
| TemplateLoad.LastDefinitionWins | utils/helpers.go:196-197 | after a load a name holds the definition of the last source that defines it; a name no source defines is as before |
| TemplateLoad.LoadAppend | utils/helpers.go:196-197 | parsing the main file after the directories continues from the directories' set, unless they failed |
| TemplateLoad.PrecedenceDiffers | cmd/templater.go:496-499 | with a name defined by both the main file and a fragment, the main file wins in utils/helpers.go and the fragment wins in cmd/templater.go |
| TemplateLoad.TrimTrailingSlashes | utils/helpers.go:171 | the result is a prefix of the path without a trailing slash, and only slashes were removed |
| TemplateLoad.Base | utils/helpers.go:171 | the base name of a path is never empty |
| TemplateLoad.BaseOfJoin | utils/helpers.go:171 | the base of `dir/name` is `name` |
| TemplateLoad.BaseHasNoSlash | utils/helpers.go:171 | a base name holds no slash, except the "/" of a path of slashes |
| TemplateLoad.SplitLastPiece | utils/helpers.go:171 | a path that does not end with a slash has a non-empty last element |
| TemplateLoad.SplitPiecesHaveNoSeparator | utils/helpers.go:171 | no piece of a split holds the separator |
| TemplateLoad.ParseSource | utils/helpers.go:197 | a parsed source's templates join the set, later names replacing earlier ones; on an error the set is unchanged |
| TemplateLoad.InitTemplateDirs | utils/helpers.go:210-232 | the directories in order, the first parse error being fatal |
| TemplateLoad.ParseTemplate | utils/helpers.go:167-207 | a set named after the file's base name with an empty counter, loaded from the directories then the file |
| TemplateLoad.InitTemplate | cmd/templater.go:496-499 | the main file first, then the directories |
| Templater.FirstMissing | cmd/templater.go:220-233 | the first of `name`, `image`, `image.name`, `image.tag` that is missing, in that order; none exactly when all are there |
| Templater.VerifyAllCharacterized | cmd/templater.go:354-362 | the variants pass exactly when there is at least one and each has all required attributes; otherwise the error is that of the first failing variant |
| Templater.FirstInvalidCharacterized | cmd/templater.go:359-361 | the first failing variant in list order decides the error; all before it pass |
| Templater.Variant.Verify | cmd/templater.go:205-234 | the fatal error is the one for the first missing attribute |
| Templater.InjectedReadBack | cmd/templater.go:337-343 | after the injection `.name`, `.image.name` and `.image.tag` hold the variant's values and every other top-level key is unchanged |
| Templater.Variant.SetDataImage | cmd/templater.go:337-343 | `image` becomes exactly `{name, tag}` and `name` the variant's name |
| Templater.KeyPath | cmd/templater.go:299-301 | an override's dotted path has at least one key |
| Templater.ScopedOverrideSkipsOtherVariants | cmd/templater.go:288-296 | a key `other:path` with exactly one `:` is skipped for every variant not named `other` |
| Templater.ScopedOverrideActsUnscoped | cmd/templater.go:288-299 | a key `name:path` acts on the variant `name` as the bare `path` |
| Templater.UnscopedOverrideAppliesToEveryVariant | cmd/templater.go:288-299 | a key without `:` is never skipped and does the same to every variant |
| Templater.MultiColonUsesLastSegment | cmd/templater.go:288-299 | a key with two or more `:` is never scoped, and only its last `:`-segment is the path |
| Templater.OverrideIsAssign | cmd/templater.go:299-332 | an override that is not skipped is the nested assignment of the string value at its dotted path, creating missing maps; a single key writes into the data directly |
| Templater.OverrideSetsValue | cmd/templater.go:324-332 | an applied override stores its value at its path, overwriting what was there, and leaves paths that part ways unchanged |
| Templater.OverrideFailsExactlyWhenBlocked | cmd/templater.go:314-332 | an override panics exactly when an existing non-map value lies on the way to its last key |
| Templater.OverridesForOthersChangeNothing | cmd/templater.go:283-296 | overrides all scoped to other variants leave the data unchanged |
| Templater.Variant.UpdateData | cmd/templater.go:282-334 | the overrides one by one in the given order; the first panic ends the run |
| Templater.KeyPathImageTag | cmd/templater.go:299-301 | the key `image.tag` names the path `image`, `tag` |
| Templater.KeyPathTwoKeys | cmd/templater.go:288-301 | two plain names joined by a dot, with no `:`, name the two-key path |
| Templater.OverrideReplacesInjectedTag | cmd/templater.go:436-437 | because injection comes before the overrides, an `image.tag` override replaces the image tag and keeps the image name and the variant name |
| Templater.Docs | cmd/templater.go:346-351 | the variants' current contents, one per object |
| Templater.VariantSet.Source | cmd/templater.go:411-416 | the plain variants file exactly when the config file name is empty, the templated one otherwise |
| Templater.VariantSet.Verify | cmd/templater.go:354-362 | no variants is fatal before any variant is checked; otherwise the first failing variant's error |
| Templater.VariantSet.Load | cmd/templater.go:411-419 | decodes the chosen source into fresh variants, then always verifies them |
| Templater.OverridesFailOnlyByNilMap | cmd/templater.go:314-332 | the only way a run of overrides fails is the panic of an assignment into a nil map |
| Templater.RenderStopsAtFirstFailure | cmd/templater.go:433-469 | one file per variant in order, each variant with its own override order, until the first variant that fails; nothing is written for it or after it |
| Templater.Renderer.RenderVariant | cmd/templater.go:436-468 | one variant: inject, apply the overrides, then output name, rendering and write over the result; only that variant changes, it keeps its name and image, and it holds the prepared data whenever the preparation succeeded |
| Templater.Renderer.Render | cmd/templater.go:433-469 | the outcome of rendering the variants in order, each one's overrides in its own enumeration of the override map, stopping at the first fatal error; afterwards every variant keeps its name and image, those rendered and the one that failed after its overrides hold their prepared data, and those after it are untouched |
| LegacyMain.FirstMissing | main.go:37-47 | the first of `image`, `image.name`, `image.tag` that is missing; `name` is never required |
| LegacyMain.VerifyAllCharacterized | main.go:94-104 | the variants pass exactly when there is at least one and each has an image name and tag; otherwise the first failing variant's error |
| LegacyMain.FirstInvalidCharacterized | main.go:100-102 | the first failing variant in list order decides the error |
| LegacyMain.Variant.Verify | main.go:37-47 | the fatal error is the one for the first missing attribute |
| LegacyMain.WithImageReadBack | main.go:182-185 | `image` becomes `{name, tag}` and every other key, `name` included, is unchanged |
| LegacyMain.Docs | main.go:86-91 | the variants' current contents, one per object |
| LegacyMain.TemplateData.Source | main.go:154-160 | the templated source exactly when a config file is given and not empty |
| LegacyMain.TemplateData.Verify | main.go:94-104 | no variants is fatal; otherwise the first failing variant's error |
| LegacyMain.TemplateData.Load | main.go:154-163 | decodes the chosen source into fresh variants, then always verifies them |
| LegacyMain.RenderIgnoresOldImage | main.go:182-195 | the output name and the rendering see only the injected image, whatever `image` entry the data held; with yaml.v3's `,inline` tag (main.go:31-32) an `image` key decodes into the `Image` field and never reaches `Data`, so this covers data built any other way |
| LegacyMain.Renderer.RenderVariant | main.go:180-207 | one variant: `image` replaced in place, then output name, rendering and write; only that variant changes and its data becomes the old data with `image` replaced |
| LegacyMain.Renderer.Render | main.go:176-209 | the outcome of rendering the variants in order, stopping at the first fatal error; afterwards every variant keeps its image, those rendered and the one that failed hold their data with `image` replaced, and those after it are untouched |
| LegacyMain.InitTemplateDir | main.go:212-228 | no directory option, or an empty one, adds nothing; otherwise the directory's templates join the set, a parse error being fatal |
| LegacyMain.LegacySources | main.go:231-234 | the main file, then the fragment directory only when one is given |
| LegacyMain.InitTemplate | main.go:231-234 | a set named after the file's base name, loaded from the main file and then the guarded directory |
| LegacyMain.Logf | main.go:297-317 | DEBUG is dropped exactly when not verbose; only ERROR ends the run; the line handed to `log.Printf`/`log.Fatalf` is `[`, the level name, `]: ` and the message |

## Left out

- Go's `text/template`: parsing, cloning, `ParseFiles`, `ParseGlob` and execution. These are library code. Parsing is a parameter. Execution is the small body language of `IncludeEngine`, or a parameter where the rendered text depends on variant data.
- The data argument of `include` and `tpl`: the body language has no data, so templates cannot branch on it.
- The `template` action and every other text/template action except the four pieces of the body language.
- A `tpl` call nested inside an included body: `Engine.Tpl` is modelled only at the top level of a rendering.
- text/template's rule that a redefinition with an empty body does not replace an existing template: the model always replaces.
- The YAML, JSON and TOML codec helpers, the `mergo` merges and the sprig function map (utils/helpers.go:23-110, 174-187): wrappers around libraries whose code is not part of this model.
- File and OS work: reading and writing files, creating the output directory, `filepath.Abs`, and `path.Join` of the output directory with the output name. `Render` reports the output name itself, and write failures come from a parameter.
- Command-line and configuration wiring (cobra, viper, `flag`) and the Debug and String dumps of variants.
- The plumbing of utils/log.go. The only part that matters is that `Error` is fatal, which the error results capture.
- Go map iteration order: each variant's `range` over the override map is a sequence that lists the map's entries once each (`Templater.Enumerates`), and `Render` takes one such sequence per variant. Which order Go picks is not modelled, and order-independence is not claimed when override paths overlap.
- Aliasing between nested Go maps: the data bag is a value tree, so a map shared by two parents is not modelled.
- Nil entries in the decoded variant list, and a nil data map: every variant is an object with a (possibly empty) data map.
- Templater.Renderer.Render and LegacyMain.Renderer.Render: require the variants to be distinct objects, which is what decoding a list produces.
- Templater.Variant.UpdateData: requires the variant's name to be present, which `Verify` has checked before `Render` runs.
- Format arguments of the log calls: `Logf` takes the message already formatted.
- Logf: the standard logger's date-and-time prefix, which depends on the clock; the model stops at the line handed to the logger.
