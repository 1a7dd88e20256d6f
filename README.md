# component-swig in Dafny

`component-swig` is a plugin for the `component` builder. It compiles swig
HTML templates into a "pretty URL" layout: every `.html` template listed
in the component's `swigConfig.templates` is rendered and written to
`<dest>/<name>/index.html`. A template named `index` is written to
`<dest>/index.html` instead, and so is one whose name is empty because its
last segment starts with `.` (such as `.foo.html`). `dest` defaults to `build`, resolved against
the working directory.

This project models the compile pass in `index.js` and proves its
behaviour:

- `JsString` (`js_string.dfy`) holds the JavaScript string built-ins the
  code relies on: `indexOf`, `lastIndexOf`, `split` and `join`, for a
  one-character argument. `split` is proved to be undone by `join`, and
  `join` by `split`. `split` is also proved to distribute over a separator.
- `NodePath` (`node_path.dfy`) holds Node's POSIX `path.extname` and
  `path.resolve`. A resolved path is a subtype, `AbsPath`: `/` followed by
  segments that are not empty, `.` or `..` and contain no `/`. The working
  directory that `path.resolve` reads from the process is a parameter.
- `SwigTemplates` (`templates.dfy`) holds `filterHtml`, `getFileName` and
  `getWriteLocation`. The lemmas characterise each one completely.
- `SwigBuild` (`build.dfy`) holds the `_.extend` merge of the caller's
  `swigConfig` over `DEFAULT_CONFIG`. It also holds `buildTemplates`, as an
  imperative method over an `OutputTree` object that stands for the file
  system. The method is proved against specification functions:
  - `ExpectedOutcome` gives how the pass ends: it completes, or throws one
    of four TypeErrors;
  - `RenderedFiles` gives which templates are written, in order;
  - `Written` gives the resulting file map.

  The lemmas state the layout, the overwrite order, collisions, idempotence
  and where errors arise.

The doc comment at `index.js:100` says that `getFileName` returns the
extension as `'.html'`. The code returns the text between the first and the
second dot, which is `'html'` for `stuff.html`. The model follows the code (`SwigTemplates.GetFileNameOfHtml`).

## Model

| member | source | states |
|---|---|---|
| JsString.IndexOf | index.js:103-104 | `indexOf` finds the first occurrence: None exactly when the character is absent, otherwise an index holding it with no earlier occurrence |
| JsString.IndexOfIs | index.js:103-104 | an index holding `c` with no earlier `c` is the one `indexOf` returns |
| JsString.LastIndexOf | index.js:92 | `lastIndexOf` finds the last occurrence: None exactly when absent, otherwise an index holding it with no later occurrence |
| JsString.LastIndexOfIs | index.js:92 | an index holding `c` with no later `c` is the one `lastIndexOf` returns |
| JsString.Split | index.js:103-104 | `split` always yields at least one piece |
| JsString.SplitPiecesFree | index.js:103-104 | no piece of `s.split(c)` contains `c` |
| JsString.JoinSplit | index.js:103-104 | joining the pieces of `s.split(c)` with `c` gives `s` back |
| JsString.SplitJoin | index.js:103-104 | splitting a join of at least one `c`-free piece gives the pieces back |
| JsString.SplitNone | index.js:103-104 | a string without `c` splits into itself alone |
| JsString.SplitAtFirst | index.js:103-104 | `split` cuts at the first `c` and splits the rest |
| JsString.SplitConcat | index.js:103 | `(a + c + b).split(c)` is `a.split(c)` followed by `b.split(c)` |
| JsString.SplitPiecesWithin | index.js:104 | a character absent from `s` is absent from every piece of `s.split(c)` |
| JsString.SplitLast | index.js:103-104 | the last piece is a suffix of `s` that is either all of `s` or preceded by `c` |
| JsString.JoinAppend | index.js:103-104 | joining one more piece appends the separator and that piece |
| NodePath.StripTrailingSlashes | index.js:92 | the result is a prefix of the path that does not end in `/` |
| NodePath.StripTrailingSlashesRemovesSlashes | index.js:92 | everything removed is `/` |
| NodePath.BaseName | index.js:92 | the base name has no `/` and is the suffix of the stripped path after its last `/` |
| NodePath.Extension | index.js:92 | the extension is empty, or a proper suffix of the base name that starts at its last `.` and holds no other `.`; it is non-empty exactly when a `.` follows the first character and the name is not `..`, so `a.b` gives `.b` and a dotfile such as `.html` gives nothing |
| NodePath.ExtName | index.js:92 | `path.extname` is the extension of the base name; FilterHtmlIff and FilterHtmlExamples state what it decides for the filter |
| NodePath.Segments | index.js:52 | the segments of a resolved path are all valid |
| NodePath.Normalize | index.js:52 | walking `.`, `..` and empty segments from valid segments leaves only valid segments |
| NodePath.NormalizeValid | index.js:123 | walking valid segments only appends them |
| NodePath.FromSegmentsOfSegments | index.js:121 | a resolved path rebuilt from its segments is itself |
| NodePath.FromSegmentsAppend | index.js:123 | one more valid segment names the child path |
| NodePath.Resolve | index.js:121-123 | `path.resolve` yields a normalised absolute path; ResolveEmpty and ResolveChild state its result for the calls at index.js:121 and 123, and ResolveRelative and ResolveAbsolute for a `dest` (index.js:52) that is relative and made of valid segments, or absolute and normalised |
| NodePath.ResolveEmpty | index.js:121 | `path.resolve(buildPath)` of an already resolved path is that path |
| NodePath.ResolveChild | index.js:123 | `path.resolve(buildPath, name)` for a valid segment is `buildPath/name`, or `/name` below the root |
| NodePath.ResolveRelative | index.js:52 | a relative path of valid segments, such as `dist/site`, resolves to those segments below the base |
| NodePath.ResolveAbsolute | index.js:52 | an absolute, normalised `dest` resolves to itself whatever the working directory |
| SwigTemplates.FilterHtml | index.js:91-93 | `filterHtml` accepts a path exactly when its extension is `.html`; FilterHtmlIff states this against an independent suffix test |
| SwigTemplates.FilterHtmlIff | index.js:91-93 | `filterHtml` holds exactly when the path, without trailing slashes, ends in `.html` preceded by a character other than `/` |
| SwigTemplates.ExtensionHtml | index.js:92 | a base name has extension `.html` exactly when it is longer than 5 and ends in `.html` |
| SwigTemplates.SuffixHtml | index.js:92 | ending in `.html` is decided equally on the base name and on the stripped path |
| SwigTemplates.FilterHtmlAccepts | index.js:91-93 | every `<dir>/<stem>.html` with a non-empty, slash-free stem is compiled |
| SwigTemplates.FilterHtmlIgnoresTrailingSlash | index.js:92 | a trailing `/` does not change the verdict |
| SwigTemplates.FilterHtmlExamples | index.js:91-93 | `about.htm`, `about.HTML`, `templates/about` and the dotfile `templates/.html` are skipped; `templates/.foo.html` is compiled |
| SwigTemplates.LastSegment | index.js:103 | the last segment holds no `/` |
| SwigTemplates.LastSegmentSuffix | index.js:103 | the last segment is a suffix of the path, either all of it or preceded by `/` |
| SwigTemplates.GetFileName | index.js:102-109 | the name holds no `/` or `.`, and is the part of the last segment before its first `.`; the extension is absent exactly when the segment has no `.` |
| SwigTemplates.GetFileNameExtension | index.js:104-107 | a present extension is the dot-free text after the name's `.`, ending at the next `.` or at the end of the segment |
| SwigTemplates.GetFileNameIgnoresDirectories | index.js:103-104 | directories in front of a file do not change its name or extension |
| SwigTemplates.LastSegmentIgnoresDirectories | index.js:103 | directories in front of a file do not change its last segment |
| SwigTemplates.GetFileNameOfHtml | index.js:102-109 | `<dir>/<stem>.html` gives name `stem` and extension `html` (not `.html`) |
| SwigTemplates.GetFileNameOfHtmlSegment | index.js:104-107 | `<stem>.html` gives name `stem` and extension `html` |
| SwigTemplates.GetFileNameOfTwoDots | index.js:104-107 | `stem.middle.last` gives name `stem` and extension `middle`: only the first two pieces count |
| SwigTemplates.SplitTwoDots | index.js:104 | `stem.middle.last` splits at its first two dots |
| SwigTemplates.SplitAfterFirst | index.js:104 | a dot-free stem followed by `.` is the first piece |
| SwigTemplates.GetFileNameWithoutDot | index.js:107 | a file without a dot has no extension (`undefined`) |
| SwigTemplates.GetWriteLocation | index.js:119-125 | `getWriteLocation`; WriteLocationLayout states its result: the destination for `index` and for the empty name (a file whose last segment starts with `.`, such as `.foo.html`), its child directory for any other name |
| SwigTemplates.WriteLocationLayout | index.js:119-125 | the write location is `buildPath` for the names `index` and empty, and `buildPath/name` otherwise |
| SwigTemplates.OutputFile | index.js:54-64 | the file written for one template, `writeLocation + '/index.html'`; OutputFileLayout states where that is |
| SwigTemplates.OutputFileLayout | index.js:54-64 | each template is written to `<dest>/index.html` or `<dest>/<name>/index.html` |
| SwigBuild.DefaultConfig | index.js:21-24 | `DEFAULT_CONFIG`: `partials` is `templates/partials` and `dest` is `build`; MergeEmpty and DefaultDestination use it |
| SwigBuild.Merge | index.js:33 | `_.extend({}, DEFAULT_CONFIG, swigConfig)`: caller keys win, omitted defaults survive, and no other key appears |
| SwigBuild.MergeEmpty | index.js:21-24 | with no `swigConfig` the configuration is `DEFAULT_CONFIG` |
| SwigBuild.MergeIdempotent | index.js:33 | merging a merged configuration again changes nothing |
| SwigBuild.Truthy | index.js:34-41 | JavaScript truthiness of a configuration value: the empty string is falsy, any array truthy; ExpectedOutcome and NoTemplatesNothingWritten use it for `swigLocals` and `templates` |
| SwigBuild.Filter | index.js:46 | `Array.prototype.filter` never lengthens the array |
| SwigBuild.FilterMembers | index.js:46 | an element is kept exactly when it is in the array and the callback accepts it |
| SwigBuild.FilterConcat | index.js:46 | filtering keeps the array's order: it distributes over concatenation |
| SwigBuild.FilterKeepsAll | index.js:46 | an array the callback accepts throughout is kept whole |
| SwigBuild.FilterDropsAll | index.js:46 | an array the callback rejects throughout filters to nothing |
| SwigBuild.HtmlFiles | index.js:46 | `config.templates.filter(filterHtml)`; HtmlFilesMembers states which templates it keeps, and FilterConcat that it keeps their order |
| SwigBuild.HtmlFilesMembers | index.js:46 | a template is compiled exactly when it is listed and `filterHtml` accepts it |
| SwigBuild.ExpectedOutcome | index.js:29-68 | how the pass ends, in the order the source throws: `swigLocals`, `partials`, `templates.filter`, then `dest` inside the loop; BuildTemplates is proved to end this way, and NoTemplatesNothingWritten and DestUncheckedWithoutHtml state its cases |
| SwigBuild.RenderedFiles | index.js:41-47 | the templates the pass writes, in order; RenderedFilesMembers states which they are |
| SwigBuild.OutputRoot | index.js:52 | `path.resolve(config.dest)`; DefaultDestination, RelativeDestination and AbsoluteDestination state its value |
| SwigBuild.WrittenAt | index.js:47-66 | after the pass a path exists exactly when it existed or is some template's target; every other path keeps its old content |
| SwigBuild.WrittenLastWins | index.js:47-66 | a target holds the rendering of the last template written to it |
| SwigBuild.WrittenOverlay | index.js:64 | the tree after the pass is the old tree overlaid with a build into an empty tree |
| SwigBuild.BuildIdempotent | index.js:47-66 | running the pass again with the same rendering over its own output changes nothing |
| SwigBuild.WrittenTwo | index.js:47-66 | two templates are written in list order |
| SwigBuild.WrittenSameTarget | index.js:64 | of two writes to one path only the second remains |
| SwigBuild.OutputFileIgnoresDirectories | index.js:50-64 | templates that differ only in their directories write the same file |
| SwigBuild.IndexTemplatesCollide | index.js:119-121 | `a/index.html` and `b/index.html` both go to `<dest>/index.html`, and the later one wins |
| SwigBuild.IndexTemplateAtRoot | index.js:120-121 | `<dir>/index.html` is written to `<dest>/index.html` |
| SwigBuild.PageTemplateInSubdirectory | index.js:122-123 | `<dir>/<stem>.html` is written to `<dest>/<stem>/index.html` |
| SwigBuild.DefaultDestination | index.js:21-24 | without `dest` the output root is `<cwd>/build` |
| SwigBuild.RelativeDestination | index.js:52 | a relative `dest` of valid segments, such as `dist/site`, is that directory below the working directory |
| SwigBuild.AbsoluteDestination | index.js:52 | an absolute, normalised `dest` is the output root whatever the working directory |
| SwigBuild.NoTemplatesNothingWritten | index.js:41-44 | without `templates` nothing is written, and the pass completes exactly when `swigLocals` and `partials` resolve |
| SwigBuild.DestUncheckedWithoutHtml | index.js:46-52 | `dest` is resolved only inside the loop: a list without `.html` entries completes whatever `dest` holds |
| SwigBuild.RenderedFilesMembers | index.js:41-47 | a template is written exactly when the pass completes, `templates` is a list holding it, and `filterHtml` accepts it |
| SwigBuild.TemplatesOnly | index.js:21-47 | with only a list of `.html` templates given, all are written, in order, into `<cwd>/build` |
| SwigBuild.TemplatesOnlyConfig | index.js:33-47 | the same, for a list known to pass the filter whole |
| SwigBuild.DefaultLayout | index.js:10-14 | with the defaults, `<dir>/index.html` lands in `<cwd>/build/index.html` and `<dir>/<stem>.html` in `<cwd>/build/<stem>/index.html` |
| SwigBuild.DefaultLayoutAccepts | index.js:91-93 | both templates of the default layout pass `filterHtml` |
| SwigBuild.DefaultLayoutWrites | index.js:119-125 | the two writes of the default layout, for any output root |
| SwigBuild.LoopStep | index.js:54-64 | one iteration updates the files, the directories and the write log by one step each of `Written`, `WriteLocations` and `OutputFiles` |
| SwigBuild.OutputTree.MakeDirs | index.js:55 | `mkdir.sync` adds the directory and changes nothing else |
| SwigBuild.OutputTree.WriteFile | index.js:64 | `fs.writeFileSync` creates or overwrites one file, and logs the write |
| SwigBuild.CompileEach | index.js:47-66 | the loop throws at the first template when `dest` is not a string and writes nothing; otherwise it writes every template in order |
| SwigBuild.BuildTemplates | index.js:29-68 | the pass ends as `ExpectedOutcome` says, and leaves the files, directories and write log that `Written`, `WriteLocations` and `OutputFiles` give for `RenderedFiles` under `OutputRoot` |

## Left out

- Plugin registration is not modelled (`module.exports`, `builder.hook('before scripts', …)`, `console.log`, index.js:15-18). It is wiring into the host builder.
- Debug output and log calls are not modelled (index.js:31, 42, 48, 59, 65). They have no effect on the result.
- `loadJson` (index.js:34, 81-86) is modelled only up to the TypeError that `path.resolve` raises on a truthy non-string `swigLocals`. The existence test, the file read and `JSON.parse` are file I/O. The loaded value is never used, because index.js:62 passes `locals: {}`.
- `swig.setDefaults` and the partials loader (index.js:37-39) are not modelled beyond the TypeError for a non-string `partials`. Swig is a third-party template engine.
- `pkg.path`, `fs.readFileSync` and `swig.render` (index.js:57-63) become one parameter, `render`, from template path to output text. Exceptions raised by reading or rendering are not modelled.
- Failures of `mkdir.sync` and `fs.writeFileSync` (permissions, full disk, a file where a directory is needed) are not modelled. The output tree accepts every write.
- SwigBuild.WrittenAt: the output tree keys files by the path string, while the file system keys them by the file. When `dest` resolves to `/`, index.js:64 writes `//index.html`, which is the file `/index.html`, but the model keeps it under a key of its own, so the model does not capture that such a write overwrites an existing `/index.html`. This holds for every lemma about `Written`.
- SwigBuild.OutputTree.MakeDirs: records only the leaf directory, not the ancestors `mkdirp` also creates.
- Configuration values are modelled as strings and lists of strings only. Numbers, objects, `null`, explicit `undefined` and arrays with non-string elements are out of scope.
- `next` is not modelled as a callback. Completing is `Completed`, and a thrown TypeError is `Threw`.
- NodePath.Resolve: the base is always an absolute, normalised path (the working directory or an earlier result), so relative bases are not modelled. Windows path rules are not modelled either.
