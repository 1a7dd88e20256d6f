/**
 * The compile pass of index.js: the shallow merge of the caller's
 * `swigConfig` over `DEFAULT_CONFIG`, and `buildTemplates`, which renders
 * every `.html` template in list order and writes the result to
 * `<writeLocation>/index.html` in an output tree standing for the file system.
 */
module SwigBuild {
  import opened JsString
  import opened NodePath
  import opened SwigTemplates

  /** A configuration value as the component reads it: a string or a list of strings. */
  datatype Value = Str(text: string) | List(items: seq<string>)

  type Config = map<string, Value>

  /** `DEFAULT_CONFIG`. */
  const DefaultConfig: Config := map["partials" := Str("templates/partials"), "dest" := Str("build")]

  /**
   * `_.extend({}, DEFAULT_CONFIG, swigConfig)`: every caller key replaces the
   * default of the same name, defaults the caller omits survive, and no
   * other key appears.
   */
  function Merge(swigConfig: Config): (config: Config)
    ensures config.Keys == DefaultConfig.Keys + swigConfig.Keys
    ensures forall k :: k in swigConfig ==> config[k] == swigConfig[k]
    ensures forall k :: k in DefaultConfig && k !in swigConfig ==> config[k] == DefaultConfig[k]
  {
    DefaultConfig + swigConfig
  }

  /** A component without `swigConfig` runs with the defaults alone. */
  lemma MergeEmpty()
    ensures Merge(map[]) == DefaultConfig
  {
  }

  /** Merging an already merged configuration changes nothing. */
  lemma MergeIdempotent(swigConfig: Config)
    ensures Merge(Merge(swigConfig)) == Merge(swigConfig)
  {
  }

  /** JavaScript truthiness of a configuration value: only the empty string is falsy. */
  predicate Truthy(v: Value)
  {
    match v
    case Str(text) => text != ""
    case List(_) => true
  }

  /** `Array.prototype.filter`: the elements `keep` accepts, in their order. */
  function Filter<T>(xs: seq<T>, keep: T -> bool): (kept: seq<T>)
    ensures |kept| <= |xs|
  {
    if xs == [] then []
    else (if keep(xs[0]) then [xs[0]] else []) + Filter(xs[1..], keep)
  }

  /** An element is kept exactly when it is in the list and `keep` accepts it. */
  lemma {:induction false} FilterMembers<T>(xs: seq<T>, keep: T -> bool, x: T)
    ensures x in Filter(xs, keep) <==> x in xs && keep(x)
    decreases |xs|
  {
    if xs != [] {
      FilterMembers(xs[1..], keep, x);
      assert xs == [xs[0]] + xs[1..];
    }
  }

  /** Filtering distributes over concatenation, so the list order is kept. */
  lemma {:induction false} FilterConcat<T>(a: seq<T>, b: seq<T>, keep: T -> bool)
    ensures Filter(a + b, keep) == Filter(a, keep) + Filter(b, keep)
    decreases |a|
  {
    if a != [] {
      assert (a + b)[1..] == a[1..] + b;
      FilterConcat(a[1..], b, keep);
    } else {
      assert a + b == b;
    }
  }

  /** A list whose every element `keep` accepts is kept whole. */
  lemma {:induction false} FilterKeepsAll<T>(xs: seq<T>, keep: T -> bool)
    requires forall k :: 0 <= k < |xs| ==> keep(xs[k])
    ensures Filter(xs, keep) == xs
    decreases |xs|
  {
    if xs != [] {
      FilterKeepsAll(xs[1..], keep);
      assert xs == [xs[0]] + xs[1..];
    }
  }

  /** A list none of whose elements `keep` accepts filters to nothing. */
  lemma {:induction false} FilterDropsAll<T>(xs: seq<T>, keep: T -> bool)
    requires forall k :: 0 <= k < |xs| ==> !keep(xs[k])
    ensures Filter(xs, keep) == []
    decreases |xs|
  {
    if xs != [] {
      FilterDropsAll(xs[1..], keep);
    }
  }

  /** `templates.filter(filterHtml)`. */
  function HtmlFiles(templates: seq<string>): seq<string>
  {
    Filter(templates, FilterHtml)
  }

  /** A template is rendered exactly when it is listed and `filterHtml` accepts it. */
  lemma HtmlFilesMembers(templates: seq<string>, x: string)
    ensures x in HtmlFiles(templates) <==> x in templates && FilterHtml(x)
  {
    FilterMembers(templates, FilterHtml, x);
  }

  /** The exceptions the pass raises on a malformed configuration (TypeError in the source). */
  datatype Error =
    | LocalsNotString     // `path.resolve(config.swigLocals)` on a truthy non-string, in `loadJson`
    | PartialsNotString   // `path.resolve(config.partials)` on a non-string
    | TemplatesNotArray   // `config.templates.filter` on a truthy non-array
    | DestNotString       // `path.resolve(config.dest)` on a non-string, at the first template

  /** How the pass ends: `next()` is called, or an exception propagates. */
  datatype Outcome = Completed | Threw(error: Error)

  /** `loadJson` is reached only for a truthy `swigLocals`, and resolves it as a path. */
  predicate LocalsResolvable(config: Config)
  {
    "swigLocals" in config && Truthy(config["swigLocals"]) ==> config["swigLocals"].Str?
  }

  /** The two resolutions made before the `templates` test both succeed. */
  predicate SetupSucceeds(config: Config)
    requires "partials" in config
  {
    LocalsResolvable(config) && config["partials"].Str?
  }

  /** How `buildTemplates` ends for a caller configuration. */
  function ExpectedOutcome(swigConfig: Config): Outcome
  {
    var config := Merge(swigConfig);
    if !LocalsResolvable(config) then Threw(LocalsNotString)
    else if !config["partials"].Str? then Threw(PartialsNotString)
    else if "templates" !in config || !Truthy(config["templates"]) then Completed
    else if config["templates"].Str? then Threw(TemplatesNotArray)
    else if HtmlFiles(config["templates"].items) != [] && !config["dest"].Str? then Threw(DestNotString)
    else Completed
  }

  /** The templates the pass renders and writes, in order; none unless it reaches the loop and completes. */
  function RenderedFiles(swigConfig: Config): seq<string>
  {
    var config := Merge(swigConfig);
    if ExpectedOutcome(swigConfig) == Completed && "templates" in config && config["templates"].List?
    then HtmlFiles(config["templates"].items)
    else []
  }

  /** `path.resolve(config.dest)` from the working directory `cwd`; `cwd` stands in when `dest` is not a string (then nothing is written). */
  function OutputRoot(swigConfig: Config, cwd: AbsPath): AbsPath
  {
    var dest := Merge(swigConfig)["dest"];
    if dest.Str? then Resolve(cwd, dest.text) else cwd
  }

  /** Where the pass writes the rendering of a template: `OutputFile(f, dest)`. */
  function Target(dest: AbsPath): string -> string
  {
    f => OutputFile(f, dest)
  }

  /** The output tree after writing `render(f)` to `target(f)` for each `f` in order. */
  function Written(tree: map<string, string>, files: seq<string>, target: string -> string, render: string -> string): map<string, string>
    decreases |files|
  {
    if files == [] then tree
    else
      var f := files[|files| - 1];
      Written(tree, files[..|files| - 1], target, render)[target(f) := render(f)]
  }

  /** The paths written, in write order. */
  function OutputFiles(files: seq<string>, target: string -> string): (paths: seq<string>)
  {
    seq(|files|, k requires 0 <= k < |files| => target(files[k]))
  }

  /** The directories made, one per template. */
  function WriteLocations(files: seq<string>, dest: AbsPath): set<string>
    decreases |files|
  {
    if files == [] then {}
    else WriteLocations(files[..|files| - 1], dest) + {GetWriteLocation(GetFileName(files[|files| - 1]), dest)}
  }

  /** One more template written: the tree gains its rendered file. */
  lemma WrittenStep(tree: map<string, string>, files: seq<string>, i: nat, target: string -> string, render: string -> string)
    requires i < |files|
    ensures Written(tree, files[..i + 1], target, render)
         == Written(tree, files[..i], target, render)[target(files[i]) := render(files[i])]
  {
    assert files[..i + 1][..i] == files[..i];
  }

  /** One more template written: its directory is made. */
  lemma WriteLocationsStep(files: seq<string>, i: nat, dest: AbsPath)
    requires i < |files|
    ensures WriteLocations(files[..i + 1], dest)
         == WriteLocations(files[..i], dest) + {GetWriteLocation(GetFileName(files[i]), dest)}
  {
    assert files[..i + 1][..i] == files[..i];
  }

  /** One more template written: its path ends the write log. */
  lemma OutputFilesStep(files: seq<string>, i: nat, target: string -> string)
    requires i < |files|
    ensures OutputFiles(files[..i + 1], target) == OutputFiles(files[..i], target) + [target(files[i])]
  {
    assert files[..i + 1][..i] == files[..i];
  }

  /** Every written path is a target of some template; every other path keeps its old content. */
  lemma {:induction false} WrittenAt(tree: map<string, string>, files: seq<string>, target: string -> string, render: string -> string, p: string)
    ensures var w := Written(tree, files, target, render);
      && (p in w <==> p in tree || p in OutputFiles(files, target))
      && (p in tree && p !in OutputFiles(files, target) ==> w[p] == tree[p])
    decreases |files|
  {
    if files != [] {
      var n := |files|;
      WrittenAt(tree, files[..n - 1], target, render, p);
      OutputFilesStep(files, n - 1, target);
      assert files[..n] == files;
    }
  }

  /** A target holds the rendering of the last template written to it: a later template overwrites an earlier one. */
  lemma {:induction false} WrittenLastWins(tree: map<string, string>, files: seq<string>, target: string -> string, render: string -> string, k: nat)
    requires k < |files|
    requires forall j :: k < j < |files| ==> target(files[j]) != target(files[k])
    ensures var w := Written(tree, files, target, render);
      target(files[k]) in w && w[target(files[k])] == render(files[k])
    decreases |files|
  {
    var n := |files|;
    var prefix := files[..n - 1];
    assert Written(tree, files, target, render)
        == Written(tree, prefix, target, render)[target(files[n - 1]) := render(files[n - 1])];
    if k < n - 1 {
      assert target(files[n - 1]) != target(files[k]);
      forall j | k < j < |prefix|
        ensures target(prefix[j]) != target(prefix[k])
      {
        assert prefix[j] == files[j] && prefix[k] == files[k];
      }
      WrittenLastWins(tree, prefix, target, render, k);
      assert prefix[k] == files[k];
    }
  }

  /** Writing depends on the old tree only where no template writes: the old tree overlaid with a fresh build. */
  lemma {:induction false} WrittenOverlay(tree: map<string, string>, files: seq<string>, target: string -> string, render: string -> string)
    ensures Written(tree, files, target, render) == tree + Written(map[], files, target, render)
    decreases |files|
  {
    if files == [] {
      assert tree + map[] == tree;
    } else {
      var n := |files|;
      var f := files[n - 1];
      WrittenOverlay(tree, files[..n - 1], target, render);
      var built := Written(map[], files[..n - 1], target, render);
      assert (tree + built)[target(f) := render(f)] == tree + built[target(f) := render(f)];
    }
  }

  /** Building twice over the same tree leaves what building once left. */
  lemma BuildIdempotent(tree: map<string, string>, files: seq<string>, target: string -> string, render: string -> string)
    ensures var once := Written(tree, files, target, render);
      Written(once, files, target, render) == once
  {
    var built := Written(map[], files, target, render);
    WrittenOverlay(tree, files, target, render);
    WrittenOverlay(tree + built, files, target, render);
    assert tree + built + built == tree + built;
  }

  /** Templates that differ only in their directories write the same file. */
  lemma OutputFileIgnoresDirectories(dir: string, file: string, dest: AbsPath)
    ensures OutputFile(dir + "/" + file, dest) == OutputFile(file, dest)
  {
    GetFileNameIgnoresDirectories(dir, file);
  }

  /** Two `index.html` templates in different directories collide on `<dest>/index.html`, and the later one wins. */
  lemma IndexTemplatesCollide(tree: map<string, string>, a: string, b: string, dest: AbsPath, render: string -> string)
    ensures var fa, fb := a + "/index.html", b + "/index.html";
      Written(tree, [fa, fb], Target(dest), render) == tree[dest + "/index.html" := render(fb)]
  {
    var fa, fb := a + "/index.html", b + "/index.html";
    assert Target(dest)(fa) == dest + "/index.html" by {
      IndexTemplateAtRoot(a, dest);
    }
    assert Target(dest)(fb) == dest + "/index.html" by {
      IndexTemplateAtRoot(b, dest);
    }
    WrittenSameTarget(tree, fa, fb, Target(dest), render);
  }

  /** Two writes to one path leave only the second. */
  lemma WrittenSameTarget(tree: map<string, string>, f: string, g: string, target: string -> string, render: string -> string)
    requires target(f) == target(g)
    ensures Written(tree, [f, g], target, render) == tree[target(g) := render(g)]
  {
    WrittenTwo(tree, f, g, target, render);
    assert tree[target(f) := render(f)][target(g) := render(g)] == tree[target(g) := render(g)];
  }

  /** `<dir>/index.html` is written to `<dest>/index.html`. */
  lemma IndexTemplateAtRoot(dir: string, dest: AbsPath)
    ensures OutputFile(dir + "/index.html", dest) == dest + "/index.html"
  {
    assert dir + "/index.html" == dir + "/" + "index" + ".html";
    GetFileNameOfHtml(dir, "index");
    ResolveEmpty(dest);
  }

  /** `<dir>/<stem>.html` with any other stem is written to `<dest>/<stem>/index.html`. */
  lemma PageTemplateInSubdirectory(dir: string, stem: string, dest: AbsPath)
    requires ValidSegment(stem) && '.' !in stem && stem != "index"
    ensures OutputFile(dir + "/" + stem + ".html", dest) == Child(dest, stem) + "/index.html"
  {
    GetFileNameOfHtml(dir, stem);
    ResolveChild(dest, stem);
  }

  /** A caller who omits `dest` gets `<cwd>/build`. */
  lemma DefaultDestination(swigConfig: Config, cwd: AbsPath)
    requires "dest" !in swigConfig
    ensures OutputRoot(swigConfig, cwd) == Child(cwd, "build")
  {
    ResolveChild(cwd, "build");
  }

  /** An absolute, normalised `dest` is used as it is, whatever the working directory. */
  lemma AbsoluteDestination(swigConfig: Config, cwd: AbsPath)
    requires "dest" in swigConfig && swigConfig["dest"].Str? && IsNormalAbsolute(swigConfig["dest"].text)
    ensures OutputRoot(swigConfig, cwd) == swigConfig["dest"].text
  {
    ResolveAbsolute(cwd, swigConfig["dest"].text);
  }

  /** A relative `dest` of valid segments, such as `dist/site`, is that directory below the working directory. */
  lemma RelativeDestination(swigConfig: Config, cwd: AbsPath, segs: seq<string>)
    requires |segs| >= 1 && AllValid(segs)
    requires "dest" in swigConfig && swigConfig["dest"] == Str(Join(segs, '/'))
    ensures AllValid(Segments(cwd) + segs)
    ensures OutputRoot(swigConfig, cwd) == FromSegments(Segments(cwd) + segs)
  {
    ResolveRelative(cwd, segs);
  }

  /** Without `templates` the pass writes nothing; it still fails on an unresolvable `swigLocals` or `partials`. */
  lemma NoTemplatesNothingWritten(swigConfig: Config)
    requires "templates" !in swigConfig
    ensures RenderedFiles(swigConfig) == []
    ensures ExpectedOutcome(swigConfig) == Completed <==> SetupSucceeds(Merge(swigConfig))
  {
  }

  /** `dest` is resolved only inside the loop: a template list without `.html` entries completes whatever `dest` holds. */
  lemma DestUncheckedWithoutHtml(swigConfig: Config)
    requires "templates" in swigConfig && swigConfig["templates"].List?
    requires forall k :: 0 <= k < |swigConfig["templates"].items| ==> !FilterHtml(swigConfig["templates"].items[k])
    ensures ExpectedOutcome(swigConfig) == Completed <==> SetupSucceeds(Merge(swigConfig))
    ensures RenderedFiles(swigConfig) == []
  {
    FilterDropsAll(swigConfig["templates"].items, FilterHtml);
  }

  /** A template is rendered exactly when the pass completes, `templates` is a list holding it, and `filterHtml` accepts it. */
  lemma RenderedFilesMembers(swigConfig: Config, x: string)
    ensures x in RenderedFiles(swigConfig) <==>
      && ExpectedOutcome(swigConfig) == Completed
      && "templates" in swigConfig && swigConfig["templates"].List?
      && x in swigConfig["templates"].items && FilterHtml(x)
  {
    var config := Merge(swigConfig);
    if "templates" in config && config["templates"].List? {
      HtmlFilesMembers(config["templates"].items, x);
    }
  }

  /**
   * The default layout: with only `templates` given, `<dir>/index.html` goes
   * to `<cwd>/build/index.html` and `<dir>/<stem>.html` to
   * `<cwd>/build/<stem>/index.html`.
   */
  lemma DefaultLayout(dir: string, stem: string, cwd: AbsPath, render: string -> string)
    requires ValidSegment(stem) && '.' !in stem && stem != "index"
    ensures var index, page := dir + "/index.html", dir + "/" + stem + ".html";
      var swigConfig := map["templates" := List([index, page])];
      var root := OutputRoot(swigConfig, cwd);
      && ExpectedOutcome(swigConfig) == Completed
      && root == Child(cwd, "build")
      && Written(map[], RenderedFiles(swigConfig), Target(root), render)
           == map[root + "/index.html" := render(index), Child(root, stem) + "/index.html" := render(page)]
  {
    var index, page := dir + "/index.html", dir + "/" + stem + ".html";
    assert HtmlFiles([index, page]) == [index, page] by {
      DefaultLayoutAccepts(dir, stem);
      FilterKeepsPair(index, page, FilterHtml);
    }
    TemplatesOnlyConfig([index, page], cwd);
    DefaultLayoutWrites(dir, stem, OutputRoot(map["templates" := List([index, page])], cwd), render);
  }

  /** Both templates of `DefaultLayout` pass `filterHtml`. */
  lemma DefaultLayoutAccepts(dir: string, stem: string)
    requires ValidSegment(stem)
    ensures FilterHtml(dir + "/index.html") && FilterHtml(dir + "/" + stem + ".html")
  {
    assert dir + "/index.html" == dir + "/" + "index" + ".html";
    FilterHtmlAccepts(dir, "index");
    FilterHtmlAccepts(dir, stem);
  }

  /** A two-element list whose elements `keep` accepts is kept whole. */
  lemma FilterKeepsPair<T>(f: T, g: T, keep: T -> bool)
    requires keep(f) && keep(g)
    ensures Filter([f, g], keep) == [f, g]
  {
    assert [f, g][1..] == [g];
    assert [g][1..] == [];
  }

  /** The writing half of `DefaultLayout`, for any output root. */
  lemma DefaultLayoutWrites(dir: string, stem: string, root: AbsPath, render: string -> string)
    requires ValidSegment(stem) && '.' !in stem && stem != "index"
    ensures var index, page := dir + "/index.html", dir + "/" + stem + ".html";
      Written(map[], [index, page], Target(root), render)
        == map[root + "/index.html" := render(index), Child(root, stem) + "/index.html" := render(page)]
  {
    var index, page := dir + "/index.html", dir + "/" + stem + ".html";
    var target := Target(root);
    IndexTemplateAtRoot(dir, root);
    PageTemplateInSubdirectory(dir, stem, root);
    assert target(index) == root + "/index.html";
    assert target(page) == Child(root, stem) + "/index.html";
    WrittenTwo(map[], index, page, target, render);
  }

  /** With only a list of `.html` templates given, every one is rendered, in order, into `<cwd>/build`. */
  lemma TemplatesOnly(templates: seq<string>, cwd: AbsPath)
    requires forall k :: 0 <= k < |templates| ==> FilterHtml(templates[k])
    ensures var swigConfig := map["templates" := List(templates)];
      && ExpectedOutcome(swigConfig) == Completed
      && RenderedFiles(swigConfig) == templates
      && OutputRoot(swigConfig, cwd) == Child(cwd, "build")
  {
    FilterKeepsAll(templates, FilterHtml);
    TemplatesOnlyConfig(templates, cwd);
  }

  /** `TemplatesOnly` for a list already known to pass the filter whole. */
  lemma TemplatesOnlyConfig(templates: seq<string>, cwd: AbsPath)
    requires HtmlFiles(templates) == templates
    ensures var swigConfig := map["templates" := List(templates)];
      && ExpectedOutcome(swigConfig) == Completed
      && RenderedFiles(swigConfig) == templates
      && OutputRoot(swigConfig, cwd) == Child(cwd, "build")
  {
    var swigConfig := map["templates" := List(templates)];
    var config := Merge(swigConfig);
    assert "swigLocals" !in config;
    assert config["partials"] == Str("templates/partials");
    assert config["dest"] == Str("build");
    assert config["templates"] == List(templates);
    DefaultDestination(swigConfig, cwd);
  }

  /** Two writes in order. */
  lemma WrittenTwo(tree: map<string, string>, f: string, g: string, target: string -> string, render: string -> string)
    ensures Written(tree, [f, g], target, render) == tree[target(f) := render(f)][target(g) := render(g)]
  {
    var files := [f, g];
    WrittenStep(tree, files, 0, target, render);
    WrittenStep(tree, files, 1, target, render);
    assert files[..0] == [] && files[..2] == files;
  }

  /** One iteration of the loop in `BuildTemplates`, stated on the three views of the output tree. */
  lemma LoopStep(tree: map<string, string>, dirs: set<string>, writes: seq<string>, files: seq<string>, i: nat, root: AbsPath, render: string -> string)
    requires i < |files|
    ensures var location := GetWriteLocation(GetFileName(files[i]), root);
      && Written(tree, files[..i], Target(root), render)[location + "/index.html" := render(files[i])]
         == Written(tree, files[..i + 1], Target(root), render)
      && dirs + WriteLocations(files[..i], root) + {location} == dirs + WriteLocations(files[..i + 1], root)
      && writes + OutputFiles(files[..i], Target(root)) + [location + "/index.html"]
         == writes + OutputFiles(files[..i + 1], Target(root))
  {
    var location := GetWriteLocation(GetFileName(files[i]), root);
    assert location + "/index.html" == Target(root)(files[i]);
    WrittenStep(tree, files, i, Target(root), render);
    WriteLocationsStep(files, i, root);
    OutputFilesStep(files, i, Target(root));
    assert dirs + WriteLocations(files[..i], root) + {location} == dirs + (WriteLocations(files[..i], root) + {location});
    assert writes + OutputFiles(files[..i], Target(root)) + [location + "/index.html"]
      == writes + (OutputFiles(files[..i], Target(root)) + [location + "/index.html"]);
  }

  /**
   * The part of the file system the pass touches: file contents by path,
   * the directories made, and (ghost) the sequence of paths written.
   */
  class OutputTree {
    var files: map<string, string>
    var dirs: set<string>
    ghost var writes: seq<string>

    /** `mkdir.sync(path)`: make the directory; idempotent. */
    method MakeDirs(path: string)
      modifies this
      ensures dirs == old(dirs) + {path}
      ensures files == old(files) && writes == old(writes)
    {
      dirs := dirs + {path};
    }

    /** `fs.writeFileSync(path, content)`: create or overwrite one file. */
    method WriteFile(path: string, content: string)
      modifies this
      ensures files == old(files)[path := content]
      ensures dirs == old(dirs) && writes == old(writes) + [path]
    {
      files := files[path := content];
      writes := writes + [path];
    }
  }

  /**
   * `buildTemplates(pkg, next)`. `cwd` is the process's working directory
   * and `render(f)` the text swig renders from template `f`.
   */
  method BuildTemplates(out: OutputTree, swigConfig: Config, cwd: AbsPath, render: string -> string)
    returns (outcome: Outcome)
    modifies out
    ensures outcome == ExpectedOutcome(swigConfig)
    ensures var files, dest := RenderedFiles(swigConfig), OutputRoot(swigConfig, cwd);
      && out.files == Written(old(out.files), files, Target(dest), render)
      && out.dirs == old(out.dirs) + WriteLocations(files, dest)
      && out.writes == old(out.writes) + OutputFiles(files, Target(dest))
  {
    var config := Merge(swigConfig);
    if "swigLocals" in config && Truthy(config["swigLocals"]) && !config["swigLocals"].Str? {
      return Threw(LocalsNotString);
    }
    if !config["partials"].Str? {
      return Threw(PartialsNotString);
    }
    if "templates" !in config || !Truthy(config["templates"]) {
      return Completed;
    }
    if config["templates"].Str? {
      return Threw(TemplatesNotArray);
    }
    var files := HtmlFiles(config["templates"].items);
    outcome := CompileEach(out, files, config["dest"], cwd, render);
    assert (if config["dest"].Str? then files else []) == RenderedFiles(swigConfig);
  }

  /**
   * The `files.forEach` loop of `buildTemplates`: for each template, resolve
   * `dest` (failing at the first template when it is not a string), make the
   * write location and write the rendering to its `index.html`.
   */
  method CompileEach(out: OutputTree, files: seq<string>, dest: Value, cwd: AbsPath, render: string -> string)
    returns (outcome: Outcome)
    modifies out
    ensures outcome == if files != [] && !dest.Str? then Threw(DestNotString) else Completed
    ensures var written, root := if dest.Str? then files else [], if dest.Str? then Resolve(cwd, dest.text) else cwd;
      && out.files == Written(old(out.files), written, Target(root), render)
      && out.dirs == old(out.dirs) + WriteLocations(written, root)
      && out.writes == old(out.writes) + OutputFiles(written, Target(root))
  {
    ghost var root := if dest.Str? then Resolve(cwd, dest.text) else cwd;
    var i := 0;
    assert files[..i] == [];
    while i < |files|
      invariant 0 <= i <= |files|
      invariant i > 0 ==> dest.Str?
      invariant out.files == Written(old(out.files), files[..i], Target(root), render)
      invariant out.dirs == old(out.dirs) + WriteLocations(files[..i], root)
      invariant out.writes == old(out.writes) + OutputFiles(files[..i], Target(root))
    {
      var file := files[i];
      var fileInfo := GetFileName(file);
      if !dest.Str? {
        return Threw(DestNotString);
      }
      var destPath := Resolve(cwd, dest.text);
      var writeLocation := GetWriteLocation(fileInfo, destPath);
      out.MakeDirs(writeLocation);
      out.WriteFile(writeLocation + "/index.html", render(file));
      LoopStep(old(out.files), old(out.dirs), old(out.writes), files, i, root, render);
      i := i + 1;
    }
    assert files[..i] == files;
    return Completed;
  }
}
