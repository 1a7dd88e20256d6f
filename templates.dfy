/**
 * The pure path logic of the component (index.js): which templates are
 * compiled (`filterHtml`), how a template path is parsed (`getFileName`)
 * and which directory its page is written to (`getWriteLocation`).
 */
module SwigTemplates {
  import opened Wrappers
  import opened JsString
  import opened NodePath

  /**
   * What `getFileName` returns: `name` is the text of the last path segment
   * before its first `.`; `extension` is the text between its first and
   * second `.`, and is `undefined` (None) when the segment has no `.`.
   */
  datatype FileInfo = FileInfo(name: string, extension: Option<string>)

  /**
   * `filterHtml`: true when Node's `path.extname` of the path is exactly
   * `.html`; otherwise the source falls off the end and returns `undefined`,
   * which `Array.prototype.filter` reads as false.
   */
  predicate FilterHtml(filename: string)
  {
    ExtName(filename) == ".html"
  }

  /** The last element of `filePath.split('/')`. */
  function LastSegment(filePath: string): (seg: string)
    ensures '/' !in seg
  {
    SplitPiecesFree(filePath, '/');
    Last(Split(filePath, '/'))
  }

  /**
   * `getFileName`: the name is a prefix of the last segment that stops at
   * its first `.` (or at its end), and holds neither `/` nor `.`; there is
   * an extension exactly when the segment holds a `.`.
   */
  function GetFileName(filePath: string): (info: FileInfo)
    ensures '/' !in info.name && '.' !in info.name
    ensures var seg := LastSegment(filePath);
      info.name <= seg && (info.name == seg || seg[|info.name|] == '.')
    ensures info.extension.None? <==> '.' !in LastSegment(filePath)
  {
    var seg := LastSegment(filePath);
    var name := Split(seg, '.');
    SplitPiecesFree(seg, '.');
    SplitPiecesWithin(seg, '.', '/');
    FileInfo(name[0], if |name| > 1 then Some(name[1]) else None)
  }

  /**
   * `getWriteLocation`: `path.resolve(buildPath)` for the name `index`,
   * `path.resolve(buildPath, name)` for any other. Node skips an empty
   * argument, so the first is `Resolve(buildPath, "")`.
   */
  function GetWriteLocation(fileInfo: FileInfo, buildPath: AbsPath): AbsPath
  {
    if fileInfo.name == "index" then Resolve(buildPath, "")
    else Resolve(buildPath, fileInfo.name)
  }

  /** The file `buildTemplates` writes for one template: `writeLocation + '/index.html'`. */
  function OutputFile(file: string, dest: AbsPath): string
  {
    GetWriteLocation(GetFileName(file), dest) + "/index.html"
  }

  /** The reference for `filterHtml`: the path, trailing slashes aside, ends in `.html` with something other than `/` before it. */
  predicate EndsWithHtml(q: string)
  {
    |q| > 5 && q[|q| - 5..] == ".html" && q[|q| - 6] != '/'
  }

  /** A base name has extension `.html` exactly when it is longer than `.html` and ends with it. */
  lemma ExtensionHtml(b: string)
    ensures Extension(b) == ".html" <==> |b| > 5 && b[|b| - 5..] == ".html"
  {
    if |b| > 5 && b[|b| - 5..] == ".html" {
      assert b[|b| - 5] == '.';
      forall j | |b| - 5 < j < |b| ensures b[j] != '.' {
        assert b[j] == b[|b| - 5..][j - (|b| - 5)];
      }
      LastIndexOfIs(b, '.', |b| - 5);
    }
  }

  /** A `/`-free suffix `b` of `q` that starts `q` or follows a `/` ends in `.html` exactly when `q` passes `EndsWithHtml`. */
  lemma SuffixHtml(q: string, b: string)
    requires '/' !in b && |b| <= |q| && b == q[|q| - |b|..]
    requires |b| == |q| || q[|q| - |b| - 1] == '/'
    ensures (|b| > 5 && b[|b| - 5..] == ".html") <==> EndsWithHtml(q)
  {
    if |b| > 5 && b[|b| - 5..] == ".html" {
      assert q[|q| - 5..] == b[|b| - 5..];
      assert q[|q| - 6] == b[|b| - 6];
    }
    if EndsWithHtml(q) {
      assert b[|b| - 5..] == q[|q| - 5..];
    }
  }

  /**
   * `filterHtml` accepts a path exactly when, trailing slashes aside, it
   * ends in `.html` after at least one character of its last segment.
   */
  lemma FilterHtmlIff(p: string)
    ensures FilterHtml(p) <==> EndsWithHtml(StripTrailingSlashes(p))
  {
    ExtensionHtml(BaseName(p));
    SuffixHtml(StripTrailingSlashes(p), BaseName(p));
  }

  /** The last segment is the longest suffix of the path without `/`. */
  lemma LastSegmentSuffix(filePath: string)
    ensures var seg := LastSegment(filePath);
      && |seg| <= |filePath| && seg == filePath[|filePath| - |seg|..]
      && (|seg| == |filePath| || filePath[|filePath| - |seg| - 1] == '/')
  {
    SplitLast(filePath, '/');
  }

  /** Leading directories never change what `getFileName` returns. */
  lemma GetFileNameIgnoresDirectories(dir: string, filePath: string)
    ensures GetFileName(dir + "/" + filePath) == GetFileName(filePath)
  {
    LastSegmentIgnoresDirectories(dir, filePath);
  }

  /** Leading directories do not change the last segment. */
  lemma LastSegmentIgnoresDirectories(dir: string, filePath: string)
    ensures LastSegment(dir + "/" + filePath) == LastSegment(filePath)
  {
    assert dir + "/" + filePath == dir + ['/'] + filePath;
    SplitConcat(dir, filePath, '/');
    LastOfConcat(Split(dir, '/'), Split(filePath, '/'));
  }

  /** The last element of a concatenation comes from its non-empty right part. */
  lemma LastOfConcat(xs: seq<string>, ys: seq<string>)
    requires |ys| >= 1
    ensures Last(xs + ys) == Last(ys)
  {
  }

  /**
   * The extension is the text after the name's `.`, up to the next `.` or
   * the end of the segment, without a leading dot.
   */
  lemma GetFileNameExtension(filePath: string)
    ensures var seg, info := LastSegment(filePath), GetFileName(filePath);
      var n := |info.name|;
      info.extension.Some? ==>
        var e := info.extension.value;
        && n + 1 + |e| <= |seg| && seg[n] == '.' && e == seg[n + 1..n + 1 + |e|]
        && '.' !in e && (n + 1 + |e| == |seg| || seg[n + 1 + |e|] == '.')
  {
    var seg := LastSegment(filePath);
    match IndexOf(seg, '.')
    case None =>
    case Some(i) =>
      var rest := seg[i + 1..];
      assert Split(seg, '.') == [seg[..i]] + Split(rest, '.');
      SplitPiecesFree(rest, '.');
      match IndexOf(rest, '.')
      case None =>
        assert Split(rest, '.') == [rest];
      case Some(j) =>
        assert Split(rest, '.')[0] == rest[..j];
  }

  /** The name `index` and the empty name write into the destination itself; any other name into a directory of its own. */
  lemma WriteLocationLayout(fileInfo: FileInfo, buildPath: AbsPath)
    requires '/' !in fileInfo.name && '.' !in fileInfo.name
    ensures GetWriteLocation(fileInfo, buildPath)
      == if fileInfo.name in {"index", ""} then buildPath else Child(buildPath, fileInfo.name)
  {
    var name := fileInfo.name;
    if name == "index" || name == "" {
      ResolveEmpty(buildPath);
    } else {
      assert name != "." && name != ".." by {
        assert name[0] in name;
      }
      ResolveChild(buildPath, name);
    }
  }

  /**
   * The published layout: a template named `index` lands on
   * `<dest>/index.html`, any other on `<dest>/<name>/index.html`, whatever
   * its directories and extensions.
   */
  lemma OutputFileLayout(file: string, dest: AbsPath)
    ensures var name := GetFileName(file).name;
      OutputFile(file, dest)
        == (if name in {"index", ""} then dest else Child(dest, name)) + "/index.html"
  {
    WriteLocationLayout(GetFileName(file), dest);
  }

  /** A template `<dir>/<stem>.html` has name `stem` and extension `html`, without the dot its doc comment shows. */
  lemma GetFileNameOfHtml(dir: string, stem: string)
    requires '/' !in stem && '.' !in stem
    ensures GetFileName(dir + "/" + stem + ".html") == FileInfo(stem, Some("html"))
  {
    assert dir + "/" + stem + ".html" == dir + "/" + (stem + ".html");
    GetFileNameIgnoresDirectories(dir, stem + ".html");
    GetFileNameOfHtmlSegment(stem);
  }

  /** `GetFileNameOfHtml` without a directory. */
  lemma GetFileNameOfHtmlSegment(stem: string)
    requires '/' !in stem && '.' !in stem
    ensures GetFileName(stem + ".html") == FileInfo(stem, Some("html"))
  {
    var seg := stem + ".html";
    assert Split(seg, '/') == [seg] by {
      assert '/' !in seg by {
        assert seg == stem + ".html";
      }
      SplitNone(seg, '/');
    }
    assert Split(seg, '.') == [stem, "html"] + [] by {
      SplitNone("html", '.');
      assert seg == stem + "." + "html";
      SplitAfterFirst(stem, "html");
    }
    GetFileNameOfParts(seg, stem, "html", []);
  }

  /** With two dots, as in `about.page.html`, the extension is the middle piece (`page`). */
  lemma GetFileNameOfTwoDots(stem: string, middle: string, last: string)
    requires '/' !in stem && '/' !in middle && '/' !in last
    requires '.' !in stem && '.' !in middle
    ensures GetFileName(stem + "." + middle + "." + last) == FileInfo(stem, Some(middle))
  {
    var seg := stem + "." + middle + "." + last;
    SplitTwoDots(stem, middle, last);
    SplitNone(seg, '/');
    GetFileNameOfParts(seg, stem, middle, Split(last, '.'));
  }

  /** `stem.middle.last` splits at its first two dots. */
  lemma SplitTwoDots(stem: string, middle: string, last: string)
    requires '.' !in stem && '.' !in middle
    ensures Split(stem + "." + middle + "." + last, '.') == [stem, middle] + Split(last, '.')
  {
    SplitAfterFirst(middle, last);
    SplitAfterFirst(stem, middle + "." + last);
    DotsAssociate(stem, middle, last);
  }

  /** Regrouping `stem.middle.last`. */
  lemma DotsAssociate(stem: string, middle: string, last: string)
    ensures stem + "." + middle + "." + last == stem + "." + (middle + "." + last)
  {
  }

  /** A dot-free stem followed by a dot is the first piece. */
  lemma SplitAfterFirst(stem: string, tail: string)
    requires '.' !in stem
    ensures Split(stem + "." + tail, '.') == [stem] + Split(tail, '.')
  {
    SplitConcatFree(stem, tail, '.');
  }

  /** `getFileName` of a single segment from its first two dot-separated pieces. */
  lemma GetFileNameOfParts(seg: string, name: string, extension: string, rest: seq<string>)
    requires Split(seg, '/') == [seg]
    requires Split(seg, '.') == [name, extension] + rest
    ensures GetFileName(seg) == FileInfo(name, Some(extension))
  {
  }

  /** A segment without a dot is all name, and the extension is `undefined`. */
  lemma GetFileNameWithoutDot(dir: string, stem: string)
    requires '/' !in stem && '.' !in stem
    ensures GetFileName(dir + "/" + stem) == FileInfo(stem, None)
  {
    GetFileNameIgnoresDirectories(dir, stem);
    SplitNone(stem, '/');
    SplitNone(stem, '.');
  }

  /** Any `<dir>/<stem>.html` with a non-empty stem passes the filter. */
  lemma FilterHtmlAccepts(dir: string, stem: string)
    requires stem != [] && '/' !in stem
    ensures FilterHtml(dir + "/" + stem + ".html")
  {
    var p := dir + "/" + stem + ".html";
    assert EndsWithHtml(p) by {
      assert p[|p| - 6] == stem[|stem| - 1];
      assert p[|p| - 5..] == ".html";
    }
    assert StripTrailingSlashes(p) == p by {
      assert p[|p| - 1] == 'l';
    }
    FilterHtmlIff(p);
  }

  /** A trailing slash changes neither `path.extname` nor, so, the filter. */
  lemma FilterHtmlIgnoresTrailingSlash(p: string)
    ensures FilterHtml(p + "/") == FilterHtml(p)
  {
    assert (p + "/")[..|p|] == p;
    assert StripTrailingSlashes(p + "/") == StripTrailingSlashes(p);
  }

  /** Worked cases of the filter: the comparison is exact and case-sensitive, and a dotfile has no extension. */
  lemma FilterHtmlExamples()
    ensures !FilterHtml("about.htm")
    ensures !FilterHtml("about.HTML")
    ensures !FilterHtml("templates/about")
    ensures !FilterHtml("templates/.html")
    ensures FilterHtml("templates/.foo.html")
  {
    FilterHtmlIff("about.htm");
    FilterHtmlIff("about.HTML");
    FilterHtmlIff("templates/about");
    FilterHtmlIff("templates/.html");
    FilterHtmlIff("templates/.foo.html");
  }
}
