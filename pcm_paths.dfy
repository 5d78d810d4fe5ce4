/**
 * Path handling of tools/pcm_update.py: `PurePosixPath` parts, name and suffix, the
 * ordering `sorted` gives to paths, and the language and kind classification of a file.
 */
module PcmPaths {
  import opened Kotlin
  import opened Order

  // ----- Components, name and suffix -----

  /** The number of characters before the first '/' (or the whole length). */
  function ChunkLength(p: string): (n: nat)
    ensures n <= |p|
    ensures forall i :: 0 <= i < n ==> p[i] != '/'
    ensures n < |p| ==> p[n] == '/'
    decreases |p|
  {
    if |p| == 0 || p[0] == '/' then 0 else 1 + ChunkLength(p[1..])
  }

  /**
   * `Path(p).parts` without the root marker: the '/'-separated components with the
   * empty and "." components dropped, as `PurePosixPath` normalises them.
   */
  function Parts(p: string): seq<string>
    decreases |p|
  {
    if |p| == 0 then []
    else if p[0] == '/' then Parts(p[1..])
    else
      var n := ChunkLength(p);
      if p[..n] == "." then Parts(p[n..]) else [p[..n]] + Parts(p[n..])
  }

  lemma {:induction false} ChunkLengthAppend(x: string, y: string)
    ensures ChunkLength(x + "/" + y) == ChunkLength(x)
    decreases |x|
  {
    if |x| > 0 && x[0] != '/' {
      assert (x + "/" + y)[1..] == x[1..] + "/" + y;
      ChunkLengthAppend(x[1..], y);
    }
  }

  /** One step of `Parts` on a path that starts with a component. */
  lemma PartsUnfold(p: string)
    requires |p| > 0 && p[0] != '/'
    ensures var n := ChunkLength(p);
      n > 0 && Parts(p) == (if p[..n] == "." then [] else [p[..n]]) + Parts(p[n..])
  {
  }

  /** Joining two paths with '/' joins their components. */
  lemma {:induction false} PartsAppend(x: string, y: string)
    ensures Parts(x + "/" + y) == Parts(x) + Parts(y)
    decreases |x|
  {
    var p := x + "/" + y;
    if |x| == 0 {
      assert p[1..] == y;
    } else if x[0] == '/' {
      assert p[1..] == x[1..] + "/" + y;
      PartsAppend(x[1..], y);
    } else {
      ChunkLengthAppend(x, y);
      var n := ChunkLength(x);
      PartsUnfold(p);
      PartsUnfold(x);
      assert p[..n] == x[..n];
      assert p[n..] == x[n..] + "/" + y;
      PartsAppend(x[n..], y);
    }
  }

  /** A single component is its own list of parts. */
  lemma {:induction false} PartsOfComponent(c: string)
    requires |c| > 0 && '/' !in c && c != "."
    ensures Parts(c) == [c]
  {
    ChunkLengthWhole(c);
    assert c[..|c|] == c;
  }

  lemma {:induction false} ChunkLengthWhole(c: string)
    requires '/' !in c
    ensures ChunkLength(c) == |c|
    decreases |c|
  {
    if |c| > 0 {
      assert forall k | 0 <= k < |c| - 1 :: c[1..][k] == c[k + 1] && c[k + 1] in c;
      ChunkLengthWhole(c[1..]);
    }
  }

  /** `Path(p).name`: the last component, or "" for a path with none. */
  function FileName(p: string): string {
    var parts := Parts(p);
    if |parts| == 0 then "" else parts[|parts| - 1]
  }

  /** `str.rfind('.')`: the last index of a dot, or -1. */
  function LastDot(s: string): (r: int)
    ensures -1 <= r < |s|
    ensures r >= 0 ==> s[r] == '.' && forall j :: r < j < |s| ==> s[j] != '.'
    ensures r == -1 ==> '.' !in s
    decreases |s|
  {
    if |s| == 0 then -1
    else if s[|s| - 1] == '.' then |s| - 1
    else
      var r := LastDot(s[..|s| - 1]);
      assert forall j :: 0 <= j < |s| - 1 ==> s[..|s| - 1][j] == s[j];
      r
  }

  /** `Path(p).suffix`: from the last dot of the name, unless that dot is first or last. */
  function Suffix(p: string): string {
    var name := FileName(p);
    var i := LastDot(name);
    if 0 < i < |name| - 1 then name[i..] else ""
  }

  // ----- Ordering -----

  /** A character's rank in path order: '/' separates components, so it ranks lowest. */
  function PathRank(c: char): int { if c == '/' then -1 else c as int }

  /**
   * The order `sorted` gives to `Path` objects, stated on their POSIX text: components
   * compare as strings, which for normalised paths is string order with '/' ranked below
   * every other character.
   */
  predicate PathLt(a: string, b: string)
    decreases |a|
  {
    |b| > 0 && (|a| == 0 || PathRank(a[0]) < PathRank(b[0]) || (a[0] == b[0] && PathLt(a[1..], b[1..])))
  }

  lemma {:induction false} PathLtIrreflexive(a: string)
    ensures !PathLt(a, a)
    decreases |a|
  {
    if |a| > 0 { PathLtIrreflexive(a[1..]); }
  }

  lemma {:induction false} PathLtTransitive(a: string, b: string, c: string)
    requires PathLt(a, b) && PathLt(b, c)
    ensures PathLt(a, c)
    decreases |a|
  {
    if |a| > 0 && a[0] == b[0] && b[0] == c[0] {
      PathLtTransitive(a[1..], b[1..], c[1..]);
    }
  }

  lemma {:induction false} PathLtTotal(a: string, b: string)
    requires a != b
    ensures PathLt(a, b) || PathLt(b, a)
    decreases |a|
  {
    if |a| > 0 && |b| > 0 && a[0] == b[0] {
      assert a == [a[0]] + a[1..] && b == [b[0]] + b[1..];
      PathLtTotal(a[1..], b[1..]);
    }
  }

  /** Path order is a strict total order, so `sorted` of distinct paths is canonical. */
  lemma PathLtStrictTotal()
    ensures StrictTotal(PathLt)
  {
    forall a ensures !PathLt(a, a) { PathLtIrreflexive(a); }
    forall a, b, c | PathLt(a, b) && PathLt(b, c) ensures PathLt(a, c) { PathLtTransitive(a, b, c); }
    forall a, b | a != b ensures PathLt(a, b) || PathLt(b, a) { PathLtTotal(a, b); }
  }

  // ----- Language -----

  const LANG_BY_SUFFIX: map<string, string> := map[
    ".kt" := "kotlin", ".kts" := "kotlin", ".swift" := "swift", ".gradle.kts" := "kotlin",
    ".xml" := "xml", ".json" := "json", ".jsonl" := "json", ".yaml" := "yaml",
    ".yml" := "yaml", ".md" := "markdown", ".toml" := "toml"]

  /** `detect_lang`: Gradle Kotlin scripts by name, others by lower-cased suffix. */
  function DetectLang(p: string): string {
    if EndsWith(FileName(p), ".gradle.kts") then "kotlin"
    else
      var suffix := Lowercase(Suffix(p));
      if suffix in LANG_BY_SUFFIX then LANG_BY_SUFFIX[suffix] else "unknown"
  }

  /**
   * `detect_lang` always yields one of the known tags: "kotlin" for a Gradle Kotlin
   * script whatever its suffix, "unknown" exactly when no rule applies.
   */
  lemma DetectLangSpec(p: string)
    ensures EndsWith(FileName(p), ".gradle.kts") ==> DetectLang(p) == "kotlin"
    ensures DetectLang(p) == "unknown" <==>
      !EndsWith(FileName(p), ".gradle.kts") && Lowercase(Suffix(p)) !in LANG_BY_SUFFIX
    ensures DetectLang(p) in {"kotlin", "swift", "xml", "json", "yaml", "markdown", "toml", "unknown"}
  {
  }

  // ----- Kind -----

  datatype Kind = Test | Config | Asset | Docs | Script | Source {
    /** The tag written into the record's "kind" field. */
    function Tag(): string {
      match this
      case Test => "test"
      case Config => "config"
      case Asset => "asset"
      case Docs => "docs"
      case Script => "script"
      case Source => "source"
    }
  }

  /** Kinds other than docs and script carry neither of their tags. */
  lemma TagIsNotDocsOrScript(k: Kind)
    requires k != Docs && k != Script
    ensures k.Tag() != Docs.Tag() && k.Tag() != Script.Tag()
  {
    assert "docs"[0] == 'd' && "script"[0] == 's';
  }

  const CONFIG_SUFFIXES: set<string> :=
    {".gradle", ".gradle.kts", ".kts", ".json", ".jsonl", ".yaml", ".yml", ".toml", ".properties"}
  const ASSET_SUFFIXES: set<string> := {".png", ".jpg", ".jpeg", ".webp", ".svg"}

  /** `detect_kind`: the first matching rule among test, config, asset, docs, script. */
  function DetectKind(p: string): Kind {
    var parts := Parts(p);
    var suffix := Lowercase(Suffix(p));
    if Contains(p, "src/test") || Contains(p, "src/androidTest") then Test
    else if "test" in parts || "androidTest" in parts then Test
    else if suffix in CONFIG_SUFFIXES || EndsWith(p, "gradle.kts") then Config
    else if suffix in ASSET_SUFFIXES || Contains(p, "/res/") then Asset
    else if StartsWith(p, "docs/") || StartsWith(p, ".project_context/summaries") then Docs
    else if StartsWith(p, "scripts/") then Script
    else Source
  }

  /** A file anywhere below a `test` or `androidTest` directory is a test, whatever its suffix. */
  lemma TestDirectoryIsTest(dir: string, segment: string, rest: string)
    requires segment == "test" || segment == "androidTest"
    ensures DetectKind(dir + "/" + segment + "/" + rest) == Test
  {
    PartsAppend(dir + "/" + segment, rest);
    PartsAppend(dir, segment);
    PartsOfComponent(segment);
    assert segment in Parts(dir + "/" + segment + "/" + rest);
  }

  /** Kinds that start-of-path rules decide need a path relative to the root. */
  lemma AbsolutePathNeverDocsOrScript(root: string, rel: string)
    requires |root| > 0 && root[0] == '/'
    ensures DetectKind(root + "/" + rel) != Docs
    ensures DetectKind(root + "/" + rel) != Script
  {
    var p := root + "/" + rel;
    assert p[0] == '/';
    assert !StartsWith(p, "docs/") && !StartsWith(p, ".project_context/summaries") by {
      assert "docs/"[0] != p[0] && ".project_context/summaries"[0] != p[0];
    }
    assert !StartsWith(p, "scripts/") by { assert "scripts/"[0] != p[0]; }
  }

  /** A Markdown file outside test trees and resources is classified by its leading directory. */
  lemma MarkdownKind(p: string)
    requires !Contains(p, "src/test") && !Contains(p, "src/androidTest") && !Contains(p, "/res/")
    requires "test" !in Parts(p) && "androidTest" !in Parts(p)
    requires Suffix(p) == ".md" && !EndsWith(p, "gradle.kts")
    ensures DetectKind(p) ==
      if StartsWith(p, "docs/") || StartsWith(p, ".project_context/summaries") then Docs
      else if StartsWith(p, "scripts/") then Script
      else Source
  {
    MarkdownSuffixIsPlain();
  }

  lemma MarkdownSuffixIsPlain()
    ensures Lowercase(".md") !in CONFIG_SUFFIXES && Lowercase(".md") !in ASSET_SUFFIXES
  {
    LowercaseOfNoUpper(".md");
  }

  /** `docs/a.md` is documentation when classified by its path relative to the root. */
  lemma DocsFileRelative(dir: string, name: string)
    requires dir == "docs" && name == "a.md"
    ensures DetectKind(dir + "/" + name) == Docs
  {
    var p := dir + "/" + name;
    PartsAppend(dir, name);
    PartsOfComponent(dir);
    PartsOfComponent(name);
    assert LastDot(name) == 1;
    NoTestOrResourceMarks(p);
    MarkdownKind(p);
  }

  /** A path without the letters `t` and `e` is neither under a test source set nor under resources. */
  lemma NoTestOrResourceMarks(p: string)
    requires 't' !in p && 'e' !in p
    ensures !Contains(p, "src/test") && !Contains(p, "src/androidTest") && !Contains(p, "/res/")
  {
    NotContainsMissingChar(p, "src/test", 't');
    NotContainsMissingChar(p, "src/androidTest", 't');
    NotContainsMissingChar(p, "/res/", 'e');
  }

  lemma AbsoluteDocsFileParts(root: string, dir: string, name: string)
    requires root == "/r" && dir == "docs" && name == "a.md"
    ensures Parts(root + "/" + dir + "/" + name) == ["r", dir, name]
    ensures Suffix(root + "/" + dir + "/" + name) == ".md"
  {
    PartsAppend(root + "/" + dir, name);
    PartsAppend(root, dir);
    assert root == "" + "/" + "r";
    PartsAppend("", "r");
    PartsOfComponent("r");
    PartsOfComponent(dir);
    PartsOfComponent(name);
    assert LastDot(name) == 1;
  }

  /** The same file below the root `/r`, classified by its absolute path as `build_record` does, is source. */
  lemma DocsFileAbsolute(root: string, dir: string, name: string)
    requires root == "/r" && dir == "docs" && name == "a.md"
    ensures DetectKind(root + "/" + dir + "/" + name) == Source
  {
    var p := root + "/" + dir + "/" + name;
    AbsoluteDocsFileShape(root, dir, name);
    assert p == root + "/" + (dir + "/" + name);
    AbsolutePathNeverDocsOrScript(root, dir + "/" + name);
    MarkdownKind(p);
  }

  lemma AbsoluteDocsFileShape(root: string, dir: string, name: string)
    requires root == "/r" && dir == "docs" && name == "a.md"
    ensures var p := root + "/" + dir + "/" + name;
      && !Contains(p, "src/test") && !Contains(p, "src/androidTest") && !Contains(p, "/res/")
      && "test" !in Parts(p) && "androidTest" !in Parts(p)
      && Suffix(p) == ".md" && !EndsWith(p, "gradle.kts")
  {
    AbsoluteDocsFileParts(root, dir, name);
    AbsoluteDocsFileMarks(root, dir, name);
  }

  lemma AbsoluteDocsFileMarks(root: string, dir: string, name: string)
    requires root == "/r" && dir == "docs" && name == "a.md"
    ensures var p := root + "/" + dir + "/" + name;
      && !Contains(p, "src/test") && !Contains(p, "src/androidTest") && !Contains(p, "/res/")
      && !EndsWith(p, "gradle.kts")
  {
    var p := root + "/" + dir + "/" + name;
    assert p == "/r/docs/a.md";
    NoTestOrResourceMarks(p);
  }}
