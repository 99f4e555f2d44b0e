/**
 * The filename standardiser of `rename_files.py`: `standardize_name`, the unique-path
 * picker `get_unique_path` over a finite set of existing paths, and the rule by which
 * `rename_files_recursive` decides to rename an entry. Character classes are ASCII.
 */
module Rename {
  import opened Wrappers
  import opened Text

  // ---------------------------------------------------------------------------
  // standardize_name
  // ---------------------------------------------------------------------------

  /** The entries of `preserved_names`, in groups of about ten in the order the script
      lists them: names kept exactly as they are. */
  const SystemAndGitNames: set<string> := {".DS_Store", "Thumbs.db", "desktop.ini", ".git", ".gitignore", ".gitattributes", "README.md", "LICENSE"}
  const PackageAndPythonNames: set<string> := {"package.json", "package-lock.json", "node_modules", "__init__.py", "__pycache__", "requirements.txt", "setup.py", "setup.cfg"}
  const ConfigAndBuildNames: set<string> := {".env", ".editorconfig", ".eslintrc", ".prettierrc", ".babelrc", "Makefile", "CMakeLists.txt", "Dockerfile", "docker-compose.yml"}
  const IdeWebDocNames: set<string> := {".vscode", ".idea", ".project", ".classpath", "favicon.ico", "robots.txt", "sitemap.xml", "CHANGELOG.md", "CONTRIBUTING.md", "CODE_OF_CONDUCT.md"}
  const OutputAndDataNames: set<string> := {".htaccess", "web.config", "app.config", "dist", "build", "target", "out", ".sqlite", ".db", "logs", ".cache", ".tmp", "temp"}
  const ToolingNames: set<string> := {"yarn.lock", "composer.json", "composer.lock", ".travis.yml", ".gitlab-ci.yml", "jenkins.yml", "phpunit.xml", "jest.config.js", "karma.conf.js"}
  const FrameworkAndShellNames: set<string> := {".npmrc", ".yarnrc", ".dockerignore", "angular.json", "tsconfig.json", "webpack.config.js", ".bashrc", ".bash_profile", ".zshrc"}
  const DependencyAndVersionNames: set<string> := {".keep", ".gitkeep", "config.yml", "config.json", "settings.json", "Gemfile", "Gemfile.lock", "requirements.in", "VERSION", ".ruby-version", ".python-version"}
  const ProjectAndMetaNames: set<string> := {".project", ".buildpath", ".settings", ".mailmap", ".gvimrc", "META-INF", "MANIFEST.MF", "lost+found", ".flowconfig", ".watchmanconfig", ".buckconfig", "mkdocs.yml", "sphinx.conf", "doxygen.conf"}
  const StarredTempAndKeyNames: set<string> := {"~$*", ".#*", "*.swp", "*.log", "*.bak", "*.backup", "*.old", "*.pem", "*.crt", "*.key"}
  const StarredFontAndScriptNames: set<string> := {"*.ttf", "*.otf", "*.woff", "*.woff2", "*.sh", "*.bash", "*.zsh", "*.rc", "*.template", "*.tpl"}
  const PreservedNames: set<string> := SystemAndGitNames + PackageAndPythonNames + ConfigAndBuildNames + IdeWebDocNames + OutputAndDataNames + ToolingNames + FrameworkAndShellNames + DependencyAndVersionNames + ProjectAndMetaNames
                                        + StarredTempAndKeyNames + StarredFontAndScriptNames

  /** The entries of `preserved_names` with a `*`, each with the `*` removed: a name
      ending in one of them is kept as it is. */
  const StarSuffixes: seq<string> := [
    "~$", ".#", ".swp", ".log", ".bak", ".backup", ".old", ".pem", ".crt", ".key",
    ".ttf", ".otf", ".woff", ".woff2", ".sh", ".bash", ".zsh", ".rc", ".template", ".tpl"
  ]

  predicate Preserved(name: string) {
    name in PreservedNames || exists k :: 0 <= k < |StarSuffixes| && EndsWith(name, StarSuffixes[k])
  }

  /** A letter or a digit: a word character other than `_`. */
  predicate IsAlnum(c: char) { IsAlpha(c) || IsDigit(c) }

  /** `[\s\-]`. */
  predicate IsSep(c: char) { IsSpace(c) || c == '-' }

  /** `[a-z0-9_.]`. */
  predicate IsStandardChar(c: char) { IsLowerLetter(c) || IsDigit(c) || c == '_' || c == '.' }

  predicate IsStandard(s: string) {
    forall i :: 0 <= i < |s| ==> IsStandardChar(s[i])
  }

  /** `name.replace('&', 'and')`. */
  function AmpToAnd(s: string): (r: string)
    ensures forall i :: 0 <= i < |r| ==> r[i] != '&'
    decreases |s|
  {
    if s == [] then [] else (if s[0] == '&' then "and" else [s[0]]) + AmpToAnd(s[1..])
  }

  /** `re.sub(r'(?<!^)(?<![\W_])([A-Z])', r'_\1', name)`: an `_` before every upper-case
      letter that is not first and follows a letter or a digit of the original text. */
  function SnakeCase(s: string): (r: string)
    decreases |s|
  {
    if |s| <= 1 then s
    else
      var last := s[|s| - 1];
      SnakeCase(s[..|s| - 1]) + (if IsUpper(last) && IsAlnum(s[|s| - 2]) then "_" else "") + [last]
  }

  /** The leading run of separators dropped. */
  function DropSeps(s: string): (r: string)
    ensures |r| <= |s|
    ensures r == [] || !IsSep(r[0])
    ensures r == s[|s| - |r|..]
    ensures forall i :: 0 <= i < |s| - |r| ==> IsSep(s[i])
    decreases |s|
  {
    if s != [] && IsSep(s[0]) then DropSeps(s[1..]) else s
  }

  /** `re.sub(r'[\s\-]+', '_', name)`: each maximal run of separators becomes one `_`. */
  function CollapseSeps(s: string): (r: string)
    ensures forall i :: 0 <= i < |r| ==> !IsSep(r[i])
    decreases |s|
  {
    if s == [] then []
    else if IsSep(s[0]) then "_" + CollapseSeps(DropSeps(s))
    else [s[0]] + CollapseSeps(s[1..])
  }

  /** `re.sub(r'[^a-z0-9_.]', '', name)`. */
  function KeepStandard(s: string): (r: string)
    ensures IsStandard(r)
    ensures |r| <= |s|
    decreases |s|
  {
    if s == [] then [] else (if IsStandardChar(s[0]) then [s[0]] else []) + KeepStandard(s[1..])
  }

  /** `standardize_name`. */
  function StandardizeName(name: string): string {
    if Preserved(name) then name
    else KeepStandard(CollapseSeps(Lower(SnakeCase(AmpToAnd(name)))))
  }

  /** A preserved name is returned unchanged. */
  lemma PreservedUnchanged(name: string)
    requires Preserved(name)
    ensures StandardizeName(name) == name
  {
  }

  /** Any other name comes out over `[a-z0-9_.]`. */
  lemma StandardCharset(name: string)
    requires !Preserved(name)
    ensures IsStandard(StandardizeName(name))
  {
  }

  lemma {:induction false} AmpToAndIdentity(s: string)
    requires forall i :: 0 <= i < |s| ==> s[i] != '&'
    ensures AmpToAnd(s) == s
    decreases |s|
  {
    if s != [] {
      AmpToAndIdentity(s[1..]);
    }
  }

  lemma {:induction false} SnakeCaseIdentity(s: string)
    requires forall i :: 0 <= i < |s| ==> !IsUpper(s[i])
    ensures SnakeCase(s) == s
    decreases |s|
  {
    if |s| > 1 {
      SnakeCaseIdentity(s[..|s| - 1]);
    }
  }

  lemma LowerIdentity(s: string)
    requires forall i :: 0 <= i < |s| ==> !IsUpper(s[i])
    ensures Lower(s) == s
  {
  }

  lemma {:induction false} CollapseSepsIdentity(s: string)
    requires forall i :: 0 <= i < |s| ==> !IsSep(s[i])
    ensures CollapseSeps(s) == s
    decreases |s|
  {
    if s != [] {
      CollapseSepsIdentity(s[1..]);
    }
  }

  lemma {:induction false} KeepStandardIdentity(s: string)
    requires IsStandard(s)
    ensures KeepStandard(s) == s
    decreases |s|
  {
    if s != [] {
      KeepStandardIdentity(s[1..]);
    }
  }

  /** A name over `[a-z0-9_.]` is already standard: every step leaves it alone. */
  lemma StandardFixed(name: string)
    requires IsStandard(name)
    ensures StandardizeName(name) == name
  {
    if !Preserved(name) {
      Rewritten(name);
      PipelineIdentity(name);
    }
  }

  /** Each rewriting step leaves a name over `[a-z0-9_.]` alone. */
  lemma PipelineIdentity(name: string)
    requires IsStandard(name)
    ensures KeepStandard(CollapseSeps(Lower(SnakeCase(AmpToAnd(name))))) == name
  {
    forall i | 0 <= i < |name|
      ensures name[i] != '&' && !IsUpper(name[i]) && !IsSep(name[i])
    {
      assert IsStandardChar(name[i]);
    }
    AmpToAndIdentity(name);
    assert AmpToAnd(name) == name;
    SnakeCaseIdentity(name);
    assert SnakeCase(name) == name;
    LowerIdentity(name);
    assert Lower(name) == name;
    CollapseSepsIdentity(name);
    assert CollapseSeps(name) == name;
    KeepStandardIdentity(name);
  }

  /** `standardize_name` is idempotent. */
  lemma Idempotent(name: string)
    ensures StandardizeName(StandardizeName(name)) == StandardizeName(name)
  {
    if !Preserved(name) {
      StandardFixed(StandardizeName(name));
    }
  }

  /** The starred entries are members of the set as well, so a name that is literally
      `~$*` is kept, although it does not end in `~$`. */
  lemma LiteralPatternKept()
    ensures !EndsWith("~$*", "~$")
    ensures StandardizeName("~$*") == "~$*"
  {
    assert "~$*" in StarredTempAndKeyNames;
    assert "~$*"[1..] != "~$";
  }

  /** A separator run followed by a non-separator (or the end) becomes one `_`. */
  lemma {:induction false} SeparatorRun(run: string, rest: string)
    requires run != [] && forall i :: 0 <= i < |run| ==> IsSep(run[i])
    requires rest == [] || !IsSep(rest[0])
    ensures CollapseSeps(run + rest) == "_" + CollapseSeps(rest)
  {
    DropAllSeps(run, rest);
  }

  lemma {:induction false} DropAllSeps(run: string, rest: string)
    requires forall i :: 0 <= i < |run| ==> IsSep(run[i])
    requires rest == [] || !IsSep(rest[0])
    ensures DropSeps(run + rest) == rest
    decreases |run|
  {
    if run != [] {
      assert (run + rest)[1..] == run[1..] + rest;
      DropAllSeps(run[1..], rest);
    } else {
      assert run + rest == rest;
    }
  }

  /** Any other character is kept in place. */
  lemma KeepsNonSeparator(c: char, rest: string)
    requires !IsSep(c)
    ensures CollapseSeps([c] + rest) == [c] + CollapseSeps(rest)
  {
    assert ([c] + rest)[1..] == rest;
  }

  /** No name in this shape can match a star pattern: each such suffix starts with
      `.` or `~`. */
  lemma NoStarSuffix(name: string)
    requires forall i :: 0 <= i < |name| ==> name[i] != '.' && name[i] != '~'
    ensures forall k :: 0 <= k < |StarSuffixes| ==> !EndsWith(name, StarSuffixes[k])
  {
    forall k | 0 <= k < |StarSuffixes|
      ensures !EndsWith(name, StarSuffixes[k])
    {
      var suf := StarSuffixes[k];
      assert suf[0] == '.' || suf[0] == '~';
      if |suf| <= |name| {
        assert name[|name| - |suf|..][0] == name[|name| - |suf|];
      }
    }
  }

  // `myFile` is in none of the groups; one lemma per group keeps each proof small.
  lemma MyFileNotInSystemAndGit() ensures "myFile" !in SystemAndGitNames {}
  lemma MyFileNotInPackageAndPython() ensures "myFile" !in PackageAndPythonNames {}
  lemma MyFileNotInConfigAndBuild() ensures "myFile" !in ConfigAndBuildNames {}
  lemma MyFileNotInIdeWebDoc() ensures "myFile" !in IdeWebDocNames {}
  lemma MyFileNotInOutputAndData() ensures "myFile" !in OutputAndDataNames {}
  lemma MyFileNotInTooling() ensures "myFile" !in ToolingNames {}
  lemma MyFileNotInFrameworkAndShell() ensures "myFile" !in FrameworkAndShellNames {}
  lemma MyFileNotInDependencyAndVersion() ensures "myFile" !in DependencyAndVersionNames {}
  lemma MyFileNotInProjectAndMeta() ensures "myFile" !in ProjectAndMetaNames {}
  lemma MyFileNotInStarredTempAndKey() ensures "myFile" !in StarredTempAndKeyNames {}
  lemma MyFileNotInStarredFontAndScript() ensures "myFile" !in StarredFontAndScriptNames {}

  /** `myFile` is not a preserved name. */
  lemma MyFileNotPreserved()
    ensures !Preserved("myFile")
  {
    NoStarSuffix("myFile");
    MyFileNotInSystemAndGit();
    MyFileNotInPackageAndPython();
    MyFileNotInConfigAndBuild();
    MyFileNotInIdeWebDoc();
    MyFileNotInOutputAndData();
    MyFileNotInTooling();
    MyFileNotInFrameworkAndShell();
    MyFileNotInDependencyAndVersion();
    MyFileNotInProjectAndMeta();
    MyFileNotInStarredTempAndKey();
    MyFileNotInStarredFontAndScript();
  }

  /** Snake-casing `myFile` inserts `_` before the `F` only. */
  lemma SnakeCaseMyFile()
    ensures SnakeCase("myFile") == "my_File"
  {
    var n := "myFile";
    assert SnakeCase(n[..2]) == "my";
    assert n[..3][..2] == n[..2];
    assert SnakeCase(n[..3]) == "my_F";
    assert n[..4][..3] == n[..3];
    assert SnakeCase(n[..4]) == "my_Fi";
    assert n[..5][..4] == n[..4];
    assert SnakeCase(n[..5]) == "my_Fil";
    assert n[..5] == n[..|n| - 1];
  }

  /** A name that is not preserved goes through the four rewriting steps. */
  lemma Rewritten(name: string)
    requires !Preserved(name)
    ensures StandardizeName(name) == KeepStandard(CollapseSeps(Lower(SnakeCase(AmpToAnd(name)))))
  {
  }

  /** `my_File` lower-cased is `my_file`. */
  lemma LowerMyFile()
    ensures Lower("my_File") == "my_file"
  {
  }

  /** `myFile` has no `&`, and `my_file` is standard. */
  lemma MyFileCharsets()
    ensures AmpToAnd("myFile") == "myFile"
    ensures CollapseSeps("my_file") == "my_file"
    ensures KeepStandard("my_file") == "my_file"
  {
    var n, m := "myFile", "my_file";
    assert forall i :: 0 <= i < |n| ==> n[i] != '&';
    AmpToAndIdentity(n);
    assert IsStandard(m);
    CollapseSepsIdentity(m);
    KeepStandardIdentity(m);
  }

  /** `myFile` becomes `my_file`. */
  lemma CamelCaseExample()
    ensures StandardizeName("myFile") == "my_file"
  {
    MyFileNotPreserved();
    Rewritten("myFile");
    MyFileCharsets();
    SnakeCaseMyFile();
    LowerMyFile();
  }

  // ---------------------------------------------------------------------------
  // get_unique_path
  // ---------------------------------------------------------------------------

  /** The index of the last path separator, `-1` when there is none. */
  function LastSlash(p: string): int {
    match LastIndexOf(p, '/')
    case Some(i) => i
    case None => -1
  }

  /** `os.path.splitext` (POSIX): the extension starts at the last `.` of the last path
      component, unless everything before that dot in the component is dots. */
  function SplitExt(p: string): (r: (string, string))
    ensures r.0 + r.1 == p
    ensures r.1 == "" || (r.1[0] == '.' && forall i :: 1 <= i < |r.1| ==> r.1[i] != '.' && r.1[i] != '/')
    ensures r.1 != "" ==> exists k :: LastSlash(p) < k < |r.0| && r.0[k] != '.'
  {
    match LastIndexOf(p, '.')
    case None => (p, "")
    case Some(d) =>
      if d > LastSlash(p) && exists k :: LastSlash(p) < k < d && p[k] != '.' then
        assert forall i :: d < i < |p| ==> p[i] != '/';
        assert p[..d] + p[d..] == p;
        (p[..d], p[d..])
      else (p, "")
  }

  /** `f"{base}_{counter}{ext}"`. */
  function Numbered(path: string, n: nat): string {
    var be := SplitExt(path);
    be.0 + "_" + NatToString(n) + be.1
  }

  /** Distinct counters give distinct paths. */
  lemma NumberedDistinct(path: string, n: nat, m: nat)
    requires n != m
    ensures Numbered(path, n) != Numbered(path, m)
  {
    var be := SplitExt(path);
    var s1, s2 := NatToString(n), NatToString(m);
    NatToStringRoundTrip(n);
    NatToStringRoundTrip(m);
    assert s1 != s2;
    var x, y := Numbered(path, n), Numbered(path, m);
    if |s1| == |s2| {
      var i :| 0 <= i < |s1| && s1[i] != s2[i];
      assert x[|be.0| + 1 + i] == s1[i];
      assert y[|be.0| + 1 + i] == s2[i];
    } else {
      assert |x| != |y|;
    }
  }

  /** The numbered paths tried before counter `n`. */
  function Tried(path: string, n: nat): set<string> {
    set m | 1 <= m < n :: Numbered(path, m)
  }

  lemma TriedGrows(path: string, n: nat)
    requires n >= 1
    ensures Numbered(path, n) !in Tried(path, n)
    ensures Tried(path, n + 1) == Tried(path, n) + {Numbered(path, n)}
  {
    forall m | 1 <= m < n
      ensures Numbered(path, m) != Numbered(path, n)
    {
      NumberedDistinct(path, m, n);
    }
  }

  /** `get_unique_path`, with `os.path.exists` read as membership of `existing`: the
      path itself when free, else the numbered path with the least free counter, which
      is never more than one above the number of existing paths. */
  method GetUniquePath(path: string, existing: set<string>) returns (p: string)
    ensures p !in existing
    ensures path !in existing ==> p == path
    ensures path in existing ==>
              exists n :: 1 <= n <= |existing| + 1 && p == Numbered(path, n)
                          && forall m :: 1 <= m < n ==> Numbered(path, m) in existing
  {
    if path !in existing {
      return path;
    }
    var counter := 1;
    ghost var remaining := existing;
    while Numbered(path, counter) in existing
      invariant counter >= 1
      invariant forall m :: 1 <= m < counter ==> Numbered(path, m) in existing
      invariant remaining == existing - Tried(path, counter)
      invariant |remaining| + counter - 1 == |existing|
      decreases |remaining|
    {
      TriedGrows(path, counter);
      remaining := remaining - {Numbered(path, counter)};
      counter := counter + 1;
    }
    p := Numbered(path, counter);
  }

  // ---------------------------------------------------------------------------
  // The rename decision of rename_files_recursive
  // ---------------------------------------------------------------------------

  /** `os.path.join(root, name)` (POSIX, two arguments). */
  function PathJoin(root: string, name: string): string {
    if StartsWith(name, "/") then name
    else if root == "" || EndsWith(root, "/") then root + name
    else root + "/" + name
  }

  /** `old_path.lower() != new_path.lower()`. */
  predicate ShouldRename(root: string, name: string) {
    Lower(PathJoin(root, name)) != Lower(PathJoin(root, StandardizeName(name)))
  }

  /** What `os.path.join` puts in front of a relative name. */
  function JoinPrefix(root: string): string {
    if root == "" || EndsWith(root, "/") then root else root + "/"
  }

  lemma JoinRelative(root: string, name: string)
    requires forall i :: 0 <= i < |name| ==> name[i] != '/'
    ensures PathJoin(root, name) == JoinPrefix(root) + name
  {
    if |name| > 0 {
      assert name[..1][0] == name[0];
    }
  }

  /** Lower-casing a common prefix does not change whether two paths agree. */
  lemma {:induction false} LowerPrefixIff(pre: string, a: string, b: string)
    ensures Lower(pre + a) == Lower(pre + b) <==> Lower(a) == Lower(b)
  {
    var la, lb := Lower(pre + a), Lower(pre + b);
    if la == lb {
      assert Lower(a) == la[|pre|..];
      assert Lower(b) == lb[|pre|..];
    }
    if Lower(a) == Lower(b) {
      assert |la| == |lb|;
      forall i | 0 <= i < |la|
        ensures la[i] == lb[i]
      {
        if i >= |pre| {
          assert la[i] == Lower(a)[i - |pre|];
          assert lb[i] == Lower(b)[i - |pre|];
        }
      }
    }
  }

  /** The standard form of a name without `/` has no `/` either. */
  lemma StandardNoSlash(name: string)
    requires forall i :: 0 <= i < |name| ==> name[i] != '/'
    ensures forall i :: 0 <= i < |StandardizeName(name)| ==> StandardizeName(name)[i] != '/'
  {
    if !Preserved(name) {
      StandardCharset(name);
    }
  }

  /** For an entry name (no `/`, as `os.walk` yields them) the rename happens iff the
      name and its standard form differ other than in case. */
  lemma RenameIff(root: string, name: string)
    requires forall i :: 0 <= i < |name| ==> name[i] != '/'
    ensures ShouldRename(root, name) <==> Lower(name) != Lower(StandardizeName(name))
  {
    var std := StandardizeName(name);
    StandardNoSlash(name);
    JoinRelative(root, name);
    JoinRelative(root, std);
    LowerPrefixIff(JoinPrefix(root), name, std);
  }

  /** A name that is already standard is never renamed. */
  lemma StandardNotRenamed(root: string, name: string)
    requires IsStandard(name)
    ensures !ShouldRename(root, name)
  {
    StandardFixed(name);
  }

  /** The handling of one entry: the new path when it is renamed, picked among the
      paths that exist. */
  method RenameTarget(root: string, name: string, existing: set<string>) returns (target: Option<string>)
    ensures target.Some? <==> ShouldRename(root, name)
    ensures target.Some? ==> target.value !in existing
    ensures target.Some? && PathJoin(root, StandardizeName(name)) !in existing ==>
              target.value == PathJoin(root, StandardizeName(name))
    ensures target.Some? && PathJoin(root, StandardizeName(name)) in existing ==>
              var newPath := PathJoin(root, StandardizeName(name));
              exists n :: 1 <= n <= |existing| + 1 && target.value == Numbered(newPath, n)
                          && forall m :: 1 <= m < n ==> Numbered(newPath, m) in existing
  {
    var newPath := PathJoin(root, StandardizeName(name));
    if Lower(PathJoin(root, name)) != Lower(newPath) {
      var p := GetUniquePath(newPath, existing);
      target := Some(p);
    } else {
      target := None;
    }
  }
}
