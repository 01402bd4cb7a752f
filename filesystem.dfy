/** The pure part of FileSystemCrawler (discovery/filesystem.py): the default
    extension list, the CAD-file test on a path's suffix, and the project name
    taken from the path below the scan root. */
module Filesystem {

  datatype Option<T> = None | Some(value: T)

  /** A path as the sequence of its parts, anchor first:
      /projects/A/bracket.stl is ["/", "projects", "A", "bracket.stl"]. POSIX
      keeps exactly two leading slashes as their own anchor, "//". */
  type Path = seq<string>

  const DefaultExtensions: seq<string> := [".stl"]

  /** The crawler's only state is its extension list, set once at construction. */
  datatype FileSystemCrawler = FileSystemCrawler(supportedExtensions: seq<string>)
  {
    /** _is_cad_file: the lower-cased suffix of the file name is one of the
        supported extensions, compared as given. */
    function IsCadFile(filePath: Path): (isCad: bool)
      ensures isCad <==> Suffix(Lower(Name(filePath))) in supportedExtensions
      ensures isCad && "" !in supportedExtensions ==> '.' in Name(filePath)
    {
      SuffixOfLower(Name(filePath));
      Lower(Suffix(Name(filePath))) in supportedExtensions
    }

    /** extract_project_info: the first part of the path relative to the root
        when that relative path has at least two parts, "Unknown" when it has
        fewer or when the file is not under the root at all. */
    function ExtractProjectInfo(filePath: Path, rootPath: Path): (project: string)
      ensures project == "Unknown" || project in filePath
      ensures project != "Unknown" ==>
                && rootPath <= filePath && (IsAbsolute(rootPath) <==> IsAbsolute(filePath))
                && |filePath| >= |rootPath| + 2 && project == filePath[|rootPath|]
    {
      match RelativeTo(filePath, rootPath)
      case None => "Unknown"
      case Some(parts) => if |parts| > 1 then parts[0] else "Unknown"
    }
  }

  /** FileSystemCrawler.__init__: a missing or empty list falls back to the
      default; any other list is kept as given. */
  function NewCrawler(supportedExtensions: Option<seq<string>> := None): (crawler: FileSystemCrawler)
    ensures crawler.supportedExtensions != []
    ensures supportedExtensions.None? ==> crawler.supportedExtensions == DefaultExtensions
    ensures supportedExtensions == Some([]) ==> crawler.supportedExtensions == DefaultExtensions
    ensures supportedExtensions.Some? && supportedExtensions.value != [] ==>
              crawler.supportedExtensions == supportedExtensions.value
  {
    match supportedExtensions
    case Some(extensions) => if extensions != [] then FileSystemCrawler(extensions) else FileSystemCrawler(DefaultExtensions)
    case None => FileSystemCrawler(DefaultExtensions)
  }

  /** The final part of a path; a bare anchor and the empty path have none. */
  function Name(filePath: Path): (name: string)
    ensures name == "" || (filePath != [] && name == filePath[|filePath| - 1])
    ensures name == "" <==>
              filePath == [] || filePath == ["/"] || filePath == ["//"] || filePath[|filePath| - 1] == ""
  {
    if filePath == [] || (|filePath| == 1 && IsAnchor(filePath[0])) then "" else filePath[|filePath| - 1]
  }

  /** The index of the last '.' in a name, or -1. */
  function LastDot(name: string): (i: int)
    ensures -1 <= i < |name|
    ensures i >= 0 ==> name[i] == '.'
    ensures forall k :: i < k < |name| ==> name[k] != '.'
  {
    if name == [] then -1
    else if name[|name| - 1] == '.' then |name| - 1
    else LastDot(name[..|name| - 1])
  }

  /** pathlib's suffix: from the last '.' on, unless that dot opens the name
      or ends it, or there is none. */
  function Suffix(name: string): (suffix: string)
    ensures suffix != "" ==>
              && 2 <= |suffix| < |name|
              && name == name[..|name| - |suffix|] + suffix
              && suffix[0] == '.' && '.' !in suffix[1..]
    ensures suffix == "" <==>
              || |name| == 0
              || name[|name| - 1] == '.'
              || forall k :: 0 < k < |name| ==> name[k] != '.'
  {
    var i := LastDot(name);
    if 0 < i < |name| - 1 then name[i..] else ""
  }

  function LowerChar(c: char): char {
    if 'A' <= c <= 'Z' then (c as int - 'A' as int + 'a' as int) as char else c
  }

  /** str.lower() on the ASCII letters. */
  function Lower(s: string): (r: string)
    ensures |r| == |s|
    ensures !HasUpper(r)
    ensures !HasUpper(s) ==> r == s
    ensures forall k :: 0 <= k < |s| ==>
              r[k] == s[k] || ('A' <= s[k] <= 'Z' && r[k] as int == s[k] as int + 32)
  {
    seq(|s|, k requires 0 <= k < |s| => LowerChar(s[k]))
  }

  predicate HasUpper(s: string) {
    exists k :: 0 <= k < |s| && 'A' <= s[k] <= 'Z'
  }

  /** The POSIX anchors: one leading slash, or exactly two. */
  predicate IsAnchor(part: string) {
    part == "/" || part == "//"
  }

  /** A path is absolute when its first part is an anchor. */
  predicate IsAbsolute(p: Path) {
    p != [] && IsAnchor(p[0])
  }

  /** Path.relative_to on parts: the rest of the path after the root, or None
      (ValueError) when the root is not a prefix of the path, or when the root
      has no parts at all (Path(".")) and the path is absolute. */
  function RelativeTo(filePath: Path, rootPath: Path): (relative: Option<Path>)
    ensures relative.Some? <==> rootPath <= filePath && (IsAbsolute(rootPath) <==> IsAbsolute(filePath))
    ensures relative.Some? ==> rootPath + relative.value == filePath
  {
    if rootPath == [] && IsAbsolute(filePath) then None
    else if rootPath <= filePath then Some(filePath[|rootPath|..])
    else None
  }

  // ---------------------------------------------------------------------------
  // Properties.

  lemma {:induction false} LastDotOfLower(name: string)
    ensures LastDot(Lower(name)) == LastDot(name)
  {
    if name != [] {
      var n := |name|;
      assert Lower(name)[..n - 1] == Lower(name[..n - 1]);
      LastDotOfLower(name[..n - 1]);
    }
  }

  /** The last dot, characterised by position. */
  lemma {:induction false} LastDotAt(name: string, i: nat)
    requires i < |name| && name[i] == '.'
    requires forall k :: i < k < |name| ==> name[k] != '.'
    ensures LastDot(name) == i
  {
    if i < |name| - 1 {
      LastDotAt(name[..|name| - 1], i);
    }
  }

  /** Lower-casing a name does not move its dots, so it commutes with taking
      the suffix. */
  lemma SuffixOfLower(name: string)
    ensures Suffix(Lower(name)) == Lower(Suffix(name))
  {
    LastDotOfLower(name);
    var i := LastDot(name);
    if 0 < i < |name| - 1 {
      assert Lower(name)[i..] == Lower(name[i..]);
    }
  }

  /** Two paths whose file names agree up to case are both CAD files or
      neither. */
  lemma IsCadFileIgnoresCase(crawler: FileSystemCrawler, path1: Path, path2: Path)
    requires Lower(Name(path1)) == Lower(Name(path2))
    ensures crawler.IsCadFile(path1) == crawler.IsCadFile(path2)
  {
    SuffixOfLower(Name(path1));
    SuffixOfLower(Name(path2));
  }

  /** Only the file name is lower-cased, not the list: an entry holding an
      upper-case letter never matches. */
  lemma UppercaseEntryNeverMatches(filePath: Path, entry: string)
    requires HasUpper(entry)
    ensures Lower(Suffix(Name(filePath))) != entry
  {
  }

  /** The default crawler accepts a file name ending in .stl, in any case,
      and rejects one ending in .txt, whatever non-empty stem precedes the
      extension (test.stl, test.STL, bracket.stl, test.txt). */
  lemma DefaultCrawlerExamples(stem: string)
    requires stem != []
    ensures NewCrawler().IsCadFile([stem + ".stl"])
    ensures NewCrawler().IsCadFile([stem + ".STL"])
    ensures !NewCrawler().IsCadFile([stem + ".txt"])
  {
    var crawler := NewCrawler();
    DefaultAcceptsStl(crawler, stem);
    DefaultAcceptsUpperStl(crawler, stem);
    DefaultRejectsTxt(crawler, stem);
  }

  lemma DefaultAcceptsStl(crawler: FileSystemCrawler, stem: string)
    requires crawler.supportedExtensions == DefaultExtensions && stem != []
    ensures crawler.IsCadFile([stem + ".stl"])
  {
    ExtensionsLowered();
    DefaultListBySuffix(crawler, stem, ".stl");
  }

  lemma DefaultAcceptsUpperStl(crawler: FileSystemCrawler, stem: string)
    requires crawler.supportedExtensions == DefaultExtensions && stem != []
    ensures crawler.IsCadFile([stem + ".STL"])
  {
    ExtensionsLowered();
    DefaultListBySuffix(crawler, stem, ".STL");
  }

  lemma DefaultRejectsTxt(crawler: FileSystemCrawler, stem: string)
    requires crawler.supportedExtensions == DefaultExtensions && stem != []
    ensures !crawler.IsCadFile([stem + ".txt"])
  {
    ExtensionsLowered();
    DefaultListBySuffix(crawler, stem, ".txt");
  }

  /** Under the default list, such a name is a CAD file exactly when its
      extension lower-cases to .stl. */
  lemma DefaultListBySuffix(crawler: FileSystemCrawler, stem: string, extension: string)
    requires crawler.supportedExtensions == DefaultExtensions
    requires stem != [] && |extension| >= 2 && extension[0] == '.' && '.' !in extension[1..]
    ensures crawler.IsCadFile([stem + extension]) <==> Lower(extension) == ".stl"
  {
    WithExtension(crawler, stem, extension);
  }

  lemma ExtensionsLowered()
    ensures Lower(".stl") == ".stl" && Lower(".STL") == ".stl" && Lower(".txt") == ".txt"
  {
    assert Lower(".stl") == ".stl";
    assert Lower(".STL") == ".stl";
  }

  /** A name made of a non-empty stem and an extension with a single leading
      dot is a CAD file exactly when the lower-cased extension is listed. */
  lemma WithExtension(crawler: FileSystemCrawler, stem: string, extension: string)
    requires stem != [] && |extension| >= 2 && extension[0] == '.' && '.' !in extension[1..]
    ensures crawler.IsCadFile([stem + extension]) <==> Lower(extension) in crawler.supportedExtensions
  {
    var name := stem + extension;
    forall k | |stem| < k < |name| ensures name[k] != '.' {
      assert name[k] == extension[1..][k - |stem| - 1];
    }
    assert name[|stem|..] == extension;
    IsCadFileAt(crawler, name, |stem|);
  }

  /** The CAD-file test on a bare file name whose last dot is at i, strictly
      inside the name. */
  lemma IsCadFileAt(crawler: FileSystemCrawler, name: string, i: nat)
    requires 0 < i < |name| - 1 && name[i] == '.'
    requires forall k :: i < k < |name| ==> name[k] != '.'
    ensures crawler.IsCadFile([name]) <==> Lower(name[i..]) in crawler.supportedExtensions
  {
    LastDotAt(name, i);
  }

  /** The project is the first directory under the root when the file lies at
      least one directory below it, and "Unknown" otherwise; an absolute file
      is never under the empty root. */
  lemma ProjectInfoCases(crawler: FileSystemCrawler, filePath: Path, rootPath: Path)
    ensures rootPath <= filePath && (IsAbsolute(rootPath) <==> IsAbsolute(filePath))
            && |filePath| >= |rootPath| + 2 ==>
              crawler.ExtractProjectInfo(filePath, rootPath) == filePath[|rootPath|]
    ensures rootPath <= filePath && |filePath| <= |rootPath| + 1 ==>
              crawler.ExtractProjectInfo(filePath, rootPath) == "Unknown"
    ensures !(rootPath <= filePath) ==> crawler.ExtractProjectInfo(filePath, rootPath) == "Unknown"
    ensures rootPath == [] && IsAbsolute(filePath) ==> crawler.ExtractProjectInfo(filePath, rootPath) == "Unknown"
  {
  }

  lemma ProjectInfoExamples(crawler: FileSystemCrawler)
    ensures crawler.ExtractProjectInfo(["/", "projects", "ProjectA", "parts", "bracket.stl"], ["/", "projects"]) == "ProjectA"
    ensures crawler.ExtractProjectInfo(["/", "engineering", "VehicleDesign", "chassis", "frame.stl"], ["/", "engineering"]) == "VehicleDesign"
    ensures crawler.ExtractProjectInfo(["/", "parts", "bracket.stl"], ["/", "parts"]) == "Unknown"
  {
  }

  /** The empty root (Path(".")) holds relative files only. */
  lemma EmptyRootProjectInfo(crawler: FileSystemCrawler)
    ensures crawler.ExtractProjectInfo(["/", "projects", "A", "b.stl"], []) == "Unknown"
    ensures crawler.ExtractProjectInfo(["//", "projects", "A", "b.stl"], []) == "Unknown"
    ensures crawler.ExtractProjectInfo(["projects", "A", "b.stl"], []) == "projects"
  {
  }

  /** Under a root with the two-slash anchor, the project is found as usual. */
  lemma DoubleSlashProjectInfo(crawler: FileSystemCrawler)
    ensures crawler.ExtractProjectInfo(["//", "projects", "A", "b.stl"], ["//", "projects"]) == "A"
  {
  }
}
