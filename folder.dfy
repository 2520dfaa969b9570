/** src/folder.rs: which paths a folder scan hands on. The directory walk
    itself belongs to the `ignore` crate; what is modelled is the scanner's
    construction, its path filters and the per-entry decision applied to
    the entries the walk yields. */
module Folder {
  import opened Util
  import opened RegexEngine
  import Lib

  /** The options the scanner consults. */
  datatype ScanOptions = ScanOptions(
    outputOnly: Option<Lib.OutputOnly>,
    caseSensitive: bool,
    searchBinaryFiles: bool,
    extensions: seq<string>,
    includePatterns: seq<string>,
    excludePatterns: seq<string>)

  /** What `DirEntry::file_type` reports. */
  datatype FileKind = RegularFile | Directory | OtherKind

  /** A walked path: its display form, its extension (`Path::extension`)
      and its UTF-8 bytes when it is valid UTF-8 (`Path::to_str`). */
  datatype PathInfo = PathInfo(path: string, extension: Option<string>, text: Option<Bytes>)

  /** One item of the walk: an error, or an entry with its file type if
      the walk could get it, its path and its debug rendering. */
  datatype WalkEntry = WalkFailed | Walked(fileType: Option<FileKind>, info: PathInfo, debug: string)

  /** `Scanner`: its fields never change after `Scanner::new`. */
  datatype Scanner = Scanner(root: string, options: ScanOptions, includes: seq<Regex>, excludes: seq<Regex>,
                             binaryExtensions: set<string>)

  /** The extensions `all_binary_extensions_` lists, in its order. */
  const BINARY_EXTENSIONS: seq<string> :=
    ["wav", "rlib", "rmeta", "dat", "bin", "exe", "png", "jpg", "jpeg", "pdf", "so", "a", "pyc",
     "zip", "gz", "gzip", "o", "out", "dll"]

  lemma BinaryExtensionsDistinct()
    ensures forall i, j :: 0 <= i < j < |BINARY_EXTENSIONS| ==> BINARY_EXTENSIONS[i] != BINARY_EXTENSIONS[j]
  {
  }

  /** No listed extension repeats one listed before it. */
  lemma BinaryExtensionNew(i: nat)
    requires i < |BINARY_EXTENSIONS|
    ensures BINARY_EXTENSIONS[i] !in BINARY_EXTENSIONS[..i]
  {
    BinaryExtensionsDistinct();
    forall j | 0 <= j < i
      ensures BINARY_EXTENSIONS[..i][j] != BINARY_EXTENSIONS[i]
    {
      assert BINARY_EXTENSIONS[..i][j] == BINARY_EXTENSIONS[j];
    }
  }

  /** `all_binary_extensions_`: the set of exactly the 19 listed extensions. */
  method AllBinaryExtensions() returns (exts: set<string>)
    ensures forall e :: e in exts <==> e in BINARY_EXTENSIONS
    ensures |exts| == 19
  {
    exts := {};
    for i := 0 to |BINARY_EXTENSIONS|
      invariant forall e :: e in exts <==> e in BINARY_EXTENSIONS[..i]
      invariant |exts| == i
    {
      BinaryExtensionNew(i);
      exts := exts + {BINARY_EXTENSIONS[i]};
      assert BINARY_EXTENSIONS[..i + 1] == BINARY_EXTENSIONS[..i] + [BINARY_EXTENSIONS[i]];
    }
    assert BINARY_EXTENSIONS[..|BINARY_EXTENSIONS|] == BINARY_EXTENSIONS;
  }

  // ---------------------------------------------------------------------
  // `Scanner::new`
  // ---------------------------------------------------------------------

  function InvalidRegex(pattern: string): Error
  {
    Error("'" + pattern + "' is not a valid Regex")
  }

  /** Compiling `patterns` in order with `compile`, the library's
      `RegexBuilder` with its case-insensitivity flag, stopping at the
      first pattern that does not compile. */
  function CompileAll(patterns: seq<string>, caseInsensitive: bool, compile: (string, bool) -> Option<Regex>)
    : Result<seq<Regex>>
    decreases |patterns|
  {
    if patterns == [] then Ok([])
    else
      var n := |patterns| - 1;
      match CompileAll(patterns[..n], caseInsensitive, compile)
      case Err(e) => Err(e)
      case Ok(v) =>
        match compile(patterns[n], caseInsensitive)
        case None => Err(InvalidRegex(patterns[n]))
        case Some(re) => Ok(v + [re])
  }

  /** Compiling succeeds iff every pattern compiles, and then yields one
      expression per pattern, in order. */
  lemma {:induction false} CompileAllOk(patterns: seq<string>, caseInsensitive: bool, compile: (string, bool) -> Option<Regex>)
    ensures var r := CompileAll(patterns, caseInsensitive, compile);
      (r.Ok? <==> forall k :: 0 <= k < |patterns| ==> compile(patterns[k], caseInsensitive).Some?)
      && (r.Ok? ==>
            |r.value| == |patterns|
            && forall k :: 0 <= k < |patterns| ==> compile(patterns[k], caseInsensitive) == Some(r.value[k]))
    decreases |patterns|
  {
    if patterns != [] {
      var n := |patterns| - 1;
      var front := patterns[..n];
      assert forall k :: 0 <= k < n ==> front[k] == patterns[k];
      CompileAllOk(front, caseInsensitive, compile);
      var rf := CompileAll(front, caseInsensitive, compile);
      var r := CompileAll(patterns, caseInsensitive, compile);
      if rf.Err? {
        assert r == rf;
        assert !forall k :: 0 <= k < n ==> compile(front[k], caseInsensitive).Some?;
      } else if compile(patterns[n], caseInsensitive).None? {
        assert r.Err?;
      } else {
        var re := compile(patterns[n], caseInsensitive).value;
        assert r == Ok(rf.value + [re]);
        forall k | 0 <= k < |patterns|
          ensures compile(patterns[k], caseInsensitive) == Some(r.value[k])
        {
          if k < n {
            assert r.value[k] == rf.value[k];
          }
        }
      }
    }
  }

  /** A failed compilation names the first pattern that does not compile. */
  lemma {:induction false} CompileAllErr(patterns: seq<string>, caseInsensitive: bool, compile: (string, bool) -> Option<Regex>)
    ensures var r := CompileAll(patterns, caseInsensitive, compile);
      r.Err? ==>
        exists k :: (0 <= k < |patterns| && compile(patterns[k], caseInsensitive).None?
          && (forall j :: 0 <= j < k ==> compile(patterns[j], caseInsensitive).Some?)
          && r.error == InvalidRegex(patterns[k]))
    decreases |patterns|
  {
    if patterns != [] {
      var n := |patterns| - 1;
      var front := patterns[..n];
      assert forall k :: 0 <= k < n ==> front[k] == patterns[k];
      CompileAllErr(front, caseInsensitive, compile);
      var rf := CompileAll(front, caseInsensitive, compile);
      var r := CompileAll(patterns, caseInsensitive, compile);
      if rf.Err? {
        assert r == rf;
        var k :| 0 <= k < n && compile(front[k], caseInsensitive).None?
          && (forall j :: 0 <= j < k ==> compile(front[j], caseInsensitive).Some?)
          && rf.error == InvalidRegex(front[k]);
        assert 0 <= k < |patterns| && compile(patterns[k], caseInsensitive).None?
          && (forall j :: 0 <= j < k ==> compile(patterns[j], caseInsensitive).Some?)
          && r.error == InvalidRegex(patterns[k]);
      } else if compile(patterns[n], caseInsensitive).None? {
        CompileAllOk(front, caseInsensitive, compile);
        assert r == Err(InvalidRegex(patterns[n]));
        assert forall j :: 0 <= j < n ==> compile(patterns[j], caseInsensitive).Some?;
      }
    }
  }

  /** One of the two pattern loops of `Scanner::new`. */
  method CompilePatterns(patterns: seq<string>, caseInsensitive: bool, compile: (string, bool) -> Option<Regex>)
    returns (r: Result<seq<Regex>>)
    ensures r == CompileAll(patterns, caseInsensitive, compile)
  {
    var v: seq<Regex> := [];
    for i := 0 to |patterns|
      invariant CompileAll(patterns[..i], caseInsensitive, compile) == Ok(v)
    {
      assert patterns[..i + 1][..i] == patterns[..i];
      match compile(patterns[i], caseInsensitive)
      case None =>
        CompileErrorPersists(patterns, caseInsensitive, compile, i + 1);
        return Err(InvalidRegex(patterns[i]));
      case Some(re) =>
        v := v + [re];
    }
    assert patterns[..|patterns|] == patterns;
    return Ok(v);
  }

  /** Once a prefix of the patterns fails to compile, so do all of them, with the same error. */
  lemma {:induction false} CompileErrorPersists(patterns: seq<string>, caseInsensitive: bool,
                                                compile: (string, bool) -> Option<Regex>, i: nat)
    requires i <= |patterns| && CompileAll(patterns[..i], caseInsensitive, compile).Err?
    ensures CompileAll(patterns, caseInsensitive, compile) == CompileAll(patterns[..i], caseInsensitive, compile)
    decreases |patterns| - i
  {
    if i < |patterns| {
      assert patterns[..i + 1][..i] == patterns[..i];
      CompileErrorPersists(patterns, caseInsensitive, compile, i + 1);
    } else {
      assert patterns[..i] == patterns;
    }
  }

  /** `Scanner::new`: the include patterns, then the exclude patterns, are
      compiled case-insensitively unless the search is case sensitive; the
      first invalid one is the error. */
  method NewScanner(root: string, options: ScanOptions, compile: (string, bool) -> Option<Regex>)
    returns (r: Result<Scanner>)
    ensures var inc := CompileAll(options.includePatterns, !options.caseSensitive, compile);
      var exc := CompileAll(options.excludePatterns, !options.caseSensitive, compile);
      if inc.Err? then r == Err(inc.error)
      else if exc.Err? then r == Err(exc.error)
      else (r.Ok? && r.value.root == root && r.value.options == options
        && r.value.includes == inc.value && r.value.excludes == exc.value
        && (forall e :: e in r.value.binaryExtensions <==> e in BINARY_EXTENSIONS))
  {
    var binary := AllBinaryExtensions();
    var includes := CompilePatterns(options.includePatterns, !options.caseSensitive, compile);
    if includes.Err? {
      return Err(includes.error);
    }
    var excludes := CompilePatterns(options.excludePatterns, !options.caseSensitive, compile);
    if excludes.Err? {
      return Err(excludes.error);
    }
    return Ok(Scanner(root, options, includes.value, excludes.value, binary));
  }

  // ---------------------------------------------------------------------
  // The filters
  // ---------------------------------------------------------------------

  /** `any` over the allow-list: some entry is `ext` or `"." + ext`. */
  function AnyAllowed(allowed: seq<string>, ext: string): (b: bool)
    ensures b <==> exists k :: 0 <= k < |allowed| && (allowed[k] == ext || allowed[k] == "." + ext)
    decreases |allowed|
  {
    if allowed == [] then false
    else allowed[0] == ext || allowed[0] == "." + ext || AnyAllowed(allowed[1..], ext)
  }

  /** `extension_ok_`. */
  function ExtensionOk(extension: Option<string>, binary: set<string>, searchBinaryFiles: bool, allowed: seq<string>)
    : (ok: bool)
    ensures extension.Some? && extension.value in binary && !searchBinaryFiles ==> !ok
    ensures extension.Some? && (extension.value !in binary || searchBinaryFiles) && allowed != [] ==>
      (ok <==> exists k :: 0 <= k < |allowed| && (allowed[k] == extension.value || allowed[k] == "." + extension.value))
    ensures extension.Some? && (extension.value !in binary || searchBinaryFiles) && allowed == [] ==> ok
    ensures extension.None? ==> (ok <==> allowed == [])
  {
    match extension
    case Some(ext) =>
      if ext in binary && !searchBinaryFiles then false
      else if allowed != [] && !AnyAllowed(allowed, ext) then false
      else true
    case None =>
      allowed == []
  }

  /** `all` of the include expressions match `s`. */
  function AllMatch(res: seq<Regex>, s: Bytes): (b: bool)
    ensures b <==> forall k :: 0 <= k < |res| ==> res[k].isMatch(s)
    decreases |res|
  {
    if res == [] then true else res[0].isMatch(s) && AllMatch(res[1..], s)
  }

  /** `any` of the exclude expressions matches `s`. */
  function AnyMatch(res: seq<Regex>, s: Bytes): (b: bool)
    ensures b <==> exists k :: 0 <= k < |res| && res[k].isMatch(s)
    decreases |res|
  {
    if res == [] then false else res[0].isMatch(s) || AnyMatch(res[1..], s)
  }

  /** `name_ok_`: a path that is not UTF-8 is kept (after a warning). */
  function NameOk(text: Option<Bytes>, includes: seq<Regex>, excludes: seq<Regex>): (ok: bool)
    ensures text.None? ==> ok
    ensures text.Some? ==> (ok <==>
      (forall k :: 0 <= k < |includes| ==> includes[k].isMatch(text.value))
      && !(exists k :: 0 <= k < |excludes| && excludes[k].isMatch(text.value)))
  {
    match text
    case None => true
    case Some(s) =>
      if !AllMatch(includes, s) then false
      else if AnyMatch(excludes, s) then false
      else true
  }

  /** The `do_add_path` decision of `walk_` for one entry. */
  function DoAddPath(s: Scanner, kind: FileKind, info: PathInfo): (add: bool)
    ensures s.options.outputOnly == Some(Lib.Folders) ==>
      (add <==> kind == Directory && NameOk(info.text, s.includes, s.excludes))
    ensures s.options.outputOnly != Some(Lib.Folders) ==>
      (add <==> (kind == RegularFile
        && ExtensionOk(info.extension, s.binaryExtensions, s.options.searchBinaryFiles, s.options.extensions)
        && NameOk(info.text, s.includes, s.excludes)))
  {
    match s.options.outputOnly
    case None =>
      kind == RegularFile && ExtensionOk(info.extension, s.binaryExtensions, s.options.searchBinaryFiles, s.options.extensions)
        && NameOk(info.text, s.includes, s.excludes)
    case Some(Match) =>
      kind == RegularFile && ExtensionOk(info.extension, s.binaryExtensions, s.options.searchBinaryFiles, s.options.extensions)
        && NameOk(info.text, s.includes, s.excludes)
    case Some(Filenames) =>
      kind == RegularFile && ExtensionOk(info.extension, s.binaryExtensions, s.options.searchBinaryFiles, s.options.extensions)
        && NameOk(info.text, s.includes, s.excludes)
    case Some(Folders) =>
      kind == Directory && NameOk(info.text, s.includes, s.excludes)
  }

  // ---------------------------------------------------------------------
  // `scan` / `walk_` over the entries the walk yields
  // ---------------------------------------------------------------------

  function NoFileType(debug: string): Error
  {
    Error("Could not get file type for '" + debug + "'")
  }

  /** The paths `scan` collects from `entries`: walk errors are skipped, an
      entry without a file type fails the scan, and an entry is kept when
      `DoAddPath` holds. */
  function Collected(s: Scanner, entries: seq<WalkEntry>): Result<seq<string>>
    decreases |entries|
  {
    if entries == [] then Ok([])
    else
      var n := |entries| - 1;
      match Collected(s, entries[..n])
      case Err(e) => Err(e)
      case Ok(paths) =>
        match entries[n]
        case WalkFailed => Ok(paths)
        case Walked(fileType, info, debug) =>
          match fileType
          case None => Err(NoFileType(debug))
          case Some(kind) => if DoAddPath(s, kind, info) then Ok(paths + [info.path]) else Ok(paths)
  }

  /** Once a prefix of the entries fails the scan, the whole scan fails with that error. */
  lemma {:induction false} CollectedErrorPersists(s: Scanner, entries: seq<WalkEntry>, i: nat)
    requires i <= |entries| && Collected(s, entries[..i]).Err?
    ensures Collected(s, entries) == Collected(s, entries[..i])
    decreases |entries| - i
  {
    if i < |entries| {
      assert entries[..i + 1][..i] == entries[..i];
      CollectedErrorPersists(s, entries, i + 1);
    } else {
      assert entries[..i] == entries;
    }
  }

  /** `scan`: `walk_` over the entries, pushing each accepted path. */
  method Scan(s: Scanner, entries: seq<WalkEntry>) returns (r: Result<seq<string>>)
    ensures r == Collected(s, entries)
  {
    var paths: seq<string> := [];
    for i := 0 to |entries|
      invariant Collected(s, entries[..i]) == Ok(paths)
    {
      assert entries[..i + 1][..i] == entries[..i];
      match entries[i]
      case WalkFailed =>
      case Walked(fileType, info, debug) =>
        match fileType
        case None =>
          CollectedErrorPersists(s, entries, i + 1);
          return Err(NoFileType(debug));
        case Some(kind) =>
          if DoAddPath(s, kind, info) {
            paths := paths + [info.path];
          }
    }
    assert entries[..|entries|] == entries;
    return Ok(paths);
  }

  /** The scan fails exactly when some entry has no file type. */
  lemma {:induction false} ScanFailsIffNoFileType(s: Scanner, entries: seq<WalkEntry>)
    ensures Collected(s, entries).Err? <==>
      exists k :: 0 <= k < |entries| && entries[k].Walked? && entries[k].fileType.None?
    decreases |entries|
  {
    if entries != [] {
      var n := |entries| - 1;
      ScanFailsIffNoFileType(s, entries[..n]);
      assert forall k :: 0 <= k < n ==> entries[..n][k] == entries[k];
    }
  }

  /** Every collected path comes from an entry of the walk that passes `DoAddPath`. */
  lemma {:induction false} CollectedPathsPass(s: Scanner, entries: seq<WalkEntry>)
    requires Collected(s, entries).Ok?
    ensures var paths := Collected(s, entries).value;
      forall p :: 0 <= p < |paths| ==> (exists k :: (0 <= k < |entries| && entries[k].Walked?
        && entries[k].fileType.Some? && entries[k].info.path == paths[p]
        && DoAddPath(s, entries[k].fileType.value, entries[k].info)))
    decreases |entries|
  {
    if entries != [] {
      var n := |entries| - 1;
      CollectedPathsPass(s, entries[..n]);
      var front := Collected(s, entries[..n]).value;
      var paths := Collected(s, entries).value;
      forall p | 0 <= p < |paths|
        ensures (exists k :: (0 <= k < |entries| && entries[k].Walked?
          && entries[k].fileType.Some? && entries[k].info.path == paths[p]
          && DoAddPath(s, entries[k].fileType.value, entries[k].info)))
      {
        if p < |front| {
          var k :| 0 <= k < n && entries[..n][k].Walked?
            && entries[..n][k].fileType.Some? && entries[..n][k].info.path == front[p]
            && DoAddPath(s, entries[..n][k].fileType.value, entries[..n][k].info);
          assert entries[k] == entries[..n][k];
        } else {
          assert entries[n].Walked?;
        }
      }
    }
  }

  /** Every entry that passes `DoAddPath` is collected when the scan succeeds. */
  lemma {:induction false} PassingEntriesCollected(s: Scanner, entries: seq<WalkEntry>, k: nat)
    requires Collected(s, entries).Ok? && k < |entries| && entries[k].Walked? && entries[k].fileType.Some?
    requires DoAddPath(s, entries[k].fileType.value, entries[k].info)
    ensures entries[k].info.path in Collected(s, entries).value
    decreases |entries|
  {
    var n := |entries| - 1;
    if k < n {
      assert entries[..n][k] == entries[k];
      PassingEntriesCollected(s, entries[..n], k);
    }
  }

  /** In folder mode no extension filter applies: a directory whose
      extension is binary or not allowed is still kept. */
  lemma FoldersIgnoreExtensions(s: Scanner, info: PathInfo)
    requires s.options.outputOnly == Some(Lib.Folders) && s.includes == [] && s.excludes == []
    requires !ExtensionOk(info.extension, s.binaryExtensions, s.options.searchBinaryFiles, s.options.extensions)
    ensures DoAddPath(s, Directory, info)
    ensures !DoAddPath(s, RegularFile, info)
  {
  }
}
