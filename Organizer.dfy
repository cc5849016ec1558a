/**
 * organizer.py: the extension table and its lookup, and the three sorting
 * passes (by type, by modification date, by project rule). Moving a file is
 * the oracle `moveFile(source, destination)`; the date folder of a
 * timestamp is the oracle `dateFolder`.
 */
module Organizer {
  import opened Base
  import opened Text
  import opened Dict
  import opened PathNames
  import opened Utils

  // ----- categories -----

  /** `CATEGORY_MAPPINGS`, in its insertion order. */
  const CategoryMappings: seq<(string, seq<string>)> := [
    ("Documents", [".pdf", ".doc", ".docx", ".txt", ".rtf", ".odt", ".xls",
                   ".xlsx", ".ppt", ".pptx", ".csv", ".md"]),
    ("Images", [".jpg", ".jpeg", ".png", ".gif", ".bmp", ".svg", ".ico",
                ".webp", ".tiff", ".tif"]),
    ("Videos", [".mp4", ".avi", ".mkv", ".mov", ".wmv", ".flv", ".webm",
                ".m4v", ".mpg", ".mpeg"]),
    ("Audio", [".mp3", ".wav", ".flac", ".aac", ".ogg", ".wma", ".m4a",
               ".opus"]),
    ("Archives", [".zip", ".rar", ".7z", ".tar", ".gz", ".bz2", ".xz",
                  ".iso"])
  ]

  const Others: string := "Others"

  /** The first category of `table` whose list holds `ext`. */
  function Lookup(table: seq<(string, seq<string>)>, ext: string): (r: Option<string>)
    ensures r.None? <==> forall i :: 0 <= i < |table| ==> ext !in table[i].1
    ensures r.Some? ==> exists i :: 0 <= i < |table| && ext in table[i].1 && r.value == table[i].0
                                    && forall j :: 0 <= j < i ==> ext !in table[j].1
  {
    if table == [] then None
    else if ext in table[0].1 then Some(table[0].0)
    else
      var r := Lookup(table[1..], ext);
      assert forall i :: 1 <= i < |table| ==> table[i] == table[1..][i - 1];
      r
  }

  /** No string of `a` is in `b`. */
  predicate ListsApart(a: seq<string>, b: seq<string>)
  {
    forall k :: 0 <= k < |a| ==> a[k] !in b
  }

  lemma DocumentsApartFromImagesVideos()
    ensures ListsApart(CategoryMappings[0].1, CategoryMappings[1].1)
    ensures ListsApart(CategoryMappings[0].1, CategoryMappings[2].1)
  {
  }

  lemma DocumentsApartFromAudioArchives()
    ensures ListsApart(CategoryMappings[0].1, CategoryMappings[3].1)
    ensures ListsApart(CategoryMappings[0].1, CategoryMappings[4].1)
  {
  }

  lemma ImagesApartFromVideos()
    ensures ListsApart(CategoryMappings[1].1, CategoryMappings[2].1)
  {
  }

  lemma ImagesApartFromAudioArchives()
    ensures ListsApart(CategoryMappings[1].1, CategoryMappings[3].1)
    ensures ListsApart(CategoryMappings[1].1, CategoryMappings[4].1)
  {
  }

  lemma VideosApartFromAudioArchives()
    ensures ListsApart(CategoryMappings[2].1, CategoryMappings[3].1)
    ensures ListsApart(CategoryMappings[2].1, CategoryMappings[4].1)
  {
  }

  lemma AudioApartFromArchives()
    ensures ListsApart(CategoryMappings[3].1, CategoryMappings[4].1)
  {
  }

  /** No extension is listed under two categories. */
  lemma CategoryListsDisjoint()
    ensures forall i, j, e :: 0 <= i < j < |CategoryMappings| && e in CategoryMappings[i].1 ==> e !in CategoryMappings[j].1
  {
    DocumentsApartFromImagesVideos();
    DocumentsApartFromAudioArchives();
    ImagesApartFromVideos();
    ImagesApartFromAudioArchives();
    VideosApartFromAudioArchives();
    AudioApartFromArchives();
    forall i, j, e | 0 <= i < j < |CategoryMappings| && e in CategoryMappings[i].1
      ensures e !in CategoryMappings[j].1
    {
      assert ListsApart(CategoryMappings[i].1, CategoryMappings[j].1);
      var k :| 0 <= k < |CategoryMappings[i].1| && CategoryMappings[i].1[k] == e;
    }
  }

  /**
   * `get_file_category`: the category listing the lower-cased extension,
   * `Others` when none does.
   */
  function GetFileCategory(extension: string): (c: string)
    ensures c == Others <==> forall i :: 0 <= i < |CategoryMappings| ==> ToLower(extension) !in CategoryMappings[i].1
    ensures forall i :: 0 <= i < |CategoryMappings| && ToLower(extension) in CategoryMappings[i].1 ==> c == CategoryMappings[i].0
  {
    CategoryListsDisjoint();
    match Lookup(CategoryMappings, ToLower(extension))
    case Some(c) => c
    case None => Others
  }

  /** Lower-casing leaves a string without capitals as it is. */
  lemma ToLowerOfLower(s: string)
    requires forall k :: 0 <= k < |s| ==> !IsUpperChar(s[k])
    ensures ToLower(s) == s
  {
  }

  lemma GetFileCategoryExamples()
    ensures GetFileCategory(".pdf") == "Documents"
    ensures GetFileCategory(".unknown") == Others
  {
    ToLowerOfLower(".pdf");
    assert CategoryMappings[0].1[0] == ".pdf";
    ToLowerOfLower(".unknown");
    forall i | 0 <= i < |CategoryMappings|
      ensures ".unknown" !in CategoryMappings[i].1
    {
      assert forall e :: e in CategoryMappings[i].1 ==> |e| < 8;
    }
  }

  // ----- moving files -----

  /** A file record as the scan produces it. */
  datatype FileEntry = FileEntry(path: string, name: string, category: string, modified: int)

  /** The `summary` entry of the result; `NoSummary` is the empty dictionary of an early return. */
  datatype Summary =
    | NoSummary
    | ByCategory(byCategory: seq<(string, nat)>, totalFiles: nat)
    | ByDate(byDate: seq<(string, nat)>, totalFiles: nat)
    | ByProject(byProject: seq<(string, nat)>, unmatched: nat, totalFiles: nat)

  datatype OrganizeResult = OrganizeResult(success: bool, processed: nat, errors: seq<string>, summary: Summary)

  /** `processed` and `errors` so far, and the moves requested from `move_file_safely`, in order. */
  datatype Progress = Progress(processed: nat, errors: seq<string>, moves: seq<(string, string)>)

  /** `str(Path(target_dir) / folder / filename)`. */
  function Destination(targetDir: string, folder: string, name: string): string
  {
    PathStr(Div(Div(PathOf(targetDir), folder), name))
  }

  /** For a target in normal form and plain folder and file names, the destination is the three joined by slashes. */
  lemma DestinationPlain(targetDir: string, folder: string, name: string)
    requires Normal(targetDir) && IsPart(folder) && IsPart(name)
    ensures Destination(targetDir, folder, name) == targetDir + "/" + folder + "/" + name
  {
    PartsOfPart(folder);
    PartsOfPart(name);
    var p0 := PathOf(targetDir);
    PathStrSnoc(p0, folder);
    PathStrSnoc(PurePath(p0.absolute, p0.parts + [folder]), name);
  }

  /** An absolute folder, such as a project mapped to `/tmp`, replaces the target directory. */
  lemma DestinationAbsoluteFolder(targetDir: string, folder: string, name: string)
    requires IsAbsolute(folder) && Normal(folder) && IsPart(name)
    ensures Destination(targetDir, folder, name) == folder + "/" + name
  {
    PartsOfPart(name);
    PathStrSnoc(PathOf(folder), name);
  }

  /** A trailing slash on the target directory makes no difference. */
  lemma DestinationTrailingSlash(targetDir: string, folder: string, name: string)
    requires targetDir != ""
    ensures Destination(targetDir + "/", folder, name) == Destination(targetDir, folder, name)
  {
    PathOfTrailingSlash(targetDir);
  }

  function MoveError(name: string): string
  {
    "Failed to move: " + name
  }

  function InvalidTarget(targetDir: string): OrganizeResult
  {
    OrganizeResult(false, 0, ["Invalid target directory: " + targetDir], NoSummary)
  }

  /** The destination of each file, `files[i]` under `folders[i]`. */
  function Destinations(files: seq<FileEntry>, folders: seq<string>, targetDir: string): (ds: seq<string>)
    requires |files| == |folders|
    ensures |ds| == |files| && forall i :: 0 <= i < |files| ==> ds[i] == Destination(targetDir, folders[i], files[i].name)
  {
    seq(|files|, i requires 0 <= i < |files| => Destination(targetDir, folders[i], files[i].name))
  }

  /** One file sent to `dest`: counted in preview mode, else moved and counted or reported. */
  function Place(p: Progress, f: FileEntry, dest: string, preview: bool, moveFile: (string, string) -> bool): Progress
  {
    if preview then p.(processed := p.processed + 1)
    else
      var p' := p.(moves := p.moves + [(f.path, dest)]);
      if moveFile(f.path, dest) then p'.(processed := p.processed + 1)
      else p'.(errors := p.errors + [MoveError(f.name)])
  }

  /** Every file placed in turn, `files[i]` to `dests[i]`. */
  function PlaceAll(files: seq<FileEntry>, dests: seq<string>, preview: bool, moveFile: (string, string) -> bool): Progress
    requires |files| == |dests|
  {
    if files == [] then Progress(0, [], [])
    else
      var n := |files| - 1;
      Place(PlaceAll(files[..n], dests[..n], preview, moveFile), files[n], dests[n], preview, moveFile)
  }

  /** One placement adds one file to the processed or reported ones and, in execute mode, requests its one move. */
  lemma PlaceStep(p: Progress, f: FileEntry, dest: string, preview: bool, moveFile: (string, string) -> bool)
    ensures var q := Place(p, f, dest, preview, moveFile);
      && q.processed + |q.errors| == p.processed + |p.errors| + 1
      && (preview ==> q.processed == p.processed + 1 && q.errors == p.errors && q.moves == p.moves)
      && (!preview ==> q.moves == p.moves + [(f.path, dest)])
  {
  }

  /**
   * Every file is either processed or reported, never both; preview mode
   * processes every file and requests no move; execute mode requests
   * exactly one move per file, in order.
   */
  lemma {:induction false} PlaceAllCounts(files: seq<FileEntry>, dests: seq<string>, preview: bool,
                                          moveFile: (string, string) -> bool)
    requires |files| == |dests|
    ensures var p := PlaceAll(files, dests, preview, moveFile);
      && p.processed + |p.errors| == |files|
      && (preview ==> p.processed == |files| && p.errors == [] && p.moves == [])
      && (!preview ==> |p.moves| == |files| && forall i :: 0 <= i < |files| ==> p.moves[i] == (files[i].path, dests[i]))
  {
    if files != [] {
      var n := |files| - 1;
      PlaceAllCounts(files[..n], dests[..n], preview, moveFile);
      var p0 := PlaceAll(files[..n], dests[..n], preview, moveFile);
      PlaceStep(p0, files[n], dests[n], preview, moveFile);
      if !preview {
        var p := PlaceAll(files, dests, preview, moveFile);
        assert p.moves == p0.moves + [(files[n].path, dests[n])];
        forall i | 0 <= i < n
          ensures p.moves[i] == (files[i].path, dests[i])
        {
          assert p0.moves[i] == (files[..n][i].path, dests[..n][i]);
        }
      }
    }
  }

  /** The move of file `i` is requested and fails. */
  predicate MoveFails(files: seq<FileEntry>, dests: seq<string>, preview: bool, moveFile: (string, string) -> bool, i: int)
    requires 0 <= i < |files| == |dests|
  {
    !preview && !moveFile(files[i].path, dests[i])
  }

  lemma PlaceErrors(p: Progress, f: FileEntry, dest: string, preview: bool, moveFile: (string, string) -> bool)
    ensures Place(p, f, dest, preview, moveFile).errors
         == p.errors + if !preview && !moveFile(f.path, dest) then [MoveError(f.name)] else []
  {
  }

  lemma MoveFailsPrefix(files: seq<FileEntry>, dests: seq<string>, preview: bool, moveFile: (string, string) -> bool,
                        n: nat, i: nat)
    requires i < n <= |files| == |dests|
    ensures files[..n][i] == files[i]
    ensures MoveFails(files[..n], dests[..n], preview, moveFile, i) == MoveFails(files, dests, preview, moveFile, i)
  {
    assert dests[..n][i] == dests[i];
  }

  lemma {:induction false} PlaceAllErrorsSound(files: seq<FileEntry>, dests: seq<string>, preview: bool,
                                               moveFile: (string, string) -> bool)
    requires |files| == |dests|
    ensures var p := PlaceAll(files, dests, preview, moveFile);
      forall e :: e in p.errors ==> exists i :: 0 <= i < |files| && MoveFails(files, dests, preview, moveFile, i)
                                      && e == MoveError(files[i].name)
  {
    if files != [] {
      var n := |files| - 1;
      var fs, ds := files[..n], dests[..n];
      PlaceAllErrorsSound(fs, ds, preview, moveFile);
      var p0 := PlaceAll(fs, ds, preview, moveFile);
      var p := PlaceAll(files, dests, preview, moveFile);
      PlaceErrors(p0, files[n], dests[n], preview, moveFile);
      assert forall e' :: e' in PlaceAll(fs, ds, preview, moveFile).errors ==>
        exists i :: 0 <= i < |fs| && MoveFails(fs, ds, preview, moveFile, i) && e' == MoveError(fs[i].name);
      forall e | e in p.errors
        ensures exists i :: 0 <= i < |files| && MoveFails(files, dests, preview, moveFile, i)
                            && e == MoveError(files[i].name)
      {
        if e in p0.errors {
          var i :| 0 <= i < |fs| && MoveFails(fs, ds, preview, moveFile, i) && e == MoveError(fs[i].name);
          MoveFailsPrefix(files, dests, preview, moveFile, n, i);
        } else {
          assert MoveFails(files, dests, preview, moveFile, n) && e == MoveError(files[n].name);
        }
      }
    }
  }

  lemma {:induction false} PlaceAllErrorsComplete(files: seq<FileEntry>, dests: seq<string>, preview: bool,
                                                  moveFile: (string, string) -> bool)
    requires |files| == |dests|
    ensures var p := PlaceAll(files, dests, preview, moveFile);
      forall i :: 0 <= i < |files| && MoveFails(files, dests, preview, moveFile, i) ==> MoveError(files[i].name) in p.errors
  {
    if files != [] {
      var n := |files| - 1;
      var fs, ds := files[..n], dests[..n];
      PlaceAllErrorsComplete(fs, ds, preview, moveFile);
      var p0 := PlaceAll(fs, ds, preview, moveFile);
      var p := PlaceAll(files, dests, preview, moveFile);
      PlaceErrors(p0, files[n], dests[n], preview, moveFile);
      forall i | 0 <= i < |files| && MoveFails(files, dests, preview, moveFile, i)
        ensures MoveError(files[i].name) in p.errors
      {
        if i < n {
          MoveFailsPrefix(files, dests, preview, moveFile, n, i);
          assert MoveError(fs[i].name) in p0.errors;
        }
      }
    }
  }

  /**
   * In execute mode the errors are exactly the failures: each one names a
   * file whose move failed, and each failed move leaves its error.
   */
  lemma PlaceAllErrors(files: seq<FileEntry>, dests: seq<string>, preview: bool, moveFile: (string, string) -> bool)
    requires |files| == |dests|
    ensures var p := PlaceAll(files, dests, preview, moveFile);
      && (forall e :: e in p.errors ==> exists i :: 0 <= i < |files| && !preview && e == MoveError(files[i].name)
                                            && !moveFile(files[i].path, dests[i]))
      && (forall i :: 0 <= i < |files| && !preview && !moveFile(files[i].path, dests[i])
            ==> MoveError(files[i].name) in p.errors)
  {
    PlaceAllErrorsSound(files, dests, preview, moveFile);
    PlaceAllErrorsComplete(files, dests, preview, moveFile);
  }

  /** `PlaceAll` one file further. */
  lemma PlaceAllSnoc(files: seq<FileEntry>, dests: seq<string>, i: nat, preview: bool, moveFile: (string, string) -> bool)
    requires i < |files| == |dests|
    ensures PlaceAll(files[..i + 1], dests[..i + 1], preview, moveFile)
         == Place(PlaceAll(files[..i], dests[..i], preview, moveFile), files[i], dests[i], preview, moveFile)
  {
    assert files[..i + 1][..i] == files[..i];
    assert dests[..i + 1][..i] == dests[..i];
  }

  /** The preview-or-move block the three passes share, with the file's destination under `folder`. */
  method PlaceFile(p: Progress, f: FileEntry, folder: string, targetDir: string, preview: bool,
                   moveFile: (string, string) -> bool) returns (q: Progress)
    ensures q == Place(p, f, Destination(targetDir, folder, f.name), preview, moveFile)
  {
    q := p;
    if preview {
      q := q.(processed := q.processed + 1);
    } else {
      var dest := Destination(targetDir, folder, f.name);
      q := q.(moves := q.moves + [(f.path, dest)]);
      if moveFile(f.path, dest) {
        q := q.(processed := q.processed + 1);
      } else {
        q := q.(errors := q.errors + [MoveError(f.name)]);
      }
    }
  }

  // ----- organize_by_type and organize_by_date -----

  function Categories(files: seq<FileEntry>): (ks: seq<string>)
    ensures |ks| == |files| && forall i :: 0 <= i < |files| ==> ks[i] == files[i].category
  {
    seq(|files|, i requires 0 <= i < |files| => files[i].category)
  }

  function Dates(files: seq<FileEntry>, dateFolder: int -> string): (ks: seq<string>)
    ensures |ks| == |files| && forall i :: 0 <= i < |files| ==> ks[i] == dateFolder(files[i].modified)
  {
    seq(|files|, i requires 0 <= i < |files| => dateFolder(files[i].modified))
  }

  /** `TallyOf` of one more key. */
  lemma TallyAppend<K(!new)>(ks: seq<K>, x: K)
    ensures TallyOf(ks + [x]) == Increment(TallyOf(ks), x)
  {
    assert (ks + [x])[..|ks|] == ks;
  }

  /** `TallyOf` one key further. */
  lemma TallySnoc<K(!new)>(ks: seq<K>, i: nat)
    requires i < |ks|
    ensures TallyOf(ks[..i + 1]) == Increment(TallyOf(ks[..i]), ks[i])
  {
    assert ks[..i + 1][..i] == ks[..i];
  }

  /** The folder `folderOf` picks for each file. */
  function FoldersBy(files: seq<FileEntry>, folderOf: FileEntry -> string): (ks: seq<string>)
    ensures |ks| == |files| && forall i :: 0 <= i < |files| ==> ks[i] == folderOf(files[i])
  {
    seq(|files|, i requires 0 <= i < |files| => folderOf(files[i]))
  }

  /**
   * Each file goes to the folder `folderOf` picks, tallied whether or not
   * its move succeeds: the loop shared by `organize_by_type` (the folder is
   * the category) and `organize_by_date` (the folder is the date).
   */
  method SortInto(files: seq<FileEntry>, folderOf: FileEntry -> string, targetDir: string, preview: bool,
                  moveFile: (string, string) -> bool)
    returns (counts: seq<(string, nat)>, p: Progress)
    ensures counts == TallyOf(FoldersBy(files, folderOf))
    ensures p == PlaceAll(files, Destinations(files, FoldersBy(files, folderOf), targetDir), preview, moveFile)
  {
    ghost var keys := FoldersBy(files, folderOf);
    ghost var dests := Destinations(files, keys, targetDir);
    counts := [];
    p := Progress(0, [], []);
    var i := 0;
    while i < |files|
      invariant 0 <= i <= |files|
      invariant counts == TallyOf(keys[..i])
      invariant p == PlaceAll(files[..i], dests[..i], preview, moveFile)
    {
      var f := files[i];
      var folder := folderOf(f);
      TallySnoc(keys, i);
      PlaceAllSnoc(files, dests, i, preview, moveFile);
      counts := Increment(counts, folder);
      p := PlaceFile(p, f, folder, targetDir, preview, moveFile);
      i := i + 1;
    }
    assert files[..|files|] == files && keys[..|keys|] == keys && dests[..|dests|] == dests;
  }

  /**
   * `organize_by_type`. An invalid target returns at once with one error;
   * otherwise the run succeeds, each file is tallied under its category
   * and placed under `targetDir/<category>`.
   */
  method OrganizeByType(files: seq<FileEntry>, targetDir: string, preview: bool,
                        accessibleDir: string -> bool, moveFile: (string, string) -> bool)
    returns (r: OrganizeResult, moves: seq<(string, string)>)
    ensures !ValidatePath(Str(targetDir), accessibleDir) ==> r == InvalidTarget(targetDir) && moves == []
    ensures ValidatePath(Str(targetDir), accessibleDir) ==>
      && r.success
      && r.summary == ByCategory(TallyOf(Categories(files)), |files|)
      && IsTallyOf(r.summary.byCategory, Categories(files))
      && SumValues(r.summary.byCategory) == r.summary.totalFiles == |files|
      && Progress(r.processed, r.errors, moves) == PlaceAll(files, Destinations(files, Categories(files), targetDir), preview, moveFile)
      && r.processed + |r.errors| == |files|
      && (preview ==> r.processed == |files| && moves == [])
  {
    if !ValidatePath(Str(targetDir), accessibleDir) {
      return InvalidTarget(targetDir), [];
    }
    var categoryOf := (f: FileEntry) => f.category;
    var counts, p := SortInto(files, categoryOf, targetDir, preview, moveFile);
    assert FoldersBy(files, categoryOf) == Categories(files);
    TallyOfCounts(Categories(files));
    PlaceAllCounts(files, Destinations(files, Categories(files), targetDir), preview, moveFile);
    r := OrganizeResult(true, p.processed, p.errors, ByCategory(counts, |files|));
    moves := p.moves;
  }

  /**
   * `organize_by_date`: as `OrganizeByType`, with the folder of each file
   * `dateFolder(modified)` (the `'%Y-%m-%d'` rendering of its timestamp).
   */
  method OrganizeByDate(files: seq<FileEntry>, targetDir: string, preview: bool,
                        accessibleDir: string -> bool, moveFile: (string, string) -> bool, dateFolder: int -> string)
    returns (r: OrganizeResult, moves: seq<(string, string)>)
    ensures !ValidatePath(Str(targetDir), accessibleDir) ==> r == InvalidTarget(targetDir) && moves == []
    ensures ValidatePath(Str(targetDir), accessibleDir) ==>
      && r.success
      && r.summary == ByDate(TallyOf(Dates(files, dateFolder)), |files|)
      && IsTallyOf(r.summary.byDate, Dates(files, dateFolder))
      && SumValues(r.summary.byDate) == r.summary.totalFiles == |files|
      && Progress(r.processed, r.errors, moves) == PlaceAll(files, Destinations(files, Dates(files, dateFolder), targetDir), preview, moveFile)
      && r.processed + |r.errors| == |files|
      && (preview ==> r.processed == |files| && moves == [])
  {
    if !ValidatePath(Str(targetDir), accessibleDir) {
      return InvalidTarget(targetDir), [];
    }
    var dateOf := (f: FileEntry) => dateFolder(f.modified);
    var counts, p := SortInto(files, dateOf, targetDir, preview, moveFile);
    assert FoldersBy(files, dateOf) == Dates(files, dateFolder);
    TallyOfCounts(Dates(files, dateFolder));
    PlaceAllCounts(files, Destinations(files, Dates(files, dateFolder), targetDir), preview, moveFile);
    r := OrganizeResult(true, p.processed, p.errors, ByDate(counts, |files|));
    moves := p.moves;
  }

  // ----- organize_by_project -----

  /** The rule `(pattern, project)` applies when the pattern occurs in the name, both lower-cased. */
  predicate RuleMatches(rule: (string, string), filename: string)
  {
    Contains(ToLower(filename), ToLower(rule.0))
  }

  /** The project of the first rule that applies, in insertion order. */
  function MatchProject(rules: seq<(string, string)>, filename: string): Option<string>
  {
    if rules == [] then None
    else if RuleMatches(rules[0], filename) then Some(rules[0].1)
    else MatchProject(rules[1..], filename)
  }

  /** `MatchProject` finds the first rule that applies, and nothing when none does. */
  lemma {:induction false} MatchProjectFirst(rules: seq<(string, string)>, filename: string)
    ensures var r := MatchProject(rules, filename);
      && (r.None? <==> forall i :: 0 <= i < |rules| ==> !RuleMatches(rules[i], filename))
      && (r.Some? ==> exists i :: 0 <= i < |rules| && RuleMatches(rules[i], filename) && r.value == rules[i].1
                                  && forall j :: 0 <= j < i ==> !RuleMatches(rules[j], filename))
  {
    if rules != [] && !RuleMatches(rules[0], filename) {
      MatchProjectFirst(rules[1..], filename);
      assert forall i :: 1 <= i < |rules| ==> rules[i] == rules[1..][i - 1];
      var r := MatchProject(rules, filename);
      if r.Some? {
        var i :| 0 <= i < |rules| - 1 && RuleMatches(rules[1..][i], filename) && r.value == rules[1..][i].1
                 && forall j :: 0 <= j < i ==> !RuleMatches(rules[1..][j], filename);
        assert RuleMatches(rules[i + 1], filename) && r.value == rules[i + 1].1;
      }
    }
  }

  /** The inner loop over the rules, left at the first match. */
  method FindProject(rules: seq<(string, string)>, filename: string) returns (matched: Option<string>)
    ensures matched == MatchProject(rules, filename)
  {
    matched := None;
    var i := 0;
    while i < |rules|
      invariant 0 <= i <= |rules| && matched == None
      invariant MatchProject(rules[i..], filename) == MatchProject(rules, filename)
    {
      assert rules[i..][1..] == rules[i + 1..];
      var (pattern, project) := rules[i];
      if Contains(ToLower(filename), ToLower(pattern)) {
        matched := Some(project);
        break;
      }
      i := i + 1;
    }
  }

  /** The project a file is counted under; `None` when no rule applies or the project name is empty (falsy). */
  function ProjectOf(rules: seq<(string, string)>, filename: string): Option<string>
  {
    match MatchProject(rules, filename)
    case Some(p) => if p != "" then Some(p) else None
    case None => None
  }

  function Folder(project: Option<string>): string
  {
    if project.Some? then project.value else "Unmatched"
  }

  function ProjectFolders(rules: seq<(string, string)>, files: seq<FileEntry>): (ds: seq<string>)
    ensures |ds| == |files| && forall i :: 0 <= i < |files| ==> ds[i] == Folder(ProjectOf(rules, files[i].name))
  {
    seq(|files|, i requires 0 <= i < |files| => Folder(ProjectOf(rules, files[i].name)))
  }

  /** The projects of the matched files, in order. */
  function MatchedProjects(rules: seq<(string, string)>, files: seq<FileEntry>): seq<string>
  {
    if files == [] then []
    else
      var n := |files| - 1;
      var ps := MatchedProjects(rules, files[..n]);
      match ProjectOf(rules, files[n].name)
      case Some(p) => ps + [p]
      case None => ps
  }

  /** The number of unmatched files. */
  function UnmatchedCount(rules: seq<(string, string)>, files: seq<FileEntry>): nat
  {
    if files == [] then 0
    else
      var n := |files| - 1;
      UnmatchedCount(rules, files[..n]) + if ProjectOf(rules, files[n].name).None? then 1 else 0
  }

  /** Every file is either matched or unmatched. */
  lemma {:induction false} MatchedSplit(rules: seq<(string, string)>, files: seq<FileEntry>)
    ensures |MatchedProjects(rules, files)| + UnmatchedCount(rules, files) == |files|
    ensures forall p :: p in MatchedProjects(rules, files) ==> p != "" && exists i :: 0 <= i < |files| && ProjectOf(rules, files[i].name) == Some(p)
  {
    if files != [] {
      var n := |files| - 1;
      MatchedSplit(rules, files[..n]);
      assert forall i :: 0 <= i < n ==> files[..n][i] == files[i];
    }
  }

  lemma MatchedSnoc(rules: seq<(string, string)>, files: seq<FileEntry>, i: nat)
    requires i < |files|
    ensures MatchedProjects(rules, files[..i + 1])
         == MatchedProjects(rules, files[..i]) + (if ProjectOf(rules, files[i].name).Some? then [ProjectOf(rules, files[i].name).value] else [])
    ensures UnmatchedCount(rules, files[..i + 1])
         == UnmatchedCount(rules, files[..i]) + if ProjectOf(rules, files[i].name).None? then 1 else 0
  {
    assert files[..i + 1][..i] == files[..i];
  }

  lemma ProjectTallySnoc(rules: seq<(string, string)>, files: seq<FileEntry>, i: nat)
    requires i < |files|
    ensures var project := ProjectOf(rules, files[i].name);
      var counts := TallyOf(MatchedProjects(rules, files[..i]));
      TallyOf(MatchedProjects(rules, files[..i + 1])) == if project.Some? then Increment(counts, project.value) else counts
  {
    MatchedSnoc(rules, files, i);
    var project := ProjectOf(rules, files[i].name);
    if project.Some? {
      TallyAppend(MatchedProjects(rules, files[..i]), project.value);
    } else {
      assert MatchedProjects(rules, files[..i + 1]) == MatchedProjects(rules, files[..i]);
    }
  }

  /** The body of the loop of `organize_by_project`: one file matched, tallied and placed. */
  method SortOneByProject(counts: seq<(string, nat)>, unmatched: nat, p: Progress, f: FileEntry,
                          rules: seq<(string, string)>, targetDir: string, preview: bool,
                          moveFile: (string, string) -> bool)
    returns (counts': seq<(string, nat)>, unmatched': nat, p': Progress)
    ensures var project := ProjectOf(rules, f.name);
      && counts' == (if project.Some? then Increment(counts, project.value) else counts)
      && unmatched' == unmatched + (if project.None? then 1 else 0)
      && p' == Place(p, f, Destination(targetDir, Folder(project), f.name), preview, moveFile)
  {
    var matched := FindProject(rules, f.name);
    if matched.Some? && matched.value != "" {
      counts', unmatched' := Increment(counts, matched.value), unmatched;
      p' := PlaceFile(p, f, matched.value, targetDir, preview, moveFile);
    } else {
      counts', unmatched' := counts, unmatched + 1;
      p' := PlaceFile(p, f, "Unmatched", targetDir, preview, moveFile);
    }
  }

  /** The loop of `organize_by_project` over the files. */
  method SortByProject(files: seq<FileEntry>, rules: seq<(string, string)>, targetDir: string, preview: bool,
                       moveFile: (string, string) -> bool)
    returns (counts: seq<(string, nat)>, unmatched: nat, p: Progress)
    ensures counts == TallyOf(MatchedProjects(rules, files))
    ensures unmatched == UnmatchedCount(rules, files)
    ensures p == PlaceAll(files, Destinations(files, ProjectFolders(rules, files), targetDir), preview, moveFile)
  {
    ghost var folders := ProjectFolders(rules, files);
    ghost var dests := Destinations(files, folders, targetDir);
    counts, unmatched := [], 0;
    p := Progress(0, [], []);
    var i := 0;
    while i < |files|
      invariant 0 <= i <= |files|
      invariant counts == TallyOf(MatchedProjects(rules, files[..i]))
      invariant unmatched == UnmatchedCount(rules, files[..i])
      invariant p == PlaceAll(files[..i], dests[..i], preview, moveFile)
    {
      MatchedSnoc(rules, files, i);
      ProjectTallySnoc(rules, files, i);
      PlaceAllSnoc(files, dests, i, preview, moveFile);
      counts, unmatched, p := SortOneByProject(counts, unmatched, p, files[i], rules, targetDir, preview, moveFile);
      i := i + 1;
    }
    assert files[..|files|] == files && dests[..|dests|] == dests;
  }

  /**
   * `organize_by_project`. An invalid target, then empty rules, return at
   * once with one error. Otherwise the run succeeds; a matched file is
   * tallied under its project, an unmatched one in `unmatched`, and together
   * they account for every file; each file is placed under its project
   * folder or `Unmatched`.
   */
  method OrganizeByProject(files: seq<FileEntry>, rules: seq<(string, string)>, targetDir: string, preview: bool,
                           accessibleDir: string -> bool, moveFile: (string, string) -> bool)
    returns (r: OrganizeResult, moves: seq<(string, string)>)
    ensures !ValidatePath(Str(targetDir), accessibleDir) ==> r == InvalidTarget(targetDir) && moves == []
    ensures ValidatePath(Str(targetDir), accessibleDir) && rules == [] ==>
      r == OrganizeResult(false, 0, ["No organization rules provided"], NoSummary) && moves == []
    ensures ValidatePath(Str(targetDir), accessibleDir) && rules != [] ==>
      && r.success
      && r.summary == ByProject(TallyOf(MatchedProjects(rules, files)), UnmatchedCount(rules, files), |files|)
      && IsTallyOf(r.summary.byProject, MatchedProjects(rules, files))
      && SumValues(r.summary.byProject) + r.summary.unmatched == r.summary.totalFiles == |files|
      && Progress(r.processed, r.errors, moves) == PlaceAll(files, Destinations(files, ProjectFolders(rules, files), targetDir), preview, moveFile)
      && r.processed + |r.errors| == |files|
      && (preview ==> r.processed == |files| && moves == [])
  {
    if !ValidatePath(Str(targetDir), accessibleDir) {
      return InvalidTarget(targetDir), [];
    }
    if rules == [] {
      return OrganizeResult(false, 0, ["No organization rules provided"], NoSummary), [];
    }
    var counts, unmatched, p := SortByProject(files, rules, targetDir, preview, moveFile);
    TallyOfCounts(MatchedProjects(rules, files));
    MatchedSplit(rules, files);
    PlaceAllCounts(files, Destinations(files, ProjectFolders(rules, files), targetDir), preview, moveFile);
    r := OrganizeResult(true, p.processed, p.errors, ByProject(counts, unmatched, |files|));
    moves := p.moves;
  }
}
