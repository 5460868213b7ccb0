/** The listing engine of the Explorer screen: the category test, the
    depth-first category scan, the three listing modes of `loadFiles`, the
    directories-first sort, the search filter, and the destination paths of
    rename and delete. */
module Explorer {
  import opened Wrappers
  import opened Strings
  import opened Seqs
  import opened Sorting
  import opened FileStore
  import FileHelpers

  /** One row of a listing. `size` is absent when `getInfoAsync` gave none. */
  datatype Entry = Entry(name: string, path: string, isDirectory: bool, size: Option<nat>)

  // ---------------------------------------------------------------------
  // matchType
  // ---------------------------------------------------------------------

  const ImageTypes: seq<string> := ["jpg", "jpeg", "png", "gif", "webp", "bmp", "heic"]
  const VideoTypes: seq<string> := ["mp4", "mov", "avi", "mkv", "webm"]
  const AudioTypes: seq<string> := ["mp3", "wav", "aac", "flac", "m4a"]
  const AppTypes: seq<string> := ["apk", "ipa"]

  /** The categories `matchType` knows. */
  predicate IsScanType(t: string) {
    t == "image" || t == "video" || t == "audio" || t == "app"
  }

  /** `filename.split('.').pop().toLowerCase()`: a name without a `.` is its
      own extension. */
  function TypeExtension(filename: string): string {
    Lower(LastPiece(filename, '.'))
  }

  /** `matchType(filename, type)`. Only the four scan categories can match. */
  function MatchType(filename: string, t: string): (r: bool)
    ensures r ==> IsScanType(t)
  {
    var ext := TypeExtension(filename);
    if t == "image" then ext in ImageTypes
    else if t == "video" then ext in VideoTypes
    else if t == "audio" then ext in AudioTypes
    else if t == "app" then ext in AppTypes
    else false
  }

  /** The four tables are disjoint, so a file belongs to one category view
      at most. */
  lemma MatchesAtMostOneType(filename: string, t1: string, t2: string)
    requires MatchType(filename, t1) && MatchType(filename, t2)
    ensures t1 == t2
  {
    var ext := TypeExtension(filename);
    assert forall x | x in ImageTypes :: x !in VideoTypes && x !in AudioTypes && x !in AppTypes;
    assert forall x | x in VideoTypes :: x !in AudioTypes && x !in AppTypes;
    assert forall x | x in AudioTypes :: x !in AppTypes;
  }

  /** A name without a `.` is tested as if it were its own extension. */
  lemma DotlessNameIsItsOwnExtension(name: string, stem: string, t: string)
    requires '.' !in name
    ensures MatchType(name, t) == MatchType(stem + "." + name, t)
  {
    LastPieceIsSuffix(name, '.');
    LastPieceAfterSeparator(stem, name, '.');
    assert stem + "." + name == stem + ['.'] + name;
  }

  /** The `app` view takes exactly the names whose last `.` piece is `apk`
      or `ipa` in any letter case. */
  lemma AppMatchesPackages(stem: string, ext: string)
    requires '.' !in ext
    ensures MatchType(stem + "." + ext, "app") <==> Lower(ext) in AppTypes
  {
    LastPieceAfterSeparator(stem, ext, '.');
    assert stem + "." + ext == stem + ['.'] + ext;
  }

  /** The test ignores letter case. */
  lemma MatchTypeIgnoresCase(a: string, b: string, t: string)
    requires Lower(a) == Lower(b)
    ensures MatchType(a, t) == MatchType(b, t)
  {
    LastPieceLower(a);
    LastPieceLower(b);
    assert TypeExtension(a) == TypeExtension(b);
  }

  /** For a name with a `.`, the scan's image, video and audio tests agree
      with the icon the file helpers pick. */
  lemma MatchTypeAgreesWithIcon(name: string)
    requires '.' in name
    ensures MatchType(name, "image") <==> FileHelpers.GetFileIcon(Some(name), false) == FileHelpers.ImageIcon
    ensures MatchType(name, "video") <==> FileHelpers.GetFileIcon(Some(name), false) == FileHelpers.VideoIcon
    ensures MatchType(name, "audio") <==> FileHelpers.GetFileIcon(Some(name), false) == FileHelpers.AudioIcon
  {
    assert name != "";
    assert FileHelpers.IconExtension(name) == TypeExtension(name);
    var ext := TypeExtension(name);
    assert ext in ImageTypes <==> ext in FileHelpers.ImageExtensions;
    assert ext in VideoTypes <==> ext in FileHelpers.VideoExtensions;
    assert ext in AudioTypes <==> ext in FileHelpers.AudioExtensions;
  }

  // ---------------------------------------------------------------------
  // Paths
  // ---------------------------------------------------------------------

  /** `dir + (dir.endsWith('/') ? '' : '/') + entry`: the entry below `dir`,
      separated from it by exactly one `/`. */
  function ChildPath(dir: string, entry: string): (r: string)
    ensures |r| == |dir| + |entry| || |r| == |dir| + 1 + |entry|
    ensures |r| == |dir| + |entry| <==> EndsWithChar(dir, '/')
    ensures r[..|dir|] == dir
    ensures |r| > |entry| && r[|r| - |entry| - 1] == '/' && r[|r| - |entry|..] == entry
  {
    var r := dir + (if EndsWithChar(dir, '/') then "" else "/") + entry;
    assert r[|r| - |entry|..] == entry;
    r
  }

  /** `path` names `name` inside some directory. */
  predicate EndsWithChild(path: string, name: string) {
    |path| > |name| && path[|path| - |name| - 1] == '/' && path[|path| - |name|..] == name
  }

  /** No piece of the relative path `rel` (the start, and each place after
      a `/`) begins with `.`. */
  predicate NoHiddenSegment(rel: string) {
    (rel == [] || rel[0] != '.')
    && forall i :: 0 <= i < |rel| - 1 ==> rel[i] == '/' ==> rel[i + 1] != '.'
  }

  /** `path` lies below `dir` and no directory or file name between them is
      hidden. */
  predicate Beneath(dir: string, path: string) {
    |dir| <= |path| && path[..|dir|] == dir && NoHiddenSegment(path[|dir|..])
  }

  lemma NoHiddenSegmentAppend(a: string, b: string)
    requires NoHiddenSegment(a) && NoHiddenSegment(b)
    ensures NoHiddenSegment(a + b)
  {
    var ab := a + b;
    forall i | 0 <= i < |ab| - 1 && ab[i] == '/' ensures ab[i + 1] != '.' {
      if i + 1 == |a| {
        assert ab[i + 1] == b[0];
      } else if i + 1 < |a| {
        assert ab[i] == a[i] && ab[i + 1] == a[i + 1];
      } else {
        assert ab[i] == b[i - |a|] && ab[i + 1] == b[i - |a| + 1];
      }
    }
  }

  /** Whatever lies below a visible child of `dir` lies below `dir`. */
  lemma BeneathChild(dir: string, entry: string, path: string)
    requires ValidName(entry) && !StartsWith(entry, ".")
    requires Beneath(ChildPath(dir, entry), path)
    ensures Beneath(dir, path)
  {
    var child := ChildPath(dir, entry);
    var sep: string := if EndsWithChar(dir, '/') then "" else "/";
    assert child == dir + sep + entry;
    assert path[..|dir|] == child[..|dir|] == dir;
    assert entry[0] != '.' by { assert entry[..1] != "."; }
    assert NoHiddenSegment(sep);
    assert NoHiddenSegment(entry);
    NoHiddenSegmentAppend(sep, entry);
    NoHiddenSegmentAppend(sep + entry, path[|child|..]);
    assert path[|dir|..] == sep + entry + path[|child|..];
  }

  // ---------------------------------------------------------------------
  // scanRecursively
  // ---------------------------------------------------------------------

  /** The two `continue` tests at the top of the scan loop. */
  predicate SkipEntry(entry: string, t: string) {
    (StartsWith(entry, ".") && entry != ".trash") || (entry == ".trash" && t != "trash")
  }

  /** The paths the scan can still descend into from `dir`. */
  ghost function DeeperPaths(fs: Store, dir: string): set<string> {
    set p | p in fs.nodes && |p| > |dir|
  }

  lemma ChildIsDeeper(fs: Store, dir: string, entry: string)
    requires entry != "" && ChildPath(dir, entry) in fs.nodes
    ensures DeeperPaths(fs, ChildPath(dir, entry)) < DeeperPaths(fs, dir)
  {
    var child := ChildPath(dir, entry);
    assert child in DeeperPaths(fs, dir);
  }

  /** What `scanRecursively(dir, type)` resolves to: the matching files of
      the tree below `dir`, in depth-first order of the directory listings.
      An unreadable directory contributes nothing. */
  function Scan(fs: Store, dir: string, t: string): (r: seq<Entry>)
    requires Valid(fs)
    ensures ReadDirectory(fs, dir).Error? ==> r == []
    ensures forall i | 0 <= i < |r| :: !r[i].isDirectory && MatchType(r[i].name, t)
    decreases DeeperPaths(fs, dir), 2, 0
  {
    match ReadDirectory(fs, dir)
    case Error => []
    case Ok(names) => ScanEntries(fs, dir, names, t)
  }

  /** The scan loop over `names`, the listing of `dir`. A `getInfoAsync`
      that throws ends the loop: what was gathered before it is kept and the
      remaining names are not visited. */
  function ScanEntries(fs: Store, dir: string, names: seq<string>, t: string): (r: seq<Entry>)
    requires Valid(fs)
    requires forall n | n in names :: ValidName(n)
    ensures forall i | 0 <= i < |r| :: !r[i].isDirectory && MatchType(r[i].name, t)
    decreases DeeperPaths(fs, dir), 1, |names|
  {
    if names == [] then []
    else
      assert names[0] in names;
      match ScanOne(fs, dir, names[0], t)
      case None => []
      case Some(items) => items + ScanEntries(fs, dir, names[1..], t)
  }

  /** One turn of the scan loop on the name `entry`: `Some` of what it adds
      to the results (nothing for a skipped name, the whole subtree for a
      directory, the file itself when it matches), or `None` when
      `getInfoAsync` throws. */
  function ScanOne(fs: Store, dir: string, entry: string, t: string): (r: Option<seq<Entry>>)
    requires Valid(fs) && ValidName(entry)
    ensures r.Some? ==> forall i | 0 <= i < |r.value| :: !r.value[i].isDirectory && MatchType(r.value[i].name, t)
    decreases DeeperPaths(fs, dir), 0, 0
  {
    if SkipEntry(entry, t) then Some([])
    else
      var full := ChildPath(dir, entry);
      match GetInfo(fs, full)
      case Error => None
      case Ok(info) =>
        if info.isDirectory then
          ChildIsDeeper(fs, dir, entry);
          Some(Scan(fs, full, t))
        else
          Some(if MatchType(entry, t) then [Entry(entry, full, false, info.size)] else [])
  }

  /** `scanRecursively(dir, type)`: the loop that pushes matching files and
      splices in the results of each subdirectory. */
  method ScanRecursively(fs: Store, dir: string, t: string) returns (results: seq<Entry>)
    requires Valid(fs)
    ensures results == Scan(fs, dir, t)
    decreases DeeperPaths(fs, dir), 1
  {
    results := [];
    var listing := ReadDirectory(fs, dir);
    if listing.Error? {
      return;
    }
    var rest := listing.value;
    while rest != []
      invariant forall n | n in rest :: ValidName(n)
      invariant Scan(fs, dir, t) == results + ScanEntries(fs, dir, rest, t)
      decreases |rest|
    {
      var entry := rest[0];
      ScanEntriesCons(fs, dir, rest, t);
      var items := ScanEntry(fs, dir, entry, t);
      if items.None? {
        return;
      }
      results := results + items.value;
      rest := rest[1..];
    }
  }

  /** One turn of the scan loop, seen from the names still to visit. */
  lemma ScanEntriesCons(fs: Store, dir: string, names: seq<string>, t: string)
    requires Valid(fs) && names != []
    requires forall n | n in names :: ValidName(n)
    ensures ValidName(names[0]) && forall n | n in names[1..] :: ValidName(n)
    ensures ScanOne(fs, dir, names[0], t).None? ==> ScanEntries(fs, dir, names, t) == []
    ensures ScanOne(fs, dir, names[0], t).Some? ==>
      ScanEntries(fs, dir, names, t)
        == ScanOne(fs, dir, names[0], t).value + ScanEntries(fs, dir, names[1..], t)
  {
    assert names[0] in names;
  }

  /** The body of the scan loop on `entry`; `None` is the `catch`. */
  method ScanEntry(fs: Store, dir: string, entry: string, t: string) returns (items: Option<seq<Entry>>)
    requires Valid(fs) && ValidName(entry)
    ensures items == ScanOne(fs, dir, entry, t)
    decreases DeeperPaths(fs, dir), 0
  {
    if SkipEntry(entry, t) {
      return Some([]);
    }
    var fullPath := ChildPath(dir, entry);
    var info := GetInfo(fs, fullPath);
    if info.Error? {
      return None;
    }
    if info.value.isDirectory {
      ChildIsDeeper(fs, dir, entry);
      var subResults := ScanRecursively(fs, fullPath, t);
      items := Some(subResults);
    } else if MatchType(entry, t) {
      items := Some([Entry(entry, fullPath, false, info.value.size)]);
    } else {
      items := Some([]);
    }
  }

  /** A category `matchType` does not know (`trash`, `download`, ...) scans
      to nothing, even though `trash` descends into `.trash`. */
  lemma {:induction false} ScanOtherTypeIsEmpty(fs: Store, dir: string, t: string)
    requires Valid(fs) && !IsScanType(t)
    ensures Scan(fs, dir, t) == []
    decreases DeeperPaths(fs, dir), 2, 0
  {
    if dir in fs.listings {
      ScanEntriesOtherTypeIsEmpty(fs, dir, fs.listings[dir], t);
    }
  }

  lemma {:induction false} ScanEntriesOtherTypeIsEmpty(fs: Store, dir: string, names: seq<string>, t: string)
    requires Valid(fs) && !IsScanType(t)
    requires forall n | n in names :: ValidName(n)
    ensures ScanEntries(fs, dir, names, t) == []
    decreases DeeperPaths(fs, dir), 1, |names|
  {
    if names != [] {
      assert names[0] in names;
      ScanEntriesOtherTypeIsEmpty(fs, dir, names[1..], t);
      var full := ChildPath(dir, names[0]);
      if !SkipEntry(names[0], t) && GetInfo(fs, full).Ok? && GetInfo(fs, full).value.isDirectory {
        ChildIsDeeper(fs, dir, names[0]);
        ScanOtherTypeIsEmpty(fs, full, t);
      }
    }
  }

  /** What every scanned entry is: a file (never a directory) with a visible,
      matching name, at a path that ends in `/name` and lies below `dir`
      with no hidden name in between; so nothing under `.trash` or any other
      hidden directory is reported. */
  ghost predicate ScannedFile(dir: string, t: string, e: Entry) {
    && !e.isDirectory
    && ValidName(e.name)
    && !StartsWith(e.name, ".")
    && MatchType(e.name, t)
    && EndsWithChild(e.path, e.name)
    && Beneath(dir, e.path)
  }

  lemma {:induction false} ScanSound(fs: Store, dir: string, t: string)
    requires Valid(fs)
    ensures forall e | e in Scan(fs, dir, t) :: ScannedFile(dir, t, e)
    decreases DeeperPaths(fs, dir), 2, 0
  {
    if dir in fs.listings {
      ScanEntriesSound(fs, dir, fs.listings[dir], t);
    }
  }

  lemma {:induction false} ScanEntriesSound(fs: Store, dir: string, names: seq<string>, t: string)
    requires Valid(fs)
    requires forall n | n in names :: ValidName(n)
    ensures forall e | e in ScanEntries(fs, dir, names, t) :: ScannedFile(dir, t, e)
    decreases DeeperPaths(fs, dir), 1, |names|
  {
    if names != [] && IsScanType(t) {
      var entry := names[0];
      assert entry in names;
      ScanEntriesSound(fs, dir, names[1..], t);
      if !SkipEntry(entry, t) {
        var full := ChildPath(dir, entry);
        assert !StartsWith(entry, ".");
        assert Beneath(full, full) by { assert full[|full|..] == []; }
        BeneathChild(dir, entry, full);
        var info := GetInfo(fs, full);
        if info.Ok? && info.value.isDirectory {
          ChildIsDeeper(fs, dir, entry);
          ScanSound(fs, full, t);
          forall e | e in Scan(fs, full, t) ensures Beneath(dir, e.path) {
            BeneathChild(dir, entry, e.path);
          }
        }
      }
    } else if names != [] {
      ScanEntriesOtherTypeIsEmpty(fs, dir, names, t);
    }
  }

  /** A `getInfoAsync` that throws at `names[k]` keeps exactly what the
      names before it produced. */
  lemma {:induction false} ScanStopsAtError(fs: Store, dir: string, names: seq<string>, t: string, k: nat)
    requires Valid(fs)
    requires forall n | n in names :: ValidName(n)
    requires k < |names| && !SkipEntry(names[k], t)
    requires GetInfo(fs, ChildPath(dir, names[k])).Error?
    ensures ScanEntries(fs, dir, names, t) == ScanEntries(fs, dir, names[..k], t)
    decreases k
  {
    if k > 0 {
      assert names[1..][..k - 1] == names[..k][1..];
      assert names[..k][0] == names[0];
      ScanStopsAtError(fs, dir, names[1..], t, k - 1);
    }
  }

  /** With no `getInfoAsync` failures, nothing visible is lost: a matching
      file directly in the listing is reported, and so is everything the
      scan of a visible subdirectory reports, whatever its depth. */
  lemma {:induction false} ScanEntriesComplete(fs: Store, dir: string, names: seq<string>, t: string, k: nat)
    requires Valid(fs) && fs.statFails == {}
    requires forall n | n in names :: ValidName(n)
    requires k < |names| && !SkipEntry(names[k], t)
    ensures var full := ChildPath(dir, names[k]);
      && (full in fs.nodes && !fs.nodes[full].isDirectory && MatchType(names[k], t) ==>
           Entry(names[k], full, false, Some(fs.nodes[full].size)) in ScanEntries(fs, dir, names, t))
      && (full in fs.nodes && fs.nodes[full].isDirectory ==>
           forall e | e in Scan(fs, full, t) :: e in ScanEntries(fs, dir, names, t))
    decreases k
  {
    ScanEntriesCons(fs, dir, names, t);
    assert GetInfo(fs, ChildPath(dir, names[0])).Ok?;
    if k > 0 {
      assert names[1..][k - 1] == names[k];
      ScanEntriesComplete(fs, dir, names[1..], t, k - 1);
    }
  }

  // ---------------------------------------------------------------------
  // loadFiles
  // ---------------------------------------------------------------------

  /** The route parameters of the screen. */
  datatype RouteParams = RouteParams(path: Option<string>, category: Option<string>)

  predicate Truthy(s: Option<string>) {
    s.Some? && s.value != ""
  }

  /** `route.params?.path || defaultPath` */
  function CurrentPath(root: string, params: RouteParams): string {
    if Truthy(params.path) then params.path.value else root
  }

  /** The trash directory, `defaultPath + '.trash/'`. */
  function TrashPath(root: string): string {
    root + ".trash/"
  }

  /** `Promise.all(names.map(name => getInfoAsync(pathOf(name))))` turned into
      entries; any `getInfoAsync` that throws rejects the whole listing.
      `zeroSize` is the folder mode's `info.size || 0`. */
  function StatNames(fs: Store, names: seq<string>, pathOf: string -> string, zeroSize: bool): (r: Result<seq<Entry>>)
    ensures r.Ok? ==> |r.value| == |names|
    ensures r.Ok? ==> forall i | 0 <= i < |names| :: r.value[i].name == names[i] && r.value[i].path == pathOf(names[i])
    ensures r.Ok? ==> forall i | 0 <= i < |names| ::
      GetInfo(fs, pathOf(names[i])).Ok?
      && r.value[i] == StatEntry(names[i], pathOf(names[i]), GetInfo(fs, pathOf(names[i])).value, zeroSize)
    ensures r.Error? <==> exists i | 0 <= i < |names| :: pathOf(names[i]) in fs.statFails
  {
    if names == [] then Ok([])
    else
      var rest := StatNames(fs, names[1..], pathOf, zeroSize);
      assert forall i | 1 <= i < |names| :: names[i] == names[1..][i - 1];
      match GetInfo(fs, pathOf(names[0]))
      case Error => Error
      case Ok(info) =>
        if rest.Error? then Error
        else Ok([StatEntry(names[0], pathOf(names[0]), info, zeroSize)] + rest.value)
  }

  /** The item built from one `getInfoAsync` result; folder mode turns a
      missing size into 0 (`info.size || 0`). */
  function StatEntry(name: string, path: string, info: Info, zeroSize: bool): (e: Entry)
    ensures e.name == name && e.path == path && e.isDirectory == info.isDirectory
    ensures !zeroSize ==> e.size == info.size
    ensures zeroSize ==> e.size.Some? && (info.size.Some? ==> e.size == info.size)
    ensures zeroSize && info.size.None? ==> e.size == Some(0)
  {
    var size := if zeroSize then Some(if info.size.Some? then info.size.value else 0) else info.size;
    Entry(name, path, info.isDirectory, size)
  }

  /** The folder-mode filter `!i.name.startsWith('.') || category === 'trash'`. */
  predicate KeepInFolderMode(e: Entry, category: Option<string>) {
    !StartsWith(e.name, ".") || category == Some("trash")
  }

  /** The unsorted items `loadFiles` gathers, and the file store after it
      (the Download mode creates its directory when missing). */
  function LoadItems(fs: Store, root: string, params: RouteParams): (r: (Store, Result<seq<Entry>>))
    requires Valid(fs)
    ensures Valid(r.0)
    ensures params.category != Some("download") ==> r.0 == fs
    ensures !Truthy(params.category) && r.1.Ok? ==>
      forall i | 0 <= i < |r.1.value| :: !StartsWith(r.1.value[i].name, ".")
    ensures Truthy(params.category) && params.category.value != "trash" && params.category.value != "download" ==>
      r == (fs, Ok(Scan(fs, root, params.category.value)))
  {
    if Truthy(params.category) then
      var category := params.category.value;
      if category == "trash" then
        var trashPath := TrashPath(root);
        match ReadDirectory(fs, trashPath)
        case Error => (fs, Error)
        case Ok(names) => (fs, StatNames(fs, names, name => trashPath + name, false))
      else if category == "download" then
        var path := root + "Download/";
        match GetInfo(fs, path)
        case Error => (fs, Error)
        case Ok(info) =>
          var fs1 := if !info.present then MakeDirectory(fs, path) else fs;
          match ReadDirectory(fs1, path)
          case Error => (fs1, Error)
          case Ok(names) => (fs1, StatNames(fs1, names, name => path + name, false))
      else
        (fs, Ok(Scan(fs, root, category)))
    else
      var current := CurrentPath(root, params);
      var category := params.category;
      match ReadDirectory(fs, current)
      case Error => (fs, Error)
      case Ok(names) =>
        match StatNames(fs, names, name => ChildPath(current, name), true)
        case Error => (fs, Error)
        case Ok(items) => (fs, Ok(Filter(items, e => KeepInFolderMode(e, category))))
  }

  /** Folder mode drops every hidden name and keeps every other one, in
      order: `category` is falsy there, so the `=== 'trash'` escape never
      applies. */
  lemma FolderModeHidesDotNames(fs: Store, root: string, params: RouteParams)
    requires Valid(fs) && !Truthy(params.category)
    requires LoadItems(fs, root, params).1.Ok?
    ensures var items := LoadItems(fs, root, params).1.value;
      var names := fs.listings[CurrentPath(root, params)];
      && (forall e | e in items :: !StartsWith(e.name, ".") && e.name in names)
      && (forall n | n in names && !StartsWith(n, ".") :: exists e | e in items :: e.name == n)
  {
    var current := CurrentPath(root, params);
    var names := fs.listings[current];
    var all := StatNames(fs, names, name => ChildPath(current, name), true).value;
    var items := LoadItems(fs, root, params).1.value;
    assert params.category != Some("trash");
    forall e | e in items ensures !StartsWith(e.name, ".") && e.name in names {
      SubsequenceElements(items, all);
      var i :| 0 <= i < |all| && all[i] == e;
      assert e.name == names[i];
    }
    forall n | n in names && !StartsWith(n, ".") ensures exists e | e in items :: e.name == n {
      var i :| 0 <= i < |names| && names[i] == n;
      assert all[i].name == n;
      assert KeepInFolderMode(all[i], params.category);
    }
  }

  /** The trash view lists every name of `.trash/`, hidden or not, in
      listing order, at `defaultPath + '.trash/' + name`. */
  lemma TrashModeListsEverything(fs: Store, root: string, params: RouteParams)
    requires Valid(fs) && params.category == Some("trash")
    requires LoadItems(fs, root, params).1.Ok?
    ensures var items := LoadItems(fs, root, params).1.value;
      var names := fs.listings[TrashPath(root)];
      |items| == |names|
      && forall i | 0 <= i < |items| :: items[i].name == names[i] && items[i].path == TrashPath(root) + names[i]
  {
  }

  /** The Download view makes `defaultPath + 'Download/'` when
      `getInfoAsync` says it does not exist, so it then lists nothing; either
      way it lists every name of that directory, hidden or not, in listing
      order, at `path + name`. */
  lemma DownloadModeListsEverything(fs: Store, root: string, params: RouteParams)
    requires Valid(fs) && params.category == Some("download")
    requires LoadItems(fs, root, params).1.Ok?
    ensures var path := root + "Download/";
      var fs' := LoadItems(fs, root, params).0;
      var items := LoadItems(fs, root, params).1.value;
      && path !in fs.statFails
      && (path !in fs.nodes ==> path in fs'.nodes && fs'.nodes[path].isDirectory && items == [])
      && (path in fs.nodes ==> fs' == fs)
      && ReadDirectory(fs', path).Ok?
      && |items| == |fs'.listings[path]|
      && forall i | 0 <= i < |items| ::
        items[i].name == fs'.listings[path][i] && items[i].path == path + fs'.listings[path][i]
  {
  }

  // ---------------------------------------------------------------------
  // The sort
  // ---------------------------------------------------------------------

  /** The comparator of `items.sort`, as "a may come before b": directories
      first, then `localeCompare` on the names, given as the total preorder
      `localeLe` (`a.localeCompare(b) <= 0`). */
  function EntryLe(localeLe: (string, string) -> bool, a: Entry, b: Entry): bool {
    if a.isDirectory && !b.isDirectory then true
    else if !a.isDirectory && b.isDirectory then false
    else localeLe(a.name, b.name)
  }

  function ListingOrder(localeLe: (string, string) -> bool): (Entry, Entry) -> bool {
    (a, b) => EntryLe(localeLe, a, b)
  }

  lemma ListingOrderIsTotalPreorder(localeLe: (string, string) -> bool)
    requires TotalPreorder(localeLe)
    ensures TotalPreorder(ListingOrder(localeLe))
  {
    var le := ListingOrder(localeLe);
    forall x, y, z | le(x, y) && le(y, z) ensures le(x, z) {
      if x.isDirectory == z.isDirectory {
        assert localeLe(x.name, y.name) && localeLe(y.name, z.name);
      }
    }
  }

  /** The sorted listing is a permutation of the items, lists every
      directory before every file, orders each group by name, and keeps
      items of equal rank in their listing order. */
  lemma SortedListing(items: seq<Entry>, localeLe: (string, string) -> bool)
    requires TotalPreorder(localeLe)
    ensures var r := InsertionSort(items, ListingOrder(localeLe));
      && multiset(r) == multiset(items)
      && (forall i, j | 0 <= i < j < |r| :: !(r[j].isDirectory && !r[i].isDirectory))
      && (forall i, j | 0 <= i < j < |r| && r[i].isDirectory == r[j].isDirectory :: localeLe(r[i].name, r[j].name))
      && (forall z :: EquivalenceClass(r, z, ListingOrder(localeLe)) == EquivalenceClass(items, z, ListingOrder(localeLe)))
  {
    var le := ListingOrder(localeLe);
    ListingOrderIsTotalPreorder(localeLe);
    SortPermutes(items, le);
    SortSorts(items, le);
    forall z ensures EquivalenceClass(InsertionSort(items, le), z, le) == EquivalenceClass(items, z, le) {
      SortStable(items, z, le);
    }
  }

  // ---------------------------------------------------------------------
  // The search effect
  // ---------------------------------------------------------------------

  predicate NameMatches(e: Entry, query: string) {
    Contains(Lower(e.name), Lower(query))
  }

  /** The search effect: a blank query shows everything, any other keeps
      the entries whose lower-cased name includes the lower-cased query. */
  function SearchResults(files: seq<Entry>, query: string): (r: seq<Entry>)
    ensures IsSubsequence(r, files)
    ensures Trim(query) != "" ==> forall i | 0 <= i < |r| :: NameMatches(r[i], query)
    ensures Trim(query) == "" ==> r == files
  {
    if Trim(query) == "" then
      SubsequenceOfItself(files);
      files
    else Filter(files, e => NameMatches(e, query))
  }

  lemma SearchSemantics(files: seq<Entry>, query: string)
    ensures IsBlank(query) ==> SearchResults(files, query) == files
    ensures !IsBlank(query) ==>
      var r := SearchResults(files, query);
      && IsSubsequence(r, files)
      && (forall e | e in r :: NameMatches(e, query))
      && (forall e | e in files && NameMatches(e, query) :: multiset(r)[e] == multiset(files)[e])
      && (forall e | e in files && !NameMatches(e, query) :: e !in r)
  {
    TrimEmptyIffBlank(query);
    if !IsBlank(query) {
      var p := e => NameMatches(e, query);
      FilterMultiplicity(files, p);
    }
  }

  /** The query's letter case does not matter. */
  lemma SearchIgnoresQueryCase(files: seq<Entry>, q1: string, q2: string)
    requires Lower(q1) == Lower(q2)
    ensures SearchResults(files, q1) == SearchResults(files, q2)
  {
    TrimEmptyIffBlank(q1);
    TrimEmptyIffBlank(q2);
    assert IsBlank(q1) <==> IsBlank(q2) by {
      assert forall i | 0 <= i < |q1| :: IsWhiteSpace(q1[i]) <==> IsWhiteSpace(Lower(q1)[i]);
      assert forall i | 0 <= i < |q2| :: IsWhiteSpace(q2[i]) <==> IsWhiteSpace(Lower(q2)[i]);
    }
    if !IsBlank(q1) {
      FilterCongruent(files, e => NameMatches(e, q1), e => NameMatches(e, q2));
    }
  }

  // ---------------------------------------------------------------------
  // Rename and delete
  // ---------------------------------------------------------------------

  /** `path.substring(0, path.lastIndexOf('/'))`; with no `/` the index is
      -1, which `substring` clamps to 0. */
  function ParentPath(path: string): (p: string)
    ensures '/' !in path ==> p == ""
    ensures '/' in path ==> |p| < |path| && path[..|p|] == p && path[|p|] == '/' && '/' !in path[|p| + 1..]
  {
    var k := LastIndexOf(path, '/');
    if k < 0 then "" else path[..k]
  }

  /** The destination of `handleRename`, or `None` when the untrimmed text
      is blank and no move is made. */
  function RenameTarget(path: string, text: string): (r: Option<string>)
    ensures r.None? <==> IsBlank(text)
  {
    TrimEmptyIffBlank(text);
    if Trim(text) == "" then None else Some(ParentPath(path) + "/" + text)
  }

  lemma ParentOfAppended(parent: string, name: string)
    requires '/' !in name
    ensures ParentPath(parent + "/" + name) == parent
  {
    var p := parent + "/" + name;
    assert p[|parent|] == '/' && p[|parent| + 1..] == name;
  }

  /** A rename keeps the item in its directory (when the new name has no
      `/`) and puts the new name last. */
  lemma RenameStaysInDirectory(path: string, text: string)
    requires !IsBlank(text) && '/' !in text
    ensures RenameTarget(path, text).Some?
    ensures ParentPath(RenameTarget(path, text).value) == ParentPath(path)
    ensures EndsWithChild(RenameTarget(path, text).value, text)
  {
    ParentOfAppended(ParentPath(path), text);
  }

  /** Renaming an entry the listing built as `ChildPath(dir, name)` gives the
      path the listing would build for the new name. */
  lemma RenameOfListedEntry(dir: string, name: string, text: string)
    requires ValidName(name) && !IsBlank(text)
    ensures RenameTarget(ChildPath(dir, name), text) == Some(ChildPath(dir, text))
  {
    var child := ChildPath(dir, name);
    if EndsWithChar(dir, '/') {
      var d := dir[..|dir| - 1];
      assert dir == d + "/";
      assert child == d + "/" + name;
      ParentOfAppended(d, name);
    } else {
      assert child == dir + "/" + name;
      ParentOfAppended(dir, name);
    }
  }

  /** The file-system call `handleDelete` makes. */
  datatype FileOp = Move(from: string, to: string) | Delete(path: string)

  /** `handleDelete`: the trash view deletes for good, every other view moves
      the file to `defaultPath + '.trash/' + name`. */
  function DeleteAction(root: string, category: Option<string>, selected: Entry): (op: FileOp)
    ensures op.Delete? <==> category == Some("trash")
    ensures op.Delete? ==> op.path == selected.path
    ensures op.Move? ==> op.from == selected.path && op.to == TrashPath(root) + selected.name
  {
    if category == Some("trash") then Delete(selected.path)
    else Move(selected.path, root + ".trash/" + selected.name)
  }

  /** A soft delete moves the item directly into the trash directory, to
      the very path the trash view will list it under; a delete from the
      trash view removes the selected path, never a second trash level. */
  lemma DeleteDestinations(root: string, category: Option<string>, selected: Entry)
    requires ValidName(selected.name)
    ensures category == Some("trash") ==> DeleteAction(root, category, selected) == Delete(selected.path)
    ensures category != Some("trash") ==>
      var op := DeleteAction(root, category, selected);
      && op.Move? && op.from == selected.path
      && ParentPath(op.to) == root + ".trash"
      && op.to == TrashPath(root) + selected.name
  {
    assert root + ".trash/" + selected.name == (root + ".trash") + "/" + selected.name;
    ParentOfAppended(root + ".trash", selected.name);
  }

  // ---------------------------------------------------------------------
  // The screen state
  // ---------------------------------------------------------------------

  /** The `files` and `filteredFiles` state of the screen. */
  class ExplorerScreen {
    var files: seq<Entry>
    var filteredFiles: seq<Entry>

    constructor ()
      ensures files == [] && filteredFiles == []
    {
      files := [];
      filteredFiles := [];
    }

    /** `loadFiles`: gathers the items of the mode, sorts them in place and
        shows them; any error leaves the state as it was. */
    method LoadFiles(fs: Store, root: string, params: RouteParams, localeLe: (string, string) -> bool)
      returns (fs': Store, ok: bool)
      requires Valid(fs)
      modifies this
      ensures fs' == LoadItems(fs, root, params).0
      ensures ok <==> LoadItems(fs, root, params).1.Ok?
      ensures ok ==> files == InsertionSort(LoadItems(fs, root, params).1.value, ListingOrder(localeLe))
      ensures ok ==> filteredFiles == files
      ensures !ok ==> files == old(files) && filteredFiles == old(filteredFiles)
    {
      var items: seq<Entry>;
      fs' := fs;
      if Truthy(params.category) && params.category.value != "trash" && params.category.value != "download" {
        items := ScanRecursively(fs, root, params.category.value);
      } else {
        var loaded := LoadItems(fs, root, params);
        fs' := loaded.0;
        if loaded.1.Error? {
          return fs', false;
        }
        items := loaded.1.value;
      }
      var a := new Entry[|items|](i requires 0 <= i < |items| => items[i]);
      assert a[..] == items;
      SortInPlace(a, ListingOrder(localeLe));
      files := a[..];
      filteredFiles := files;
      ok := true;
    }

    /** The search effect, run when the query or `files` change. */
    method ApplySearch(query: string)
      modifies this
      ensures files == old(files)
      ensures filteredFiles == SearchResults(files, query)
    {
      if Trim(query) == "" {
        filteredFiles := files;
      } else {
        filteredFiles := Filter(files, e => NameMatches(e, query));
      }
    }
  }
}
