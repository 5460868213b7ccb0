/** The duplicate finder: files of the documents directory are bucketed by
    a key made of their size and their (case-sensitive) extension; every
    file whose key was already seen is reported as a copy of the first file
    with that key. */
module Duplicates {
  import opened Wrappers
  import opened Strings
  import opened Seqs
  import opened FileStore

  /** A non-directory entry of the documents directory, with what
      `getInfoAsync` reported for it. `uri` is the path it was read at. */
  datatype Candidate = Candidate(name: string, uri: string, size: Option<nat>)

  /** A reported copy: the file's own fields and the name of the first file
      with the same key. */
  datatype Duplicate = Duplicate(name: string, uri: string, size: Option<nat>, original: string)

  // ---------------------------------------------------------------------
  // The key
  // ---------------------------------------------------------------------

  /** `${info.size}`: the decimal size, or `undefined` when there is none. */
  function SizeText(size: Option<nat>): (r: string)
    ensures '_' !in r
    ensures |r| >= 1
  {
    if size.Some? then NatToString(size.value) else "undefined"
  }

  lemma SizeTextInjective(a: Option<nat>, b: Option<nat>)
    requires SizeText(a) == SizeText(b)
    ensures a == b
  {
    assert a.None? <==> SizeText(a)[0] == 'u';
    assert b.None? <==> SizeText(b)[0] == 'u';
    if a.Some? && b.Some? {
      NatToStringInjective(a.value, b.value);
    }
  }

  /** `${info.size}_${name.split('.').pop()}`. The extension keeps its
      letter case, and a name without `.` is its own extension. */
  function Key(c: Candidate): (k: string)
    ensures |k| > |SizeText(c.size)|
    ensures k[..|SizeText(c.size)| + 1] == SizeText(c.size) + "_"
    ensures k[|SizeText(c.size)| + 1..] == LastPiece(c.name, '.')
    ensures '.' !in k[|SizeText(c.size)| + 1..]
  {
    LastPieceIsSuffix(c.name, '.');
    var k := SizeText(c.size) + "_" + LastPiece(c.name, '.');
    assert k[..|SizeText(c.size)| + 1] == SizeText(c.size) + "_";
    k
  }

  /** A `_`-free head followed by `_` can be read back off the front. */
  lemma {:induction false} UnderscoreSplit(x: string, y: string, x': string, y': string)
    requires '_' !in x && '_' !in x'
    requires x + "_" + y == x' + "_" + y'
    ensures x == x' && y == y'
  {
    var s := x + "_" + y;
    assert s[|x|] == '_' && s[..|x|] == x && s[|x| + 1..] == y;
    assert s[|x'|] == '_' && s[..|x'|] == x' && s[|x'| + 1..] == y';
    assert |x| <= |x'| by {
      assert forall i | 0 <= i < |x| :: s[i] == x[i];
    }
    assert |x'| <= |x| by {
      assert forall i | 0 <= i < |x'| :: s[i] == x'[i];
    }
  }

  /** Two files share a key exactly when they have the same size (or both
      none) and the same extension, letter case included. */
  lemma SameKey(a: Candidate, b: Candidate)
    ensures Key(a) == Key(b) <==> a.size == b.size && LastPiece(a.name, '.') == LastPiece(b.name, '.')
  {
    if Key(a) == Key(b) {
      UnderscoreSplit(SizeText(a.size), LastPiece(a.name, '.'), SizeText(b.size), LastPiece(b.name, '.'));
      SizeTextInjective(a.size, b.size);
    }
  }

  // ---------------------------------------------------------------------
  // The reference definition
  // ---------------------------------------------------------------------

  /** `getInfoAsync(docDir + name)` resolves and reports no directory. */
  predicate IsFile(fs: Store, docDir: string, name: string) {
    GetInfo(fs, docDir + name).Ok? && !GetInfo(fs, docDir + name).value.isDirectory
  }

  function IsFileIn(fs: Store, docDir: string): string -> bool {
    name => IsFile(fs, docDir, name)
  }

  /** The candidate a file name gives: read at `docDir + name`, with the
      size `getInfoAsync` reported. */
  function CandidateOf(fs: Store, docDir: string, name: string): (c: Candidate)
    requires IsFile(fs, docDir, name)
    ensures c.name == name && c.uri == docDir + name
    ensures c.size == GetInfo(fs, c.uri).value.size
  {
    Candidate(name, docDir + name, GetInfo(fs, docDir + name).value.size)
  }

  /** No `getInfoAsync` of a listed name throws. */
  predicate NoStatFails(fs: Store, docDir: string, names: seq<string>) {
    forall i | 0 <= i < |names| :: docDir + names[i] !in fs.statFails
  }

  /** `cs` holds, in order, the candidate of each file among `names`. */
  predicate ListsFiles(fs: Store, docDir: string, names: seq<string>, cs: seq<Candidate>) {
    CandidatesOfFiles(fs, docDir, Filter(names, IsFileIn(fs, docDir)), cs)
  }

  /** `cs` holds the candidate of each of the file names `files`, in order. */
  predicate CandidatesOfFiles(fs: Store, docDir: string, files: seq<string>, cs: seq<Candidate>) {
    && |cs| == |files|
    && forall i | 0 <= i < |files| :: IsFile(fs, docDir, files[i]) && cs[i] == CandidateOf(fs, docDir, files[i])
  }

  lemma CandidatesOfFilesSnoc(fs: Store, docDir: string, files: seq<string>, cs: seq<Candidate>, name: string)
    requires CandidatesOfFiles(fs, docDir, files, cs) && IsFile(fs, docDir, name)
    ensures CandidatesOfFiles(fs, docDir, files + [name], cs + [CandidateOf(fs, docDir, name)])
  {
    var files', cs' := files + [name], cs + [CandidateOf(fs, docDir, name)];
    forall i | 0 <= i < |files'|
      ensures IsFile(fs, docDir, files'[i]) && cs'[i] == CandidateOf(fs, docDir, files'[i])
    {
      if i < |files| {
        assert files'[i] == files[i] && cs'[i] == cs[i];
      }
    }
  }

  /** The candidates of the directory listing `names` read below `docDir`
      (`docDir + name`, with no separator added), in listing order; a
      `getInfoAsync` that throws fails the whole scan. */
  function Candidates(fs: Store, docDir: string, names: seq<string>): (r: Result<seq<Candidate>>)
    ensures r.Ok? <==> NoStatFails(fs, docDir, names)
    decreases |names|
  {
    if names == [] then Ok([])
    else
      var init, last := names[..|names| - 1], names[|names| - 1];
      assert forall i | 0 <= i < |init| :: names[i] == init[i];
      ReadNext(fs, docDir, Candidates(fs, docDir, init), last)
  }

  /** A successful scan holds, in listing order, exactly the candidates of
      the names that are files. */
  lemma {:induction false} CandidatesListFiles(fs: Store, docDir: string, names: seq<string>)
    requires Candidates(fs, docDir, names).Ok?
    ensures ListsFiles(fs, docDir, names, Candidates(fs, docDir, names).value)
    decreases |names|
  {
    if names != [] {
      var init, last := names[..|names| - 1], names[|names| - 1];
      var prior := Candidates(fs, docDir, init);
      CandidatesListFiles(fs, docDir, init);
      assert names == init + [last];
      FilterSnoc(init, last, IsFileIn(fs, docDir));
      if IsFile(fs, docDir, last) {
        CandidatesOfFilesSnoc(fs, docDir, Filter(init, IsFileIn(fs, docDir)), prior.value, last);
      }
    }
  }

  /** One turn of the loop on `name`, after the candidates `prior`: the
      file's candidate is added, a directory adds nothing, and a throw (now
      or earlier) fails the scan. */
  function ReadNext(fs: Store, docDir: string, prior: Result<seq<Candidate>>, name: string): (r: Result<seq<Candidate>>)
    ensures r.Ok? <==> prior.Ok? && docDir + name !in fs.statFails
    ensures r.Ok? ==>
      r.value == prior.value + if IsFile(fs, docDir, name) then [CandidateOf(fs, docDir, name)] else []
  {
    match prior
    case Error => Error
    case Ok(cs) =>
      match GetInfo(fs, docDir + name)
      case Error => Error
      case Ok(info) =>
        Ok(cs + if info.isDirectory then [] else [Candidate(name, docDir + name, info.size)])
  }

  /** The candidates of one more name are one turn of the loop on it. */
  lemma CandidatesStep(fs: Store, docDir: string, names: seq<string>, i: nat, cs: seq<Candidate>)
    requires i < |names| && Candidates(fs, docDir, names[..i]) == Ok(cs)
    ensures GetInfo(fs, docDir + names[i]).Error? ==> Candidates(fs, docDir, names[..i + 1]).Error?
    ensures IsFile(fs, docDir, names[i]) ==>
      Candidates(fs, docDir, names[..i + 1]) == Ok(cs + [CandidateOf(fs, docDir, names[i])])
    ensures GetInfo(fs, docDir + names[i]).Ok? && GetInfo(fs, docDir + names[i]).value.isDirectory ==>
      Candidates(fs, docDir, names[..i + 1]) == Ok(cs)
  {
    assert names[..i + 1][..i] == names[..i];
    assert cs + [] == cs;
  }

  /** Every candidate is a listed name read at `docDir + name` that is not a
      directory, every listed file is a candidate, and the candidates keep
      the listing order. */
  lemma CandidatesAreTheFiles(fs: Store, docDir: string, names: seq<string>)
    requires Candidates(fs, docDir, names).Ok?
    ensures forall c | c in Candidates(fs, docDir, names).value ::
      c.name in names && c.uri == docDir + c.name
      && !(c.uri in fs.nodes && fs.nodes[c.uri].isDirectory)
    ensures forall n | n in names && !(docDir + n in fs.nodes && fs.nodes[docDir + n].isDirectory) ::
      CandidateOf(fs, docDir, n) in Candidates(fs, docDir, names).value
    ensures IsSubsequence(Filter(names, IsFileIn(fs, docDir)), names)
  {
    var cs := Candidates(fs, docDir, names).value;
    var files := Filter(names, IsFileIn(fs, docDir));
    CandidatesListFiles(fs, docDir, names);
    forall c | c in cs
      ensures c.name in names && c.uri == docDir + c.name
      ensures !(c.uri in fs.nodes && fs.nodes[c.uri].isDirectory)
    {
      var i :| 0 <= i < |cs| && cs[i] == c;
      assert files[i] in files;
      SubsequenceElements(files, names);
    }
    forall n | n in names && !(docDir + n in fs.nodes && fs.nodes[docDir + n].isDirectory)
      ensures CandidateOf(fs, docDir, n) in cs
    {
      var k :| 0 <= k < |names| && names[k] == n;
      assert IsFileIn(fs, docDir)(names[k]);
      var i :| 0 <= i < |files| && files[i] == n;
      assert cs[i] == CandidateOf(fs, docDir, n);
    }
  }

  // The bucketing below is stated for any key function `key`; the screen
  // uses `Key`. Keeping the key abstract keeps the string reasoning out of
  // the proofs about the buckets.

  /** The first of `cs` whose key is `k`: the entry `fileMap[k]` holds. */
  function FirstWithKey(cs: seq<Candidate>, k: string, key: Candidate -> string): (r: Option<Candidate>)
    ensures r.Some? ==> r.value in cs && key(r.value) == k
    ensures r.None? <==> forall i | 0 <= i < |cs| :: key(cs[i]) != k
    decreases |cs|
  {
    if cs == [] then None
    else
      var init := cs[..|cs| - 1];
      var rest := FirstWithKey(init, k, key);
      if rest.Some? then rest
      else if key(cs[|cs| - 1]) == k then Some(cs[|cs| - 1])
      else None
  }

  /** What the scan reports for `cs`: each file whose key some earlier file
      already has, named after the first of those, in listing order. */
  function Reported(cs: seq<Candidate>, key: Candidate -> string): (r: seq<Duplicate>)
    ensures |r| <= |cs|
    ensures cs != [] ==> |r| < |cs|
    decreases |cs|
  {
    if cs == [] then []
    else
      var init, c := cs[..|cs| - 1], cs[|cs| - 1];
      var first := FirstWithKey(init, key(c), key);
      Reported(init, key)
      + if first.Some? then [Duplicate(c.name, c.uri, c.size, first.value.name)] else []
  }

  /** The report of the screen, under the size-and-extension key. */
  function DuplicatesOf(cs: seq<Candidate>): seq<Duplicate> {
    Reported(cs, Key)
  }

  function Keys(cs: seq<Candidate>, key: Candidate -> string): set<string> {
    set c | c in cs :: key(c)
  }

  // ---------------------------------------------------------------------
  // scanForDuplicates
  // ---------------------------------------------------------------------

  /** What `scanForDuplicates` computes for the documents directory
      `docDir`: the report, or an error when the directory cannot be read
      or a `getInfoAsync` throws. */
  function ScanReport(fs: Store, docDir: string): Result<seq<Duplicate>> {
    match ReadDirectory(fs, docDir)
    case Error => Error
    case Ok(names) =>
      match Candidates(fs, docDir, names)
      case Error => Error
      case Ok(cs) => Ok(DuplicatesOf(cs))
  }

  /** `scanForDuplicates` up to the state update. */
  method FindDuplicates(fs: Store, docDir: string) returns (r: Result<seq<Duplicate>>)
    ensures r == ScanReport(fs, docDir)
  {
    var listing := ReadDirectory(fs, docDir);
    if listing.Error? {
      return Error;
    }
    r := BucketFiles(fs, docDir, listing.value);
  }

  /** The bucketing loop over the listing `files`, with `fileMap` as a map
      from key to first file. */
  method BucketFiles(fs: Store, docDir: string, files: seq<string>) returns (r: Result<seq<Duplicate>>)
    ensures Candidates(fs, docDir, files).Error? ==> r.Error?
    ensures Candidates(fs, docDir, files).Ok? ==> r == Ok(DuplicatesOf(Candidates(fs, docDir, files).value))
  {
    var fileMap: map<string, Candidate> := map[];
    var foundDuplicates: seq<Duplicate> := [];
    ghost var cs: seq<Candidate> := [];
    for i := 0 to |files|
      invariant Candidates(fs, docDir, files[..i]) == Ok(cs)
      invariant fileMap == FirstMap(cs, Key)
      invariant foundDuplicates == Reported(cs, Key)
    {
      var name := files[i];
      var path := docDir + name;
      var info := GetInfo(fs, path);
      CandidatesStep(fs, docDir, files, i, cs);
      if info.Error? {
        CandidatesErrorPersists(fs, docDir, files, i + 1);
        return Error;
      }
      assert info.value.isDirectory ==> Candidates(fs, docDir, files[..i + 1]) == Ok(cs);
      if !info.value.isDirectory {
        var c := Candidate(name, path, info.value.size);
        assert IsFile(fs, docDir, name) && c == CandidateOf(fs, docDir, name);
        fileMap, foundDuplicates := AddCandidate(c, fileMap, foundDuplicates, cs);
        cs := cs + [c];
      }
    }
    assert files[..|files|] == files;
    r := Ok(foundDuplicates);
  }

  /** The loop body on a file: a key already in `fileMap` reports the file
      as a copy of the file stored there, a new key stores the file. */
  method AddCandidate(c: Candidate, fileMap: map<string, Candidate>, found: seq<Duplicate>, ghost cs: seq<Candidate>)
    returns (fileMap': map<string, Candidate>, found': seq<Duplicate>)
    requires fileMap == FirstMap(cs, Key) && found == Reported(cs, Key)
    ensures fileMap' == FirstMap(cs + [c], Key) && found' == Reported(cs + [c], Key)
  {
    var key := Key(c);
    FirstMapAgrees(cs, Key, key);
    assert (cs + [c])[..|cs|] == cs;
    if key in fileMap {
      fileMap', found' := fileMap, found + [Duplicate(c.name, c.uri, c.size, fileMap[key].name)];
    } else {
      fileMap', found' := fileMap[key := c], found;
    }
  }

  /** The `fileMap` the loop has built after the files `cs`. */
  function FirstMap(cs: seq<Candidate>, key: Candidate -> string): map<string, Candidate>
    decreases |cs|
  {
    if cs == [] then map[]
    else
      var m := FirstMap(cs[..|cs| - 1], key);
      var k := key(cs[|cs| - 1]);
      if k in m then m else m[k := cs[|cs| - 1]]
  }

  /** `fileMap` holds, for each key seen, the first file with that key. */
  lemma {:induction false} FirstMapAgrees(cs: seq<Candidate>, key: Candidate -> string, k: string)
    ensures k in FirstMap(cs, key) <==> FirstWithKey(cs, k, key).Some?
    ensures k in FirstMap(cs, key) ==> FirstMap(cs, key)[k] == FirstWithKey(cs, k, key).value
    decreases |cs|
  {
    if cs != [] {
      FirstMapAgrees(cs[..|cs| - 1], key, k);
    }
  }

  /** Once a prefix of the listing fails, the whole listing fails. */
  lemma {:induction false} CandidatesErrorPersists(fs: Store, docDir: string, names: seq<string>, k: nat)
    requires k <= |names| && Candidates(fs, docDir, names[..k]).Error?
    ensures Candidates(fs, docDir, names).Error?
    decreases |names| - k
  {
    if k < |names| {
      assert names[..k + 1][..k] == names[..k];
      CandidatesErrorPersists(fs, docDir, names, k + 1);
    } else {
      assert names[..k] == names;
    }
  }

  // ---------------------------------------------------------------------
  // Properties of the report
  // ---------------------------------------------------------------------

  lemma FirstWithKeyInKeys(cs: seq<Candidate>, k: string, key: Candidate -> string)
    ensures FirstWithKey(cs, k, key).Some? <==> k in Keys(cs, key)
  {
    if k in Keys(cs, key) {
      var c :| c in cs && key(c) == k;
      var i :| 0 <= i < |cs| && cs[i] == c;
    }
  }

  /** Exactly one file per distinct key goes unreported: the number of
      copies is the number of files less the number of distinct keys. */
  lemma {:induction false} DuplicateCount(cs: seq<Candidate>, key: Candidate -> string)
    ensures |Reported(cs, key)| + |Keys(cs, key)| == |cs|
    decreases |cs|
  {
    if cs != [] {
      var init, c := cs[..|cs| - 1], cs[|cs| - 1];
      DuplicateCount(init, key);
      FirstWithKeyInKeys(init, key(c), key);
      assert cs == init + [c];
      assert Keys(cs, key) == Keys(init, key) + {key(c)};
    }
  }

  /** `d` is the report for `cs[j]`, a copy of `cs[i]`, the first file of
      its key. */
  ghost predicate ReportedPair(cs: seq<Candidate>, key: Candidate -> string, i: int, j: int, d: Duplicate)
    requires 0 <= i < j < |cs|
  {
    && key(cs[i]) == key(cs[j])
    && cs[i].name == d.original
    && d == Duplicate(cs[j].name, cs[j].uri, cs[j].size, d.original)
    && (forall h | 0 <= h < i :: key(cs[h]) != key(cs[i]))
  }

  /** The position of `FirstWithKey`: the first file with the key. */
  function FirstIndex(cs: seq<Candidate>, k: string, key: Candidate -> string): (i: nat)
    requires FirstWithKey(cs, k, key).Some?
    ensures i < |cs| && cs[i] == FirstWithKey(cs, k, key).value
    ensures forall h | 0 <= h < i :: key(cs[h]) != k
    decreases |cs|
  {
    var init := cs[..|cs| - 1];
    if FirstWithKey(init, k, key).Some? then
      var i := FirstIndex(init, k, key);
      assert forall h | 0 <= h <= i :: cs[h] == init[h];
      i
    else
      assert forall h | 0 <= h < |init| :: cs[h] == init[h];
      |cs| - 1
  }

  /** Every report is a later file of some key, named after the first file
      of that key. */
  lemma {:induction false} DuplicatesSound(cs: seq<Candidate>, key: Candidate -> string)
    ensures forall d | d in Reported(cs, key) ::
      exists i, j | 0 <= i < j < |cs| :: ReportedPair(cs, key, i, j, d)
    decreases |cs|
  {
    if cs != [] {
      var init, c := cs[..|cs| - 1], cs[|cs| - 1];
      DuplicatesSound(init, key);
      forall d | d in Reported(cs, key)
        ensures exists i, j | 0 <= i < j < |cs| :: ReportedPair(cs, key, i, j, d)
      {
        if d in Reported(init, key) {
          var i, j :| 0 <= i < j < |init| && ReportedPair(init, key, i, j, d);
          assert cs[i] == init[i] && cs[j] == init[j];
          assert forall h | 0 <= h < i :: cs[h] == init[h];
          assert ReportedPair(cs, key, i, j, d);
        } else {
          var i := FirstIndex(init, key(c), key);
          assert forall h | 0 <= h < i :: cs[h] == init[h];
          assert ReportedPair(cs, key, i, |cs| - 1, d);
        }
      }
    }
  }

  /** Whether file `j` has an earlier file with its key. */
  predicate HasEarlier(cs: seq<Candidate>, key: Candidate -> string, j: nat)
    requires j < |cs|
  {
    FirstWithKey(cs[..j], key(cs[j]), key).Some?
  }

  /** The report of file `j`, named after the first earlier file of its key. */
  function ReportOf(cs: seq<Candidate>, key: Candidate -> string, j: nat): Duplicate
    requires j < |cs| && HasEarlier(cs, key, j)
  {
    Duplicate(cs[j].name, cs[j].uri, cs[j].size, FirstWithKey(cs[..j], key(cs[j]), key).value.name)
  }

  /** The listing positions of the reported files: strictly increasing, so
      each file is reported at most once and in listing order; the report
      at each position is that file's `ReportOf`; and every file with an
      earlier file of its key has its position here. */
  function ReportIndices(cs: seq<Candidate>, key: Candidate -> string): (js: seq<nat>)
    ensures |js| == |Reported(cs, key)|
    ensures forall p | 0 <= p < |js| ::
      js[p] < |cs| && HasEarlier(cs, key, js[p]) && Reported(cs, key)[p] == ReportOf(cs, key, js[p])
    ensures forall p, q | 0 <= p < q < |js| :: js[p] < js[q]
    ensures forall j | 0 <= j < |cs| && HasEarlier(cs, key, j) :: j in js
    decreases |cs|
  {
    if cs == [] then []
    else
      var init, last := cs[..|cs| - 1], |cs| - 1;
      var js := ReportIndices(init, key);
      ReportedStep(cs, key);
      var r := js + if HasEarlier(cs, key, last) then [last] else [];
      assert forall p | 0 <= p < |js| :: r[p] == js[p];
      r
  }

  /** One more file: the report grows by that file's report, if any, and
      the earlier files keep their own. */
  lemma ReportedStep(cs: seq<Candidate>, key: Candidate -> string)
    requires cs != []
    ensures var init, last := cs[..|cs| - 1], |cs| - 1;
      && Reported(cs, key) == Reported(init, key) + (if HasEarlier(cs, key, last) then [ReportOf(cs, key, last)] else [])
      && forall j | 0 <= j < |init| ::
        HasEarlier(cs, key, j) == HasEarlier(init, key, j)
        && (HasEarlier(cs, key, j) ==> ReportOf(cs, key, j) == ReportOf(init, key, j))
  {
    var init := cs[..|cs| - 1];
    assert cs[..|cs| - 1] == init;
    forall j | 0 <= j < |init|
      ensures HasEarlier(cs, key, j) == HasEarlier(init, key, j)
      ensures HasEarlier(cs, key, j) ==> ReportOf(cs, key, j) == ReportOf(init, key, j)
    {
      assert cs[..j] == init[..j] && cs[j] == init[j];
    }
  }

  /** Every file that has an earlier file of its key is reported, named
      after the first of those. */
  lemma DuplicatesComplete(cs: seq<Candidate>, key: Candidate -> string, j: nat)
    requires j < |cs| && HasEarlier(cs, key, j)
    ensures ReportOf(cs, key, j) in Reported(cs, key)
  {
    var js := ReportIndices(cs, key);
    var p :| 0 <= p < |js| && js[p] == j;
    assert Reported(cs, key)[p] == ReportOf(cs, key, j);
  }

  /** Nothing is reported exactly when no two files share a key. */
  lemma {:induction false} NoDuplicatesIffDistinctKeys(cs: seq<Candidate>, key: Candidate -> string)
    ensures Reported(cs, key) == [] <==> forall i, j | 0 <= i < j < |cs| :: key(cs[i]) != key(cs[j])
    decreases |cs|
  {
    if cs != [] {
      var init, c := cs[..|cs| - 1], cs[|cs| - 1];
      NoDuplicatesIffDistinctKeys(init, key);
      if Reported(cs, key) == [] {
        forall i, j | 0 <= i < j < |cs| ensures key(cs[i]) != key(cs[j]) {
          if j < |cs| - 1 {
            assert cs[i] == init[i] && cs[j] == init[j];
          } else {
            assert cs[i] == init[i];
          }
        }
      } else if Reported(init, key) == [] {
        var i := FirstIndex(init, key(c), key);
        assert key(cs[i]) == key(cs[|cs| - 1]);
      } else {
        var i, j :| 0 <= i < j < |init| && key(init[i]) == key(init[j]);
        assert key(cs[i]) == key(cs[j]);
      }
    }
  }

  /** Of three files, the third is reported as a copy of the first when
      they share a key the second does not have. */
  lemma ReportOfThree(a: Candidate, c: Candidate, b: Candidate, key: Candidate -> string)
    requires key(a) == key(b) && key(c) != key(a)
    ensures Reported([a, c, b], key) == [Duplicate(b.name, b.uri, b.size, a.name)]
  {
    assert [a, c, b][..2] == [a, c] && [a, c][..1] == [a];
    assert FirstWithKey([a], key(c), key) == None;
    assert Reported([a], key) == [];
    assert Reported([a, c], key) == [];
    assert FirstWithKey([a, c], key(b), key) == Some(a);
  }

  /** The key of `stem.ext` at size `n` is the same for every stem. */
  lemma KeyOfDotted(stem: string, ext: string, uri: string, n: nat)
    requires '.' !in ext
    ensures Key(Candidate(stem + "." + ext, uri, Some(n))) == NatToString(n) + "_" + ext
  {
    LastPieceAfterSeparator(stem, ext, '.');
    assert stem + "." + ext == stem + ['.'] + ext;
  }

  /** Two files of the same size whose extensions differ only in letter
      case are not reported as copies. */
  lemma ExtensionCaseMatters()
    ensures DuplicatesOf([Candidate("a.TXT", "/d/a.TXT", Some(5)), Candidate("b.txt", "/d/b.txt", Some(5))]) == []
  {
    var a, b := Candidate("a.TXT", "/d/a.TXT", Some(5)), Candidate("b.txt", "/d/b.txt", Some(5));
    KeyOfDotted("a", "TXT", "/d/a.TXT", 5);
    KeyOfDotted("b", "txt", "/d/b.txt", 5);
    assert "a" + "." + "TXT" == "a.TXT" && "b" + "." + "txt" == "b.txt";
    assert Key(a) != Key(b) by {
      assert (NatToString(5) + "_" + "TXT")[|NatToString(5)| + 1] == 'T';
    }
    assert [a, b][..1] == [a];
    assert Reported([a], Key) == [];
    assert FirstWithKey([a], Key(b), Key) == None;
  }

  /** Two files of the same size and extension: the second is reported as
      a copy of the first, and a file of another extension between them is
      not. */
  lemma SameSizeAndExtensionReported()
    ensures DuplicatesOf([Candidate("a.txt", "/d/a.txt", Some(5)), Candidate("c.jpg", "/d/c.jpg", Some(5)),
                          Candidate("b.txt", "/d/b.txt", Some(5))])
         == [Duplicate("b.txt", "/d/b.txt", Some(5), "a.txt")]
  {
    var a, c, b := Candidate("a.txt", "/d/a.txt", Some(5)), Candidate("c.jpg", "/d/c.jpg", Some(5)),
      Candidate("b.txt", "/d/b.txt", Some(5));
    KeyOfDotted("a", "txt", "/d/a.txt", 5);
    KeyOfDotted("b", "txt", "/d/b.txt", 5);
    KeyOfDotted("c", "jpg", "/d/c.jpg", 5);
    assert "a" + "." + "txt" == "a.txt" && "b" + "." + "txt" == "b.txt" && "c" + "." + "jpg" == "c.jpg";
    assert Key(a) != Key(c) by {
      assert (NatToString(5) + "_" + "txt")[|NatToString(5)| + 1] == 't';
    }
    ReportOfThree(a, c, b, Key);
  }

  // ---------------------------------------------------------------------
  // deleteDuplicate
  // ---------------------------------------------------------------------

  /** The state update of a successful `deleteDuplicate(path)`. */
  function WithoutUri(duplicates: seq<Duplicate>, path: string): (r: seq<Duplicate>)
    ensures IsSubsequence(r, duplicates)
    ensures forall i | 0 <= i < |r| :: r[i].uri != path
    ensures forall i | 0 <= i < |duplicates| && duplicates[i].uri != path :: duplicates[i] in r
  {
    Filter(duplicates, OtherUri(path))
  }

  /** `d => d.uri !== path` */
  function OtherUri(path: string): Duplicate -> bool {
    (d: Duplicate) => d.uri != path
  }

  /** Deleting a copy drops every report at that path and keeps every other
      report, in order. */
  lemma WithoutUriSemantics(duplicates: seq<Duplicate>, path: string)
    ensures forall d | d in WithoutUri(duplicates, path) :: d.uri != path && d in duplicates
    ensures forall d | d in duplicates && d.uri != path :: multiset(WithoutUri(duplicates, path))[d] == multiset(duplicates)[d]
    ensures IsSubsequence(WithoutUri(duplicates, path), duplicates)
  {
    FilterMultiplicity(duplicates, OtherUri(path));
    SubsequenceElements(WithoutUri(duplicates, path), duplicates);
  }

  // ---------------------------------------------------------------------
  // The screen state
  // ---------------------------------------------------------------------

  /** The alert the screen raises after an action. */
  datatype Alert = NoAlert | NothingFound | ScanFailed | Deleted | DeleteFailed

  class DuplicateFinderScreen {
    var duplicates: seq<Duplicate>

    constructor ()
      ensures duplicates == []
    {
      duplicates := [];
    }

    /** `scanForDuplicates`: shows the report, with a notice when it is
        empty; a failed scan leaves the list as it was. */
    method ScanForDuplicates(fs: Store, docDir: string) returns (alert: Alert)
      modifies this
      ensures ScanReport(fs, docDir).Error? ==> duplicates == old(duplicates) && alert == ScanFailed
      ensures ScanReport(fs, docDir).Ok? ==> duplicates == ScanReport(fs, docDir).value
      ensures ScanReport(fs, docDir).Ok? ==> (alert == NothingFound <==> duplicates == [])
      ensures ScanReport(fs, docDir).Ok? ==> (alert == NoAlert <==> duplicates != [])
    {
      var found := FindDuplicates(fs, docDir);
      if found.Error? {
        return ScanFailed;
      }
      duplicates := found.value;
      alert := if |found.value| == 0 then NothingFound else NoAlert;
    }

    /** `deleteDuplicate(path)`; `deleted` is whether `deleteAsync`
        succeeded. */
    method DeleteDuplicate(path: string, deleted: bool) returns (alert: Alert)
      modifies this
      ensures deleted ==> duplicates == WithoutUri(old(duplicates), path) && alert == Deleted
      ensures !deleted ==> duplicates == old(duplicates) && alert == DeleteFailed
    {
      if !deleted {
        return DeleteFailed;
      }
      duplicates := WithoutUri(duplicates, path);
      alert := Deleted;
    }
  }
}
