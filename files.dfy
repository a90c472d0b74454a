/** The in-memory table of uploaded-file metadata, as values: its record,
    the lookup by stored filename, and the change each route makes to the
    table. The class in module Server keeps the table and its handlers are
    proved to make exactly these changes. */
module FileTable {
  import opened Common
  import Text
  import Lookup

  /** One entry of the table. */
  datatype FileRecord = FileRecord(
    filename: string,       // stored name, unique per upload in practice
    originalName: string,   // name the client sent
    filePath: string,
    tags: seq<string>,
    viewCount: nat,
    shareableLink: string)

  /** What the multipart decoder reports about the uploaded file. */
  datatype IncomingFile = IncomingFile(originalName: string)

  /** The body of the statistics route. */
  datatype FileStats = FileStats(filename: string, originalName: string, viewCount: nat, tags: seq<string>)

  const NoFileUploaded := Failure(400, "No file uploaded")
  const TagTargetMissing := Failure(400, "File not found")
  const FileNotFound := Failure(404, "File not found")

  /** The name a file is stored under: the clock value in milliseconds,
      a dash, then the client's file name. */
  function StoredFilename(now: nat, originalName: string): (name: string)
    ensures Text.EndsWith(name, "-" + originalName)
    ensures var stamp := name[..|name| - |originalName| - 1];
            stamp != [] && Text.AllDigits(stamp) && Text.ParseDecimal(stamp) == now
  {
    var name := Text.Decimal(now) + "-" + originalName;
    assert name[..|name| - |originalName| - 1] == Text.Decimal(now);
    Text.ParseDecimalOfDecimal(now);
    name
  }

  lemma DigitsHaveNoDash(s: string)
    requires Text.AllDigits(s)
    ensures '-' !in s
  {
    forall k | 0 <= k < |s| ensures s[k] != '-' {
      assert Text.IsDigit(s[k]);
    }
  }

  /** Two texts without a dash, each followed by a dash and a tail, are
      equal only when the heads and the tails are. */
  lemma FirstDashSplits(a: string, b: string, c: string, d: string)
    requires '-' !in a && '-' !in c
    requires a + "-" + b == c + "-" + d
    ensures a == c && b == d
  {
    var s := a + "-" + b;
    assert s == a + ("-" + b) == c + ("-" + d);
    Text.SplitOfPrefix(a, "-" + b, '-');
    Text.SplitOfPrefix(c, "-" + d, '-');
    Text.SplitAfterSeparator(b, '-');
    Text.SplitAfterSeparator(d, '-');
    assert a + [] == a && c + [] == c;
    assert a == Text.Split(s, '-')[0] == c;
    assert b == s[|a| + 1..] == d;
  }

  /** Different clock values or different client names always give
      different stored names. */
  lemma StoredFilenameInjective(t1: nat, o1: string, t2: nat, o2: string)
    requires StoredFilename(t1, o1) == StoredFilename(t2, o2)
    ensures t1 == t2 && o1 == o2
  {
    var a, c := Text.Decimal(t1), Text.Decimal(t2);
    DigitsHaveNoDash(a);
    DigitsHaveNoDash(c);
    FirstDashSplits(a, o1, c, o2);
    Text.DecimalInjective(t1, t2);
  }

  /** A freshly uploaded record: never viewed, untagged, served from the
      uploads path and shared through the share route of the given host. */
  function NewRecord(stored: string, originalName: string, protocol: string, host: string): (r: FileRecord)
    ensures r.filename == stored && r.originalName == originalName
    ensures r.viewCount == 0 && r.tags == []
    ensures r.filePath == "/uploads/" + stored
    ensures Text.EndsWith(r.shareableLink, "/uploads/share/" + stored)
  {
    var link := protocol + "://" + host + "/uploads/share/" + stored;
    assert link == (protocol + "://" + host) + ("/uploads/share/" + stored);
    FileRecord(stored, originalName, "/uploads/" + stored, [], 0, link)
  }

  predicate Named(name: string, f: FileRecord) {
    f.filename == name
  }

  /** `files[i]` is the first record stored under `name`. */
  predicate IsFirstNamed(files: seq<FileRecord>, name: string, i: int) {
    0 <= i < |files| && files[i].filename == name &&
    forall j :: 0 <= j < i ==> files[j].filename != name
  }

  /** The position of the first record stored under `name`. */
  function FindFile(files: seq<FileRecord>, name: string): (r: Option<nat>)
    ensures r.Some? ==> IsFirstNamed(files, name, r.value)
    ensures r.None? <==> forall j :: 0 <= j < |files| ==> files[j].filename != name
  {
    Lookup.FindIndex(files, f => Named(name, f))
  }

  lemma FindFileExactly(files: seq<FileRecord>, name: string, i: int)
    requires IsFirstNamed(files, name, i)
    ensures FindFile(files, name) == Some(i)
  {
    var r := FindFile(files, name);
    assert files[i].filename == name;
    FirstNamedUnique(files, name, i, r.value);
  }

  lemma FirstNamedUnique(files: seq<FileRecord>, name: string, i: int, k: int)
    requires IsFirstNamed(files, name, i) && IsFirstNamed(files, name, k)
    ensures i == k
  {
  }

  /** Two tables with the same names in the same order. */
  predicate SameNames(a: seq<FileRecord>, b: seq<FileRecord>) {
    |a| == |b| && forall j :: 0 <= j < |a| ==> a[j].filename == b[j].filename
  }

  /** The lookup sees only the names. */
  lemma FindFileSameNames(a: seq<FileRecord>, b: seq<FileRecord>, name: string)
    requires SameNames(a, b)
    ensures FindFile(a, name) == FindFile(b, name)
  {
    match FindFile(a, name)
    case None =>
      assert forall j :: 0 <= j < |b| ==> b[j].filename != name by {
        forall j | 0 <= j < |b| ensures b[j].filename != name {
          assert a[j].filename == b[j].filename;
        }
      }
    case Some(i) =>
      assert IsFirstNamed(b, name, i) by {
        forall j | 0 <= j < i ensures b[j].filename != name {
          assert a[j].filename == b[j].filename;
        }
      }
      FindFileExactly(b, name, i);
  }

  /** The table after the add-tags route: the first record named `name`
      has exactly `tags` as its tags (no merge), nothing else changes. */
  function Tagged(files: seq<FileRecord>, name: string, tags: seq<string>): (r: seq<FileRecord>)
    ensures SameNames(files, r)
    ensures forall j :: 0 <= j < |files| ==>
      r[j] == if FindFile(files, name) == Some(j) then files[j].(tags := tags) else files[j]
  {
    match FindFile(files, name)
    case None => files
    case Some(i) => files[i := files[i].(tags := tags)]
  }

  /** The table after a file is served: the first record named `name` has
      been viewed once more, nothing else changes. */
  function Accessed(files: seq<FileRecord>, name: string): (r: seq<FileRecord>)
    ensures SameNames(files, r)
    ensures forall j :: 0 <= j < |files| ==>
      r[j] == if FindFile(files, name) == Some(j) then files[j].(viewCount := files[j].viewCount + 1) else files[j]
  {
    match FindFile(files, name)
    case None => files
    case Some(i) => files[i := files[i].(viewCount := files[i].viewCount + 1)]
  }

  function StatsView(f: FileRecord): FileStats {
    FileStats(f.filename, f.originalName, f.viewCount, f.tags)
  }

  /** The statistics route: 404 for an unknown name, otherwise the name,
      original name, view count and tags of the first matching record. */
  function StatsOf(files: seq<FileRecord>, name: string): (r: Result<FileStats>)
    ensures r.Err? <==> forall j :: 0 <= j < |files| ==> files[j].filename != name
    ensures r.Err? ==> r.failure == FileNotFound
    ensures r.Ok? ==> exists i :: IsFirstNamed(files, name, i) && r.value == StatsView(files[i])
  {
    match FindFile(files, name)
    case None => Err(FileNotFound)
    case Some(i) => Ok(StatsView(files[i]))
  }

  /** A request that reaches the table (the gate, where a route has one,
      has let it through). */
  datatype Request =
    | Upload(file: Option<IncomingFile>, now: nat, protocol: string, host: string)
    | AddTags(filename: string, tags: seq<string>)
    | List
    | View(filename: string)
    | Share(filename: string)
    | GetStats(filename: string)

  /** The table after one request. */
  function Step(files: seq<FileRecord>, req: Request): seq<FileRecord> {
    match req
    case Upload(file, now, protocol, host) =>
      if file.None? then files
      else
        var original := file.value.originalName;
        files + [NewRecord(StoredFilename(now, original), original, protocol, host)]
    case AddTags(name, tags) => Tagged(files, name, tags)
    case View(name) => Accessed(files, name)
    case Share(name) => Accessed(files, name)
    case List => files
    case GetStats(_) => files
  }

  /** The table after requests handled one after another. */
  function Run(files: seq<FileRecord>, reqs: seq<Request>): seq<FileRecord>
    decreases |reqs|
  {
    if reqs == [] then files else Run(Step(files, reqs[0]), reqs[1..])
  }

  /** `after` keeps every record of `before` in its place, with the same
      identity (names, path, link) and a view count no smaller. */
  predicate Evolves(before: seq<FileRecord>, after: seq<FileRecord>) {
    |before| <= |after| &&
    forall j :: 0 <= j < |before| ==>
      after[j].filename == before[j].filename &&
      after[j].originalName == before[j].originalName &&
      after[j].filePath == before[j].filePath &&
      after[j].shareableLink == before[j].shareableLink &&
      after[j].viewCount >= before[j].viewCount
  }

  lemma StepEvolves(files: seq<FileRecord>, req: Request)
    ensures Evolves(files, Step(files, req))
  {
  }

  /** No sequence of requests removes a record, renames it or lowers its
      view count. */
  lemma {:induction false} RunEvolves(files: seq<FileRecord>, reqs: seq<Request>)
    ensures Evolves(files, Run(files, reqs))
    decreases |reqs|
  {
    if reqs != [] {
      var next := Step(files, reqs[0]);
      StepEvolves(files, reqs[0]);
      RunEvolves(next, reqs[1..]);
    }
  }

  predicate IsAccessOf(req: Request, name: string) {
    req == View(name) || req == Share(name)
  }

  /** The table with `n` more views recorded for `files[i]`. */
  function Bumped(files: seq<FileRecord>, i: nat, n: nat): seq<FileRecord>
    requires i < |files|
  {
    files[i := files[i].(viewCount := files[i].viewCount + n)]
  }

  /** Every request of `reqs` is an access to `name`, by either route. */
  predicate OnlyAccesses(reqs: seq<Request>, name: string)
    decreases |reqs|
  {
    reqs == [] || (IsAccessOf(reqs[0], name) && OnlyAccesses(reqs[1..], name))
  }

  /** The table after `n` accesses to `name`. */
  function AccessedTimes(files: seq<FileRecord>, name: string, n: nat): seq<FileRecord>
    decreases n
  {
    if n == 0 then files else AccessedTimes(Accessed(files, name), name, n - 1)
  }

  /** A run made only of accesses to `name` is that many accesses. */
  lemma {:induction false} RunOfAccesses(files: seq<FileRecord>, name: string, reqs: seq<Request>)
    requires OnlyAccesses(reqs, name)
    ensures Run(files, reqs) == AccessedTimes(files, name, |reqs|)
    decreases |reqs|
  {
    if reqs != [] {
      StepOfAccess(files, reqs[0], name);
      RunOfAccesses(Accessed(files, name), name, reqs[1..]);
    }
  }

  lemma {:induction false} AccessedTimesBumps(files: seq<FileRecord>, name: string, n: nat, i: nat)
    requires FindFile(files, name) == Some(i)
    ensures AccessedTimes(files, name, n) == Bumped(files, i, n)
    decreases n
  {
    if n == 0 {
      NotBumped(files, i);
    } else {
      AccessedOnce(files, name, n, i);
      AccessedTimesBumps(Accessed(files, name), name, n - 1, i);
    }
  }

  /** One access moves the table one view along, and the record keeps its place. */
  lemma AccessedOnce(files: seq<FileRecord>, name: string, n: nat, i: nat)
    requires FindFile(files, name) == Some(i) && n > 0
    ensures FindFile(Accessed(files, name), name) == Some(i)
    ensures Bumped(Accessed(files, name), i, n - 1) == Bumped(files, i, n)
  {
    AccessedAt(files, name, i);
  }

  /** N accesses to a known file, by either route, add exactly N to its
      view count and change nothing else. */
  lemma AccessesAddExactlyN(files: seq<FileRecord>, name: string, reqs: seq<Request>, i: nat)
    requires FindFile(files, name) == Some(i)
    requires OnlyAccesses(reqs, name)
    ensures Run(files, reqs) == Bumped(files, i, |reqs|)
  {
    RunOfAccesses(files, name, reqs);
    AccessedTimesBumps(files, name, |reqs|, i);
  }

  lemma NotBumped(files: seq<FileRecord>, i: nat)
    requires i < |files|
    ensures Bumped(files, i, 0) == files
  {
    assert files[i := files[i]] == files;
  }

  lemma AccessedAt(files: seq<FileRecord>, name: string, i: nat)
    requires FindFile(files, name) == Some(i)
    ensures Accessed(files, name) == Bumped(files, i, 1)
    ensures FindFile(Bumped(files, i, 1), name) == Some(i)
  {
    FindFileSameNames(files, Bumped(files, i, 1), name);
  }

  lemma StepOfAccess(files: seq<FileRecord>, req: Request, name: string)
    requires IsAccessOf(req, name)
    ensures Step(files, req) == Accessed(files, name)
  {
  }

  lemma ViewedAgain(files: seq<FileRecord>, i: nat, n: nat)
    requires i < |files|
    ensures Bumped(Bumped(files, i, 1), i, n) == Bumped(files, i, n + 1)
  {
  }

  /** Accesses to an unknown file change nothing. */
  lemma AccessesOfUnknownChangeNothing(files: seq<FileRecord>, name: string, reqs: seq<Request>)
    requires FindFile(files, name).None?
    requires OnlyAccesses(reqs, name)
    ensures Run(files, reqs) == files
  {
    RunOfAccesses(files, name, reqs);
    AccessedTimesOfUnknown(files, name, |reqs|);
  }

  lemma {:induction false} AccessedTimesOfUnknown(files: seq<FileRecord>, name: string, n: nat)
    requires FindFile(files, name).None?
    ensures AccessedTimes(files, name, n) == files
    decreases n
  {
    if n > 0 {
      AccessedTimesOfUnknown(files, name, n - 1);
    }
  }

  /** In a one-record table, tagging and serving that record touch only it. */
  lemma OneRecordTable(r: FileRecord, tags: seq<string>)
    ensures FindFile([r], r.filename) == Some(0)
    ensures Tagged([r], r.filename, tags) == [r.(tags := tags)]
    ensures Accessed([r], r.filename) == [r.(viewCount := r.viewCount + 1)]
  {
    FindFileExactly([r], r.filename, 0);
  }

  /** Tagging twice keeps only the second list: tags are replaced, not
      merged. */
  lemma TagsReplacedNotMerged(files: seq<FileRecord>, name: string, first: seq<string>, second: seq<string>)
    ensures Tagged(Tagged(files, name, first), name, second) == Tagged(files, name, second)
  {
    var once := Tagged(files, name, first);
    FindFileSameNames(files, once, name);
  }

  /** After tagging a known file its statistics report exactly the new
      tags, and the rest of its statistics are as before. */
  lemma StatsAfterAddTags(files: seq<FileRecord>, name: string, tags: seq<string>)
    ensures StatsOf(Tagged(files, name, tags), name) ==
      match StatsOf(files, name)
      case Err(failure) => Err(failure)
      case Ok(stats) => Ok(stats.(tags := tags))
  {
    var after := Tagged(files, name, tags);
    FindFileSameNames(files, after, name);
  }

  /** Tagging one file and serving another (or the same) commute. */
  lemma TagsAndAccessCommute(files: seq<FileRecord>, tagged: string, tags: seq<string>, viewed: string)
    ensures Accessed(Tagged(files, tagged, tags), viewed) == Tagged(Accessed(files, viewed), tagged, tags)
  {
    var t, a := Tagged(files, tagged, tags), Accessed(files, viewed);
    FindFileSameNames(files, t, viewed);
    FindFileSameNames(files, a, tagged);
    var left, right := Accessed(t, viewed), Tagged(a, tagged, tags);
    forall j | 0 <= j < |files| ensures left[j] == right[j] {
    }
  }

  /** Right after an upload the statistics of the new stored name show a
      never-viewed, untagged file, unless a record already had that name:
      the lookup then keeps finding the older record. */
  lemma StatsAfterUpload(files: seq<FileRecord>, file: IncomingFile, now: nat, protocol: string, host: string)
    ensures var stored := StoredFilename(now, file.originalName);
            var after := Step(files, Upload(Some(file), now, protocol, host));
            StatsOf(after, stored) ==
              if FindFile(files, stored).None? then Ok(FileStats(stored, file.originalName, 0, []))
              else StatsOf(files, stored)
  {
    var stored := StoredFilename(now, file.originalName);
    var after := Step(files, Upload(Some(file), now, protocol, host));
    match FindFile(files, stored)
    case None =>
      FindFileExactly(after, stored, |files|);
    case Some(i) =>
      assert IsFirstNamed(after, stored, i);
      FindFileExactly(after, stored, i);
  }
}
