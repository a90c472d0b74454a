/** The server's module-level table of uploaded files and the route
    handlers that read and change it. Each handler either answers with a
    fixed error status and leaves the table as it was, or appends one
    record, or changes one field of one record. */
module Server {
  import opened Common
  import opened Auth
  import opened FileTable

  class Registry {
    var files: seq<FileRecord>

    /** The table starts empty when the server starts. */
    constructor ()
      ensures files == []
    {
      files := [];
    }

    /** `POST /upload`: behind the token gate; 400 when the request carries
        no file; otherwise stores the file under `StoredFilename(now, ...)`
        and appends its record. `now`, `protocol` and `host` stand for the
        clock and the request's protocol and host. */
    method Upload(header: Option<string>, verify: string -> Option<Claims>,
                  incoming: Option<IncomingFile>, now: nat, protocol: string, host: string)
      returns (r: Result<FileRecord>)
      modifies this
      ensures Authenticate(header, verify).Err? ==> r == Err(Authenticate(header, verify).failure)
      ensures Authenticate(header, verify).Ok? && incoming.None? ==> r == Err(NoFileUploaded)
      ensures Authenticate(header, verify).Ok? && incoming.Some? ==>
        var original := incoming.value.originalName;
        r == Ok(NewRecord(StoredFilename(now, original), original, protocol, host))
      ensures files == if r.Ok? then old(files) + [r.value] else old(files)
      ensures Authenticate(header, verify).Ok? ==>
        files == Step(old(files), Request.Upload(incoming, now, protocol, host))
    {
      var auth := Authenticate(header, verify);
      if auth.Err? {
        return Err(auth.failure);
      }
      if incoming.None? {
        return Err(NoFileUploaded);
      }
      var original := incoming.value.originalName;
      var record := NewRecord(StoredFilename(now, original), original, protocol, host);
      files := files + [record];
      r := Ok(record);
    }

    /** `POST /add-tags`: behind the token gate; 400 when no record has
        that name; otherwise the first such record's tags become exactly
        `tags` and the updated record is returned. */
    method AddTags(header: Option<string>, verify: string -> Option<Claims>,
                   filename: string, tags: seq<string>)
      returns (r: Result<FileRecord>)
      modifies this
      ensures Authenticate(header, verify).Err? ==>
        r == Err(Authenticate(header, verify).failure) && files == old(files)
      ensures Authenticate(header, verify).Ok? && FindFile(old(files), filename).None? ==>
        r == Err(TagTargetMissing) && files == old(files)
      ensures Authenticate(header, verify).Ok? && FindFile(old(files), filename).Some? ==>
        files == Tagged(old(files), filename, tags) &&
        r == Ok(old(files)[FindFile(old(files), filename).value].(tags := tags))
      ensures Authenticate(header, verify).Ok? ==>
        files == Step(old(files), Request.AddTags(filename, tags))
    {
      var auth := Authenticate(header, verify);
      if auth.Err? {
        return Err(auth.failure);
      }
      var found := FindFile(files, filename);
      if found.None? {
        return Err(TagTargetMissing);
      }
      var i := found.value;
      files := files[i := files[i].(tags := tags)];
      r := Ok(files[i]);
    }

    /** `GET /uploads`: behind the token gate; the whole table, unfiltered. */
    method List(header: Option<string>, verify: string -> Option<Claims>)
      returns (r: Result<seq<FileRecord>>)
      ensures Authenticate(header, verify).Err? ==> r == Err(Authenticate(header, verify).failure)
      ensures Authenticate(header, verify).Ok? ==> r == Ok(files)
    {
      var auth := Authenticate(header, verify);
      if auth.Err? {
        return Err(auth.failure);
      }
      r := Ok(files);
    }

    /** `GET /uploads/:filename`, open to everyone: 404 for an unknown
        name; otherwise the first matching record is viewed once more and
        the stored file of that name is sent (the result names it). */
    method View(filename: string) returns (r: Result<string>)
      modifies this
      ensures r.Err? <==> FindFile(old(files), filename).None?
      ensures r.Err? ==> r.failure == FileNotFound
      ensures r.Ok? ==> r.value == filename
      ensures files == Accessed(old(files), filename)
      ensures files == Step(old(files), Request.View(filename))
    {
      var found := FindFile(files, filename);
      if found.None? {
        return Err(FileNotFound);
      }
      var i := found.value;
      files := files[i := files[i].(viewCount := files[i].viewCount + 1)];
      r := Ok(filename);
    }

    /** `GET /uploads/share/:filename`, the shareable link: the same lookup
        and the same increment as View. */
    method Share(filename: string) returns (r: Result<string>)
      modifies this
      ensures r.Err? <==> FindFile(old(files), filename).None?
      ensures r.Err? ==> r.failure == FileNotFound
      ensures r.Ok? ==> r.value == filename
      ensures files == Accessed(old(files), filename)
      ensures files == Step(old(files), Request.Share(filename))
    {
      r := View(filename);
    }

    /** `GET /uploads/stats/:filename`: read-only; 404 for an unknown name,
        otherwise the name, original name, view count and tags of the
        first matching record. */
    method Stats(filename: string) returns (r: Result<FileStats>)
      ensures r.Err? <==> forall j :: 0 <= j < |files| ==> files[j].filename != filename
      ensures r.Err? ==> r.failure == FileNotFound
      ensures r.Ok? ==> exists i :: IsFirstNamed(files, filename, i) && r.value == StatsView(files[i])
      ensures r == StatsOf(files, filename)
    {
      var found := FindFile(files, filename);
      if found.None? {
        return Err(FileNotFound);
      }
      r := Ok(StatsView(files[found.value]));
    }
  }

  /** A client of the handlers: an authenticated caller uploads one file,
      tags it, opens it through both routes and reads its statistics. */
  method UploadTagAndView(header: Option<string>, verify: string -> Option<Claims>,
                          original: string, tags: seq<string>, now: nat)
    returns (stats: Result<FileStats>)
    requires Authenticate(header, verify).Ok?
    ensures stats == Ok(FileStats(StoredFilename(now, original), original, 3, tags))
  {
    var registry := new Registry();
    var uploaded := registry.Upload(header, verify, Some(IncomingFile(original)), now, "http", "localhost:5000");
    var record := NewRecord(StoredFilename(now, original), original, "http", "localhost:5000");
    assert uploaded == Ok(record);
    var name := record.filename;
    assert registry.files == [record];
    OneRecordTable(record, tags);
    var tagged := registry.AddTags(header, verify, name, tags);
    var current := record.(tags := tags);
    assert registry.files == [current];
    OneRecordTable(current, tags);
    var viewed := registry.View(name);
    current := current.(viewCount := 1);
    assert registry.files == [current];
    OneRecordTable(current, tags);
    viewed := registry.Share(name);
    current := current.(viewCount := 2);
    assert registry.files == [current];
    OneRecordTable(current, tags);
    viewed := registry.View(name);
    current := current.(viewCount := 3);
    assert registry.files == [current];
    OneRecordTable(current, tags);
    stats := registry.Stats(name);
  }
}
