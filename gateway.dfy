/**
 * The storage gateway's upload, list, download and delete handlers
 * (backend/server.js:53-112) over an abstract upload directory. Each
 * handler is first given as a function from the directory before the
 * request to the response and the directory after it; the class
 * UploadsDir then holds the directory as a mutable map and its methods
 * perform exactly those steps.
 */
module Gateway {
  import opened StoredNames
  import opened Listing

  /** The file multer has received in the form field `file`. */
  datatype IncomingFile = IncomingFile(originalname: string, size: nat)

  /** `req.file`: absent when the request carried no file. */
  datatype Request = NoFile | WithFile(file: IncomingFile)

  /**
   * 400 'No file'; a failed disk write (see WriteFails); or the success response
   * of backend/server.js:57-63, uploadDate being the clock at response time.
   */
  datatype UploadResult =
    | BadRequest
    | WriteFailed
    | Uploaded(filename: string, originalname: string, size: nat, uploadDate: int)

  /** 404 'Not found', or the file to stream and the name it is offered under. */
  datatype DownloadResult =
    | DownloadNotFound
    | Send(filename: string, saveAs: string, size: nat)

  /** 404 'Not found'; 500 'Delete failed' when unlinking throws; or success. */
  datatype DeleteResult = DeleteNotFound | DeleteFailed | Deleted

  /** A response together with the directory as the request leaves it. */
  datatype Step<R> = Step(result: R, dir: Directory)

  /**
   * The longest entry name the filesystem accepts: NAME_MAX, 255 bytes on
   * the common Linux filesystems. A stored name is all ASCII
   * (StoredNames.StoredNameIsAscii), so its length is its size in bytes.
   */
  const MaxNameLength: nat := 255

  /**
   * multer's disk write under `name` fails: the name is longer than the
   * filesystem allows (ENAMETOOLONG), or an entry other than a regular file
   * holds it (EISDIR for a directory or a link to one). The upload handler
   * is then never reached and the request ends in 500.
   */
  predicate WriteFails(dir: Directory, name: string) {
    |name| > MaxNameLength || (name in dir && !dir[name].kind.File?)
  }

  /**
   * Upload (backend/server.js:24-31, 53-63). The clock reading for the
   * name, the random number, the file's modification time and the clock
   * reading for the response are parameters.
   */
  function UploadStep(dir: Directory, req: Request, nameTime: nat, random: nat, writeTime: int, reportTime: int)
    : (s: Step<UploadResult>)
    requires random <= MaxRandom
    ensures s.result.BadRequest? <==> req.NoFile?
    ensures s.result.WriteFailed? || s.result.BadRequest? ==> s.dir == dir
    ensures req.WithFile? ==> var name := StoredName(nameTime, random, req.file.originalname);
      && (s.result.WriteFailed? <==> WriteFails(dir, name))
      && (s.result.Uploaded? <==> !WriteFails(dir, name))
      && (s.result.Uploaded? ==>
            && s.result == Uploaded(name, req.file.originalname, req.file.size, reportTime)
            && s.dir.Keys == dir.Keys + {name}
            && s.dir[name] == Entry(File, req.file.size, writeTime)
            && forall n :: n in dir && n != name ==> n in s.dir && s.dir[n] == dir[n])
  {
    match req
    case NoFile => Step(BadRequest, dir)
    case WithFile(f) =>
      var name := StoredName(nameTime, random, f.originalname);
      if WriteFails(dir, name) then Step(WriteFailed, dir)
      else Step(Uploaded(name, f.originalname, f.size, reportTime), dir[name := Entry(File, f.size, writeTime)])
  }

  /** Download (backend/server.js:90-96): it never changes the directory. */
  function DownloadStep(dir: Directory, name: string): (r: DownloadResult)
    ensures r.DownloadNotFound? <==> name !in dir
    ensures r.Send? ==> r.filename == name && r.size == dir[name].size
    ensures r.Send? ==> r.saveAs == RecordOf(name, dir[name]).originalname
  {
    if name !in dir then DownloadNotFound else Send(name, RecoverOriginal(name), dir[name].size)
  }

  /**
   * Delete (backend/server.js:102-112). `existsSync` holds for every kind of
   * entry. `unlinkSync` removes a file or a Special entry, and throws on a
   * real sub-directory, where the handler answers 500.
   */
  function DeleteStep(dir: Directory, name: string): (s: Step<DeleteResult>)
    ensures s.result.DeleteNotFound? <==> name !in dir
    ensures s.result.DeleteFailed? <==> name in dir && dir[name].kind.Dir?
    ensures !s.result.Deleted? ==> s.dir == dir
    ensures s.result.Deleted? ==> s.dir.Keys == dir.Keys - {name}
    ensures forall n :: n in dir && n != name ==> n in s.dir && s.dir[n] == dir[n]
  {
    if name !in dir then Step(DeleteNotFound, dir)
    else if dir[name].kind.Dir? then Step(DeleteFailed, dir)
    else Step(Deleted, dir - {name})
  }

  /** Deleting the same name twice: the second request finds nothing. */
  lemma DeleteTwice(dir: Directory, name: string)
    requires DeleteStep(dir, name).result.Deleted?
    ensures DeleteStep(DeleteStep(dir, name).dir, name) == Step(DeleteNotFound, dir - {name})
  {
  }

  /**
   * Deleting what an upload stored undoes the upload: the directory is the
   * one before it, less any file the upload had overwritten.
   */
  lemma DeleteUndoesUpload(dir: Directory, f: IncomingFile, nameTime: nat, random: nat, writeTime: int, reportTime: int)
    requires random <= MaxRandom
    ensures var up := UploadStep(dir, WithFile(f), nameTime, random, writeTime, reportTime);
      up.result.Uploaded? ==>
        DeleteStep(up.dir, up.result.filename) == Step(Deleted, dir - {up.result.filename})
  {
    var up := UploadStep(dir, WithFile(f), nameTime, random, writeTime, reportTime);
    if up.result.Uploaded? {
      assert up.dir - {up.result.filename} == dir - {up.result.filename};
    }
  }

  /**
   * After an upload, downloading its stored name offers the sanitised
   * original name, or the stored name itself for an empty original name.
   */
  lemma DownloadAfterUpload(dir: Directory, f: IncomingFile, nameTime: nat, random: nat, writeTime: int, reportTime: int)
    requires random <= MaxRandom
    ensures var up := UploadStep(dir, WithFile(f), nameTime, random, writeTime, reportTime);
      up.result.Uploaded? ==>
        DownloadStep(up.dir, up.result.filename)
          == Send(up.result.filename, if f.originalname == [] then up.result.filename else Sanitize(f.originalname), f.size)
  {
    RecoverStoredName(nameTime, random, f.originalname);
  }

  /**
   * After an upload, every listing holds a record of the new file with its
   * size and modification time; its display name equals the uploaded name
   * when that name is non-empty and made of `[A-Za-z0-9._-]`.
   */
  lemma ListAfterUpload(dir: Directory, f: IncomingFile, nameTime: nat, random: nat, writeTime: int, reportTime: int,
                        names: seq<string>)
    requires random <= MaxRandom
    requires var up := UploadStep(dir, WithFile(f), nameTime, random, writeTime, reportTime);
      Distinct(names) && forall n :: n in names <==> n in up.dir
    ensures var up := UploadStep(dir, WithFile(f), nameTime, random, writeTime, reportTime);
      up.result.Uploaded? ==>
        var r := RecordOf(up.result.filename, up.dir[up.result.filename]);
        && r in ListDirectory(up.dir, names)
        && r.size == f.size && r.uploadDate == writeTime
        && (r.originalname == f.originalname
            <==> f.originalname != [] && forall i :: 0 <= i < |f.originalname| ==> IsSanitized(f.originalname[i]))
  {
    var up := UploadStep(dir, WithFile(f), nameTime, random, writeTime, reportTime);
    if up.result.Uploaded? {
      ListDirectoryCorrect(up.dir, names);
      ReportedNamesAgree(nameTime, random, f.originalname);
    }
  }

  /** The download's suggested name is the listing's display name for the same entry. */
  lemma DownloadNameMatchesListing(dir: Directory, names: seq<string>, r: FileRecord)
    requires Distinct(names) && forall n :: n in names <==> n in dir
    requires r in ListDirectory(dir, names)
    ensures DownloadStep(dir, r.filename) == Send(r.filename, r.originalname, r.size)
  {
    ListDirectoryCorrect(dir, names);
  }

  /** The upload directory, held as the map from entry name to stat data. */
  class UploadsDir {
    var files: Directory

    /** The directory as found at start-up; created empty when missing (backend/server.js:19-22). */
    constructor (existing: Directory)
      ensures files == existing
    {
      files := existing;
    }

    /** POST /api/upload. */
    method Upload(req: Request, nameTime: nat, random: nat, writeTime: int, reportTime: int)
      returns (r: UploadResult)
      requires random <= MaxRandom
      modifies this
      ensures Step(r, files) == UploadStep(old(files), req, nameTime, random, writeTime, reportTime)
    {
      match req {
        case NoFile =>
          r := BadRequest;
        case WithFile(f) =>
          var name := StoredName(nameTime, random, f.originalname);
          if WriteFails(files, name) {
            r := WriteFailed;
          } else {
            files := files[name := Entry(File, f.size, writeTime)];
            r := Uploaded(name, f.originalname, f.size, reportTime);
          }
      }
    }

    /**
     * GET /api/files. `readdirSync` yields the names in no specified
     * order; the loop picks them out one at a time in any order.
     */
    method List() returns (records: seq<FileRecord>)
      ensures NewestFirst(records)
      ensures DistinctNames(records)
      ensures forall rec :: rec in records <==> IsRecordOf(files, rec)
      ensures forall n :: n in files && files[n].kind.File? ==> RecordOf(n, files[n]) in records
    {
      var names: seq<string> := [];
      var left := files.Keys;
      while left != {}
        invariant left <= files.Keys
        invariant Distinct(names)
        invariant forall n :: n in names <==> n in files && n !in left
        decreases |left|
      {
        var n :| n in left;
        names := names + [n];
        left := left - {n};
      }
      records := ListDirectory(files, names);
      ListDirectoryCorrect(files, names);
    }

    /** GET /api/download/:filename. */
    method Download(name: string) returns (r: DownloadResult)
      ensures r == DownloadStep(files, name)
      ensures r.DownloadNotFound? <==> name !in files
      ensures r.Send? ==> r.saveAs == RecordOf(name, files[name]).originalname
    {
      if name !in files {
        r := DownloadNotFound;
      } else {
        r := Send(name, RecoverOriginal(name), files[name].size);
      }
    }

    /** DELETE /api/files/:filename. */
    method Delete(name: string) returns (r: DeleteResult)
      modifies this
      ensures Step(r, files) == DeleteStep(old(files), name)
    {
      if name !in files {
        r := DeleteNotFound;
      } else if files[name].kind.Dir? {
        r := DeleteFailed;
      } else {
        files := files - {name};
        r := Deleted;
      }
    }
  }
}
