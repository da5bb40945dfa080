/**
 * The file listing of the storage gateway (backend/server.js:69-83): the
 * directory's entries in directory order, regular files only, each mapped
 * to a record whose display name is recovered from its stored name, then
 * sorted newest first by modification time.
 */
module Listing {
  import opened StoredNames

  /**
   * The kind of a directory entry, as far as the gateway can tell: `stat`
   * follows symbolic links, so a link to a regular file is a File. Special
   * stands for every other entry that is not a real directory: a link to a
   * directory, a FIFO or a socket. `stat` reports no regular file for it,
   * yet `unlinkSync` removes it.
   */
  datatype Kind = File | Dir | Special

  /** What a stat of one directory entry yields and the gateway uses. */
  datatype Entry = Entry(kind: Kind, size: nat, mtime: int)

  /** The upload directory: entry name to stat data. */
  type Directory = map<string, Entry>

  /** One element of the listing response; uploadDate is the mtime in milliseconds. */
  datatype FileRecord = FileRecord(filename: string, originalname: string, size: nat, uploadDate: int)

  /** The record built for one entry (backend/server.js:73-81). */
  function RecordOf(name: string, e: Entry): FileRecord {
    FileRecord(name, RecoverOriginal(name), e.size, e.mtime)
  }

  /** The records that one listing of `dir` must hold: one per regular file. */
  predicate IsRecordOf(dir: Directory, r: FileRecord) {
    r.filename in dir && dir[r.filename].kind.File? && r == RecordOf(r.filename, dir[r.filename])
  }

  predicate Distinct<T(==)>(s: seq<T>) {
    forall i, j :: 0 <= i < j < |s| ==> s[i] != s[j]
  }

  /** No two records share a stored name. */
  predicate DistinctNames(s: seq<FileRecord>) {
    forall i, j :: 0 <= i < j < |s| ==> s[i].filename != s[j].filename
  }

  /** Newest first: uploadDate never increases along the sequence. */
  predicate NewestFirst(s: seq<FileRecord>) {
    forall i, j :: 0 <= i < j < |s| ==> s[i].uploadDate >= s[j].uploadDate
  }

  /** `.filter(f => statSync(f).isFile())`: the names of regular files. */
  function RegularFiles(dir: Directory, names: seq<string>): (r: seq<string>)
    ensures forall n :: n in r <==> n in names && n in dir && dir[n].kind.File?
    ensures Distinct(names) ==> Distinct(r)
  {
    if names == [] then []
    else
      var rest := RegularFiles(dir, names[1..]);
      if names[0] in dir && dir[names[0]].kind.File? then [names[0]] + rest else rest
  }

  /** `.map(filename => ...)`: one record per name, at the same position. */
  function Records(dir: Directory, names: seq<string>): (r: seq<FileRecord>)
    requires forall n :: n in names ==> n in dir
    ensures |r| == |names|
    ensures forall i :: 0 <= i < |names| ==> r[i] == RecordOf(names[i], dir[names[i]])
  {
    if names == [] then [] else [RecordOf(names[0], dir[names[0]])] + Records(dir, names[1..])
  }

  /** Every record in s is dated at or before d. */
  predicate NotNewerThan(s: seq<FileRecord>, d: int) {
    forall i :: 0 <= i < |s| ==> s[i].uploadDate <= d
  }

  /**
   * Places x in front of the first record that is not newer than it, so
   * before the records of its own date (SortIsStable).
   */
  function Insert(x: FileRecord, s: seq<FileRecord>): (r: seq<FileRecord>)
    ensures |r| == |s| + 1
    ensures forall y :: y in r <==> y == x || y in s
  {
    if s == [] || x.uploadDate >= s[0].uploadDate then [x] + s
    else [s[0]] + Insert(x, s[1..])
  }

  /** `.sort((a, b) => new Date(b.uploadDate) - new Date(a.uploadDate))`. */
  function SortNewestFirst(s: seq<FileRecord>): (r: seq<FileRecord>)
    ensures |r| == |s|
    ensures forall y :: y in r <==> y in s
  {
    if s == [] then [] else Insert(s[0], SortNewestFirst(s[1..]))
  }

  /**
   * The whole chain of backend/server.js:71-83 over the names in directory
   * order: newest first, one record per listed regular file, and only
   * records of regular files.
   */
  function ListDirectory(dir: Directory, names: seq<string>): (l: seq<FileRecord>)
    ensures NewestFirst(l)
    ensures |l| == |RegularFiles(dir, names)|
    ensures forall r :: r in l ==> IsRecordOf(dir, r)
  {
    var mapped := Records(dir, RegularFiles(dir, names));
    SortOrders(mapped);
    SortNewestFirst(mapped)
  }

  lemma {:induction false} InsertPermutes(x: FileRecord, s: seq<FileRecord>)
    ensures multiset(Insert(x, s)) == multiset(s) + multiset{x}
  {
    if s != [] && x.uploadDate < s[0].uploadDate {
      InsertPermutes(x, s[1..]);
      assert s == [s[0]] + s[1..];
    }
  }

  lemma {:induction false} InsertNotNewer(x: FileRecord, s: seq<FileRecord>, d: int)
    requires NotNewerThan(s, d) && x.uploadDate <= d
    ensures NotNewerThan(Insert(x, s), d)
  {
    if s != [] && x.uploadDate < s[0].uploadDate {
      InsertNotNewer(x, s[1..], d);
    }
  }

  /** Inserting into a newest-first sequence keeps it newest first. */
  lemma {:induction false} InsertKeepsOrder(x: FileRecord, s: seq<FileRecord>)
    requires NewestFirst(s)
    ensures NewestFirst(Insert(x, s))
  {
    if s != [] && x.uploadDate < s[0].uploadDate {
      InsertKeepsOrder(x, s[1..]);
      InsertNotNewer(x, s[1..], s[0].uploadDate);
    }
  }

  /** Inserting a record whose name is new keeps the names distinct. */
  lemma {:induction false} InsertKeepsNamesDistinct(x: FileRecord, s: seq<FileRecord>)
    requires DistinctNames(s)
    requires forall i :: 0 <= i < |s| ==> s[i].filename != x.filename
    ensures DistinctNames(Insert(x, s))
  {
    if s != [] && x.uploadDate < s[0].uploadDate {
      var t := s[1..];
      InsertKeepsNamesDistinct(x, t);
      InsertPermutes(x, t);
      var r := Insert(x, t);
      forall k | 0 <= k < |r| ensures r[k].filename != s[0].filename {
        assert r[k] in multiset(t) + multiset{x};
        if r[k] != x {
          var m :| 0 <= m < |t| && t[m] == r[k];
          assert s[1 + m] == r[k];
        }
      }
    }
  }

  /** Sorting permutes: the same records, each as often. */
  lemma {:induction false} SortPermutes(s: seq<FileRecord>)
    ensures multiset(SortNewestFirst(s)) == multiset(s)
  {
    if s != [] {
      SortPermutes(s[1..]);
      InsertPermutes(s[0], SortNewestFirst(s[1..]));
      assert s == [s[0]] + s[1..];
    }
  }

  /** Sorting yields newest first. */
  lemma {:induction false} SortOrders(s: seq<FileRecord>)
    ensures NewestFirst(SortNewestFirst(s))
  {
    if s != [] {
      SortOrders(s[1..]);
      InsertKeepsOrder(s[0], SortNewestFirst(s[1..]));
    }
  }

  /** Sorting records with distinct names keeps the names distinct. */
  lemma {:induction false} SortKeepsNamesDistinct(s: seq<FileRecord>)
    requires DistinctNames(s)
    ensures DistinctNames(SortNewestFirst(s))
  {
    if s != [] {
      var t := s[1..];
      var sorted := SortNewestFirst(t);
      assert DistinctNames(t) by {
        forall i, j | 0 <= i < j < |t| ensures t[i].filename != t[j].filename {
          assert t[i] == s[i + 1] && t[j] == s[j + 1];
        }
      }
      SortKeepsNamesDistinct(t);
      SortPermutes(t);
      forall k | 0 <= k < |sorted| ensures sorted[k].filename != s[0].filename {
        assert sorted[k] in multiset(t);
        var m :| 0 <= m < |t| && t[m] == sorted[k];
        assert s[1 + m] == sorted[k];
      }
      InsertKeepsNamesDistinct(s[0], sorted);
    }
  }

  /** The records of s dated d, in the order of s. */
  function DatedAt(s: seq<FileRecord>, d: int): seq<FileRecord> {
    if s == [] then []
    else (if s[0].uploadDate == d then [s[0]] else []) + DatedAt(s[1..], d)
  }

  lemma {:induction false} InsertDatedAt(x: FileRecord, s: seq<FileRecord>, d: int)
    requires NewestFirst(s)
    ensures DatedAt(Insert(x, s), d) == if x.uploadDate == d then [x] + DatedAt(s, d) else DatedAt(s, d)
  {
    if s == [] || x.uploadDate >= s[0].uploadDate {
      assert ([x] + s)[1..] == s;
    } else {
      var t := Insert(x, s[1..]);
      InsertDatedAt(x, s[1..], d);
      assert ([s[0]] + t)[1..] == t;
    }
  }

  /**
   * The sort is stable, as `Array.prototype.sort` is: records of one date
   * come out in the order they went in, which is directory order.
   */
  lemma {:induction false} SortIsStable(s: seq<FileRecord>, d: int)
    ensures DatedAt(SortNewestFirst(s), d) == DatedAt(s, d)
  {
    if s != [] {
      SortIsStable(s[1..], d);
      SortOrders(s[1..]);
      InsertDatedAt(s[0], SortNewestFirst(s[1..]), d);
    }
  }

  /**
   * The listing, whatever order the directory's names come in: exactly the
   * records of the regular-file entries, each once, newest first, and a
   * permutation of the mapped entries.
   */
  lemma ListDirectoryCorrect(dir: Directory, names: seq<string>)
    requires Distinct(names)
    requires forall n :: n in names <==> n in dir
    ensures var l := ListDirectory(dir, names);
      && NewestFirst(l)
      && DistinctNames(l)
      && multiset(l) == multiset(Records(dir, RegularFiles(dir, names)))
      && (forall r :: r in l <==> IsRecordOf(dir, r))
      && (forall n :: n in dir && dir[n].kind.File? ==> RecordOf(n, dir[n]) in l)
  {
    var files := RegularFiles(dir, names);
    var mapped := Records(dir, files);
    var l := ListDirectory(dir, names);
    SortPermutes(mapped);
    SortOrders(mapped);
    assert DistinctNames(mapped) by {
      forall i, j | 0 <= i < j < |mapped| ensures mapped[i].filename != mapped[j].filename {
        assert mapped[i].filename == files[i] && mapped[j].filename == files[j];
      }
    }
    SortKeepsNamesDistinct(mapped);
    forall r ensures r in l <==> IsRecordOf(dir, r) {
      assert r in l <==> r in multiset(mapped);
      if r in mapped {
        var i :| 0 <= i < |mapped| && mapped[i] == r;
        assert files[i] in files;
      }
      if IsRecordOf(dir, r) {
        assert r.filename in files;
        var i :| 0 <= i < |files| && files[i] == r.filename;
        assert mapped[i] == r;
      }
    }
    forall n | n in dir && dir[n].kind.File? ensures RecordOf(n, dir[n]) in l {
      assert IsRecordOf(dir, RecordOf(n, dir[n]));
    }
  }

  /** A directory without regular files (an empty one in particular) lists as the empty sequence. */
  lemma ListWithoutFiles(dir: Directory, names: seq<string>)
    requires forall n :: n in dir ==> !dir[n].kind.File?
    ensures ListDirectory(dir, names) == []
  {
  }
}
