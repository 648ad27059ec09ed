/** The controller's JSON store: a cache over files, one file per object name. */
module JsonDb {
  import opened Options

  datatype File = File(text: string, modified: nat)

  datatype Entry<+J> = Entry(obj: J, lastModified: nat, lastCheck: nat)

  // ------------------------------------------------------------------------
  // Names and paths

  /** The pieces between slashes, empty ones included. */
  function Pieces(n: string): (p: seq<string>)
    ensures |p| > 0
  {
    if |n| == 0 then [""]
    else
      var rest := Pieces(n[1..]);
      if n[0] == '/' then [""] + rest else [[n[0]] + rest[0]] + rest[1..]
  }

  function Join(p: seq<string>): string
    requires |p| > 0
  {
    if |p| == 1 then p[0] else p[0] + "/" + Join(p[1..])
  }

  function NonEmpty(p: seq<string>): seq<string>
  {
    if |p| == 0 then [] else if p[0] == "" then NonEmpty(p[1..]) else [p[0]] + NonEmpty(p[1..])
  }

  /** The path of an object: its non-empty pieces. */
  function Path(n: string): seq<string>
  {
    NonEmpty(Pieces(n))
  }

  /** No empty path components. */
  predicate Clean(n: string)
  {
    forall i | 0 <= i < |Pieces(n)| :: Pieces(n)[i] != ""
  }

  lemma {:induction false} JoinPieces(n: string)
    ensures Join(Pieces(n)) == n
  {
    if |n| > 0 {
      JoinPieces(n[1..]);
      var rest := Pieces(n[1..]);
      if n[0] == '/' {
        assert ([""] + rest)[1..] == rest;
        assert "" + "/" + n[1..] == n;
      } else {
        JoinPrepended([n[0]], rest, Pieces(n));
        assert [n[0]] + n[1..] == n;
      }
    }
  }

  lemma Grouping(a: string, b: string, c: string, d: string)
    ensures a + b + c + d == a + (b + c + d)
  {
  }

  /** Text put before the first piece comes before all. */
  lemma JoinPrepended(w: string, p: seq<string>, q: seq<string>)
    requires |p| > 0 && q == [w + p[0]] + p[1..]
    ensures Join(q) == w + Join(p)
  {
    assert q[1..] == p[1..];
    if |p| > 1 {
      Grouping(w, p[0], "/", Join(p[1..]));
    }
  }

  lemma {:induction false} NonEmptyKeeps(p: seq<string>)
    requires forall i | 0 <= i < |p| :: p[i] != ""
    ensures NonEmpty(p) == p
  {
    if |p| > 0 {
      NonEmptyKeeps(p[1..]);
    }
  }

  /** Clean names have paths of their own. */
  lemma PathInjective(m: string, n: string)
    requires Clean(m) && Clean(n) && Path(m) == Path(n)
    ensures m == n
  {
    NonEmptyKeeps(Pieces(m));
    NonEmptyKeeps(Pieces(n));
    JoinPieces(m);
    JoinPieces(n);
  }

  /** Components of a file's path. */
  predicate GoodPath(p: seq<string>)
  {
    |p| > 0 && forall i | 0 <= i < |p| :: p[i] != "" && '/' !in p[i]
  }

  lemma {:induction false} PiecesHaveNoSlash(n: string)
    ensures forall i | 0 <= i < |Pieces(n)| :: '/' !in Pieces(n)[i]
  {
    if |n| > 0 {
      PiecesHaveNoSlash(n[1..]);
    }
  }

  lemma CleanPath(n: string)
    requires Clean(n)
    ensures GoodPath(Path(n)) && Join(Path(n)) == n
  {
    NonEmptyKeeps(Pieces(n));
    PiecesHaveNoSlash(n);
    JoinPieces(n);
  }

  lemma {:induction false} PiecesOfWord(w: string, rest: string)
    requires '/' !in w
    ensures Pieces(w) == [w] && Pieces(w + "/" + rest) == [w] + Pieces(rest)
    decreases |w|
  {
    if |w| > 0 {
      assert forall c | c in w[1..] :: c in w;
      PiecesOfWord(w[1..], rest);
      assert (w + "/" + rest)[1..] == w[1..] + "/" + rest;
      assert w == [w[0]] + w[1..] && w[0] in w;
    } else {
      assert ("" + "/" + rest)[1..] == rest;
    }
  }

  lemma {:induction false} PiecesOfJoin(p: seq<string>)
    requires GoodPath(p)
    ensures Pieces(Join(p)) == p
    decreases |p|
  {
    PiecesOfWord(p[0], if |p| == 1 then "" else Join(p[1..]));
    if |p| > 1 {
      PiecesOfJoin(p[1..]);
    }
  }

  /** The name of a file leads back to it. */
  lemma NameOfPath(p: seq<string>)
    requires GoodPath(p)
    ensures Clean(Join(p)) && Path(Join(p)) == p
  {
    PiecesOfJoin(p);
    NonEmptyKeeps(p);
  }

  lemma {:induction false} NonEmptyPieces(p: seq<string>)
    requires forall i | 0 <= i < |p| :: '/' !in p[i]
    ensures forall i | 0 <= i < |NonEmpty(p)| :: NonEmpty(p)[i] != "" && '/' !in NonEmpty(p)[i]
  {
    if |p| > 0 {
      NonEmptyPieces(p[1..]);
    }
  }

  /** Every name with a path has the path of a clean name. */
  lemma CleanTwin(n: string)
    requires Path(n) != []
    ensures GoodPath(Path(n)) && Clean(Join(Path(n))) && Path(Join(Path(n))) == Path(n)
  {
    PiecesHaveNoSlash(n);
    NonEmptyPieces(Pieces(n));
    NameOfPath(Path(n));
  }

  /** A name has a file that no other clean name has exactly when it has no empty components. */
  lemma OwnFileIffClean(n: string)
    requires Path(n) != []
    ensures Clean(n) <==> forall m | Clean(m) && Path(m) == Path(n) :: m == n
  {
    hide Path, Clean;
    if Clean(n) {
      forall m | Clean(m) && Path(m) == Path(n)
        ensures m == n
      {
        PathInjective(m, n);
      }
    } else {
      CleanTwin(n);
    }
  }

  predicate AllowedChar(c: char)
  {
    'a' <= c <= 'z' || 'A' <= c <= 'Z' || '0' <= c <= '9' || c == '/' || c == '_' || c == '~' || c == '-'
  }

  predicate ValidName(n: string)
  {
    |n| > 0 && forall i | 0 <= i < |n| :: AllowedChar(n[i])
  }

  predicate HexDigits(s: string)
  {
    forall i | 0 <= i < |s| :: '0' <= s[i] <= '9' || 'a' <= s[i] <= 'f'
  }

  lemma WordPath(w: string)
    requires w != "" && '/' !in w
    ensures Path(w) == [w]
  {
    PiecesOfWord(w, "");
    NonEmptyKeeps([w]);
  }

  lemma PathNext(w: string, rest: string)
    requires w != "" && '/' !in w
    ensures Path(w + "/" + rest) == [w] + Path(rest)
  {
    PiecesOfWord(w, rest);
    assert ([w] + Pieces(rest))[1..] == Pieces(rest);
  }

  /** The names of the controller's records are taken, and lead to files of their own. */
  lemma RecordNames(nwid: string, member: string)
    requires |nwid| == 16 && HexDigits(nwid) && |member| == 10 && HexDigits(member)
    ensures var n := "network/" + nwid;
            ValidName(n) && Path(n) == ["network", nwid]
    ensures var m := "network/" + nwid + "/member/" + member;
            ValidName(m) && Path(m) == ["network", nwid, "member", member]
  {
    hide Path;
    WordPath(nwid);
    WordPath(member);
    PathNext("member", member);
    PathNext(nwid, "member/" + member);
    PathNext("network", nwid);
    PathNext("network", nwid + "/member/" + member);
    assert "network" + "/" + nwid == "network/" + nwid;
    assert "member" + "/" + member == "member/" + member;
    assert nwid + "/" + ("member/" + member) == nwid + "/member/" + member;
    assert "network" + "/" + (nwid + "/member/" + member) == "network/" + nwid + "/member/" + member;
  }

  /** No name taken can leave the directory or reach a hidden or foreign file. */
  lemma RefusedNames(n: string)
    requires ValidName(n)
    ensures '.' !in n && '\\' !in n && ':' !in n && ' ' !in n
  {
  }

  // ------------------------------------------------------------------------
  // Order of names

  /** Byte-wise order, as the sorted map iterates. */
  predicate LessEq(a: string, b: string)
  {
    if |a| == 0 then true
    else if |b| == 0 then false
    else if a[0] != b[0] then a[0] < b[0]
    else LessEq(a[1..], b[1..])
  }

  /** At their first difference the smaller byte comes first, and a prefix before what it begins. */
  lemma {:induction false} LessEqIff(a: string, b: string)
    ensures LessEq(a, b) <==>
              a <= b || exists k | 0 <= k < |a| && k < |b| :: a[..k] == b[..k] && a[k] < b[k]
  {
    if |a| > 0 && |b| > 0 {
      if a[0] == b[0] {
        LessEqIff(a[1..], b[1..]);
        assert a <= b <==> a[1..] <= b[1..];
        if exists k | 0 <= k < |a[1..]| && k < |b[1..]| :: a[1..][..k] == b[1..][..k] && a[1..][k] < b[1..][k] {
          var k :| 0 <= k < |a[1..]| && k < |b[1..]| && a[1..][..k] == b[1..][..k] && a[1..][k] < b[1..][k];
          assert a[..k + 1] == [a[0]] + a[1..][..k] && b[..k + 1] == [b[0]] + b[1..][..k];
          assert a[..k + 1] == b[..k + 1] && a[k + 1] < b[k + 1];
        }
        if exists k | 0 <= k < |a| && k < |b| :: a[..k] == b[..k] && a[k] < b[k] {
          var k :| 0 <= k < |a| && k < |b| && a[..k] == b[..k] && a[k] < b[k];
          assert a[1..][..k - 1] == a[..k][1..] && b[1..][..k - 1] == b[..k][1..];
          assert a[1..][k - 1] < b[1..][k - 1];
        }
      } else {
        assert a[..0] == b[..0];
        forall k | 0 < k < |a| && k < |b|
          ensures a[..k] != b[..k]
        {
          assert a[..k][0] != b[..k][0];
        }
      }
    }
  }

  lemma {:induction false} LessEqTotal(a: string, b: string)
    ensures LessEq(a, b) || LessEq(b, a)
  {
    if |a| > 0 && |b| > 0 && a[0] == b[0] {
      LessEqTotal(a[1..], b[1..]);
    }
  }

  lemma {:induction false} LessEqTransitive(a: string, b: string, c: string)
    requires LessEq(a, b) && LessEq(b, c)
    ensures LessEq(a, c)
  {
    if |a| > 0 && a[0] == b[0] && b[0] == c[0] {
      LessEqTransitive(a[1..], b[1..], c[1..]);
    }
  }

  lemma {:induction false} PrefixIsLess(p: string, k: string)
    requires p <= k
    ensures LessEq(p, k)
  {
    if |p| > 0 {
      PrefixIsLess(p[1..], k[1..]);
    }
  }

  /** Keys with a prefix are contiguous: nothing without it lies between the prefix and one of them. */
  lemma {:induction false} PrefixContiguous(p: string, a: string, b: string)
    requires LessEq(p, a) && LessEq(a, b) && p <= b
    ensures p <= a
  {
    if |p| > 0 {
      PrefixContiguous(p[1..], a[1..], b[1..]);
    }
  }

  /** A least name of a set. */
  lemma {:induction false} LeastExists(s: set<string>) returns (k: string)
    requires s != {}
    ensures k in s && forall j | j in s :: LessEq(k, j)
    decreases |s|
  {
    k :| k in s;
    LessEqTotal(k, k);
    if s != {k} {
      var least := LeastExists(s - {k});
      LessEqTotal(k, least);
      if LessEq(k, least) {
        forall j | j in s
          ensures LessEq(k, j)
        {
          if j != k {
            LessEqTransitive(k, least, j);
          }
        }
      } else {
        k := least;
      }
    }
  }

  /** Where the iterator stands. */
  method Least(s: set<string>) returns (k: string)
    requires s != {}
    ensures k in s && forall j | j in s :: LessEq(k, j)
  {
    ghost var least := LeastExists(s);
    k :| k in s && forall j | j in s :: LessEq(k, j);
  }

  // ------------------------------------------------------------------------
  // The store

  type Disk = map<seq<string>, File>

  /** Files have paths of non-empty components. */
  predicate GoodFiles(files: Disk)
  {
    forall p | p in files :: GoodPath(p)
  }

  lemma GoodMore(files: Disk, n: string, f: File)
    requires GoodFiles(files) && Clean(n)
    ensures GoodFiles(files[Path(n) := f])
  {
    hide Path, Clean, GoodPath;
    CleanPath(n);
  }

  lemma GoodLess(files: Disk, p: seq<string>)
    ensures GoodFiles(files) ==> GoodFiles(files - {p})
  {
    hide GoodPath;
  }

  class Store<J(==,!new)> {
    const dump: J -> string
    const parse: string -> Option<J>
    const empty: J
    var disk: Disk
    var db: map<string, Entry<J>>

    constructor (dump_: J -> string, parse_: string -> Option<J>, empty_: J, files: Disk)
      requires (forall j: J :: parse_(dump_(j)) == Some(j)) && GoodFiles(files)
      ensures Valid() && disk == files && db == map[]
    {
      dump, parse, empty := dump_, parse_, empty_;
      disk, db := files, map[];
    }

    /** What a file holds: text that does not parse counts as the empty object. */
    function Parsed(f: File): J
    {
      if parse(f.text).Some? then parse(f.text).value else empty
    }

    /** The file behind a name as an object, the empty one without a file. */
    function FileOf(files: Disk, n: string): J
    {
      if Path(n) in files then Parsed(files[Path(n)]) else empty
    }

    /** The plain map behind the store. */
    function Contents(n: string): J
      reads this
    {
      FileOf(disk, n)
    }

    /** Zero without a file. */
    function LastModified(files: Disk, n: string): nat
    {
      if Path(n) in files then files[Path(n)].modified else 0
    }

    /** Dumped objects parse back. */
    ghost predicate Law()
    {
      forall j: J :: parse(dump(j)) == Some(j)
    }

    /** Cached entries mirror their files. */
    ghost predicate Valid()
      reads this
    {
      Law() && GoodFiles(disk) && Mirrored(disk, db)
    }

    ghost predicate Mirrored(files: Disk, cache: map<string, Entry<J>>)
    {
      forall n | n in cache :: Mirrors(files, n, cache[n])
    }

    predicate Mirrors(files: Disk, n: string, e: Entry<J>)
    {
      && Clean(n) && ValidName(n) && Path(n) in files
      && e.obj == Parsed(files[Path(n)]) && e.lastModified == files[Path(n)].modified
    }

    /** No entry that passes for current is stale: one with its file's time has the file's contents.
        Unlike `Valid`, this allows for names that share a file and for files written from outside. */
    ghost predicate Tracked()
      reads this
    {
      Law() && Tracking(disk, db)
    }

    ghost predicate Tracking(files: Disk, cache: map<string, Entry<J>>)
    {
      forall n | n in cache :: Tracks(files, n, cache[n])
    }

    predicate Tracks(files: Disk, n: string, e: Entry<J>)
    {
      Path(n) in files && e.lastModified == files[Path(n)].modified ==> e.obj == Parsed(files[Path(n)])
    }

    /** No entry for the path already has the time of the new file without its contents. */
    ghost predicate NewTime(cache: map<string, Entry<J>>, p: seq<string>, f: File)
    {
      forall m | m in cache && Path(m) == p && cache[m].lastModified == f.modified :: cache[m].obj == Parsed(f)
    }

    lemma ValidIsTracked()
      requires Valid()
      ensures Tracked()
    {
      hide Path, Clean, GoodFiles;
      forall n | n in db
        ensures Tracks(disk, n, db[n])
      {
        assert Mirrors(disk, n, db[n]);
      }
    }

    /** Writing a file leaves no stale entry that passes for current exactly when its time is new to
        the entries for its path. */
    lemma WrittenTracks(files: Disk, cache: map<string, Entry<J>>, p: seq<string>, f: File)
      requires Tracking(files, cache)
      ensures Tracking(files[p := f], cache) <==> NewTime(cache, p, f)
    {
      hide Path, Parsed;
      if NewTime(cache, p, f) {
        forall m | m in cache
          ensures Tracks(files[p := f], m, cache[m])
        {
          assert Tracks(files, m, cache[m]);
        }
      } else {
        var m :| m in cache && Path(m) == p && cache[m].lastModified == f.modified && cache[m].obj != Parsed(f);
        assert !Tracks(files[p := f], m, cache[m]);
      }
    }

    lemma TrackingLess(files: Disk, cache: map<string, Entry<J>>, p: seq<string>, n: string)
      requires Tracking(files, cache)
      ensures Tracking(files - {p}, cache - {n}) && Tracking(files, cache - {n})
    {
      hide Path, Parsed;
      forall m | m in cache && m != n
        ensures Tracks(files - {p}, m, cache[m]) && Tracks(files, m, cache[m])
      {
        assert Tracks(files, m, cache[m]);
      }
    }

    lemma TrackingMore(files: Disk, cache: map<string, Entry<J>>, n: string, e: Entry<J>)
      requires Tracking(files, cache) && Tracks(files, n, e)
      ensures Tracking(files, cache[n := e])
    {
      hide Tracks;
    }

    /** After `put` the cache is what it was without the name, and the new entry. */
    lemma PutTracks(files: Disk, cache: map<string, Entry<J>>, n: string, f: File, e: Entry<J>)
      requires Tracking(files, cache) && e.obj == Parsed(f)
      ensures Tracking(files[Path(n) := f], cache[n := e]) <==> NewTime(cache - {n}, Path(n), f)
    {
      hide Path, Parsed, NewTime, Tracks;
      TrackingLess(files, cache, Path(n), n);
      WrittenTracks(files, cache - {n}, Path(n), f);
      assert cache[n := e] == (cache - {n})[n := e];
      if Tracking(files[Path(n) := f], cache - {n}) {
        OwnTracks(files[Path(n) := f], n, f, e);
        TrackingMore(files[Path(n) := f], cache - {n}, n, e);
      }
      if Tracking(files[Path(n) := f], cache[n := e]) {
        TrackingLess(files[Path(n) := f], cache[n := e], Path(n), n);
        assert cache[n := e] - {n} == cache - {n};
      }
    }

    lemma OwnTracks(files: Disk, n: string, f: File, e: Entry<J>)
      requires Path(n) in files && files[Path(n)] == f && e.obj == Parsed(f)
      ensures Tracks(files, n, e)
    {
    }

    /** Writing through a clean name keeps the other entries mirroring their files. */
    lemma PutMirrors(files: Disk, cache: map<string, Entry<J>>, n: string, f: File, e: Entry<J>)
      requires Mirrored(files, cache) && Clean(n) && ValidName(n) && e.obj == Parsed(f) && e.lastModified == f.modified
      ensures Mirrored(files[Path(n) := f], cache[n := e])
    {
      hide Path, Clean, Parsed, ValidName;
      OthersApart(n);
      forall m | m in cache && m != n
        ensures Mirrors(files[Path(n) := f], m, cache[m])
      {
        assert Mirrors(files, m, cache[m]);
      }
    }

    lemma MirroredMore(files: Disk, cache: map<string, Entry<J>>, n: string, e: Entry<J>)
      requires Mirrored(files, cache) && Mirrors(files, n, e)
      ensures Mirrored(files, cache[n := e])
    {
      hide Mirrors;
    }

    lemma MirroredLess(files: Disk, cache: map<string, Entry<J>>, n: string)
      requires Mirrored(files, cache) && Clean(n)
      ensures Mirrored(files - {Path(n)}, cache - {n})
    {
      hide Path, Clean, Parsed, ValidName;
      OthersApart(n);
      forall m | m in cache && m != n
        ensures Mirrors(files - {Path(n)}, m, cache[m])
      {
        assert Mirrors(files, m, cache[m]);
      }
    }

    lemma OthersApart(n: string)
      requires Clean(n)
      ensures forall m | Clean(m) && m != n :: Path(m) != Path(n)
    {
      forall m | Clean(m) && m != n
        ensures Path(m) != Path(n)
      {
        if Path(m) == Path(n) {
          PathInjective(m, n);
        }
      }
    }

    /** Names that the store takes. */
    predicate Accepted(n: string)
    {
      ValidName(n) && Path(n) != []
    }

    lemma CleanAccepted(n: string)
      requires Clean(n)
      ensures Path(n) != []
    {
      CleanPath(n);
    }

    /** The file of an object. */
    function Dumped(obj: J, modified: nat): File
    {
      File(dump(obj), modified)
    }

    /** Writes the file, then the cache entry; every name with that path has the new contents. */
    method Put(n: string, obj: J, writable: bool, modified: nat, now: nat) returns (ok: bool)
      modifies this
      ensures ok == (Accepted(n) && writable)
      ensures disk == if ok then old(disk)[Path(n) := Dumped(obj, modified)] else old(disk)
      ensures db == if ok then old(db)[n := Entry(obj, modified, now)] else old(db)
      ensures ok && Law() ==> forall m :: Contents(m) == if Path(m) == Path(n) then obj else old(Contents(m))
      ensures ok && Law() && Clean(n) ==> forall m | Clean(m) && m != n :: Contents(m) == old(Contents(m))
      ensures old(Valid()) && Clean(n) ==> Valid()
      ensures old(Tracked()) ==> (Tracked() <==> (ok ==> NewTime(old(db) - {n}, Path(n), Dumped(obj, modified))))
    {
      hide Path, Clean, NewTime, GoodFiles, Mirrored, Tracking, ValidName;
      if !Accepted(n) || !writable {
        return false;
      }
      ghost var f, e := Dumped(obj, modified), Entry(obj, modified, now);
      disk := disk[Path(n) := Dumped(obj, modified)];
      db := db[n := Entry(obj, modified, now)];
      if Law() {
        assert Parsed(f) == obj;
        if Tracking(old(disk), old(db)) {
          PutTracks(old(disk), old(db), n, f, e);
        }
        if Clean(n) {
          OthersApart(n);
          if Mirrored(old(disk), old(db)) && GoodFiles(old(disk)) {
            PutMirrors(old(disk), old(db), n, f, e);
            GoodMore(old(disk), n, f);
          }
        }
      }
      return true;
    }

    /** Whether a cached entry is read again: it is old enough, its file has another time, can be
        read and parses. */
    predicate ReadAgain(files: Disk, e: Entry<J>, n: string, maxSinceCheck: nat, now: nat, readable: bool)
    {
      && !(0 <= now - e.lastCheck <= maxSinceCheck)
      && e.lastModified != LastModified(files, n)
      && readable && Path(n) in files && parse(files[Path(n)].text).Some?
    }

    /** What the store answers for an accepted name. */
    function Answer(files: Disk, cache: map<string, Entry<J>>, n: string, maxSinceCheck: nat, now: nat,
                    readable: bool): J
    {
      if n in cache && !ReadAgain(files, cache[n], n, maxSinceCheck, now, readable) then cache[n].obj
      else if readable then FileOf(files, n) else empty
    }

    /** Within the age limit the disk is not looked at; past it an entry stays while its file has its
        time, is missing, cannot be read or does not parse. */
    lemma AnswerFromCache(files: Disk, cache: map<string, Entry<J>>, n: string, maxSinceCheck: nat, now: nat,
                          readable: bool)
      requires n in cache
      requires || cache[n].lastCheck <= now <= cache[n].lastCheck + maxSinceCheck || Path(n) !in files || !readable
               || files[Path(n)].modified == cache[n].lastModified || parse(files[Path(n)].text) == None
      ensures Answer(files, cache, n, maxSinceCheck, now, readable) == cache[n].obj
    {
      hide Path;
    }

    /** Otherwise, and for names without an entry, the file answers; unreadable and missing files and
        texts that do not parse are empty objects. */
    lemma AnswerFromFile(files: Disk, cache: map<string, Entry<J>>, n: string, maxSinceCheck: nat, now: nat, f: File)
      requires Path(n) in files && files[Path(n)] == f
      requires n in cache ==> && !(cache[n].lastCheck <= now <= cache[n].lastCheck + maxSinceCheck)
                              && f.modified != cache[n].lastModified && parse(f.text).Some?
      ensures parse(f.text).Some? ==> Answer(files, cache, n, maxSinceCheck, now, true) == parse(f.text).value
      ensures parse(f.text) == None ==> Answer(files, cache, n, maxSinceCheck, now, true) == empty
      ensures n !in cache ==> Answer(files, cache, n, maxSinceCheck, now, false) == empty
    {
      hide Path;
    }

    /** Past the age limit a tracked entry for a readable file gives the file's contents, whoever
        wrote it, unless the text does not parse and the entry holds something else. */
    lemma TrackedAnswer(files: Disk, cache: map<string, Entry<J>>, n: string, maxSinceCheck: nat, now: nat)
      requires Tracking(files, cache) && Path(n) in files
      requires n in cache ==> !(0 <= now - cache[n].lastCheck <= maxSinceCheck)
      ensures Answer(files, cache, n, maxSinceCheck, now, true) == FileOf(files, n) <==>
                (n in cache && parse(files[Path(n)].text) == None ==> cache[n].obj == empty)
    {
      hide Path;
      if n in cache {
        assert Tracks(files, n, cache[n]);
      }
    }

    /** Answers from the cache or the file; while every entry mirrors its file, that is the plain
        map's value whatever the age limit. */
    method Get(n: string, maxSinceCheck: nat, now: nat, readable: bool) returns (obj: J)
      modifies this`db
      ensures obj == if Accepted(n) then Answer(disk, old(db), n, maxSinceCheck, now, readable) else empty
      ensures db.Keys == old(db.Keys) + (if Accepted(n) && Path(n) in disk && readable then {n} else {})
      ensures forall m | m in old(db) && m != n :: db[m] == old(db[m])
      ensures n in db ==> db[n] == if n in old(db)
                                      && !(Accepted(n) && ReadAgain(disk, old(db)[n], n, maxSinceCheck, now, readable))
                                   then old(db)[n] else Entry(FileOf(disk, n), LastModified(disk, n), now)
      ensures old(Tracked()) ==> Tracked()
      ensures old(Valid()) && Clean(n) ==> Valid()
      ensures old(Valid()) && Clean(n) && (readable || n in old(db)) ==>
                obj == if ValidName(n) then Contents(n) else empty
    {
      hide Path, Clean, GoodFiles, Mirrored, Tracking, ValidName;
      if Clean(n) {
        CleanAccepted(n);
      }
      if !Accepted(n) {
        return empty;
      }
      if n in db {
        MirroredEntry(n);
        if 0 <= now - db[n].lastCheck <= maxSinceCheck {
          return db[n].obj;
        }
        var lm := LastModified(disk, n);
        if db[n].lastModified != lm && readable && Path(n) in disk && parse(disk[Path(n)].text).Some? {
          db := db[n := Entry(parse(disk[Path(n)].text).value, lm, now)];
          ReadEntry(old(db), n, db[n]);
        }
        return db[n].obj;
      }
      if !readable || Path(n) !in disk {
        return empty;
      }
      obj := Parsed(disk[Path(n)]);
      db := db[n := Entry(obj, disk[Path(n)].modified, now)];
      ReadEntry(old(db), n, db[n]);
    }

    lemma MirroredEntry(n: string)
      requires n in db
      ensures Mirrored(disk, db) ==> Mirrors(disk, n, db[n])
    {
      hide Mirrors;
    }

    /** An entry read from its file keeps what held of the cache. */
    lemma ReadEntry(cache: map<string, Entry<J>>, n: string, e: Entry<J>)
      requires ValidName(n) && Path(n) in disk
      requires e.obj == Parsed(disk[Path(n)]) && e.lastModified == disk[Path(n)].modified
      ensures Tracking(disk, cache) ==> Tracking(disk, cache[n := e])
      ensures Mirrored(disk, cache) && Clean(n) ==> Mirrored(disk, cache[n := e])
    {
      hide Path, Parsed, Clean, ValidName;
      if Tracking(disk, cache) {
        TrackingMore(disk, cache, n, e);
      }
      if Mirrored(disk, cache) && Clean(n) {
        MirroredMore(disk, cache, n, e);
      }
    }

    /** `writeRaw`: writes the file past the cache. */
    method WriteRaw(n: string, text: string, writable: bool, modified: nat) returns (ok: bool)
      modifies this`disk
      ensures ok == (Accepted(n) && writable)
      ensures disk == if ok then old(disk)[Path(n) := File(text, modified)] else old(disk)
      ensures old(Tracked()) ==> (Tracked() <==> (ok ==> NewTime(db, Path(n), File(text, modified))))
    {
      hide Path, NewTime, Tracking, ValidName;
      ok := Accepted(n) && writable;
      if ok {
        disk := disk[Path(n) := File(text, modified)];
        if Tracking(old(disk), db) {
          WrittenTracks(old(disk), db, Path(n), File(text, modified));
        }
      }
    }

    /** Removes the file and the entry; every name with that path loses its contents. */
    method Erase(n: string)
      modifies this
      ensures disk == if Accepted(n) then old(disk) - {Path(n)} else old(disk)
      ensures db == if Accepted(n) then old(db) - {n} else old(db)
      ensures Accepted(n) ==> forall m :: Contents(m) == if Path(m) == Path(n) then empty else old(Contents(m))
      ensures old(Valid()) && Clean(n) ==> Valid()
      ensures Accepted(n) && Clean(n) ==> forall m | Clean(m) && m != n :: Contents(m) == old(Contents(m))
      ensures old(Tracked()) ==> Tracked()
    {
      hide Path, Clean, GoodFiles, Mirrored, Tracking, ValidName;
      if !Accepted(n) {
        return;
      }
      disk := disk - {Path(n)};
      db := db - {n};
      GoodLess(old(disk), Path(n));
      if Tracking(old(disk), old(db)) {
        TrackingLess(old(disk), old(db), Path(n), n);
      }
      if Clean(n) {
        OthersApart(n);
        if Mirrored(old(disk), old(db)) {
          MirroredLess(old(disk), old(db), n);
        }
      }
    }

    /** Loads every file that has a valid name. */
    method Reload(now: nat)
      requires Law() && GoodFiles(disk)
      modifies this`db
      ensures Valid() && Tracked() && forall n :: n in db <==> ValidName(n) && Clean(n) && Path(n) in disk
      ensures forall n | n in db :: db[n].lastCheck == now
    {
      hide Path, Clean, Join, Parsed, GoodPath;
      db := map[];
      assert Valid();
      var rest := disk.Keys;
      while rest != {}
        invariant Valid() && rest <= disk.Keys
        invariant forall n :: n in db <==> ValidName(n) && Clean(n) && Path(n) in disk && Path(n) !in rest
        invariant forall n | n in db :: db[n].lastCheck == now
        decreases |rest|
      {
        var p :| p in rest;
        LoadFile(p, now);
        rest := rest - {p};
      }
      ValidIsTracked();
    }

    method LoadFile(p: seq<string>, now: nat)
      requires Valid() && p in disk && forall n | n in db :: db[n].lastCheck == now
      modifies this`db
      ensures Valid() && forall n | n in db :: db[n].lastCheck == now
      ensures forall n :: n in db <==> n in old(db) || (ValidName(n) && Clean(n) && Path(n) == p)
    {
      hide Path, Clean, Join, Parsed;
      NameOfPath(p);
      OthersApart(Join(p));
      CleanAccepted(Join(p));
      var obj := Get(Join(p), 0, now, true);
    }

    /** What the filter function is shown for a name, given the files that are left. */
    function Shown(files: Disk, cache: map<string, Entry<J>>, n: string, maxSinceCheck: nat, now: nat,
                   readable: string -> bool): J
    {
      if Accepted(n) then Answer(files, cache, n, maxSinceCheck, now, readable(n)) else empty
    }

    /** The names erased for what was shown. */
    function Rejected(keep: (string, J) -> bool, visited: seq<string>, shown: seq<J>): set<string>
      requires |visited| == |shown|
    {
      set i | 0 <= i < |visited| && Accepted(visited[i]) && !keep(visited[i], shown[i]) :: visited[i]
    }

    function Without(files: Disk, names: set<string>): Disk
    {
      files - (set n | n in names :: Path(n))
    }

    /** Whatever state the store is in: visits, in byte order, exactly the cached names with the
        prefix; shows for each its answer from the old cache and the files then left; and erases
        entry and file of exactly those rejected. While all entries mirror their files, what is
        shown is the plain map. */
    method Filter(prefix: string, maxSinceCheck: nat, now: nat, readable: string -> bool, keep: (string, J) -> bool)
      returns (ghost visited: seq<string>, ghost shown: seq<J>)
      modifies this
      ensures Swept(prefix, old(db.Keys), visited) && |shown| == |visited|
      ensures Showed(old(disk), old(db), visited, shown, maxSinceCheck, now, readable, keep)
      ensures db.Keys == old(db.Keys) - Rejected(keep, visited, shown)
      ensures disk == Without(old(disk), Rejected(keep, visited, shown))
      ensures old(Tracked()) ==> Tracked()
      ensures old(Valid()) ==> Valid() && forall i | 0 <= i < |visited| :: shown[i] == old(Contents(visited[i]))
      ensures old(Valid()) ==> forall n :: n in db <==> n in old(db) && (prefix <= n ==> keep(n, old(Contents(n))))
      ensures old(Valid()) ==> forall m | Clean(m) ::
                Contents(m) == if m in old(db) && prefix <= m && !keep(m, old(Contents(m))) then empty
                               else old(Contents(m))
    {
      hide Path, Clean, Parsed, GoodFiles, Mirrored, Swept, Showed, Rejected, Without, Tracking, LessEq, Accepted;
      visited, shown := VisitAll(prefix, maxSinceCheck, now, readable, keep);
      Filtered(prefix, old(disk), old(db), visited, shown, keep);
    }

    /** The loop of the filter. */
    method VisitAll(prefix: string, maxSinceCheck: nat, now: nat, readable: string -> bool, keep: (string, J) -> bool)
      returns (ghost visited: seq<string>, ghost shown: seq<J>)
      modifies this
      ensures Swept(prefix, old(db.Keys), visited) && |shown| == |visited|
      ensures Showed(old(disk), old(db), visited, shown, maxSinceCheck, now, readable, keep)
      ensures db.Keys == old(db.Keys) - Rejected(keep, visited, shown)
      ensures disk == Without(old(disk), Rejected(keep, visited, shown))
      ensures old(Tracked()) ==> Tracked()
      ensures old(Valid()) ==> Valid() && forall i | 0 <= i < |visited| :: shown[i] == old(Contents(visited[i]))
    {
      hide Path, Clean, GoodPath, LessEq, Valid, Tracked, Contents, Sweep, Swept, Accepted, Showed, Rejected, Without,
           Shown;
      visited, shown := [], [];
      var rest := set n | n in db && LessEq(prefix, n);
      StartSweep(prefix, db.Keys, rest);
      NothingShown(disk, db, maxSinceCheck, now, readable, keep);
      while rest != {}
        invariant rest <= old(db.Keys) && Sweep(prefix, old(db.Keys), visited, rest) && |shown| == |visited|
        invariant Showed(old(disk), old(db), visited, shown, maxSinceCheck, now, readable, keep)
        invariant db.Keys == old(db.Keys) - Rejected(keep, visited, shown)
        invariant disk == Without(old(disk), Rejected(keep, visited, shown))
        invariant forall n | n in rest :: n in db && db[n] == old(db)[n]
        invariant old(Tracked()) ==> Tracked()
        invariant old(Valid()) ==> Valid() && forall i | 0 <= i < |visited| :: shown[i] == old(Contents(visited[i]))
        invariant old(Valid()) ==> forall n | n in rest :: Contents(n) == old(Contents(n))
        decreases |rest|
      {
        var n := Least(rest);
        if !(prefix <= n) {
          StopSweep(prefix, old(db.Keys), visited, rest, n);
          return;
        }
        NextSweep(prefix, old(db.Keys), visited, rest, n);
        rest := rest - {n};
        CachedClean(rest);
        ghost var left, cache := disk, db;
        var obj := Visit(n, maxSinceCheck, now, readable, keep);
        SameAnswer(left, cache, old(db), n, maxSinceCheck, now, readable);
        ShowsNext(old(disk), old(db), visited, shown, maxSinceCheck, now, readable, keep, n, obj);
        visited, shown := visited + [n], shown + [obj];
      }
      EndSweep(prefix, old(db.Keys), visited);
    }

    /** With every entry clean and the plain map shown, exactly the cached names with the prefix that
        are rejected on their contents lose them. */
    lemma Filtered(prefix: string, files: Disk, cache: map<string, Entry<J>>, visited: seq<string>, shown: seq<J>,
                   keep: (string, J) -> bool)
      requires Swept(prefix, cache.Keys, visited) && |shown| == |visited|
      ensures Mirrored(files, cache) && (forall i | 0 <= i < |visited| :: shown[i] == FileOf(files, visited[i])) ==>
                var r := Rejected(keep, visited, shown);
                && (forall n :: n in r <==> n in cache && prefix <= n && !keep(n, FileOf(files, n)))
                && forall m | Clean(m) :: FileOf(Without(files, r), m) == if m in r then empty else FileOf(files, m)
    {
      hide Path, Clean, Parsed, FileOf, Accepted, Ascending;
      if Mirrored(files, cache) && (forall i | 0 <= i < |visited| :: shown[i] == FileOf(files, visited[i])) {
        var r := Rejected(keep, visited, shown);
        MirroredClean(files, cache);
        forall n | n in cache && prefix <= n && !keep(n, FileOf(files, n))
          ensures n in r
        {
          var i :| 0 <= i < |visited| && visited[i] == n;
        }
        hide Rejected, Swept;
        forall m | Clean(m)
          ensures FileOf(Without(files, r), m) == if m in r then empty else FileOf(files, m)
        {
          LeftOver(files, r, m);
        }
      }
    }

    lemma CachedClean(names: set<string>)
      ensures Valid() ==> forall n | n in names && n in db :: Clean(n)
    {
      hide Clean, Accepted, GoodFiles;
      if Valid() {
        MirroredClean(disk, db);
      }
    }

    lemma MirroredClean(files: Disk, cache: map<string, Entry<J>>)
      requires Mirrored(files, cache)
      ensures forall n | n in cache :: Clean(n) && Accepted(n)
    {
      hide Path, Clean, Parsed, ValidName;
      forall n | n in cache
        ensures Clean(n) && Accepted(n)
      {
        assert Mirrors(files, n, cache[n]);
        CleanAccepted(n);
      }
    }

    lemma LeftOver(files: Disk, r: set<string>, m: string)
      requires Clean(m) && forall n | n in r :: Clean(n)
      ensures FileOf(Without(files, r), m) == if m in r then empty else FileOf(files, m)
    {
      hide Path, Clean, Parsed;
      OthersApart(m);
    }

    /** Each object shown is the answer of its time. */
    ghost predicate Showed(files: Disk, cache: map<string, Entry<J>>, visited: seq<string>, shown: seq<J>,
                           maxSinceCheck: nat, now: nat, readable: string -> bool, keep: (string, J) -> bool)
    {
      && |shown| == |visited|
      && forall i | 0 <= i < |visited| ::
           shown[i] == Shown(Without(files, Rejected(keep, visited[..i], shown[..i])), cache, visited[i],
                             maxSinceCheck, now, readable)
    }

    lemma NothingShown(files: Disk, cache: map<string, Entry<J>>, maxSinceCheck: nat, now: nat,
                       readable: string -> bool, keep: (string, J) -> bool)
      ensures Showed(files, cache, [], [], maxSinceCheck, now, readable, keep)
      ensures Rejected(keep, [], []) == {} && Without(files, {}) == files
    {
    }

    lemma SameAnswer(files: Disk, cache: map<string, Entry<J>>, cache': map<string, Entry<J>>, n: string,
                     maxSinceCheck: nat, now: nat, readable: string -> bool)
      requires n in cache && n in cache' && cache[n] == cache'[n]
      ensures Shown(files, cache, n, maxSinceCheck, now, readable)
              == Shown(files, cache', n, maxSinceCheck, now, readable)
    {
      hide Path, Accepted;
    }

    lemma ShowsNext(files: Disk, cache: map<string, Entry<J>>, visited: seq<string>, shown: seq<J>, maxSinceCheck: nat,
                    now: nat, readable: string -> bool, keep: (string, J) -> bool, n: string, obj: J)
      requires Showed(files, cache, visited, shown, maxSinceCheck, now, readable, keep)
      requires obj == Shown(Without(files, Rejected(keep, visited, shown)), cache, n, maxSinceCheck, now, readable)
      ensures Showed(files, cache, visited + [n], shown + [obj], maxSinceCheck, now, readable, keep)
      ensures var r := Rejected(keep, visited, shown);
              var r' := Rejected(keep, visited + [n], shown + [obj]);
              && r' == (if Accepted(n) && !keep(n, obj) then r + {n} else r)
              && Without(files, r') == if Accepted(n) && !keep(n, obj) then Without(files, r) - {Path(n)}
                                       else Without(files, r)
    {
      hide Path, Accepted, Shown;
      var v, w := visited + [n], shown + [obj];
      RejectedNext(keep, visited, shown, n, obj);
      hide Rejected;
      forall i | 0 <= i < |v|
        ensures w[i] == Shown(Without(files, Rejected(keep, v[..i], w[..i])), cache, v[i], maxSinceCheck, now, readable)
      {
        assert v[..i] == visited[..i] && w[..i] == shown[..i];
        if i == |visited| {
          assert visited[..i] == visited && shown[..i] == shown;
        }
      }
    }

    lemma RejectedNext(keep: (string, J) -> bool, visited: seq<string>, shown: seq<J>, n: string, obj: J)
      requires |visited| == |shown|
      ensures Rejected(keep, visited + [n], shown + [obj])
              == Rejected(keep, visited, shown) + if Accepted(n) && !keep(n, obj) then {n} else {}
    {
      hide Accepted;
      var v, w := visited + [n], shown + [obj];
      assert forall i | 0 <= i < |visited| :: v[i] == visited[i] && w[i] == shown[i];
      assert v[|visited|] == n && w[|visited|] == obj;
    }

    /** One call of the filter function, and the erasure it may ask for. */
    method Visit(n: string, maxSinceCheck: nat, now: nat, readable: string -> bool, keep: (string, J) -> bool)
      returns (obj: J)
      requires n in db
      modifies this
      ensures obj == Shown(old(disk), old(db), n, maxSinceCheck, now, readable)
      ensures var rejects := Accepted(n) && !keep(n, obj);
              && db.Keys == (if rejects then old(db.Keys) - {n} else old(db.Keys))
              && disk == if rejects then old(disk) - {Path(n)} else old(disk)
      ensures forall m | m in db && m != n :: db[m] == old(db[m])
      ensures old(Tracked()) ==> Tracked()
      ensures old(Valid()) ==> Valid() && obj == old(Contents(n))
      ensures old(Valid()) ==> forall m | Clean(m) && m != n :: Contents(m) == old(Contents(m))
    {
      hide Path, Clean, GoodPath, Valid, Tracked, Answer, Accepted, Parsed;
      CachedValid(n);
      obj := Get(n, maxSinceCheck, now, readable(n));
      if !keep(n, obj) {
        Erase(n);
      }
    }

    lemma CachedValid(n: string)
      requires n in db
      ensures Valid() ==> Clean(n) && ValidName(n) && Accepted(n)
    {
      hide Clean, GoodFiles;
      if Valid() {
        MirroredClean(disk, db);
      }
    }
  }

  // ------------------------------------------------------------------------
  // The order of a sweep

  /** Strictly ascending in byte order. */
  ghost predicate Ascending(s: seq<string>)
  {
    forall i, j | 0 <= i < j < |s| :: LessEq(s[i], s[j]) && s[i] != s[j]
  }

  /** The names visited so far come before those that are left, and none with the prefix is missed. */
  ghost predicate Sweep(prefix: string, all: set<string>, visited: seq<string>, rest: set<string>)
  {
    && Ascending(visited)
    && (forall i, n | 0 <= i < |visited| && n in rest :: LessEq(visited[i], n))
    && (forall n | n in all && prefix <= n :: n in rest || n in visited)
    && (forall n | n in rest :: n in all && LessEq(prefix, n) && n !in visited)
    && (forall n | n in visited :: n in all && prefix <= n)
  }

  ghost predicate Swept(prefix: string, all: set<string>, visited: seq<string>)
  {
    Ascending(visited) && forall n :: n in visited <==> n in all && prefix <= n
  }

  lemma StartSweep(prefix: string, all: set<string>, rest: set<string>)
    requires rest == set n | n in all && LessEq(prefix, n)
    ensures Sweep(prefix, all, [], rest)
  {
    hide LessEq;
    forall n | n in all && prefix <= n
      ensures n in rest
    {
      PrefixIsLess(prefix, n);
    }
  }

  lemma NextSweep(prefix: string, all: set<string>, visited: seq<string>, rest: set<string>, n: string)
    requires Sweep(prefix, all, visited, rest) && n in rest && prefix <= n && forall j | j in rest :: LessEq(n, j)
    ensures Sweep(prefix, all, visited + [n], rest - {n}) && n in all && n !in visited
  {
    hide LessEq;
  }

  /** The first name without the prefix ends the sweep. */
  lemma StopSweep(prefix: string, all: set<string>, visited: seq<string>, rest: set<string>, n: string)
    requires Sweep(prefix, all, visited, rest) && n in rest && !(prefix <= n) && forall j | j in rest :: LessEq(n, j)
    ensures Swept(prefix, all, visited)
  {
    hide LessEq;
    forall j | j in rest && prefix <= j
      ensures false
    {
      PrefixContiguous(prefix, n, j);
    }
  }

  lemma EndSweep(prefix: string, all: set<string>, visited: seq<string>)
    requires Sweep(prefix, all, visited, {})
    ensures Swept(prefix, all, visited)
  {
    hide LessEq;
  }
}
