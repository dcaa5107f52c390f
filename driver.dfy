/** The calibre device driver around the client: discovery with its rate limit and the
    connected flag, the store UUID, the book listing, the upload plan of `upload_books`
    (chunk clamp and on-device path), and the decision which books
    `remove_books_from_metadata` drops from calibre's lists. */
module Driver {
  import opened Wrappers
  import opened Errors
  import opened Text
  import Discovery

  /** The largest chunk an upload sends. */
  const MAX_CHUNK: int := 2048
  /** The least number of seconds between two discovery attempts. */
  const DISCOVERY_INTERVAL: real := 2.0
  const UUID_PREFIX: string := "crosspoint-"

  /** The stored preferences the driver reads. */
  datatype Prefs = Prefs(host: string, port: int, path: string, chunkSize: int, convertBaseline: bool)

  /** The chunk size handed to `upload_file`: the configured one, capped at 2048. */
  function ChunkClamp(configured: int): (r: int)
    ensures r <= MAX_CHUNK
    ensures configured <= MAX_CHUNK ==> r == configured
    ensures configured > MAX_CHUNK ==> r == MAX_CHUNK
  {
    if configured > MAX_CHUNK then MAX_CHUNK else configured
  }

  // ---------------------------------------------------------------------------------------
  // The on-device path of an uploaded book

  /** The upload folder with a leading '/' and without one trailing '/'; the root stays '/'. */
  function UploadDir(uploadPath: string): (d: string)
    ensures StartsWith(d, "/")
    ensures var l := if StartsWith(uploadPath, "/") then uploadPath else "/" + uploadPath;
      if l != "/" && EndsWith(l, "/") then d + "/" == l else d == l
  {
    var l := if StartsWith(uploadPath, "/") then uploadPath else "/" + uploadPath;
    if l != "/" && EndsWith(l, "/") then l[..|l| - 1] else l
  }

  /** The `lpath` `upload_books` reports for a file uploaded to uploadPath. */
  function Lpath(uploadPath: string, filename: string): string
  {
    InDir(UploadDir(uploadPath), filename)
  }

  /** The file name inside the folder dir, written as UploadDir writes it. */
  function InDir(dir: string, filename: string): string
  {
    if dir == "/" then "/" + filename else dir + "/" + filename
  }

  /** The path always starts with '/' and ends with '/' and the file name. */
  lemma LpathShape(uploadPath: string, filename: string)
    ensures var r := Lpath(uploadPath, filename);
      StartsWith(r, "/") && EndsWith(r, "/" + filename)
  {
    var d := UploadDir(uploadPath);
    var r := Lpath(uploadPath, filename);
    if d == "/" {
      assert r[|r| - |"/" + filename|..] == "/" + filename;
    } else {
      assert r == d + ("/" + filename);
      assert r[..1] == d[..1];
      assert r[|r| - |"/" + filename|..] == "/" + filename;
    }
  }

  /** The root, written '' or '/', gives '/' and the file name. */
  lemma LpathRoot(filename: string)
    ensures Lpath("", filename) == "/" + filename
    ensures Lpath("/", filename) == "/" + filename
  {
    assert !StartsWith("", "/");
    assert "/" + "" == "/";
  }

  /** Unless the folder ends in '//', the '/' before the file name is not doubled. */
  lemma LpathNoDoubleSlash(uploadPath: string, filename: string)
    requires !EndsWith(uploadPath, "//")
    ensures var r := Lpath(uploadPath, filename);
      |r| == |filename| + 1 || r[|r| - |filename| - 2] != '/'
  {
    var l := if StartsWith(uploadPath, "/") then uploadPath else "/" + uploadPath;
    var d := UploadDir(uploadPath);
    var r := Lpath(uploadPath, filename);
    if d != "/" {
      assert r == d + "/" + filename;
      assert r[|r| - |filename| - 2] == d[|d| - 1];
      if l != "/" && EndsWith(l, "/") {
        assert |l| >= 2;
        if l == uploadPath {
          assert d[|d| - 1] == uploadPath[|uploadPath| - 2];
          assert uploadPath[|uploadPath| - 2..] != "//";
        } else {
          assert d[|d| - 1] == l[|l| - 2];
          assert |uploadPath| >= 2;
          assert l[|l| - 2] == uploadPath[|uploadPath| - 2];
          assert uploadPath[|uploadPath| - 2..] != "//";
        }
      } else {
        assert !EndsWith(d, "/");
        assert d[|d| - 1..] != "/";
      }
    }
  }

  // ---------------------------------------------------------------------------------------
  // The store UUID

  /** `'crosspoint-' + host.replace('.', '-')`. */
  function StoreUuid(host: string): (r: string)
    ensures StartsWith(r, UUID_PREFIX) && |r| == |UUID_PREFIX| + |host| && '.' !in r
    ensures forall i :: 0 <= i < |host| ==> r[|UUID_PREFIX| + i] == if host[i] == '.' then '-' else host[i]
  {
    UUID_PREFIX + ReplaceChar(host, '.', '-')
  }

  /** Hosts without '-' in them, such as IPv4 addresses, get different UUIDs. */
  lemma StoreUuidDistinct(a: string, b: string)
    requires '-' !in a && '-' !in b && StoreUuid(a) == StoreUuid(b)
    ensures a == b
  {
    var n := |UUID_PREFIX|;
    assert |a| == |b|;
    forall i | 0 <= i < |a| ensures a[i] == b[i] {
      assert StoreUuid(a)[n + i] == StoreUuid(b)[n + i];
      assert a[i] != '-' && b[i] != '-';
    }
  }

  // ---------------------------------------------------------------------------------------
  // Discovery

  /** The address a reply of the probe rounds gives: the first round that hears a reply
      decides. */
  function FirstAnswer(heard: nat -> Option<Discovery.Reply>, round: nat): Option<Discovery.Found>
    decreases Discovery.ROUNDS - round
  {
    if round >= Discovery.ROUNDS then None
    else if heard(round).Some? then Some(Discovery.Answer(heard(round).value))
    else FirstAnswer(heard, round + 1)
  }

  /** FirstAnswer is the answer of the round the rounds of `discover_device` stop on. */
  lemma {:induction false} FirstAnswerIsFirstHeard(heard: nat -> Option<Discovery.Reply>, round: nat, j: nat)
    requires round <= j < Discovery.ROUNDS && Discovery.FirstHeard(heard, j)
    ensures FirstAnswer(heard, round) == Some(Discovery.Answer(heard(j).value))
    decreases j - round
  {
    if round < j {
      FirstAnswerIsFirstHeard(heard, round + 1, j);
    }
  }

  lemma {:induction false} FirstAnswerNone(heard: nat -> Option<Discovery.Reply>, round: nat)
    requires forall i :: round <= i < Discovery.ROUNDS ==> heard(i).None?
    ensures FirstAnswer(heard, round) == None
    decreases Discovery.ROUNDS - round
  {
    if round < Discovery.ROUNDS {
      FirstAnswerNone(heard, round + 1);
    }
  }

  /** `if host and port`. */
  predicate Usable(f: Discovery.Found)
  {
    f.host != "" && f.port != 0
  }

  /** What `_discover` returns at time now after the last attempt at time last: nothing
      within the retry interval, and otherwise FirstAnswer, where an empty host or port 0
      counts as none. */
  function Discovered(last: real, now: real, heard: nat -> Option<Discovery.Reply>): Option<Discovery.Found>
  {
    if now - last < DISCOVERY_INTERVAL then None
    else
      var a := FirstAnswer(heard, 0);
      if a.Some? && Usable(a.value) then a else None
  }

  /** Within two seconds of the last attempt nothing is discovered; otherwise the reply of
      the first round that hears one is, when its host is not empty and its port not 0. */
  lemma DiscoveredIsFirstReply(last: real, now: real, heard: nat -> Option<Discovery.Reply>)
    ensures now - last < DISCOVERY_INTERVAL ==> Discovered(last, now, heard) == None
    ensures var d := Discovered(last, now, heard);
      d.Some? ==> Usable(d.value) && exists j :: (0 <= j < Discovery.ROUNDS && Discovery.FirstHeard(heard, j)
        && d.value == Discovery.Answer(heard(j).value))
  {
    FirstAnswerWitness(heard, 0);
  }

  /** An answer from the rounds after the silent ones is the answer of the first round
      that hears a reply. */
  lemma {:induction false} FirstAnswerWitness(heard: nat -> Option<Discovery.Reply>, round: nat)
    requires forall i :: 0 <= i < round ==> heard(i).None?
    ensures FirstAnswer(heard, round).Some? ==> exists j :: (round <= j < Discovery.ROUNDS
      && Discovery.FirstHeard(heard, j) && FirstAnswer(heard, round) == Some(Discovery.Answer(heard(j).value)))
    decreases Discovery.ROUNDS - round
  {
    if round < Discovery.ROUNDS {
      if heard(round).Some? {
        assert Discovery.FirstHeard(heard, round);
      } else {
        FirstAnswerWitness(heard, round + 1);
      }
    }
  }

  // ---------------------------------------------------------------------------------------
  // The book listing

  /** An entry of the device's `/api/files` listing. */
  datatype Entry = Entry(isDirectory: bool, isEpub: bool, name: string, size: int)

  /** A book as `books` reports it: its path on the device and its size. */
  datatype BookEntry = BookEntry(lpath: string, size: int)

  /** `books` lists entries that are EPUB files with a name. */
  predicate IsBook(e: Entry)
  {
    !e.isDirectory && e.isEpub && e.name != ""
  }

  /** The name with '/' put in front when it is missing. */
  function BookLpath(name: string): (r: string)
    ensures StartsWith(r, "/") && EndsWith(r, name) && |r| <= |name| + 1
    ensures StartsWith(name, "/") ==> r == name
  {
    if StartsWith(name, "/") then name
    else
      assert ("/" + name)[1..] == name;
      "/" + name
  }

  /** The books of a listing, in its order. */
  function BookList(entries: seq<Entry>): seq<BookEntry>
  {
    if entries == [] then []
    else
      var e := entries[|entries| - 1];
      BookList(entries[..|entries| - 1]) + (if IsBook(e) then [BookEntry(BookLpath(e.name), e.size)] else [])
  }

  lemma BookListSnoc(entries: seq<Entry>, i: nat)
    requires i < |entries|
    ensures BookList(entries[..i + 1])
      == BookList(entries[..i]) + (if IsBook(entries[i]) then [BookEntry(BookLpath(entries[i].name), entries[i].size)] else [])
  {
    assert entries[..i + 1][..i] == entries[..i];
  }

  /** Listing two parts one after the other lists their books one after the other. */
  lemma {:induction false} BookListAppend(a: seq<Entry>, b: seq<Entry>)
    ensures BookList(a + b) == BookList(a) + BookList(b)
    decreases |b|
  {
    if b == [] {
      assert a + b == a;
    } else {
      var init := b[..|b| - 1];
      assert (a + b)[..|a + b| - 1] == a + init;
      BookListAppend(a, init);
    }
  }

  /** Entry e is listed as book b. */
  predicate Gives(e: Entry, b: BookEntry)
  {
    IsBook(e) && b == BookEntry(BookLpath(e.name), e.size)
  }

  /** Every EPUB file with a name is listed. */
  lemma {:induction false} BookListHas(entries: seq<Entry>, i: nat)
    requires i < |entries| && IsBook(entries[i])
    ensures BookEntry(BookLpath(entries[i].name), entries[i].size) in BookList(entries)
    decreases |entries|
  {
    var init := entries[..|entries| - 1];
    if i < |init| {
      BookListHas(init, i);
      assert init[i] == entries[i];
    }
  }

  /** Every listed book comes from an EPUB file with a name. */
  lemma {:induction false} BookListFrom(entries: seq<Entry>, b: BookEntry)
    requires b in BookList(entries)
    ensures exists i :: 0 <= i < |entries| && Gives(entries[i], b)
    decreases |entries|
  {
    var init := entries[..|entries| - 1];
    if b in BookList(init) {
      BookListFrom(init, b);
      var i :| 0 <= i < |init| && Gives(init[i], b);
      assert entries[i] == init[i];
    } else {
      assert Gives(entries[|entries| - 1], b);
    }
  }

  // ---------------------------------------------------------------------------------------
  // Which books remove_books_from_metadata drops

  /** A book in one of calibre's lists: its `path` and `lpath` attributes. */
  datatype BookRef = BookRef(path: string, lpath: string)

  /** `norm`: '' stays '', otherwise backslashes become '/' and a '/' is put in front when
      missing. */
  function Norm(p: string): (r: string)
    ensures r == "" <==> p == ""
    ensures '\\' !in r
    ensures r != "" ==> r[0] == '/'
  {
    if p == "" then ""
    else
      var q := ReplaceChar(p, '\\', '/');
      if StartsWith(q, "/") then q else "/" + q
  }

  lemma ReplaceCharAbsent(s: string, a: char, b: char)
    requires a !in s
    ensures ReplaceChar(s, a, b) == s
  {
  }

  /** What `norm` writes: p with every backslash turned into '/', preceded by one '/'
      exactly when p starts with neither '/' nor a backslash. */
  lemma NormSpells(p: string)
    requires p != ""
    ensures var r := Norm(p);
      && |r| == |p| + (if p[0] == '/' || p[0] == '\\' then 0 else 1)
      && forall i :: 0 <= i < |p| ==> r[|r| - |p| + i] == if p[i] == '\\' then '/' else p[i]
  {
  }

  /** Normalising twice is normalising once. */
  lemma NormIdempotent(p: string)
    ensures Norm(Norm(p)) == Norm(p)
  {
    var r := Norm(p);
    if r != "" {
      ReplaceCharAbsent(r, '\\', '/');
      assert r[..1] == "/";
    }
  }

  /** A path already written with '/' only and starting with '/' is left alone. */
  lemma NormKeeps(p: string)
    requires p != "" && p[0] == '/' && '\\' !in p
    ensures Norm(p) == p
  {
    ReplaceCharAbsent(p, '\\', '/');
    assert p[..1] == "/";
  }

  /** `norm_name`: the file name of p, NFKC-normalised, with curly apostrophes made
      straight, case-folded. The Unicode normalisation and the case folding are given. */
  function NormName(p: string, nfkc: string -> string, casefold: string -> string): string
  {
    if p == "" then ""
    else casefold(ReplaceChar(ReplaceChar(nfkc(Basename(p)), '’', '\''), '‘', '\''))
  }

  /** The name match ignores the folders: a file name n gives the same normalised name
      wherever it sits. */
  lemma NormNameInDir(d: string, n: string, nfkc: string -> string, casefold: string -> string)
    requires n != ""
    ensures NormName(d + "/" + n, nfkc, casefold) == NormName(n, nfkc, casefold)
  {
    BasenameInDir(d, n);
  }

  /** What the listing step found: every normalised path of a file and every file's name. */
  datatype Listing = Listing(onDevice: set<string>, names: set<string>)

  /** Files of the listing: entries that are not directories and have a name (whether or not
      they are EPUBs). */
  predicate IsFile(e: Entry)
  {
    !e.isDirectory && e.name != ""
  }

  function ListingOf(entries: seq<Entry>, nfkc: string -> string, casefold: string -> string): Listing
  {
    if entries == [] then Listing({}, {})
    else
      var l := ListingOf(entries[..|entries| - 1], nfkc, casefold);
      var e := entries[|entries| - 1];
      if !IsFile(e) then l
      else Listing(l.onDevice + {Norm(e.name), Norm("/" + e.name)}, l.names + {NormName(e.name, nfkc, casefold)})
  }

  /** The listing of one more entry. */
  lemma ListingOfNext(es: seq<Entry>, i: nat, nfkc: string -> string, casefold: string -> string)
    requires i < |es|
    ensures var l := ListingOf(es[..i], nfkc, casefold);
      ListingOf(es[..i + 1], nfkc, casefold)
      == if !IsFile(es[i]) then l
         else Listing(l.onDevice + {Norm(es[i].name), Norm("/" + es[i].name)},
                      l.names + {NormName(es[i].name, nfkc, casefold)})
  {
    assert es[..i + 1][..i] == es[..i];
  }

  /** Entry e puts path x on the device: its name normalised, with or without a '/' in front. */
  predicate PathOf(e: Entry, x: string)
  {
    IsFile(e) && (x == Norm(e.name) || x == Norm("/" + e.name))
  }

  /** Entry e puts name x among the device names. */
  predicate NameOf(e: Entry, x: string, nfkc: string -> string, casefold: string -> string)
  {
    IsFile(e) && x == NormName(e.name, nfkc, casefold)
  }

  /** A path is on the device exactly when a file of the listing puts it there. */
  lemma {:induction false} ListingPaths(entries: seq<Entry>, nfkc: string -> string, casefold: string -> string, x: string)
    ensures x in ListingOf(entries, nfkc, casefold).onDevice <==> exists i :: 0 <= i < |entries| && PathOf(entries[i], x)
  {
    ListingPathsFrom(entries, nfkc, casefold, x);
    if i :| 0 <= i < |entries| && PathOf(entries[i], x) {
      ListingPathsTo(entries, nfkc, casefold, x, i);
    }
  }

  /** Every path on the device comes from a file of the listing. */
  lemma {:induction false} ListingPathsFrom(entries: seq<Entry>, nfkc: string -> string, casefold: string -> string,
                                            x: string)
    ensures x in ListingOf(entries, nfkc, casefold).onDevice ==> exists i :: 0 <= i < |entries| && PathOf(entries[i], x)
    decreases |entries|
  {
    if entries != [] && x in ListingOf(entries, nfkc, casefold).onDevice {
      var init := entries[..|entries| - 1];
      ListingPathsFrom(init, nfkc, casefold, x);
      if x in ListingOf(init, nfkc, casefold).onDevice {
        var i :| 0 <= i < |init| && PathOf(init[i], x);
        assert PathOf(entries[i], x);
      } else {
        assert PathOf(entries[|entries| - 1], x);
      }
    }
  }

  /** Every file of the listing puts its path on the device. */
  lemma {:induction false} ListingPathsTo(entries: seq<Entry>, nfkc: string -> string, casefold: string -> string,
                                          x: string, i: int)
    requires 0 <= i < |entries| && PathOf(entries[i], x)
    ensures x in ListingOf(entries, nfkc, casefold).onDevice
    decreases |entries|
  {
    var init := entries[..|entries| - 1];
    if i < |init| {
      assert PathOf(init[i], x);
      ListingPathsTo(init, nfkc, casefold, x, i);
    }
  }

  /** A name is a device name exactly when a file of the listing has it as its norm_name. */
  lemma {:induction false} ListingNames(entries: seq<Entry>, nfkc: string -> string, casefold: string -> string,
                                        x: string)
    ensures x in ListingOf(entries, nfkc, casefold).names <==>
      exists i :: 0 <= i < |entries| && NameOf(entries[i], x, nfkc, casefold)
    decreases |entries|
  {
    if entries != [] {
      var init := entries[..|entries| - 1];
      ListingNames(init, nfkc, casefold, x);
      if i :| 0 <= i < |entries| && NameOf(entries[i], x, nfkc, casefold) {
        if i < |init| {
          assert NameOf(init[i], x, nfkc, casefold);
        }
      }
      if x in ListingOf(init, nfkc, casefold).names {
        var i :| 0 <= i < |init| && NameOf(init[i], x, nfkc, casefold);
        assert NameOf(entries[i], x, nfkc, casefold);
      }
    }
  }

  /** Names and paths come from the same files, so there are names exactly when there are
      paths. */
  lemma {:induction false} ListingNamesEmpty(entries: seq<Entry>, nfkc: string -> string, casefold: string -> string)
    ensures var l := ListingOf(entries, nfkc, casefold);
      l.names == {} <==> l.onDevice == {}
    decreases |entries|
  {
    if entries != [] {
      ListingNamesEmpty(entries[..|entries| - 1], nfkc, casefold);
    }
  }

  /** The target path, normalised, names this book: the same path, or the same file name. */
  predicate TargetMatches(target: string, bpath: string, blpath: string)
  {
    var t := Norm(target);
    t == bpath || t == blpath || (Basename(t) != "" && (Basename(bpath) == Basename(t) || Basename(blpath) == Basename(t)))
  }

  /** Whether the paths calibre asks to remove name this book. */
  function AnyTarget(paths: seq<string>, bpath: string, blpath: string): (r: bool)
    ensures r <==> exists i :: 0 <= i < |paths| && TargetMatches(paths[i], bpath, blpath)
  {
    if paths == [] then false
    else
      assert forall i :: 1 <= i < |paths| ==> paths[1..][i - 1] == paths[i];
      TargetMatches(paths[0], bpath, blpath) || AnyTarget(paths[1..], bpath, blpath)
  }

  /** The decision for one book. With a listing that holds names, the book goes when neither
      of its names is a device name; with a listing without names, when both of its paths
      are given and neither is on the device; without a listing, when one of the paths to
      remove names it. */
  function ShouldRemove(book: BookRef, listing: Option<Listing>, paths: seq<string>,
                        nfkc: string -> string, casefold: string -> string): bool
  {
    var bpath := Norm(book.path);
    var blpath := Norm(book.lpath);
    match listing
    case Some(l) =>
      if l.names != {} then
        NormName(bpath, nfkc, casefold) !in l.names && NormName(blpath, nfkc, casefold) !in l.names
      else bpath != "" && bpath !in l.onDevice && blpath != "" && blpath !in l.onDevice
    case None => AnyTarget(paths, bpath, blpath)
  }

  lemma BasenameOfSlashed(n: string)
    requires n != ""
    ensures Basename("/" + n) == Basename(n)
  {
    assert "" + "/" + n == "/" + n;
    BasenameInDir("", n);
  }

  /** A book whose path is the name of a file still on the device is kept, whatever the
      Unicode normalisation and the case folding do. */
  lemma KeptWhileOnDevice(entries: seq<Entry>, book: BookRef, paths: seq<string>,
                          nfkc: string -> string, casefold: string -> string, i: nat)
    requires i < |entries| && IsFile(entries[i]) && book.path == entries[i].name && '\\' !in book.path
    ensures !ShouldRemove(book, Some(ListingOf(entries, nfkc, casefold)), paths, nfkc, casefold)
  {
    var l := ListingOf(entries, nfkc, casefold);
    var n := entries[i].name;
    ListingNames(entries, nfkc, casefold, NormName(n, nfkc, casefold));
    assert NormName(n, nfkc, casefold) in l.names;
    var bpath := Norm(book.path);
    ReplaceCharAbsent(n, '\\', '/');
    if StartsWith(n, "/") {
      assert bpath == n;
    } else {
      assert bpath == "/" + n;
      BasenameOfSlashed(n);
    }
    assert NormName(bpath, nfkc, casefold) == NormName(n, nfkc, casefold);
  }

  /** When the listing shows no file at all, every book with both paths set is dropped. */
  lemma EmptyDeviceDropsAll(entries: seq<Entry>, book: BookRef, paths: seq<string>,
                            nfkc: string -> string, casefold: string -> string)
    requires forall i :: 0 <= i < |entries| ==> !IsFile(entries[i])
    ensures ShouldRemove(book, Some(ListingOf(entries, nfkc, casefold)), paths, nfkc, casefold)
      <==> book.path != "" && book.lpath != ""
  {
    var l := ListingOf(entries, nfkc, casefold);
    ListingPaths(entries, nfkc, casefold, Norm(book.path));
    ListingPaths(entries, nfkc, casefold, Norm(book.lpath));
    ListingNamesEmpty(entries, nfkc, casefold);
    if l.onDevice != {} {
      var x :| x in l.onDevice;
      ListingPaths(entries, nfkc, casefold, x);
    }
  }

  /** Without a listing, a book whose path is one of the paths to remove is dropped. */
  lemma TargetDropped(book: BookRef, paths: seq<string>, nfkc: string -> string, casefold: string -> string, i: nat)
    requires i < |paths| && Norm(paths[i]) == Norm(book.path)
    ensures ShouldRemove(book, None, paths, nfkc, casefold)
  {
    assert TargetMatches(paths[i], Norm(book.path), Norm(book.lpath));
  }

  /** The books of one list that are kept, in their order. */
  function KeptBooks(books: seq<BookRef>, listing: Option<Listing>, paths: seq<string>,
                     nfkc: string -> string, casefold: string -> string): seq<BookRef>
  {
    if books == [] then []
    else
      var b := books[|books| - 1];
      KeptBooks(books[..|books| - 1], listing, paths, nfkc, casefold)
      + (if ShouldRemove(b, listing, paths, nfkc, casefold) then [] else [b])
  }

  lemma KeptBooksSnoc(books: seq<BookRef>, j: nat, listing: Option<Listing>, paths: seq<string>,
                      nfkc: string -> string, casefold: string -> string)
    requires j < |books|
    ensures KeptBooks(books[..j + 1], listing, paths, nfkc, casefold)
      == KeptBooks(books[..j], listing, paths, nfkc, casefold)
         + (if ShouldRemove(books[j], listing, paths, nfkc, casefold) then [] else [books[j]])
  {
    assert books[..j + 1][..j] == books[..j];
  }

  /** Exactly the books the decision keeps remain, and no more than there were. */
  lemma {:induction false} KeptBooksMembers(books: seq<BookRef>, listing: Option<Listing>, paths: seq<string>,
                                            nfkc: string -> string, casefold: string -> string, b: BookRef)
    ensures |KeptBooks(books, listing, paths, nfkc, casefold)| <= |books|
    ensures b in KeptBooks(books, listing, paths, nfkc, casefold) <==>
      b in books && !ShouldRemove(b, listing, paths, nfkc, casefold)
    decreases |books|
  {
    if books != [] {
      var init := books[..|books| - 1];
      KeptBooksMembers(init, listing, paths, nfkc, casefold, b);
      assert books == init + [books[|books| - 1]];
    }
  }

  /** The device's state as the driver keeps it. */
  class CrossPointDevice {
    var isConnected: bool
    var deviceHost: Option<string>
    var devicePort: Option<int>
    /** When `_discover` last probed, in seconds. */
    var lastDiscovery: real

    constructor ()
      ensures !isConnected && deviceHost == None && devicePort == None && lastDiscovery == 0.0
    {
      isConnected := false;
      deviceHost := None;
      devicePort := None;
      lastDiscovery := 0.0;
    }

    /** `self.device_host or PREFS['host']`. */
    function Host(prefs: Prefs): string
      reads this`deviceHost
    {
      if deviceHost.Some? && deviceHost.value != "" then deviceHost.value else prefs.host
    }

    /** `self.device_port or PREFS['port']`. */
    function Port(prefs: Prefs): int
      reads this`devicePort
    {
      if devicePort.Some? && devicePort.value != 0 then devicePort.value else prefs.port
    }

    /** The `device_store_uuid` of `get_device_information`: the discovered host's, or the
        configured host's before a device was discovered. */
    function DeviceStoreUuid(prefs: Prefs): (r: string)
      reads this`deviceHost
      ensures (deviceHost == None || deviceHost == Some("")) ==> r == StoreUuid(prefs.host)
      ensures deviceHost.Some? && deviceHost.value != "" ==> r == StoreUuid(deviceHost.value)
    {
      StoreUuid(Host(prefs))
    }

    /** `_discover` at time now: at most one probe every two seconds, the time of the last
        one kept; heard is what the rounds of `discover_device` hear, with the configured
        host as the extra host. */
    method Discover(now: real, prefs: Prefs, heard: nat -> Option<Discovery.Reply>)
      returns (found: Option<Discovery.Found>)
      modifies this`lastDiscovery
      ensures found == Discovered(old(lastDiscovery), now, heard)
      ensures lastDiscovery == if now - old(lastDiscovery) < DISCOVERY_INTERVAL then old(lastDiscovery) else now
    {
      if now - lastDiscovery < DISCOVERY_INTERVAL {
        return None;
      }
      lastDiscovery := now;
      var r, probes := Discovery.DiscoverDevice([prefs.host], heard);
      if r.Some? {
        var j :| 0 <= j < Discovery.ROUNDS && Discovery.FirstHeard(heard, j) && r.value == Discovery.Answer(heard(j).value);
        FirstAnswerIsFirstHeard(heard, 0, j);
      } else {
        FirstAnswerNone(heard, 0);
      }
      if r.Some? && r.value.host != "" && r.value.port != 0 {
        return r;
      }
      return None;
    }

    /** `detect_managed_devices`: a connected device is kept without probing; otherwise a
        discovered device is recorded and marked connected, and a failed discovery changes
        nothing but the time of the last probe. */
    method DetectManagedDevices(now: real, prefs: Prefs, heard: nat -> Option<Discovery.Reply>)
      returns (detected: bool)
      modifies this`isConnected, this`deviceHost, this`devicePort, this`lastDiscovery
      ensures old(isConnected) ==> (detected && isConnected && lastDiscovery == old(lastDiscovery)
        && deviceHost == old(deviceHost) && devicePort == old(devicePort))
      ensures !old(isConnected) ==> detected == Discovered(old(lastDiscovery), now, heard).Some?
      ensures !old(isConnected) ==>
        lastDiscovery == if now - old(lastDiscovery) < DISCOVERY_INTERVAL then old(lastDiscovery) else now
      ensures !old(isConnected) && detected ==>
        isConnected && deviceHost == Some(Discovered(old(lastDiscovery), now, heard).value.host)
        && devicePort == Some(Discovered(old(lastDiscovery), now, heard).value.port)
      ensures !old(isConnected) && !detected ==>
        !isConnected && deviceHost == old(deviceHost) && devicePort == old(devicePort)
    {
      if isConnected {
        return true;
      }
      var found := Discover(now, prefs, heard);
      if found.Some? {
        deviceHost := Some(found.value.host);
        devicePort := Some(found.value.port);
        isConnected := true;
        return true;
      }
      return false;
    }

    /** `eject`. */
    method Eject()
      modifies this`isConnected
      ensures !isConnected
    {
      isConnected := false;
    }

    /** `stop_plugin`. */
    method StopPlugin()
      modifies this`isConnected
      ensures !isConnected
    {
      isConnected := false;
    }

    /** `books`: nothing on a card; otherwise the listed entries that are EPUB files with a
        name, in order. */
    method Books(onCard: bool, entries: seq<Entry>) returns (books: seq<BookEntry>)
      ensures books == if onCard then [] else BookList(entries)
    {
      if onCard {
        return [];
      }
      books := [];
      for i := 0 to |entries|
        invariant books == BookList(entries[..i])
      {
        BookListSnoc(entries, i);
        var e := entries[i];
        if !e.isDirectory && e.isEpub && e.name != "" {
          books := books + [BookEntry(BookLpath(e.name), e.size)];
        }
      }
      assert entries[..|entries|] == entries;
    }

    /** The listing loop of `remove_books_from_metadata`; entries is None when the request
        or its JSON failed. */
    method Listed(entries: Option<seq<Entry>>, nfkc: string -> string, casefold: string -> string)
      returns (listing: Option<Listing>)
      ensures listing == ListingFrom(entries, nfkc, casefold)
    {
      if entries.None? {
        return None;
      }
      var es := entries.value;
      var onDevice: set<string> := {};
      var names: set<string> := {};
      for i := 0 to |es|
        invariant Listing(onDevice, names) == ListingOf(es[..i], nfkc, casefold)
      {
        ListingOfNext(es, i, nfkc, casefold);
        var e := es[i];
        if e.isDirectory || e.name == "" {
          continue;
        }
        onDevice := onDevice + {Norm(e.name), Norm("/" + e.name)};
        names := names + {NormName(e.name, nfkc, casefold)};
      }
      assert es[..|es|] == es;
      return Some(Listing(onDevice, names));
    }

    /** `remove_books_from_metadata`: each of calibre's lists keeps, in order, the books the
        decision keeps, and removed counts the books dropped from all of them. */
    method RemoveBooksFromMetadata(paths: seq<string>, booklists: seq<seq<BookRef>>,
                                   entries: Option<seq<Entry>>,
                                   nfkc: string -> string, casefold: string -> string)
      returns (lists: seq<seq<BookRef>>, removed: nat)
      ensures |lists| == |booklists|
      ensures forall k :: 0 <= k < |booklists| ==>
        lists[k] == KeptBooks(booklists[k], ListingFrom(entries, nfkc, casefold), paths, nfkc, casefold)
      ensures removed == BookCount(booklists) - BookCount(lists)
    {
      var listing := Listed(entries, nfkc, casefold);
      lists := [];
      removed := 0;
      var keep := books => KeptBooks(books, listing, paths, nfkc, casefold);
      for k := 0 to |booklists|
        invariant lists == KeptLists(booklists[..k], keep)
        invariant removed == BookCount(booklists[..k]) - BookCount(lists)
      {
        assert booklists[..k + 1][..k] == booklists[..k];
        var kept := RemoveFrom(booklists[k], listing, paths, nfkc, casefold);
        BookCountSnoc(booklists[..k + 1]);
        BookCountSnoc(lists + [kept]);
        assert (lists + [kept])[..|lists|] == lists;
        removed := removed + (|booklists[k]| - |kept|);
        lists := lists + [kept];
      }
      assert booklists[..|booklists|] == booklists;
      KeptListsEach(booklists, keep);
    }

    /** One list: every book of a snapshot of it is examined and dropped when it should be. */
    method RemoveFrom(books: seq<BookRef>, listing: Option<Listing>, paths: seq<string>,
                      nfkc: string -> string, casefold: string -> string)
      returns (kept: seq<BookRef>)
      ensures kept == KeptBooks(books, listing, paths, nfkc, casefold) && |kept| <= |books|
    {
      kept := [];
      for j := 0 to |books|
        invariant kept == KeptBooks(books[..j], listing, paths, nfkc, casefold) && |kept| <= j
      {
        KeptBooksSnoc(books, j, listing, paths, nfkc, casefold);
        if !ShouldRemove(books[j], listing, paths, nfkc, casefold) {
          kept := kept + [books[j]];
        }
      }
      assert books[..|books|] == books;
    }
  }

  /** Each list after keep, which takes the dropped books out of one list. */
  function KeptLists(lists: seq<seq<BookRef>>, keep: seq<BookRef> -> seq<BookRef>): seq<seq<BookRef>>
  {
    if lists == [] then [] else KeptLists(lists[..|lists| - 1], keep) + [keep(lists[|lists| - 1])]
  }

  lemma {:induction false} KeptListsEach(lists: seq<seq<BookRef>>, keep: seq<BookRef> -> seq<BookRef>)
    ensures var r := KeptLists(lists, keep);
      |r| == |lists| && forall k :: 0 <= k < |lists| ==> r[k] == keep(lists[k])
    decreases |lists|
  {
    if lists != [] {
      var init := lists[..|lists| - 1];
      KeptListsEach(init, keep);
      assert forall k :: 0 <= k < |init| ==> init[k] == lists[k];
    }
  }

  /** How many books the lists hold together. */
  function BookCount(lists: seq<seq<BookRef>>): nat
  {
    if lists == [] then 0 else BookCount(lists[..|lists| - 1]) + |lists[|lists| - 1]|
  }

  lemma BookCountSnoc(lists: seq<seq<BookRef>>)
    requires lists != []
    ensures BookCount(lists) == BookCount(lists[..|lists| - 1]) + |lists[|lists| - 1]|
  {
  }

  /** The listing the removal decides by: None when the listing request or its JSON failed. */
  function ListingFrom(entries: Option<seq<Entry>>, nfkc: string -> string, casefold: string -> string): Option<Listing>
  {
    if entries.None? then None else Some(ListingOf(entries.value, nfkc, casefold))
  }

  // ---------------------------------------------------------------------------------------
  // upload_books

  /** A call of `upload_file` as `upload_books` makes it, and whether the file was first
      handed to the baseline JPEG conversion. */
  datatype UploadCall = UploadCall(host: string, port: int, uploadPath: string, filename: string,
                                   filepath: string, chunkSize: int, converted: bool)

  /** `zip(files, names)`. */
  function Zip(files: seq<string>, names: seq<string>): (r: seq<(string, string)>)
    ensures |r| == if |files| < |names| then |files| else |names|
    ensures forall i :: 0 <= i < |r| ==> r[i] == (files[i], names[i])
  {
    if files == [] || names == [] then []
    else [(files[0], names[0])] + Zip(files[1..], names[1..])
  }

  /** The conversion runs when it is switched on and the path, lowercased, ends in .epub. */
  predicate WantsBaseline(prefs: Prefs, filepath: string)
  {
    prefs.convertBaseline && EndsWith(Lower(filepath), ".epub")
  }

  /** The call for one (file, name) pair: to host:port and the folder as configured, with the
      name's file name, the clamped chunk size, and the converted file when the conversion
      was wanted and did not fail (None). */
  function CallFor(host: string, port: int, prefs: Prefs, file: (string, string),
                   convert: string -> Option<string>): (r: UploadCall)
    ensures r.host == host && r.port == port && r.uploadPath == prefs.path
    ensures r.filename == Basename(file.1) && '/' !in r.filename && r.chunkSize <= MAX_CHUNK
    ensures r.chunkSize == ChunkClamp(prefs.chunkSize)
    ensures r.converted <==> WantsBaseline(prefs, file.0)
    ensures r.converted && convert(file.0).Some? ==> r.filepath == convert(file.0).value
    ensures !r.converted || convert(file.0).None? ==> r.filepath == file.0
    ensures r.filepath != file.0 ==> r.converted && convert(file.0) == Some(r.filepath)
  {
    var doConvert := WantsBaseline(prefs, file.0);
    var path := if doConvert && convert(file.0).Some? then convert(file.0).value else file.0;
    UploadCall(host, port, prefs.path, Basename(file.1), path, ChunkClamp(prefs.chunkSize), doConvert)
  }

  /** The calls `upload_books` is to make, one per pair, in order. */
  function Planned(host: string, port: int, prefs: Prefs, files: seq<(string, string)>,
                   convert: string -> Option<string>): (cs: seq<UploadCall>)
    ensures |cs| == |files|
    ensures forall k :: 0 <= k < |files| ==> cs[k] == CallFor(host, port, prefs, files[k], convert)
  {
    seq(|files|, k requires 0 <= k < |files| => CallFor(host, port, prefs, files[k], convert))
  }

  /** What the loop reports after its calls so far. */
  type Outcome = (Result<seq<(string, nat)>, Error>, seq<UploadCall>)

  /** One more call after the loop so far: nothing happens after a failure; otherwise the
      call is made, and either its failure ends the loop or the book's (lpath, size) pair is
      reported. */
  function Step(prev: Outcome, call: UploadCall, dir: string,
                upload: UploadCall -> Result<(), Error>, sizeOf: string -> nat): Outcome
  {
    if prev.0.Failure? then prev
    else if upload(call).Failure? then (Failure(upload(call).error), prev.1 + [call])
    else (Success(prev.0.value + [(InDir(dir, call.filename), sizeOf(call.filepath))]), prev.1 + [call])
  }

  /** The loop of `upload_books` over the planned calls into the folder dir: the calls made,
      and the (lpath, size) pairs, or the first failure of `upload_file`. */
  function Run(calls: seq<UploadCall>, dir: string, upload: UploadCall -> Result<(), Error>,
               sizeOf: string -> nat): Outcome
  {
    if calls == [] then (Success([]), [])
    else Step(Run(calls[..|calls| - 1], dir, upload, sizeOf), calls[|calls| - 1], dir, upload, sizeOf)
  }

  lemma RunSnoc(calls: seq<UploadCall>, i: nat, dir: string, upload: UploadCall -> Result<(), Error>,
                sizeOf: string -> nat)
    requires i < |calls|
    ensures Run(calls[..i + 1], dir, upload, sizeOf) == Step(Run(calls[..i], dir, upload, sizeOf), calls[i], dir, upload, sizeOf)
  {
    assert calls[..i + 1][..i] == calls[..i];
  }

  /** After a failure the remaining calls are not made. */
  lemma {:induction false} RunFailed(calls: seq<UploadCall>, i: nat, dir: string,
                                     upload: UploadCall -> Result<(), Error>, sizeOf: string -> nat)
    requires i <= |calls| && Run(calls[..i], dir, upload, sizeOf).0.Failure?
    ensures Run(calls, dir, upload, sizeOf) == Run(calls[..i], dir, upload, sizeOf)
    decreases |calls| - i
  {
    if i == |calls| {
      assert calls[..i] == calls;
    } else {
      RunSnoc(calls, i, dir, upload, sizeOf);
      RunFailed(calls, i + 1, dir, upload, sizeOf);
    }
  }

  /** The calls made are the planned ones up to the first that fails: each before it
      succeeded, and the last made is the one whose error the loop reports. */
  lemma {:induction false} RunMakes(calls: seq<UploadCall>, dir: string,
                                    upload: UploadCall -> Result<(), Error>, sizeOf: string -> nat)
    ensures var o := Run(calls, dir, upload, sizeOf);
      && o.1 <= calls
      && (forall k :: 0 <= k < |o.1| - 1 ==> upload(o.1[k]).Success?)
      && (o.0.Success? ==> o.1 == calls && (calls != [] ==> upload(calls[|calls| - 1]).Success?))
      && (o.0.Failure? ==> o.1 != [] && upload(o.1[|o.1| - 1]) == Failure(o.0.error))
    decreases |calls|
  {
    if calls != [] {
      var init := calls[..|calls| - 1];
      var prev := Run(init, dir, upload, sizeOf);
      var o := Run(calls, dir, upload, sizeOf);
      RunMakes(init, dir, upload, sizeOf);
      if prev.0.Success? {
        assert o.1 == init + [calls[|calls| - 1]] == calls;
      }
    }
  }

  /** A finished loop reports one (lpath, size) pair per call, in order: the file's path in
      the folder and the size of the file sent. */
  lemma {:induction false} RunReports(calls: seq<UploadCall>, dir: string,
                                      upload: UploadCall -> Result<(), Error>, sizeOf: string -> nat)
    ensures var o := Run(calls, dir, upload, sizeOf);
      o.0.Success? ==> (|o.0.value| == |calls|
        && forall k :: 0 <= k < |calls| ==> o.0.value[k] == (InDir(dir, calls[k].filename), sizeOf(calls[k].filepath)))
    decreases |calls|
  {
    var o := Run(calls, dir, upload, sizeOf);
    if calls != [] && o.0.Success? {
      var init := calls[..|calls| - 1];
      var prev := Run(init, dir, upload, sizeOf);
      RunReports(init, dir, upload, sizeOf);
      assert prev.0.Success?;
      assert o.0.value == prev.0.value + [(InDir(dir, calls[|calls| - 1].filename), sizeOf(calls[|calls| - 1].filepath))];
      forall k | 0 <= k < |calls|
        ensures o.0.value[k] == (InDir(dir, calls[k].filename), sizeOf(calls[k].filepath))
      {
        if k < |init| {
          assert o.0.value[k] == prev.0.value[k] && init[k] == calls[k];
        }
      }
    }
  }

  /** The body of the loop of `upload_books` up to the call: the conversion when wanted,
      the file name, and the call's arguments. */
  method PrepareCall(host: string, port: int, prefs: Prefs, chunkSize: int, file: (string, string),
                     convert: string -> Option<string>)
    returns (call: UploadCall)
    requires chunkSize == ChunkClamp(prefs.chunkSize)
    ensures call == CallFor(host, port, prefs, file, convert)
  {
    var filepath := file.0;
    var doConvert := prefs.convertBaseline && EndsWith(Lower(filepath), ".epub");
    var path := filepath;
    if doConvert {
      var converted := convert(filepath);
      if converted.Some? {
        path := converted.value;
      }
    }
    var filename := Basename(file.1);
    call := UploadCall(host, port, prefs.path, filename, path, chunkSize, doConvert);
  }

  /** `upload_books`: one `upload_file` call per (file, name) pair, to the discovered host
      and port or the configured ones, until one fails. convert stands for
      `_convert_epub_to_baseline` (None when it fails), upload for `upload_file` and sizeOf
      for `os.path.getsize`. */
  method UploadBooks(device: CrossPointDevice, prefs: Prefs, files: seq<string>, names: seq<string>,
                     convert: string -> Option<string>, upload: UploadCall -> Result<(), Error>,
                     sizeOf: string -> nat)
    returns (r: Result<seq<(string, nat)>, Error>, calls: seq<UploadCall>)
    ensures (r, calls) == Run(Planned(device.Host(prefs), device.Port(prefs), prefs, Zip(files, names), convert),
                              UploadDir(prefs.path), upload, sizeOf)
  {
    var host := device.Host(prefs);
    var port := device.Port(prefs);
    var chunkSize := ChunkClamp(prefs.chunkSize);
    var pairs := Zip(files, names);
    ghost var planned := Planned(host, port, prefs, pairs, convert);
    var dir := UploadDir(prefs.path);
    var paths: seq<(string, nat)> := [];
    calls := [];
    for i := 0 to |pairs|
      invariant (Success(paths), calls) == Run(planned[..i], dir, upload, sizeOf)
    {
      RunSnoc(planned, i, dir, upload, sizeOf);
      var call := PrepareCall(host, port, prefs, chunkSize, pairs[i], convert);
      assert call == planned[i];
      calls := calls + [call];
      var u := upload(call);
      if u.Failure? {
        assert Run(planned[..i + 1], dir, upload, sizeOf) == (Failure(u.error), calls);
        RunFailed(planned, i + 1, dir, upload, sizeOf);
        return Failure(u.error), calls;
      }
      paths := paths + [(InDir(dir, call.filename), sizeOf(call.filepath))];
    }
    assert planned[..|pairs|] == planned;
    return Success(paths), calls;
  }
}
