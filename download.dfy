/**
 * The CelebA download of utils.py: the Google Drive exchange
 * (`download_file_from_google_drive`, `get_confirm_token`,
 * `save_response_content`) and the presence-driven steps of
 * `download_celeb_a`.
 *
 * The HTTP session is a parameter `server` from a request to the response it
 * gets (or `None` where `requests` raises before a body arrives); decoding
 * the zip archive is a parameter `unzip` from its bytes to what
 * `extractall` writes before it finishes or raises.
 */
module Download {
  import opened Wrappers
  import opened Paths
  import opened Posix
  import opened Fs
  import opened Decimal
  import Splits

  const URL: string := "https://docs.google.com/uc?export=download"
  const WARNING_PREFIX: string := "download_warning"
  const ARCHIVE_NAME: string := "img_align_celeba.zip"
  const EXTRACTED_NAME: string := "img_align_celeba"
  const DRIVE_ID: string := "0B7EVK8r0v71pZjFTYXZWM3FlRnM"
  /** The directory `download_celeb_a` fills (lower case, unlike `add_splits`). */
  const DATA_NAME: string := "celeba"

  datatype Request = Request(url: string, params: map<string, string>)

  /**
   * What the modelled code reads of a streamed response: cookies in jar
   * order, headers and body chunks. When `broken`, `iter_content` raises
   * after yielding `chunks` (the connection dropped mid-body).
   */
  datatype Response = Response(cookies: seq<(string, string)>, headers: map<string, string>,
                               chunks: seq<seq<bv8>>, broken: bool)

  /** What ends a download with an exception. */
  datatype Failure =
    | Os(errno: Errno)   // OSError / IOError from the filesystem
    | Network            // an exception from the HTTP session
    | BadHeader          // ValueError from int(content-length)
    | BadArchive         // zipfile.BadZipfile

  /** Python's `str.startswith`. */
  predicate StartsWith(s: string, prefix: string)
  {
    |prefix| <= |s| && s[..|prefix|] == prefix
  }

  predicate IsWarning(cookie: (string, string)): (b: bool)
    ensures b <==> exists rest :: cookie.0 == WARNING_PREFIX + rest
  {
    var b := StartsWith(cookie.0, WARNING_PREFIX);
    assert b ==> cookie.0 == WARNING_PREFIX + cookie.0[|WARNING_PREFIX|..];
    b
  }

  /**
   * `get_confirm_token`: the value of the first cookie whose name starts with
   * `download_warning`, or `None` when there is none.
   */
  function GetConfirmToken(cookies: seq<(string, string)>): (r: Option<string>)
    ensures r.None? <==> forall k :: 0 <= k < |cookies| ==> !IsWarning(cookies[k])
    ensures r.Some? ==> exists k :: 0 <= k < |cookies| && IsWarning(cookies[k]) && r.value == cookies[k].1 &&
                                    forall m :: 0 <= m < k ==> !IsWarning(cookies[m])
  {
    if cookies == [] then None
    else if IsWarning(cookies[0]) then Some(cookies[0].1)
    else
      var r := GetConfirmToken(cookies[1..]);
      assert r.Some? ==> exists k :: 1 <= k < |cookies| && IsWarning(cookies[k]) && r.value == cookies[k].1 &&
                                     forall m :: 0 <= m < k ==> !IsWarning(cookies[m]) by {
        if r.Some? {
          var k :| 0 <= k < |cookies[1..]| && IsWarning(cookies[1..][k]) && r.value == cookies[1..][k].1 &&
                   forall m :: 0 <= m < k ==> !IsWarning(cookies[1..][m]);
          assert forall m :: 0 <= m < k + 1 ==> !IsWarning(cookies[m]) by {
            forall m | 0 <= m < k + 1 ensures !IsWarning(cookies[m]) {
              if m > 0 {
                assert cookies[m] == cookies[1..][m - 1];
              }
            }
          }
        }
      }
      r
  }

  /** `int(headers.get('content-length', 0))`; `None` where `int` raises. */
  function TotalSize(headers: map<string, string>): Option<int>
  {
    if "content-length" in headers then ParseInt(headers["content-length"]) else Some(0)
  }

  /** A missing length counts as 0, and a length written by a server as decimal text is read back exactly. */
  lemma TotalSizeReadsLength(headers: map<string, string>, n: nat)
    ensures "content-length" !in headers ==> TotalSize(headers) == Some(0)
    ensures TotalSize(headers["content-length" := Digits(n)]) == Some(n)
  {
    ParseIntOfString(n);
  }

  /** All bytes of `chunks`, in order. */
  function Concat(chunks: seq<seq<bv8>>): seq<bv8>
  {
    if chunks == [] then [] else Concat(chunks[..|chunks| - 1]) + chunks[|chunks| - 1]
  }

  /** The chunks that are written: keep-alive (empty) chunks are skipped. */
  function NonEmpty(chunks: seq<seq<bv8>>): (r: seq<seq<bv8>>)
    ensures forall k :: 0 <= k < |r| ==> r[k] != [] && r[k] in chunks
    ensures forall k :: 0 <= k < |chunks| && chunks[k] != [] ==> chunks[k] in r
    ensures |r| <= |chunks|
  {
    if chunks == [] then []
    else NonEmpty(chunks[..|chunks| - 1]) + (if chunks[|chunks| - 1] == [] then [] else [chunks[|chunks| - 1]])
  }

  /** Skipping empty chunks loses no bytes: the file holds the whole body. */
  lemma {:induction false} ConcatNonEmpty(chunks: seq<seq<bv8>>)
    ensures Concat(NonEmpty(chunks)) == Concat(chunks)
  {
    if chunks != [] {
      var init, last := chunks[..|chunks| - 1], chunks[|chunks| - 1];
      ConcatNonEmpty(init);
      if last != [] {
        assert (NonEmpty(init) + [last])[..|NonEmpty(init)|] == NonEmpty(init);
      } else {
        assert NonEmpty(chunks) == NonEmpty(init);
      }
    }
  }

  /** One more chunk: it is written unless empty, and the bytes so far grow by it. */
  lemma NonEmptySnoc(chunks: seq<seq<bv8>>, k: nat)
    requires k < |chunks|
    ensures NonEmpty(chunks[..k + 1]) == NonEmpty(chunks[..k]) + (if chunks[k] == [] then [] else [chunks[k]])
    ensures Concat(chunks[..k + 1]) == Concat(chunks[..k]) + chunks[k]
  {
    assert chunks[..k + 1][..k] == chunks[..k];
  }

  /**
   * What `save_response_content(response, destination)` does to the tree
   * `t`. A stream that breaks raises after the file was opened, so the
   * bytes received so far stay in it.
   */
  function SaveResult(cwd: PlainPath, t: Tree, response: Response, destination: string): (Tree, Option<Failure>)
  {
    if TotalSize(response.headers).None? then (t, Some(BadHeader))
    else if destination == "" then (t, Some(Os(ENoEnt)))
    else
      var p := Abs(cwd, destination);
      var created := Posix.OpenForWrite(t, p);
      if created.1.Some? then (t, Some(Os(created.1.value)))
      else (t[p := File(Concat(response.chunks))], if response.broken then Some(Network) else None)
  }

  /**
   * A bad length raises before anything is opened; once the file is open it
   * holds the bytes of the chunks written, the whole body when the call
   * succeeds and a truncated one when the stream broke; any other failure
   * leaves the tree as it was.
   */
  lemma SaveResultFacts(cwd: PlainPath, t: Tree, response: Response, destination: string)
    ensures TotalSize(response.headers).None? ==> SaveResult(cwd, t, response, destination) == (t, Some(BadHeader))
    ensures var r := SaveResult(cwd, t, response, destination);
            r.1.None? || r.1 == Some(Network) ==>
              destination != "" && (r.1.None? <==> !response.broken) &&
              r.0 == t[Abs(cwd, destination) := File(Concat(NonEmpty(response.chunks)))]
    ensures var r := SaveResult(cwd, t, response, destination);
            r.1.Some? && r.1 != Some(Network) ==> r.0 == t
  {
    if TotalSize(response.headers).Some? && destination != "" {
      if Posix.OpenForWrite(t, Abs(cwd, destination)).1.None? {
        ConcatNonEmpty(response.chunks);
      }
    }
  }

  /** The `for chunk in ..: if chunk: f.write(chunk)` loop on the freshly opened file `destination`. */
  method WriteChunks(fs: FileSystem, destination: string, chunks: seq<seq<bv8>>) returns (writes: seq<seq<bv8>>)
    requires fs.Resolve(destination) in fs.nodes && fs.nodes[fs.Resolve(destination)] == File([])
    modifies fs
    ensures writes == NonEmpty(chunks) && Concat(writes) == Concat(chunks)
    ensures fs.nodes == old(fs.nodes)[fs.Resolve(destination) := File(Concat(chunks))]
  {
    var p := fs.Resolve(destination);
    writes := [];
    var k := 0;
    while k < |chunks|
      invariant 0 <= k <= |chunks|
      invariant writes == NonEmpty(chunks[..k])
      invariant fs.nodes == old(fs.nodes)[p := File(Concat(chunks[..k]))]
    {
      NonEmptySnoc(chunks, k);
      writes := WriteChunk(fs, destination, Concat(chunks[..k]), writes, chunks[k]);
      k := k + 1;
    }
    assert chunks[..k] == chunks;
    ConcatNonEmpty(chunks);
  }

  /**
   * One pass of that loop, `if chunk: f.write(chunk)`, on a file holding
   * `data`; `writes` extends the chunks written so far.
   */
  method WriteChunk(fs: FileSystem, destination: string, data: seq<bv8>, written: seq<seq<bv8>>, chunk: seq<bv8>)
    returns (writes: seq<seq<bv8>>)
    requires fs.Resolve(destination) in fs.nodes && fs.nodes[fs.Resolve(destination)] == File(data)
    modifies fs
    ensures writes == written + (if chunk == [] then [] else [chunk])
    ensures fs.nodes == old(fs.nodes)[fs.Resolve(destination) := File(data + chunk)]
  {
    writes := written;
    if chunk != [] {
      fs.Append(destination, chunk);
      writes := written + [chunk];
    } else {
      assert data + chunk == data;
    }
  }

  /**
   * `save_response_content`: open `destination` for writing and write each
   * non-empty chunk in turn, until the stream ends or breaks; `writes` are
   * the chunks written.
   */
  method SaveResponseContent(fs: FileSystem, response: Response, destination: string)
    returns (f: Option<Failure>, writes: seq<seq<bv8>>)
    modifies fs
    ensures (fs.nodes, f) == SaveResult(fs.cwd, old(fs.nodes), response, destination)
    ensures writes == if f.None? || f == Some(Network) then NonEmpty(response.chunks) else []
  {
    if TotalSize(response.headers).None? {
      return Some(BadHeader), [];
    }
    var e := fs.OpenForWrite(destination);
    if e.Some? {
      return Some(Os(e.value)), [];
    }
    ghost var p := fs.Resolve(destination);
    ghost var created := fs.nodes;
    writes := WriteChunks(fs, destination, response.chunks);
    assert created == old(fs.nodes)[p := File([])];
    assert fs.nodes == old(fs.nodes)[p := File(Concat(response.chunks))];
    f := if response.broken then Some(Network) else None;
  }

  /**
   * The requests `download_file_from_google_drive(id, ..)` sends and the
   * response whose body it saves (`None` when a request raised).
   */
  function DriveExchange(id: string, server: Request -> Option<Response>): (r: (seq<Request>, Option<Response>))
    ensures 1 <= |r.0| <= 2 && r.0[0] == Request(URL, map["id" := id])
    ensures |r.0| == 2 <==> server(r.0[0]).Some? && GetConfirmToken(server(r.0[0]).value.cookies).Some? &&
                            GetConfirmToken(server(r.0[0]).value.cookies).value != ""
    ensures |r.0| == 2 ==> r.0[1] == Request(URL, map["id" := id, "confirm" := GetConfirmToken(server(r.0[0]).value.cookies).value])
    ensures r.1.Some? ==> r.1 == server(r.0[|r.0| - 1])
    ensures r.1.None? ==> server(r.0[|r.0| - 1]).None?
  {
    var first := Request(URL, map["id" := id]);
    match server(first)
    case None => ([first], None)
    case Some(response) =>
      var token := GetConfirmToken(response.cookies);
      if token.Some? && token.value != "" then
        var second := Request(URL, map["id" := id, "confirm" := token.value]);
        ([first, second], server(second))
      else ([first], Some(response))
  }

  /** `download_file_from_google_drive(id, destination)` */
  method DownloadFileFromGoogleDrive(fs: FileSystem, id: string, destination: string, server: Request -> Option<Response>)
    returns (f: Option<Failure>, requests: seq<Request>)
    modifies fs
    ensures requests == DriveExchange(id, server).0
    ensures DriveExchange(id, server).1.None? ==> f == Some(Network) && fs.nodes == old(fs.nodes)
    ensures DriveExchange(id, server).1.Some? ==>
              (fs.nodes, f) == SaveResult(fs.cwd, old(fs.nodes), DriveExchange(id, server).1.value, destination)
  {
    var first := Request(URL, map["id" := id]);
    requests := [first];
    var response := server(first);
    if response.None? {
      return Some(Network), requests;
    }
    var token := GetConfirmToken(response.value.cookies);
    if token.Some? && token.value != "" {
      var second := Request(URL, map["id" := id, "confirm" := token.value]);
      requests := requests + [second];
      response := server(second);
      if response.None? {
        return Some(Network), requests;
      }
    }
    var writes;
    f, writes := SaveResponseContent(fs, response.value, destination);
  }

  datatype Outcome = Skipped | Done | Failed(failure: Failure)

  /**
   * What `ZipFile(..).extractall(dir)` makes of an archive: the entries it
   * writes, keyed by paths relative to `dir`, and whether it got through
   * every member (`complete`) or raised `BadZipfile` after writing `entries`.
   */
  datatype Unzipped = Unzipped(entries: Tree, complete: bool)

  /** The images directory `download_celeb_a` fills is not the one `add_splits` reads. */
  lemma SplitsReadOtherDirectory(cwd: PlainPath, base: string)
    ensures Abs(cwd, Join(Join(base, DATA_NAME), "images")) != Abs(cwd, Splits.ImagesPath(base))
  {
    AbsJoin(cwd, base, DATA_NAME);
    AbsJoin(cwd, Join(base, DATA_NAME), "images");
    AbsJoin(cwd, base, "CelebA");
    AbsJoin(cwd, Join(base, "CelebA"), "images");
    var b := Abs(cwd, base);
    assert Abs(cwd, Join(Join(base, DATA_NAME), "images"))[|b|] == DATA_NAME;
    assert Abs(cwd, Splits.ImagesPath(base))[|b|] == "CelebA";
  }

  /** The archive lies next to `<base>/CelebA`, not on the way to or inside its `splits`. */
  lemma ArchiveOutsideSplits(cwd: PlainPath, base: string)
    ensures !Splits.UnderSplits(Splits.DataDir(cwd, base), Abs(cwd, Join(base, ARCHIVE_NAME)))
  {
    AbsJoin(cwd, base, ARCHIVE_NAME);
    AbsJoin(cwd, base, "CelebA");
    var b := Abs(cwd, base);
    var d := Splits.DataDir(cwd, base);
    var q := Abs(cwd, Join(base, ARCHIVE_NAME));
    assert q[|b|] == ARCHIVE_NAME && (d + ["splits"])[|b|] == "CelebA";
  }

  /** `add_splits` neither brings the removed archive back nor removes the images directory. */
  lemma AddSplitsKeepsDownloadState(cwd: PlainPath, t: Tree, base: string)
    requires Abs(cwd, Join(base, ARCHIVE_NAME)) !in t
    requires Abs(cwd, Join(Join(base, DATA_NAME), "images")) in t
    ensures Abs(cwd, Join(base, ARCHIVE_NAME)) !in Splits.AddSplitsResult(cwd, t, base).0
    ensures Abs(cwd, Join(Join(base, DATA_NAME), "images")) in Splits.AddSplitsResult(cwd, t, base).0
  {
    Splits.AddSplitsLinks(cwd, t, base);
    ArchiveOutsideSplits(cwd, base);
  }

  // The calls `download_celeb_a` makes on path strings, as the `FileSystem` methods perform them.

  /** `os.path.exists(s)` on the tree `t`. */
  predicate ExistsIn(cwd: PlainPath, t: Tree, s: string)
  {
    s != "" && Present(t, Abs(cwd, s))
  }

  /** `os.mkdir(s)` on the tree `t`. */
  function MkdirIn(cwd: PlainPath, t: Tree, s: string): (Tree, Option<Errno>)
  {
    if s == "" then (t, Some(ENoEnt)) else Posix.Mkdir(t, Abs(cwd, s))
  }

  /** `if not os.path.exists(s): os.mkdir(s)` */
  function EnsureMkdir(cwd: PlainPath, t: Tree, s: string): (Tree, Option<Errno>)
  {
    if ExistsIn(cwd, t, s) then (t, None) else MkdirIn(cwd, t, s)
  }

  /** `os.rename(src, dst)` on the tree `t`. */
  function RenameIn(cwd: PlainPath, t: Tree, src: string, dst: string): (Tree, Option<Errno>)
  {
    if src == "" || dst == "" then (t, Some(ENoEnt)) else Posix.Rename(t, Abs(cwd, src), Abs(cwd, dst))
  }

  /** `os.remove(s)` on the tree `t`. */
  function RemoveIn(cwd: PlainPath, t: Tree, s: string): (Tree, Option<Errno>)
  {
    if s == "" then (t, Some(ENoEnt)) else Posix.Remove(t, Abs(cwd, s))
  }

  // Where `download_celeb_a(base)` works, resolved.

  function ArchiveKey(cwd: PlainPath, base: string): Path
  {
    Abs(cwd, Join(base, ARCHIVE_NAME))
  }

  function DataKey(cwd: PlainPath, base: string): Path
  {
    Abs(cwd, Join(base, DATA_NAME))
  }

  function ExtractedKey(cwd: PlainPath, base: string): Path
  {
    Abs(cwd, Join(base, EXTRACTED_NAME))
  }

  function ImagesKey(cwd: PlainPath, base: string): Path
  {
    Abs(cwd, Join(Join(base, DATA_NAME), "images"))
  }

  /** The paths `download_celeb_a` builds are non-empty and name children of `base`. */
  lemma Keys(cwd: PlainPath, base: string)
    ensures ArchiveKey(cwd, base) == Abs(cwd, base) + [ARCHIVE_NAME]
    ensures DataKey(cwd, base) == Abs(cwd, base) + [DATA_NAME]
    ensures ExtractedKey(cwd, base) == Abs(cwd, base) + [EXTRACTED_NAME]
    ensures ImagesKey(cwd, base) == Abs(cwd, base) + [DATA_NAME, "images"]
    ensures Join(base, ARCHIVE_NAME) != "" && Join(base, DATA_NAME) != "" && Join(base, EXTRACTED_NAME) != ""
    ensures Join(Join(base, DATA_NAME), "images") != ""
  {
    AbsJoin(cwd, base, ARCHIVE_NAME);
    AbsJoin(cwd, base, DATA_NAME);
    AbsJoin(cwd, base, EXTRACTED_NAME);
    AbsJoin(cwd, Join(base, DATA_NAME), "images");
  }

  /**
   * What the first half of `download_celeb_a(base)` does to `t`: create
   * `base` when missing, stop when the data directory exists, and download
   * the archive unless it is already there. The result is the new tree, the
   * outcome when the call ends here, and the requests sent.
   */
  function FetchResult(cwd: PlainPath, t: Tree, base: string, server: Request -> Option<Response>)
    : (Tree, Option<Outcome>, seq<Request>)
  {
    var made := EnsureMkdir(cwd, t, base);
    var u := made.0;
    if made.1.Some? then (u, Some(Failed(Os(made.1.value))), [])
    else if ExistsIn(cwd, u, Join(base, DATA_NAME)) then (u, Some(Skipped), [])
    else if ExistsIn(cwd, u, Join(base, ARCHIVE_NAME)) then (u, None, [])
    else
      var x := DriveExchange(DRIVE_ID, server);
      if x.1.None? then (u, Some(Failed(Network)), x.0)
      else
        var saved := SaveResult(cwd, u, x.1.value, Join(base, ARCHIVE_NAME));
        (saved.0, if saved.1.Some? then Some(Failed(saved.1.value)) else None, x.0)
  }

  /**
   * `zipfile.ZipFile(save_path).extractall(<directory of save_path>)` on `t`;
   * the outcome when it raised. Members written before a `BadZipfile` stay.
   */
  function ExtractResult(cwd: PlainPath, t: Tree, savePath: string, unzip: seq<bv8> -> Unzipped): (Tree, Option<Outcome>)
  {
    var archive := if savePath == "" then Err(ENoEnt) else Read(t, Abs(cwd, savePath));
    if archive.Err? then (t, Some(Failed(Os(archive.error))))
    else
      var z := unzip(archive.value);
      (Extracted(t, Abs(cwd, ParentDir(savePath)), z.entries), if z.complete then None else Some(Failed(BadArchive)))
  }

  /** Create the data directory when missing, then rename the extracted `<base>/img_align_celeba` to `<base>/celeba/images`. */
  function MoveResult(cwd: PlainPath, t: Tree, base: string): (Tree, Option<Errno>)
  {
    var made := EnsureMkdir(cwd, t, Join(base, DATA_NAME));
    if made.1.Some? then made
    else RenameIn(cwd, made.0, Join(base, EXTRACTED_NAME), Join(Join(base, DATA_NAME), "images"))
  }

  /** After extraction: move the images, delete the archive, add the splits. */
  function FinishResult(cwd: PlainPath, t: Tree, base: string): (Tree, Outcome)
  {
    var moved := MoveResult(cwd, t, base);
    if moved.1.Some? then (moved.0, Failed(Os(moved.1.value)))
    else
      var removed := RemoveIn(cwd, moved.0, Join(base, ARCHIVE_NAME));
      if removed.1.Some? then (removed.0, Failed(Os(removed.1.value)))
      else
        var split := Splits.AddSplitsResult(cwd, removed.0, base);
        (split.0, if split.1.Some? then Failed(Os(split.1.value)) else Done)
  }

  /** The second half of `download_celeb_a`: extraction, then the rest. */
  function InstallResult(cwd: PlainPath, t: Tree, base: string, unzip: seq<bv8> -> Unzipped): (Tree, Outcome)
  {
    var x := ExtractResult(cwd, t, Join(base, ARCHIVE_NAME), unzip);
    if x.1.Some? then (x.0, x.1.value) else FinishResult(cwd, x.0, base)
  }

  /** What `download_celeb_a(base)` does to `t`: the new tree, the outcome and the requests sent. */
  function CelebAResult(cwd: PlainPath, t: Tree, base: string, server: Request -> Option<Response>,
                        unzip: seq<bv8> -> Unzipped): (Tree, Outcome, seq<Request>)
  {
    var f := FetchResult(cwd, t, base, server);
    if f.1.Some? then (f.0, f.1.value, f.2)
    else
      var i := InstallResult(cwd, f.0, base, unzip);
      (i.0, i.1, f.2)
  }

  /**
   * The skip: with `base` in place the call stops exactly when the data
   * directory exists, and then sends nothing and changes nothing. On a
   * well-formed tree an existing data directory implies `base` exists.
   */
  lemma FetchSkipsExactlyWhenDataPresent(cwd: PlainPath, t: Tree, base: string, server: Request -> Option<Response>)
    ensures var r := FetchResult(cwd, t, base, server);
            r.1 == Some(Skipped) ==> ExistsIn(cwd, r.0, Join(base, DATA_NAME)) && r.2 == []
    ensures ExistsIn(cwd, t, base) ==>
              (FetchResult(cwd, t, base, server).1 == Some(Skipped) <==> ExistsIn(cwd, t, Join(base, DATA_NAME)))
    ensures var r := FetchResult(cwd, t, base, server);
            ExistsIn(cwd, t, Join(base, DATA_NAME)) ==>
              r.2 == [] && r.1.Some? && !r.1.value.Done? && (r.0 == t || r.0 == t[Abs(cwd, base) := Dir])
    ensures WellFormed(t) && base != "" && ExistsIn(cwd, t, Join(base, DATA_NAME)) ==>
              FetchResult(cwd, t, base, server) == (t, Some(Skipped), [])
  {
    Keys(cwd, base);
    var made := EnsureMkdir(cwd, t, base);
    assert made.0 == t || made.0 == t[Abs(cwd, base) := Dir];
    if made.1.None? && !ExistsIn(cwd, made.0, Join(base, DATA_NAME)) && !ExistsIn(cwd, made.0, Join(base, ARCHIVE_NAME)) {
      FetchRequests(cwd, t, base, server);
      var x := DriveExchange(DRIVE_ID, server);
      if x.1.Some? {
        var saved := SaveResult(cwd, made.0, x.1.value, Join(base, ARCHIVE_NAME));
        assert FetchResult(cwd, t, base, server).1 == if saved.1.Some? then Some(Failed(saved.1.value)) else None;
      }
    }
    if WellFormed(t) && base != "" && ExistsIn(cwd, t, Join(base, DATA_NAME)) {
      AncestorsPresent(t, DataKey(cwd, base), Abs(cwd, base));
    }
  }

  /**
   * The first half never finishes the job and sends nothing but the Drive
   * exchange, and nothing at all when the archive is already there.
   */
  lemma FetchRequests(cwd: PlainPath, t: Tree, base: string, server: Request -> Option<Response>)
    ensures FetchResult(cwd, t, base, server).1 != Some(Done)
    ensures var r := FetchResult(cwd, t, base, server);
            r.2 == [] || r.2 == DriveExchange(DRIVE_ID, server).0
    ensures ExistsIn(cwd, t, Join(base, ARCHIVE_NAME)) ==> FetchResult(cwd, t, base, server).2 == []
  {
    Keys(cwd, base);
    var made := EnsureMkdir(cwd, t, base);
    if made.1.None? && !ExistsIn(cwd, made.0, Join(base, DATA_NAME)) && !ExistsIn(cwd, made.0, Join(base, ARCHIVE_NAME)) {
      assert made.0 == t || made.0 == t[Abs(cwd, base) := Dir];
      assert !ExistsIn(cwd, t, Join(base, ARCHIVE_NAME)) by {
        assert Abs(cwd, base) != ArchiveKey(cwd, base);
      }
      var x := DriveExchange(DRIVE_ID, server);
      if x.1.Some? {
        var saved := SaveResult(cwd, made.0, x.1.value, Join(base, ARCHIVE_NAME));
        assert FetchResult(cwd, t, base, server).1 == if saved.1.Some? then Some(Failed(saved.1.value)) else None;
      }
    }
  }

  /** An archive already there is not downloaded again: the call goes on to extraction, having sent nothing. */
  lemma FetchKeepsExistingArchive(cwd: PlainPath, t: Tree, base: string, server: Request -> Option<Response>)
    requires ExistsIn(cwd, t, base) && !ExistsIn(cwd, t, Join(base, DATA_NAME))
    requires ExistsIn(cwd, t, Join(base, ARCHIVE_NAME))
    ensures FetchResult(cwd, t, base, server) == (t, None, [])
  {
  }

  /**
   * A missing archive is downloaded: the Drive exchange is sent, and the
   * call goes on exactly when a response came and its body streamed to the
   * end, with the archive then holding that body.
   */
  lemma FetchDownloadsMissingArchive(cwd: PlainPath, t: Tree, base: string, server: Request -> Option<Response>)
    requires base != "" && IsDirAt(t, Abs(cwd, base))
    requires !ExistsIn(cwd, t, Join(base, DATA_NAME)) && !ExistsIn(cwd, t, Join(base, ARCHIVE_NAME))
    ensures FetchResult(cwd, t, base, server).2 == DriveExchange(DRIVE_ID, server).0
    ensures var x := DriveExchange(DRIVE_ID, server);
            FetchResult(cwd, t, base, server).1.None? <==>
              x.1.Some? && TotalSize(x.1.value.headers).Some? && !x.1.value.broken
    ensures var r := FetchResult(cwd, t, base, server);
            var x := DriveExchange(DRIVE_ID, server);
            r.1.None? ==> r.0 == t[ArchiveKey(cwd, base) := File(Concat(NonEmpty(x.1.value.chunks)))]
  {
    Keys(cwd, base);
    var b := Abs(cwd, base);
    assert Parent(b + [ARCHIVE_NAME]) == b;
    var x := DriveExchange(DRIVE_ID, server);
    if x.1.Some? {
      SaveResultFacts(cwd, t, x.1.value, Join(base, ARCHIVE_NAME));
    }
  }

  /** A body that breaks mid-stream fails the call and leaves what arrived in the archive. */
  lemma BrokenDownloadLeavesArchive(cwd: PlainPath, t: Tree, base: string, server: Request -> Option<Response>)
    requires base != "" && IsDirAt(t, Abs(cwd, base))
    requires !ExistsIn(cwd, t, Join(base, DATA_NAME)) && !ExistsIn(cwd, t, Join(base, ARCHIVE_NAME))
    requires DriveExchange(DRIVE_ID, server).1.Some? && DriveExchange(DRIVE_ID, server).1.value.broken
    requires TotalSize(DriveExchange(DRIVE_ID, server).1.value.headers).Some?
    ensures var x := DriveExchange(DRIVE_ID, server);
            FetchResult(cwd, t, base, server) ==
              (t[ArchiveKey(cwd, base) := File(Concat(x.1.value.chunks))], Some(Failed(Network)), x.0)
  {
    Keys(cwd, base);
    var b := Abs(cwd, base);
    assert Parent(b + [ARCHIVE_NAME]) == b;
  }

  /**
   * The archive truncated by a broken stream is found by the next call,
   * which goes on to extract it without downloading again.
   */
  lemma TruncatedArchiveIsNotFetchedAgain(cwd: PlainPath, t: Tree, base: string,
                                          server: Request -> Option<Response>, retry: Request -> Option<Response>)
    requires base != "" && IsDirAt(t, Abs(cwd, base))
    requires !ExistsIn(cwd, t, Join(base, DATA_NAME)) && !ExistsIn(cwd, t, Join(base, ARCHIVE_NAME))
    requires DriveExchange(DRIVE_ID, server).1.Some? && DriveExchange(DRIVE_ID, server).1.value.broken
    requires TotalSize(DriveExchange(DRIVE_ID, server).1.value.headers).Some?
    ensures var r := FetchResult(cwd, t, base, server);
            r.1 == Some(Failed(Network)) && ExistsIn(cwd, r.0, Join(base, ARCHIVE_NAME)) &&
            FetchResult(cwd, r.0, base, retry) == (r.0, None, [])
  {
    BrokenDownloadLeavesArchive(cwd, t, base, server);
    Keys(cwd, base);
    var b := Abs(cwd, base);
    var u := FetchResult(cwd, t, base, server).0;
    assert u == t[b + [ARCHIVE_NAME] := File(Concat(DriveExchange(DRIVE_ID, server).1.value.chunks))];
    assert b + [DATA_NAME] != b + [ARCHIVE_NAME] by {
      assert (b + [DATA_NAME])[|b|] != (b + [ARCHIVE_NAME])[|b|];
    }
    assert b != b + [ARCHIVE_NAME];
    assert ExistsIn(cwd, u, base) && !ExistsIn(cwd, u, Join(base, DATA_NAME)) && ExistsIn(cwd, u, Join(base, ARCHIVE_NAME));
    FetchKeepsExistingArchive(cwd, u, base, retry);
  }

  /**
   * Extraction goes through exactly when the archive reads and decodes in
   * full. A failed read changes nothing; otherwise every member written,
   * all of them or those before a `BadZipfile`, lands below the archive's
   * directory.
   */
  lemma ExtractArchiveFacts(cwd: PlainPath, t: Tree, savePath: string, unzip: seq<bv8> -> Unzipped)
    ensures var archive := if savePath == "" then Err(ENoEnt) else Read(t, Abs(cwd, savePath));
            ExtractResult(cwd, t, savePath, unzip).1.None? <==> archive.Ok? && unzip(archive.value).complete
    ensures var archive := if savePath == "" then Err(ENoEnt) else Read(t, Abs(cwd, savePath));
            archive.Err? ==> ExtractResult(cwd, t, savePath, unzip) == (t, Some(Failed(Os(archive.error))))
    ensures var archive := if savePath == "" then Err(ENoEnt) else Read(t, Abs(cwd, savePath));
            var r := ExtractResult(cwd, t, savePath, unzip);
            var dir := Abs(cwd, ParentDir(savePath));
            archive.Ok? ==> forall q :: q in unzip(archive.value).entries ==>
                              dir + q in r.0 && r.0[dir + q] == unzip(archive.value).entries[q]
  {
  }

  /**
   * A successful move carries every entry below `<base>/img_align_celeba`
   * to the same place below `<base>/celeba/images` and leaves nothing below
   * the old name; a failed one leaves at most the new data directory behind.
   */
  lemma MoveImagesMovesSubtree(cwd: PlainPath, t: Tree, base: string)
    ensures var r := MoveResult(cwd, t, base);
            var src, dst := ExtractedKey(cwd, base), ImagesKey(cwd, base);
            r.1.None? ==> src in t && forall q :: q in t && src <= q ==>
                                        dst + q[|src|..] in r.0 && r.0[dst + q[|src|..]] == t[q]
    ensures var r := MoveResult(cwd, t, base);
            var src, dst := ExtractedKey(cwd, base), ImagesKey(cwd, base);
            r.1.None? ==> forall q :: q in r.0 && src <= q ==> dst <= q
    ensures var r := MoveResult(cwd, t, base);
            r.1.Some? ==> r.0 == t || r.0 == t[DataKey(cwd, base) := Dir]
  {
    Keys(cwd, base);
    var made := EnsureMkdir(cwd, t, Join(base, DATA_NAME));
    if made.1.None? {
      assert made.0 == t || made.0 == t[DataKey(cwd, base) := Dir];
      assert MoveResult(cwd, t, base) == Posix.Rename(made.0, ExtractedKey(cwd, base), ImagesKey(cwd, base));
      RenameAfterMkdir(Abs(cwd, base), t, made.0);
    }
  }

  /** The rename of `<b>/img_align_celeba` to `<b>/celeba/images` in `mid`, which is `t` with perhaps `<b>/celeba` added. */
  lemma RenameAfterMkdir(b: Path, t: Tree, mid: Tree)
    requires mid == t || mid == t[b + [DATA_NAME] := Dir]
    ensures var src, dst := b + [EXTRACTED_NAME], b + [DATA_NAME, "images"];
            var r := Posix.Rename(mid, src, dst);
            r.1.None? ==> src in t && forall q :: q in t && src <= q ==>
                                        dst + q[|src|..] in r.0 && r.0[dst + q[|src|..]] == t[q]
    ensures var src, dst := b + [EXTRACTED_NAME], b + [DATA_NAME, "images"];
            var r := Posix.Rename(mid, src, dst);
            r.1.None? ==> forall q :: q in r.0 && src <= q ==> dst <= q
  {
    var src, dst, data := b + [EXTRACTED_NAME], b + [DATA_NAME, "images"], b + [DATA_NAME];
    RenameMovesSubtree(mid, src, dst);
    forall q | q in t && src <= q
      ensures q != data
    {
      assert q[|b|] == EXTRACTED_NAME && data[|b|] == DATA_NAME;
    }
  }

  /**
   * A finished install has moved every extracted image into
   * `<base>/celeba/images` and deleted the archive.
   */
  lemma FinishDoneFacts(cwd: PlainPath, t: Tree, base: string)
    ensures var r := FinishResult(cwd, t, base);
            var src, dst := ExtractedKey(cwd, base), ImagesKey(cwd, base);
            r.1 == Done ==> ArchiveKey(cwd, base) !in r.0 && dst in r.0 &&
                            forall q :: q in t && src <= q ==> dst + q[|src|..] in r.0 && r.0[dst + q[|src|..]] == t[q]
  {
    Keys(cwd, base);
    var src, dst, archive := ExtractedKey(cwd, base), ImagesKey(cwd, base), ArchiveKey(cwd, base);
    MoveImagesMovesSubtree(cwd, t, base);
    var moved := MoveResult(cwd, t, base);
    if moved.1.None? {
      var removed := RemoveIn(cwd, moved.0, Join(base, ARCHIVE_NAME));
      if removed.1.None? {
        var split := Splits.AddSplitsResult(cwd, removed.0, base);
        Splits.AddSplitsLinks(cwd, removed.0, base);
        ArchiveOutsideSplits(cwd, base);
        MovedSurvives(Abs(cwd, base), t, moved.0, split.0, src, dst, archive);
        assert dst + src[|src|..] == dst;
      }
    }
  }

  /** Entries moved below `<base>/celeba/images` survive deleting the archive and adding the splits. */
  lemma MovedSurvives(b: Path, t: Tree, m: Tree, w: Tree, src: Path, dst: Path, archive: Path)
    requires dst == b + [DATA_NAME, "images"] && archive == b + [ARCHIVE_NAME]
    requires forall q :: q in t && src <= q ==> dst + q[|src|..] in m && m[dst + q[|src|..]] == t[q]
    requires Extends(m - {archive}, w)
    ensures forall q :: q in t && src <= q ==> dst + q[|src|..] in w && w[dst + q[|src|..]] == t[q]
  {
    forall q | q in t && src <= q
      ensures dst + q[|src|..] in w && w[dst + q[|src|..]] == t[q]
    {
      assert (dst + q[|src|..])[|b|] == DATA_NAME && archive[|b|] == ARCHIVE_NAME;
      assert dst + q[|src|..] in m - {archive};
    }
  }

  /** A finished install: extraction went through, then everything `FinishDoneFacts` says. */
  lemma InstallDoneFacts(cwd: PlainPath, t: Tree, base: string, unzip: seq<bv8> -> Unzipped)
    ensures var r := InstallResult(cwd, t, base, unzip);
            var x := ExtractResult(cwd, t, Join(base, ARCHIVE_NAME), unzip);
            var src, dst := ExtractedKey(cwd, base), ImagesKey(cwd, base);
            r.1 == Done ==> x.1.None? && ArchiveKey(cwd, base) !in r.0 && dst in r.0 &&
                            forall q :: q in x.0 && src <= q ==> dst + q[|src|..] in r.0 && r.0[dst + q[|src|..]] == x.0[q]
  {
    FinishDoneFacts(cwd, ExtractResult(cwd, t, Join(base, ARCHIVE_NAME), unzip).0, base);
  }

  /** Requests are only ever the Drive exchange, and none is sent when the archive is already there. */
  lemma DownloadRequests(cwd: PlainPath, t: Tree, base: string, server: Request -> Option<Response>,
                         unzip: seq<bv8> -> Unzipped)
    ensures var r := CelebAResult(cwd, t, base, server, unzip);
            r.2 != [] ==> r.2 == DriveExchange(DRIVE_ID, server).0
    ensures ExistsIn(cwd, t, Join(base, ARCHIVE_NAME)) ==> CelebAResult(cwd, t, base, server, unzip).2 == []
  {
    FetchRequests(cwd, t, base, server);
  }

  /** With `base` in place, no data directory and an archive already there, the call installs that archive. */
  lemma DownloadExtractsExistingArchive(cwd: PlainPath, t: Tree, base: string, server: Request -> Option<Response>,
                                        unzip: seq<bv8> -> Unzipped)
    requires ExistsIn(cwd, t, base) && !ExistsIn(cwd, t, Join(base, DATA_NAME))
    requires ExistsIn(cwd, t, Join(base, ARCHIVE_NAME))
    ensures var i := InstallResult(cwd, t, base, unzip);
            CelebAResult(cwd, t, base, server, unzip) == (i.0, i.1, [])
  {
    FetchKeepsExistingArchive(cwd, t, base, server);
  }

  /** A finished download leaves no archive behind and the images in `<base>/celeba/images`. */
  lemma DownloadDoneFacts(cwd: PlainPath, t: Tree, base: string, server: Request -> Option<Response>,
                          unzip: seq<bv8> -> Unzipped)
    ensures var r := CelebAResult(cwd, t, base, server, unzip);
            r.1 == Done ==> ArchiveKey(cwd, base) !in r.0 && ImagesKey(cwd, base) in r.0
  {
    FetchRequests(cwd, t, base, server);
    var f := FetchResult(cwd, t, base, server);
    if f.1.None? {
      InstallDoneFacts(cwd, f.0, base, unzip);
    }
  }

  /** On a well-formed tree an existing data directory is a skip that sends nothing and changes nothing. */
  lemma DownloadSkipsWhenDataPresent(cwd: PlainPath, t: Tree, base: string, server: Request -> Option<Response>,
                                     unzip: seq<bv8> -> Unzipped)
    requires WellFormed(t) && base != "" && ExistsIn(cwd, t, Join(base, DATA_NAME))
    ensures CelebAResult(cwd, t, base, server, unzip) == (t, Skipped, [])
  {
    FetchSkipsExactlyWhenDataPresent(cwd, t, base, server);
  }

  /** The first half of `download_celeb_a`. */
  method FetchArchive(fs: FileSystem, base: string, server: Request -> Option<Response>)
    returns (stop: Option<Outcome>, requests: seq<Request>)
    modifies fs
    ensures (fs.nodes, stop, requests) == FetchResult(fs.cwd, old(fs.nodes), base, server)
  {
    requests := [];
    if !fs.Exists(base) {
      var e := fs.Mkdir(base);
      if e.Some? {
        return Some(Failed(Os(e.value))), requests;
      }
    }
    if fs.Exists(Join(base, DATA_NAME)) {
      return Some(Skipped), requests;
    }
    if fs.Exists(Join(base, ARCHIVE_NAME)) {
      return None, requests;
    }
    var f;
    f, requests := DownloadFileFromGoogleDrive(fs, DRIVE_ID, Join(base, ARCHIVE_NAME), server);
    stop := if f.Some? then Some(Failed(f.value)) else None;
  }

  /** `zipfile.ZipFile(save_path).extractall(<directory of save_path>)`; `stop` holds the failure when it raised. */
  method ExtractArchive(fs: FileSystem, savePath: string, unzip: seq<bv8> -> Unzipped) returns (stop: Option<Outcome>)
    modifies fs
    ensures (fs.nodes, stop) == ExtractResult(fs.cwd, old(fs.nodes), savePath, unzip)
  {
    var archive := fs.ReadFile(savePath);
    if archive.Err? {
      return Some(Failed(Os(archive.error)));
    }
    var z := unzip(archive.value);
    fs.ExtractAll(ParentDir(savePath), z.entries);
    stop := if z.complete then None else Some(Failed(BadArchive));
  }

  /** `if not exists(data_path): mkdir(data_path)` and the rename of the extracted images. */
  method MoveImages(fs: FileSystem, base: string) returns (e: Option<Errno>)
    modifies fs
    ensures (fs.nodes, e) == MoveResult(fs.cwd, old(fs.nodes), base)
  {
    var dataPath := Join(base, DATA_NAME);
    if !fs.Exists(dataPath) {
      e := fs.Mkdir(dataPath);
      if e.Some? {
        return;
      }
    }
    e := fs.Rename(Join(base, EXTRACTED_NAME), Join(dataPath, "images"));
  }

  /** After extraction: move the images, delete the archive, add the splits. */
  method FinishInstall(fs: FileSystem, base: string) returns (outcome: Outcome)
    modifies fs
    ensures (fs.nodes, outcome) == FinishResult(fs.cwd, old(fs.nodes), base)
  {
    var e := MoveImages(fs, base);
    if e.Some? {
      return Failed(Os(e.value));
    }
    e := fs.Remove(Join(base, ARCHIVE_NAME));
    if e.Some? {
      return Failed(Os(e.value));
    }
    e := Splits.AddSplits(fs, base);
    outcome := if e.Some? then Failed(Os(e.value)) else Done;
  }

  /** The second half of `download_celeb_a`: extract the archive next to it, then finish. */
  method InstallArchive(fs: FileSystem, base: string, unzip: seq<bv8> -> Unzipped) returns (outcome: Outcome)
    modifies fs
    ensures (fs.nodes, outcome) == InstallResult(fs.cwd, old(fs.nodes), base, unzip)
  {
    var stop := ExtractArchive(fs, Join(base, ARCHIVE_NAME), unzip);
    if stop.Some? {
      return stop.value;
    }
    outcome := FinishInstall(fs, base);
  }

  /** `download_celeb_a(base_path)` */
  method DownloadCelebA(fs: FileSystem, base: string, server: Request -> Option<Response>, unzip: seq<bv8> -> Unzipped)
    returns (outcome: Outcome, requests: seq<Request>)
    modifies fs
    ensures (fs.nodes, outcome, requests) == CelebAResult(fs.cwd, old(fs.nodes), base, server, unzip)
  {
    var stop;
    stop, requests := FetchArchive(fs, base, server);
    if stop.Some? {
      return stop.value, requests;
    }
    outcome := InstallArchive(fs, base, unzip);
  }
}
