/** The snapshot archive's HTTP surface as the program reads it: the HEAD
    probe that finds the nearest published snapshot (main.go:29-73) and the
    GET of a binary index (main.go:75-99). Requests themselves are the
    parameters `head` and `get`; status codes follow RFC 9110 (section 15.3.1
    for 200, section 15.4.2 for 301, section 10.2.2 for Location). */
module Snapshot {
  import opened Common
  import opened Text
  import opened Timestamp
  import opened Index

  const StatusOK := 200
  const StatusMovedPermanently := 301

  const ArchiveRoot := "https://snapshot.debian.org/archive/debian/"

  /** The URL probed for an instant (main.go:35). */
  function HeadUrl(stamp: string): string
  {
    ArchiveRoot + stamp + "/"
  }

  /** The probe for the snapshot of 2021-08-01 02:32:34. */
  lemma HeadUrlExample()
    ensures HeadUrl("20210801T023234Z") == "https://snapshot.debian.org/archive/debian/20210801T023234Z/"
  {
  }

  /** The status line and the Location header ("" when absent) of a HEAD
      response, redirects not followed. */
  datatype HeadResponse = HeadResponse(status: int, location: string)

  datatype ResolveError =
    | RequestFailed(reason: string)
    | UnexpectedStatus(status: int)
    | MissingLocation
    | BadLocationUrl(location: string)
    | UnlikeExpected(location: string)
    | BadTimestamp(segment: string)

  /** What a HEAD response says about the requested instant: it is itself a
      snapshot, or the archive redirects to another one. */
  datatype Resolution = AsRequested | RedirectedTo(instant: DateTime)

  /** The redirect branch of `closestSnapshotTime` (main.go:47-72). `urlPath`
      is `url.Parse(l)` followed by `.Path`, `None` when the URL does not
      parse. The timestamp is taken from the second-to-last piece of the path
      split on "/", which is the last segment only when the path ends in "/". */
  function InterpretHead(resp: HeadResponse, urlPath: string -> Option<string>): (r: Result<Resolution, ResolveError>)
    ensures resp.status == StatusOK <==> r == Ok(AsRequested)
    ensures resp.status != StatusOK && resp.status != StatusMovedPermanently ==> r == Err(UnexpectedStatus(resp.status))
    ensures resp.status == StatusMovedPermanently && resp.location == "" ==> r == Err(MissingLocation)
    ensures resp.status == StatusMovedPermanently && resp.location != "" && urlPath(resp.location).None? ==>
      r == Err(BadLocationUrl(resp.location))
    ensures r.Ok? && r.value.RedirectedTo? <==>
      && resp.status == StatusMovedPermanently && resp.location != "" && urlPath(resp.location).Some?
      && '/' in urlPath(resp.location).value
      && var sp := Split(urlPath(resp.location).value, '/');
         Parse(sp[|sp| - 2]).Some?
    ensures r.Ok? && r.value.RedirectedTo? ==> Valid(r.value.instant)
    ensures r.Ok? && r.value.RedirectedTo? ==>
      var sp := Split(urlPath(resp.location).value, '/');
      |sp| >= 2 && Parse(sp[|sp| - 2]) == Some(r.value.instant)
    ensures (resp.status == StatusMovedPermanently && resp.location != "" && urlPath(resp.location).Some?
             && '/' !in urlPath(resp.location).value) ==> r == Err(UnlikeExpected(resp.location))
    ensures (resp.status == StatusMovedPermanently && resp.location != "" && urlPath(resp.location).Some?
             && '/' in urlPath(resp.location).value) ==>
      var sp := Split(urlPath(resp.location).value, '/');
      |sp| >= 2 && (Parse(sp[|sp| - 2]).None? ==> r == Err(BadTimestamp(sp[|sp| - 2])))
  {
    if resp.status == StatusOK then Ok(AsRequested)
    else if resp.status != StatusMovedPermanently then Err(UnexpectedStatus(resp.status))
    else if resp.location == "" then Err(MissingLocation)
    else match urlPath(resp.location)
      case None => Err(BadLocationUrl(resp.location))
      case Some(path) =>
        var sp := Split(path, '/');
        SplitHasTwoPieces(path, '/');
        if |sp| < 2 then Err(UnlikeExpected(resp.location))
        else
          match Parse(sp[|sp| - 2])
          case None => Err(BadTimestamp(sp[|sp| - 2]))
          case Some(d) => Ok(RedirectedTo(d))
  }

  /** `closestSnapshotTime` (main.go:29-73) for an instant given by its
      calendar fields: probe, then interpret the response. */
  function ClosestSnapshotTime(t: DateTime, head: string -> Result<HeadResponse, string>,
                               urlPath: string -> Option<string>): (r: Result<DateTime, ResolveError>)
    requires Valid(t)
    ensures head(HeadUrl(Format(t))).Err? ==> r == Err(RequestFailed(head(HeadUrl(Format(t))).error))
    ensures r.Ok? ==> Valid(r.value)
    ensures head(HeadUrl(Format(t))).Ok? && head(HeadUrl(Format(t))).value.status == StatusOK ==> r == Ok(t)
    ensures head(HeadUrl(Format(t))).Ok? && InterpretHead(head(HeadUrl(Format(t))).value, urlPath).Err? ==>
      r == Err(InterpretHead(head(HeadUrl(Format(t))).value, urlPath).error)
    ensures head(HeadUrl(Format(t))).Ok? && head(HeadUrl(Format(t))).value.status != StatusOK ==>
      (r.Ok? <==> InterpretHead(head(HeadUrl(Format(t))).value, urlPath).Ok?)
      && (r.Ok? ==> r == Ok(InterpretHead(head(HeadUrl(Format(t))).value, urlPath).value.instant))
  {
    match head(HeadUrl(Format(t)))
    case Err(e) => Err(RequestFailed(e))
    case Ok(resp) =>
      match InterpretHead(resp, urlPath)
      case Err(e) => Err(e)
      case Ok(AsRequested) => Ok(t)
      case Ok(RedirectedTo(d)) => Ok(d)
  }

  /** A redirect to `<dirs>/<formatted instant>/`, the shape the archive
      sends, yields that instant. */
  lemma {:induction false} RedirectRoundTrip(dirs: seq<string>, d: DateTime, location: string,
                                              urlPath: string -> Option<string>)
    requires Valid(d) && |dirs| >= 1 && forall i :: 0 <= i < |dirs| ==> '/' !in dirs[i]
    requires location != "" && urlPath(location) == Some(Join(dirs + [Format(d), ""], '/'))
    ensures InterpretHead(HeadResponse(StatusMovedPermanently, location), urlPath) == Ok(RedirectedTo(d))
  {
    var parts := dirs + [Format(d), ""];
    assert '/' !in Format(d) by {
      forall i | 0 <= i < 16 ensures Format(d)[i] != '/' {
        assert i == 8 || i == 15 || IsDigit(Format(d)[i]);
      }
    }
    assert forall i :: 0 <= i < |parts| ==> '/' !in parts[i] by {
      forall i | 0 <= i < |parts| ensures '/' !in parts[i] {
        if i < |dirs| { assert parts[i] == dirs[i]; }
      }
    }
    SplitJoin(parts, '/');
    assert parts[|parts| - 2] == Format(d);
    ParseFormat(d);
  }

  /** A HEAD answered with a 301 to `<dirs>/<formatted instant>/` resolves to
      that instant, whatever instant was asked for. */
  lemma ClosestRedirect(t: DateTime, head: string -> Result<HeadResponse, string>, urlPath: string -> Option<string>,
                        dirs: seq<string>, d: DateTime, location: string)
    requires Valid(t) && Valid(d) && |dirs| >= 1 && forall i :: 0 <= i < |dirs| ==> '/' !in dirs[i]
    requires head(HeadUrl(Format(t))) == Ok(HeadResponse(StatusMovedPermanently, location))
    requires location != "" && urlPath(location) == Some(Join(dirs + [Format(d), ""], '/'))
    ensures ClosestSnapshotTime(t, head, urlPath) == Ok(d)
  {
    RedirectRoundTrip(dirs, d, location, urlPath);
  }

  /** The segment rule depends on the trailing "/": for a path
      `<dirs>/<formatted instant>` without it, the piece read is the last of
      the directories (for "/archive/debian/20210801T023234Z", "debian"), and
      the redirect is rejected. */
  lemma {:induction false} NoTrailingSlashMisreads(dirs: seq<string>, d: DateTime, location: string,
                                                    urlPath: string -> Option<string>)
    requires Valid(d) && |dirs| >= 1 && forall i :: 0 <= i < |dirs| ==> '/' !in dirs[i]
    requires Parse(dirs[|dirs| - 1]).None?
    requires location != "" && urlPath(location) == Some(Join(dirs + [Format(d)], '/'))
    ensures InterpretHead(HeadResponse(StatusMovedPermanently, location), urlPath) == Err(BadTimestamp(dirs[|dirs| - 1]))
  {
    var parts := dirs + [Format(d)];
    assert '/' !in Format(d) by {
      forall i | 0 <= i < 16 ensures Format(d)[i] != '/' {
        assert i == 8 || i == 15 || IsDigit(Format(d)[i]);
      }
    }
    assert forall i :: 0 <= i < |parts| ==> '/' !in parts[i] by {
      forall i | 0 <= i < |parts| ensures '/' !in parts[i] {
        if i < |dirs| { assert parts[i] == dirs[i]; }
      }
    }
    SplitJoin(parts, '/');
    assert parts[|parts| - 2] == dirs[|dirs| - 1];
  }

  /** The URL of a binary index (main.go:76):
      `<archive>/<stamp>/dists/<dist>/<component>/binary-<arch>/Packages.xz`. */
  function IndexUrl(stamp: string, sel: Selector): (url: string)
    ensures ArchiveRoot <= url
    ensures '/' !in stamp && PlainSelector(sel) ==>
      Split(url[|ArchiveRoot|..], '/') == [stamp, "dists", sel.dist, sel.component, "binary-" + sel.arch, "Packages.xz"]
  {
    var elems := [stamp, "dists", sel.dist, sel.component, "binary-" + sel.arch, "Packages.xz"];
    var url := ArchiveRoot + Join(elems, '/');
    if '/' !in stamp && PlainSelector(sel) then
      assert '/' !in "binary-" + sel.arch by {
        forall i | 0 <= i < |"binary-" + sel.arch| ensures ("binary-" + sel.arch)[i] != '/' {
          if i >= 7 { assert ("binary-" + sel.arch)[i] == sel.arch[i - 7]; }
        }
      }
      assert forall i :: 0 <= i < |elems| ==> '/' !in elems[i];
      assert url[|ArchiveRoot|..] == Join(elems, '/');
      SplitJoin(elems, '/');
      url
    else url
  }

  /** The status and body of a GET, redirects followed. */
  datatype HttpResponse = HttpResponse(status: int, body: seq<byte>)

  datatype FetchError = GetFailed(reason: string) | NonOkStatus(status: int)

  /** `streamPackages` (main.go:75-99) up to decompression: the compressed
      body of a 200 response, and an error for a failed request or any other
      status. */
  function StreamPackages(get: string -> Result<HttpResponse, string>, stamp: string, sel: Selector): (r: Result<seq<byte>, FetchError>)
    ensures get(IndexUrl(stamp, sel)).Err? ==> r == Err(GetFailed(get(IndexUrl(stamp, sel)).error))
    ensures get(IndexUrl(stamp, sel)).Ok? ==>
      (r.Ok? <==> get(IndexUrl(stamp, sel)).value.status == StatusOK)
    ensures r.Ok? ==> r.value == get(IndexUrl(stamp, sel)).value.body
    ensures r.Err? && get(IndexUrl(stamp, sel)).Ok? ==> r.error == NonOkStatus(get(IndexUrl(stamp, sel)).value.status)
  {
    match get(IndexUrl(stamp, sel))
    case Err(e) => Err(GetFailed(e))
    case Ok(resp) =>
      if resp.status != StatusOK then Err(NonOkStatus(resp.status)) else Ok(resp.body)
  }
}
