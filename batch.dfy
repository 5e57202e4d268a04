/**
 `downloadAllExtensions` and `main`, the program's entry point. Each record is
 downloaded in turn, strictly one after another; a failed download is caught
 and reported, and the loop goes on with the next record. The registry is
 not modelled: a function tells what it replies to the i-th request.
 */
module Batch {
  import opened Listing
  import opened Registry

  /** What one download request comes to. */
  datatype Reply =
    | NoResponse                                 // the request itself fails (DNS, refused or reset connection)
    | Response(status: int, bodyComplete: bool)  // a status arrived; bodyComplete: the body stream ended without error

  /** Only status 200 counts as success; every other status is a failure. */
  predicate IsSuccessStatus(status: int): (ok: bool)
    ensures ok ==> 200 <= status < 300
  {
    status == 200
  }

  /** A 2xx status other than 200 (201 Created, 204 No Content, 206 Partial Content, …) is a failure. */
  lemma OnlyOkPasses(status: int)
    requires 200 <= status < 300 && status != 200
    ensures !IsSuccessStatus(status) && !Download(Response(status, true))
  {
  }

  /**
   `downloadVsix` as its caller sees it: resolved (true) or rejected (false).
   The request can fail outright, a status other than 200 is turned into an
   error before anything is written, and after a 200 the result is that of
   streaming the body to the file.
   */
  function Download(reply: Reply): (ok: bool)
    ensures ok <==> reply == Response(200, true)
  {
    match reply
    case NoResponse => false
    case Response(status, bodyComplete) =>
      if !IsSuccessStatus(status) then false else bodyComplete
  }

  /** `path.join(dir, name)`, taken as a plain join with `/`. */
  function JoinPath(dir: string, name: string): (path: string)
    ensures |path| > |name| && path[|path| - |name|..] == name
  {
    var path := dir + "/" + name;
    assert path[|path| - |name|..] == name;
    path
  }

  /**
   One pass of the download loop: the ordinal shown in the progress line, the
   file name, the address asked for, the destination path and whether the download
   went through.
   */
  datatype Attempt = Attempt(ordinal: nat, fileName: string, url: string, dest: string, ok: bool)

  /** The attempt the loop makes for record `x` at index `i`. */
  function AttemptFor(x: Extension, i: nat, dir: string, registry: nat -> Reply): Attempt
  {
    Attempt(i + 1, FileName(x), VsixUrl(x), JoinPath(dir, FileName(x)), Download(registry(i)))
  }

  /**
   `downloadAllExtensions`: every index from 0 to the length, each once and in
   increasing order. Attempt i asks for record i's address, writes to record
   i's file and succeeds exactly when the i-th reply is a complete 200,
   whatever the earlier attempts came to: a failure never ends the loop.
   */
  method DownloadAll(extensions: seq<Extension>, dir: string, registry: nat -> Reply)
    returns (attempts: seq<Attempt>)
    ensures |attempts| == |extensions|
    ensures forall i :: 0 <= i < |attempts| ==> attempts[i] == AttemptFor(extensions[i], i, dir, registry)
    ensures forall i :: 0 <= i < |attempts| ==>
      attempts[i].ordinal == i + 1 && attempts[i].url == VsixUrl(extensions[i])
      && attempts[i].ok == (registry(i) == Response(200, true))
  {
    attempts := [];
    var i, len := 0, |extensions|;
    while i < len
      invariant 0 <= i <= len
      invariant |attempts| == i
      invariant forall k :: 0 <= k < i ==> attempts[k] == AttemptFor(extensions[k], k, dir, registry)
    {
      var ext := extensions[i];
      var url := VsixUrl(ext);
      var filename := FileName(ext);
      var dest := JoinPath(dir, filename);
      var ok := Download(registry(i));
      attempts := attempts + [Attempt(i + 1, filename, url, dest, ok)];
      i := i + 1;
    }
  }

  /** What the listing command gave: its standard output, or a failure to run. */
  datatype ListResult = Listed(stdout: string) | ListFailed

  /** The program's effects on the world, in the order they happen. */
  datatype Effect = EnsureDir(dir: string) | Fetch(attempt: Attempt)

  /**
   `main`: make sure the download directory exists, list the extensions, then
   download them all. A listing failure is thrown out of `getExtensions`, so
   nothing is downloaded and the run ends in error (`completed` is false);
   otherwise every parsed record is attempted, in listing order.
   */
  method Run(listing: ListResult, dir: string, registry: nat -> Reply)
    returns (effects: seq<Effect>, completed: bool)
    ensures |effects| >= 1 && effects[0] == EnsureDir(dir)
    ensures completed <==> listing.Listed?
    ensures !completed ==> effects == [EnsureDir(dir)]
    ensures completed ==>
      var xs := ParseOutput(listing.stdout);
      && |effects| == |xs| + 1
      && forall i :: 0 <= i < |xs| ==> effects[i + 1] == Fetch(AttemptFor(xs[i], i, dir, registry))
  {
    effects := [EnsureDir(dir)];
    match listing
    case ListFailed =>
      completed := false;
    case Listed(stdout) =>
      var extensions := ParseOutput(stdout);
      var attempts := DownloadAll(extensions, dir, registry);
      effects := effects + seq(|attempts|, k requires 0 <= k < |attempts| => Fetch(attempts[k]));
      completed := true;
  }
}
