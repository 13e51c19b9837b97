/**
 * The download loop of the two webpack downloaders.  Each target is fetched
 * with `http_get_bytes` and written with `save_file` at its URL path under
 * the output folder.  `main` counts the successes and failures and returns 0
 * when nothing failed, 2 otherwise.
 */
module Download {
  import opened Outcomes
  import opened Text
  import opened Http
  import opened Storage
  import opened Runtime
  import opened Scan
  import opened Targets

  /** `save_file`'s local path: `os.path.join(out_root, url_path.lstrip("/"))`. */
  function SaveFilePath(outRoot: string, urlPath: string): string {
    PathJoin(outRoot, LStripSlashes(urlPath))
  }

  /**
   * Two URL paths share a local file exactly when they agree once their
   * leading slashes are dropped; `/a/b.js` and `a/b.js` are the same file.
   */
  lemma {:induction false} SaveFilePathSameIff(outRoot: string, p: string, q: string)
    ensures SaveFilePath(outRoot, p) == SaveFilePath(outRoot, q) <==> LStripSlashes(p) == LStripSlashes(q)
  {
    JoinInjective(outRoot, LStripSlashes(p), LStripSlashes(q));
  }

  /** The local file lies under the output folder and ends with the URL path less its leading slashes. */
  lemma {:induction false} SaveFilePathUnderRoot(outRoot: string, p: string)
    ensures StartsWith(SaveFilePath(outRoot, p), outRoot)
    ensures EndsWith(SaveFilePath(outRoot, p), LStripSlashes(p))
  {
    JoinUnder(outRoot, LStripSlashes(p));
  }

  /** `save_file`: strips the leading slashes, joins, creates the parent directories and writes. */
  method SaveFile(disk: Disk, outRoot: string, urlPath: string, data: Bytes) returns (localPath: string)
    modifies disk
    ensures localPath == SaveFilePath(outRoot, urlPath)
    ensures disk.files == old(disk.files)[localPath := data]
  {
    var rel := LStripSlashes(urlPath);
    localPath := PathJoin(outRoot, rel);
    disk.Write(localPath, data);
  }

  /** `guess_origin` and `guess_base_from_url`: `f"{p.scheme}://{p.netloc}"`. */
  function Origin(u: Url): string {
    u.scheme + "://" + u.netloc
  }

  /**
   * `urlparse(url).path` of a target, taken to be everything after the
   * origin.  `main` builds every target as `urljoin(origin, p)` with `p`
   * starting with `/`, which this model takes to be `origin + p`.  That holds
   * for an origin `scheme://host` and a `p` without `?`, `#`, `;`, dot
   * segments or a leading `//`; for others `urlparse` and `urljoin` split or
   * resolve `p` differently, which is not modelled.
   */
  function UrlPath(origin: string, url: string): string
    requires StartsWith(url, origin)
  {
    url[|origin|..]
  }

  /** Where `main` stores a target. */
  function LocalFile(outRoot: string, origin: string, url: string): string
    requires StartsWith(url, origin)
  {
    SaveFilePath(outRoot, UrlPath(origin, url))
  }

  predicate UnderOrigin(origin: string, targets: seq<string>) {
    forall i :: 0 <= i < |targets| ==> StartsWith(targets[i], origin)
  }

  /** The output folder and the two counters of the loop. */
  datatype Tally = Tally(files: map<string, Bytes>, ok: nat, fail: nat)

  /**
   * One pass of the loop body: any exception from `http_get_bytes` or
   * `save_file` counts as a failure.  With three retries `http_get_bytes`
   * returns content or raises (`DefaultRetriesReturnOrRaise`), so there is no
   * third case.
   */
  function Visit(t: Tally, net: Transport, outRoot: string, origin: string, url: string): Tally
    requires StartsWith(url, origin)
  {
    var local := LocalFile(outRoot, origin, url);
    match Fetch(net, url, Retries).result
    case Content(data) => Tally(t.files[local := data], t.ok + 1, t.fail)
    case Raised(_) => Tally(t.files, t.ok, t.fail + 1)
  }

  /** The loop over `targets`, in order, starting from the folder `files` and both counters at 0. */
  function VisitAll(files: map<string, Bytes>, net: Transport, outRoot: string, origin: string, targets: seq<string>): (t: Tally)
    requires UnderOrigin(origin, targets)
    ensures t.ok + t.fail == |targets|
    decreases |targets|
  {
    if targets == [] then Tally(files, 0, 0)
    else
      var init := targets[..|targets| - 1];
      assert forall i :: 0 <= i < |init| ==> init[i] == targets[i];
      Visit(VisitAll(files, net, outRoot, origin, init), net, outRoot, origin, targets[|targets| - 1])
  }

  /** The `for idx, url in enumerate(targets, 1)` loop of `main`. */
  method DownloadAll(disk: Disk, net: Transport, outRoot: string, origin: string, targets: seq<string>)
    returns (ok: nat, fail: nat)
    requires UnderOrigin(origin, targets)
    modifies disk
    ensures Tally(disk.files, ok, fail) == VisitAll(old(disk.files), net, outRoot, origin, targets)
  {
    ok, fail := 0, 0;
    for idx := 0 to |targets|
      invariant Tally(disk.files, ok, fail) == VisitAll(old(disk.files), net, outRoot, origin, targets[..idx])
    {
      var url := targets[idx];
      var path := UrlPath(origin, url);
      var data, attempts, sleeps := HttpGetBytes(net, url, Retries);
      assert targets[..idx + 1][..idx] == targets[..idx];
      match data
      case Content(bytes) =>
        var saved := SaveFile(disk, outRoot, path, bytes);
        ok := ok + 1;
      case Raised(_) =>
        fail := fail + 1;
    }
    assert targets[..|targets|] == targets;
  }

  /** `return 0 if fail == 0 else 2`. */
  function ExitCode(fail: nat): int {
    if fail == 0 then 0 else 2
  }

  predicate AllFetched(net: Transport, targets: seq<string>) {
    forall i :: 0 <= i < |targets| ==> Fetch(net, targets[i], Retries).result.Content?
  }

  /** Nothing fails exactly when every target is fetched. */
  lemma {:induction false} NoFailureIff(files: map<string, Bytes>, net: Transport, outRoot: string, origin: string, targets: seq<string>)
    requires UnderOrigin(origin, targets)
    ensures VisitAll(files, net, outRoot, origin, targets).fail == 0 <==> AllFetched(net, targets)
    decreases |targets|
  {
    if targets != [] {
      var init := targets[..|targets| - 1];
      assert forall i :: 0 <= i < |init| ==> init[i] == targets[i];
      NoFailureIff(files, net, outRoot, origin, init);
      AllFetchedSplit(net, targets);
    }
  }

  lemma {:induction false} AllFetchedSplit(net: Transport, targets: seq<string>)
    requires targets != []
    ensures AllFetched(net, targets) <==>
      AllFetched(net, targets[..|targets| - 1]) && Fetch(net, targets[|targets| - 1], Retries).result.Content?
  {
    var init := targets[..|targets| - 1];
    assert forall i :: 0 <= i < |init| ==> init[i] == targets[i];
  }

  /** `main` returns 0 when every target was downloaded and 2 when any was not. */
  lemma {:induction false} ExitStatus(files: map<string, Bytes>, net: Transport, outRoot: string, origin: string, targets: seq<string>)
    requires UnderOrigin(origin, targets)
    ensures var t := VisitAll(files, net, outRoot, origin, targets);
      && (ExitCode(t.fail) == 0 <==> AllFetched(net, targets))
      && (ExitCode(t.fail) == 2 <==> !AllFetched(net, targets))
      && (t.ok == |targets| <==> AllFetched(net, targets))
  {
    NoFailureIff(files, net, outRoot, origin, targets);
  }

  /** The loop touches no file other than the targets' local files. */
  lemma {:induction false} VisitAllLeavesOthers(files: map<string, Bytes>, net: Transport, outRoot: string, origin: string, targets: seq<string>, p: string)
    requires UnderOrigin(origin, targets)
    requires forall i :: 0 <= i < |targets| ==> LocalFile(outRoot, origin, targets[i]) != p
    ensures var r := VisitAll(files, net, outRoot, origin, targets).files;
      (p in r <==> p in files) && (p in files ==> r[p] == files[p])
    decreases |targets|
  {
    if targets != [] {
      var init := targets[..|targets| - 1];
      assert forall i :: 0 <= i < |init| ==> init[i] == targets[i];
      VisitAllLeavesOthers(files, net, outRoot, origin, init, p);
    }
  }

  /** A target that was fetched holds its content at the end unless a later target has the same local file. */
  lemma {:induction false} VisitAllKeepsLast(files: map<string, Bytes>, net: Transport, outRoot: string, origin: string, targets: seq<string>, i: nat)
    requires UnderOrigin(origin, targets) && i < |targets|
    requires Fetch(net, targets[i], Retries).result.Content?
    requires forall j :: i < j < |targets| ==> LocalFile(outRoot, origin, targets[j]) != LocalFile(outRoot, origin, targets[i])
    ensures var r := VisitAll(files, net, outRoot, origin, targets).files;
      var local := LocalFile(outRoot, origin, targets[i]);
      local in r && r[local] == Fetch(net, targets[i], Retries).result.data
    decreases |targets|
  {
    var init := targets[..|targets| - 1];
    assert forall k :: 0 <= k < |init| ==> init[k] == targets[k];
    if i < |targets| - 1 {
      VisitAllKeepsLast(files, net, outRoot, origin, init, i);
    }
  }

  lemma {:induction false} PrefixSplit(u: string, a: string, b: string)
    requires StartsWith(u, a + b)
    ensures StartsWith(u, a) && StartsWith(u[|a|..], b)
  {
    assert u[..|a|] == (a + b)[..|a|];
    assert u[|a|..][..|b|] == (a + b)[|a|..];
  }

  /**
   * Distinct URLs under the same public path have distinct local files:
   * however many slashes the public path starts with, `lstrip("/")` removes
   * the same ones from both.  This rests on `UrlPath` keeping the whole of
   * `p`; in the source a `?`, `#` or `;` in `p` can make two targets share a
   * file.
   */
  lemma {:induction false} LocalFilesDistinct(outRoot: string, origin: string, pp: string, u: string, v: string)
    requires StartsWith(u, origin + pp + "static/") && StartsWith(v, origin + pp + "static/")
    requires u != v
    ensures StartsWith(u, origin) && StartsWith(v, origin)
    ensures LocalFile(outRoot, origin, u) != LocalFile(outRoot, origin, v)
  {
    PrefixSplit(u, origin + pp, "static/");
    PrefixSplit(v, origin + pp, "static/");
    PrefixSplit(u, origin, pp);
    PrefixSplit(v, origin, pp);
    var x, y := UrlPath(origin, u), UrlPath(origin, v);
    PrefixSplit(x, pp, "static/");
    PrefixSplit(y, pp, "static/");
    assert u == origin + x && v == origin + y;
    var sx, sy := x[|pp|..], y[|pp|..];
    assert sx[0] == 's' && sy[0] == 's';
    assert x == pp + sx && y == pp + sy;
    LStripConcat(pp, sx);
    LStripConcat(pp, sy);
    SaveFilePathSameIff(outRoot, x, y);
    if LocalFile(outRoot, origin, u) == LocalFile(outRoot, origin, v) {
      CancelPrefix(LStripSlashes(pp), sx, sy);
    }
  }

  /** Every target lies under the origin, at a path that starts with the public path and `static/`. */
  predicate UnderPublicPath(origin: string, pp: string, targets: seq<string>) {
    forall j :: 0 <= j < |targets| ==> StartsWith(targets[j], origin + pp + "static/")
  }

  lemma {:induction false} UnderPublicPathUnderOrigin(origin: string, pp: string, targets: seq<string>)
    requires UnderPublicPath(origin, pp, targets)
    ensures UnderOrigin(origin, targets)
  {
    forall j | 0 <= j < |targets|
      ensures StartsWith(targets[j], origin)
    {
      PrefixSplit(targets[j], origin + pp, "static/");
      PrefixSplit(targets[j], origin, pp);
    }
  }

  /**
   * Over the deduplicated target list of `main`, every target that was
   * fetched ends up in the output folder with the fetched content.
   */
  lemma {:induction false} EveryFetchedTargetSaved(files: map<string, Bytes>, net: Transport, outRoot: string, origin: string, pp: string, targets: seq<string>, i: nat)
    requires StrictlySorted(targets) && UnderPublicPath(origin, pp, targets)
    requires i < |targets| && Fetch(net, targets[i], Retries).result.Content?
    ensures UnderOrigin(origin, targets)
    ensures var r := VisitAll(files, net, outRoot, origin, targets).files;
      var local := LocalFile(outRoot, origin, targets[i]);
      local in r && r[local] == Fetch(net, targets[i], Retries).result.data
  {
    UnderPublicPathUnderOrigin(origin, pp, targets);
    forall j | i < j < |targets|
      ensures LocalFile(outRoot, origin, targets[j]) != LocalFile(outRoot, origin, targets[i])
    {
      StrictlySortedDistinct(targets, i, j);
      LocalFilesDistinct(outRoot, origin, pp, targets[j], targets[i]);
    }
    VisitAllKeepsLast(files, net, outRoot, origin, targets, i);
  }

  // ---------------------------------------------------------------------
  // The course of `main`

  /** What `main` knows when the download loop starts, or the exception that ended it before. */
  datatype Plan =
    | FetchFailed(error: string)                   // `http_get_bytes` of the runtime raised
    | ParseFailed(runtime: Bytes, error: string)    // the runtime was saved, then a chunk table was missing
    | Ready(runtime: Bytes, origin: string, publicPath: string, targets: seq<string>)

  /** How `main` ends: an uncaught exception, or `return` with a status after reporting the two counters. */
  datatype Exit = Aborted(error: string) | Exited(status: int, ok: nat, fail: nat)

  /** Parsing both chunk tables out of the saved runtime text and building the target list. */
  function ReadTables(runtime: Bytes, text: string, origin: string, pp: string): (p: Plan)
    ensures p.ParseFailed? || p.Ready?
    ensures p.ParseFailed? <==> ParseJsChunkMap(text).Err? || ParseCssChunkMap(text).Err?
    ensures p.ParseFailed? ==> p.runtime == runtime
    ensures p.ParseFailed? ==> p.error == if ParseJsChunkMap(text).Err? then JsMapMissing else CssMapMissing
    ensures p.Ready? ==> p.runtime == runtime && p.origin == origin && p.publicPath == pp
    ensures p.Ready? ==> StrictlySorted(p.targets) && UnderPublicPath(origin, pp, p.targets)
    ensures p.Ready? ==>
      p.targets == TargetList(origin, pp, ParseJsChunkMap(text).value,
                              ParseCssChunkMap(text).value.0, ParseCssChunkMap(text).value.1)
  {
    match ParseJsChunkMap(text)
    case Err(m) => ParseFailed(runtime, m)
    case Ok(js) =>
      match ParseCssChunkMap(text)
      case Err(m) => ParseFailed(runtime, m)
      case Ok(tables) =>
        TargetListUnder(origin, pp, js, tables.0, tables.1);
        Ready(runtime, origin, pp, TargetList(origin, pp, js, tables.0, tables.1))
  }

  /**
   * `main` stops with the parser's ValueError exactly when the runtime holds
   * no JS chunk expression even of the fallback shape, or no CSS one.
   */
  lemma {:induction false} ReadTablesFailsIff(runtime: Bytes, text: string, origin: string, pp: string)
    ensures ReadTables(runtime, text, origin, pp).ParseFailed? <==>
      (forall p, q, k :: !IsMatch(text, JsFallbackPattern, p, q, k))
      || (forall p, q, k :: !IsMatch(text, CssFallbackPattern, p, q, k))
  {
    ParseJsChunkMapErrIff(text);
    ParseCssChunkMapErrIff(text);
  }

  /**
   * The folder after `main` and its outcome, given the folder before: the
   * runtime file is written as soon as it is fetched, then the loop runs.
   */
  predicate Finished(plan: Plan, net: Transport, outRoot: string, runtimeFile: string,
                     before: map<string, Bytes>, after: map<string, Bytes>, r: Exit)
  {
    match plan
    case FetchFailed(e) => r == Aborted(e) && after == before
    case ParseFailed(b, e) => r == Aborted(e) && after == before[runtimeFile := b]
    case Ready(b, origin, _, targets) =>
      && UnderOrigin(origin, targets)
      && var t := VisitAll(before[runtimeFile := b], net, outRoot, origin, targets);
         after == t.files && r == Exited(ExitCode(t.fail), t.ok, t.fail)
  }

  /** The part of `main` after the runtime is saved: parse, build the targets, download, count. */
  method RunTables(disk: Disk, net: Transport, outRoot: string, runtime: Bytes, text: string, origin: string, pp: string)
    returns (r: Exit)
    modifies disk
    ensures var plan := ReadTables(runtime, text, origin, pp);
      && (plan.ParseFailed? ==> r == Aborted(plan.error) && disk.files == old(disk.files))
      && (plan.Ready? ==>
            UnderOrigin(origin, plan.targets)
            && var t := VisitAll(old(disk.files), net, outRoot, origin, plan.targets);
               disk.files == t.files && r == Exited(ExitCode(t.fail), t.ok, t.fail))
  {
    var jsMap := ParseJsChunkMap(text);
    if jsMap.Err? {
      return Aborted(jsMap.message);
    }
    var cssMaps := ParseCssChunkMap(text);
    if cssMaps.Err? {
      return Aborted(cssMaps.message);
    }
    var targets := BuildTargets(origin, pp, jsMap.value, cssMaps.value.0, cssMaps.value.1);
    TargetListUnder(origin, pp, jsMap.value, cssMaps.value.0, cssMaps.value.1);
    UnderPublicPathUnderOrigin(origin, pp, targets);
    var ok, fail := DownloadAll(disk, net, outRoot, origin, targets);
    r := Exited(ExitCode(fail), ok, fail);
  }

  /**
   * Once `main` reaches the loop, every target it fetched is in the folder
   * with its content, and it returns 0 exactly when every target was fetched.
   */
  lemma {:induction false} ReadyOutcome(plan: Plan, net: Transport, outRoot: string, runtimeFile: string,
                     before: map<string, Bytes>, after: map<string, Bytes>, r: Exit, i: nat)
    requires plan.Ready? && Finished(plan, net, outRoot, runtimeFile, before, after, r)
    requires StrictlySorted(plan.targets) && UnderPublicPath(plan.origin, plan.publicPath, plan.targets)
    ensures r.Exited? && (r.status == 0 <==> AllFetched(net, plan.targets)) && r.ok + r.fail == |plan.targets|
    ensures i < |plan.targets| && Fetch(net, plan.targets[i], Retries).result.Content? ==>
      var local := LocalFile(outRoot, plan.origin, plan.targets[i]);
      local in after && after[local] == Fetch(net, plan.targets[i], Retries).result.data
  {
    var before' := before[runtimeFile := plan.runtime];
    ExitStatus(before', net, outRoot, plan.origin, plan.targets);
    if i < |plan.targets| && Fetch(net, plan.targets[i], Retries).result.Content? {
      EveryFetchedTargetSaved(before', net, outRoot, plan.origin, plan.publicPath, plan.targets, i);
    }
  }
}
