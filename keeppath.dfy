/**
 * `download_images_keep_path.py`: download a fixed list of image URLs into
 * an output folder, one file per URL at `host/path` under the folder,
 * skipping every URL whose file already exists.
 */
module KeepPath {
  import opened Text
  import opened Http
  import opened Storage

  /** `save_with_url_structure`'s path: `os.path.join(out_root, (p.netloc + p.path).lstrip("/"))`. */
  function LocalPath(outRoot: string, u: Url): string {
    PathJoin(outRoot, LStripSlashes(u.netloc + u.path))
  }

  /** The host is the top folder under the output folder, followed by the URL path as it is. */
  lemma {:induction false} HostIsTopFolder(outRoot: string, u: Url)
    requires WellFormed(u)
    ensures LocalPath(outRoot, u) == PathJoin(outRoot, u.netloc + u.path)
    ensures outRoot != [] && !EndsWith(outRoot, "/") ==> LocalPath(outRoot, u) == outRoot + "/" + u.netloc + u.path
    ensures outRoot == [] || EndsWith(outRoot, "/") ==> LocalPath(outRoot, u) == outRoot + u.netloc + u.path
  {
    var rel := u.netloc + u.path;
    assert rel[0] == u.netloc[0];
    LStripRelative(rel);
    assert !StartsWith(rel, "/") by {
      assert rel[..1][0] == rel[0];
    }
    assert outRoot + "/" + rel == outRoot + "/" + u.netloc + u.path;
    assert outRoot + rel == outRoot + u.netloc + u.path;
  }

  /** The position of the first slash of `s`, or `|s|` when there is none. */
  function SlashIndex(s: string): nat {
    if s == [] || s[0] == '/' then 0 else 1 + SlashIndex(s[1..])
  }

  lemma {:induction false} SlashIndexAfterHost(n: string, p: string)
    requires forall i :: 0 <= i < |n| ==> n[i] != '/'
    requires p == [] || p[0] == '/'
    ensures SlashIndex(n + p) == |n|
  {
    if n == [] {
      assert n + p == p;
    } else {
      assert (n + p)[0] == n[0];
      assert (n + p)[1..] == n[1..] + p;
      SlashIndexAfterHost(n[1..], p);
    }
  }

  /** A host without slashes and a path that is empty or absolute can be told apart again after concatenation. */
  lemma {:induction false} HostSplit(u: Url, v: Url)
    requires WellFormed(u) && WellFormed(v)
    requires u.netloc + u.path == v.netloc + v.path
    ensures u.netloc == v.netloc && u.path == v.path
  {
    var a, b := u.netloc + u.path, v.netloc + v.path;
    SlashIndexAfterHost(u.netloc, u.path);
    SlashIndexAfterHost(v.netloc, v.path);
    assert u.netloc == a[..|u.netloc|] && v.netloc == b[..|v.netloc|];
    assert u.path == a[|u.netloc|..] && v.path == b[|v.netloc|..];
  }

  /** Two URLs share a local file exactly when they have the same host and the same path. */
  lemma {:induction false} SameFileIff(outRoot: string, u: Url, v: Url)
    requires WellFormed(u) && WellFormed(v)
    ensures LocalPath(outRoot, u) == LocalPath(outRoot, v) <==> u.netloc == v.netloc && u.path == v.path
  {
    HostIsTopFolder(outRoot, u);
    HostIsTopFolder(outRoot, v);
    assert (u.netloc + u.path)[0] == u.netloc[0] && (v.netloc + v.path)[0] == v.netloc[0];
    JoinInjective(outRoot, u.netloc + u.path, v.netloc + v.path);
    if LocalPath(outRoot, u) == LocalPath(outRoot, v) {
      HostSplit(u, v);
    }
  }

  /** How `download_one` ends: it skips, it writes the file, or it raises. */
  datatype Outcome = Skipped | Written | Failure(error: string)

  /** The folder after one call, its outcome and the number of GET requests it made. */
  datatype Step = Step(files: map<string, Bytes>, outcome: Outcome, requests: nat)

  /** What `download_one` does: one plain `session.get`, no retries. */
  function DownloadStep(files: map<string, Bytes>, net: Transport, outRoot: string, u: Url): Step {
    var path := LocalPath(outRoot, u);
    if path in files then Step(files, Skipped, 0)
    else
      match net(UrlText(u), 1)
      case Delivered(content) => Step(files[path := content], Written, 1)
      case Failed(e) => Step(files, Failure(e), 1)
  }

  /** `download_one`. */
  method DownloadOne(disk: Disk, net: Transport, outRoot: string, u: Url) returns (outcome: Outcome, requests: nat)
    modifies disk
    ensures Step(disk.files, outcome, requests) == DownloadStep(old(disk.files), net, outRoot, u)
  {
    var path := LocalPath(outRoot, u);
    if disk.Exists(path) {
      return Skipped, 0;
    }
    var response := net(UrlText(u), 1);
    requests := 1;
    match response
    case Failed(e) =>
      outcome := Failure(e);
    case Delivered(content) =>
      disk.Write(path, content);
      outcome := Written;
  }

  /**
   * `download_one` never changes a file that exists, creates no file but
   * the URL's own, and makes a request exactly when that file is missing.
   */
  lemma {:induction false} StepKeepsExisting(files: map<string, Bytes>, net: Transport, outRoot: string, u: Url, p: string)
    ensures var s := DownloadStep(files, net, outRoot, u);
      && (p in files ==> p in s.files && s.files[p] == files[p])
      && (p in s.files && p !in files ==> p == LocalPath(outRoot, u) && s.outcome == Written)
      && (s.requests == 0 <==> LocalPath(outRoot, u) in files)
      && (!s.outcome.Failure? ==> LocalPath(outRoot, u) in s.files)
  {
    var path := LocalPath(outRoot, u);
    if path !in files {
      match net(UrlText(u), 1)
      case Delivered(content) =>
        assert DownloadStep(files, net, outRoot, u) == Step(files[path := content], Written, 1);
      case Failed(e) =>
        assert DownloadStep(files, net, outRoot, u) == Step(files, Failure(e), 1);
    }
  }

  /** A failed request (a transport error or a non-2xx status) leaves the folder as it was. */
  lemma {:induction false} StepFailureWritesNothing(files: map<string, Bytes>, net: Transport, outRoot: string, u: Url)
    ensures var s := DownloadStep(files, net, outRoot, u);
      s.outcome.Failure? <==> LocalPath(outRoot, u) !in files && net(UrlText(u), 1).Failed?
    ensures DownloadStep(files, net, outRoot, u).outcome.Failure? ==> DownloadStep(files, net, outRoot, u).files == files
  {
  }

  /** A path that was missing and is not the URL's own stays missing. */
  lemma {:induction false} StepCreatesOnlyOwn(files: map<string, Bytes>, net: Transport, outRoot: string, u: Url, p: string)
    requires p !in files && p != LocalPath(outRoot, u)
    ensures p !in DownloadStep(files, net, outRoot, u).files
  {
  }

  /** Once `download_one` has not failed, calling it again skips without a request and changes nothing. */
  lemma {:induction false} StepIdempotent(files: map<string, Bytes>, net: Transport, outRoot: string, u: Url)
    requires !DownloadStep(files, net, outRoot, u).outcome.Failure?
    ensures var s := DownloadStep(files, net, outRoot, u);
      DownloadStep(s.files, net, outRoot, u) == Step(s.files, Skipped, 0)
  {
  }

  /** The two counters of `main`, the folder, and the number of requests made. */
  datatype Counts = Counts(files: map<string, Bytes>, ok: nat, fail: nat, requests: nat)

  /** The counters after one more call: a skip counts as OK like a download. */
  function Count(c: Counts, s: Step): Counts {
    if s.outcome.Failure? then Counts(s.files, c.ok, c.fail + 1, c.requests + s.requests)
    else Counts(s.files, c.ok + 1, c.fail, c.requests + s.requests)
  }

  /** The loop of `main` over `urls`, in order. */
  function DownloadAll(files: map<string, Bytes>, net: Transport, outRoot: string, urls: seq<Url>): (c: Counts)
    ensures c.ok + c.fail == |urls|
    decreases |urls|
  {
    if urls == [] then Counts(files, 0, 0, 0)
    else
      var c := DownloadAll(files, net, outRoot, urls[..|urls| - 1]);
      Count(c, DownloadStep(c.files, net, outRoot, urls[|urls| - 1]))
  }

  lemma {:induction false} DownloadAllPrefix(files: map<string, Bytes>, net: Transport, outRoot: string, urls: seq<Url>, i: nat)
    requires i < |urls|
    ensures var c := DownloadAll(files, net, outRoot, urls[..i]);
      DownloadAll(files, net, outRoot, urls[..i + 1]) == Count(c, DownloadStep(c.files, net, outRoot, urls[i]))
  {
    assert urls[..i + 1][..i] == urls[..i];
  }

  /**
   * `main` over the list of URLs.  It returns nothing, so the process exits
   * with status 0 whatever failed.
   */
  method Run(disk: Disk, net: Transport, outRoot: string, urls: seq<Url>) returns (ok: nat, fail: nat, ghost requests: nat)
    modifies disk
    ensures Counts(disk.files, ok, fail, requests) == DownloadAll(old(disk.files), net, outRoot, urls)
  {
    ok, fail, requests := 0, 0, 0;
    for i := 0 to |urls|
      invariant Counts(disk.files, ok, fail, requests) == DownloadAll(old(disk.files), net, outRoot, urls[..i])
    {
      DownloadAllPrefix(old(disk.files), net, outRoot, urls, i);
      var outcome, made := DownloadOne(disk, net, outRoot, urls[i]);
      requests := requests + made;
      if outcome.Failure? {
        fail := fail + 1;
      } else {
        ok := ok + 1;
      }
    }
    assert urls[..|urls|] == urls;
  }

  /** A run changes no file that existed before it. */
  lemma {:induction false} RunKeepsExisting(files: map<string, Bytes>, net: Transport, outRoot: string, urls: seq<Url>, p: string)
    requires p in files
    ensures var c := DownloadAll(files, net, outRoot, urls);
      p in c.files && c.files[p] == files[p]
    decreases |urls|
  {
    if urls != [] {
      var c := DownloadAll(files, net, outRoot, urls[..|urls| - 1]);
      RunKeepsExisting(files, net, outRoot, urls[..|urls| - 1], p);
      StepKeepsExisting(c.files, net, outRoot, urls[|urls| - 1], p);
    }
  }

  /** A run creates no file other than those of its URLs. */
  lemma {:induction false} RunCreatesOnlyUrlFiles(files: map<string, Bytes>, net: Transport, outRoot: string, urls: seq<Url>, p: string)
    requires p !in files && forall i :: 0 <= i < |urls| ==> LocalPath(outRoot, urls[i]) != p
    ensures p !in DownloadAll(files, net, outRoot, urls).files
    decreases |urls|
  {
    if urls != [] {
      var init := urls[..|urls| - 1];
      assert forall i :: 0 <= i < |init| ==> LocalPath(outRoot, init[i]) != p by {
        assert forall i :: 0 <= i < |init| ==> init[i] == urls[i];
      }
      RunCreatesOnlyUrlFiles(files, net, outRoot, init, p);
      var c := DownloadAll(files, net, outRoot, init);
      StepCreatesOnlyOwn(c.files, net, outRoot, urls[|urls| - 1], p);
    }
  }

  /** After a run without failures, every URL has its file. */
  lemma {:induction false} CleanRunIsComplete(files: map<string, Bytes>, net: Transport, outRoot: string, urls: seq<Url>, i: nat)
    requires DownloadAll(files, net, outRoot, urls).fail == 0 && i < |urls|
    ensures LocalPath(outRoot, urls[i]) in DownloadAll(files, net, outRoot, urls).files
    decreases |urls|
  {
    var init := urls[..|urls| - 1];
    var c := DownloadAll(files, net, outRoot, init);
    var last := urls[|urls| - 1];
    var s := DownloadStep(c.files, net, outRoot, last);
    assert DownloadAll(files, net, outRoot, urls) == Count(c, s);
    assert c.fail == 0 && !s.outcome.Failure?;
    if i < |urls| - 1 {
      CleanRunIsComplete(files, net, outRoot, init, i);
      assert init[i] == urls[i];
      StepKeepsExisting(c.files, net, outRoot, last, LocalPath(outRoot, urls[i]));
    } else {
      StepKeepsExisting(c.files, net, outRoot, last, LocalPath(outRoot, last));
    }
  }

  /** Over a folder that already holds every URL's file, a run makes no request, changes nothing and reports no failure. */
  lemma {:induction false} RerunIsFree(files: map<string, Bytes>, net: Transport, outRoot: string, urls: seq<Url>)
    requires forall i :: 0 <= i < |urls| ==> LocalPath(outRoot, urls[i]) in files
    ensures DownloadAll(files, net, outRoot, urls) == Counts(files, |urls|, 0, 0)
    decreases |urls|
  {
    if urls != [] {
      var init := urls[..|urls| - 1];
      assert forall i :: 0 <= i < |init| ==> init[i] == urls[i];
      RerunIsFree(files, net, outRoot, init);
    }
  }
}
