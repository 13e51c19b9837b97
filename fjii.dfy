/**
 * `download_fjii_assets.py`: the same downloader without the `--origin` and
 * `--public-path` overrides; the origin always comes from the runtime URL and
 * the public path always from the runtime, normalised in place.
 */
module Fjii {
  import opened Outcomes
  import opened Text
  import opened Http
  import opened Storage
  import opened Runtime
  import opened Download
  import NotebookVip

  /**
   * `extract_public_path` of this script: `/` when the runtime has no
   * `r.p = "..."` assignment, otherwise the value of the leftmost one.
   */
  lemma {:induction false} DetectedPublicPath(text: string)
    ensures (forall p :: AssignAt(text, p).None?) ==> PublicPathOrRoot(text) == "/"
    ensures ExtractPublicPath(text).Some? ==>
      exists p: nat :: AssignAt(text, p) == Some(PublicPathOrRoot(text)) && forall j: nat :: j < p ==> AssignAt(text, j).None?
  {
    ExtractPublicPathIsFirst(text);
  }

  /** The public-path normalisation `main` writes out inline. */
  method NormalizeInPlace(detected: string) returns (publicPath: string)
    ensures publicPath == NormalizePublicPath(detected)
    ensures StartsWith(publicPath, "/") && EndsWith(publicPath, "/")
  {
    publicPath := detected;
    if !StartsWith(publicPath, "/") {
      publicPath := "/" + publicPath;
    }
    if !EndsWith(publicPath, "/") {
      publicPath := publicPath + "/";
    }
  }

  /** Everything `main` decides before the loop, for the given `--runtime-url`. */
  function MakePlan(net: Transport, decode: Bytes -> string, runtimeUrl: Url): Plan {
    match Fetch(net, UrlText(runtimeUrl), Retries).result
    case Raised(e) => FetchFailed(e)
    case Content(runtime) =>
      var text := decode(runtime);
      ReadTables(runtime, text, Origin(runtimeUrl), NormalizePublicPath(PublicPathOrRoot(text)))
  }

  /** `main`. */
  method Run(disk: Disk, net: Transport, decode: Bytes -> string, runtimeUrl: Url, out: string) returns (r: Exit)
    modifies disk
    ensures Finished(MakePlan(net, decode, runtimeUrl), net, out, SaveFilePath(out, runtimeUrl.path),
                     old(disk.files), disk.files, r)
  {
    var base := Origin(runtimeUrl);
    var fetched, attempts, sleeps := HttpGetBytes(net, UrlText(runtimeUrl), Retries);
    match fetched
    case Raised(e) =>
      return Aborted(e);
    case Content(runtime) =>
      var text := decode(runtime);
      var saved := SaveFile(disk, out, runtimeUrl.path, runtime);
      var publicPath := NormalizeInPlace(PublicPathOrRoot(text));
      r := RunTables(disk, net, out, runtime, text, base, publicPath);
  }

  /**
   * Run without `--origin` and `--public-path`, the notebookvip downloader
   * plans exactly what this one does.
   */
  lemma {:induction false} SameAsNotebookVipWithoutOverrides(net: Transport, decode: Bytes -> string, runtimeUrl: Url, out: string)
    ensures MakePlan(net, decode, runtimeUrl) == NotebookVip.MakePlan(net, decode, NotebookVip.Args(runtimeUrl, out, "", ""))
    ensures SaveFilePath(out, runtimeUrl.path) == NotebookVip.RuntimeFile(NotebookVip.Args(runtimeUrl, out, "", ""))
  {
    assert Strip("") == [] by {
      assert AllIn("", Space);
    }
  }
}
