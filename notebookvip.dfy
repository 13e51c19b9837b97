/**
 * `download_notebookvip_assets.py`: fetch a webpack runtime, save it, take
 * the origin and the public path from the command line or else from the
 * runtime, and download every JS and CSS chunk the runtime names.
 */
module NotebookVip {
  import opened Text
  import opened Http
  import opened Storage
  import opened Runtime
  import opened Scan
  import opened Targets
  import opened Download

  /** The command line: `--runtime-url`, `--out`, `--public-path`, `--origin` (`--user-agent` only sets a header). */
  datatype Args = Args(runtimeUrl: Url, out: string, publicPath: string, origin: string)

  /** `args.origin.strip() or guess_origin(args.runtime_url)` */
  function ChooseOrigin(override: string, runtimeUrl: Url): string {
    var o := Strip(override);
    if o != [] then o else Origin(runtimeUrl)
  }

  /** `normalize_public_path(args.public_path.strip() or parsed_pp)` with `parsed_pp = extract_public_path(runtime_text) or "/"` */
  function ChoosePublicPath(override: string, text: string): string {
    var o := Strip(override);
    NormalizePublicPath(if o != [] then o else PublicPathOrRoot(text))
  }

  /** `urlparse(args.runtime_url).path` saved under `--out`. */
  function RuntimeFile(args: Args): string {
    SaveFilePath(args.out, args.runtimeUrl.path)
  }

  /**
   * Everything `main` decides before the loop.  `decode` stands for
   * `bytes.decode("utf-8", errors="replace")`.
   */
  function MakePlan(net: Transport, decode: Bytes -> string, args: Args): Plan {
    match Fetch(net, UrlText(args.runtimeUrl), Retries).result
    case Raised(e) => FetchFailed(e)
    case Content(runtime) =>
      var text := decode(runtime);
      ReadTables(runtime, text, ChooseOrigin(args.origin, args.runtimeUrl), ChoosePublicPath(args.publicPath, text))
  }

  /** `main`. */
  method Run(disk: Disk, net: Transport, decode: Bytes -> string, args: Args) returns (r: Exit)
    modifies disk
    ensures Finished(MakePlan(net, decode, args), net, args.out, RuntimeFile(args), old(disk.files), disk.files, r)
  {
    var origin := ChooseOrigin(args.origin, args.runtimeUrl);
    var fetched, attempts, sleeps := HttpGetBytes(net, UrlText(args.runtimeUrl), Retries);
    match fetched
    case Raised(e) =>
      return Aborted(e);
    case Content(runtime) =>
      var text := decode(runtime);
      var saved := SaveFile(disk, args.out, args.runtimeUrl.path, runtime);
      var publicPath := ChoosePublicPath(args.publicPath, text);
      r := RunTables(disk, net, args.out, runtime, text, origin, publicPath);
  }

  /** The runtime download aborts `main` exactly when all three attempts fail. */
  lemma {:induction false} RuntimeFetchFails(net: Transport, decode: Bytes -> string, args: Args)
    ensures MakePlan(net, decode, args).FetchFailed?
        <==> forall a :: 1 <= a <= Retries ==> net(UrlText(args.runtimeUrl), a).Failed?
  {
    FetchSucceedsIff(net, UrlText(args.runtimeUrl), Retries);
  }

  /**
   * `main` stops with the parser's ValueError exactly when the runtime was
   * fetched but holds no JS chunk expression even of the fallback shape, or no
   * CSS one.  It has then written the runtime file and nothing else.
   */
  lemma {:induction false} MissingChunkTable(net: Transport, decode: Bytes -> string, args: Args,
                          before: map<string, Bytes>, after: map<string, Bytes>, r: Exit)
    requires Finished(MakePlan(net, decode, args), net, args.out, RuntimeFile(args), before, after, r)
    ensures var f := Fetch(net, UrlText(args.runtimeUrl), Retries).result;
      MakePlan(net, decode, args).ParseFailed? <==>
        && f.Content?
        && ((forall p, q, k :: !IsMatch(decode(f.data), JsFallbackPattern, p, q, k))
            || (forall p, q, k :: !IsMatch(decode(f.data), CssFallbackPattern, p, q, k)))
    ensures MakePlan(net, decode, args).ParseFailed? ==>
      var f := Fetch(net, UrlText(args.runtimeUrl), Retries).result;
      && f.Content? && after == before[RuntimeFile(args) := f.data]
      && (r == Aborted(JsMapMissing) || r == Aborted(CssMapMissing))
  {
    var f := Fetch(net, UrlText(args.runtimeUrl), Retries).result;
    DefaultRetriesReturnOrRaise(net, UrlText(args.runtimeUrl));
    if f.Content? {
      var text := decode(f.data);
      ReadTablesFailsIff(f.data, text, ChooseOrigin(args.origin, args.runtimeUrl), ChoosePublicPath(args.publicPath, text));
    }
  }

  /**
   * The public path: the `--public-path` override when it is not blank,
   * otherwise the first `r.p = "..."` of the runtime, otherwise `/`; in each
   * case with a leading and a trailing slash added where missing.
   */
  lemma {:induction false} PublicPathChoice(override: string, text: string)
    ensures var pp := ChoosePublicPath(override, text);
      && StartsWith(pp, "/") && EndsWith(pp, "/")
      && (Strip(override) != [] ==> pp == NormalizePublicPath(Strip(override)))
      && (Strip(override) == [] && (forall p :: AssignAt(text, p).None?) ==> pp == "/")
      && (Strip(override) == [] && ExtractPublicPath(text).Some? ==> pp == NormalizePublicPath(ExtractPublicPath(text).value))
  {
    ExtractPublicPathIsFirst(text);
  }

  /** The origin: the `--origin` override when it is not blank, else the runtime URL's scheme and host. */
  lemma {:induction false} OriginChoice(override: string, runtimeUrl: Url)
    ensures Strip(override) == [] ==> ChooseOrigin(override, runtimeUrl) == runtimeUrl.scheme + "://" + runtimeUrl.netloc
    ensures Strip(override) != [] ==> ChooseOrigin(override, runtimeUrl) == Strip(override)
    ensures Strip(override) == [] ==> StartsWith(UrlText(runtimeUrl), ChooseOrigin(override, runtimeUrl))
  {
    if Strip(override) == [] {
      assert UrlText(runtimeUrl) == Origin(runtimeUrl) + runtimeUrl.path;
    }
  }

  /**
   * When the loop is reached, the targets are the sorted, duplicate-free
   * chunk URLs under the chosen origin and public path, and they come from
   * the runtime's own tables.
   */
  lemma {:induction false} ReadyPlan(net: Transport, decode: Bytes -> string, args: Args)
    requires MakePlan(net, decode, args).Ready?
    ensures var plan := MakePlan(net, decode, args);
      var text := decode(plan.runtime);
      && Fetch(net, UrlText(args.runtimeUrl), Retries).result == Content(plan.runtime)
      && plan.origin == ChooseOrigin(args.origin, args.runtimeUrl)
      && plan.publicPath == ChoosePublicPath(args.publicPath, text)
      && StrictlySorted(plan.targets)
      && UnderPublicPath(plan.origin, plan.publicPath, plan.targets)
      && ParseJsChunkMap(text).Ok? && ParseCssChunkMap(text).Ok?
      && plan.targets == TargetList(plan.origin, plan.publicPath, ParseJsChunkMap(text).value,
                                    ParseCssChunkMap(text).value.0, ParseCssChunkMap(text).value.1)
  {
  }
}
