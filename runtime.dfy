/**
 * What the downloaders read out of a webpack runtime script: the public path
 * assigned to `r.p`, the JS chunk table and the CSS chunk tables.  Both
 * downloader scripts carry identical copies of these functions.
 */
module Runtime {
  import opened Outcomes
  import opened Text
  import opened Scan

  // ---------------------------------------------------------------------
  // r\.p\s*=\s*["']([^"']+)["']

  predicate IsQuote(c: char) {
    c == '"' || c == '\''
  }

  /**
   * The text at `p` reads `r.p`, spaces up to `=` at `e`, spaces up to a quote
   * at `o`, then `value` and another quote.  The two quotes need not agree.
   */
  ghost predicate AssignmentAt(s: string, p: nat, e: nat, o: nat, value: string) {
    && LiteralAt(s, p, "r.p")
    && p + 3 <= e < o < |s| && s[e] == '=' && IsQuote(s[o])
    && (forall t :: p + 3 <= t < e ==> In(s[t], Space))
    && (forall t :: e + 1 <= t < o ==> In(s[t], Space))
    && value != [] && AllIn(value, NotQuote)
    && LiteralAt(s, o + 1, value) && o + 1 + |value| < |s| && IsQuote(s[o + 1 + |value|])
  }

  /**
   * The value of the `r.p = "..."` assignment that starts at offset `p`.  Every
   * run of the pattern is maximal and is followed by a character outside it,
   * so there is at most one match per start.
   */
  function AssignAt(s: string, p: nat): (r: Option<string>)
    ensures r.Some? ==> exists e, o :: AssignmentAt(s, p, e, o, r.value)
  {
    if !LiteralAt(s, p, "r.p") then None
    else
      var e := Skip(s, p + 3, Space);
      if e == |s| || s[e] != '=' then None
      else
        var o := Skip(s, e + 1, Space);
        if o == |s| || !IsQuote(s[o]) then None
        else
          var c := Skip(s, o + 1, NotQuote);
          if c == o + 1 || c == |s| then None
          else
            AssignmentOfRuns(s, p, e, o, c);
            Some(s[o + 1..c])
  }

  /** The runs AssignAt skips over form an assignment. */
  lemma {:induction false} AssignmentOfRuns(s: string, p: nat, e: nat, o: nat, c: nat)
    requires LiteralAt(s, p, "r.p") && e < o < c < |s| && c != o + 1 && s[e] == '=' && IsQuote(s[o])
    requires e == Skip(s, p + 3, Space) && o == Skip(s, e + 1, Space) && c == Skip(s, o + 1, NotQuote)
    ensures AssignmentAt(s, p, e, o, s[o + 1..c])
  {
    SkipCovers(s, p + 3, Space);
    SkipCovers(s, e + 1, Space);
    SkipAllIn(s, o + 1, NotQuote);
  }

  /** Any assignment of that shape at `p` is the one `AssignAt` reports. */
  lemma {:induction false} AssignAtOfAssignment(s: string, p: nat, e: nat, o: nat, value: string)
    requires AssignmentAt(s, p, e, o, value)
    ensures AssignAt(s, p) == Some(value)
  {
    SkipRun(s, p + 3, e, Space);
    SkipRun(s, e + 1, o, Space);
    assert !In(s[o + 1 + |value|], NotQuote);
    SkipSlice(s, o + 1, o + 1 + |value|, value, NotQuote);
    AssignAtFields(s, p, e, o, o + 1 + |value|, value);
  }

  lemma {:induction false} AssignAtFields(s: string, p: nat, e: nat, o: nat, c: nat, value: string)
    requires LiteralAt(s, p, "r.p") && p + 3 <= e < o && o + 1 < c < |s|
    requires Skip(s, p + 3, Space) == e && s[e] == '='
    requires Skip(s, e + 1, Space) == o && IsQuote(s[o])
    requires Skip(s, o + 1, NotQuote) == c && s[o + 1..c] == value
    ensures AssignAt(s, p) == Some(value)
  {
  }

  /** The leftmost offset at or after `from` where an assignment starts. */
  function FindAssign(s: string, from: nat): (r: Pos)
    ensures r.At? ==> from <= r.at && AssignAt(s, r.at).Some?
    decreases |s| - from
  {
    if from >= |s| then NotFound
    else if AssignAt(s, from).Some? then At(from)
    else FindAssign(s, from + 1)
  }

  /** No assignment starts between `from` and what FindAssign reports, nor anywhere after `from` when it reports nothing. */
  lemma {:induction false} FindAssignSkips(s: string, from: nat, j: nat)
    requires from <= j
    requires FindAssign(s, from).NotFound? || j < FindAssign(s, from).at
    ensures AssignAt(s, j).None?
    decreases |s| - from
  {
    if from >= |s| {
      AssignAtBeyond(s, j);
    } else if j > from {
      FindAssignSkips(s, from + 1, j);
    }
  }

  lemma {:induction false} AssignAtBeyond(s: string, p: nat)
    requires |s| <= p
    ensures AssignAt(s, p).None?
  {
  }

  /** `extract_public_path`: the value of the first `r.p = "..."` assignment, if any. */
  function ExtractPublicPath(s: string): (r: Option<string>)
    ensures r.Some? ==> r.value != [] && AllIn(r.value, NotQuote)
  {
    match FindAssign(s, 0)
    case NotFound => None
    case At(p) => AssignAt(s, p)
  }

  /**
   * `extract_public_path` reports nothing exactly when no assignment occurs,
   * and otherwise the value of the leftmost one.
   */
  lemma {:induction false} ExtractPublicPathIsFirst(s: string)
    ensures ExtractPublicPath(s).None? <==> forall p :: AssignAt(s, p).None?
    ensures ExtractPublicPath(s).Some? ==>
      exists p: nat :: AssignAt(s, p) == ExtractPublicPath(s) && forall j: nat :: j < p ==> AssignAt(s, j).None?
  {
    match FindAssign(s, 0)
    case NotFound =>
      forall p: nat
        ensures AssignAt(s, p).None?
      {
        FindAssignSkips(s, 0, p);
      }
    case At(p) =>
      forall j: nat | j < p
        ensures AssignAt(s, j).None?
      {
        FindAssignSkips(s, 0, j);
      }
      assert AssignAt(s, p) == ExtractPublicPath(s);
  }


  /**
   * The public path read from the runtime, `"/"` when there is none: the
   * fjii downloader's `extract_public_path` falls back to `"/"` itself, the
   * notebookvip downloader writes `extract_public_path(runtime_text) or "/"`
   * (a found value is never empty, so `or` only replaces None).
   */
  function PublicPathOrRoot(s: string): string {
    match ExtractPublicPath(s)
    case Some(v) => v
    case None => "/"
  }

  // ---------------------------------------------------------------------
  // normalize_public_path

  /** `normalize_public_path`: prepend `/` unless present, then append `/` unless present. */
  function NormalizePublicPath(p: string): (r: string)
    ensures StartsWith(r, "/") && EndsWith(r, "/")
    ensures r == p <==> StartsWith(p, "/") && EndsWith(p, "/")
    ensures exists a, b :: (a == "" || a == "/") && (b == "" || b == "/") && r == a + p + b
  {
    var p1 := if StartsWith(p, "/") then p else "/" + p;
    var r := if EndsWith(p1, "/") then p1 else p1 + "/";
    assert r[..1] == p1[..1];
    assert r == p ==> StartsWith(p, "/") && EndsWith(p, "/");
    if StartsWith(p, "/") then
      assert r == "" + p + (if EndsWith(p, "/") then "" else "/");
      r
    else
      assert r == "/" + p + (if EndsWith(p1, "/") then "" else "/");
      r
  }

  /** No shorter way of adding slashes at the ends of `p` makes it start and end with `/`. */
  lemma {:induction false} NormalizeIsShortest(p: string, a: string, b: string)
    requires a == "" || a == "/"
    requires b == "" || b == "/"
    requires StartsWith(a + p + b, "/") && EndsWith(a + p + b, "/")
    ensures |NormalizePublicPath(p)| <= |a + p + b|
  {
    var w := a + p + b;
    if p == [] {
      assert |w| >= 1;
    } else {
      assert a == "" ==> w[0] == p[0];
      assert b == "" ==> w[|w| - 1] == p[|p| - 1];
      var p1 := if StartsWith(p, "/") then p else "/" + p;
      assert p1[|p1| - 1] == p[|p| - 1];
    }
  }

  /** Normalising twice is normalising once. */
  lemma {:induction false} NormalizeIdempotent(p: string)
    ensures NormalizePublicPath(NormalizePublicPath(p)) == NormalizePublicPath(p)
  {
  }

  // ---------------------------------------------------------------------
  // Chunk-table patterns

  /** `r\.p\+"static/js/"\+e\+"\."\+\{(.*?)\}\[e\]\+"\.\s*js"` */
  const JsPattern := Pattern("r.p+\"static/js/\"+e+\".\"+{", "", Anchor("}[e]+\".", "js\""))

  /** `"static/js/"\+e\+"\."\+\{(.*?)\}\[e\]\+"\.\s*js"`, the fallback without `r.p+`. */
  const JsFallbackPattern := Pattern("\"static/js/\"+e+\".\"+{", "", Anchor("}[e]+\".", "js\""))

  /** `\(\{(.*?)\}\[e\]\|\|e\)`, the CSS file-name override table. */
  const CssNamePattern := Pattern("({", "", Anchor("}[e]||e)", ""))

  /** `"static/css/"\+\(\{.*?\}\[e\]\|\|e\)\+"\."\+\{(.*?)\}\[e\]\+"\.\s*css"` */
  const CssPattern := Pattern("\"static/css/\"+({", "}[e]||e)+\".\"+{", Anchor("}[e]+\".", "css\""))

  /** `"static/css/"\+.*?\+"\."\+\{(.*?)\}\[e\]\+"\.\s*css"`, the fallback shape. */
  const CssFallbackPattern := Pattern("\"static/css/\"+", "+\".\"+{", Anchor("}[e]+\".", "css\""))

  /** Wherever the `r.p+` pattern matches, its fallback matches too, four characters later. */
  lemma {:induction false} JsPatternImpliesFallback(s: string, p: nat, q: nat, k: nat)
    requires IsMatch(s, JsPattern, p, q, k)
    ensures IsMatch(s, JsFallbackPattern, p + 4, q, k)
  {
    SliceOfSlice(s, p, p + 24, 4, 24);
    assert JsPattern.prefix[4..] == JsFallbackPattern.prefix;
  }

  /** Wherever the first CSS pattern matches, the fallback matches with the same table. */
  lemma {:induction false} CssPatternImpliesFallback(s: string, p: nat, q: nat, k: nat)
    requires IsMatch(s, CssPattern, p, q, k)
    ensures IsMatch(s, CssFallbackPattern, p, q + 8, k)
  {
    SliceOfSlice(s, p, p + 16, 0, 14);
    assert CssPattern.prefix[..14] == CssFallbackPattern.prefix;
    SliceOfSlice(s, q, q + 14, 8, 14);
    assert CssPattern.mid[8..] == CssFallbackPattern.mid;
  }

  // ---------------------------------------------------------------------
  // parse_js_chunk_map and parse_css_chunk_map

  const JsMapMissing := "Could not find JS chunk hash map in runtime."
  const CssMapMissing := "Could not find CSS chunk hash map in runtime."

  /** The hash table named by the first of two patterns that matches. */
  function FirstTable(s: string, first: Pattern, second: Pattern, missing: string): (r: Result<map<nat, string>>)
    ensures r.Err? ==> r.message == missing
    ensures r.Ok? ==> forall id :: id in r.value ==> ValidValue(r.value[id], HexToken)
  {
    match SearchGroup(s, first)
    case Some(body) => Ok(ParseTable(body, HexToken))
    case None =>
      match SearchGroup(s, second)
      case Some(body) => Ok(ParseTable(body, HexToken))
      case None => Err(missing)
  }

  /** The lookup fails exactly when neither pattern occurs anywhere. */
  lemma {:induction false} FirstTableErrIff(s: string, first: Pattern, second: Pattern, missing: string)
    ensures FirstTable(s, first, second, missing).Err?
        <==> (forall p, q, k :: !IsMatch(s, first, p, q, k)) && (forall p, q, k :: !IsMatch(s, second, p, q, k))
  {
    SearchGroupNoneIff(s, first);
    SearchGroupNoneIff(s, second);
  }

  /**
   * `parse_js_chunk_map`: the id-to-hash table of the JS chunk URL expression,
   * from the `r.p+` pattern or else from its fallback; ValueError otherwise.
   */
  function ParseJsChunkMap(s: string): (r: Result<map<nat, string>>)
    ensures r.Err? ==> r.message == JsMapMissing
    ensures r.Ok? ==> forall id :: id in r.value ==> ValidValue(r.value[id], HexToken)
  {
    FirstTable(s, JsPattern, JsFallbackPattern, JsMapMissing)
  }

  /** `parse_js_chunk_map` raises ValueError exactly when even the fallback pattern does not occur. */
  lemma {:induction false} ParseJsChunkMapErrIff(s: string)
    ensures ParseJsChunkMap(s).Err? <==> forall p, q, k :: !IsMatch(s, JsFallbackPattern, p, q, k)
  {
    FirstTableErrIff(s, JsPattern, JsFallbackPattern, JsMapMissing);
    forall p: nat, q: nat, k: nat | IsMatch(s, JsPattern, p, q, k)
      ensures IsMatch(s, JsFallbackPattern, p + 4, q, k)
    {
      JsPatternImpliesFallback(s, p, q, k);
    }
  }

  /** The CSS file-name overrides: the table of the first `({...}[e]||e)`, or empty when there is none. */
  function CssNameMap(s: string): (names: map<nat, string>)
    ensures forall id :: id in names ==> ValidValue(names[id], QuotedText)
  {
    match SearchGroup(s, CssNamePattern)
    case Some(body) => ParseTable(body, QuotedText)
    case None => map[]
  }

  /** Without a name-override table there are no overrides. */
  lemma {:induction false} CssNameMapEmpty(s: string)
    requires forall p, q, k :: !IsMatch(s, CssNamePattern, p, q, k)
    ensures CssNameMap(s) == map[]
  {
    SearchGroupNoneIff(s, CssNamePattern);
  }

  /**
   * `parse_css_chunk_map`: the name overrides and the id-to-hash table of the
   * CSS chunk URL expression.  A missing name table is not an error; a missing
   * hash table raises ValueError.
   */
  function ParseCssChunkMap(s: string): (r: Result<(map<nat, string>, map<nat, string>)>)
    ensures r.Err? ==> r.message == CssMapMissing
    ensures r.Ok? ==> r.value.0 == CssNameMap(s)
    ensures r.Ok? ==> forall id :: id in r.value.1 ==> ValidValue(r.value.1[id], HexToken)
  {
    match FirstTable(s, CssPattern, CssFallbackPattern, CssMapMissing)
    case Ok(hashes) => Ok((CssNameMap(s), hashes))
    case Err(message) => Err(message)
  }

  /** `parse_css_chunk_map` raises ValueError exactly when even the fallback hash pattern does not occur. */
  lemma {:induction false} ParseCssChunkMapErrIff(s: string)
    ensures ParseCssChunkMap(s).Err? <==> forall p, q, k :: !IsMatch(s, CssFallbackPattern, p, q, k)
  {
    FirstTableErrIff(s, CssPattern, CssFallbackPattern, CssMapMissing);
    forall p: nat, q: nat, k: nat | IsMatch(s, CssPattern, p, q, k)
      ensures IsMatch(s, CssFallbackPattern, p, q + 8, k)
    {
      CssPatternImpliesFallback(s, p, q, k);
    }
  }

  /** When the `r.p+` pattern occurs, its table is the one used, whatever the fallback would find. */
  lemma {:induction false} JsPatternWins(s: string, body: string)
    requires SearchGroup(s, JsPattern) == Some(body)
    ensures ParseJsChunkMap(s) == Ok(ParseTable(body, HexToken))
  {
  }

  /** When the first CSS pattern occurs, its table is the one used. */
  lemma {:induction false} CssPatternWins(s: string, body: string)
    requires SearchGroup(s, CssPattern) == Some(body)
    ensures ParseCssChunkMap(s) == Ok((CssNameMap(s), ParseTable(body, HexToken)))
  {
  }

  /** When the first pattern occurs nowhere, the second pattern's table is the one used. */
  lemma {:induction false} FirstTableFallsBack(s: string, first: Pattern, second: Pattern, missing: string, body: string)
    requires forall p, q, k :: !IsMatch(s, first, p, q, k)
    requires SearchGroup(s, second) == Some(body)
    ensures FirstTable(s, first, second, missing) == Ok(ParseTable(body, HexToken))
  {
    SearchGroupNoneIff(s, first);
  }

  /** When the `r.p+` form occurs nowhere, the table of the prefix-less fallback is the one used. */
  lemma {:induction false} JsFallbackUsed(s: string, body: string)
    requires forall p, q, k :: !IsMatch(s, JsPattern, p, q, k)
    requires SearchGroup(s, JsFallbackPattern) == Some(body)
    ensures ParseJsChunkMap(s) == Ok(ParseTable(body, HexToken))
  {
    FirstTableFallsBack(s, JsPattern, JsFallbackPattern, JsMapMissing, body);
  }

  /**
   * When the first CSS pattern occurs nowhere (no `({...}[e]||e)` right after
   * `"static/css/"+`), the fallback's hash table is the one used.
   */
  lemma {:induction false} CssFallbackUsed(s: string, body: string)
    requires forall p, q, k :: !IsMatch(s, CssPattern, p, q, k)
    requires SearchGroup(s, CssFallbackPattern) == Some(body)
    ensures ParseCssChunkMap(s) == Ok((CssNameMap(s), ParseTable(body, HexToken)))
  {
    FirstTableFallsBack(s, CssPattern, CssFallbackPattern, CssMapMissing, body);
  }

  // ---------------------------------------------------------------------
  // The table expressions a minifier emits, read back

  /** No `}` occurs in a rendered table whose values have none. */
  lemma {:induction false} NoBraceInRender(entries: seq<(nat, string)>)
    requires forall j :: 0 <= j < |entries| ==> '}' !in entries[j].1
    ensures '}' !in Render(AsPairs(entries))
  {
    var pairs := AsPairs(entries);
    forall j | 0 <= j < |pairs|
      ensures '}' !in pairs[j].key && '}' !in pairs[j].value
    {
      AvoidsClass(pairs[j].key, Digit, '}');
    }
    RenderAvoids(pairs, '}');
  }

  /** A hash value has no `}`. */
  lemma {:induction false} NoBraceInHashes(entries: seq<(nat, string)>)
    requires forall j :: 0 <= j < |entries| ==> ValidValue(entries[j].1, HexToken)
    ensures forall j :: 0 <= j < |entries| ==> '}' !in entries[j].1
  {
    forall j | 0 <= j < |entries|
      ensures '}' !in entries[j].1
    {
      AvoidsClass(entries[j].1, LowerHex, '}');
    }
  }

  /** The JS chunk URL expression for a table, up to the closing quote of `".js"`. */
  function JsTableText(entries: seq<(nat, string)>): string {
    JsPattern.prefix + Render(AsPairs(entries)) + "}[e]+\".js\""
  }

  /** In the JS chunk URL expression of a table, the `r.p+` pattern captures the rendered table. */
  lemma {:induction false} JsTableTextSearch(entries: seq<(nat, string)>, rest: string)
    requires forall j :: 0 <= j < |entries| ==> ValidValue(entries[j].1, HexToken)
    ensures SearchGroup(JsTableText(entries) + rest, JsPattern) == Some(Render(AsPairs(entries)))
  {
    var body := Render(AsPairs(entries));
    NoBraceInHashes(entries);
    NoBraceInRender(entries);
    var pre, close := JsPattern.prefix, "}[e]+\".js\"";
    var ps := [[], pre, [], [], body, close, rest];
    Concat7([], pre, [], [], body, close, rest);
    assert [] + pre + [] + [] == pre;
    assert Concat(ps) == JsTableText(entries) + rest;
    SearchGroupOfLayout(ps, JsPattern);
  }

  /** `parse_js_chunk_map` reads back exactly the table of the JS chunk URL expression. */
  lemma {:induction false} ParseJsChunkMapOfTable(entries: seq<(nat, string)>, rest: string)
    requires forall j :: 0 <= j < |entries| ==> ValidValue(entries[j].1, HexToken)
    ensures ParseJsChunkMap(JsTableText(entries) + rest) == Ok(Dict(entries))
  {
    JsTableTextSearch(entries, rest);
    JsPatternWins(JsTableText(entries) + rest, Render(AsPairs(entries)));
    ParseTableOfRender(entries, HexToken);
  }

  /**
   * The CSS chunk URL expression for a name-override table and a hash table,
   * up to the closing quote of `".css"`.
   */
  function CssTableText(names: seq<(nat, string)>, hashes: seq<(nat, string)>): string {
    CssPattern.prefix + Render(AsPairs(names)) + CssPattern.mid + Render(AsPairs(hashes)) + "}[e]+\".css\""
  }

  /** What the name-override tables may hold: text without a double quote or a closing brace. */
  predicate NameValues(names: seq<(nat, string)>) {
    forall j :: 0 <= j < |names| ==> ValidValue(names[j].1, QuotedText) && '}' !in names[j].1
  }

  /** In the CSS chunk URL expression, the first CSS pattern captures the rendered hash table. */
  lemma {:induction false} CssTableTextSearch(names: seq<(nat, string)>, hashes: seq<(nat, string)>, rest: string)
    requires NameValues(names)
    requires forall j :: 0 <= j < |hashes| ==> ValidValue(hashes[j].1, HexToken)
    ensures SearchGroup(CssTableText(names, hashes) + rest, CssPattern) == Some(Render(AsPairs(hashes)))
  {
    var rn, rh := Render(AsPairs(names)), Render(AsPairs(hashes));
    NoBraceInRender(names);
    NoBraceInHashes(hashes);
    NoBraceInRender(hashes);
    var pre, mid, close := CssPattern.prefix, CssPattern.mid, "}[e]+\".css\"";
    var ps := [[], pre, rn, mid, rh, close, rest];
    Concat7([], pre, rn, mid, rh, close, rest);
    assert [] + pre == pre;
    assert Concat(ps) == CssTableText(names, hashes) + rest;
    SearchGroupOfLayout(ps, CssPattern);
  }

  /** In the CSS chunk URL expression, the name-override pattern captures the rendered name table. */
  lemma {:induction false} CssTableTextNames(names: seq<(nat, string)>, hashes: seq<(nat, string)>, rest: string)
    requires NameValues(names)
    ensures SearchGroup(CssTableText(names, hashes) + rest, CssNamePattern) == Some(Render(AsPairs(names)))
  {
    var rn, rh := Render(AsPairs(names)), Render(AsPairs(hashes));
    NoBraceInRender(names);
    var after := "+\".\"+{" + rh + "}[e]+\".css\"" + rest;
    CssTextPieces(rn, rh, rest);
    CssNameLayout(rn, after);
  }

  /** Where the name-override table lies in the CSS chunk URL expression. */
  lemma {:induction false} CssTextPieces(rn: string, rh: string, rest: string)
    ensures CssPattern.prefix + rn + CssPattern.mid + rh + "}[e]+\".css\"" + rest
         == Concat(["\"static/css/\"+", "({", [], [], rn, "}[e]||e)", "+\".\"+{" + rh + "}[e]+\".css\"" + rest])
  {
    var lead, open, close := "\"static/css/\"+", "({", "}[e]||e)";
    var after := "+\".\"+{" + rh + "}[e]+\".css\"" + rest;
    Concat7(lead, open, [], [], rn, close, after);
    assert CssPattern.prefix == lead + open;
    assert CssPattern.mid == close + "+\".\"+{";
    assert lead + open + [] + [] == CssPattern.prefix;
  }

  /** The name-override pattern captures a brace-free table placed between `({` and `}[e]||e)`. */
  lemma {:induction false} CssNameLayout(rn: string, after: string)
    requires '}' !in rn
    ensures SearchGroup(Concat(["\"static/css/\"+", "({", [], [], rn, "}[e]||e)", after]), CssNamePattern) == Some(rn)
  {
    var ps := ["\"static/css/\"+", "({", [], [], rn, "}[e]||e)", after];
    assert ps[5] == CssNamePattern.suffix.head + CssNamePattern.suffix.tail;
    SearchGroupOfLayout(ps, CssNamePattern);
  }

  /** `parse_css_chunk_map` reads back exactly both tables of the CSS chunk URL expression. */
  lemma {:induction false} ParseCssChunkMapOfTable(names: seq<(nat, string)>, hashes: seq<(nat, string)>, rest: string)
    requires NameValues(names)
    requires forall j :: 0 <= j < |hashes| ==> ValidValue(hashes[j].1, HexToken)
    ensures ParseCssChunkMap(CssTableText(names, hashes) + rest) == Ok((Dict(names), Dict(hashes)))
  {
    var s := CssTableText(names, hashes) + rest;
    CssTableTextSearch(names, hashes, rest);
    CssTableTextNames(names, hashes, rest);
    CssPatternWins(s, Render(AsPairs(hashes)));
    ParseTableOfRender(names, QuotedText);
    ParseTableOfRender(hashes, HexToken);
  }

  /**
   * The JS chunk URL expression of a table without `r.p+` in front, as
   * `n.p+"static/js/"+e+"."+{...}[e]+".js"` from a runtime whose public-path
   * variable is not `r`.
   */
  function JsFallbackTableText(entries: seq<(nat, string)>): string {
    JsFallbackPattern.prefix + Render(AsPairs(entries)) + JsFallbackPattern.suffix.head + JsFallbackPattern.suffix.tail
  }

  /**
   * In a runtime holding the prefix-less JS expression of a table after a
   * lead without a double quote, and no `r.p+` form anywhere,
   * `parse_js_chunk_map` reads back that table.
   */
  lemma {:induction false} ParseJsChunkMapOfFallbackTable(lead: string, entries: seq<(nat, string)>, rest: string)
    requires '"' !in lead
    requires forall j :: 0 <= j < |entries| ==> ValidValue(entries[j].1, HexToken)
    requires forall p, q, k :: !IsMatch(lead + JsFallbackTableText(entries) + rest, JsPattern, p, q, k)
    ensures ParseJsChunkMap(lead + JsFallbackTableText(entries) + rest) == Ok(Dict(entries))
  {
    var s := lead + JsFallbackTableText(entries) + rest;
    JsFallbackTableFound(lead, entries, rest);
    JsFallbackUsed(s, Render(AsPairs(entries)));
    ParseTableOfRender(entries, HexToken);
  }

  /** The prefix-less JS expression is found by the fallback pattern, its group being the table. */
  lemma {:induction false} JsFallbackTableFound(lead: string, entries: seq<(nat, string)>, rest: string)
    requires '"' !in lead
    requires forall j :: 0 <= j < |entries| ==> ValidValue(entries[j].1, HexToken)
    ensures SearchGroup(lead + JsFallbackTableText(entries) + rest, JsFallbackPattern) == Some(Render(AsPairs(entries)))
  {
    var pat, body := JsFallbackPattern, Render(AsPairs(entries));
    NoBraceInHashes(entries);
    NoBraceInRender(entries);
    SearchGroupOfText(lead, pat, [], body, JsFallbackTableText(entries), rest);
  }

  /** The CSS chunk URL expression without a name-override table: `"static/css/"+e+"."+{...}[e]+".css"`. */
  function CssFallbackTableText(hashes: seq<(nat, string)>): string {
    CssFallbackPattern.prefix + "e" + CssFallbackPattern.mid + Render(AsPairs(hashes)) + CssFallbackPattern.suffix.head + CssFallbackPattern.suffix.tail
  }

  /**
   * In a runtime holding that expression after a lead without a double quote,
   * and no expression of the first CSS shape anywhere, `parse_css_chunk_map`
   * reads back the hash table, next to whatever name overrides the runtime has.
   */
  lemma {:induction false} ParseCssChunkMapOfFallbackTable(lead: string, hashes: seq<(nat, string)>, rest: string)
    requires '"' !in lead
    requires forall j :: 0 <= j < |hashes| ==> ValidValue(hashes[j].1, HexToken)
    requires forall p, q, k :: !IsMatch(lead + CssFallbackTableText(hashes) + rest, CssPattern, p, q, k)
    ensures var s := lead + CssFallbackTableText(hashes) + rest;
      ParseCssChunkMap(s) == Ok((CssNameMap(s), Dict(hashes)))
  {
    var s := lead + CssFallbackTableText(hashes) + rest;
    CssFallbackTableFound(lead, hashes, rest);
    CssFallbackUsed(s, Render(AsPairs(hashes)));
    ParseTableOfRender(hashes, HexToken);
  }

  /** The CSS expression without a name-override table is found by the fallback pattern, its group being the hash table. */
  lemma {:induction false} CssFallbackTableFound(lead: string, hashes: seq<(nat, string)>, rest: string)
    requires '"' !in lead
    requires forall j :: 0 <= j < |hashes| ==> ValidValue(hashes[j].1, HexToken)
    ensures SearchGroup(lead + CssFallbackTableText(hashes) + rest, CssFallbackPattern) == Some(Render(AsPairs(hashes)))
  {
    var pat, body := CssFallbackPattern, Render(AsPairs(hashes));
    NoBraceInHashes(hashes);
    NoBraceInRender(hashes);
    SearchGroupOfText(lead, pat, "e", body, CssFallbackTableText(hashes), rest);
  }
}
