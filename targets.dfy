/**
 * The download list of the two webpack downloaders: one URL per JS chunk and
 * one per CSS chunk, visited in ascending chunk-id order, then `sorted(set(...))`.
 */
module Targets {
  import opened Text

  // ---------------------------------------------------------------------
  // sorted() over chunk ids

  predicate Increasing(ids: seq<nat>) {
    forall i, j :: 0 <= i < j < |ids| ==> ids[i] < ids[j]
  }

  /** A set of naturals holding `n` has a least element, found by descending from `n`. */
  lemma {:induction false} MinBelow(ids: set<nat>, n: nat)
    requires n in ids
    ensures exists m :: m in ids && forall x :: x in ids ==> m <= x
    decreases n
  {
    if exists x :: x in ids && x < n {
      var x :| x in ids && x < n;
      MinBelow(ids, x);
    }
  }

  /** The smallest id of a non-empty set. */
  function MinId(ids: set<nat>): (m: nat)
    requires ids != {}
    ensures m in ids && forall x :: x in ids ==> m <= x
  {
    var n :| n in ids;
    MinBelow(ids, n);
    var m :| m in ids && forall x :: x in ids ==> m <= x;
    m
  }

  /** The ids of a table in the order `sorted(table.items())` visits them. */
  function SortedIds(ids: set<nat>): (r: seq<nat>)
    ensures Increasing(r)
    ensures forall x :: x in r <==> x in ids
    decreases ids
  {
    if ids == {} then []
    else
      var m := MinId(ids);
      var rest := SortedIds(ids - {m});
      [m] + rest
  }

  // ---------------------------------------------------------------------
  // Python's `<` on str and sorted(set(...))

  /** Python's `a < b` on strings: lexicographic by code point, a proper prefix first. */
  predicate StrLess(a: string, b: string)
    decreases |a|
  {
    b != [] && (a == [] || a[0] < b[0] || (a[0] == b[0] && StrLess(a[1..], b[1..])))
  }

  lemma {:induction false} StrLessIrreflexive(a: string)
    ensures !StrLess(a, a)
    decreases |a|
  {
    if a != [] {
      StrLessIrreflexive(a[1..]);
    }
  }

  lemma {:induction false} StrLessAsymmetric(a: string, b: string)
    requires StrLess(a, b)
    ensures !StrLess(b, a)
    decreases |a|
  {
    if a != [] && a[0] == b[0] {
      StrLessAsymmetric(a[1..], b[1..]);
    }
  }

  lemma {:induction false} StrLessTotal(a: string, b: string)
    requires a != b
    ensures StrLess(a, b) || StrLess(b, a)
    decreases |a|
  {
    if a != [] && b != [] && a[0] == b[0] {
      assert a[1..] != b[1..] by {
        assert a == [a[0]] + a[1..] && b == [b[0]] + b[1..];
      }
      StrLessTotal(a[1..], b[1..]);
    }
  }

  lemma {:induction false} StrLessTransitive(a: string, b: string, c: string)
    requires StrLess(a, b) && StrLess(b, c)
    ensures StrLess(a, c)
    decreases |a|
  {
    if a != [] && a[0] == b[0] && b[0] == c[0] {
      StrLessTransitive(a[1..], b[1..], c[1..]);
    }
  }

  predicate StrictlySorted(xs: seq<string>) {
    forall i, j :: 0 <= i < j < |xs| ==> StrLess(xs[i], xs[j])
  }

  /** Adds `x` to a strictly sorted list, keeping it strictly sorted. */
  function Insert(x: string, xs: seq<string>): (r: seq<string>)
    requires StrictlySorted(xs)
    ensures StrictlySorted(r)
    ensures forall y :: y in r <==> y == x || y in xs
  {
    if xs == [] then [x]
    else if x == xs[0] then xs
    else if StrLess(x, xs[0]) then
      assert forall j :: 0 < j < |xs| ==> StrLess(x, xs[j]) by {
        forall j | 0 < j < |xs| ensures StrLess(x, xs[j]) {
          StrLessTransitive(x, xs[0], xs[j]);
        }
      }
      [x] + xs
    else
      StrLessTotal(x, xs[0]);
      var tail := Insert(x, xs[1..]);
      assert forall y :: y in tail ==> StrLess(xs[0], y) by {
        forall y | y in tail ensures StrLess(xs[0], y) {
          if y != x {
            var j :| 0 <= j < |xs[1..]| && xs[1..][j] == y;
            assert xs[j + 1] == y;
          }
        }
      }
      [xs[0]] + tail
  }

  /** `sorted(set(xs))`. */
  function SortedUnique(xs: seq<string>): (r: seq<string>)
    ensures StrictlySorted(r)
    ensures forall y :: y in r <==> y in xs
    decreases |xs|
  {
    if xs == [] then []
    else
      var init := SortedUnique(xs[..|xs| - 1]);
      assert forall y :: y in xs <==> y in xs[..|xs| - 1] || y == xs[|xs| - 1] by {
        assert xs == xs[..|xs| - 1] + [xs[|xs| - 1]];
      }
      Insert(xs[|xs| - 1], init)
  }

  /** A strictly sorted list repeats no element. */
  lemma {:induction false} StrictlySortedDistinct(xs: seq<string>, i: nat, j: nat)
    requires StrictlySorted(xs) && i < j < |xs|
    ensures xs[i] != xs[j]
  {
    StrLessIrreflexive(xs[i]);
  }

  lemma {:induction false} SameElementsEmpty(a: seq<string>, b: seq<string>)
    requires forall y :: y in a <==> y in b
    ensures a == [] <==> b == []
  {
    if a != [] {
      assert a[0] in b;
    }
    if b != [] {
      assert b[0] in a;
    }
  }

  /** Two strictly sorted lists with the same elements are equal: sorting a set has one answer. */
  lemma {:induction false} StrictlySortedUnique(a: seq<string>, b: seq<string>)
    requires StrictlySorted(a) && StrictlySorted(b)
    requires forall y :: y in a <==> y in b
    ensures a == b
    decreases |a|
  {
    SameElementsEmpty(a, b);
    if a != [] {
      assert a[0] in b;
      assert b[0] in a;
      if a[0] != b[0] {
        var i :| 0 <= i < |b| && b[i] == a[0];
        var j :| 0 <= j < |a| && a[j] == b[0];
        assert StrLess(b[0], a[0]);
        assert StrLess(a[0], b[0]);
        StrLessAsymmetric(a[0], b[0]);
      }
      forall y
        ensures y in a[1..] <==> y in b[1..]
      {
        if y in a[1..] {
          var i :| 0 <= i < |a[1..]| && a[1..][i] == y;
          StrictlySortedDistinct(a, 0, i + 1);
          assert y in b;
          assert y != b[0];
          assert b == [b[0]] + b[1..];
        }
        if y in b[1..] {
          var i :| 0 <= i < |b[1..]| && b[1..][i] == y;
          StrictlySortedDistinct(b, 0, i + 1);
          assert y in a;
          assert y != a[0];
          assert a == [a[0]] + a[1..];
        }
      }
      StrictlySortedUnique(a[1..], b[1..]);
      assert a == [a[0]] + a[1..] && b == [b[0]] + b[1..];
    }
  }

  /** `sorted(set(xs))` is the one strictly sorted list of the elements of `xs`. */
  lemma {:induction false} SortedUniqueCanonical(xs: seq<string>, ys: seq<string>)
    requires StrictlySorted(ys)
    requires forall y :: y in ys <==> y in xs
    ensures SortedUnique(xs) == ys
  {
    StrictlySortedUnique(SortedUnique(xs), ys);
  }

  // ---------------------------------------------------------------------
  // Chunk URLs

  /** `f"{public_path}static/js/{cid}.{h}.js"` */
  function JsPath(pp: string, id: nat, hash: string): string {
    pp + ("static/js/" + NatToString(id) + "." + hash + ".js")
  }

  /** `name_map.get(cid, str(cid))` */
  function CssName(names: map<nat, string>, id: nat): string {
    if id in names then names[id] else NatToString(id)
  }

  /** `f"{public_path}static/css/{name}.{h}.css"` */
  function CssPath(pp: string, name: string, hash: string): string {
    pp + ("static/css/" + name + "." + hash + ".css")
  }

  /** The JS chunk URLs in the order the first loop of `main` appends them. */
  function JsUrls(origin: string, pp: string, js: map<nat, string>): (r: seq<string>)
    ensures |r| == |SortedIds(js.Keys)|
  {
    var ids := SortedIds(js.Keys);
    seq(|ids|, i requires 0 <= i < |ids| => origin + JsPath(pp, ids[i], js[ids[i]]))
  }

  /** The CSS chunk URLs in the order the second loop of `main` appends them. */
  function CssUrls(origin: string, pp: string, names: map<nat, string>, css: map<nat, string>): (r: seq<string>)
    ensures |r| == |SortedIds(css.Keys)|
  {
    var ids := SortedIds(css.Keys);
    seq(|ids|, i requires 0 <= i < |ids| => origin + CssPath(pp, CssName(names, ids[i]), css[ids[i]]))
  }

  /** The final download list. */
  function TargetList(origin: string, pp: string, js: map<nat, string>, names: map<nat, string>, css: map<nat, string>): seq<string> {
    SortedUnique(JsUrls(origin, pp, js) + CssUrls(origin, pp, names, css))
  }

  /** The first loop of the target-building part of `main`: one URL per JS chunk, by ascending id. */
  method AppendJsTargets(origin: string, pp: string, js: map<nat, string>) returns (list: seq<string>)
    ensures list == JsUrls(origin, pp, js)
  {
    list := [];
    var ids := SortedIds(js.Keys);
    for i := 0 to |ids|
      invariant list == JsUrls(origin, pp, js)[..i]
    {
      var cid := ids[i];
      PrefixStep(JsUrls(origin, pp, js), i);
      list := list + [origin + JsPath(pp, cid, js[cid])];
    }
    assert JsUrls(origin, pp, js)[..|ids|] == JsUrls(origin, pp, js);
  }

  /** The second loop: one URL per CSS chunk, by ascending id, under its override name or its id. */
  method AppendCssTargets(origin: string, pp: string, names: map<nat, string>, css: map<nat, string>, list0: seq<string>)
    returns (list: seq<string>)
    ensures list == list0 + CssUrls(origin, pp, names, css)
  {
    list := list0;
    var ids := SortedIds(css.Keys);
    for i := 0 to |ids|
      invariant list == list0 + CssUrls(origin, pp, names, css)[..i]
    {
      var cid := ids[i];
      var name := CssName(names, cid);
      PrefixStep(CssUrls(origin, pp, names, css), i);
      list := list + [origin + CssPath(pp, name, css[cid])];
    }
    assert CssUrls(origin, pp, names, css)[..|ids|] == CssUrls(origin, pp, names, css);
  }

  /**
   * The target-building part of `main`: the two loops, then `sorted(set(targets))`.
   */
  method BuildTargets(origin: string, pp: string, js: map<nat, string>, names: map<nat, string>, css: map<nat, string>)
    returns (targets: seq<string>)
    ensures targets == TargetList(origin, pp, js, names, css)
  {
    var list := AppendJsTargets(origin, pp, js);
    list := AppendCssTargets(origin, pp, names, css, list);
    targets := SortedUnique(list);
  }

  lemma {:induction false} PrefixStep(xs: seq<string>, i: nat)
    requires i < |xs|
    ensures xs[..i + 1] == xs[..i] + [xs[i]]
  {
  }

  /** The URL of some JS chunk of the table. */
  ghost predicate IsJsTarget(origin: string, pp: string, js: map<nat, string>, u: string) {
    exists id :: id in js && u == origin + JsPath(pp, id, js[id])
  }

  /** The URL of some CSS chunk of the table, under its override name or its id. */
  ghost predicate IsCssTarget(origin: string, pp: string, names: map<nat, string>, css: map<nat, string>, u: string) {
    exists id :: id in css && u == origin + CssPath(pp, CssName(names, id), css[id])
  }

  lemma {:induction false} JsUrlsMembers(origin: string, pp: string, js: map<nat, string>, u: string)
    ensures u in JsUrls(origin, pp, js) <==> IsJsTarget(origin, pp, js, u)
  {
    if u in JsUrls(origin, pp, js) {
      JsUrlsSound(origin, pp, js, u);
    }
    if IsJsTarget(origin, pp, js, u) {
      JsUrlsComplete(origin, pp, js, u);
    }
  }

  lemma {:induction false} JsUrlsSound(origin: string, pp: string, js: map<nat, string>, u: string)
    requires u in JsUrls(origin, pp, js)
    ensures IsJsTarget(origin, pp, js, u)
  {
    var ju, ids := JsUrls(origin, pp, js), SortedIds(js.Keys);
    var i :| 0 <= i < |ju| && ju[i] == u;
    assert ids[i] in js;
  }

  lemma {:induction false} JsUrlsComplete(origin: string, pp: string, js: map<nat, string>, u: string)
    requires IsJsTarget(origin, pp, js, u)
    ensures u in JsUrls(origin, pp, js)
  {
    var ju, ids := JsUrls(origin, pp, js), SortedIds(js.Keys);
    var id :| id in js && u == origin + JsPath(pp, id, js[id]);
    var i :| 0 <= i < |ids| && ids[i] == id;
    assert ju[i] == u;
  }

  lemma {:induction false} CssUrlsMembers(origin: string, pp: string, names: map<nat, string>, css: map<nat, string>, u: string)
    ensures u in CssUrls(origin, pp, names, css) <==> IsCssTarget(origin, pp, names, css, u)
  {
    if u in CssUrls(origin, pp, names, css) {
      CssUrlsSound(origin, pp, names, css, u);
    }
    if IsCssTarget(origin, pp, names, css, u) {
      CssUrlsComplete(origin, pp, names, css, u);
    }
  }

  lemma {:induction false} CssUrlsSound(origin: string, pp: string, names: map<nat, string>, css: map<nat, string>, u: string)
    requires u in CssUrls(origin, pp, names, css)
    ensures IsCssTarget(origin, pp, names, css, u)
  {
    var cu, ids := CssUrls(origin, pp, names, css), SortedIds(css.Keys);
    var i :| 0 <= i < |cu| && cu[i] == u;
    assert ids[i] in css;
  }

  lemma {:induction false} CssUrlsComplete(origin: string, pp: string, names: map<nat, string>, css: map<nat, string>, u: string)
    requires IsCssTarget(origin, pp, names, css, u)
    ensures u in CssUrls(origin, pp, names, css)
  {
    var cu, ids := CssUrls(origin, pp, names, css), SortedIds(css.Keys);
    var id :| id in css && u == origin + CssPath(pp, CssName(names, id), css[id]);
    var i :| 0 <= i < |ids| && ids[i] == id;
    assert cu[i] == u;
  }

  /** The list holds exactly one URL per JS chunk and per CSS chunk, and nothing else. */
  lemma {:induction false} TargetListMembers(origin: string, pp: string, js: map<nat, string>, names: map<nat, string>, css: map<nat, string>, u: string)
    ensures u in TargetList(origin, pp, js, names, css) <==>
            IsJsTarget(origin, pp, js, u) || IsCssTarget(origin, pp, names, css, u)
  {
    var ju, cu := JsUrls(origin, pp, js), CssUrls(origin, pp, names, css);
    assert u in ju + cu <==> u in ju || u in cu;
    JsUrlsMembers(origin, pp, js, u);
    CssUrlsMembers(origin, pp, names, css, u);
  }

  /** The digit run at the start of `x + w` is `x` when `w` starts with a dot. */
  lemma {:induction false} DigitsBeforeDot(x: string, w: string)
    requires AllIn(x, Digit) && w != [] && w[0] == '.'
    ensures Span(x + w, Digit) == |x|
    decreases |x|
  {
    if x != [] {
      assert (x + w)[1..] == x[1..] + w;
      DigitsBeforeDot(x[1..], w);
    }
  }

  lemma {:induction false} CancelPrefix(p: string, a: string, b: string)
    requires p + a == p + b
    ensures a == b
  {
    assert a == (p + a)[|p|..];
    assert b == (p + b)[|p|..];
  }

  lemma {:induction false} CancelSuffix(a: string, b: string, q: string)
    requires a + q == b + q
    ensures a == b
  {
    assert a == (a + q)[..|a|];
    assert b == (b + q)[..|b|];
  }

  /** A JS path determines its chunk id and hash. */
  lemma {:induction false} JsPathInjective(pp: string, a: nat, g: string, b: nat, h: string)
    requires JsPath(pp, a, g) == JsPath(pp, b, h)
    ensures a == b && g == h
  {
    var x, y := NatToString(a), NatToString(b);
    var u, v := "." + g + ".js", "." + h + ".js";
    JsPathTail(pp, a, g, b, h);
    DigitsBeforeDot(x, u);
    DigitsBeforeDot(y, v);
    assert x == (x + u)[..|x|] && y == (y + v)[..|y|];
    NatToStringInjective(a, b);
    CancelPrefix(x, u, v);
    assert u == "." + (g + ".js") && v == "." + (h + ".js");
    CancelPrefix(".", g + ".js", h + ".js");
    CancelSuffix(g, h, ".js");
  }

  /** Two equal JS paths agree after the directory part. */
  lemma {:induction false} JsPathTail(pp: string, a: nat, g: string, b: nat, h: string)
    requires JsPath(pp, a, g) == JsPath(pp, b, h)
    ensures NatToString(a) + ("." + g + ".js") == NatToString(b) + ("." + h + ".js")
  {
    var x, y := NatToString(a), NatToString(b);
    var u, v := "." + g + ".js", "." + h + ".js";
    assert "static/js/" + x + "." + g + ".js" == "static/js/" + (x + u);
    assert "static/js/" + y + "." + h + ".js" == "static/js/" + (y + v);
    CancelPrefix(pp, "static/js/" + (x + u), "static/js/" + (y + v));
    CancelPrefix("static/js/", x + u, y + v);
  }

  /** Deduplication loses no JS chunk: distinct chunks have distinct URLs. */
  lemma {:induction false} JsUrlsDistinct(origin: string, pp: string, js: map<nat, string>, i: nat, j: nat)
    requires i < j < |JsUrls(origin, pp, js)|
    ensures JsUrls(origin, pp, js)[i] != JsUrls(origin, pp, js)[j]
  {
    var ids := SortedIds(js.Keys);
    var ju := JsUrls(origin, pp, js);
    if ju[i] == ju[j] {
      assert JsPath(pp, ids[i], js[ids[i]]) == ju[i][|origin|..];
      assert JsPath(pp, ids[j], js[ids[j]]) == ju[j][|origin|..];
      JsPathInjective(pp, ids[i], js[ids[i]], ids[j], js[ids[j]]);
    }
  }

  lemma {:induction false} PrefixOfNested(x: string, y: string, z: string)
    ensures StartsWith(x + (y + ("static/" + z)), x + y + "static/")
  {
    assert x + (y + ("static/" + z)) == (x + y + "static/") + z;
  }

  lemma {:induction false} JsUnderStatic(origin: string, pp: string, id: nat, hash: string)
    ensures StartsWith(origin + JsPath(pp, id, hash), origin + pp + "static/")
  {
    var rest := "js/" + NatToString(id) + "." + hash + ".js";
    assert "static/js/" + NatToString(id) + "." + hash + ".js" == "static/" + rest;
    PrefixOfNested(origin, pp, rest);
  }

  lemma {:induction false} CssUnderStatic(origin: string, pp: string, name: string, hash: string)
    ensures StartsWith(origin + CssPath(pp, name, hash), origin + pp + "static/")
  {
    var rest := "css/" + name + "." + hash + ".css";
    assert "static/css/" + name + "." + hash + ".css" == "static/" + rest;
    PrefixOfNested(origin, pp, rest);
  }

  /** Every target lies under the origin, at a path that begins with the public path and `static/`. */
  lemma {:induction false} TargetsUnderOrigin(origin: string, pp: string, js: map<nat, string>, names: map<nat, string>, css: map<nat, string>, u: string)
    requires u in TargetList(origin, pp, js, names, css)
    ensures StartsWith(u, origin + pp + "static/")
  {
    TargetListMembers(origin, pp, js, names, css, u);
    if IsJsTarget(origin, pp, js, u) {
      var id :| id in js && u == origin + JsPath(pp, id, js[id]);
      JsUnderStatic(origin, pp, id, js[id]);
    } else {
      var id :| id in css && u == origin + CssPath(pp, CssName(names, id), css[id]);
      CssUnderStatic(origin, pp, CssName(names, id), css[id]);
    }
  }

  /** The whole list lies under the origin and the public path. */
  lemma {:induction false} TargetListUnder(origin: string, pp: string, js: map<nat, string>, names: map<nat, string>, css: map<nat, string>)
    ensures var ts := TargetList(origin, pp, js, names, css);
      forall j :: 0 <= j < |ts| ==> StartsWith(ts[j], origin + pp + "static/")
  {
    var ts := TargetList(origin, pp, js, names, css);
    forall j | 0 <= j < |ts|
      ensures StartsWith(ts[j], origin + pp + "static/")
    {
      TargetsUnderOrigin(origin, pp, js, names, css, ts[j]);
    }
  }
}
