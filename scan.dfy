/**
 * Hand-written scanners for the regular expressions the scripts apply to the
 * webpack runtime text.
 *
 * A pattern `prefix .*? mid (.*?) suffix` under `re.DOTALL` is searched the way
 * Python's backtracking engine does: the match returned is the least
 * (prefix position, mid position, suffix position) in lexicographic order,
 * because the engine tries start positions left to right and each lazy `.*?`
 * tries the shortest extent first.  `re.findall` of the key/value pattern is a
 * left-to-right scan that resumes after each match and skips one character
 * where nothing matches.
 */
module Scan {
  import opened Outcomes
  import opened Text

  predicate LiteralAt(s: string, i: nat, lit: string) {
    i + |lit| <= |s| && s[i..i + |lit|] == lit
  }

  /** The closing part of a pattern: `head`, then `\s*`, then `tail`. */
  datatype Anchor = Anchor(head: string, tail: string)

  /** `\s*` is greedy; it cannot give back characters usefully when `tail` starts with a non-space. */
  predicate AnchorAt(s: string, k: nat, a: Anchor) {
    && LiteralAt(s, k, a.head)
    && LiteralAt(s, k + |a.head| + Span(s[k + |a.head|..], Space), a.tail)
  }

  /**
   * `prefix .*? mid (.*?) suffix`.  An empty `mid` stands for a pattern whose
   * capture group follows `prefix` directly.
   */
  datatype Pattern = Pattern(prefix: string, mid: string, suffix: Anchor)

  /** Positions of one match: `prefix` at `p`, `mid` at `q`, `suffix` at `k`. */
  datatype Match = Match(p: nat, q: nat, k: nat)

  /** Where a leftmost search found its literal or anchor, if anywhere. */
  datatype Pos = NotFound | At(at: nat)

  /** What `re.search` finds: nothing, or the positions of the preferred match. */
  datatype Searched = NoMatch | Matched(m: Match)

  predicate IsMatch(s: string, pat: Pattern, p: nat, q: nat, k: nat) {
    && LiteralAt(s, p, pat.prefix)
    && p + |pat.prefix| <= q && LiteralAt(s, q, pat.mid)
    && q + |pat.mid| <= k && AnchorAt(s, k, pat.suffix)
  }

  /** The order in which the regular-expression engine prefers matches. */
  predicate Precedes(m: Match, p: nat, q: nat, k: nat) {
    m.p < p || (m.p == p && (m.q < q || (m.q == q && m.k <= k)))
  }

  /** Leftmost occurrence of `lit` at or after `from`. */
  function FindLiteral(s: string, lit: string, from: nat): (r: Pos)
    ensures r.At? ==> from <= r.at && LiteralAt(s, r.at, lit)
    ensures r.At? ==> forall j :: from <= j < r.at ==> !LiteralAt(s, j, lit)
    ensures r.NotFound? ==> forall j :: from <= j ==> !LiteralAt(s, j, lit)
    decreases |s| - from
  {
    if from + |lit| > |s| then NotFound
    else if s[from..from + |lit|] == lit then At(from)
    else FindLiteral(s, lit, from + 1)
  }

  /** Leftmost position at or after `from` where the anchor matches. */
  function FindAnchor(s: string, a: Anchor, from: nat): (r: Pos)
    ensures r.At? ==> from <= r.at && AnchorAt(s, r.at, a)
    ensures r.At? ==> forall j :: from <= j < r.at ==> !AnchorAt(s, j, a)
    ensures r.NotFound? ==> forall j :: from <= j ==> !AnchorAt(s, j, a)
    decreases |s| - from
  {
    if from + |a.head| > |s| then NotFound
    else if AnchorAt(s, from, a) then At(from)
    else FindAnchor(s, a, from + 1)
  }

  /** `re.search(pat, s, re.DOTALL)`: the preferred match, or none when the pattern does not occur. */
  function Search(s: string, pat: Pattern): Searched {
    match FindLiteral(s, pat.prefix, 0)
    case NotFound => NoMatch
    case At(p) =>
      match FindLiteral(s, pat.mid, p + |pat.prefix|)
      case NotFound => NoMatch
      case At(q) =>
        match FindAnchor(s, pat.suffix, q + |pat.mid|)
        case NotFound => NoMatch
        case At(k) => Matched(Match(p, q, k))
  }

  /** The match Search reports is a match, and the engine prefers it to every other. */
  lemma {:induction false} SearchIsLeastMatch(s: string, pat: Pattern)
    ensures Search(s, pat).Matched? ==> IsMatch(s, pat, Search(s, pat).m.p, Search(s, pat).m.q, Search(s, pat).m.k)
    ensures Search(s, pat).Matched? ==> forall p, q, k :: IsMatch(s, pat, p, q, k) ==> Precedes(Search(s, pat).m, p, q, k)
  {
  }

  /** Search reports nothing exactly when the pattern occurs nowhere. */
  lemma {:induction false} SearchNoneIff(s: string, pat: Pattern)
    ensures Search(s, pat).NoMatch? <==> forall p, q, k :: !IsMatch(s, pat, p, q, k)
  {
    SearchIsLeastMatch(s, pat);
  }

  /** The text of the capture group `(.*?)` of a match. */
  function Capture(s: string, pat: Pattern, m: Match): string
    requires IsMatch(s, pat, m.p, m.q, m.k)
  {
    s[m.q + |pat.mid|..m.k]
  }

  /** `m.group(1)` of `re.search`, if the pattern occurs. */
  function SearchGroup(s: string, pat: Pattern): Option<string> {
    SearchIsLeastMatch(s, pat);
    match Search(s, pat)
    case NoMatch => None
    case Matched(m) => Some(Capture(s, pat, m))
  }

  /** `re.search` yields no group exactly when the pattern occurs nowhere. */
  lemma {:induction false} SearchGroupNoneIff(s: string, pat: Pattern)
    ensures SearchGroup(s, pat).None? <==> forall p, q, k :: !IsMatch(s, pat, p, q, k)
  {
    SearchNoneIff(s, pat);
  }

  /** A literal found at `a`, where no earlier position from `from` holds its first character, is leftmost. */
  lemma {:induction false} FindLiteralAt(s: string, lit: string, from: nat, a: nat)
    requires lit != [] && from <= a && LiteralAt(s, a, lit)
    requires forall j :: from <= j < a ==> s[j] != lit[0]
    ensures FindLiteral(s, lit, from) == At(a)
  {
    forall j | from <= j < a
      ensures !LiteralAt(s, j, lit)
    {
      assert j + |lit| <= |s| ==> s[j..j + |lit|][0] == s[j];
    }
  }

  /** An anchor found at `a`, where no earlier position from `from` holds its first character, is leftmost. */
  lemma {:induction false} FindAnchorAt(s: string, anc: Anchor, from: nat, a: nat)
    requires anc.head != [] && from <= a && AnchorAt(s, a, anc)
    requires forall j :: from <= j < a ==> s[j] != anc.head[0]
    ensures FindAnchor(s, anc, from) == At(a)
  {
    forall j | from <= j < a
      ensures !AnchorAt(s, j, anc)
    {
      assert j + |anc.head| <= |s| ==> s[j..j + |anc.head|][0] == s[j];
    }
  }

  /**
   * The match `re.search` reports when the pattern's parts lie at `p`, `q`
   * and `k` and nothing before each of them could start that part.
   */
  lemma {:induction false} SearchAt(s: string, pat: Pattern, p: nat, q: nat, k: nat)
    requires pat.prefix != [] && pat.suffix.head != []
    requires IsMatch(s, pat, p, q, k)
    requires forall j :: 0 <= j < p ==> s[j] != pat.prefix[0]
    requires pat.mid == [] ==> q == p + |pat.prefix|
    requires pat.mid != [] ==> forall j :: p + |pat.prefix| <= j < q ==> s[j] != pat.mid[0]
    requires forall j :: q + |pat.mid| <= j < k ==> s[j] != pat.suffix.head[0]
    ensures Search(s, pat) == Matched(Match(p, q, k))
  {
    FindLiteralAt(s, pat.prefix, 0, p);
    if pat.mid == [] {
      FindEmpty(s, p + |pat.prefix|);
    } else {
      FindLiteralAt(s, pat.mid, p + |pat.prefix|, q);
    }
    FindAnchorAt(s, pat.suffix, q + |pat.mid|, k);
    SearchOfParts(s, pat, p, q, k);
  }

  /** The empty literal occurs wherever the text has not ended. */
  lemma {:induction false} FindEmpty(s: string, from: nat)
    requires from <= |s|
    ensures FindLiteral(s, [], from) == At(from)
  {
    assert s[from..from] == [];
  }

  /** Search reports the match its three leftmost searches find. */
  lemma {:induction false} SearchOfParts(s: string, pat: Pattern, p: nat, q: nat, k: nat)
    requires FindLiteral(s, pat.prefix, 0) == At(p)
    requires FindLiteral(s, pat.mid, p + |pat.prefix|) == At(q)
    requires FindAnchor(s, pat.suffix, q + |pat.mid|) == At(k)
    ensures Search(s, pat) == Matched(Match(p, q, k))
  {
  }

  /** A text cut into consecutive pieces. */
  function Concat(pieces: seq<string>): string {
    if pieces == [] then [] else pieces[0] + Concat(pieces[1..])
  }

  /** Where piece `n` starts in `Concat(pieces)`. */
  function Offset(pieces: seq<string>, n: nat): nat
    requires n <= |pieces|
  {
    if n == 0 then 0 else |pieces[0]| + Offset(pieces[1..], n - 1)
  }

  /** Each piece starts where the one before it ends. */
  lemma {:induction false} OffsetNext(pieces: seq<string>, n: nat)
    requires n < |pieces|
    ensures Offset(pieces, n + 1) == Offset(pieces, n) + |pieces[n]|
  {
    if n > 0 {
      OffsetNext(pieces[1..], n - 1);
    }
  }

  /** Character `t` of piece `n` lies at the piece's offset plus `t`. */
  lemma {:induction false} PieceChar(pieces: seq<string>, n: nat, t: nat)
    requires n < |pieces| && t < |pieces[n]|
    ensures Offset(pieces, n) + t < |Concat(pieces)|
    ensures Concat(pieces)[Offset(pieces, n) + t] == pieces[n][t]
  {
    assert Concat(pieces) == pieces[0] + Concat(pieces[1..]);
    if n > 0 {
      PieceChar(pieces[1..], n - 1, t);
      assert pieces[1..][n - 1] == pieces[n];
    }
  }

  /** Piece `n` ends within the text. */
  lemma {:induction false} PieceEnd(pieces: seq<string>, n: nat)
    requires n < |pieces|
    ensures Offset(pieces, n) + |pieces[n]| <= |Concat(pieces)|
  {
    assert Concat(pieces) == pieces[0] + Concat(pieces[1..]);
    if n > 0 {
      PieceEnd(pieces[1..], n - 1);
      assert pieces[1..][n - 1] == pieces[n];
    }
  }

  /** Piece `n` lies at its offset. */
  lemma {:induction false} PieceAt(pieces: seq<string>, n: nat)
    requires n < |pieces|
    ensures LiteralAt(Concat(pieces), Offset(pieces, n), pieces[n])
  {
    PieceEnd(pieces, n);
    forall t | 0 <= t < |pieces[n]|
      ensures Concat(pieces)[Offset(pieces, n) + t] == pieces[n][t]
    {
      PieceChar(pieces, n, t);
    }
    LiteralOfChars(Concat(pieces), Offset(pieces, n), pieces[n]);
  }

  /** A literal whose characters lie one by one at `i` lies at `i`. */
  lemma {:induction false} LiteralOfChars(s: string, i: nat, w: string)
    requires i + |w| <= |s|
    requires forall t :: 0 <= t < |w| ==> s[i + t] == w[t]
    ensures LiteralAt(s, i, w)
  {
    assert forall t :: 0 <= t < |w| ==> s[i..i + |w|][t] == w[t];
  }

  /** An anchor whose head and tail lie at `k` matches there when its tail cannot start with a space. */
  lemma {:induction false} AnchorAtLayout(s: string, k: nat, a: Anchor)
    requires LiteralAt(s, k, a.head + a.tail)
    requires a.tail == [] || !In(a.tail[0], Space)
    ensures AnchorAt(s, k, a)
  {
    var h := k + |a.head|;
    SliceOfSlice(s, k, h + |a.tail|, 0, |a.head|);
    SliceOfSlice(s, k, h + |a.tail|, |a.head|, |a.head| + |a.tail|);
    assert (a.head + a.tail)[|a.head|..] == a.tail;
    if a.tail != [] {
      assert s[h..][0] == a.tail[0];
    }
  }

  /** The offsets at which the pieces of a text start, and its length last. */
  lemma {:induction false} Cuts(pieces: seq<string>) returns (o: seq<nat>)
    ensures |o| == |pieces| + 1 && o[0] == 0 && o[|pieces|] == |Concat(pieces)|
    ensures forall n :: 0 <= n < |pieces| ==> o[n + 1] == o[n] + |pieces[n]|
    ensures forall n :: 0 <= n < |pieces| ==> LiteralAt(Concat(pieces), o[n], pieces[n])
  {
    o := seq(|pieces| + 1, n requires 0 <= n <= |pieces| => Offset(pieces, n));
    forall n | 0 <= n < |pieces|
      ensures o[n + 1] == o[n] + |pieces[n]|
      ensures LiteralAt(Concat(pieces), o[n], pieces[n])
    {
      OffsetNext(pieces, n);
      PieceAt(pieces, n);
    }
    ConcatLength(pieces);
  }

  lemma {:induction false} ConcatLength(pieces: seq<string>)
    ensures Offset(pieces, |pieces|) == |Concat(pieces)|
  {
    if pieces != [] {
      ConcatLength(pieces[1..]);
    }
  }

  /** Seven pieces in a row. */
  lemma {:induction false} Concat7(a: string, b: string, c: string, d: string, e: string, f: string, g: string)
    ensures Concat([a, b, c, d, e, f, g]) == a + b + c + d + e + f + g
  {
    assert [g][1..] == [];
    assert [f, g][1..] == [g];
    assert [e, f, g][1..] == [f, g];
    assert [d, e, f, g][1..] == [e, f, g];
    assert [c, d, e, f, g][1..] == [d, e, f, g];
    assert [b, c, d, e, f, g][1..] == [c, d, e, f, g];
    assert [a, b, c, d, e, f, g][1..] == [b, c, d, e, f, g];
    assert Concat([g]) == g + [] == g;
    assert Concat([f, g]) == f + g;
    assert Concat([e, f, g]) == e + (f + g);
    assert Concat([d, e, f, g]) == d + (e + (f + g));
    assert Concat([c, d, e, f, g]) == c + (d + (e + (f + g)));
    assert Concat([b, c, d, e, f, g]) == b + (c + (d + (e + (f + g))));
  }

  /** A character absent from a literal occurs nowhere in its stretch of the text. */
  lemma {:induction false} LiteralAvoids(s: string, i: nat, w: string, c: char)
    requires LiteralAt(s, i, w) && c !in w
    ensures forall j :: i <= j < i + |w| ==> s[j] != c
  {
    assert forall j :: i <= j < i + |w| ==> s[j] == w[j - i];
  }

  /**
   * In `lead prefix gap mid table head tail rest`, the pattern captures `table`
   * when nothing before each part could start it.
   */
  lemma {:induction false} SearchGroupOfLayout(pieces: seq<string>, pat: Pattern)
    requires |pieces| == 7 && pieces[1] == pat.prefix && pieces[3] == pat.mid
    requires pieces[5] == pat.suffix.head + pat.suffix.tail
    requires pat.prefix != [] && pat.suffix.head != []
    requires pat.suffix.tail == [] || !In(pat.suffix.tail[0], Space)
    requires pat.prefix[0] !in pieces[0]
    requires pat.mid == [] ==> pieces[2] == []
    requires pat.mid != [] ==> pat.mid[0] !in pieces[2]
    requires pat.suffix.head[0] !in pieces[4]
    ensures SearchGroup(Concat(pieces), pat) == Some(pieces[4])
  {
    var o := Cuts(pieces);
    assert LiteralAt(Concat(pieces), o[0], pieces[0]) && o[1] == o[0] + |pieces[0]|;
    assert LiteralAt(Concat(pieces), o[1], pieces[1]) && o[2] == o[1] + |pieces[1]|;
    assert LiteralAt(Concat(pieces), o[2], pieces[2]) && o[3] == o[2] + |pieces[2]|;
    assert LiteralAt(Concat(pieces), o[3], pieces[3]) && o[4] == o[3] + |pieces[3]|;
    assert LiteralAt(Concat(pieces), o[4], pieces[4]) && o[5] == o[4] + |pieces[4]|;
    assert LiteralAt(Concat(pieces), o[5], pieces[5]);
    SearchGroupOfPlacedPieces(Concat(pieces), pat, pieces[0], pieces[2], pieces[4], o[2], o[4], o[5]);
  }

  /** The layout above, written as one text: the pattern's pieces with `gap` and `table` between them. */
  lemma {:induction false} SearchGroupOfText(lead: string, pat: Pattern, gap: string, table: string, text: string, rest: string)
    requires text == pat.prefix + gap + pat.mid + table + (pat.suffix.head + pat.suffix.tail)
    requires pat.prefix != [] && pat.suffix.head != []
    requires pat.suffix.tail == [] || !In(pat.suffix.tail[0], Space)
    requires pat.prefix[0] !in lead
    requires pat.mid == [] ==> gap == []
    requires pat.mid != [] ==> pat.mid[0] !in gap
    requires pat.suffix.head[0] !in table
    ensures SearchGroup(lead + text + rest, pat) == Some(table)
  {
    var close := pat.suffix.head + pat.suffix.tail;
    var ps := [lead, pat.prefix, gap, pat.mid, table, close, rest];
    Concat7(lead, pat.prefix, gap, pat.mid, table, close, rest);
    assert Concat(ps) == lead + (pat.prefix + gap + pat.mid + table + close) + rest;
    SearchGroupOfLayout(ps, pat);
  }

  /** The same, for a text where the pieces are known to lie at consecutive offsets. */
  lemma {:induction false} SearchGroupOfPlacedPieces(s: string, pat: Pattern, lead: string, gap: string, table: string, a: nat, b: nat, c: nat)
    requires pat.prefix != [] && pat.suffix.head != []
    requires pat.suffix.tail == [] || !In(pat.suffix.tail[0], Space)
    requires LiteralAt(s, 0, lead) && LiteralAt(s, |lead|, pat.prefix) && a == |lead| + |pat.prefix|
    requires LiteralAt(s, a, gap) && LiteralAt(s, a + |gap|, pat.mid) && b == a + |gap| + |pat.mid|
    requires LiteralAt(s, b, table) && c == b + |table| && LiteralAt(s, c, pat.suffix.head + pat.suffix.tail)
    requires pat.prefix[0] !in lead
    requires pat.mid == [] ==> gap == []
    requires pat.mid != [] ==> pat.mid[0] !in gap
    requires pat.suffix.head[0] !in table
    ensures SearchGroup(s, pat) == Some(table)
  {
    PlacedSearch(s, pat, lead, gap, table, a, b, c);
    SearchGroupOfSearch(s, pat, |lead|, a + |gap|, c, b, table);
  }

  /** The match a placed layout yields is the first one. */
  lemma {:induction false} PlacedSearch(s: string, pat: Pattern, lead: string, gap: string, table: string, a: nat, b: nat, c: nat)
    requires pat.prefix != [] && pat.suffix.head != []
    requires pat.suffix.tail == [] || !In(pat.suffix.tail[0], Space)
    requires LiteralAt(s, 0, lead) && LiteralAt(s, |lead|, pat.prefix) && a == |lead| + |pat.prefix|
    requires LiteralAt(s, a, gap) && LiteralAt(s, a + |gap|, pat.mid) && b == a + |gap| + |pat.mid|
    requires LiteralAt(s, b, table) && c == b + |table| && LiteralAt(s, c, pat.suffix.head + pat.suffix.tail)
    requires pat.prefix[0] !in lead
    requires pat.mid == [] ==> gap == []
    requires pat.mid != [] ==> pat.mid[0] !in gap
    requires pat.suffix.head[0] !in table
    ensures Search(s, pat) == Matched(Match(|lead|, a + |gap|, c))
  {
    PlacedIsMatch(s, pat, lead, gap, table, a, b, c);
    PlacedAvoids(s, pat, lead, gap, table, a, b);
    SearchAt(s, pat, |lead|, a + |gap|, c);
  }

  /** The placed parts form a match. */
  lemma {:induction false} PlacedIsMatch(s: string, pat: Pattern, lead: string, gap: string, table: string, a: nat, b: nat, c: nat)
    requires pat.suffix.tail == [] || !In(pat.suffix.tail[0], Space)
    requires LiteralAt(s, |lead|, pat.prefix) && a == |lead| + |pat.prefix|
    requires LiteralAt(s, a + |gap|, pat.mid) && b == a + |gap| + |pat.mid|
    requires c == b + |table| && LiteralAt(s, c, pat.suffix.head + pat.suffix.tail)
    ensures IsMatch(s, pat, |lead|, a + |gap|, c)
  {
    AnchorAtLayout(s, c, pat.suffix);
  }

  /** Nothing before each placed part could start it. */
  lemma {:induction false} PlacedAvoids(s: string, pat: Pattern, lead: string, gap: string, table: string, a: nat, b: nat)
    requires pat.prefix != [] && pat.suffix.head != []
    requires LiteralAt(s, 0, lead) && a == |lead| + |pat.prefix|
    requires LiteralAt(s, a, gap) && b == a + |gap| + |pat.mid| && LiteralAt(s, b, table)
    requires pat.prefix[0] !in lead
    requires pat.mid != [] ==> pat.mid[0] !in gap
    requires pat.suffix.head[0] !in table
    ensures forall j :: 0 <= j < |lead| ==> s[j] != pat.prefix[0]
    ensures pat.mid != [] ==> forall j :: |lead| + |pat.prefix| <= j < a + |gap| ==> s[j] != pat.mid[0]
    ensures forall j :: a + |gap| + |pat.mid| <= j < b + |table| ==> s[j] != pat.suffix.head[0]
  {
    LiteralAvoids(s, 0, lead, pat.prefix[0]);
    if pat.mid != [] {
      LiteralAvoids(s, a, gap, pat.mid[0]);
    }
    LiteralAvoids(s, b, table, pat.suffix.head[0]);
  }

  lemma {:induction false} SearchGroupOfSearch(s: string, pat: Pattern, p: nat, q: nat, k: nat, b: nat, w: string)
    requires Search(s, pat) == Matched(Match(p, q, k))
    requires b == q + |pat.mid| && LiteralAt(s, b, w) && k == b + |w|
    ensures SearchGroup(s, pat) == Some(w)
  {
  }


  // ---------------------------------------------------------------------
  // re.findall(r'(\d+)\s*:\s*"(<value>)"', body)

  /** `[0-9a-f]{8,}` for hash tables, `[^"]+` for the name-override table. */
  datatype ValueKind = HexToken | QuotedText

  function ValueClass(v: ValueKind): CharClass {
    match v
    case HexToken => LowerHex
    case QuotedText => NotDoubleQuote
  }

  function MinLength(v: ValueKind): nat {
    match v
    case HexToken => 8
    case QuotedText => 1
  }

  predicate ValidValue(value: string, v: ValueKind) {
    |value| >= MinLength(v) && AllIn(value, ValueClass(v))
  }

  /** The two groups of one match: the digit run and the quoted value. */
  datatype Pair = Pair(key: string, value: string)

  /** The match of the key/value pattern at one offset, with the offset just after it, if any. */
  datatype Scanned = NoPair | Scanned(pair: Pair, end: nat)

  predicate WellFormed(pair: Pair, v: ValueKind) {
    pair.key != [] && AllIn(pair.key, Digit) && ValidValue(pair.value, v)
  }

  /** The position after the longest run of `cls` characters that starts at `i`. */
  function Skip(s: string, i: nat, cls: CharClass): (e: nat)
    requires i <= |s|
    ensures i <= e <= |s|
    ensures forall t :: i <= t < e ==> InAt(s, t, cls)
    ensures e == |s| || !In(s[e], cls)
    decreases |s| - i
  {
    if i == |s| || !In(s[i], cls) then i else Skip(s, i + 1, cls)
  }

  /** The character at offset `t` of `s` is in `cls`. */
  predicate InAt(s: string, t: nat, cls: CharClass) {
    t < |s| && In(s[t], cls)
  }

  /** Every character of the run `Skip` passes over is in the class. */
  lemma {:induction false} SkipCovers(s: string, i: nat, cls: CharClass)
    requires i <= |s|
    ensures forall t :: i <= t < Skip(s, i, cls) ==> In(s[t], cls)
  {
    var e := Skip(s, i, cls);
    forall t | i <= t < e
      ensures In(s[t], cls)
    {
      assert InAt(s, t, cls);
    }
  }

  /** The run `Skip` passes over, as a slice, is all in the class. */
  lemma {:induction false} SkipAllIn(s: string, i: nat, cls: CharClass)
    requires i <= |s|
    ensures AllIn(s[i..Skip(s, i, cls)], cls)
  {
    var e := Skip(s, i, cls);
    forall k | 0 <= k < e - i
      ensures In(s[i..e][k], cls)
    {
      assert InAt(s, i + k, cls);
    }
  }

  /**
   * The match of the key/value pattern that starts at offset `i` of `s`, with
   * the offset just after it.  Each run is maximal: the character after a
   * digit run, a space run or a value run is outside the run's class, so
   * backtracking into a run can never produce a match.
   */
  function PairAt(s: string, i: nat, v: ValueKind): (r: Scanned)
    requires i <= |s|
    ensures r.Scanned? ==> WellFormed(r.pair, v)
    ensures r.Scanned? ==>
      && i + |r.pair.key| + |r.pair.value| + 3 <= r.end <= |s|
      && LiteralAt(s, i, r.pair.key)
      && LiteralAt(s, r.end - 1 - |r.pair.value|, r.pair.value)
      && s[r.end - 1] == '"' && s[r.end - 2 - |r.pair.value|] == '"'
  {
    var d := Skip(s, i, Digit);
    var c := Skip(s, d, Space);
    if d == i || c == |s| || s[c] != ':' then NoPair
    else
      var q := Skip(s, c + 1, Space);
      if q == |s| || s[q] != '"' then NoPair
      else
        var e := Skip(s, q + 1, ValueClass(v));
        if e - (q + 1) < MinLength(v) || e == |s| || s[e] != '"' then NoPair
        else
          SkipAllIn(s, i, Digit);
          SkipAllIn(s, q + 1, ValueClass(v));
          Scanned(Pair(s[i..d], s[q + 1..e]), e + 1)
  }

  /** `re.findall` of the key/value pattern on `s[i..]`: every match, left to right, without overlap. */
  function FindAllFrom(s: string, i: nat, v: ValueKind): (r: seq<Pair>)
    requires i <= |s|
    decreases |s| - i
  {
    if i == |s| then []
    else
      var r := PairAt(s, i, v);
      if r.Scanned? then [r.pair] + FindAllFrom(s, r.end, v)
      else FindAllFrom(s, i + 1, v)
  }

  /** `re.findall` of the key/value pattern over the whole span. */
  function FindAll(s: string, v: ValueKind): seq<Pair> {
    FindAllFrom(s, 0, v)
  }

  /** The pair is the match of the key/value pattern at offset `i` of `s`. */
  ghost predicate MatchedAt(s: string, v: ValueKind, i: nat, pair: Pair) {
    i < |s| && PairAt(s, i, v).Scanned? && PairAt(s, i, v).pair == pair
  }

  /**
   * `(\d+)\s*:\s*"(<value>)"` spelled out at offset `i`: digits up to `d`,
   * spaces up to the colon at `c`, spaces up to the opening quote at `q`, value
   * characters up to the closing quote at `e`.
   */
  ghost predicate PairMatch(s: string, v: ValueKind, i: nat, d: nat, c: nat, q: nat, e: nat) {
    && i < d <= c < q < e < |s|
    && (forall t :: i <= t < d ==> In(s[t], Digit))
    && (forall t :: d <= t < c ==> In(s[t], Space))
    && s[c] == ':'
    && (forall t :: c + 1 <= t < q ==> In(s[t], Space))
    && s[q] == '"'
    && e - (q + 1) >= MinLength(v)
    && (forall t :: q + 1 <= t < e ==> In(s[t], ValueClass(v)))
    && s[e] == '"'
  }

  /**
   * A match of the pattern at `i` is the one PairAt reports: the character
   * after each run lies outside the run's class, so the runs are maximal.
   */
  lemma {:induction false} PairMatchScanned(s: string, v: ValueKind, i: nat, d: nat, c: nat, q: nat, e: nat)
    requires PairMatch(s, v, i, d, c, q, e)
    ensures PairAt(s, i, v) == Scanned(Pair(s[i..d], s[q + 1..e]), e + 1)
  {
    assert Skip(s, i, Digit) == d by {
      SkipRun(s, i, d, Digit);
    }
    assert Skip(s, d, Space) == c by {
      SkipRun(s, d, c, Space);
    }
    assert Skip(s, c + 1, Space) == q by {
      SkipRun(s, c + 1, q, Space);
    }
    assert Skip(s, q + 1, ValueClass(v)) == e by {
      SkipRun(s, q + 1, e, ValueClass(v));
    }
    PairAtOfRuns(s, v, i, d, c, q, e, Pair(s[i..d], s[q + 1..e]));
  }

  lemma {:induction false} PairAtOfRuns(s: string, v: ValueKind, i: nat, d: nat, c: nat, q: nat, e: nat, pair: Pair)
    requires i < d <= c < q < e < |s| && s[c] == ':' && s[q] == '"' && s[e] == '"' && e - (q + 1) >= MinLength(v)
    requires Skip(s, i, Digit) == d && Skip(s, d, Space) == c
    requires Skip(s, c + 1, Space) == q && Skip(s, q + 1, ValueClass(v)) == e
    requires s[i..d] == pair.key && s[q + 1..e] == pair.value
    ensures PairAt(s, i, v) == Scanned(pair, e + 1)
  {
  }

  /** The pattern matches nowhere at offset `i`. */
  ghost predicate NoMatchAt(s: string, v: ValueKind, i: nat) {
    forall d: nat, c: nat, q: nat, e: nat :: !PairMatch(s, v, i, d, c, q, e)
  }

  /** PairAt reports nothing exactly when the pattern does not match at `i`. */
  lemma {:induction false} PairAtNoneIff(s: string, i: nat, v: ValueKind)
    requires i <= |s|
    ensures PairAt(s, i, v).NoPair? <==> NoMatchAt(s, v, i)
  {
    if PairAt(s, i, v).Scanned? {
      PairAtIsMatch(s, i, v);
    } else {
      forall d: nat, c: nat, q: nat, e: nat
        ensures !PairMatch(s, v, i, d, c, q, e)
      {
        if PairMatch(s, v, i, d, c, q, e) {
          PairMatchScanned(s, v, i, d, c, q, e);
        }
      }
    }
  }

  /** What PairAt reports is a match of the pattern at `i`, with its two groups and its end. */
  lemma {:induction false} PairAtIsMatch(s: string, i: nat, v: ValueKind)
    requires i <= |s| && PairAt(s, i, v).Scanned?
    ensures exists d: nat, c: nat, q: nat, e: nat :: PairMatch(s, v, i, d, c, q, e)
              && PairAt(s, i, v) == Scanned(Pair(s[i..d], s[q + 1..e]), e + 1)
  {
    var d, c, q, e := ScannedRuns(s, i, v);
    RunsMatch(s, v, i, d, c, q, e);
  }

  /** When PairAt reports a pair, its runs end where the pattern needs them to. */
  lemma {:induction false} ScannedRuns(s: string, i: nat, v: ValueKind) returns (d: nat, c: nat, q: nat, e: nat)
    requires i <= |s| && PairAt(s, i, v).Scanned?
    ensures i < d <= c < q < e < |s| && s[c] == ':' && s[q] == '"' && s[e] == '"' && e - (q + 1) >= MinLength(v)
    ensures d == Skip(s, i, Digit) && c == Skip(s, d, Space)
    ensures q == Skip(s, c + 1, Space) && e == Skip(s, q + 1, ValueClass(v))
    ensures PairAt(s, i, v) == Scanned(Pair(s[i..d], s[q + 1..e]), e + 1)
  {
    d := Skip(s, i, Digit);
    c := Skip(s, d, Space);
    q := Skip(s, c + 1, Space);
    e := Skip(s, q + 1, ValueClass(v));
  }

  /** Maximal runs with the right separators between them are a match of the pattern. */
  lemma {:induction false} RunsMatch(s: string, v: ValueKind, i: nat, d: nat, c: nat, q: nat, e: nat)
    requires i < d <= c < q < e < |s| && s[c] == ':' && s[q] == '"' && s[e] == '"' && e - (q + 1) >= MinLength(v)
    requires d == Skip(s, i, Digit) && c == Skip(s, d, Space)
    requires q == Skip(s, c + 1, Space) && e == Skip(s, q + 1, ValueClass(v))
    ensures PairMatch(s, v, i, d, c, q, e)
  {
    SkipCovers(s, i, Digit);
    SkipCovers(s, d, Space);
    SkipCovers(s, c + 1, Space);
    SkipCovers(s, q + 1, ValueClass(v));
  }

  /** No match of the pattern starts at an offset in `[from, to)`. */
  ghost predicate NoMatchBetween(s: string, v: ValueKind, from: nat, to: nat) {
    forall j: nat :: from <= j < to ==> NoMatchAt(s, v, j)
  }

  /**
   * `re.findall` reports the first match that starts at or after the scan
   * position, and goes on scanning just after it: no match is skipped over.
   */
  lemma {:induction false} FindAllFromNext(s: string, v: ValueKind, from: nat, i: nat, d: nat, c: nat, q: nat, e: nat)
    requires from <= i && PairMatch(s, v, i, d, c, q, e)
    requires NoMatchBetween(s, v, from, i)
    ensures FindAllFrom(s, from, v) == [Pair(s[i..d], s[q + 1..e])] + FindAllFrom(s, e + 1, v)
  {
    MatchReported(s, v, i, d, c, q, e);
    FindAllFromSkips(s, v, from, i);
  }

  /** A match at the scan position is the first thing `re.findall` reports. */
  lemma {:induction false} MatchReported(s: string, v: ValueKind, i: nat, d: nat, c: nat, q: nat, e: nat)
    requires PairMatch(s, v, i, d, c, q, e)
    ensures FindAllFrom(s, i, v) == [Pair(s[i..d], s[q + 1..e])] + FindAllFrom(s, e + 1, v)
  {
    PairMatchScanned(s, v, i, d, c, q, e);
    FindAllFromAt(s, i, v, Pair(s[i..d], s[q + 1..e]), e + 1);
  }

  /** Offsets where the pattern matches nowhere are passed over. */
  lemma {:induction false} FindAllFromSkips(s: string, v: ValueKind, from: nat, i: nat)
    requires from <= i <= |s| && NoMatchBetween(s, v, from, i)
    ensures FindAllFrom(s, from, v) == FindAllFrom(s, i, v)
    decreases i - from
  {
    if from < i {
      assert NoMatchAt(s, v, from);
      NoMatchSkipped(s, v, from);
      FindAllFromSkips(s, v, from + 1, i);
    }
  }

  lemma {:induction false} NoMatchSkipped(s: string, v: ValueKind, from: nat)
    requires from < |s| && NoMatchAt(s, v, from)
    ensures FindAllFrom(s, from, v) == FindAllFrom(s, from + 1, v)
  {
    PairAtNoneIff(s, from, v);
    FindAllFromNoMatch(s, from, v);
  }

  /** With no match at or after the scan position, `re.findall` reports nothing more. */
  lemma {:induction false} FindAllFromNone(s: string, v: ValueKind, from: nat)
    requires from <= |s| && NoMatchBetween(s, v, from, |s|)
    ensures FindAllFrom(s, from, v) == []
  {
    FindAllFromSkips(s, v, from, |s|);
  }


  /**
   * Every pair `re.findall` reports is a match of the pattern at some offset
   * (returned as `at`) of the scanned text, at or after where scanning began.
   */
  lemma {:induction false} FindAllFromFoundInText(s: string, i: nat, v: ValueKind, j: nat, pair: Pair) returns (at: nat)
    requires i <= |s| && j < |FindAllFrom(s, i, v)| && pair == FindAllFrom(s, i, v)[j]
    ensures i <= at && MatchedAt(s, v, at, pair)
    decreases |s| - i
  {
    ScanLeftToDo(s, i, v);
    var r := PairAt(s, i, v);
    if r.NoPair? {
      assert j < |FindAllFrom(s, i + 1, v)| && pair == FindAllFrom(s, i + 1, v)[j] by {
        FoundAfterSkip(s, i, v, j);
      }
      at := FindAllFromFoundInText(s, i + 1, v, j, pair);
    } else if j == 0 {
      assert MatchedAt(s, v, i, pair) by {
        FoundHere(s, i, v);
      }
      at := i;
    } else {
      assert j - 1 < |FindAllFrom(s, r.end, v)| && pair == FindAllFrom(s, r.end, v)[j - 1] by {
        FoundLater(s, i, v, j);
      }
      at := FindAllFromFoundInText(s, r.end, v, j - 1, pair);
    }
  }

  /** A scan that reports something has not reached the end of the text. */
  lemma {:induction false} ScanLeftToDo(s: string, i: nat, v: ValueKind)
    requires i <= |s| && FindAllFrom(s, i, v) != []
    ensures i < |s|
  {
  }

  lemma {:induction false} FoundHere(s: string, i: nat, v: ValueKind)
    requires i < |s| && PairAt(s, i, v).Scanned?
    ensures 0 < |FindAllFrom(s, i, v)| && MatchedAt(s, v, i, FindAllFrom(s, i, v)[0])
  {
    assert FindAllFrom(s, i, v) == [PairAt(s, i, v).pair] + FindAllFrom(s, PairAt(s, i, v).end, v);
  }

  lemma {:induction false} FoundAfterSkip(s: string, i: nat, v: ValueKind, j: nat)
    requires i < |s| && PairAt(s, i, v).NoPair? && j < |FindAllFrom(s, i, v)|
    ensures j < |FindAllFrom(s, i + 1, v)| && FindAllFrom(s, i, v)[j] == FindAllFrom(s, i + 1, v)[j]
  {
  }

  lemma {:induction false} FoundLater(s: string, i: nat, v: ValueKind, j: nat)
    requires i < |s| && PairAt(s, i, v).Scanned? && 0 < j < |FindAllFrom(s, i, v)|
    ensures j - 1 < |FindAllFrom(s, PairAt(s, i, v).end, v)|
    ensures FindAllFrom(s, i, v)[j] == FindAllFrom(s, PairAt(s, i, v).end, v)[j - 1]
  {
  }

  /** Every pair in a parsed span was matched somewhere in that span. */
  lemma {:induction false} FindAllFoundInText(s: string, v: ValueKind, j: nat) returns (at: nat)
    requires j < |FindAll(s, v)|
    ensures MatchedAt(s, v, at, FindAll(s, v)[j])
  {
    at := FindAllFromFoundInText(s, 0, v, j, FindAll(s, v)[j]);
  }

  /** Every reported pair has a digit key and a value of the requested kind. */
  lemma {:induction false} FindAllWellFormed(s: string, v: ValueKind)
    ensures forall j :: 0 <= j < |FindAll(s, v)| ==> WellFormed(FindAll(s, v)[j], v)
  {
    forall j | 0 <= j < |FindAll(s, v)|
      ensures WellFormed(FindAll(s, v)[j], v)
    {
      var at := FindAllFoundInText(s, v, j);
    }
  }

  // ---------------------------------------------------------------------
  // {int(k): v for k, v in pairs}

  function Keyed(pairs: seq<Pair>): (r: seq<(nat, string)>)
    requires forall i :: 0 <= i < |pairs| ==> AllIn(pairs[i].key, Digit)
    ensures |r| == |pairs|
    ensures forall i :: 0 <= i < |r| ==> r[i] == (DigitsValue(pairs[i].key), pairs[i].value)
  {
    if pairs == [] then [] else [(DigitsValue(pairs[0].key), pairs[0].value)] + Keyed(pairs[1..])
  }

  /** No later entry of `entries` has the key of entry `j`. */
  ghost predicate LastWithKey(entries: seq<(nat, string)>, j: nat)
    requires j < |entries|
  {
    forall j' :: j < j' < |entries| ==> entries[j'].0 != entries[j].0
  }

  /** An entry that was last with its key stays last when an entry with another key follows. */
  lemma {:induction false} LastWithKeyExtend(entries: seq<(nat, string)>, j: nat)
    requires j + 1 < |entries| && LastWithKey(entries[..|entries| - 1], j)
    requires entries[|entries| - 1].0 != entries[j].0
    ensures LastWithKey(entries, j)
  {
    assert forall j' :: j < j' < |entries| - 1 ==> entries[..|entries| - 1][j'] == entries[j'];
  }

  /** A dict comprehension over `entries`: when a key repeats, the later entry wins. */
  function Dict(entries: seq<(nat, string)>): (m: map<nat, string>)
    ensures forall j :: 0 <= j < |entries| ==> entries[j].0 in m
    ensures forall k :: k in m ==> exists j :: 0 <= j < |entries| && entries[j].0 == k
                                     && m[k] == entries[j].1 && LastWithKey(entries, j)
  {
    if entries == [] then map[]
    else
      var init := entries[..|entries| - 1];
      var last := entries[|entries| - 1];
      var m := Dict(init)[last.0 := last.1];
      assert forall j :: 0 <= j < |init| ==> init[j] == entries[j];
      assert LastWithKey(entries, |entries| - 1);
      forall k | k in m
        ensures exists j :: 0 <= j < |entries| && entries[j].0 == k
                            && m[k] == entries[j].1 && LastWithKey(entries, j)
      {
        if k != last.0 {
          var j :| 0 <= j < |init| && init[j].0 == k && Dict(init)[k] == init[j].1 && LastWithKey(init, j);
          LastWithKeyExtend(entries, j);
        }
      }
      m
  }

  /** The table a span encodes: every well-formed key/value match, later duplicates winning. */
  function ParseTable(body: string, v: ValueKind): (m: map<nat, string>)
    ensures forall k :: k in m ==> ValidValue(m[k], v)
  {
    var pairs := FindAll(body, v);
    FindAllWellFormed(body, v);
    var entries := Keyed(pairs);
    var m := Dict(entries);
    assert forall k :: k in m ==> ValidValue(m[k], v) by {
      forall k | k in m ensures ValidValue(m[k], v) {
        var j :| 0 <= j < |entries| && entries[j].0 == k && m[k] == entries[j].1 && LastWithKey(entries, j);
        assert WellFormed(pairs[j], v);
      }
    }
    m
  }

  /**
   * Every id of a parsed table comes from the pair reported `j`-th, found at
   * offset `at` of the span, and no later reported pair has that id: for a
   * repeated id the last pair wins.
   */
  lemma {:induction false} ParseTableSource(body: string, v: ValueKind, id: nat) returns (j: nat, at: nat)
    requires id in ParseTable(body, v)
    ensures j < |FindAll(body, v)| && MatchedAt(body, v, at, FindAll(body, v)[j])
    ensures AllIn(FindAll(body, v)[j].key, Digit) && DigitsValue(FindAll(body, v)[j].key) == id
    ensures FindAll(body, v)[j].value == ParseTable(body, v)[id]
    ensures forall j' :: j < j' < |FindAll(body, v)| ==>
              AllIn(FindAll(body, v)[j'].key, Digit) && DigitsValue(FindAll(body, v)[j'].key) != id
  {
    var pairs := FindAll(body, v);
    FindAllWellFormed(body, v);
    var entries := Keyed(pairs);
    j :| 0 <= j < |entries| && entries[j].0 == id && Dict(entries)[id] == entries[j].1 && LastWithKey(entries, j);
    at := FindAllFoundInText(body, v, j);
  }

  /** Every id the scan reports is a key of the parsed table. */
  lemma {:induction false} ParseTableComplete(body: string, v: ValueKind, j: nat)
    requires j < |FindAll(body, v)|
    ensures AllIn(FindAll(body, v)[j].key, Digit) && DigitsValue(FindAll(body, v)[j].key) in ParseTable(body, v)
  {
    FindAllWellFormed(body, v);
    assert Keyed(FindAll(body, v))[j].0 == DigitsValue(FindAll(body, v)[j].key);
  }

  // ---------------------------------------------------------------------
  // Object-literal rendering, the inverse of ParseTable on well-formed tables

  /** One entry `id:"value"` as a minifier writes it. */
  function Entry(pair: Pair): string {
    pair.key + [':', '"'] + pair.value + ['"']
  }

  /** The body of an object literal `{id:"value",...}` (the text between the braces). */
  function Render(pairs: seq<Pair>): string
    decreases |pairs|
  {
    if pairs == [] then []
    else if |pairs| == 1 then Entry(pairs[0])
    else Entry(pairs[0]) + [','] + Render(pairs[1..])
  }

  /** The entries of a table with each id written in decimal. */
  function AsPairs(entries: seq<(nat, string)>): (r: seq<Pair>)
    ensures |r| == |entries|
    ensures forall j :: 0 <= j < |r| ==> r[j] == Pair(NatToString(entries[j].0), entries[j].1)
  {
    if entries == [] then [] else [Pair(NatToString(entries[0].0), entries[0].1)] + AsPairs(entries[1..])
  }

  /** A character outside a class does not occur in a string of that class. */
  lemma {:induction false} AvoidsClass(w: string, cls: CharClass, c: char)
    requires AllIn(w, cls) && !In(c, cls)
    ensures c !in w
  {
    assert forall t :: 0 <= t < |w| ==> w[t] != c;
  }

  /** A character that is no separator and occurs in no key or value does not occur in the rendering. */
  lemma {:induction false} RenderAvoids(pairs: seq<Pair>, c: char)
    requires c != ':' && c != '"' && c != ','
    requires forall j :: 0 <= j < |pairs| ==> c !in pairs[j].key && c !in pairs[j].value
    ensures c !in Render(pairs)
    decreases |pairs|
  {
    if pairs != [] {
      assert c !in Entry(pairs[0]);
      if |pairs| > 1 {
        RenderAvoids(pairs[1..], c);
      }
    }
  }

  /** A maximal run of `cls` characters from `i` up to `e` is skipped exactly. */
  lemma {:induction false} SkipRun(s: string, i: nat, e: nat, cls: CharClass)
    requires i <= e <= |s|
    requires forall t :: i <= t < e ==> In(s[t], cls)
    requires e == |s| || !In(s[e], cls)
    ensures Skip(s, i, cls) == e
    decreases e - i
  {
    if i < e {
      SkipRun(s, i + 1, e, cls);
    }
  }

  /** A maximal run written as a slice is skipped exactly. */
  lemma {:induction false} SkipSlice(s: string, a: nat, b: nat, w: string, cls: CharClass)
    requires a <= b <= |s| && s[a..b] == w && AllIn(w, cls)
    requires b == |s| || !In(s[b], cls)
    ensures Skip(s, a, cls) == b
  {
    assert forall t :: a <= t < b ==> s[t] == w[t - a];
    SkipRun(s, a, b, cls);
  }

  /** Where the middle piece of a concatenation lies. */
  lemma {:induction false} InMiddle(x: string, y: string, z: string)
    ensures LiteralAt(x + y + z, |x|, y)
    ensures forall t :: 0 <= t < |y| ==> (x + y + z)[|x| + t] == y[t]
  {
    assert (x + y + z)[|x|..|x| + |y|] == y;
  }

  lemma {:induction false} SliceOfSlice(s: string, a: nat, b: nat, x: nat, y: nat)
    requires a <= b <= |s| && x <= y <= b - a
    ensures s[a..b][x..y] == s[a + x..a + y]
  {
    assert forall t :: 0 <= t < y - x ==> s[a..b][x..y][t] == s[a + x + t];
  }

  /** Where the parts of a rendered entry lie in a text that contains it at `i`. */
  lemma {:induction false} EntryLayout(s: string, i: nat, pair: Pair)
    requires LiteralAt(s, i, Entry(pair))
    ensures var d := i + |pair.key|;
      && d + 3 + |pair.value| == i + |Entry(pair)|
      && s[i..d] == pair.key && s[d] == ':' && s[d + 1] == '"'
      && s[d + 2..d + 2 + |pair.value|] == pair.value && s[d + 2 + |pair.value|] == '"'
  {
    var key := pair.key;
    var en := Entry(pair);
    var d := i + |key|;
    assert s[i..i + |en|] == en;
    assert en[..|key|] == key;
    assert s[i..d] == en[..|key|];
    assert en[|key| + 2..|key| + 2 + |pair.value|] == pair.value;
    SliceOfSlice(s, i, i + |en|, |key| + 2, |key| + 2 + |pair.value|);
    assert s[d] == en[|key|];
    assert s[d + 1] == en[|key| + 1];
    assert s[d + 2 + |pair.value|] == en[|en| - 1];
  }

  lemma {:induction false} PairAtFields(s: string, i: nat, d: nat, q: nat, end: nat, v: ValueKind, pair: Pair)
    requires i < d && q == d + 1 && q < end < |s|
    requires Skip(s, i, Digit) == d && Skip(s, d, Space) == d && s[d] == ':'
    requires Skip(s, q, Space) == q && s[q] == '"'
    requires Skip(s, q + 1, ValueClass(v)) == end && end - (q + 1) >= MinLength(v) && s[end] == '"'
    requires s[i..d] == pair.key && s[q + 1..end] == pair.value
    ensures PairAt(s, i, v) == Scanned(pair, end + 1)
  {
  }

  /** A character outside the class ends the run before it starts. */
  lemma {:induction false} SkipNone(s: string, i: nat, cls: CharClass)
    requires i < |s| && !In(s[i], cls)
    ensures Skip(s, i, cls) == i
  {
  }

  /** The pattern matches a rendered entry exactly, whatever follows it. */
  lemma {:induction false} PairAtEntry(s: string, i: nat, pair: Pair, v: ValueKind)
    requires WellFormed(pair, v)
    requires LiteralAt(s, i, Entry(pair))
    ensures PairAt(s, i, v) == Scanned(pair, i + |Entry(pair)|)
  {
    var d := i + |pair.key|;
    var q := d + 1;
    var end := q + 1 + |pair.value|;
    EntrySkips(s, i, pair, v, d, q, end);
    PairAtFields(s, i, d, q, end, v, pair);
  }

  /** How far each run of the key/value pattern reaches in a rendered entry. */
  lemma {:induction false} EntrySkips(s: string, i: nat, pair: Pair, v: ValueKind, d: nat, q: nat, end: nat)
    requires WellFormed(pair, v) && LiteralAt(s, i, Entry(pair))
    requires d == i + |pair.key| && q == d + 1 && end == q + 1 + |pair.value|
    ensures i < d && q < end < |s| && end + 1 == i + |Entry(pair)|
    ensures Skip(s, i, Digit) == d && Skip(s, d, Space) == d && s[d] == ':'
    ensures Skip(s, q, Space) == q && s[q] == '"'
    ensures Skip(s, q + 1, ValueClass(v)) == end && end - (q + 1) >= MinLength(v) && s[end] == '"'
    ensures s[i..d] == pair.key && s[q + 1..end] == pair.value
  {
    EntryLayout(s, i, pair);
    SkipSlice(s, i, d, pair.key, Digit);
    SkipNone(s, d, Space);
    SkipNone(s, q, Space);
    SkipSlice(s, q + 1, end, pair.value, ValueClass(v));
  }


  /** No match starts at a separating comma. */
  lemma {:induction false} PairAtComma(s: string, c: nat, v: ValueKind)
    requires c < |s| && s[c] == ','
    ensures PairAt(s, c, v) == NoPair
  {
    assert Skip(s, c, Digit) == c;
  }

  /** A text holding a rendered table of two or more entries at `i`. */
  lemma {:induction false} RenderLayout(s: string, i: nat, pairs: seq<Pair>)
    requires |pairs| >= 2 && i <= |s| && s[i..] == Render(pairs)
    ensures var c := i + |Entry(pairs[0])|;
      && LiteralAt(s, i, Entry(pairs[0]))
      && c < |s| && s[c] == ',' && s[c + 1..] == Render(pairs[1..])
  {
    var en := Entry(pairs[0]);
    var c := i + |en|;
    assert s[i..] == en + [','] + Render(pairs[1..]);
    assert s[i..c] == s[i..][..|en|];
    assert s[c] == s[i..][|en|];
    assert s[c + 1..] == s[i..][|en| + 1..];
  }

  lemma {:induction false} FindAllFromMatch(s: string, i: nat, v: ValueKind)
    requires i < |s| && PairAt(s, i, v).Scanned?
    ensures FindAllFrom(s, i, v) == [PairAt(s, i, v).pair] + FindAllFrom(s, PairAt(s, i, v).end, v)
  {
  }

  lemma {:induction false} FindAllFromAt(s: string, i: nat, v: ValueKind, pair: Pair, end: nat)
    requires i < |s| && PairAt(s, i, v) == Scanned(pair, end)
    ensures FindAllFrom(s, i, v) == [pair] + FindAllFrom(s, end, v)
  {
    FindAllFromMatch(s, i, v);
  }

  lemma {:induction false} FindAllFromNoMatch(s: string, i: nat, v: ValueKind)
    requires i < |s| && PairAt(s, i, v).NoPair?
    ensures FindAllFrom(s, i, v) == FindAllFrom(s, i + 1, v)
  {
  }

  lemma {:induction false} FindAllFromMatchThenSkip(s: string, i: nat, pair: Pair, c: nat, v: ValueKind)
    requires i < c < |s| && PairAt(s, i, v) == Scanned(pair, c) && PairAt(s, c, v) == NoPair
    ensures FindAllFrom(s, i, v) == [pair] + FindAllFrom(s, c + 1, v)
  {
    FindAllFromMatch(s, i, v);
    FindAllFromNoMatch(s, c, v);
  }

  /** Scanning a rendered single-entry table reports that entry. */
  lemma {:induction false} FindAllFromRenderOne(s: string, i: nat, pair: Pair, v: ValueKind)
    requires i <= |s| && s[i..] == Entry(pair) && WellFormed(pair, v)
    ensures FindAllFrom(s, i, v) == [pair]
  {
    assert s[i..i + |Entry(pair)|] == s[i..];
    PairAtEntry(s, i, pair, v);
    FindAllFromMatch(s, i, v);
  }

  /** Scanning a rendered table of two or more entries reports the first, then scans the rest. */
  lemma {:induction false} FindAllFromRenderStep(s: string, i: nat, pairs: seq<Pair>, v: ValueKind) returns (next: nat)
    requires |pairs| >= 2 && i <= |s| && s[i..] == Render(pairs) && WellFormed(pairs[0], v)
    ensures next <= |s| && s[next..] == Render(pairs[1..])
    ensures FindAllFrom(s, i, v) == [pairs[0]] + FindAllFrom(s, next, v)
  {
    RenderLayout(s, i, pairs);
    next := i + |Entry(pairs[0])| + 1;
    FindAllFromEntryThenComma(s, i, pairs[0], next, v);
  }

  /** An entry followed by a comma is reported, and scanning resumes after the comma. */
  lemma {:induction false} FindAllFromEntryThenComma(s: string, i: nat, pair: Pair, next: nat, v: ValueKind)
    requires WellFormed(pair, v) && LiteralAt(s, i, Entry(pair))
    requires next == i + |Entry(pair)| + 1 && next <= |s| && s[next - 1] == ','
    ensures FindAllFrom(s, i, v) == [pair] + FindAllFrom(s, next, v)
  {
    var c := next - 1;
    assert PairAt(s, i, v) == Scanned(pair, c) by {
      PairAtEntry(s, i, pair, v);
    }
    assert PairAt(s, c, v) == NoPair by {
      PairAtComma(s, c, v);
    }
    FindAllFromMatchThenSkip(s, i, pair, c, v);
  }

  lemma {:induction false} ConsTail(a: seq<Pair>, b: seq<Pair>, pairs: seq<Pair>)
    requires pairs != [] && a == [pairs[0]] + b && b == pairs[1..]
    ensures a == pairs
  {
  }

  /** Scanning a rendered object literal reports exactly its entries. */
  lemma {:induction false} FindAllFromRender(s: string, i: nat, pairs: seq<Pair>, v: ValueKind)
    requires i <= |s| && s[i..] == Render(pairs)
    requires forall j :: 0 <= j < |pairs| ==> WellFormed(pairs[j], v)
    ensures FindAllFrom(s, i, v) == pairs
    decreases |pairs|
  {
    if pairs == [] {
      assert |s[i..]| == 0;
    } else if |pairs| == 1 {
      FindAllFromRenderOne(s, i, pairs[0], v);
    } else {
      var c := FindAllFromRenderStep(s, i, pairs, v);
      FindAllFromRender(s, c, pairs[1..], v);
      ConsTail(FindAllFrom(s, i, v), FindAllFrom(s, c, v), pairs);
    }
  }

  /** `re.findall` over a rendered object literal gives back its entries, in order. */
  lemma {:induction false} FindAllOfRender(pairs: seq<Pair>, v: ValueKind)
    requires forall j :: 0 <= j < |pairs| ==> WellFormed(pairs[j], v)
    ensures FindAll(Render(pairs), v) == pairs
  {
    var s := Render(pairs);
    assert s[0..] == s;
    FindAllFromRender(s, 0, pairs, v);
  }

  /** Reading back the decimal ids of a table gives the table. */
  lemma {:induction false} KeyedAsPairs(entries: seq<(nat, string)>)
    ensures forall j :: 0 <= j < |AsPairs(entries)| ==> AllIn(AsPairs(entries)[j].key, Digit)
    ensures Keyed(AsPairs(entries)) == entries
  {
    var ps := AsPairs(entries);
    forall j | 0 <= j < |entries|
      ensures DigitsValue(ps[j].key) == entries[j].0
    {
      DigitsValueOfNatToString(entries[j].0);
    }
  }

  /** Parsing a rendered object literal gives back exactly its table. */
  lemma {:induction false} ParseTableOfRender(entries: seq<(nat, string)>, v: ValueKind)
    requires forall j :: 0 <= j < |entries| ==> ValidValue(entries[j].1, v)
    ensures ParseTable(Render(AsPairs(entries)), v) == Dict(entries)
  {
    FindAllOfRender(AsPairs(entries), v);
    KeyedAsPairs(entries);
  }
}
