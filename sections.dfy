/**
 * `extract_sections` (app/endpoints/processing.py): the text is split with
 * `re.split` on the pattern
 *   (abstract\s*| discussion\s*| limitation\s*| conclusion\s*)
 * under `re.IGNORECASE`, and every captured heading is filed, stripped and
 * lowercased, with the stripped text that follows it.
 *
 * The pattern is matched by a direct scan: at each position the four
 * alternatives are tried in order, a match swallows the whitespace after its
 * keyword, and scanning resumes where the match ended.
 */
module Sections {
  import opened Wrappers
  import opened PyStr

  datatype Heading = Abstract | Discussion | Limitation | Conclusion

  /** The literal part of each alternative of the pattern, before its `\s*`. */
  function Keyword(h: Heading): string {
    match h
    case Abstract => "abstract"
    case Discussion => " discussion"
    case Limitation => " limitation"
    case Conclusion => " conclusion"
  }

  /** The key a heading is filed under: its keyword stripped and lowercased. */
  function Name(h: Heading): string {
    match h
    case Abstract => "abstract"
    case Discussion => "discussion"
    case Limitation => "limitation"
    case Conclusion => "conclusion"
  }

  const SectionNames: set<string> := {"abstract", "discussion", "limitation", "conclusion"}

  /** The keyword of `h` occurs at position `i` of `s`, ignoring ASCII case. */
  predicate KeywordAt(s: string, i: nat, h: Heading) {
    i + |Keyword(h)| <= |s| && Lower(s[i..i + |Keyword(h)|]) == Keyword(h)
  }

  /** Some alternative of the pattern matches at position `i` of `s`. */
  predicate HeadingAt(s: string, i: nat) {
    KeywordAt(s, i, Abstract) || KeywordAt(s, i, Discussion)
    || KeywordAt(s, i, Limitation) || KeywordAt(s, i, Conclusion)
  }

  /** No match of the pattern starts anywhere in `s`. */
  ghost predicate NoHeading(s: string) {
    forall j :: 0 <= j < |s| ==> !HeadingAt(s, j)
  }

  /** End of the greedy `\s*` that starts at `j`. */
  function SkipSpaces(s: string, j: nat): (k: nat)
    requires j <= |s|
    ensures j <= k <= |s|
    ensures forall m :: j <= m < k ==> IsSpace(s[m])
    ensures k < |s| ==> !IsSpace(s[k])
    decreases |s| - j
  {
    if j < |s| && IsSpace(s[j]) then SkipSpaces(s, j + 1) else j
  }

  datatype Match = Match(heading: Heading, end: nat)

  /** The match that starts at position `i`, if any: its heading and where it ends. */
  function MatchAt(s: string, i: nat): (m: Option<Match>)
    requires i <= |s|
    ensures m.Some? <==> HeadingAt(s, i)
    ensures m.Some? ==> KeywordAt(s, i, m.value.heading)
    ensures m.Some? ==> m.value.end == SkipSpaces(s, i + |Keyword(m.value.heading)|)
  {
    if KeywordAt(s, i, Abstract) then Some(Match(Abstract, SkipSpaces(s, i + |Keyword(Abstract)|)))
    else if KeywordAt(s, i, Discussion) then Some(Match(Discussion, SkipSpaces(s, i + |Keyword(Discussion)|)))
    else if KeywordAt(s, i, Limitation) then Some(Match(Limitation, SkipSpaces(s, i + |Keyword(Limitation)|)))
    else if KeywordAt(s, i, Conclusion) then Some(Match(Conclusion, SkipSpaces(s, i + |Keyword(Conclusion)|)))
    else None
  }

  /** Where the match that starts at each position of `s` ends; -1 where none starts. */
  function MatchEnds(s: string): (ends: seq<int>)
    ensures |ends| == |s|
  {
    seq(|s|, i requires 0 <= i < |s| => if MatchAt(s, i).Some? then MatchAt(s, i).value.end else -1)
  }

  /** A match never ends before it starts, nor beyond the text. */
  ghost predicate ValidEnds(ends: seq<int>) {
    forall i :: 0 <= i < |ends| ==> ends[i] == -1 || i < ends[i] <= |ends|
  }

  lemma MatchEndsValid(s: string)
    ensures ValidEnds(MatchEnds(s))
  {
    forall i | 0 <= i < |s| && MatchAt(s, i).Some?
      ensures i < MatchAt(s, i).value.end <= |s|
    {
    }
  }

  /**
   * The scan of `re.split` from position `from` on, where the text not yet
   * emitted starts at `start`: the positions at which the result is cut.
   * Consecutive cuts delimit the unmatched stretches and the matches,
   * alternately, beginning and ending with a stretch.
   */
  function Cuts(ends: seq<int>, from: nat, start: nat): (c: seq<nat>)
    requires ValidEnds(ends) && start <= from <= |ends|
    ensures |c| >= 2 && |c| % 2 == 0
    ensures c[0] == start && c[|c| - 1] == |ends|
    ensures forall k :: 0 <= k < |c| - 1 ==> c[k] <= c[k + 1]
    ensures forall k :: 0 <= k < |c| ==> c[k] <= |ends|
    decreases |ends| - from
  {
    if from == |ends| then [start, |ends|]
    else if ends[from] >= 0 then [start, from] + Cuts(ends, ends[from], ends[from])
    else Cuts(ends, from + 1, start)
  }

  /** The pieces of `s` between consecutive cuts. */
  function Slices(s: string, c: seq<nat>): (r: seq<string>)
    requires |c| >= 1 && forall k :: 0 <= k < |c| ==> c[k] <= |s|
    requires forall k :: 0 <= k < |c| - 1 ==> c[k] <= c[k + 1]
    ensures |r| == |c| - 1
    ensures forall k {:trigger r[k]} :: 0 <= k < |r| ==> c[k] <= c[k + 1] <= |s| && r[k] == s[c[k]..c[k + 1]]
  {
    if |c| == 1 then [] else [s[c[0]..c[1]]] + Slices(s, c[1..])
  }

  /** `re.split(pattern, text, flags=re.IGNORECASE)`. */
  function Pieces(text: string): (p: seq<string>)
    ensures |p| % 2 == 1
  {
    MatchEndsValid(text);
    Slices(text, Cuts(MatchEnds(text), 0, 0))
  }

  /** The pieces laid end to end. */
  function Concat(ps: seq<string>): string {
    if ps == [] then "" else ps[0] + Concat(ps[1..])
  }

  /** `t` is one whole match: a keyword followed only by whitespace. */
  ghost predicate IsToken(t: string, h: Heading) {
    KeywordAt(t, 0, h) && forall j :: |Keyword(h)| <= j < |t| ==> IsSpace(t[j])
  }

  ghost predicate IsHeadingToken(t: string) {
    IsToken(t, Abstract) || IsToken(t, Discussion) || IsToken(t, Limitation) || IsToken(t, Conclusion)
  }

  /** `sections[i].strip().lower()`. */
  function Title(t: string): string {
    Lower(Strip(t))
  }

  lemma SliceOfSlice(s: string, a: nat, b: nat, j: nat, n: nat)
    requires a <= b <= |s| && j + n <= b - a
    ensures s[a..b][j..j + n] == s[a + j..a + j + n]
  {
    var x, y := s[a..b][j..j + n], s[a + j..a + j + n];
    forall m | 0 <= m < n ensures x[m] == y[m] {
      assert x[m] == s[a..b][j + m];
    }
  }

  lemma KeywordInSlice(s: string, a: nat, b: nat, j: nat, h: Heading)
    requires a <= b <= |s|
    requires KeywordAt(s[a..b], j, h)
    ensures KeywordAt(s, a + j, h)
  {
    SliceOfSlice(s, a, b, j, |Keyword(h)|);
  }

  /** A stretch in which the scan found no match contains no match of its own. */
  lemma NoHeadingInSlice(s: string, a: nat, b: nat)
    requires a <= b <= |s|
    requires forall j :: a <= j < b ==> !HeadingAt(s, j)
    ensures NoHeading(s[a..b])
  {
    forall j | 0 <= j < b - a ensures !HeadingAt(s[a..b], j) {
      assert !HeadingAt(s, a + j);
      if KeywordAt(s[a..b], j, Abstract) { KeywordInSlice(s, a, b, j, Abstract); }
      if KeywordAt(s[a..b], j, Discussion) { KeywordInSlice(s, a, b, j, Discussion); }
      if KeywordAt(s[a..b], j, Limitation) { KeywordInSlice(s, a, b, j, Limitation); }
      if KeywordAt(s[a..b], j, Conclusion) { KeywordInSlice(s, a, b, j, Conclusion); }
    }
  }

  /** A part of a text free of matches is itself free of matches. */
  lemma NoHeadingInPart(t: string, a: nat, b: nat)
    requires a <= b <= |t|
    requires NoHeading(t)
    ensures NoHeading(t[a..b])
  {
    NoHeadingInSlice(t, a, b);
  }

  lemma TokenOfMatch(s: string, i: nat)
    requires i < |s| && MatchAt(s, i).Some?
    ensures IsToken(s[i..MatchAt(s, i).value.end], MatchAt(s, i).value.heading)
  {
    var m := MatchAt(s, i).value;
    var t := s[i..m.end];
    var k := Keyword(m.heading);
    assert t[0..|k|] == s[i..i + |k|];
  }

  /** Cuts at odd positions open a match that closes at the next cut. */
  lemma {:induction false} CutsOpenMatches(ends: seq<int>, from: nat, start: nat, j: nat)
    requires ValidEnds(ends) && start <= from <= |ends|
    requires 2 * j + 2 < |Cuts(ends, from, start)|
    ensures Cuts(ends, from, start)[2 * j + 1] < |ends|
    ensures ends[Cuts(ends, from, start)[2 * j + 1]] == Cuts(ends, from, start)[2 * j + 2]
    decreases |ends| - from
  {
    if from == |ends| {
    } else if ends[from] >= 0 {
      OpenAfterMatch(ends, from, start, j);
    } else {
      CutsOpenMatches(ends, from + 1, start, j);
    }
  }

  lemma {:induction false} OpenAfterMatch(ends: seq<int>, from: nat, start: nat, j: nat)
    requires ValidEnds(ends) && start <= from < |ends| && ends[from] >= 0
    requires 2 * j + 2 < |Cuts(ends, from, start)|
    ensures Cuts(ends, from, start)[2 * j + 1] < |ends|
    ensures ends[Cuts(ends, from, start)[2 * j + 1]] == Cuts(ends, from, start)[2 * j + 2]
    decreases |ends| - from, 0
  {
    var e := ends[from];
    var c, rest := Cuts(ends, from, start), Cuts(ends, e, e);
    assert c == [start, from] + rest;
    if j > 0 {
      CutsOpenMatches(ends, e, e, j - 1);
      assert c[2 * j + 1] == rest[2 * (j - 1) + 1] && c[2 * j + 2] == rest[2 * (j - 1) + 2];
    }
  }

  /** Between a cut at an even position and the next, no match starts. */
  lemma {:induction false} CutsEncloseGaps(ends: seq<int>, from: nat, start: nat, j: nat)
    requires ValidEnds(ends) && start <= from <= |ends|
    requires forall i :: start <= i < from ==> ends[i] < 0
    requires 2 * j + 1 < |Cuts(ends, from, start)|
    ensures forall i :: Cuts(ends, from, start)[2 * j] <= i < Cuts(ends, from, start)[2 * j + 1] ==> ends[i] < 0
    decreases |ends| - from
  {
    if from == |ends| {
    } else if ends[from] >= 0 {
      GapAfterMatch(ends, from, start, j);
    } else {
      CutsEncloseGaps(ends, from + 1, start, j);
    }
  }

  lemma {:induction false} GapAfterMatch(ends: seq<int>, from: nat, start: nat, j: nat)
    requires ValidEnds(ends) && start <= from < |ends| && ends[from] >= 0
    requires forall i :: start <= i < from ==> ends[i] < 0
    requires 2 * j + 1 < |Cuts(ends, from, start)|
    ensures forall i :: Cuts(ends, from, start)[2 * j] <= i < Cuts(ends, from, start)[2 * j + 1] ==> ends[i] < 0
    decreases |ends| - from, 0
  {
    var e := ends[from];
    var c, rest := Cuts(ends, from, start), Cuts(ends, e, e);
    assert c == [start, from] + rest;
    if j > 0 {
      CutsEncloseGaps(ends, e, e, j - 1);
      assert c[2 * j] == rest[2 * (j - 1)] && c[2 * j + 1] == rest[2 * (j - 1) + 1];
    }
  }

  lemma {:induction false} ConcatSlices(s: string, c: seq<nat>)
    requires |c| >= 1 && forall k :: 0 <= k < |c| ==> c[k] <= |s|
    requires forall k :: 0 <= k < |c| - 1 ==> c[k] <= c[k + 1]
    ensures c[0] <= c[|c| - 1]
    ensures Concat(Slices(s, c)) == s[c[0]..c[|c| - 1]]
  {
    if |c| > 1 {
      ConcatSlices(s, c[1..]);
      assert s[c[0]..c[|c| - 1]] == s[c[0]..c[1]] + s[c[1]..c[|c| - 1]];
    }
  }

  /** `re.split` loses nothing: its pieces reassemble the text. */
  lemma PiecesConcat(text: string)
    ensures Concat(Pieces(text)) == text
  {
    MatchEndsValid(text);
    ConcatSlices(text, Cuts(MatchEnds(text), 0, 0));
  }

  /** The first `k` pieces between cuts, laid end to end, run from the first cut to the `k`-th. */
  lemma {:induction false} ConcatSlicesPrefix(s: string, c: seq<nat>, k: nat)
    requires k < |c| && forall i :: 0 <= i < |c| ==> c[i] <= |s|
    requires forall i :: 0 <= i < |c| - 1 ==> c[i] <= c[i + 1]
    ensures c[0] <= c[k]
    ensures Concat(Slices(s, c)[..k]) == s[c[0]..c[k]]
  {
    if k > 0 {
      var r := Slices(s, c);
      ConcatSlicesPrefix(s, c[1..], k - 1);
      assert r[..k] == [s[c[0]..c[1]]] + Slices(s, c[1..])[..k - 1];
      assert r[..k][1..] == Slices(s, c[1..])[..k - 1];
      assert s[c[0]..c[k]] == s[c[0]..c[1]] + s[c[1]..c[k]];
    }
  }

  /**
   * Every odd-numbered piece of the split that has a piece after it is one
   * whole heading match: it is exactly the match `MatchAt` finds where the
   * piece starts in the text, so it takes all the whitespace after its
   * keyword, and the next piece is empty or starts with a non-whitespace
   * character.
   */
  lemma PieceIsToken(text: string, j: nat)
    requires 2 * j + 2 < |Pieces(text)|
    ensures IsHeadingToken(Pieces(text)[2 * j + 1])
    ensures var a := |Concat(Pieces(text)[..2 * j + 1])|;
      a <= |text| && MatchAt(text, a).Some? && MatchAt(text, a).value.end == a + |Pieces(text)[2 * j + 1]|
    ensures Pieces(text)[2 * j + 2] == [] || !IsSpace(Pieces(text)[2 * j + 2][0])
  {
    MatchEndsValid(text);
    var ends := MatchEnds(text);
    var c := Cuts(ends, 0, 0);
    var p := Pieces(text);
    var a, e := c[2 * j + 1], c[2 * j + 2];
    assert p[2 * j + 1] == text[a..e] && p[2 * j + 2] == text[e..c[2 * j + 3]];
    assert a < |text| && ends[a] == e >= 0 by {
      CutsOpenMatches(ends, 0, 0, j);
    }
    assert MatchAt(text, a).Some? && MatchAt(text, a).value.end == e;
    TokenOfMatch(text, a);
    PieceOffset(text, 2 * j + 1);
  }

  /** Piece `k` of the split starts in the text at the `k`-th cut. */
  lemma PieceOffset(text: string, k: nat)
    requires k < |Pieces(text)|
    ensures ValidEnds(MatchEnds(text)) && k + 1 < |Cuts(MatchEnds(text), 0, 0)|
    ensures |Concat(Pieces(text)[..k])| == Cuts(MatchEnds(text), 0, 0)[k]
  {
    MatchEndsValid(text);
    ConcatSlicesPrefix(text, Cuts(MatchEnds(text), 0, 0), k);
  }

  /** Every even-numbered piece of the split, the text before the first heading included, is match-free. */
  lemma PieceIsStretch(text: string, j: nat)
    requires 2 * j < |Pieces(text)|
    ensures NoHeading(Pieces(text)[2 * j])
  {
    var ends := MatchEnds(text);
    MatchEndsValid(text);
    var c := Cuts(ends, 0, 0);
    CutsEncloseGaps(ends, 0, 0, j);
    forall i | c[2 * j] <= i < c[2 * j + 1] ensures !HeadingAt(text, i) {
      assert ends[i] < 0;
    }
    NoHeadingInSlice(text, c[2 * j], c[2 * j + 1]);
  }

  /** The first piece of the split is a prefix of the text. */
  lemma PreambleIsPrefix(text: string)
    ensures Pieces(text)[0] == text[..|Pieces(text)[0]|]
  {
    MatchEndsValid(text);
    var c := Cuts(MatchEnds(text), 0, 0);
    assert Pieces(text)[0] == text[c[0]..c[1]];
  }

  /** No heading match starts inside the first piece. */
  lemma PreambleHasNoHeading(text: string)
    ensures forall j :: 0 <= j < |Pieces(text)[0]| ==> !HeadingAt(text, j)
  {
    var ends := MatchEnds(text);
    MatchEndsValid(text);
    var c := Cuts(ends, 0, 0);
    CutsEncloseGaps(ends, 0, 0, 0);
    forall j | 0 <= j < c[1] ensures !HeadingAt(text, j) {
      assert ends[j] < 0;
    }
  }

  /** Unless the split has a single piece, a heading match starts right after the first piece. */
  lemma HeadingAfterPreamble(text: string)
    requires |Pieces(text)| > 1
    ensures |Pieces(text)[0]| < |text| && HeadingAt(text, |Pieces(text)[0]|)
  {
    var ends := MatchEnds(text);
    MatchEndsValid(text);
    var c := Cuts(ends, 0, 0);
    CutsOpenMatches(ends, 0, 0, 0);
    assert ends[c[1]] >= 0;
  }

  /** The last piece runs to the end of the text. */
  lemma LastPieceRunsToEnd(text: string)
    ensures Pieces(text)[|Pieces(text)| - 1] == text[|text| - |Pieces(text)[|Pieces(text)| - 1]|..]
  {
    MatchEndsValid(text);
    var c := Cuts(MatchEnds(text), 0, 0);
    assert c[|c| - 1] == |text|;
  }

  /**
   * Stripping and lowercasing a keyword (`p` leading spaces, then letters)
   * followed by whitespace gives the keyword's letters.
   */
  lemma StripKeyword(t: string, k: string, p: nat)
    requires p <= 1 && p < |k| <= |t|
    requires Lower(t[..|k|]) == k
    requires forall j :: 0 <= j < p ==> k[j] == ' '
    requires !IsSpace(k[p]) && !IsSpace(k[|k| - 1])
    requires forall j :: |k| <= j < |t| ==> IsSpace(t[j])
    ensures Title(t) == k[p..]
  {
    assert LowerChar(t[p]) == k[p] && LowerChar(t[|k| - 1]) == k[|k| - 1];
    assert p == 1 ==> LowerChar(t[0]) == ' ';
    StripLeftAt(t, p);
    var l := t[p..];
    StripRightAt(l, |k| - p);
    assert Strip(t) == t[p..|k|];
    LowerOfSlice(t[..|k|], p);
    assert t[..|k|][p..] == t[p..|k|];
  }

  lemma LowerOfSlice(s: string, p: nat)
    requires p <= |s|
    ensures Lower(s[p..]) == Lower(s)[p..]
  {
  }

  /** The title of a whole match is the name of its heading. */
  lemma TokenTitle(t: string, h: Heading)
    requires IsToken(t, h)
    ensures Title(t) == Name(h)
  {
    match h
    case Abstract => StripKeyword(t, Keyword(h), 0);
    case Discussion => StripKeyword(t, Keyword(h), 1);
    case Limitation => StripKeyword(t, Keyword(h), 1);
    case Conclusion => StripKeyword(t, Keyword(h), 1);
  }

  lemma HeadingTokenTitle(t: string)
    requires IsHeadingToken(t)
    ensures Title(t) in SectionNames
  {
    if IsToken(t, Abstract) { TokenTitle(t, Abstract); }
    else if IsToken(t, Discussion) { TokenTitle(t, Discussion); }
    else if IsToken(t, Limitation) { TokenTitle(t, Limitation); }
    else { TokenTitle(t, Conclusion); }
  }

  /** The pieces of a split taken two by two after the first: each heading with the body after it. */
  function Pairs(p: seq<string>): (ps: seq<(string, string)>)
    ensures |p| % 2 == 1 ==> |p| == 2 * |ps| + 1
    decreases |p|
  {
    if |p| < 3 then [] else [(p[1], p[2])] + Pairs(p[2..])
  }

  lemma {:induction false} PairAt(p: seq<string>, j: nat)
    requires 2 * j + 2 < |p|
    ensures j < |Pairs(p)| && Pairs(p)[j] == (p[2 * j + 1], p[2 * j + 2])
    decreases j
  {
    if j > 0 {
      PairAt(p[2..], j - 1);
      assert p[2..][2 * (j - 1) + 1] == p[2 * j + 1] && p[2..][2 * (j - 1) + 2] == p[2 * j + 2];
    }
  }

  /**
   * What the loop of `extract_sections` files, in order: for each heading
   * of the split, its title (`sections[i].strip().lower()`) and the body
   * after it (`sections[i + 1].strip()`).
   */
  function Entries(p: seq<string>): (es: seq<(string, string)>)
    ensures |es| == |Pairs(p)|
  {
    var ps := Pairs(p);
    seq(|ps|, j requires 0 <= j < |ps| => (Title(ps[j].0), Strip(ps[j].1)))
  }

  lemma EntryAt(p: seq<string>, j: nat)
    requires 2 * j + 2 < |p|
    ensures j < |Entries(p)| && Entries(p)[j] == (Title(p[2 * j + 1]), Strip(p[2 * j + 2]))
  {
    PairAt(p, j);
  }

  /** The map built from the first `n` entries, each overwriting what its title held. */
  ghost function Filing(es: seq<(string, string)>, n: nat): map<string, string>
    requires n <= |es|
  {
    if n == 0 then map[] else Filing(es, n - 1)[es[n - 1].0 := es[n - 1].1]
  }

  lemma UpdateBoth(a: map<string, string>, b: map<string, string>, k: string, v: string)
    requires a == b
    ensures a[k := v] == b[k := v]
  {
  }

  /** One round of the loop: the heading at `2 * n + 1` is filed with the body after it. */
  lemma FilingStep(p: seq<string>, n: nat)
    requires 2 * n + 2 < |p|
    ensures n < |Entries(p)|
    ensures Filing(Entries(p), n + 1) == Filing(Entries(p), n)[Title(p[2 * n + 1]) := Strip(p[2 * n + 2])]
  {
    EntryAt(p, n);
  }

  /** No entry after the `j`-th and before the `n`-th has the `j`-th's title. */
  ghost predicate LastEntry(es: seq<(string, string)>, j: int, n: int)
    requires 0 <= j < |es|
  {
    forall i :: j < i < n && i < |es| ==> es[i].0 != es[j].0
  }

  /** The keys filed are exactly the titles of the entries. */
  lemma {:induction false} FilingKeys(es: seq<(string, string)>, n: nat, k: string)
    requires n <= |es|
    ensures k in Filing(es, n) <==> exists j :: 0 <= j < n && es[j].0 == k
  {
    if n > 0 {
      FilingKeys(es, n - 1, k);
      if es[n - 1].0 == k {
        assert 0 <= n - 1 < n && es[n - 1].0 == k;
      }
    }
  }

  /** Every key holds the body of some entry with that title. */
  lemma {:induction false} FilingValue(es: seq<(string, string)>, n: nat, k: string)
    requires n <= |es| && k in Filing(es, n)
    ensures exists j :: 0 <= j < n && es[j].0 == k && Filing(es, n)[k] == es[j].1
  {
    if es[n - 1].0 != k {
      FilingValue(es, n - 1, k);
      var j :| 0 <= j < n - 1 && es[j].0 == k && Filing(es, n - 1)[k] == es[j].1;
      assert 0 <= j < n;
    } else {
      assert 0 <= n - 1 < n;
    }
  }

  /** The entry a title last appears in is the one whose body it holds. */
  lemma {:induction false} FilingLast(es: seq<(string, string)>, n: nat, j: nat)
    requires j < n <= |es| && LastEntry(es, j, n)
    ensures es[j].0 in Filing(es, n) && Filing(es, n)[es[j].0] == es[j].1
  {
    if j < n - 1 {
      assert es[n - 1].0 != es[j].0;
      assert LastEntry(es, j, n - 1);
      FilingLast(es, n - 1, j);
    }
  }

  lemma StripNoHeading(t: string)
    requires NoHeading(t)
    ensures NoHeading(Strip(t))
  {
    var a :| StrippedAt(t, Strip(t), a);
    NoHeadingInPart(t, a, a + |Strip(t)|);
  }

  /** Every entry is a heading name with a body free of headings. */
  lemma EntryFacts(text: string, j: nat)
    requires j < |Entries(Pieces(text))|
    ensures Entries(Pieces(text))[j].0 in SectionNames && NoHeading(Entries(Pieces(text))[j].1)
  {
    var p := Pieces(text);
    EntryAt(p, j);
    PieceIsToken(text, j);
    PieceIsStretch(text, j + 1);
    HeadingTokenTitle(p[2 * j + 1]);
    StripNoHeading(p[2 * j + 2]);
  }

  /** A text without any heading match is split into one piece only. */
  lemma NoHeadingOnePiece(text: string)
    requires NoHeading(text)
    ensures |Pieces(text)| == 1
  {
    if |Pieces(text)| > 1 {
      HeadingAfterPreamble(text);
    }
  }

  /** The map `extract_sections(text)` returns: the heading entries filed in order, a later one overwriting an earlier one. */
  ghost function Extracted(text: string): map<string, string> {
    Filing(Entries(Pieces(text)), |Entries(Pieces(text))|)
  }

  /**
   * `extract_sections(text)`: the text is split on the headings, and the loop
   * files every (title, body) pair of the split, stepping two pieces at a time.
   */
  method ExtractSections(text: string) returns (sections: map<string, string>)
    ensures sections == Extracted(text)
  {
    var parts := Pieces(text);
    ghost var es := Entries(parts);
    assert |parts| == 2 * |Pairs(parts)| + 1;
    sections := map[];
    var i := 1;
    ghost var n := 0;
    while i < |parts|
      invariant i == 2 * n + 1 && n <= |es|
      invariant sections == Filing(es, n)
    {
      var title, body := Title(parts[i]), Strip(parts[i + 1]);
      FilingStep(parts, n);
      UpdateBoth(sections, Filing(es, n), title, body);
      sections := sections[title := body];
      i, n := i + 2, n + 1;
    }
    assert n == |es|;
  }

  /** There is one key per heading title found in the text, and no other. */
  lemma ExtractedKeys(text: string)
    ensures forall k :: k in Extracted(text) <==> exists j :: 0 <= j < |Entries(Pieces(text))| && Entries(Pieces(text))[j].0 == k
  {
    var es := Entries(Pieces(text));
    forall k ensures k in Extracted(text) <==> exists j :: 0 <= j < |es| && es[j].0 == k {
      FilingKeys(es, |es|, k);
    }
  }

  /** Each title holds the stripped body that follows its LAST heading: a repeated heading overwrites. */
  lemma ExtractedLast(text: string)
    ensures forall j :: 0 <= j < |Entries(Pieces(text))| && LastEntry(Entries(Pieces(text)), j, |Entries(Pieces(text))|) ==>
              Entries(Pieces(text))[j].0 in Extracted(text) && Extracted(text)[Entries(Pieces(text))[j].0] == Entries(Pieces(text))[j].1
  {
    var es := Entries(Pieces(text));
    forall j | 0 <= j < |es| && LastEntry(es, j, |es|) ensures es[j].0 in Extracted(text) && Extracted(text)[es[j].0] == es[j].1 {
      FilingLast(es, |es|, j);
    }
  }

  /** Every key is one of the four section names, and no body holds a heading. */
  lemma ExtractedValues(text: string)
    ensures forall k :: k in Extracted(text) ==> k in SectionNames && NoHeading(Extracted(text)[k])
  {
    var es := Entries(Pieces(text));
    forall k | k in Extracted(text) ensures k in SectionNames && NoHeading(Extracted(text)[k]) {
      FilingValue(es, |es|, k);
      var j :| 0 <= j < |es| && es[j].0 == k && Extracted(text)[k] == es[j].1;
      EntryFacts(text, j);
    }
  }

  /** A text without a heading gives the empty map. */
  lemma ExtractedEmpty(text: string)
    requires NoHeading(text)
    ensures Extracted(text) == map[]
  {
    NoHeadingOnePiece(text);
  }

  /** The `abstract` alternative has no word boundary: it matches inside "abstraction". */
  lemma AbstractionMatches()
    ensures MatchAt("abstraction", 0) == Some(Match(Abstract, 8))
  {
    var s := "abstraction";
    assert s[..8] == "abstract";
    assert Lower(s[0..8]) == "abstract";
  }

  /** A keyword cannot occur where its first letter does not. */
  lemma NotKeywordAt(s: string, j: nat, h: Heading)
    requires j < |s| && LowerChar(s[j]) != Keyword(h)[0]
    ensures !KeywordAt(s, j, h)
  {
  }

  /** No match starts at a letter other than `a` (nor at a non-space character, for the spaced keywords). */
  lemma NoMatchAt(s: string, j: nat)
    requires j < |s| && LowerChar(s[j]) != 'a' && LowerChar(s[j]) != ' '
    ensures !HeadingAt(s, j)
  {
    NotKeywordAt(s, j, Abstract);
    NotKeywordAt(s, j, Discussion);
    NotKeywordAt(s, j, Limitation);
    NotKeywordAt(s, j, Conclusion);
  }

  /** With no match from `from` on, the rest of the text is one last piece. */
  lemma {:induction false} CutsWithoutMatches(ends: seq<int>, from: nat, start: nat)
    requires ValidEnds(ends) && start <= from <= |ends|
    requires forall j :: from <= j < |ends| ==> ends[j] < 0
    ensures Cuts(ends, from, start) == [start, |ends|]
    decreases |ends| - from
  {
    if from < |ends| {
      CutsWithoutMatches(ends, from + 1, start);
    }
  }

  /** The keyword of discussion, limitation or conclusion matches only where the text has a space. */
  lemma SpacedKeywordsNeedSpace(s: string, i: nat, h: Heading)
    requires h != Abstract && KeywordAt(s, i, h)
    ensures s[i] == ' '
  {
    assert Lower(s[i..i + |Keyword(h)|])[0] == ' ';
  }

  /**
   * At the very start of a text that does not begin with a space, no
   * discussion, limitation or conclusion heading matches: a match there can
   * only be an abstract heading.
   */
  lemma LeadingKeywordMissed(s: string)
    requires s == [] || s[0] != ' '
    ensures !KeywordAt(s, 0, Discussion) && !KeywordAt(s, 0, Limitation) && !KeywordAt(s, 0, Conclusion)
    ensures MatchAt(s, 0).Some? ==> MatchAt(s, 0).value.heading == Abstract
  {
    if KeywordAt(s, 0, Discussion) {
      SpacedKeywordsNeedSpace(s, 0, Discussion);
    }
    if KeywordAt(s, 0, Limitation) {
      SpacedKeywordsNeedSpace(s, 0, Limitation);
    }
    if KeywordAt(s, 0, Conclusion) {
      SpacedKeywordsNeedSpace(s, 0, Conclusion);
    }
  }

  /** A heading word at the very start of the text is missed, save "abstract": the other alternatives begin with a space. */
  lemma LeadingDiscussionMissed()
    ensures NoHeading("discussion")
  {
    var s := "discussion";
    forall j | 0 <= j < |s| ensures !HeadingAt(s, j) {
      NoMatchAt(s, j);
    }
  }

  /** The text on which the greedy `\s*` of a match swallows the next heading's space. */
  const Swallowing: string := "abstract discussion"

  lemma SwallowingFirstMatch()
    ensures MatchAt(Swallowing, 0) == Some(Match(Abstract, 9))
  {
    SwallowingParts();
    assert Lower(Swallowing[0..8]) == "abstract";
    assert SkipSpaces(Swallowing, 9) == 9;
  }

  lemma SwallowingEnds()
    ensures |MatchEnds(Swallowing)| == 19 && MatchEnds(Swallowing)[0] == 9
    ensures forall j :: 9 <= j < 19 ==> MatchEnds(Swallowing)[j] == -1
  {
    SwallowingFirstMatch();
    forall j | 9 <= j < 19 ensures MatchEnds(Swallowing)[j] == -1 {
      NoMatchAt(Swallowing, j);
    }
  }

  lemma SwallowingCuts()
    ensures ValidEnds(MatchEnds(Swallowing)) && Cuts(MatchEnds(Swallowing), 0, 0) == [0, 0, 9, 19]
  {
    var ends := MatchEnds(Swallowing);
    SwallowingEnds();
    MatchEndsValid(Swallowing);
    CutsWithoutMatches(ends, 9, 9);
    assert Cuts(ends, 0, 0) == [0, 0] + Cuts(ends, 9, 9);
  }

  lemma SwallowingParts()
    ensures Swallowing[0..0] == "" && Swallowing[0..9] == "abstract " && Swallowing[9..19] == "discussion"
    ensures Swallowing[0..8] == "abstract" && Swallowing[8] == ' ' && Swallowing[9] == 'd'
  {
    assert Swallowing[0..9] == "abstract ";
    assert Swallowing[9..19] == "discussion";
    assert Swallowing[0..8] == "abstract";
  }

  /** Four cuts give three pieces. */
  lemma ThreeSlices(s: string, a: nat, b: nat, c: nat, d: nat)
    requires a <= b <= c <= d <= |s|
    ensures Slices(s, [a, b, c, d]) == [s[a..b], s[b..c], s[c..d]]
  {
    assert [a, b, c, d][1..] == [b, c, d];
    assert [b, c, d][1..] == [c, d];
  }

  /**
   * The `\s*` of a match swallows the space that the next alternative
   * needs: in "abstract discussion" the discussion heading is not found,
   * and the whole rest of the text is the abstract.
   */
  lemma SwallowedHeading()
    ensures Pieces(Swallowing) == ["", "abstract ", "discussion"]
  {
    SwallowingCuts();
    ThreeSlices(Swallowing, 0, 0, 9, 19);
    SwallowingParts();
  }
}
