/**
 * The parts of Python's `str` that the service relies on: `isspace` (which is
 * also what `\s` matches in a `str` pattern), `lower` restricted to ASCII,
 * `strip`, `split` on a one-character separator and `sep.join`.
 */
module PyStr {

  /** `str.isspace` of one character: CPython's whitespace set. */
  predicate IsSpace(c: char) {
    c == ' ' || ('\t' <= c <= '\r') || ('\U{1c}' <= c <= '\U{1f}')
    || c == '\U{85}' || c == '\U{a0}' || c == '\U{1680}'
    || ('\U{2000}' <= c <= '\U{200a}') || c == '\U{2028}' || c == '\U{2029}'
    || c == '\U{202f}' || c == '\U{205f}' || c == '\U{3000}'
  }

  predicate IsUpper(c: char) {
    'A' <= c <= 'Z'
  }

  /** `str.lower` of one character, for the ASCII letters. */
  function LowerChar(c: char): (d: char)
    ensures !IsUpper(d)
    ensures IsSpace(d) <==> IsSpace(c)
    ensures IsUpper(c) ==> d as int == c as int + 32
    ensures !IsUpper(c) ==> d == c
  {
    if IsUpper(c) then (c as int + 32) as char else c
  }

  /** `str.lower`. */
  function Lower(s: string): (r: string)
    ensures |r| == |s|
    ensures forall i :: 0 <= i < |s| ==> r[i] == LowerChar(s[i])
  {
    seq(|s|, i requires 0 <= i < |s| => LowerChar(s[i]))
  }

  /** `str.lstrip()`: drops the leading whitespace and nothing else. */
  function StripLeft(s: string): (r: string)
    ensures |r| <= |s|
    ensures forall i :: 0 <= i < |s| - |r| ==> IsSpace(s[i])
    ensures r != [] ==> !IsSpace(r[0])
  {
    if s != [] && IsSpace(s[0]) then StripLeft(s[1..]) else s
  }

  /** `str.rstrip()`: drops the trailing whitespace and nothing else. */
  function StripRight(s: string): (r: string)
    ensures |r| <= |s|
    ensures forall i :: |r| <= i < |s| ==> IsSpace(s[i])
    ensures r != [] ==> !IsSpace(r[|r| - 1])
  {
    if s != [] && IsSpace(s[|s| - 1]) then StripRight(s[..|s| - 1]) else s
  }

  /** What `str.lstrip()` keeps is a suffix of its input. */
  lemma {:induction false} StripLeftSuffix(s: string)
    ensures StripLeft(s) == s[|s| - |StripLeft(s)|..]
  {
    if s != [] && IsSpace(s[0]) {
      StripLeftSuffix(s[1..]);
    }
  }

  /** What `str.rstrip()` keeps is a prefix of its input. */
  lemma {:induction false} StripRightPrefix(s: string)
    ensures StripRight(s) == s[..|StripRight(s)|]
  {
    if s != [] && IsSpace(s[|s| - 1]) {
      StripRightPrefix(s[..|s| - 1]);
    }
  }

  /** `str.lstrip()` of a text whose first non-whitespace character is at `a`. */
  lemma {:induction false} StripLeftAt(s: string, a: nat)
    requires a < |s| && !IsSpace(s[a])
    requires forall i :: 0 <= i < a ==> IsSpace(s[i])
    ensures StripLeft(s) == s[a..]
  {
    if a > 0 {
      StripLeftAt(s[1..], a - 1);
      assert s[1..][a - 1..] == s[a..];
    }
  }

  /** `str.rstrip()` of a text whose last non-whitespace character is at `b - 1`. */
  lemma {:induction false} StripRightAt(s: string, b: nat)
    requires 0 < b <= |s| && !IsSpace(s[b - 1])
    requires forall i :: b <= i < |s| ==> IsSpace(s[i])
    ensures StripRight(s) == s[..b]
    decreases |s|
  {
    if b < |s| {
      StripRightAt(s[..|s| - 1], b);
      assert s[..|s| - 1][..b] == s[..b];
    }
  }

  /**
   * `r` is `s[a..a + |r|]` and everything in `s` before and after it is
   * whitespace.
   */
  ghost predicate StrippedAt(s: string, r: string, a: int) {
    && 0 <= a <= |s| - |r| && r == s[a..a + |r|]
    && (forall i :: 0 <= i < a ==> IsSpace(s[i]))
    && (forall i :: a + |r| <= i < |s| ==> IsSpace(s[i]))
  }

  /** What `rstrip()` then `lstrip()` drop is whitespace, on both sides of what they keep. */
  lemma StripFrame(s: string)
    ensures StrippedAt(s, StripRight(StripLeft(s)), |s| - |StripLeft(s)|)
    ensures StripRight(StripLeft(s)) != [] ==> !IsSpace(StripRight(StripLeft(s))[0])
  {
    var l := StripLeft(s);
    var r := StripRight(l);
    var a := |s| - |l|;
    StripLeftSuffix(s);
    StripRightPrefix(l);
    assert l == s[a..];
    TrailingFrame(s, l, r, a);
    assert r != [] ==> r[0] == l[0];
  }

  lemma TrailingFrame(s: string, l: string, r: string, a: nat)
    requires a <= |s| && l == s[a..] && |r| <= |l| && r == l[..|r|]
    requires forall i :: |r| <= i < |l| ==> IsSpace(l[i])
    ensures r == s[a..a + |r|]
    ensures forall i :: a + |r| <= i < |s| ==> IsSpace(s[i])
  {
    forall i | a + |r| <= i < |s| ensures IsSpace(s[i]) {
      assert s[i] == l[i - a];
    }
  }

  /**
   * `str.strip()`: a contiguous part of the text, everything before and
   * after it whitespace, and no whitespace at either of its ends.
   */
  function Strip(s: string): (r: string)
    ensures exists a :: StrippedAt(s, r, a)
    ensures r != [] ==> !IsSpace(r[0]) && !IsSpace(r[|r| - 1])
  {
    StripFrame(s);
    StripRight(StripLeft(s))
  }

  /** `s.split(c)` with an explicit one-character separator. */
  function Split(s: string, c: char): (r: seq<string>)
    ensures |r| >= 1
    ensures forall k :: 0 <= k < |r| ==> c !in r[k]
  {
    if s == [] then [""]
    else
      var rest := Split(s[1..], c);
      if s[0] == c then [""] + rest else [[s[0]] + rest[0]] + rest[1..]
  }

  /** `sep.join(parts)`: no parts give the empty text, and the text starts with the first part. */
  function Join(parts: seq<string>, sep: string): (r: string)
    ensures parts == [] ==> r == ""
    ensures parts != [] ==> |parts[0]| <= |r| && r[..|parts[0]|] == parts[0]
  {
    if |parts| == 0 then ""
    else if |parts| == 1 then parts[0]
    else parts[0] + sep + Join(parts[1..], sep)
  }

  /** Number of occurrences of `c` in `s`. */
  function Occurrences(s: string, c: char): nat {
    multiset(s)[c]
  }

  /** Splitting yields one more piece than there are separators. */
  lemma {:induction false} SplitCount(s: string, c: char)
    ensures |Split(s, c)| == Occurrences(s, c) + 1
  {
    if s != [] {
      SplitCount(s[1..], c);
      assert s == [s[0]] + s[1..];
      assert multiset(s) == multiset([s[0]]) + multiset(s[1..]);
    }
  }

  /** Joining the pieces of a split with the separator gives the text back. */
  lemma {:induction false} JoinSplit(s: string, c: char)
    ensures Join(Split(s, c), [c]) == s
  {
    if s != [] {
      var rest := Split(s[1..], c);
      JoinSplit(s[1..], c);
      if s[0] == c {
        assert Split(s, c) == [""] + rest;
        assert ([""] + rest)[1..] == rest;
      } else {
        var r := Split(s, c);
        assert r[0] == [s[0]] + rest[0];
        if |rest| == 1 {
          assert r == [[s[0]] + rest[0]];
        } else {
          assert r[1..] == rest[1..];
          assert Join(rest, [c]) == rest[0] + [c] + Join(rest[1..], [c]);
        }
      }
    }
  }

  /** Joining one more part adds the separator and that part at the end. */
  lemma {:induction false} JoinAppend(parts: seq<string>, x: string, sep: string)
    requires parts != []
    ensures Join(parts + [x], sep) == Join(parts, sep) + sep + x
    decreases |parts|
  {
    if |parts| == 1 {
      assert (parts + [x])[1..] == [x];
    } else {
      assert (parts + [x])[1..] == parts[1..] + [x];
      JoinAppend(parts[1..], x, sep);
    }
  }

  /** Length of the longest prefix of `s` without whitespace. */
  function Run(s: string): (n: nat)
    ensures n <= |s|
    ensures forall i :: 0 <= i < n ==> !IsSpace(s[i])
    ensures n < |s| ==> IsSpace(s[n])
  {
    if s == [] || IsSpace(s[0]) then 0 else 1 + Run(s[1..])
  }

  /**
   * `s.split()` with no separator: the maximal runs of non-whitespace
   * characters, in order.
   */
  function Words(s: string): (ws: seq<string>)
    ensures forall k :: 0 <= k < |ws| ==> ws[k] != []
    ensures forall k, i :: 0 <= k < |ws| && 0 <= i < |ws[k]| ==> !IsSpace(ws[k][i])
    decreases |s|
  {
    if s == [] then []
    else if IsSpace(s[0]) then Words(s[1..])
    else [s[..Run(s)]] + Words(s[Run(s)..])
  }

  /** Leading whitespace does not change the words. */
  lemma {:induction false} WordsStripLeft(s: string)
    ensures Words(StripLeft(s)) == Words(s)
  {
    if s != [] && IsSpace(s[0]) {
      WordsStripLeft(s[1..]);
    }
  }

  /** Two texts with whitespace at the same places and the same other characters have the same run lengths. */
  lemma {:induction false} RunRespace(a: string, b: string)
    requires |a| == |b|
    requires forall i :: 0 <= i < |a| ==> (IsSpace(a[i]) <==> IsSpace(b[i]))
    requires forall i :: 0 <= i < |a| && !IsSpace(a[i]) ==> a[i] == b[i]
    ensures Run(a) == Run(b) && a[..Run(a)] == b[..Run(b)]
  {
    if a != [] && !IsSpace(a[0]) {
      RunRespace(a[1..], b[1..]);
    }
  }

  /**
   * The words depend only on the non-whitespace characters and on where the
   * whitespace is, not on which whitespace characters they are.
   */
  lemma {:induction false} WordsRespace(a: string, b: string)
    requires |a| == |b|
    requires forall i :: 0 <= i < |a| ==> (IsSpace(a[i]) <==> IsSpace(b[i]))
    requires forall i :: 0 <= i < |a| && !IsSpace(a[i]) ==> a[i] == b[i]
    ensures Words(a) == Words(b)
    decreases |a|
  {
    if a != [] {
      if IsSpace(a[0]) {
        WordsRespace(a[1..], b[1..]);
      } else {
        RunRespace(a, b);
        var n := Run(a);
        WordsRespace(a[n..], b[n..]);
      }
    }
  }
}
