/**
 * `clean_text` (app/endpoints/processing.py): every newline becomes a space,
 * every run of whitespace becomes one space, then the text is lowercased and
 * stripped.
 */
module Cleaning {
  import opened PyStr

  /** `re.sub(r'\n', ' ', text)`. */
  function NewlinesToSpaces(s: string): (r: string)
    ensures |r| == |s|
    ensures forall i :: 0 <= i < |s| ==> r[i] == (if s[i] == '\n' then ' ' else s[i])
  {
    seq(|s|, i requires 0 <= i < |s| => if s[i] == '\n' then ' ' else s[i])
  }

  /** Every whitespace character is a plain space and no two of them touch. */
  ghost predicate SingleSpaced(s: string) {
    && (forall i :: 0 <= i < |s| && IsSpace(s[i]) ==> s[i] == ' ')
    && (forall i :: 0 < i < |s| && IsSpace(s[i]) ==> !IsSpace(s[i - 1]))
  }

  /** What `clean_text` promises of its output. */
  ghost predicate IsClean(s: string) {
    && SingleSpaced(s)
    && (s != [] ==> !IsSpace(s[0]) && !IsSpace(s[|s| - 1]))
    && (forall i :: 0 <= i < |s| ==> !IsUpper(s[i]))
  }

  /**
   * `re.sub(r'\s+', ' ', text)`: each maximal run of whitespace becomes one
   * space; the first character of the result is a space exactly when the
   * first character of the input is whitespace.
   */
  function CollapseSpaces(s: string): (r: string)
    ensures SingleSpaced(r)
    ensures s == [] <==> r == []
    ensures s != [] && IsSpace(s[0]) ==> r[0] == ' '
    ensures s != [] && !IsSpace(s[0]) ==> r[0] == s[0]
    ensures s != [] && IsSpace(s[|s| - 1]) ==> r[|r| - 1] == ' '
    ensures s != [] && !IsSpace(s[|s| - 1]) ==> r[|r| - 1] == s[|s| - 1]
    decreases |s|
  {
    if s == [] then []
    else if IsSpace(s[0]) then StripLeftSuffix(s[1..]); [' '] + CollapseSpaces(StripLeft(s[1..]))
    else [s[0]] + CollapseSpaces(s[1..])
  }

  /** `clean_text(text)`. */
  function CleanText(text: string): (r: string)
    ensures IsClean(r)
    ensures '\n' !in r
  {
    StepsGiveClean(text);
    Strip(Lower(CollapseSpaces(NewlinesToSpaces(text))))
  }

  lemma StepsGiveClean(text: string)
    ensures IsClean(Strip(Lower(CollapseSpaces(NewlinesToSpaces(text)))))
  {
    var collapsed := CollapseSpaces(NewlinesToSpaces(text));
    LowerKeepsSingleSpaced(collapsed);
    StripGivesClean(Lower(collapsed));
  }

  lemma StripGivesClean(s: string)
    requires SingleSpaced(s)
    requires forall i :: 0 <= i < |s| ==> !IsUpper(s[i])
    ensures IsClean(Strip(s))
  {
    StripKeepsSingleSpaced(s);
    var r := Strip(s);
    var a :| StrippedAt(s, r, a);
    forall i | 0 <= i < |r| ensures !IsUpper(r[i]) {
      assert r[i] == s[a + i];
    }
  }

  lemma LowerKeepsSingleSpaced(s: string)
    requires SingleSpaced(s)
    ensures SingleSpaced(Lower(s))
  {
  }

  lemma StripKeepsSingleSpaced(s: string)
    requires SingleSpaced(s)
    ensures SingleSpaced(Strip(s))
  {
    var r := Strip(s);
    var a :| StrippedAt(s, r, a);
    forall i | 0 < i < |r| && IsSpace(r[i]) ensures !IsSpace(r[i - 1]) {
      assert r[i] == s[a + i] && r[i - 1] == s[a + i - 1];
    }
  }

  /** A text that is already clean is left unchanged by each step. */
  lemma {:induction false} CollapseFixes(s: string)
    requires SingleSpaced(s)
    ensures CollapseSpaces(s) == s
    decreases |s|
  {
    if s != [] {
      var t := s[1..];
      assert SingleSpaced(t) by {
        forall i | 0 < i < |t| && IsSpace(t[i]) ensures !IsSpace(t[i - 1]) {
          assert t[i] == s[i + 1];
        }
      }
      if IsSpace(s[0]) {
        assert t != [] ==> !IsSpace(t[0]) by {
          if t != [] { assert t[0] == s[1]; }
        }
        assert StripLeft(t) == t;
      }
      CollapseFixes(t);
    }
  }

  /** `clean_text` is idempotent on a clean text. */
  lemma CleanTextFixesClean(s: string)
    requires IsClean(s)
    ensures CleanText(s) == s
  {
    NewlinesFix(s);
    CollapseFixes(s);
    LowerFixes(s);
    StripFixes(s);
  }

  lemma NewlinesFix(s: string)
    requires SingleSpaced(s)
    ensures NewlinesToSpaces(s) == s
  {
    forall i | 0 <= i < |s| ensures s[i] != '\n' {
      if s[i] == '\n' { assert IsSpace(s[i]); }
    }
  }

  lemma LowerFixes(s: string)
    requires forall i :: 0 <= i < |s| ==> !IsUpper(s[i])
    ensures Lower(s) == s
  {
  }

  lemma StripFixes(s: string)
    requires s != [] ==> !IsSpace(s[0]) && !IsSpace(s[|s| - 1])
    ensures Strip(s) == s
  {
    assert StripLeft(s) == s;
  }

  /** `clean_text(clean_text(t)) == clean_text(t)`. */
  lemma CleanTextIdempotent(t: string)
    ensures CleanText(CleanText(t)) == CleanText(t)
  {
    CleanTextFixesClean(CleanText(t));
  }

  /** The characters of a text other than whitespace, in order. */
  function Visible(s: string): (r: string)
    ensures forall i :: 0 <= i < |r| ==> !IsSpace(r[i])
  {
    if s == [] then []
    else if IsSpace(s[0]) then Visible(s[1..])
    else [s[0]] + Visible(s[1..])
  }

  lemma {:induction false} VisibleAppend(a: string, b: string)
    ensures Visible(a + b) == Visible(a) + Visible(b)
  {
    if a != [] {
      assert (a + b)[1..] == a[1..] + b;
      VisibleAppend(a[1..], b);
    } else {
      assert a + b == b;
    }
  }

  lemma {:induction false} VisibleOfSpaces(s: string)
    requires forall i :: 0 <= i < |s| ==> IsSpace(s[i])
    ensures Visible(s) == []
  {
    if s != [] {
      VisibleOfSpaces(s[1..]);
    }
  }

  lemma {:induction false} VisibleNewlines(s: string)
    ensures Visible(NewlinesToSpaces(s)) == Visible(s)
  {
    if s != [] {
      assert NewlinesToSpaces(s)[1..] == NewlinesToSpaces(s[1..]);
      VisibleNewlines(s[1..]);
    }
  }

  lemma {:induction false} VisibleStripLeft(s: string)
    ensures Visible(StripLeft(s)) == Visible(s)
  {
    var r := StripLeft(s);
    StripLeftSuffix(s);
    assert s == s[..|s| - |r|] + r;
    VisibleAppend(s[..|s| - |r|], r);
    VisibleOfSpaces(s[..|s| - |r|]);
  }

  lemma {:induction false} VisibleStrip(s: string)
    ensures Visible(Strip(s)) == Visible(s)
  {
    VisibleStripLeft(s);
    var l := StripLeft(s);
    var r := StripRight(l);
    StripRightPrefix(l);
    assert l == r + l[|r|..];
    VisibleAppend(r, l[|r|..]);
    VisibleOfSpaces(l[|r|..]);
  }

  lemma {:induction false} VisibleCollapse(s: string)
    ensures Visible(CollapseSpaces(s)) == Visible(s)
    decreases |s|
  {
    if s != [] {
      if IsSpace(s[0]) {
        VisibleCollapse(StripLeft(s[1..]));
        VisibleStripLeft(s[1..]);
      } else {
        VisibleCollapse(s[1..]);
      }
    }
  }

  lemma {:induction false} VisibleLower(s: string)
    ensures Visible(Lower(s)) == Lower(Visible(s))
  {
    if s != [] {
      assert Lower(s)[1..] == Lower(s[1..]);
      VisibleLower(s[1..]);
      if !IsSpace(s[0]) {
        assert Lower([s[0]] + Visible(s[1..])) == [LowerChar(s[0])] + Lower(Visible(s[1..]));
      }
    }
  }

  /**
   * `clean_text` loses no word character: what is not whitespace in the
   * result is exactly the lowercased non-whitespace of the input, in order.
   */
  lemma CleanTextKeepsVisible(t: string)
    ensures Visible(CleanText(t)) == Lower(Visible(t))
  {
    var n := NewlinesToSpaces(t);
    var c := CollapseSpaces(n);
    VisibleNewlines(t);
    VisibleCollapse(n);
    VisibleLower(c);
    VisibleStrip(Lower(c));
  }

  /** Copying a run of non-whitespace characters: the run comes through as it is. */
  lemma {:induction false} CollapseWord(s: string, n: nat)
    requires n <= |s|
    requires forall i :: 0 <= i < n ==> !IsSpace(s[i])
    ensures CollapseSpaces(s) == s[..n] + CollapseSpaces(s[n..])
  {
    if n > 0 {
      var t := s[1..];
      calc {
        CollapseSpaces(s);
      == { CollapseCopies(s); }
        [s[0]] + CollapseSpaces(t);
      == { CollapseWord(t, n - 1); assert t[n - 1..] == s[n..]; }
        [s[0]] + (t[..n - 1] + CollapseSpaces(s[n..]));
      == { assert s[..n] == [s[0]] + t[..n - 1]; }
        s[..n] + CollapseSpaces(s[n..]);
      }
    }
  }

  /** A non-whitespace first character is copied and the rest collapsed. */
  lemma CollapseCopies(s: string)
    requires s != [] && !IsSpace(s[0])
    ensures CollapseSpaces(s) == [s[0]] + CollapseSpaces(s[1..])
  {
  }

  /** Stripping trailing whitespace off `a + b` only touches `b`, when `b` keeps something. */
  lemma {:induction false} StripRightAppend(a: string, b: string)
    requires StripRight(b) != []
    ensures StripRight(a + b) == a + StripRight(b)
    decreases |b|
  {
    if IsSpace(b[|b| - 1]) {
      assert (a + b)[..|a + b| - 1] == a + b[..|b| - 1];
      StripRightAppend(a, b[..|b| - 1]);
    }
  }

  /** A text that starts with a word keeps something after `rstrip()`. */
  lemma StripRightKeepsWord(b: string)
    requires b != [] && !IsSpace(b[0])
    ensures StripRight(b) != []
  {
  }

  /** A single trailing space is dropped by `rstrip()`. */
  lemma TrailingSpace(w: string)
    requires w != [] && !IsSpace(w[|w| - 1])
    ensures StripRight(w + [' ']) == w
  {
    assert (w + [' '])[..|w|] == w;
  }

  /** A space then a word: `rstrip()` keeps the space and strips only what follows the word. */
  lemma SpaceThenWord(w: string, c: string)
    requires c != [] && !IsSpace(c[0])
    ensures StripRight(w + [' '] + c) == w + " " + StripRight(c)
  {
    StripRightKeepsWord(c);
    StripRightAppend(w + [' '], c);
  }

  /** Between two words: the whitespace run collapses to one space, or vanishes at the end of the text. */
  lemma GapStep(w: string, rest: string)
    requires w != [] && !IsSpace(w[|w| - 1])
    requires rest != [] && IsSpace(rest[0])
    ensures var r2 := StripLeft(rest[1..]);
      && Words(rest) == Words(r2)
      && (r2 == [] ==> StripRight(w + CollapseSpaces(rest)) == w)
      && (r2 != [] ==> StripRight(w + CollapseSpaces(rest)) == w + " " + StripRight(CollapseSpaces(r2)))
  {
    var r2 := StripLeft(rest[1..]);
    assert CollapseSpaces(rest) == [' '] + CollapseSpaces(r2);
    assert w + CollapseSpaces(rest) == w + [' '] + CollapseSpaces(r2);
    WordsStripLeft(rest[1..]);
    if r2 == [] {
      TrailingSpace(w);
    } else {
      SpaceThenWord(w, CollapseSpaces(r2));
    }
  }

  /**
   * From a word on, collapsing and stripping the trailing whitespace gives
   * the words joined by single spaces.
   */
  lemma {:induction false} CollapseWordsFrom(s: string)
    requires s == [] || !IsSpace(s[0])
    ensures StripRight(CollapseSpaces(s)) == Join(Words(s), " ")
    decreases |s|
  {
    if s != [] {
      var n := Run(s);
      var w, rest := s[..n], s[n..];
      assert Words(s) == [w] + Words(rest);
      CollapseWord(s, n);
      if rest == [] {
        assert CollapseSpaces(s) == w;
      } else {
        GapStep(w, rest);
        var r2 := StripLeft(rest[1..]);
        if r2 != [] {
          CollapseWordsFrom(r2);
          assert Words(r2) != [];
          assert ([w] + Words(r2))[1..] == Words(r2);
        }
      }
    }
  }

  /** Leading whitespace collapses to one space, which `lstrip()` then drops. */
  lemma StripLeftCollapse(s: string)
    ensures StripLeft(CollapseSpaces(s)) == CollapseSpaces(StripLeft(s))
  {
    if s != [] && IsSpace(s[0]) {
      var z := CollapseSpaces(StripLeft(s[1..]));
      assert CollapseSpaces(s) == [' '] + z;
      assert ([' '] + z)[1..] == z;
      assert StripLeft(z) == z;
    }
  }

  /** `" ".join(s.split())` is what collapsing and stripping give. */
  lemma CollapseJoinsWords(s: string)
    ensures Strip(CollapseSpaces(s)) == Join(Words(s), " ")
  {
    StripLeftCollapse(s);
    WordsStripLeft(s);
    CollapseWordsFrom(StripLeft(s));
  }

  lemma {:induction false} LowerStripLeft(s: string)
    ensures Lower(StripLeft(s)) == StripLeft(Lower(s))
  {
    if s != [] && IsSpace(s[0]) {
      assert Lower(s)[1..] == Lower(s[1..]);
      LowerStripLeft(s[1..]);
    }
  }

  /** Lowercasing commutes with collapsing the whitespace. */
  lemma {:induction false} LowerCollapse(s: string)
    ensures Lower(CollapseSpaces(s)) == CollapseSpaces(Lower(s))
    decreases |s|
  {
    if s != [] {
      assert Lower(s)[1..] == Lower(s[1..]);
      if IsSpace(s[0]) {
        var t := StripLeft(s[1..]);
        calc {
          Lower(CollapseSpaces(s));
          Lower([' '] + CollapseSpaces(t));
        == { assert Lower([' '] + CollapseSpaces(t)) == [' '] + Lower(CollapseSpaces(t)); }
          [' '] + Lower(CollapseSpaces(t));
        == { LowerCollapse(t); }
          [' '] + CollapseSpaces(Lower(t));
        == { LowerStripLeft(s[1..]); }
          CollapseSpaces(Lower(s));
        }
      } else {
        var t := s[1..];
        calc {
          Lower(CollapseSpaces(s));
        == { CollapseCopies(s); }
          Lower([s[0]] + CollapseSpaces(t));
        == { assert Lower([s[0]] + CollapseSpaces(t)) == [LowerChar(s[0])] + Lower(CollapseSpaces(t)); }
          [LowerChar(s[0])] + Lower(CollapseSpaces(t));
        == { LowerCollapse(t); }
          [LowerChar(s[0])] + CollapseSpaces(Lower(t));
          CollapseSpaces(Lower(s));
        }
      }
    }
  }

  /**
   * `clean_text(t) == " ".join(t.lower().split())`: the words of the text,
   * lowercased, each separated from the next by exactly one space.
   */
  lemma CleanTextJoinsWords(t: string)
    ensures CleanText(t) == Join(Words(Lower(t)), " ")
  {
    var n := NewlinesToSpaces(t);
    calc {
      CleanText(t);
      Strip(Lower(CollapseSpaces(n)));
    == { LowerCollapse(n); }
      Strip(CollapseSpaces(Lower(n)));
    == { CollapseJoinsWords(Lower(n)); }
      Join(Words(Lower(n)), " ");
    == { WordsRespace(Lower(n), Lower(t)); }
      Join(Words(Lower(t)), " ");
    }
  }

  /** A run of non-whitespace characters ended by whitespace, or by the end of the text. */
  lemma {:induction false} RunOfWord(w: string, rest: string)
    requires forall i :: 0 <= i < |w| ==> !IsSpace(w[i])
    requires rest == [] || IsSpace(rest[0])
    ensures Run(w + rest) == |w|
  {
    if w != [] {
      assert (w + rest)[1..] == w[1..] + rest;
      RunOfWord(w[1..], rest);
    } else {
      assert w + rest == rest;
    }
  }

  /** A word followed by whitespace, or by nothing, is the first word. */
  lemma WordsOfWord(w: string, rest: string)
    requires w != []
    requires forall i :: 0 <= i < |w| ==> !IsSpace(w[i])
    requires rest == [] || IsSpace(rest[0])
    ensures Words(w + rest) == [w] + Words(rest)
  {
    RunOfWord(w, rest);
    assert (w + rest)[..|w|] == w && (w + rest)[|w|..] == rest;
  }

  /** Two words with one whitespace character between them are two words. */
  lemma WordsOfTwo(a: string, c: char, b: string)
    requires a != [] && b != [] && IsSpace(c)
    requires forall i :: 0 <= i < |a| ==> !IsSpace(a[i])
    requires forall i :: 0 <= i < |b| ==> !IsSpace(b[i])
    ensures Words(a + [c] + b) == [a, b]
  {
    assert a + [c] + b == a + ([c] + b);
    WordsOfWord(a, [c] + b);
    assert ([c] + b)[1..] == b;
    assert Words([c] + b) == Words(b);
    WordsOfWord(b, []);
    assert b + [] == b;
  }

  /**
   * Two lowercase words on either side of a line break come out as two
   * words, one space apart: the line break separates them.
   */
  lemma LineBreakSeparates(a: string, b: string)
    requires a != [] && b != []
    requires forall i :: 0 <= i < |a| ==> !IsSpace(a[i]) && !IsUpper(a[i])
    requires forall i :: 0 <= i < |b| ==> !IsSpace(b[i]) && !IsUpper(b[i])
    ensures CleanText(a + "\n" + b) == a + " " + b
  {
    var t := a + "\n" + b;
    calc {
      CleanText(t);
    == { CleanTextJoinsWords(t); }
      Join(Words(Lower(t)), " ");
    == { assert forall i :: 0 <= i < |t| ==> !IsUpper(t[i]); LowerFixes(t); }
      Join(Words(t), " ");
    == { WordsOfTwo(a, '\n', b); }
      Join([a, b], " ");
    == { assert [a, b][1..] == [b]; }
      a + " " + b;
    }
  }
}
