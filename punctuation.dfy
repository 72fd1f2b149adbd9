/**
 * `replace_unicode` (app/endpoints/processing.py): a table of fifteen
 * characters, each with its replacement, applied to the text one entry after
 * another with `str.replace`. Typographic dashes become `-`, curly quotes
 * become straight ones, and eight accented Latin letters are replaced by
 * themselves.
 */
module Punctuation {

  /** Pairs of (character, replacement), in the order the loop visits them. */
  type Table = seq<(char, char)>

  /** The table of `replace_unicode`, in insertion order (the order `dict.items()` yields). */
  const Replacements: Table := [
    ('\U{2011}', '-'),   // non-breaking hyphen
    ('\U{2013}', '-'),   // en dash
    ('\U{2014}', '-'),   // em dash
    ('\U{2018}', '\''),  // left single quote
    ('\U{2019}', '\''),  // right single quote
    ('\U{201C}', '"'),   // left double quote
    ('\U{201D}', '"'),   // right double quote
    ('\U{00E1}', '\U{00E1}'),
    ('\U{00E9}', '\U{00E9}'),
    ('\U{00ED}', '\U{00ED}'),
    ('\U{00F3}', '\U{00F3}'),
    ('\U{00FA}', '\U{00FA}'),
    ('\U{00EF}', '\U{00EF}'),
    ('\U{00FC}', '\U{00FC}'),
    ('\U{00F1}', '\U{00F1}')
  ]

  const Dashes: set<char> := {'\U{2011}', '\U{2013}', '\U{2014}'}
  const SingleQuotes: set<char> := {'\U{2018}', '\U{2019}'}
  const DoubleQuotes: set<char> := {'\U{201C}', '\U{201D}'}

  /** `s.replace(from, to)` for one-character arguments. */
  function ReplaceChar(s: string, from: char, to: char): string {
    seq(|s|, i requires 0 <= i < |s| => if s[i] == from then to else s[i])
  }

  /** What running the replacements of `rs`, in order, does to the character `c`. */
  function Apply(rs: Table, c: char): char
    decreases |rs|
  {
    if rs == [] then c
    else
      var d := Apply(rs[..|rs| - 1], c);
      if d == rs[|rs| - 1].0 then rs[|rs| - 1].1 else d
  }

  /** Some entry of `rs` has `c` as its source. */
  ghost predicate Listed(rs: Table, c: char) {
    exists i :: 0 <= i < |rs| && rs[i].0 == c
  }

  /** The replacement of the first entry whose source is `c`; `c` itself when there is none. */
  function Lookup(rs: Table, c: char): char {
    if rs == [] then c
    else if rs[0].0 == c then rs[0].1
    else Lookup(rs[1..], c)
  }

  /** An entry's source is listed in a table just when it is listed in the table's tail, or heads it. */
  lemma ListedTail(rs: Table, c: char)
    requires rs != []
    ensures Listed(rs, c) <==> rs[0].0 == c || Listed(rs[1..], c)
  {
    if Listed(rs, c) && rs[0].0 != c {
      var i :| 0 <= i < |rs| && rs[i].0 == c;
      assert rs[1..][i - 1].0 == c;
    }
    if Listed(rs[1..], c) {
      var i :| 0 <= i < |rs[1..]| && rs[1..][i].0 == c;
      assert rs[i + 1].0 == c;
    }
  }

  /** A listed character is looked up to the replacement of an entry with its source; any other is kept. */
  lemma {:induction false} LookupFound(rs: Table, c: char)
    ensures !Listed(rs, c) ==> Lookup(rs, c) == c
    ensures Listed(rs, c) ==> exists i :: 0 <= i < |rs| && rs[i].0 == c && Lookup(rs, c) == rs[i].1
    decreases |rs|
  {
    if rs != [] {
      ListedTail(rs, c);
      if rs[0].0 != c {
        LookupFound(rs[1..], c);
        if Listed(rs[1..], c) {
          var i :| 0 <= i < |rs[1..]| && rs[1..][i].0 == c && Lookup(rs[1..], c) == rs[1..][i].1;
          assert rs[i + 1].0 == c;
        }
      }
    }
  }

  /** No replacement is the source of a later entry, so no character is replaced twice. */
  ghost predicate Unchained(rs: Table) {
    forall i, j :: 0 <= i < j < |rs| ==> rs[i].1 != rs[j].0
  }

  /** Appending an entry changes the lookup only of a character listed nowhere before it. */
  lemma {:induction false} LookupAppend(rs: Table, e: (char, char), c: char)
    ensures Lookup(rs + [e], c) == if Listed(rs, c) then Lookup(rs, c) else if e.0 == c then e.1 else c
    decreases |rs|
  {
    if rs == [] {
      assert !Listed(rs, c);
    } else if rs[0].0 == c {
      assert Listed(rs, c);
    } else {
      assert (rs + [e])[1..] == rs[1..] + [e];
      LookupAppend(rs[1..], e, c);
      ListedTail(rs, c);
    }
  }

  /**
   * In an unchained table, running the replacements one after another is a
   * single lookup per character.
   */
  lemma {:induction false} ApplyIsLookup(rs: Table, c: char)
    requires Unchained(rs)
    ensures Apply(rs, c) == Lookup(rs, c)
    decreases |rs|
  {
    if rs != [] {
      var init, e := rs[..|rs| - 1], rs[|rs| - 1];
      assert rs == init + [e];
      assert Unchained(init);
      ApplyIsLookup(init, c);
      LookupAppend(init, e, c);
      LookupFound(init, c);
      if Listed(init, c) {
        var i :| 0 <= i < |init| && init[i].0 == c && Lookup(init, c) == init[i].1;
        assert rs[i].1 != rs[|rs| - 1].0;
      }
    }
  }

  /** The table of `replace_unicode` is unchained. */
  lemma ReplacementsUnchained()
    ensures Unchained(Replacements)
  {
    forall i, j | 0 <= i < j < |Replacements| ensures Replacements[i].1 != Replacements[j].0 {
      assert Replacements[i].1 in {'-', '\'', '"'} || Replacements[i].1 == Replacements[i].0;
    }
  }

  /** What `replace_unicode` does to one character. */
  function Translate(c: char): char {
    Lookup(Replacements, c)
  }

  /** What `replace_unicode` does to a text: each character translated on its own. */
  function Translated(s: string): (r: string)
    ensures |r| == |s|
  {
    seq(|s|, i requires 0 <= i < |s| => Translate(s[i]))
  }

  /**
   * `replace_unicode`: one `str.replace` over the whole text per table entry,
   * in table order.
   */
  method ReplaceUnicode(text: string) returns (r: string)
    ensures r == Translated(text)
  {
    r := text;
    for k := 0 to |Replacements|
      invariant |r| == |text|
      invariant forall i :: 0 <= i < |r| ==> r[i] == Apply(Replacements[..k], text[i])
    {
      var (from, to) := Replacements[k];
      assert Replacements[..k + 1][..k] == Replacements[..k];
      r := ReplaceChar(r, from, to);
    }
    assert Replacements[..|Replacements|] == Replacements;
    ReplacementsUnchained();
    forall i | 0 <= i < |r| ensures r[i] == Translate(text[i]) {
      ApplyIsLookup(Replacements, text[i]);
    }
  }

  /** Every dash and curly quote is the source of an entry of the table. */
  lemma SourcesListed(c: char)
    ensures c in Dashes + SingleQuotes + DoubleQuotes ==> Listed(Replacements, c)
  {
    if c in Dashes + SingleQuotes + DoubleQuotes {
      var i := if c == '\U{2011}' then 0 else if c == '\U{2013}' then 1 else if c == '\U{2014}' then 2
               else if c == '\U{2018}' then 3 else if c == '\U{2019}' then 4 else if c == '\U{201C}' then 5 else 6;
      assert Replacements[i].0 == c;
    }
  }

  /**
   * The three dashes become `-`, the two curly single quotes `'`, the two
   * curly double quotes `"`; every other character, accented letters
   * included, is left alone.
   */
  lemma TranslateChar(c: char)
    ensures Translate(c) == if c in Dashes then '-' else if c in SingleQuotes then '\''
                            else if c in DoubleQuotes then '"' else c
  {
    LookupFound(Replacements, c);
    SourcesListed(c);
    if Listed(Replacements, c) {
      var i :| 0 <= i < |Replacements| && Replacements[i].0 == c && Translate(c) == Replacements[i].1;
      EntryKind(i);
    }
  }

  /** Entries 0-2 are the dashes, 3-4 the single quotes, 5-6 the double quotes, the rest map a letter to itself. */
  lemma EntryKind(i: nat)
    requires i < |Replacements|
    ensures var (c, d) := Replacements[i];
      d == if c in Dashes then '-' else if c in SingleQuotes then '\''
           else if c in DoubleQuotes then '"' else c
  {
  }

  /** After `replace_unicode`, no typographic dash or curly quote is left. */
  lemma TranslatedIsPlain(s: string)
    ensures forall i :: 0 <= i < |s| ==> Translated(s)[i] !in Dashes + SingleQuotes + DoubleQuotes
  {
    forall i | 0 <= i < |s| ensures Translated(s)[i] !in Dashes + SingleQuotes + DoubleQuotes {
      TranslateChar(s[i]);
    }
  }

  /** Characters that are neither dashes nor curly quotes come through unchanged. */
  lemma TranslatedKeepsOthers(s: string)
    ensures forall i :: 0 <= i < |s| && s[i] !in Dashes + SingleQuotes + DoubleQuotes ==> Translated(s)[i] == s[i]
  {
    forall i | 0 <= i < |s| && s[i] !in Dashes + SingleQuotes + DoubleQuotes ensures Translated(s)[i] == s[i] {
      TranslateChar(s[i]);
    }
  }

  /** Replacing a second time changes nothing. */
  lemma TranslatedIdempotent(s: string)
    ensures Translated(Translated(s)) == Translated(s)
  {
    forall i | 0 <= i < |s| ensures Translate(Translate(s[i])) == Translate(s[i]) {
      TranslateChar(s[i]);
      TranslateChar(Translate(s[i]));
    }
  }
}
