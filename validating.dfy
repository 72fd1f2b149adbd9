/**
 * `validate_entropy` (app/endpoints/validating.py): the Shannon entropy of
 * the author, institution and technology frequency tables, of each section's
 * keywords and of the research-gap keywords, each labelled high or low
 * diversity against a fixed threshold.
 *
 * Floats are modelled as reals and `math.log2` is a parameter `log2`; the
 * keyword extraction of `apply_ner_to_section` is a parameter `keywordsOf`.
 */
module Validating {
  import opened Wrappers
  import opened Http
  import opened Frequencies

  /** `DIVERSITY_THRESHOLD`. */
  const DiversityThreshold: real := 1.5
  const High: string := "Alta diversidad"
  const Low: string := "Baja diversidad"
  const ValidationFailed: string := "Error en la validación de la entropía"
  const Validated: string := "Validation completed successfully"

  /** `ValidationRequest`: every field optional, `None` when absent. */
  datatype Request = Request(
    researchGaps: Option<string>,
    authors: Option<map<string, int>>,
    institutions: Option<map<string, int>>,
    technologies: Option<map<string, int>>,
    sections: Option<map<string, string>>)

  /** The `diversity_evaluation` dictionary. */
  datatype Evaluation = Evaluation(
    authors: string, institutions: string, technologies: string,
    sections: map<string, string>, researchGaps: string)

  /** The success response. */
  datatype Validation = Validation(
    message: string, entropyValues: map<string, real>,
    evaluation: Evaluation, researchGaps: Option<string>)

  /** One entry's part of the entropy: `-p * log2(p)` for a positive probability `p = count / total`, nothing otherwise. */
  function Term(count: int, total: int, log2: real -> real): real
    requires total != 0
  {
    var p := count as real / total as real;
    if p > 0.0 then -(p * log2(p)) else 0.0
  }

  /** The sum of the entries' terms. */
  ghost function Spread(m: map<string, int>, total: int, log2: real -> real): real
    requires total != 0
    decreases |m.Keys|
  {
    if m == map[] then 0.0
    else
      var k :| k in m;
      Term(m[k], total, log2) + Spread(m - {k}, total, log2)
  }

  /** The Shannon entropy of a frequency table: 0 when its counts add up to 0. */
  ghost function Entropy(m: map<string, int>, log2: real -> real): real {
    if Total(m) == 0 then 0.0 else Spread(m, Total(m), log2)
  }

  /** Removing one key takes its term off the sum, whichever key it is. */
  lemma {:induction false} SpreadRemove(m: map<string, int>, k: string, total: int, log2: real -> real)
    requires total != 0 && k in m
    ensures Spread(m, total, log2) == Term(m[k], total, log2) + Spread(m - {k}, total, log2)
    decreases |m.Keys|
  {
    var j :| j in m && Spread(m, total, log2) == Term(m[j], total, log2) + Spread(m - {j}, total, log2);
    if j != k {
      SpreadRemove(m - {j}, k, total, log2);
      SpreadRemove(m - {k}, j, total, log2);
      assert m - {j} - {k} == m - {k} - {j};
    }
  }

  /** The step of the loop: a positive probability takes `p * log2(p)` off, any other leaves the entropy alone. */
  lemma TermStep(entropy: real, count: int, total: int, log2: real -> real)
    requires total != 0
    ensures var p := count as real / total as real;
      (if p > 0.0 then entropy - p * log2(p) else entropy) == entropy + Term(count, total, log2)
  {
  }

  /** The loop's invariant survives handling one more entry. */
  lemma SpreadStep(data: map<string, int>, rest: map<string, int>, k: string, total: int, log2: real -> real,
                   before: real, after: real)
    requires total != 0 && k in rest
    requires before + Spread(rest, total, log2) == Spread(data, total, log2)
    requires var p := rest[k] as real / total as real;
      after == if p > 0.0 then before - p * log2(p) else before
    ensures after + Spread(rest - {k}, total, log2) == Spread(data, total, log2)
  {
    SpreadRemove(rest, k, total, log2);
    TermStep(before, rest[k], total, log2);
  }

  /** `sum(data.values())`. */
  method SumValues(data: map<string, int>) returns (total: int)
    ensures total == Total(data)
  {
    total := 0;
    var rest := data;
    while rest != map[]
      invariant total + Total(rest) == Total(data)
      decreases |rest.Keys|
    {
      var k :| k in rest;
      TotalRemove(rest, k);
      total := total + rest[k];
      rest := rest - {k};
    }
  }

  /**
   * `calculate_shannon_entropy`: the counts are summed first; a zero total
   * gives 0, otherwise each entry with a positive probability takes
   * `p * log2(p)` off the running entropy.
   */
  method ShannonEntropy(data: map<string, int>, log2: real -> real) returns (entropy: real)
    ensures Total(data) == 0 ==> entropy == 0.0
    ensures entropy == Entropy(data, log2)
  {
    var total := SumValues(data);
    if total == 0 {
      return 0.0;
    }
    entropy := 0.0;
    var rest := data;
    while rest != map[]
      invariant entropy + Spread(rest, total, log2) == Spread(data, total, log2)
      decreases |rest.Keys|
    {
      var k :| k in rest;
      ghost var before := entropy;
      var probability := rest[k] as real / total as real;
      if probability > 0.0 {
        entropy := entropy - probability * log2(probability);
      }
      SpreadStep(data, rest, k, total, log2, before, entropy);
      rest := rest - {k};
    }
  }

  /** An entry's term is never negative when its count lies between 0 and the total and the logarithm is never positive on (0, 1]. */
  lemma TermNonNegative(count: int, total: int, log2: real -> real)
    requires 0 <= count <= total && total > 0
    requires forall p: real :: 0.0 < p <= 1.0 ==> log2(p) <= 0.0
    ensures Term(count, total, log2) >= 0.0
  {
    var p := count as real / total as real;
    assert p <= 1.0;
    if p > 0.0 {
      assert log2(p) <= 0.0;
      assert p * log2(p) <= 0.0;
    }
  }

  /** With non-negative counts and a logarithm that is never positive on (0, 1], the entropy is never negative. */
  lemma {:induction false} SpreadNonNegative(m: map<string, int>, total: int, log2: real -> real)
    requires total > 0
    requires forall k :: k in m ==> 0 <= m[k] <= total
    requires forall p: real :: 0.0 < p <= 1.0 ==> log2(p) <= 0.0
    ensures Spread(m, total, log2) >= 0.0
    decreases |m.Keys|
  {
    if m != map[] {
      var k :| k in m;
      SpreadRemove(m, k, total, log2);
      SpreadNonNegative(m - {k}, total, log2);
      TermNonNegative(m[k], total, log2);
    }
  }

  /** A count never exceeds the total of non-negative counts. */
  lemma {:induction false} CountBelowTotal(m: map<string, int>, k: string)
    requires forall j :: j in m ==> m[j] >= 0
    requires k in m
    ensures Total(m) >= m[k]
    decreases |m.Keys|
  {
    TotalRemove(m, k);
    TotalNonNegative(m - {k});
  }

  lemma {:induction false} TotalNonNegative(m: map<string, int>)
    requires forall j :: j in m ==> m[j] >= 0
    ensures Total(m) >= 0
    decreases |m.Keys|
  {
    if m != map[] {
      var k :| k in m;
      TotalRemove(m, k);
      TotalNonNegative(m - {k});
    }
  }

  /** The entropy of a table of non-negative counts is never negative. */
  lemma EntropyNonNegative(m: map<string, int>, log2: real -> real)
    requires forall k :: k in m ==> m[k] >= 0
    requires forall p: real :: 0.0 < p <= 1.0 ==> log2(p) <= 0.0
    ensures Entropy(m, log2) >= 0.0
  {
    TotalNonNegative(m);
    if Total(m) != 0 {
      forall k | k in m ensures m[k] <= Total(m) {
        CountBelowTotal(m, k);
      }
      SpreadNonNegative(m, Total(m), log2);
    }
  }

  /** A table with a single positive count has entropy `-log2(1)`, which is 0. */
  lemma SingleEntryEntropy(k: string, c: int, log2: real -> real)
    requires c > 0 && log2(1.0) == 0.0
    ensures Entropy(map[k := c], log2) == 0.0
  {
    var m := map[k := c];
    TotalRemove(m, k);
    assert m - {k} == map[];
    SpreadRemove(m, k, c, log2);
    assert c as real / c as real == 1.0;
  }

  /** The table of no keywords, and any table whose counts add up to 0, has entropy 0. */
  lemma ZeroTotalEntropy(m: map<string, int>, log2: real -> real)
    ensures Total<string>(map[]) == 0 && Entropy(map[], log2) == 0.0
    ensures Total(m) == 0 ==> Entropy(m, log2) == 0.0
  {
  }

  /** The diversity label: high exactly when the entropy is above the threshold, low otherwise. */
  function Label(entropy: real): (l: string)
    ensures l == High || l == Low
    ensures l == High <==> entropy > DiversityThreshold
  {
    if entropy > DiversityThreshold then High else Low
  }

  /** The label is high exactly above the threshold: the threshold itself is low diversity. */
  lemma LabelMeaning(entropy: real)
    ensures Label(entropy) == High <==> entropy > 1.5
    ensures Label(entropy) == Low <==> entropy <= 1.5
    ensures Label(1.5) == Low
  {
  }

  /** The entropy of every section's keywords, keyed by section name. */
  ghost function SectionEntropies(sections: map<string, string>, keywordsOf: string -> seq<string>, log2: real -> real): map<string, real> {
    map k | k in sections :: Entropy(Tally(keywordsOf(sections[k])), log2)
  }

  /** The loop that fills `sections_entropies`, one section at a time. */
  method EntropyPerSection(sections: map<string, string>, keywordsOf: string -> seq<string>, log2: real -> real)
    returns (entropies: map<string, real>)
    ensures entropies == SectionEntropies(sections, keywordsOf, log2)
  {
    entropies := map[];
    var todo := sections.Keys;
    while todo != {}
      invariant todo <= sections.Keys
      invariant entropies.Keys == sections.Keys - todo
      invariant forall k :: k in entropies ==> entropies[k] == Entropy(Tally(keywordsOf(sections[k])), log2)
      decreases |todo|
    {
      var name :| name in todo;
      var keywords := keywordsOf(sections[name]);
      var frequency := KeywordFrequencies(keywords);
      var entropy := ShannonEntropy(frequency, log2);
      entropies := entropies[name := entropy];
      todo := todo - {name};
    }
  }

  /** A dict or string is truthy when present and non-empty. */
  predicate TableGiven(t: Option<map<string, int>>) {
    t.Some? && t.value != map[]
  }

  /** The research-gap entropy: computed only for a present, non-empty text, else 0. */
  ghost function GapEntropy(researchGaps: Option<string>, keywordsOf: string -> seq<string>, log2: real -> real): real {
    if researchGaps.Some? && researchGaps.value != "" then Entropy(Tally(keywordsOf(researchGaps.value)), log2) else 0.0
  }

  /** The `entropy_values` dictionary: the section entries follow the three tables and precede the research gap. */
  function EntropyValues(a: real, i: real, t: real, sections: map<string, real>, gap: real): (m: map<string, real>)
    ensures m.Keys == {"authors_entropy", "institutions_entropy", "technologies_entropy", "research_gap_entropy"} + sections.Keys
    ensures m["research_gap_entropy"] == gap
    ensures forall k :: k in sections && k != "research_gap_entropy" ==> m[k] == sections[k]
    ensures "authors_entropy" !in sections ==> m["authors_entropy"] == a
    ensures "institutions_entropy" !in sections ==> m["institutions_entropy"] == i
    ensures "technologies_entropy" !in sections ==> m["technologies_entropy"] == t
  {
    (map["authors_entropy" := a, "institutions_entropy" := i, "technologies_entropy" := t] + sections)["research_gap_entropy" := gap]
  }

  /** The response for a request that passes every check. */
  ghost function Expected(req: Request, keywordsOf: string -> seq<string>, log2: real -> real): Validation
    requires req.authors.Some? && req.institutions.Some? && req.technologies.Some? && req.sections.Some?
  {
    var a := Entropy(req.authors.value, log2);
    var i := Entropy(req.institutions.value, log2);
    var t := Entropy(req.technologies.value, log2);
    var s := SectionEntropies(req.sections.value, keywordsOf, log2);
    var g := GapEntropy(req.researchGaps, keywordsOf, log2);
    Validation(Validated, EntropyValues(a, i, t, s, g),
               Evaluation(Label(a), Label(i), Label(t), map k | k in s :: Label(s[k]), Label(g)),
               req.researchGaps)
  }

  /**
   * A request goes through when it has sections and all three tables, at
   * least one of them non-empty.
   */
  predicate Accepted(req: Request) {
    req.sections.Some? && req.sections.value != map[]
    && req.authors.Some? && req.institutions.Some? && req.technologies.Some?
    && (req.authors.value != map[] || req.institutions.value != map[] || req.technologies.value != map[])
  }

  /**
   * `validate_entropy`. The two 400s raised inside the `try` (no sections;
   * no non-empty table) and the `AttributeError` of a missing table are all
   * caught by the catch-all and answered with a 500.
   */
  method ValidateEntropy(req: Request, keywordsOf: string -> seq<string>, log2: real -> real)
    returns (r: Result<Validation, HttpError>)
    ensures r.Err? <==> !Accepted(req)
    ensures r.Err? ==> r.error == HttpError(500, ValidationFailed)
    ensures r.Ok? ==> Accepted(req) && r.value == Expected(req, keywordsOf, log2)
  {
    if req.sections.None? || req.sections.value == map[] {
      // HttpException(400, "Sections data is missing or empty"), caught below
      return Err(HttpError(500, ValidationFailed));
    }
    if !(TableGiven(req.authors) || TableGiven(req.institutions) || TableGiven(req.technologies)) {
      // HttpException(400, "Metadata ... is missing or empty"), caught below
      return Err(HttpError(500, ValidationFailed));
    }
    if req.authors.None? || req.institutions.None? || req.technologies.None? {
      // `None.values()` raises AttributeError, caught below
      return Err(HttpError(500, ValidationFailed));
    }
    var authors := ShannonEntropy(req.authors.value, log2);
    var institutions := ShannonEntropy(req.institutions.value, log2);
    var technologies := ShannonEntropy(req.technologies.value, log2);
    var sections := EntropyPerSection(req.sections.value, keywordsOf, log2);
    var gap := 0.0;
    if req.researchGaps.Some? && req.researchGaps.value != "" {
      var keywords := keywordsOf(req.researchGaps.value);
      var frequency := KeywordFrequencies(keywords);
      gap := ShannonEntropy(frequency, log2);
    }
    var evaluation := Evaluation(Label(authors), Label(institutions), Label(technologies),
                                 map k | k in sections :: Label(sections[k]), Label(gap));
    r := Ok(Validation(Validated, EntropyValues(authors, institutions, technologies, sections, gap),
                       evaluation, req.researchGaps));
  }

  /**
   * In the response, the section labels are keyed by exactly the request's
   * section names; `research_gap_entropy` always holds the research-gap
   * entropy, whatever the sections are called, and each section's entropy
   * is filed under its name unless that name is `research_gap_entropy`.
   */
  lemma ResponseLayout(req: Request, keywordsOf: string -> seq<string>, log2: real -> real)
    requires Accepted(req)
    ensures var v := Expected(req, keywordsOf, log2);
      && v.evaluation.sections.Keys == req.sections.value.Keys
      && v.entropyValues["research_gap_entropy"] == GapEntropy(req.researchGaps, keywordsOf, log2)
      && (forall k :: k in req.sections.value && k != "research_gap_entropy" ==>
            v.entropyValues[k] == Entropy(Tally(keywordsOf(req.sections.value[k])), log2))
  {
  }

  /** A section named like a table's entry overwrites that table's entropy in `entropy_values`. */
  lemma SectionShadowsTable(a: real, i: real, t: real, e: real, gap: real)
    ensures EntropyValues(a, i, t, map["authors_entropy" := e], gap)["authors_entropy"] == e
  {
  }

  /** No research gaps, or an empty text, give entropy 0 and low diversity. */
  lemma NoResearchGaps(req: Request, keywordsOf: string -> seq<string>, log2: real -> real)
    requires Accepted(req)
    requires req.researchGaps.None? || req.researchGaps.value == ""
    ensures Expected(req, keywordsOf, log2).entropyValues["research_gap_entropy"] == 0.0
    ensures Expected(req, keywordsOf, log2).evaluation.researchGaps == Low
  {
  }

  /** Keywords found in the research gaps give a positive total, so the entropy is the full sum of terms. */
  lemma GapEntropyOfKeywords(text: string, keywordsOf: string -> seq<string>, log2: real -> real)
    requires text != "" && keywordsOf(text) != []
    ensures Total(Tally(keywordsOf(text))) == |keywordsOf(text)| > 0
    ensures GapEntropy(Some(text), keywordsOf, log2) == Spread(Tally(keywordsOf(text)), |keywordsOf(text)|, log2)
  {
    TallyMeaning(keywordsOf(text));
  }
}
