/**
 * The entity handling of `preprocess_file` (app/endpoints/processing.py):
 * the named entities found in the cleaned text, each a text with a label,
 * are routed by label into authors, institutions and technologies; each list
 * is counted, and the technologies seen exactly once are the emergent ones.
 *
 * The entities are an input: the language model that finds them is not part
 * of this model.
 */
module Entities {
  import opened Frequencies

  /** One `(ent.text, ent.label_)` pair; `tag` is the label. */
  datatype Entity = Entity(text: string, tag: string)

  const AuthorLabels: set<string> := {"PERSON"}
  const InstitutionLabels: set<string> := {"ORG"}
  const TechnologyLabels: set<string> := {"TECHNOLOGY", "PRODUCT", "WORK_OF_ART", "STATE_OF_ART"}

  /** `[entity for entity, label in entities if label in labels]`. */
  function Texts(es: seq<Entity>, labels: set<string>): (r: seq<string>)
    ensures |r| <= |es|
    ensures es == [] ==> r == []
  {
    if es == [] then []
    else Texts(es[..|es| - 1], labels) + (if es[|es| - 1].tag in labels then [es[|es| - 1].text] else [])
  }

  /** The texts of the `PERSON` entities. */
  function Authors(es: seq<Entity>): (r: seq<string>)
    ensures forall x :: x in r <==> exists i :: 0 <= i < |es| && es[i].text == x && es[i].tag == "PERSON"
  {
    TextsMembers(es, AuthorLabels);
    Texts(es, AuthorLabels)
  }

  /** The texts of the `ORG` entities. */
  function Institutions(es: seq<Entity>): (r: seq<string>)
    ensures forall x :: x in r <==> exists i :: 0 <= i < |es| && es[i].text == x && es[i].tag == "ORG"
  {
    TextsMembers(es, InstitutionLabels);
    Texts(es, InstitutionLabels)
  }

  /** The texts of the entities labelled `TECHNOLOGY`, `PRODUCT`, `WORK_OF_ART` or `STATE_OF_ART`. */
  function Technologies(es: seq<Entity>): (r: seq<string>)
    ensures forall x :: x in r <==> exists i :: 0 <= i < |es| && es[i].text == x
                                     && es[i].tag in {"TECHNOLOGY", "PRODUCT", "WORK_OF_ART", "STATE_OF_ART"}
  {
    TextsMembers(es, TechnologyLabels);
    Texts(es, TechnologyLabels)
  }

  /**
   * A text is listed just when some entity with one of the labels carries
   * it, and the list is no longer than the entities.
   */
  lemma {:induction false} TextsMeaning(es: seq<Entity>, labels: set<string>, x: string)
    ensures x in Texts(es, labels) <==> exists i :: 0 <= i < |es| && es[i].text == x && es[i].tag in labels
    ensures |Texts(es, labels)| <= |es|
    decreases |es|
  {
    if es != [] {
      var init := es[..|es| - 1];
      TextsMeaning(init, labels, x);
      if x in Texts(init, labels) {
        var i :| 0 <= i < |init| && init[i].text == x && init[i].tag in labels;
        assert es[i] == init[i];
      }
      if exists i :: 0 <= i < |es| && es[i].text == x && es[i].tag in labels {
        var i :| 0 <= i < |es| && es[i].text == x && es[i].tag in labels;
        if i < |init| {
          assert init[i] == es[i];
        }
      }
    }
  }

  lemma TextsMembers(es: seq<Entity>, labels: set<string>)
    ensures forall x :: x in Texts(es, labels) <==> exists i :: 0 <= i < |es| && es[i].text == x && es[i].tag in labels
  {
    forall x ensures x in Texts(es, labels) <==> exists i :: 0 <= i < |es| && es[i].text == x && es[i].tag in labels {
      TextsMeaning(es, labels, x);
    }
  }

  /** Filtering keeps the order of the entities: a split list is filtered part by part. */
  lemma {:induction false} TextsAppend(a: seq<Entity>, b: seq<Entity>, labels: set<string>)
    ensures Texts(a + b, labels) == Texts(a, labels) + Texts(b, labels)
    decreases |b|
  {
    if b == [] {
      assert a + b == a;
    } else {
      var init := b[..|b| - 1];
      assert (a + b)[..|a + b| - 1] == a + init;
      TextsAppend(a, init, labels);
    }
  }

  /** Entities with labels in two disjoint sets are routed to lists that, together, are no longer than the input. */
  lemma {:induction false} DisjointTexts(es: seq<Entity>, l1: set<string>, l2: set<string>)
    requires l1 !! l2
    ensures |Texts(es, l1)| + |Texts(es, l2)| == |Texts(es, l1 + l2)|
    decreases |es|
  {
    if es != [] {
      DisjointTexts(es[..|es| - 1], l1, l2);
    }
  }

  /**
   * Every entity lands in at most one of the three lists, so together they
   * hold as many texts as there are entities with a recognised label; the
   * others are dropped.
   */
  lemma Bucketing(es: seq<Entity>)
    ensures |Authors(es)| + |Institutions(es)| + |Technologies(es)|
            == |Texts(es, AuthorLabels + InstitutionLabels + TechnologyLabels)| <= |es|
  {
    DisjointTexts(es, AuthorLabels, InstitutionLabels);
    DisjointTexts(es, AuthorLabels + InstitutionLabels, TechnologyLabels);
    TextsMeaning(es, AuthorLabels + InstitutionLabels + TechnologyLabels, "");
  }

  /**
   * The items of `r` are in the order in which `xs` first shows them: every
   * item of `r` occurs in `xs` before any occurrence of a later item of `r`.
   */
  ghost predicate InFirstSeenOrder(r: seq<string>, xs: seq<string>) {
    forall i, j, k :: 0 <= i < j < |r| && 0 <= k < |xs| && xs[k] == r[j] ==> r[i] in xs[..k]
  }

  /** The distinct items of `xs` in order of first occurrence: the key order of `Counter(xs)`. */
  function FirstOccurrences(xs: seq<string>): (r: seq<string>)
    ensures forall x :: x in r <==> x in xs
    ensures forall i, j :: 0 <= i < j < |r| ==> r[i] != r[j]
  {
    if xs == [] then []
    else
      var r := FirstOccurrences(xs[..|xs| - 1]);
      if xs[|xs| - 1] in r then r else r + [xs[|xs| - 1]]
  }

  /** `FirstOccurrences` lists the items in the order they are first seen. */
  lemma {:induction false} FirstOccurrencesOrder(xs: seq<string>)
    ensures InFirstSeenOrder(FirstOccurrences(xs), xs)
    decreases |xs|
  {
    if xs != [] {
      var init, x := xs[..|xs| - 1], xs[|xs| - 1];
      var r0, r := FirstOccurrences(init), FirstOccurrences(xs);
      FirstOccurrencesOrder(init);
      forall i, j, k | 0 <= i < j < |r| && 0 <= k < |xs| && xs[k] == r[j] ensures r[i] in xs[..k] {
        assert r[i] in init;
        if k == |xs| - 1 {
          assert xs[..k] == init;
        } else {
          assert xs[..k] == init[..k] && init[k] == xs[k];
          if j < |r0| {
            assert r[i] == r0[i] && r[j] == r0[j];
          }
        }
      }
    }
  }

  /** `[k for k in keys if table[k] == 1]`. */
  function Once(keys: seq<string>, table: map<string, int>): seq<string> {
    if keys == [] then []
    else Once(keys[..|keys| - 1], table) + (if keys[|keys| - 1] in table && table[keys[|keys| - 1]] == 1 then [keys[|keys| - 1]] else [])
  }

  /** The items of `Once` are keys with count one, in key order, without repeats when the keys have none. */
  lemma {:induction false} OnceMeaning(keys: seq<string>, table: map<string, int>)
    ensures forall x :: x in Once(keys, table) <==> x in keys && x in table && table[x] == 1
    ensures (forall i, j :: 0 <= i < j < |keys| ==> keys[i] != keys[j]) ==>
              forall i, j :: 0 <= i < j < |Once(keys, table)| ==> Once(keys, table)[i] != Once(keys, table)[j]
    decreases |keys|
  {
    if keys != [] {
      var init := keys[..|keys| - 1];
      OnceMeaning(init, table);
      assert keys == init + [keys[|keys| - 1]];
    }
  }

  /** Filtering keeps the keys' order: keys in first-seen order stay in first-seen order. */
  lemma {:induction false} OnceKeepsOrder(keys: seq<string>, table: map<string, int>, xs: seq<string>)
    requires InFirstSeenOrder(keys, xs)
    ensures InFirstSeenOrder(Once(keys, table), xs)
    decreases |keys|
  {
    if keys != [] {
      var init, last := keys[..|keys| - 1], keys[|keys| - 1];
      var o0, o := Once(init, table), Once(keys, table);
      assert InFirstSeenOrder(init, xs) by {
        forall i, j, k | 0 <= i < j < |init| && 0 <= k < |xs| && xs[k] == init[j] ensures init[i] in xs[..k] {
          assert init[i] == keys[i] && init[j] == keys[j];
        }
      }
      OnceKeepsOrder(init, table, xs);
      OnceMeaning(init, table);
      forall i, j, k | 0 <= i < j < |o| && 0 <= k < |xs| && xs[k] == o[j] ensures o[i] in xs[..k] {
        if j < |o0| {
          assert o[i] == o0[i] && o[j] == o0[j];
        } else {
          assert o[j] == last && o[i] == o0[i] && o0[i] in init;
          var p :| 0 <= p < |init| && init[p] == o0[i];
          assert keys[p] == o[i] && keys[|keys| - 1] == xs[k];
        }
      }
    }
  }

  /**
   * `[technology for technology, freq in Counter(technologies).items() if
   * freq == 1]`: exactly the technologies that occur once.
   */
  function Emergent(technologies: seq<string>): (r: seq<string>)
    ensures forall t :: t in r <==> multiset(technologies)[t] == 1
  {
    OnceMeaning(FirstOccurrences(technologies), Tally(technologies));
    TallyMeaning(technologies);
    Once(FirstOccurrences(technologies), Tally(technologies))
  }

  /**
   * The emergent technologies are listed once each, in the order in which
   * the technologies are first seen.
   */
  lemma EmergentMeaning(technologies: seq<string>)
    ensures forall t :: t in Emergent(technologies) <==> multiset(technologies)[t] == 1
    ensures forall i, j :: 0 <= i < j < |Emergent(technologies)| ==> Emergent(technologies)[i] != Emergent(technologies)[j]
    ensures InFirstSeenOrder(Emergent(technologies), technologies)
  {
    OnceMeaning(FirstOccurrences(technologies), Tally(technologies));
    FirstOccurrencesOrder(technologies);
    OnceKeepsOrder(FirstOccurrences(technologies), Tally(technologies), technologies);
  }
}
