/**
 * `preprocess_file` (app/endpoints/processing.py) once the upload is saved
 * and the pages' texts are extracted: the document text is cleaned, its
 * entities are bucketed and counted, its sections are extracted and their
 * typographic punctuation replaced.
 *
 * Named-entity recognition is a parameter `ner`, from the cleaned text to
 * its entities.
 */
module Preprocessing {
  import opened Pages
  import opened Cleaning
  import opened Sections
  import opened Punctuation
  import opened Frequencies
  import opened Entities

  /** The `results` dictionary. */
  datatype Report = Report(
    authors: map<string, int>,
    institutions: map<string, int>,
    technologies: map<string, int>,
    emergentTechnologies: seq<string>,
    sections: map<string, string>)

  const Processed: string := "File processed successfully"

  /** A map with every value passed through `replace_unicode`. */
  function TranslatedValues(m: map<string, string>): (r: map<string, string>)
    ensures r.Keys == m.Keys
  {
    map k | k in m :: Translated(m[k])
  }

  /**
   * The loop `for section, content in sections.items(): sections[section] =
   * replace_unicode(content)`: every value replaced in place, no key added or
   * dropped.
   */
  method TranslateSections(sections: map<string, string>) returns (r: map<string, string>)
    ensures r == TranslatedValues(sections)
  {
    r := sections;
    var todo := sections.Keys;
    while todo != {}
      invariant todo <= sections.Keys && r.Keys == sections.Keys
      invariant forall k :: k in r ==> r[k] == if k in todo then sections[k] else Translated(sections[k])
      decreases |todo|
    {
      var k :| k in todo;
      var content := ReplaceUnicode(r[k]);
      r := r[k := content];
      todo := todo - {k};
    }
  }

  /** The report `preprocess_file` builds from the cleaned text and its entities. */
  ghost function Expected(text: string, entities: seq<Entity>): Report {
    Report(Tally(Authors(entities)), Tally(Institutions(entities)), Tally(Technologies(entities)),
           Emergent(Technologies(entities)), TranslatedValues(Extracted(text)))
  }

  /**
   * `preprocess_file` from the extracted pages on: the pages joined, the
   * text cleaned, the entities counted by bucket, the sections extracted
   * from the cleaned text and their punctuation replaced.
   */
  method Preprocess(pages: seq<Page>, ner: string -> seq<Entity>) returns (message: string, report: Report)
    ensures message == Processed
    ensures report == Expected(CleanText(DocumentText(pages)), ner(CleanText(DocumentText(pages))))
  {
    var text := DocumentText(pages);
    var cleaned := CleanText(text);
    var entities := ner(cleaned);
    var authors := Authors(entities);
    var institutions := Institutions(entities);
    var technologies := Technologies(entities);
    var technologiesFrequency := Tally(technologies);
    var emergent := Once(FirstOccurrences(technologies), technologiesFrequency);
    var extracted := ExtractSections(cleaned);
    var sections := TranslateSections(extracted);
    message := Processed;
    report := Report(Tally(authors), Tally(institutions), technologiesFrequency, emergent, sections);
  }

  /**
   * What the report holds: counts that add up to the bucket sizes, emergent
   * technologies seen exactly once, and section keys drawn from the four
   * headings, with bodies free of typographic punctuation.
   */
  lemma ReportMeaning(text: string, entities: seq<Entity>)
    ensures var r := Expected(text, entities);
      && Total(r.authors) == |Authors(entities)|
      && Total(r.institutions) == |Institutions(entities)|
      && Total(r.technologies) == |Technologies(entities)|
      && (forall t :: t in r.emergentTechnologies <==> t in r.technologies && r.technologies[t] == 1)
      && (forall k :: k in r.sections ==> k in SectionNames)
      && (forall k, i :: k in r.sections && 0 <= i < |r.sections[k]| ==>
            r.sections[k][i] !in Dashes + SingleQuotes + DoubleQuotes)
  {
    var r := Expected(text, entities);
    TallyMeaning(Authors(entities));
    TallyMeaning(Institutions(entities));
    TallyMeaning(Technologies(entities));
    EmergentMeaning(Technologies(entities));
    ExtractedValues(text);
    forall k | k in r.sections ensures forall i :: 0 <= i < |r.sections[k]| ==> r.sections[k][i] !in Dashes + SingleQuotes + DoubleQuotes {
      TranslatedIsPlain(Extracted(text)[k]);
    }
  }
}
