# Research-gap API: a verified model of its text and table handling

The service reads a scientific article (a PDF), extracts its text, cleans it,
finds named entities and the article's sections, and offers two further
endpoints: one scores the diversity (Shannon entropy) of the entity tables and
the sections' keywords, and one builds the prompt that asks a language model
for the article's research gaps. This project models the deterministic part of
those three endpoints in Dafny and proves what that code promises:

- `wrappers.dfy` (`Wrappers`) and `http.dfy` (`Http`): `Option`, `Result`, and the `HTTPException` a request ends with.
- `pystr.dfy` (`PyStr`): the pieces of Python's `str` the code relies on. These are `isspace` (CPython's whitespace set, which is also what `\s` matches), ASCII `lower`, `strip`, `split` on one character, and `join`.
- `cleaning.dfy` (`Cleaning`): `clean_text`.
- `sections.dfy` (`Sections`): the `re.split` on the heading pattern, as a direct scan of the text, and the loop of `extract_sections`.
- `punctuation.dfy` (`Punctuation`): `replace_unicode`'s table and its loop.
- `pages.dfy` (`Pages`): the two-column decision of `extract_text_from_page` and the joining of the pages.
- `frequencies.dfy` (`Frequencies`): `Counter` and `calculate_keyword_frequencies`.
- `entities.dfy` (`Entities`): routing entities by label, and the emergent technologies.
- `preprocessing.dfy` (`Preprocessing`): `preprocess_file` from the extracted pages to its result.
- `validating.dfy` (`Validating`): `calculate_shannon_entropy` and `validate_entropy`.
- `analyzing.dfy` (`Analyzing`): `analyze` up to the language-model call.

Python dicts become Dafny `map`s, and floats become `real`s. The things the
code calls but does not define become parameters: `math.log2` is `log2`, spaCy's
entity recognition is `ner` / `keywordsOf`, and the page texts pdfplumber
extracts are the fields of a `Page`.

Where the code does something surprising, the model follows the code and a
lemma states the behaviour:

- The heading pattern `(abstract\s*| discussion\s*| limitation\s*| conclusion\s*)` has no word boundary, so "abstraction" starts an abstract heading (`Sections.AbstractionMatches`).
- The other three keywords begin with a space, so such a word at the very start of the text is not a heading (`Sections.LeadingKeywordMissed`, `Sections.LeadingDiscussionMissed`).
- A greedy `\s*` eats the space the next keyword needs, so in "abstract discussion" the second heading is not found (`Sections.SwallowedHeading`).
- Both endpoints raise their 400s inside a `try` whose `except Exception` turns every error into a 500. A request with no sections, or with no metadata, is therefore answered with a 500, not with a client error.
- `validate_entropy` also fails with a 500 when any of the three tables is absent, since `None.values()` raises. `Validating.ValidateEntropy` answers such a request with that 500 error, the same as the other failures.
- The code has no heading synonyms, no numbered headings, no cut at a "References" heading, no URL, DOI or citation removal, no stop-lists, and no count > 1 filter. None of these is modelled.

## Model

| member | source | states |
|---|---|---|
| Cleaning.NewlinesToSpaces | app/endpoints/processing.py:95 | each newline becomes a space; every other character and the length are kept |
| Cleaning.CollapseSpaces | app/endpoints/processing.py:96 | the result is single-spaced (every whitespace character is a space, no two touch); it is empty exactly when the input is; it starts with a space exactly when the input starts with whitespace, and otherwise with the input's first character; it ends with a space exactly when the input ends with whitespace, and otherwise with the input's last character |
| Cleaning.CollapseJoinsWords | app/endpoints/processing.py:96-97 | collapsing then stripping gives the words of the text (`str.split()`), joined by single spaces: every whitespace run between two words leaves exactly one space |
| Cleaning.CleanText | app/endpoints/processing.py:94-98 | the cleaned text holds no newline, no two adjacent whitespace characters, no whitespace other than `' '`, no leading or trailing whitespace and no upper-case ASCII letter |
| Cleaning.CleanTextJoinsWords | app/endpoints/processing.py:94-98 | `clean_text(t) == " ".join(t.lower().split())`: the lowercased words of the text, each separated from the next by exactly one space |
| Cleaning.LineBreakSeparates | app/endpoints/processing.py:95-96 | two lowercase words around a line break come out as those two words with one space between them |
| Cleaning.CleanTextIdempotent | app/endpoints/processing.py:94-98 | `clean_text(clean_text(t)) == clean_text(t)` |
| Cleaning.CleanTextFixesClean | app/endpoints/processing.py:94-98 | a text that is already clean is returned unchanged |
| Cleaning.CleanTextKeepsVisible | app/endpoints/processing.py:94-98 | cleaning only touches whitespace and case: the non-whitespace characters are those of the input, lowercased, in order |
| PyStr.Lower | app/endpoints/processing.py:97 | lowercasing keeps the length and lowers each ASCII capital, leaving every other character alone |
| PyStr.Strip | app/endpoints/processing.py:97 | `strip()` returns a contiguous part of the text with no whitespace at either end, and everything it drops before and after that part is whitespace |
| PyStr.Words | app/endpoints/processing.py:96 | the words are non-empty and hold no whitespace |
| PyStr.WordsRespace | app/endpoints/processing.py:95-96 | the words do not depend on which whitespace character separates them, so turning newlines into spaces keeps them |
| PyStr.Split | app/endpoints/processing.py:84-85 | `split('\n')` gives at least one piece, and no piece holds a newline |
| PyStr.SplitCount | app/endpoints/processing.py:84-85 | the number of pieces is the number of newlines plus one |
| PyStr.JoinSplit | app/endpoints/processing.py:84-85 | joining the pieces with the separator gives the text back |
| PyStr.Join | app/endpoints/processing.py:27 | joining no parts gives the empty text; otherwise the text starts with the first part |
| PyStr.JoinAppend | app/endpoints/processing.py:27 | joining one more part adds the separator and that part at the end |
| Sections.MatchAt | app/endpoints/processing.py:108 | a match starts at a position exactly when one of the four alternatives matches there, case-insensitively; it ends after the keyword and all the whitespace that follows |
| Sections.Cuts | app/endpoints/processing.py:108 | the split's cut positions come in pairs, are ordered, and start at 0 and end at the end of the text |
| Sections.Pieces | app/endpoints/processing.py:108 | `re.split` with a capturing group yields an odd number of pieces |
| Sections.PiecesConcat | app/endpoints/processing.py:108 | the pieces of the split laid end to end give the text back |
| Sections.PieceIsToken | app/endpoints/processing.py:108 | every odd-numbered piece that has a piece after it is one whole match, a keyword followed only by whitespace; it is exactly the match found at its offset in the text, which ends after the greedy whitespace run, so the next piece is empty or starts with a non-whitespace character |
| Sections.PieceIsStretch | app/endpoints/processing.py:108 | every even-numbered piece, including the text before the first heading, contains no heading match |
| Sections.PreambleHasNoHeading | app/endpoints/processing.py:108 | no heading match starts inside the first piece, so it is the text before the first heading |
| Sections.PreambleIsPrefix | app/endpoints/processing.py:108 | the first piece is a prefix of the text |
| Sections.HeadingAfterPreamble | app/endpoints/processing.py:108 | when the split has more than one piece, a heading match starts right after the first piece |
| Sections.LastPieceRunsToEnd | app/endpoints/processing.py:108 | the last piece, and so the last body, runs to the end of the text |
| Sections.TokenTitle | app/endpoints/processing.py:111 | `strip().lower()` of a whole match is its heading's name |
| Sections.EntryAt | app/endpoints/processing.py:110-112 | the loop's j-th step files the title of piece 2j+1 with the stripped piece 2j+2; the first piece is never filed |
| Sections.FilingStep | app/endpoints/processing.py:110-112 | one round of the loop adds (or overwrites) one key |
| Sections.ExtractSections | app/endpoints/processing.py:107-113 | the loop over the split returns the map of all (title, body) entries filed in order |
| Sections.ExtractedKeys | app/endpoints/processing.py:110-112 | the keys are exactly the titles of the headings found |
| Sections.ExtractedLast | app/endpoints/processing.py:110-112 | a title holds the stripped body after its LAST heading; a repeated heading overwrites the earlier one |
| Sections.ExtractedValues | app/endpoints/processing.py:108-112 | every key is one of abstract, discussion, limitation, conclusion, and no body contains a heading match |
| Sections.ExtractedEmpty | app/endpoints/processing.py:108-113 | a text with no heading match gives the empty map |
| Sections.AbstractionMatches | app/endpoints/processing.py:108 | "abstract" has no word boundary: it matches at the start of "abstraction" |
| Sections.SpacedKeywordsNeedSpace | app/endpoints/processing.py:108 | a discussion, limitation or conclusion keyword matches only at a space |
| Sections.LeadingKeywordMissed | app/endpoints/processing.py:108 | in any text that does not start with a space, no discussion, limitation or conclusion heading matches at the start; only an abstract heading can |
| Sections.LeadingDiscussionMissed | app/endpoints/processing.py:108 | the text "discussion" holds no heading at all |
| Sections.SwallowedHeading | app/endpoints/processing.py:108 | `re.split` of "abstract discussion" is `["", "abstract ", "discussion"]`: the greedy `\s*` takes the space the second heading needs |
| Punctuation.ReplaceUnicode | app/endpoints/processing.py:116-137 | replacing the fifteen table entries one after another, in table order, translates each character on its own |
| Punctuation.ApplyIsLookup | app/endpoints/processing.py:135-136 | when no replacement is the source of a later entry, the sequential replacements equal a single lookup per character |
| Punctuation.ReplacementsUnchained | app/endpoints/processing.py:117-133 | the table has that property, so no character is replaced twice |
| Punctuation.TranslateChar | app/endpoints/processing.py:117-133 | U+2011, U+2013 and U+2014 become `-`; U+2018 and U+2019 become `'`; U+201C and U+201D become `"`; every other character, including the eight accented letters, stays as it is |
| Punctuation.TranslatedIsPlain | app/endpoints/processing.py:116-137 | no typographic dash or curly quote is left in the output |
| Punctuation.TranslatedKeepsOthers | app/endpoints/processing.py:116-137 | every character that is not a dash or a curly quote comes through unchanged, and the length is kept |
| Punctuation.TranslatedIdempotent | app/endpoints/processing.py:116-137 | applying `replace_unicode` twice is the same as applying it once |
| Pages.LineCount | app/endpoints/processing.py:84-85 | `len(text.split('\n'))` is the number of newlines plus one, so an empty column counts as one line |
| Pages.PageText | app/endpoints/processing.py:84-91 | the page is read as two columns, `left + "\n\n" + right`, exactly when the newline counts differ by less than 10; otherwise the whole-page text is used |
| Pages.ToleranceEdge | app/endpoints/processing.py:88 | a difference of 9 lines still gives two columns; a difference of 10 gives the whole page |
| Pages.EmptyColumns | app/endpoints/processing.py:81-89 | two empty columns give `"\n\n"` |
| Pages.TwoColumnLayout | app/endpoints/processing.py:89 | a two-column page text is the left column, a blank line and the right column, and it holds two more newlines than the columns together |
| Pages.DocumentText | app/endpoints/processing.py:27 | no pages give the empty text, and the document text starts with the first page's text |
| Pages.DocumentAppend | app/endpoints/processing.py:27 | the page texts are joined by a blank line: each further page appends `"\n\n"` and its own text |
| Frequencies.Tally | app/endpoints/processing.py:44-46 | the keys of a `Counter` are exactly the distinct items of the list |
| Frequencies.KeywordFrequencies | app/endpoints/validating.py:38-42 | the counting loop builds the frequency table of the keywords |
| Frequencies.TallyAppend | app/endpoints/validating.py:40-41 | one more keyword raises its own entry by one, or adds it with 1, and changes no other entry |
| Frequencies.TallyMeaning | app/endpoints/validating.py:38-42 | the keys are exactly the distinct keywords; each value is the number of occurrences (at least 1); the values sum to the list's length; an empty list gives an empty table |
| Frequencies.TallyPermutation | app/endpoints/validating.py:38-42 | any permutation of the list gives the same table |
| Frequencies.TallyTotal | app/endpoints/processing.py:44-46 | the counts of a table sum to the length of the counted list |
| Entities.Texts | app/endpoints/processing.py:39-41 | a bucket holds no more texts than there are entities |
| Entities.Authors | app/endpoints/processing.py:39 | the authors are exactly the texts of the `PERSON` entities |
| Entities.Institutions | app/endpoints/processing.py:40 | the institutions are exactly the texts of the `ORG` entities |
| Entities.Technologies | app/endpoints/processing.py:41 | the technologies are exactly the texts of the `TECHNOLOGY`, `PRODUCT`, `WORK_OF_ART` and `STATE_OF_ART` entities |
| Entities.TextsMeaning | app/endpoints/processing.py:39-41 | a text is in a bucket exactly when some entity with one of the bucket's labels carries it |
| Entities.TextsAppend | app/endpoints/processing.py:39-41 | bucketing keeps the entities' order: the bucket of a concatenation is the concatenation of the buckets |
| Entities.Bucketing | app/endpoints/processing.py:39-41 | an entity goes to at most one bucket; together the buckets hold exactly the entities with a recognised label, and those with any other label are dropped |
| Entities.FirstOccurrences | app/endpoints/processing.py:46-47 | the keys of a `Counter`: each distinct item, once |
| Entities.FirstOccurrencesOrder | app/endpoints/processing.py:46-47 | the key order of a `Counter`: each item comes before any occurrence of a later item, so the items are in order of first occurrence |
| Entities.OnceKeepsOrder | app/endpoints/processing.py:47 | the filter keeps the order of the keys |
| Entities.OnceMeaning | app/endpoints/processing.py:47 | the filter keeps exactly the keys whose count is 1, and never repeats a key |
| Entities.Emergent | app/endpoints/processing.py:46-47 | the emergent technologies are exactly those occurring once among the technologies |
| Entities.EmergentMeaning | app/endpoints/processing.py:46-47 | the emergent technologies are listed once each, in the order in which the technologies are first seen |
| Preprocessing.TranslateSections | app/endpoints/processing.py:53-54 | the in-place loop replaces every section's text with its `replace_unicode` result, adding or dropping no key |
| Preprocessing.Preprocess | app/endpoints/processing.py:27-69 | the result holds the counts of the three buckets, the emergent technologies and the translated sections of the cleaned document text |
| Preprocessing.ReportMeaning | app/endpoints/processing.py:39-63 | in the result, the counts sum to the bucket sizes, the emergent technologies are the technologies with count 1, the section keys are heading names, and no section body holds a typographic dash or curly quote |
| Validating.ZeroTotalEntropy | app/endpoints/validating.py:22-24 | the table of no entries has entropy 0, and so does every table whose counts add up to 0 |
| Validating.SumValues | app/endpoints/validating.py:22 | the sum of a table's values |
| Validating.ShannonEntropy | app/endpoints/validating.py:21-31 | a table whose counts add up to 0, the empty table included, has entropy 0; otherwise the loop's result is the sum of `-p * log2(p)` over the entries with positive probability `p = count / total`, whatever order it visits them in |
| Validating.SpreadRemove | app/endpoints/validating.py:27-30 | the sum over the entries does not depend on which entry the loop takes first |
| Validating.EntropyNonNegative | app/endpoints/validating.py:21-31 | with non-negative counts, and a `log2` that is never positive on (0, 1], the entropy is never negative |
| Validating.SingleEntryEntropy | app/endpoints/validating.py:21-31 | a table with one positive count has entropy 0, given `log2(1) == 0` |
| Validating.Label | app/endpoints/validating.py:82-89 | the label is one of the two, and it is "Alta diversidad" exactly when the entropy is above the threshold |
| Validating.LabelMeaning | app/endpoints/validating.py:82-89 | the label is "Alta diversidad" exactly when the entropy is strictly above 1.5; 1.5 itself is "Baja diversidad" |
| Validating.EntropyPerSection | app/endpoints/validating.py:59-64 | the loop files, under each section name, the entropy of that section's keyword frequencies |
| Validating.EntropyValues | app/endpoints/validating.py:94-100 | `entropy_values` has the three table keys, `research_gap_entropy` and every section name; `research_gap_entropy` holds the research-gap entropy, a section's entry holds its entropy, and a table's entry holds the table's entropy unless a section has its name |
| Validating.ValidateEntropy | app/endpoints/validating.py:44-106 | a request is answered with a 500 "Error en la validación de la entropía" exactly when its sections are missing or empty, or a table is absent, or no table is non-empty; otherwise it is answered with the entropies, labels and research gaps |
| Validating.ResponseLayout | app/endpoints/validating.py:85-99 | the labelled sections are keyed by exactly the request's section names; `research_gap_entropy` always holds the research-gap entropy, and each other section's keyword entropy is filed under its name |
| Validating.SectionShadowsTable | app/endpoints/validating.py:94-99 | a section named `authors_entropy` overwrites the authors' entropy in `entropy_values` |
| Validating.NoResearchGaps | app/endpoints/validating.py:66-89 | absent or empty research gaps leave their entropy at 0, labelled "Baja diversidad" |
| Validating.GapEntropyOfKeywords | app/endpoints/validating.py:67-76 | research gaps with keywords give a positive total equal to the number of keywords, so their entropy is the full sum |
| Analyzing.Section | app/endpoints/analyzing.py:15-17 | a missing section reads as `""` |
| Analyzing.SectionsOf | app/endpoints/analyzing.py:14 | a request without `sections` reads as one with no sections; a request with `sections` reads as exactly those sections |
| Analyzing.Block | app/endpoints/analyzing.py:24-29 | a section's block is empty exactly when the section is empty |
| Analyzing.BuildPrompt | app/endpoints/analyzing.py:23-31 | the successive `+=` build the instruction, the present blocks (discussion, conclusion, limitation) and the closing request |
| Analyzing.AppendSection | app/endpoints/analyzing.py:24-29 | a conditional `+=` appends the section's block |
| Analyzing.PromptLayout | app/endpoints/analyzing.py:23-31 | the prompt starts with the fixed instruction, ends with "\n\nPlease provide the main research gaps identified in the text.", and holds exactly the present blocks between them, in the order discussion, conclusion, limitation |
| Analyzing.BlockPresence | app/endpoints/analyzing.py:24-29 | the block `"\n\n<Heading>:\n" + text` is present exactly when the text is non-empty, and ends with the text |
| Analyzing.PromptLength | app/endpoints/analyzing.py:23-31 | the prompt's length is the fixed parts plus 14 plus the text's length for each present section |
| Analyzing.Messages | app/endpoints/analyzing.py:33-36 | there are exactly two messages: the fixed system message, then the user message holding the prompt |
| Analyzing.Analyze | app/endpoints/analyzing.py:12-55 | a request whose discussion, conclusion and limitation are all missing or empty gets a 500 "Unknown error occurred in analysis."; any other gets the two messages with its prompt |
| Analyzing.OtherSectionsIgnored | app/endpoints/analyzing.py:14-17 | sections other than the three analysed ones do not matter |

## Left out

- Saving the upload and writing the JSON result file (app/endpoints/processing.py:16-21, 65-67): these are file I/O. Their 500 errors are not modelled.
- pdfplumber (app/endpoints/processing.py:26, 74-82): opening the PDF, cropping the half pages and extracting text are library calls. The three texts are the fields of `Page`, with a missing text already read as `""`.
- spaCy (app/endpoints/processing.py:11, 101-104; app/endpoints/validating.py:9, 33-36): the entity recognizer is a trained model. It is the parameter `ner` (cleaned text to entities), and `apply_ner_to_section`, lowercasing included, is the parameter `keywordsOf`. The "Error processing data" path (app/endpoints/processing.py:35-36) only fires when that call fails, so it is not modelled.
- Floating point: entropies are reals and `math.log2` is a parameter. Rounding, and the int `0` returned for a zero total versus the float `0.0`, are not modelled. Neither is the `OverflowError` that `count / total` raises when the quotient exceeds the float range. That can only happen when a table holds negative counts, which its int values allow, and it would turn into the endpoint's 500 error.
- The OpenAI call and the `.strip()` of its reply (app/endpoints/analyzing.py:39-51) go over the network. `Analyzing.Analyze` returns the messages that would be sent.
- `app/main.py` and `app/config.py` only wire routers and read the environment. Logging, `print`, async and pydantic parsing are not modelled either.
- Request bodies that are not of the expected shape (a `sections` value that is not a dict, a section text that is not a string) are not modelled. Requests are typed as dicts of strings, and of ints for the tables.
- Dict insertion order is not modelled: tables and section maps are `map`s. The only order kept is the emergent-technology list's first-occurrence order.
- Case handling covers ASCII only. `str.lower` of non-ASCII letters, and the non-ASCII characters `re.IGNORECASE` matches to ASCII letters (U+0130, U+0131, U+017F, U+212A), are not modelled.
- The regular expressions are not modelled as a general engine. The three fixed patterns are scans of the text.
