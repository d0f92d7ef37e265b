# Introduction to the Devout Life: a verified model of the book pipeline

The repository digitises *Introduction to the Devout Life*. The book is
read out of an EPUB into a JSON book: a list of parts, each with a
`part_title`, an optional `part_subtitle` and `chapters`. Each chapter has
a `chapter_title` and a `content` list of items with `type`, `content` and
an optional `word_count`. A family of Python scripts then repairs and
reorganises the book:

- They split the front matter into title page, dedicatory prayer and
  preface.
- They deduplicate the extracted chapters and align them with the CSV
  table of contents, by position, by chapter number or by a greedy score.
- They rejoin paragraphs that OCR broke in two and apply dictionaries of
  corrections.
- They remove chapter titles repeated in the first paragraph, split part
  titles into title and subtitle, and recount words.

The book is translated through DOCX documents in which every text follows
an `###IDnnnn###` marker, rebuilt into an EPUB (OPF manifest and spine,
NCX navigation, one XHTML page per chapter), and read in a React web app
that groups paragraphs into daily reading sessions.

This project models that core in Dafny. The book is immutable datatypes
(`Book`). Every script's logic is pure functions over them, one module per
script or per family of near-identical scripts. Each operation's contract
states what the script promises, and lemmas relate the operations to
independent reference definitions, their inverses or their invariants:

- keep-first deduplication and the subsequence relation (`KeepFirst`);
- the Roman-numeral round trip (`Roman`);
- the front-matter state machine and the paragraph each state keeps
  (`FrontMatter`);
- the greedy matcher's choice and the injectivity of its assignment
  (`Reorganize`);
- the final part layout shared by the reconciliation scripts (`Assembly`);
- the termination and word preservation of the paragraph merge
  (`ParagraphMerge`);
- the marker round trips of both translators (`Translation`,
  `TranslationGoogle`);
- the agreement of NCX `playOrder` and `src` with the OPF manifest and the
  written files (`EpubPackage`);
- the grouping of paragraphs into sessions, which the model proves unique
  (`ReadingSessions`).

Python's string primitives are modelled once in `Text`: `split`, `strip`,
`\s+` collapsing, `replace`, `in`, `lower`/`upper` and `\w`. Decimal and
dotted-thousands rendering are in `Decimal`, and Python's ordering of
`str` together with `list.sort` is in `PathOrder`.

Functions that only compute carry no contract of their own; the table
names the lemma that states what they promise. Near-identical copies of a
function in several scripts are modelled once:

- `convert_roman_to_int` in fix_json_intelligent.py, fix_json_final.py,
  fix_json_sequential.py and fix_json_structure_v2.py;
- `extract_special_sections` / `extract_special_content` in the
  reconciliation scripts;
- `deduplicate_by_content` in both reorganize_final.py files;
- the `word_count` recount loops.

A table row cites one of the copies.

## Model

| member | source | states |
|---|---|---|
| AdHoc.Matching | scripts/json_processing/fix_ad_hoc.py:38-41 | the number of corrections counted for a field is the number of table keys it contains, and it is zero exactly when no key occurs in it |
| AdHoc.AdHocFieldAsWritten | scripts/json_processing/fix_ad_hoc.py:37-41 | the field loop as written: with no key present the text is unchanged; otherwise the field ends up as the ORIGINAL text with only the last matching key replaced, every later key being absent |
| AdHoc.AdHocAsWrittenLosesFix | scripts/json_processing/fix_ad_hoc.py:56-62 | a paragraph holding "theChurch" and "JesusChrist" contains both keys, yet as written only "Jesus Christ" is repaired and "theChurch" survives |
| AdHoc.AdHocField | scripts/json_processing/fix_ad_hoc.py:37-41 | the corrected field loop: the result is every correction of the table applied in order to the running text, and the text is unchanged when nothing matched |
| AdHoc.AdHocCorrectedKeepsBoth | scripts/json_processing/fix_ad_hoc.py:18-29 | with the corrected loop the same paragraph becomes "the Church Jesus Christ" |
| AdHoc.AdHocFix | scripts/json_processing/fix_ad_hoc.py:18-41 | a field through the script's own loop and table: its count is the number of keys it contains, it is unchanged when none is found, and otherwise it is the original with only the last matching key replaced |
| AdHoc.AdHocFixCorrected | scripts/json_processing/fix_ad_hoc.py:18-41 | the corrected loop on the same table applies every correction in order, and leaves the field unchanged when nothing matched |
| AdHoc.AdHocCounts | scripts/json_processing/fix_ad_hoc.py:33-65 | the pass counts no correction exactly when no part title, chapter title or paragraph contains a key |
| AdHoc.ApplyAdHocFixes | scripts/json_processing/fix_ad_hoc.py:10-68 | the pass as written keeps the book's shape and part subtitles, sends every part title, chapter title and paragraph through the field loop, recomputes a paragraph's `word_count` only when a key was found in it, counts zero exactly when no field holds a key, counts every present field as an item, and returns the book unchanged when it counts nothing |
| AdHoc.ApplyAdHocFixesCorrected | scripts/json_processing/fix_ad_hoc.py:10-68 | the pass with the corrected field loop keeps the book's shape, rewrites every item with that loop, and returns the book unchanged when it counts nothing |
| AdHoc.AdHocMain | scripts/json_processing/fix_ad_hoc.py:96-114 | the file is written exactly when some title or paragraph of the input contains a key; what is written has the input's shape, its titles and item texts are the input's through the field loop, item types are kept, and every item with `content` has `word_count` equal to its number of words |
| AdHoc.AdHocNothingLost | scripts/json_processing/fix_ad_hoc.py:98-126 | when the file is not written, the pass had changed nothing |
| AddedContent.Sanitize | analyze_added_content.py:104 | every character outside word characters, whitespace and `.,;:!?()"-` becomes one space and every other character stays, position for position |
| AddedContent.RuleEnd | analyze_added_content.py:98 | a CSS-rule match at the start of the text, when there is one, ends inside the text after at least one character |
| AddedContent.DropBracedNoPair | analyze_added_content.py:97 | after the braced-block substitution no `{` has a `}` anywhere after it |
| AddedContent.RuleNeedsPair | analyze_added_content.py:98 | a CSS rule cannot match a text in which no `{` is followed by a `}` |
| AddedContent.DropRulesIdle | analyze_added_content.py:98 | the CSS-rule substitution leaves such a text unchanged |
| AddedContent.RulesAlreadyGone | analyze_added_content.py:97-98 | the second substitution never changes what the first one left: it is dead code |
| AddedContent.NormalizeFacts | analyze_added_content.py:89-106 | the normalised text holds only characters the filter keeps, no upper-case letter, no whitespace but `' '` and none at either end, so no brace survives |
| AddedContent.Sentences | analyze_added_content.py:124 | the split always yields at least one piece (an empty text gives one empty piece) |
| AddedContent.SentencesNoEnd | analyze_added_content.py:124 | no piece of the split holds a `.`, `!` or `?` |
| AddedContent.SentencesFlat | analyze_added_content.py:124 | the pieces put back together in order are the text with its `.`, `!` and `?` removed: the split loses nothing else |
| AddedContent.WordSet | analyze_added_content.py:117-118 | a word is in the set exactly when it is one of the whitespace-separated words of the text |
| AddedContent.UniqueWords | analyze_added_content.py:113-121 | the new words are exactly the words of the normalised English text that the normalised original lacks |
| AddedContent.SegmentsCount | analyze_added_content.py:126-140 | there is at most one reported segment per sentence |
| AddedContent.SegmentsSound | analyze_added_content.py:128-140 | every reported segment comes from a sentence whose normalised form is longer than 20 characters, has a new word and is not part of the normalised original; it carries that sentence stripped, the stripped length and the count of its new words |
| AddedContent.SegmentsComplete | analyze_added_content.py:128-140 | every sentence meeting those three conditions is reported |
| AddedContent.Append | analyze_added_content.py:160-168 | appending a segment to one category adds it at the end of that category only and grows the total by one |
| AddedContent.IdentifyTypesBuckets | analyze_added_content.py:144-170 | each category holds, in input order, exactly the segments whose lower-cased text first matches that category's word list in the order license, metadata, navigation, formatting, other |
| AddedContent.IdentifyTypesSize | analyze_added_content.py:144-170 | every segment lands in exactly one category: the category sizes add up to the number of segments |
| Assembly.KeyIndex | scripts/json_processing/reorganize_final.py:309 | a CSV part key has a position exactly when it is one of I to V, and the position names that key |
| Assembly.Bucket | scripts/json_processing/reorganize_final.py:324 | a part's list never holds more chapters than were placed |
| Assembly.BucketConcat | scripts/json_processing/reorganize_final.py:315-324 | placing two runs of chapters fills each part with the first run's chapters followed by the second's |
| Assembly.BucketPosition | scripts/json_processing/reorganize_final.py:315-324 | the chapter placed at position i sits in its part right after the chapters placed in that part before it: each part keeps placement order |
| Assembly.BucketHas | scripts/json_processing/reorganize_final.py:324 | every chapter placed under a key is in that key's list |
| Assembly.BucketFrom | scripts/json_processing/reorganize_final.py:324 | every chapter of a key's list was placed under that key |
| Assembly.KeyedPartsShape | fix_json_final.py:233-238 | every emitted part has chapters and a title from the table, never the title page |
| Assembly.Assemble | fix_json_final.py:190-240 | the result starts with the special sections and every later entry is an emitted part with chapters and a table title |
| Assembly.KeyedPartsLength | fix_json_final.py:233-238 | one part is emitted per non-empty key |
| Assembly.KeyedPartsAt | fix_json_final.py:233-238 | the part of key k, when it has chapters, comes right after the non-empty parts of the earlier keys and carries the key's title and chapters: parts come in the order I to V |
| Assembly.KeyedPartsChapters | fix_json_final.py:233-238 | the chapters of the emitted parts are the parts' lists in key order |
| Assembly.ChaptersPreserved | scripts/json_processing/reorganize_final.py:309-332 | every placed chapter lands in exactly one emitted part and nothing else does (equal multisets) |
| Assembly.AssembleChapters | fix_json_final.py:190-240 | the assembled book holds the special sections' chapters and every placed chapter, each exactly once |
| Assembly.BucketsCover | scripts/json_processing/reorganize_final.py:309-324 | the five lists' sizes add up to the number of placed chapters |
| Assembly.Positional | scripts/json_processing/reorganize_final.py:315-324 | the i-th chapter gets the i-th row's part and the title `CHAPTER <n>. <title>`, for as many rows and chapters as both lists have |
| Assembly.RemoveTitlePage | scripts/json_processing/reorganize_final.py:370 | the filtered list is a subsequence of the structure and holds no title-page section |
| Assembly.RemoveTitlePageConcat | scripts/json_processing/reorganize_final.py:370 | the filter distributes over concatenation |
| Assembly.RemoveTitlePageOnlyFront | scripts/json_processing/reorganize_final.py:370 | filtering the assembled structure gives exactly the structure assembled without a title page: nothing else is removed |
| Corrections.DictionaryPass | scripts/ocr_fixes/fix_ocr_conservative.py:86-92 | the number of keys found equals the number of replacements that changed the text (every dictionary key is non-empty and its replacement has another length), it is at most the dictionary's size, and with no key found the text is unchanged |
| Corrections.DictionaryPassText | scripts/ocr_fixes/fix_ocr_conservative.py:89-91 | the `in` guard only affects the count: the text is that of applying every replacement of the dictionary in order |
| Corrections.ReplaceAllConcat | scripts/ocr_fixes/fix_ocr_manual.py:310-316 | applying a dictionary made of two halves is applying the first half, then the second |
| Corrections.ReplaceAllAbsent | scripts/ocr_fixes/fix_ocr_manual.py:310-316 | a text holding none of the keys is left as it is |
| Corrections.VisibleStrip | scripts/ocr_fixes/fix_ocr_conservative.py:110 | stripping removes whitespace only: the non-blank characters are those of the input |
| Corrections.SqueezeSpaces | scripts/ocr_fixes/fix_ocr_conservative.py:108 | the result has no two blanks in a row, keeps every non-blank character in order and starts with the input's first character |
| Corrections.SqueezeFixed | scripts/ocr_fixes/fix_ocr_conservative.py:108 | a text without double blanks is left alone |
| Corrections.Cleanup | scripts/ocr_fixes/fix_ocr_conservative.py:108-110 | the cleaned text has no double blank, no whitespace at either end, and the input's non-blank characters in order |
| Corrections.CleanupIdempotent | scripts/ocr_fixes/fix_ocr_manual.py:319-321 | cleaning up twice is cleaning up once |
| Corrections.FixOcrManualOnly | scripts/ocr_fixes/fix_ocr_manual.py:211-321 | the corrected text has no double blank and no whitespace at either end, and at most one change is counted per dictionary entry |
| Corrections.ManualCountsPresent | scripts/ocr_fixes/fix_ocr_manual.py:310-321 | the count is the number of keys present at their turn; with none present only the blanks are touched |
| Corrections.LowerRun | scripts/ocr_fixes/fix_ocr_conservative.py:100 | the run is the longest prefix of lower-case ASCII letters |
| Corrections.TinySub | scripts/ocr_fixes/fix_ocr_conservative.py:100-103 | the substitution never shortens the text, and a result of the same length is the input itself |
| Corrections.TinySubVisible | scripts/ocr_fixes/fix_ocr_conservative.py:100-103 | the substitution only inserts blanks: the non-blank characters are unchanged |
| Corrections.TinySubChanges | scripts/ocr_fixes/fix_ocr_conservative.py:100-105 | the text changes exactly when the pattern (four or more lower-case letters, the tiny word, then whitespace, the end or punctuation) matches somewhere |
| Corrections.TinyPass | scripts/ocr_fixes/fix_ocr_conservative.py:96-105 | the tiny-word loop keeps the non-blank characters, counts at most one change per word, and leaves the text alone when it counts none |
| Corrections.TinyPassCount | scripts/ocr_fixes/fix_ocr_conservative.py:102-105 | a word adds one to the count exactly when its pattern matched the text left by the words before it |
| Corrections.FixOcrWith | scripts/ocr_fixes/fix_ocr_conservative.py:5-110 | for any dictionary and list of tiny words, the three stages leave no double blank and no whitespace at either end, keep the non-blank characters of the dictionary pass, count at most one per dictionary entry and tiny word, and with a zero count only clean up the input |
| Corrections.FixOcrConservative | scripts/ocr_fixes/fix_ocr_conservative.py:5-110 | the result has no double blank, no whitespace at either end, the non-blank characters of the dictionary pass's text, a count bounded by the two tables, and with a zero count it is the input merely cleaned up |
| Corrections.FixItem | scripts/ocr_fixes/fix_ocr_conservative.py:158-166 | a paragraph is replaced only when its corrector reports a change, and then its word count is that of the new text; otherwise the item is untouched |
| Corrections.FixBook | scripts/ocr_fixes/fix_ocr_conservative.py:131-166 | the pass keeps the book's shape, rewrites every item as `FixItem` does, adds up the corrections of every present field and counts the present fields |
| Corrections.FixBookUnchanged | scripts/ocr_fixes/fix_ocr_conservative.py:137-166 | with no correction reported anywhere the book comes back unchanged |
| Corrections.FixBookTitles | scripts/ocr_fixes/fix_ocr_conservative.py:137-147 | every part title and chapter title goes through the corrector (kept when it reports nothing), and part subtitles are never touched |
| Corrections.SumTextsZero | scripts/ocr_fixes/fix_ocr_conservative.py:137-166 | a list of texts adds up to no correction exactly when the corrector reports none on each of them |
| Corrections.BookTally | scripts/ocr_fixes/fix_ocr_conservative.py:137-166 | the corrections counted field by field over the book are those counted over its present titles and paragraphs in reading order, and the fields counted are exactly those texts |
| Corrections.FixBookCounts | scripts/ocr_fixes/fix_ocr_conservative.py:137-166 | the pass counts no correction exactly when the corrector reports none on every present title and paragraph, and its item total is the number of those fields |
| Corrections.FixJsonConservative | scripts/ocr_fixes/fix_ocr_conservative.py:112-177 | the corrected book has the input's shape and is the input when the total is zero |
| Decimal.Dec | scripts/epub_processing/gerar_epub_atualizado.py:158 | `str(n)` is a non-empty string of digits with no leading zero once n has two digits |
| Decimal.ValueDec | scripts/epub_processing/gerar_epub_atualizado.py:158 | reading back the decimal rendering gives the number |
| Decimal.DecLength | scripts/translation/tradutor_docx_google.py:55 | the rendering has at most k digits exactly when n < 10^k |
| Decimal.Pad | scripts/epub_processing/gerar_epub_atualizado.py:158-159 | the zero-padded rendering is all digits and has the width, or the plain rendering's length when that is longer |
| Decimal.PadValue | scripts/epub_processing/gerar_epub_atualizado.py:158-159 | the padded rendering still denotes n |
| Decimal.PadInjective | scripts/translation/tradutor_docx_clean.py:54 | two numbers get the same padded rendering exactly when they are equal |
| Decimal.PadWidth | scripts/translation/tradutor_docx_google.py:55 | the padded rendering has exactly the width iff n < 10^width |
| Decimal.GroupDigits | compare_epub_text.py:125 | grouping a non-empty digit string gives a non-empty string |
| Decimal.RemoveDrops | compare_epub_text.py:125 | deleting a character leaves no occurrence of it |
| Decimal.UngroupDigits | compare_epub_text.py:125 | deleting the separators from a grouped digit string gives back the digits |
| Decimal.GroupShape | compare_epub_text.py:125 | every separator is followed by exactly three digits, then the next separator or the end |
| Decimal.FormatNumber | compare_epub_text.py:121-125 | the formatted count with its dots removed is `str(n)` |
| EpubPackage.ChapterIdInjective | scripts/epub_processing/gerar_epub_atualizado.py:158 | two chapter ids are equal exactly when their file numbers are |
| EpubPackage.FileListNumbered | scripts/epub_processing/gerar_epub_atualizado.py:153-166 | the file list holds one entry per chapter of the book, numbered consecutively in part-then-chapter order |
| EpubPackage.ChapterIdNotFixed | scripts/epub_processing/gerar_epub_atualizado.py:126-158 | no chapter id is one of the fixed ids `ncx`, `license`, `title-page`, `cover-image` |
| EpubPackage.OpfFiles | scripts/epub_processing/gerar_epub_atualizado.py:152-166 | the k-th entry of the file list is `chapter-NNN` / `chapter-NNN.xhtml` for file number k + 1, one entry per chapter |
| EpubPackage.OpfManifest | scripts/epub_processing/gerar_epub_atualizado.py:123-166 | after three fixed items (four for Portuguese) the manifest lists each chapter file under `text/` as XHTML, in file order |
| EpubPackage.OpfSpine | scripts/epub_processing/gerar_epub_atualizado.py:168-180 | the spine is the title page, the chapters in file order, then the license |
| EpubPackage.OpfCover | scripts/epub_processing/gerar_epub_atualizado.py:119-149 | the cover image is in the manifest, and named in the metadata, exactly for the Portuguese edition |
| EpubPackage.SpineResolves | scripts/epub_processing/gerar_epub_atualizado.py:123-180 | every `idref` of the spine names an item of the manifest |
| EpubPackage.ManifestAt | scripts/epub_processing/gerar_epub_atualizado.py:123-166 | manifest item i is the i-th fixed item or the chapter file it lists |
| EpubPackage.ManifestIdsDistinct | scripts/epub_processing/gerar_epub_atualizado.py:123-166 | no two manifest items share an id |
| EpubPackage.StepsAt | scripts/epub_processing/gerar_epub_atualizado.py:256-272 | in the loop over a part's chapters, entry k is made from chapter k with both counters advanced k times, and each counter ends advanced once per chapter |
| EpubPackage.ChapterNavsAt | scripts/epub_processing/gerar_epub_atualizado.py:256-272 | chapter point k has `playOrder` order + k and the file numbered file + k; both counters advance by the number of chapters |
| EpubPackage.PartNavsCounters | scripts/epub_processing/gerar_epub_atualizado.py:238-272 | one point per part; `playOrder` and the file counter both advance by the number of chapters |
| EpubPackage.PartNavHead | scripts/epub_processing/gerar_epub_atualizado.py:239-253 | a part point is labelled with the part title (or `Part <n>`), nests one point per chapter, shares `playOrder` and `src` with its first chapter and has no `src` when it has no chapter |
| EpubPackage.PartNavsParts | scripts/epub_processing/gerar_epub_atualizado.py:238-253 | the same for every part point, by position |
| EpubPackage.PartNavsChapters | scripts/epub_processing/gerar_epub_atualizado.py:238-272 | the nested chapter points are one per chapter of the book, the k-th with `playOrder` order + k and `src` of file number file + k |
| EpubPackage.NcxOrder | scripts/epub_processing/gerar_epub_atualizado.py:218-286 | the title page has `playOrder` 1 and the license the number of chapters plus 2; the chapters run from 2 in reading order and each `src` is `text/` followed by the name the OPF file list gives that chapter |
| EpubPackage.WriteNames | scripts/epub_processing/gerar_epub_atualizado.py:437-450 | the chapter files written carry the names of the file list, in order |
| EpubPackage.WriteBodiesAt | scripts/epub_processing/gerar_epub_atualizado.py:440-450 | the k-th file written shows the k-th chapter of the book |
| EpubPackage.WrittenMatchesOpf | scripts/epub_processing/gerar_epub_atualizado.py:389-450 | the k-th chapter file written is the k-th of the OPF file list, so the NCX `src`, the OPF `href` and the file in the package name the same chapter |
| EpubPackage.WrittenPages | scripts/epub_processing/gerar_epub_atualizado.py:440-450 | the k-th chapter file written holds the page of the k-th chapter of the book |
| EpubPages.ItemElementsOne | scripts/epub_processing/gerar_epub_atualizado.py:57-73 | a blank item adds nothing to the page; any other adds one element with its stripped text, tagged `h1`, `h2` or `h3` as its type says and `p` otherwise |
| EpubPages.ItemElementsConcat | scripts/epub_processing/gerar_epub_atualizado.py:57-73 | the items are rendered independently: the elements of a list are those of its pieces in order |
| EpubPages.ItemElementsFacts | scripts/epub_processing/gerar_epub_atualizado.py:57-73 | one element per item that is not blank, each with a tag among `h1`, `h2`, `h3`, `p`, no class and a non-empty stripped text |
| EpubPages.PageBody | scripts/epub_processing/gerar_epub_atualizado.py:52-73 | the page starts with a `chapter-title` heading exactly when the chapter has a non-empty title, and the item elements follow it |
| EpubPages.FoldItemsAny | scripts/epub_processing/gerar_epub_atualizado.py:350-360 | a flag is raised by the items of a chapter exactly when one of their texts matches |
| EpubPages.FoldChaptersAny | scripts/epub_processing/gerar_epub_atualizado.py:334-360 | over a part's chapters: exactly when a chapter title or an item text matches |
| EpubPages.FoldPartsAny | scripts/epub_processing/gerar_epub_atualizado.py:322-360 | over the book: exactly when a part title, a chapter title or an item text matches |
| EpubPages.ScanItemsOr | scripts/epub_processing/gerar_epub_atualizado.py:350-362 | leaving the item loop once both flags are set loses nothing: the result is the starting flags or-ed with what the items hold |
| EpubPages.ScanChaptersOr | scripts/epub_processing/gerar_epub_atualizado.py:334-364 | the same for the chapter loop |
| EpubPages.ScanPartsOr | scripts/epub_processing/gerar_epub_atualizado.py:322-366 | the same for the part loop |
| EpubPages.DetectFlagsSpec | scripts/epub_processing/gerar_epub_atualizado.py:317-366 | the prayer flag is set exactly when some title or item text names the dedicatory prayer (in Portuguese or English); the preface flag exactly when some title names the preface or some item under 200 characters does |
| EpubReader.ContentPaths | scripts/epub_processing/epub_to_json_processor.py:60-66 | a path is collected exactly when the walk lists it under a `.xml`, `.xhtml` or `.html` file name that mentions `content` or `chapter` in any case |
| EpubReader.FindContentFilesSpec | scripts/epub_processing/epub_to_json_processor.py:55-70 | the files found are the content files of the walk, each as often as the walk lists it, in ascending order |
| EpubReader.FindContentFilesOrderFree | scripts/epub_processing/process_epub_from_file.py:21-36 | the order in which the directory walk lists the files does not change the list found |
| EpubReader.CleanFacts | scripts/epub_processing/epub_to_json_processor.py:83 | a cleaned text is single-spaced with no space at either end, has the words of the raw text, and cleaning it again changes nothing |
| EpubReader.CountWordsIs | scripts/epub_processing/epub_to_json_processor.py:28-47 | `count_words` equals the number of whitespace-separated words of the text |
| EpubReader.ProcessItemSpec | scripts/epub_processing/epub_to_json_processor.py:72-96 | an item is made exactly when the cleaned text is longer than 10 characters; it is a `p` holding the cleaned text, with the word count of the raw text when counts are kept |
| EpubReader.SkipSpacesTrim | scripts/epub_processing/epub_to_json_processor.py:174-175 | skipping whitespace from a position leaves the text with its leading whitespace trimmed |
| EpubReader.NumberedHeadingMatches | scripts/epub_processing/epub_to_json_processor.py:173-177 | the left-to-right scan accepts exactly the titles that `^CHAPTER\s+X` matches, ignoring case |
| EpubReader.StepItems | scripts/epub_processing/epub_to_json_processor.py:167-202 | one element adds its item, if any, to the last chapter and adds it and its words to the totals |
| EpubReader.StepTitles | scripts/epub_processing/epub_to_json_processor.py:173-198 | one element opens a chapter titled by a heading, or `Content` for a paragraph before any chapter, and the chapter total counts it |
| EpubReader.FoldItems | scripts/epub_processing/epub_to_json_processor.py:164-202 | the chapters of a file hold exactly the items of its paragraphs, in document order, and the totals count them and their words |
| EpubReader.FoldTitles | scripts/epub_processing/epub_to_json_processor.py:164-198 | the chapters of a file are `Content` when a paragraph comes before the first heading, then one per heading in order |
| EpubReader.KeptGood | scripts/epub_processing/epub_to_json_processor.py:189-202 | every item kept is a cleaned paragraph of more than 10 characters |
| EpubReader.TallyFile | scripts/epub_processing/epub_to_json_processor.py:204-207 | a file adds a part only when it opened a chapter, and the part total counts it |
| EpubReader.ReadOneTallied | scripts/epub_processing/epub_to_json_processor.py:142-211 | after each file the printed totals are the words, items, chapters and parts of the book read so far |
| EpubReader.ReadOneWell | scripts/epub_processing/epub_to_json_processor.py:142-211 | after each file every part has a title and at least one chapter, and every item is a good paragraph |
| EpubReader.ReadFilesFacts | scripts/epub_processing/epub_to_json_processor.py:139-211 | the same over all the files, including those that cannot be read |
| EpubReader.ProcessEpubFacts | scripts/epub_processing/epub_to_json_processor.py:98-232 | the processor fails exactly when no content file is found; otherwise its printed totals describe the book it writes and the book is well formed |
| EpubReader.KindsDrop | scripts/epub_processing/process_epub_from_file.py:92-126 | the second reader classifies every element as the first does, minus the word count |
| EpubReader.FoldDrop | scripts/epub_processing/process_epub_from_file.py:92-126 | the loop over the classified elements gives the first reader's chapters without word counts |
| EpubReader.ReadersAgree | scripts/epub_processing/process_epub_from_file.py:38-140 | process_epub_from_file.py finds content exactly when the processor does, and writes the processor's book with every `word_count` removed |
| FixFinal.RowsOf | fix_json_final.py:16-24 | the rows filed under a part key all carry that key and keep file order |
| FixFinal.PartOrder | fix_json_final.py:17-19 | the keys of the `parts` dictionary are the part keys in order of first appearance |
| FixFinal.LoadCsvStructureRows | fix_json_final.py:11-25 | grouping the table by part loses no row and invents none |
| FixFinal.ChapterMap | fix_json_final.py:133-143 | every number in the chapter map is the converted `Chapter` field of the row it holds |
| FixFinal.ChapterMapDomain | fix_json_final.py:135-143 | the map holds a number exactly when some row's `Chapter` converts to it |
| FixFinal.ChapterMapLastWins | fix_json_final.py:139 | for a number several rows convert to, the map holds the last of them |
| FixFinal.NonContent | fix_json_final.py:72-74 | no `Content` divider survives, and the rest keep their order |
| FixFinal.NonContentCounts | fix_json_final.py:68-74 | every chapter that is not a divider is kept as often as it occurs |
| FixFinal.Preview | fix_json_final.py:77-79 | the preview is at most 100 characters |
| FixFinal.DeduplicateChapters | fix_json_final.py:62-87 | the kept chapters have pairwise distinct title-and-preview keys, keep book order, contain no divider, and cover every key of the non-divider chapters |
| FixFinal.SameKey | fix_json_final.py:76-81 | two chapters with the same title whose first items share their first 100 characters count as the same chapter |
| FixFinal.DeduplicateKeepsFirst | fix_json_final.py:83-85 | every chapter that is not a divider is represented in the output by a chapter with its key |
| FixFinal.MatchOf | fix_json_final.py:154-156 | a chapter is matched exactly when a number can be read from its title and the map holds that number |
| FixFinal.Canonical | fix_json_final.py:147-149 | the canonical filing sends every key it knows to one of the five parts |
| FixFinal.Organize | fix_json_final.py:153-169 | no more chapters come out than went in, and with a bounded filing every one lands in one of the five parts |
| FixFinal.OrganizeFrom | fix_json_final.py:153-167 | each output chapter is a matched input chapter under its new title, its content unchanged |
| FixFinal.OrganizeHas | fix_json_final.py:153-167 | every matched input chapter is placed |
| FixFinal.OrganizeCount | fix_json_final.py:153-169 | exactly as many chapters are placed as were matched; unmatched ones are dropped |
| FixFinal.PlacedTitleNumber | fix_json_final.py:162-167 | a placed chapter is retitled `CHAPTER <numeral>. <CSV title>` with the numeral of the number it was looked up by, and filed under the entry's part |
| FixFinal.Run | fix_json_final.py:242-293 | the script writes a book exactly when the first part has a first chapter and every matched row names one of the five parts; otherwise the error is caught and nothing is written |
| FixFinal.RunChapters | fix_json_final.py:256-282 | a book written holds the special sections' chapters and the placed chapters, each exactly once |
| FrontMatter.Texts | fix_json_final.py:101-102 | the texts read are the items' `content` values, one per item, in order |
| FrontMatter.FirstChapterContent | fix_json_final.py:91-92 | the first chapter exists exactly when the book has a part and that part a chapter |
| FrontMatter.ExtractSpecialSections | fix_json_final.py:89-128 | the loop returns the three lists, each holding, in order, exactly the paragraphs the state machine routes to it |
| FrontMatter.PicksPartition | fix_json_final.py:101-122 | each paragraph lands in at most one list |
| FrontMatter.PicksOrdered | fix_json_final.py:101-122 | each list keeps document order: its k-th paragraph is one routed to it |
| FrontMatter.MarkerResets | fix_json_final.py:104-106 | a paragraph containing `DEDICATORY PRAYER` is dropped and restarts the prayer search, from any state |
| FrontMatter.TitleStateIffNoMarker | fix_json_final.py:99-106 | the machine is still in its first state exactly when no earlier paragraph contained the marker |
| FrontMatter.TitlePageBeforeMarker | fix_json_final.py:117-118 | the title page holds exactly the `This is a digital copy` paragraphs that come before the first marker |
| FrontMatter.StateHistory | fix_json_final.py:99-122 | each state is reached only from the routing its `if`/`elif` branch performs on the previous paragraph |
| FrontMatter.WaitHistory | fix_json_final.py:99-122 | the machine waits for the preface only after some paragraph routed to the prayer held the closing line |
| FrontMatter.PrayerStartsAtOpening | fix_json_final.py:107-109 | every run of prayer paragraphs starts at an `O SWEET JESUS` paragraph |
| FrontMatter.PrayerEndsAtClosing | fix_json_final.py:110-113 | a run of prayer paragraphs that no marker cuts short ends at the `St. Francis de Sales` paragraph |
| FrontMatter.PrefaceAfterPrayer | fix_json_final.py:114-122 | a run of preface paragraphs starts with `Dear reader`, and only after a prayer closed |
| FrontMatter.MarkerNeverPicked | fix_json_final.py:104-106 | no list ever receives a marker paragraph |
| KeepFirst.DistinctKeysDistinct | fix_json_final.py:81-85 | a list with distinct keys has no repeated element |
| KeepFirst.KeepFirstByKey | fix_json_final.py:62-87 | the `seen`-set loop computes the reference definition: the elements whose key has not occurred before them, in order |
| KeepFirst.FirstOccurrencesKeys | fix_json_final.py:83-85 | the kept elements have pairwise distinct keys and cover every key of the input |
| KeepFirst.FirstOccurrencesSubseq | fix_json_final.py:83-85 | the kept elements are a subsequence of the input |
| KeepFirst.FirstOccurrencesKeepFirst | fix_json_final.py:83-85 | an element whose key has not occurred before it is kept (with the distinct keys of the output, a later duplicate cannot be) |
| KeepFirst.FirstOccurrencesOfDistinct | fix_json_final.py:83-85 | a list whose keys are already distinct is kept whole |
| KeepFirst.FirstOccurrencesIdempotent | fix_json_final.py:62-87 | deduplicating twice is deduplicating once |
| KeepFirst.Insert | fix_json_intelligent.py:114 | inserting adds the element and keeps all others |
| KeepFirst.InsertSorted | fix_json_intelligent.py:114 | inserting into a sorted list keeps it sorted, and every element of the result is the new one or one of the list's |
| KeepFirst.KeysOfPermutation | fix_json_intelligent.py:114 | reordering a list keeps its set of keys |
| KeepFirst.PermutationDistinctKeys | fix_json_sequential.py:95 | reordering keeps keys distinct |
| KeepFirst.Sort | fix_json_intelligent.py:114 | the sorted list is a permutation of the input |
| KeepFirst.SortSorted | fix_json_intelligent.py:114 | the sorted list is in ascending key order |
| KeepFirst.SortOfSorted | fix_json_intelligent.py:114 | sorting a list that is already in order changes nothing |
| KeepFirst.SubseqSorted | fix_json_intelligent.py:114-124 | a subsequence of a sorted list is sorted |
| FixIntelligent.HashInput | fix_json_intelligent.py:66-70 | the digest is taken of at most 600 characters: 200 from each of the first three items |
| FixIntelligent.PrefixesAgree | fix_json_intelligent.py:69-70 | items that agree on their first 200 characters give the same digest input |
| FixIntelligent.HashSeesPrefixes | fix_json_intelligent.py:64-74 | two chapters whose first three items agree on their first 200 characters get the same hash, whatever follows |
| FixIntelligent.MetaOf | fix_json_intelligent.py:82-102 | a chapter gets a record exactly when it is not a `Content` divider and a number can be read from its title; the record holds the chapter, its title and its position |
| FixIntelligent.CollectChapters | fix_json_intelligent.py:81-104 | the records of a part's chapters are at most one per chapter, each at the position of the chapter it holds, in document order |
| FixIntelligent.CollectParts | fix_json_intelligent.py:80-104 | the records of the parts are in strictly increasing (part, chapter) position |
| FixIntelligent.CollectWithMetadata | fix_json_intelligent.py:76-106 | every record sits at the position of the chapter it holds, and the records are in document order |
| FixIntelligent.CollectedRecord | fix_json_intelligent.py:82-102 | a collected record holds a numbered chapter that is not a divider, found at the record's position, with its number, title and hash |
| FixIntelligent.CollectedIfNumbered | fix_json_intelligent.py:80-104 | every numbered chapter that is not a divider is collected with its position |
| FixIntelligent.DeduplicateIntelligently | fix_json_intelligent.py:108-125 | the kept records have pairwise distinct hashes, are in position order, cover every hash of the input and are a subsequence of the sorted input |
| FixIntelligent.InDocumentOrderSorted | fix_json_intelligent.py:114 | records in strictly increasing position are sorted for the key of the sort |
| FixIntelligent.DeduplicateCollected | fix_json_intelligent.py:108-125 | since collection already yields document order, the sort changes nothing and deduplication keeps the first chapter of each hash in reading order |
| FixIntelligent.MapChaptersSequentially | fix_json_intelligent.py:167-200 | the i-th unique chapter's content is placed under the i-th row's title in the i-th row's part, for as many chapters as there are both chapters and rows |
| FixIntelligent.Run | fix_json_intelligent.py:254-315 | the script writes a book exactly when the first part has a first chapter and every row used names one of the five parts |
| FixIntelligent.RunChapters | fix_json_intelligent.py:272-304 | a book written holds the special sections' chapters and the mapped chapters, each once; as many are mapped as there are unique chapters or rows, whichever is fewer |
| FixSequential.Number | fix_json_sequential.py:77-85 | a chapter has a number exactly when it is not a `Content` divider and a number can be read from its title |
| FixSequential.Collect | fix_json_sequential.py:75-92 | every collected record holds a chapter of the book under that chapter's own number |
| FixSequential.CollectHas | fix_json_sequential.py:75-92 | every numbered chapter is collected under its number |
| FixSequential.FirstByNumber | fix_json_sequential.py:87-92 | the `seen_chapters` loop keeps the first record of each number: numbers distinct, every number covered |
| FixSequential.SortByNumber | fix_json_sequential.py:95 | the sort puts the records in strictly ascending number order, as a permutation |
| FixSequential.UniqueSorted | fix_json_sequential.py:87-95 | one record per number, in ascending order, each a collected record |
| FixSequential.FirstWith | fix_json_sequential.py:88 | the first position holding a number exists and no earlier one holds it |
| FixSequential.FirstKept | fix_json_sequential.py:88-92 | a record whose number has not occurred before is kept |
| FixSequential.UniqueSortedKeepsFirst | fix_json_sequential.py:87-95 | each kept record is the first record of its number |
| FixSequential.DeduplicateChapters | fix_json_sequential.py:69-97 | the kept chapters are in strictly ascending number order and their numbers are exactly the numbers found in the book |
| FixSequential.DeduplicateFrom | fix_json_sequential.py:69-97 | every kept record is a numbered chapter of the book under its own number |
| FixSequential.DeduplicateKeepsFirst | fix_json_sequential.py:87-92 | each kept chapter is the first of its number in reading order |
| FixSequential.DeduplicateCovers | fix_json_sequential.py:75-97 | every chapter with a number is represented by a kept chapter of that number |
| FixSequential.MapChaptersSequentially | fix_json_sequential.py:139-166 | the i-th kept chapter's content is placed under the i-th row's title in the i-th row's part |
| FixSequential.Run | fix_json_sequential.py:220-276 | the script writes a book exactly when the first part has a first chapter and every row used names one of the five parts |
| FixSequential.RunChapters | fix_json_sequential.py:238-265 | a book written holds the special sections' chapters and one chapter per row, up to the number of distinct chapter numbers |
| FixStructure.Find | fix_json_structure.py:46-47 | the position found is the first at or after the start whose paragraph contains the pattern, or the end when none does |
| FixStructure.PrayerRun | fix_json_structure.py:52-60 | the collected prayer holds no marker paragraph, only its last paragraph may be the `St. Francis de Sales` one, and it keeps document order |
| FixStructure.Prayer | fix_json_structure.py:45-66 | the prayer section is absent exactly when no paragraph contains `DEDICATORY PRAYER` |
| FixStructure.PrayerRunClosed | fix_json_structure.py:56-58 | when a closing paragraph that is not a marker follows, the prayer ends with a closing paragraph |
| FixStructure.PrayerRunUnclosed | fix_json_structure.py:52-60 | without any closing paragraph every paragraph after the marker that is not a marker is collected |
| FixStructure.PrefaceScan | fix_json_structure.py:72-79 | the preface never holds a `PART THE FIRST` paragraph |
| FixStructure.PrefaceCollecting | fix_json_structure.py:74-79 | once collecting, the loop takes everything up to the first `PART THE FIRST` paragraph |
| FixStructure.PrefaceWaiting | fix_json_structure.py:72-79 | before collecting, the loop waits for the greeting; a `PART THE FIRST` seen first ends it with nothing |
| FixStructure.PrefaceSlice | fix_json_structure.py:68-84 | the preface is the slice from the first greeting paragraph to the first `PART THE FIRST` paragraph, and empty when that heading comes first |
| FixStructure.Notices | fix_json_structure.py:92-93 | every notice kept contains `This is a digital copy` |
| FixStructure.TitleBeforeMarker | fix_json_structure.py:86-98 | the title page is the notice paragraphs before the first marker |
| FixStructure.SpecialParts | fix_json_structure.py:182-204 | the title page and the preface are always written (their dictionaries are never empty), the prayer between them exactly when a marker was found |
| FixStructure.FindChapter | fix_json_structure.py:102-108 | the chapter found is the first whose title contains the pattern, ignoring case, and none is found exactly when no title does |
| FixStructure.SecondPatternRedundant | fix_json_structure.py:135-144 | the second search pattern `Chapter <n>` finds exactly what the first, `CHAPTER <n>`, found: it never changes the result |
| FixStructure.SameUpperSameFind | fix_json_structure.py:106 | patterns with the same upper-case form find the same chapter |
| FixStructure.PartChapters | fix_json_structure.py:127-152 | a part never gets more chapters than it has rows |
| FixStructure.PartChaptersHas | fix_json_structure.py:141-152 | every row whose lookup hits contributes its chapter, retitled `CHAPTER <n>. <title>`, to its part |
| FixStructure.PartsFrom | fix_json_structure.py:123-161 | at most one part per key looked up |
| FixStructure.PartOrderFrom | fix_json_structure.py:16-19 | a key of the `parts` dictionary is the part of some row |
| FixStructure.PartOrderHas | fix_json_structure.py:16-19 | the part of every row is a key of the `parts` dictionary |
| FixStructure.PartsFromNone | fix_json_structure.py:123-124 | looking parts up under `Part I` to `Part V` in a table keyed `I` to `V` finds none |
| FixStructure.AsWrittenNoParts | fix_json_structure.py:110-163 | as written, a table keyed `I` to `V` yields no part at all |
| FixStructure.AsWrittenExample | fix_json_structure.py:123-124 | the one-row table `I, I, What Devotion Is` organizes nothing |
| FixStructure.PartsFromHas | fix_json_structure.py:123-161 | every key that the table has yields its part with its title and the chapters its rows found |
| FixStructure.CorrectedPlacesRow | fix_json_structure.py:123-161 | with the lookup corrected to the table's keys, every row naming one of the five parts gets that part written, and its chapter placed in it when the lookup hits |
| FixStructure.Run | fix_json_structure.py:165-239 | with the part lookup corrected, the script writes a book exactly when the first part has a first chapter; the book opens with the title page, the prayer when found and the preface, and after them every row naming one of the five parts has its part, holding the row's chapter when the chapter lookup hits |
| FixStructure.RunAsWritten | fix_json_structure.py:110-239 | as written, a book is written exactly when the first part has a first chapter, it opens with the special sections, and with a table keyed `I` to `V` nothing follows them |
| FixStructure.AsWrittenOnlySpecials | fix_json_structure.py:165-209 | as written, with a table keyed `I` to `V`, the script writes the special sections and nothing else |
| FixStructureV2.CollectAll | fix_json_structure_v2.py:91-101 | no `Content` divider is collected |
| FixStructureV2.CollectAllCounts | fix_json_structure_v2.py:95-99 | every other chapter is collected as often as the book holds it, duplicates included |
| FixStructureV2.ChapterToPart | fix_json_structure_v2.py:138-149 | the map has the same numbers as the chapter map of the grouped table |
| FixStructureV2.ChapterToPartLastWins | fix_json_structure_v2.py:140-147 | the entry for a number comes from the last row of the grouped table converting to it, its part prefixed with `Part ` |
| FixStructureV2.PartSlot | fix_json_structure_v2.py:152-158 | a key of `organized_parts` names one of the five parts |
| FixStructureV2.PartSlotPrefixed | fix_json_structure_v2.py:145-175 | a prefixed key finds exactly the part its bare key names, and a key outside `I` to `V` finds none |
| FixStructureV2.DotIndex | fix_json_structure_v2.py:168 | the position found is that of the first full stop, and there is none exactly when the title has no full stop |
| FixStructureV2.NewTitleWithoutDot | fix_json_structure_v2.py:168 | a table title without a full stop comes out doubled: `CHAPTER t. t` |
| FixStructureV2.DotIndexAt | fix_json_structure_v2.py:168 | the first full stop is the one with none before it |
| FixStructureV2.NewTitleSplit | fix_json_structure_v2.py:168 | `<r>. <rest>` splits at its first full stop into `CHAPTER <r>. <rest>` |
| FixStructureV2.NewTitleNumbered | fix_json_structure_v2.py:168 | a table title `<numeral>. <title>` gives the usual chapter title, from which the same chapter number reads back |
| FixStructureV2.Split | fix_json_structure_v2.py:152-175 | the filing sends every key it knows to one of the five parts |
| FixStructureV2.MapChaptersToParts | fix_json_structure_v2.py:135-179 | every matched chapter lands in one of the five parts |
| FixStructureV2.PlacedInRowPart | fix_json_structure_v2.py:160-175 | a matched chapter goes to the part its row names, under the split title, with its content |
| FixStructureV2.Run | fix_json_structure_v2.py:181-274 | the script writes a book exactly when the first part has a first chapter and every matched row names one of the five parts |
| FixStructureV2.RunChapters | fix_json_structure_v2.py:190-244 | a book written holds the special sections' chapters and every matched chapter, duplicates included |
| Labels.DashesToSpaces | scripts/json_processing/reorganize_final.py:119 | each dash becomes a space, everything else is kept in place |
| Labels.PunctuationToSpaces | scripts/json_processing/reorganize_final.py:123 | each character that is neither a word character nor white space becomes a space, everything else is kept |
| Labels.Cleaned | scripts/json_processing/reorganize_final.py:119-123 | after the dash, case and punctuation steps only spaces and lower-case word characters remain |
| Labels.Squeeze | scripts/json_processing/reorganize_final.py:125 | collapsing and stripping that text leaves a normalised label: single spaces between lower-case word characters, none at either end |
| Labels.StripNormalized | scripts/json_processing/reorganize_final.py:125 | stripping a single-spaced text of lower-case word characters gives a normalised label |
| Labels.NormalizeLabel | scripts/json_processing/reorganize_final.py:114-126 | the result is normalised, and a missing text gives the empty label |
| Labels.NormalizedFixed | scripts/json_processing/reorganize_final.py:114-126 | a normalised label is its own normal form |
| Labels.NormalizeIdempotent | scripts/json_processing/reorganize_final.py:114-126 | normalising twice is normalising once |
| Labels.DeleteZeroWidth | scripts/ocr_fixes/fix_ocr_manual.py:10-15 | no zero-width character survives, and the text does not grow |
| Labels.NoBreakToSpaces | scripts/ocr_fixes/fix_ocr_manual.py:13-17 | each no-break or thin space becomes a plain space, everything else is kept in place |
| Labels.NormalizeLabelManual | scripts/ocr_fixes/fix_ocr_manual.py:6-26 | the result is normalised, and a missing text gives the empty label |
| Labels.ManualIsPlainWithoutZeroWidth | scripts/ocr_fixes/fix_ocr_manual.py:6-26 | the second normaliser is the first one applied after deleting the zero-width characters |
| Labels.ZeroWidthSplitsWord | scripts/json_processing/reorganize_final.py:123 | the first normaliser turns a zero-width space inside a word into a word break |
| Labels.ZeroWidthVanishes | scripts/ocr_fixes/fix_ocr_manual.py:14-15 | the second normaliser joins the same word back together |
| Labels.SqueezeWord | scripts/json_processing/reorganize_final.py:125 | a single lower-case word is left as it is |
| Labels.SqueezeSingle | scripts/json_processing/reorganize_final.py:125 | two lower-case words with one space between them are left as they are |
| Labels.Normalize | scripts/json_processing/reorganize_final.py:114-126 | either normaliser gives a normalised label |
| Labels.TitleLabel | scripts/json_processing/reorganize_final.py:139-149 | a label read from a title has no white space at either end |
| Labels.AfterKeyword | scripts/json_processing/reorganize_final.py:139 | what follows the keyword is strictly shorter than the title |
| Labels.AfterNumeral | scripts/json_processing/reorganize_final.py:139 | what follows the numeral and its full stop is strictly shorter than the text |
| Labels.AfterKeywordOf | scripts/json_processing/reorganize_final.py:139 | after `CHAPTER ` and a text not starting with white space, that text is what follows the keyword |
| Labels.AfterNumeralOf | scripts/json_processing/reorganize_final.py:139 | after a Roman numeral and a full stop, the rest is what follows |
| Labels.TitleLabelOf | scripts/json_processing/reorganize_final.py:139-149 | the title `CHAPTER <numeral>. <label>` gives back exactly the label, for any one-line label without white space at its ends |
| Labels.TitleLabelFrom | scripts/json_processing/reorganize_final.py:139-149 | the label is the stripped one-line rest after the keyword and the numeral |
| Labels.FirstP | scripts/json_processing/reorganize_final.py:152-158 | the index found is that of the first paragraph with content, and none is found exactly when no paragraph has content |
| Labels.SeparatorRun | scripts/json_processing/reorganize_final.py:172 | the run counted is the longest run of separators at the start |
| Labels.PrefixEnd | scripts/json_processing/reorganize_final.py:172-173 | a match of the label pattern ends after the label and within the paragraph |
| Labels.Drop | scripts/json_processing/reorganize_final.py:191-193 | Python's clamped slice from `n`: the suffix of length `len - n`, or nothing |
| Labels.PatternRest | scripts/json_processing/reorganize_final.py:175 | what remains after the matched prefix is a suffix of the paragraph, no longer than what followed the match |
| Labels.SuffixOfTail | scripts/json_processing/reorganize_final.py:175 | a suffix of a tail of a text is a suffix of the text |
| Labels.WordsAfter | scripts/json_processing/reorganize_final.py:196-199 | the remainder's words are exactly the paragraph's words after the first `k` |
| Labels.NoColonAfter | scripts/json_processing/reorganize_final.py:188 | a normalised paragraph never starts with the label and a colon, so that test of the fallback never fires on its own |
| Labels.DropIsTail | scripts/json_processing/reorganize_final.py:191-193 | cutting the label's length off the front leaves a shorter tail of the paragraph, or nothing |
| Labels.WordsAfterIsTail | scripts/json_processing/reorganize_final.py:194-199 | dropping the label's word count of words leaves the paragraph's later words |
| Labels.NormalizedRemainderIsTail | scripts/json_processing/reorganize_final.py:188-199 | whatever the fallback leaves is a tail of the paragraph |
| Labels.RemainderIsTail | scripts/json_processing/reorganize_final.py:171-199 | whatever either prefix test leaves is a shorter tail of the paragraph, or its words after the label's |
| Labels.Apply | scripts/json_processing/reorganize_final.py:176-186 | a blank remainder removes the paragraph and nothing else; otherwise the paragraph takes the remainder, its word count is recounted if it had one, and no other item changes |
| Labels.CleanParagraph | scripts/json_processing/reorganize_final.py:164-207 | a paragraph that normalises to the label is removed; a trimmed paragraph keeps its kind and is left non-blank; only that paragraph is touched and the item count falls exactly by the removals |
| Labels.CleanChapter | scripts/json_processing/reorganize_final.py:142-207 | the title stays, the content shrinks exactly by the removals, and an untouched chapter is unchanged |
| Labels.CleanChapterTouches | scripts/json_processing/reorganize_final.py:144-163 | a chapter is touched only when its title gives a non-empty label and its first paragraph with content is not blank, and then as the paragraph step says |
| Labels.RepeatedLabelRemoved | scripts/json_processing/reorganize_final.py:164-169 | a first paragraph that is exactly the label is removed and nothing else changes |
| Labels.CleanChapterWhen | scripts/json_processing/reorganize_final.py:142-207 | with a label and a non-blank first paragraph the chapter step is the paragraph step |
| Labels.CleanChapterIsCleaner | scripts/json_processing/reorganize_final.py:142-207 | the chapter step keeps titles and loses one item per removal |
| Labels.CleanChapters | scripts/json_processing/reorganize_final.py:142-207 | each chapter of a section is cleaned on its own, at most one removal or trim per chapter, and the section loses one item per removal |
| Labels.CleanParts | scripts/json_processing/reorganize_final.py:141-208 | parts keep their titles; each part's chapters are cleaned; removals and trims together never exceed the chapters; the book loses one item per removal |
| Labels.ChapterCleaner | scripts/json_processing/reorganize_final.py:142-207 | the per-chapter step as a value, which keeps titles and loses one item per removal |
| Labels.CleanRepeatedChapterTitle | scripts/json_processing/reorganize_final.py:128-208 | the cleaned book, with the removal count matching the items lost and `removed + trimmed` at most the number of chapters |
| ParagraphMerge.IsParagraphContinuation | scripts/ocr_fixes/fix_ocr_manual.py:101-102 | an empty text on either side is never a continuation |
| ParagraphMerge.ContinuationSpec | scripts/ocr_fixes/fix_ocr_manual.py:92-155 | a pair that fails an early test (too few words, final punctuation, a short first text without a sign) is not a continuation; the test raises exactly on an admitted pair whose second text is blank; otherwise it answers yes exactly when the second text starts in lower case or with a continuation word, or the first ends in `,;-` or on a mid-sentence word |
| ParagraphMerge.ContinuationDefined | scripts/ocr_fixes/fix_ocr_manual.py:126-137 | a second paragraph with a word in it never makes the test raise |
| ParagraphMerge.Merged | scripts/ocr_fixes/fix_ocr_manual.py:195-197 | the merged paragraph keeps the kind, holds both texts joined by one space, has both texts' words in order, and its word count is recounted |
| ParagraphMerge.Splice | scripts/ocr_fixes/fix_ocr_manual.py:195-201 | merging and popping shortens the list by one |
| ParagraphMerge.TokensConcat | scripts/ocr_fixes/fix_ocr_manual.py:157-209 | the words of two lists of items are the words of each, in order |
| ParagraphMerge.TextsConcat | scripts/ocr_fixes/fix_ocr_manual.py:157-209 | the paragraph texts of two lists are those of each, in order |
| ParagraphMerge.OthersConcat | scripts/ocr_fixes/fix_ocr_manual.py:157-209 | the non-paragraph items of two lists are those of each, in order |
| ParagraphMerge.JoinSplice | scripts/ocr_fixes/fix_ocr_manual.py:195 | joining with a separator is the same whether two neighbours were already joined by it or not |
| ParagraphMerge.SpliceKeeps | scripts/ocr_fixes/fix_ocr_manual.py:195-201 | one merge keeps the words, the joined paragraph text and every other item |
| ParagraphMerge.SpliceTokens | scripts/ocr_fixes/fix_ocr_manual.py:195-201 | one merge keeps the words in order |
| ParagraphMerge.SpliceTexts | scripts/ocr_fixes/fix_ocr_manual.py:195-201 | one merge keeps the text obtained by joining the paragraphs with spaces |
| ParagraphMerge.SpliceOthers | scripts/ocr_fixes/fix_ocr_manual.py:195-201 | one merge keeps the items that are not paragraphs |
| ParagraphMerge.StopStep | scripts/ocr_fixes/fix_ocr_manual.py:174-181 | the loop stops at position zero, or when only one item is left |
| ParagraphMerge.StopCases | scripts/ocr_fixes/fix_ocr_manual.py:174-181 | at position zero, or with one item left, the loop returns the list and the count unchanged |
| ParagraphMerge.MergeStep | scripts/ocr_fixes/fix_ocr_manual.py:193-205 | after a merge the loop stays at the same position, with one more merge |
| ParagraphMerge.FailStep | scripts/ocr_fixes/fix_ocr_manual.py:193 | a comparison that raises makes the whole loop raise |
| ParagraphMerge.SkipStep | scripts/ocr_fixes/fix_ocr_manual.py:187-207 | a pair that is not two paragraphs, or not a continuation, moves the loop one position back |
| ParagraphMerge.MergeWithKeeps | scripts/ocr_fixes/fix_ocr_manual.py:172-207 | the item count falls by exactly the merges made, and the words, the joined paragraph text and all other items are unchanged |
| ParagraphMerge.SpliceNoBlank | scripts/ocr_fixes/fix_ocr_manual.py:195-201 | merging keeps every paragraph non-blank |
| ParagraphMerge.MergeWithSucceeds | scripts/ocr_fixes/fix_ocr_manual.py:172-207 | on a chapter without a blank paragraph, and with a test that only raises on a blank second text, the loop never raises |
| ParagraphMerge.MergeChapter | scripts/ocr_fixes/fix_ocr_manual.py:164-207 | a chapter with fewer than two items is left alone; one without blank paragraphs never raises; a merged chapter keeps its title, words, joined text and other items, and loses one item per merge |
| ParagraphMerge.MergeBrokenParagraphs | scripts/ocr_fixes/fix_ocr_manual.py:157-209 | every chapter is merged on its own, and the loop raises exactly when some chapter's merge does |
| ParagraphMerge.MergeCounts | scripts/ocr_fixes/fix_ocr_manual.py:162-209 | the merge count returned is the number of items lost |
| ParagraphMerge.MergeBook | scripts/ocr_fixes/fix_ocr_manual.py:341-347 | each part keeps its place and has its chapters merged |
| ParagraphMerge.FixJsonManualOnly | scripts/ocr_fixes/fix_ocr_manual.py:323-426 | the script writes the book exactly when the merge does not raise, keeps the parts, and every text item it writes carries the word count of its text |
| PartTitles.LowerOfUpperChar | scripts/json_processing/split_part_titles.py:127-138 | lower-casing after upper-casing a character is lower-casing it, and the other way round, and neither makes a space |
| PartTitles.Capitalize | scripts/json_processing/split_part_titles.py:133 | `str.capitalize`: the first character upper-cased and the rest lower-cased, the length kept |
| PartTitles.CapitalizeCase | scripts/json_processing/split_part_titles.py:133-138 | capitalising keeps the word's lower- and upper-case forms, keeps a word a word, and is idempotent |
| PartTitles.GodBranchUnreachable | scripts/json_processing/split_part_titles.py:137-141 | any spelling of `god` is already caught by the always-upper test, so the `God` branch never runs |
| PartTitles.CaseWordOf | scripts/json_processing/split_part_titles.py:133-141 | a lower-case word is capitalised when it is first or in the always-upper list, and is kept otherwise |
| PartTitles.CasedWords | scripts/json_processing/split_part_titles.py:133-141 | each word is capitalised exactly when it is first or in the always-upper list, and kept otherwise |
| PartTitles.CapitalizeSubtitle | scripts/json_processing/split_part_titles.py:116-143 | a subtitle without words is returned as is; otherwise the result has the same words up to case, single-spaced, the first and the always-upper ones capitalised and the rest lower case |
| PartTitles.CasedTokens | scripts/json_processing/split_part_titles.py:133-141 | the cased words are still words and lower-case back to the originals |
| PartTitles.CapitalizeIdempotent | scripts/json_processing/split_part_titles.py:116-143 | capitalising a subtitle twice is capitalising it once |
| PartTitles.SplitAtDash | scripts/json_processing/split_part_titles.py:42-48 | there is no split exactly when the title has no dash; otherwise the title is the left half, a dash and the right half, with no dash in the left half |
| PartTitles.SplitAtDashUnique | scripts/json_processing/split_part_titles.py:46 | the split is at the first dash: any decomposition with a dash-free left half is the one found |
| PartTitles.NumberPart | scripts/json_processing/split_part_titles.py:54-59 | a title holding none of the five ordinals is left unchanged |
| PartTitles.SplitPartOf | scripts/json_processing/split_part_titles.py:39-65 | a part without a dash is kept; otherwise it is cut at the first dash, the stripped left half numbered, the stripped right half capitalised, and the chapters kept |
| PartTitles.DashedSnoc | scripts/json_processing/split_part_titles.py:38-71 | one more part adds one to the count exactly when its title has a dash |
| PartTitles.MapParts | scripts/json_processing/split_part_titles.py:38-71 | every part goes through the loop body in place, and the count is the number of parts with a dash in the title |
| PartTitles.SplitPartTitles | scripts/json_processing/split_part_titles.py:13-71 | every part is split in place, and the count of modifications is the number of parts whose title has a dash |
| PartTitles.SplitPartTitlesSkips | scripts/json_processing/split_part_titles.py:41-43 | a part without a dash leaves the pass unchanged |
| PartTitles.Keys | scripts/json_processing/split_part_titles.py:88-114 | an object has one key per entry |
| PartTitles.DistinctCons | scripts/json_processing/split_part_titles.py:88-114 | a new key in front of distinct keys keeps them distinct |
| PartTitles.KeysConcat | scripts/json_processing/split_part_titles.py:88-114 | the keys of two objects written one after the other are the keys of each, in order |
| PartTitles.GetAfter | scripts/json_processing/split_part_titles.py:110-112 | a key missing from the front entries is looked up in the rest |
| PartTitles.GetRest | scripts/json_processing/split_part_titles.py:110-112 | the copied entries keep the value of every key other than the three reserved ones |
| PartTitles.RestSub | scripts/json_processing/split_part_titles.py:110-112 | the copied entries hold only original keys other than the three reserved ones |
| PartTitles.RestDistinct | scripts/json_processing/split_part_titles.py:110-112 | copying keeps the keys distinct |
| PartTitles.ReorderKeys | scripts/json_processing/split_part_titles.py:88-114 | the rebuilt object lists `part_title`, then `part_subtitle` if given or present, then `chapters`, then every other original key in its original order with its original value, all keys distinct; the title is the one given or the original, and the chapters are the original ones |
| PartTitles.FrontKeys | scripts/json_processing/split_part_titles.py:92-107 | the first entries are `part_title`, `part_subtitle` when given or present, and `chapters`, all reserved keys |
| PartTitles.ReorderChapters | scripts/json_processing/split_part_titles.py:107 | the rebuilt object carries the original chapters |
| PathOrder.StrLeTotal | scripts/epub_processing/epub_to_json_processor.py:69 | any two names are ordered one way or the other |
| PathOrder.StrLeTrans | scripts/epub_processing/epub_to_json_processor.py:69 | the order on names is transitive |
| PathOrder.StrLeAntisymmetric | scripts/epub_processing/epub_to_json_processor.py:69 | two names each at most the other are equal |
| PathOrder.StrLeRefl | scripts/epub_processing/epub_to_json_processor.py:69 | every name is at most itself |
| PathOrder.Insert | scripts/epub_processing/epub_to_json_processor.py:69 | inserting adds exactly that name to the list |
| PathOrder.SortPaths | scripts/epub_processing/epub_to_json_processor.py:69 | sorting keeps exactly the same names, with their repetitions |
| PathOrder.InsertSorted | scripts/epub_processing/epub_to_json_processor.py:69 | inserting into a sorted list keeps it sorted |
| PathOrder.SortSorted | scripts/epub_processing/epub_to_json_processor.py:69 | the sorted list is in order |
| PathOrder.SortedHead | scripts/epub_processing/epub_to_json_processor.py:69 | the first name of a sorted list is at most every name in it |
| PathOrder.MultisetTail | scripts/epub_processing/epub_to_json_processor.py:69 | two lists with the same names and the same first name have the same names after it |
| PathOrder.SortedUnique | scripts/epub_processing/epub_to_json_processor.py:69 | two sorted lists with the same names are equal |
| PathOrder.SortSpec | scripts/epub_processing/epub_to_json_processor.py:69 | the sorted list is in order, a permutation of the input, holds the same names, and is the only sorted permutation |
| Roman.Val | fix_json_final.py:34-36 | every numeral letter is worth at least one |
| Roman.RomanToInt | fix_json_final.py:32-50 | a value is produced exactly when the upper-cased text is all numeral letters; any other letter is the `KeyError` |
| Roman.RomanToIntLoop | fix_json_final.py:38-50 | the while loop succeeds exactly when the upper-cased text is all numeral letters, and then computes the value the recursive reading gives |
| Roman.NumeralsAt | fix_json_final.py:42-48 | each step of the loop extends the prefix known to be all numeral letters |
| Roman.ParseAt | fix_json_final.py:43-48 | a subtractive pair adds the difference and moves two places, any other letter adds its value and moves one |
| Roman.ParsePositive | fix_json_final.py:55-57 | a non-empty numeral is worth at least one |
| Roman.ParseConcat | fix_json_final.py:42-48 | reading splits at a boundary where the value does not rise: the value of the join is the sum |
| Roman.Value | fix_json_final.py:180 | each table value is at least one |
| Roman.Symbol | fix_json_final.py:181 | each table symbol is a non-empty numeral |
| Roman.Repeat | fix_json_final.py:186 | repeating a numeral gives a numeral with the same first and last letters |
| Roman.Euclid | fix_json_final.py:185-187 | the count and what is left are the quotient and remainder of the division by the table value |
| Roman.Greedy | fix_json_final.py:184-187 | the loop writes only numeral letters |
| Roman.IntToRoman | fix_json_final.py:178-188 | the result is a numeral, empty exactly for zero |
| Roman.GreedyEmpty | fix_json_final.py:184-188 | the loop writes nothing exactly when the number is zero or the table is exhausted |
| Roman.ValuesFacts | fix_json_final.py:180 | the table values are positive, strictly decreasing and end at one |
| Roman.SymbolFacts | fix_json_final.py:180-181 | each symbol reads back as its value, and the letters at the join with the next entry never rise |
| Roman.SymbolsHigh | fix_json_final.py:180-181 | the same for the entries from 1000 to 400 |
| Roman.SymbolsMiddle | fix_json_final.py:180-181 | the same for the entries from 100 to 9 |
| Roman.SymbolsLow | fix_json_final.py:180-181 | the same for the entries from 5 to 1 |
| Roman.SymbolCase | fix_json_final.py:180-181 | one entry's facts, given its symbol and value |
| Roman.ParseRepeat | fix_json_final.py:186 | a symbol repeated `count` times reads as `count` times its value |
| Roman.GreedyFirst | fix_json_final.py:184-187 | the first letter written is worth at most the current table value |
| Roman.GreedyStep | fix_json_final.py:185-187 | what one table entry writes and what the rest of the loop writes read as the sum of their values |
| Roman.RepeatValue | fix_json_final.py:185-186 | the symbols written for one entry read as the count times the value |
| Roman.ParseGreedy | fix_json_final.py:184-188 | the numeral the loop writes reads back as the number it started with |
| Roman.RomanRoundTrip | fix_json_final.py:32-50 | converting a number to a numeral and back gives the number |
| Roman.UpperNumerals | fix_json_final.py:40 | upper-casing leaves a numeral unchanged |
| Roman.IntToRomanInjective | fix_json_final.py:178-188 | two numbers get the same numeral exactly when they are equal |
| Roman.NumeralRun | fix_json_final.py:54 | the run counted is the longest run of numeral letters at the start |
| Roman.NumeralAfterSpace | fix_json_final.py:54 | a capture is a non-empty numeral |
| Roman.SearchChapterNumeral | fix_json_final.py:54 | a capture found is a non-empty numeral |
| Roman.ExtractChapterNumber | fix_json_final.py:52-60 | a number read is at least one, and none is read exactly when no `CHAPTER` followed by white space and a numeral occurs in the upper-cased title |
| Roman.NoChapterNoNumber | fix_json_final.py:54-60 | a title without `CHAPTER` in it has no number |
| Roman.UpperConcat | fix_json_final.py:54 | upper-casing works letter by letter across a join |
| Roman.NumeralAfterOneSpace | fix_json_final.py:54 | after one space, the whole numeral is captured when no numeral letter follows it |
| Roman.UpperChapterTitle | fix_json_final.py:54 | upper-casing `CHAPTER <numeral>. <rest>` only upper-cases the rest |
| Roman.SearchAtStart | fix_json_final.py:54 | a title starting `CHAPTER <numeral>` followed by a non-numeral captures that numeral |
| Roman.ChapterPrefix | fix_json_final.py:54 | a text made of `CHAPTER` and a tail starts with `CHAPTER` and continues with the tail |
| Roman.ChapterTitleNumber | fix_json_final.py:52-60 | the titles the scripts write, `CHAPTER <numeral of n>. <rest>`, give back `n` for every `n` of at least one |
| Roman.NumeralRunPrefix | fix_json_final.py:54 | the run of numerals at the start of a numeral followed by a non-numeral is the numeral |
| ReadingSessions.ChapterParas | webapp/src/App.js:45 | only `p` items are taken, each tagged with its chapter's and part's titles |
| ReadingSessions.PartParas | webapp/src/App.js:44-46 | every paragraph taken from a part is a `p` item tagged with that part's title |
| ReadingSessions.Flatten | webapp/src/App.js:43-47 | every paragraph taken is a `p` item |
| ReadingSessions.ItemsOf | webapp/src/App.js:45 | the items are the paragraphs' own items, one for one |
| ReadingSessions.ItemsOfConcat | webapp/src/App.js:43-47 | taking the items works piecewise over a join |
| ReadingSessions.ParagraphsConcat | webapp/src/App.js:45 | filtering the `p` items works piecewise over a join |
| ReadingSessions.ChapterParasItems | webapp/src/App.js:45 | a chapter contributes exactly its `p` items, in order |
| ReadingSessions.PartParasItems | webapp/src/App.js:44-46 | a part contributes exactly the `p` items of its chapters, in order |
| ReadingSessions.FlattenItems | webapp/src/App.js:43-47 | the flattened list is exactly the book's `p` items, in part, chapter and item order |
| ReadingSessions.SessionTitle | webapp/src/App.js:56 | a session title is never empty: it always holds the ` - ` between the part's and the chapter's titles |
| ReadingSessions.ConcatSnoc | webapp/src/App.js:53-63 | pushing a session appends its paragraphs |
| ReadingSessions.TotalSnoc | webapp/src/App.js:57-60 | the running count after one more paragraph adds that paragraph's words |
| ReadingSessions.UnderfullSnoc | webapp/src/App.js:54-60 | a session still at or under 250 words can take one more paragraph and stays well made |
| ReadingSessions.StepInvariant | webapp/src/App.js:53-62 | one step of the loop keeps the invariant: the pushed sessions and the current one are the paragraphs seen, in order, each well made, and each pushed session passed 250 words |
| ReadingSessions.GroupFromInvariant | webapp/src/App.js:53-62 | the whole loop keeps the invariant |
| ReadingSessions.SessionsGrouped | webapp/src/App.js:49-63 | the sessions are the paragraphs in order, none empty, each titled after its first paragraph, each closed only after passing 250 words, and no paragraph joined a session that had already passed it |
| ReadingSessions.GroupedEmpty | webapp/src/App.js:49-63 | there are sessions exactly when there are paragraphs |
| ReadingSessions.GroupedUnique | webapp/src/App.js:49-63 | any sessions with those properties are the app's sessions: the grouping is determined by the paragraphs |
| ReadingSessions.FirstNoShorter | webapp/src/App.js:53-62 | of two such groupings, the first session of one is no shorter than the other's, starts the paragraphs and is titled after the first one |
| ReadingSessions.PrefixesUnderfull | webapp/src/App.js:54 | no proper prefix of such a first session passed 250 words |
| ReadingSessions.LastReaches | webapp/src/App.js:54-63 | a single session holds every paragraph, and the first of several passed 250 words |
| ReadingSessions.GroupedTail | webapp/src/App.js:53-63 | the sessions after the first group the paragraphs after the first session's |
| ReadingSessions.NavigateInRange | webapp/src/App.js:70-76 | navigation keeps the index on a session, or at 0 when there are none |
| ReadingSessions.NavigateUndo | webapp/src/App.js:70-76 | `prev` undoes a `next` that moved, and `next` undoes a `prev` that moved |
| Text.LowerChar | scripts/json_processing/split_part_titles.py:127 | an upper-case letter becomes lower case, and every other character is kept |
| Text.UpperChar | scripts/json_processing/split_part_titles.py:137 | a lower-case letter becomes upper case, and every other character is kept |
| Text.Lower | scripts/json_processing/split_part_titles.py:127 | the text is lower-cased letter by letter, its length kept |
| Text.Upper | scripts/json_processing/split_part_titles.py:137 | the text is upper-cased letter by letter, its length kept |
| Text.ContainsAt | scripts/ocr_fixes/fix_ocr_conservative.py:90-91 | a pattern found at some position is in the text |
| Text.ContainsWitness | scripts/ocr_fixes/fix_ocr_conservative.py:90-91 | a pattern in the text is found at some position |
| Text.Take | scripts/json_processing/reorganize_final.py:191 | Python's clamped prefix: the first `n` elements, or all of them |
| Text.ReplaceLength | scripts/ocr_fixes/fix_ocr_conservative.py:91 | each occurrence replaced changes the length by the difference of the two sides |
| Text.ReplaceCountContains | scripts/ocr_fixes/fix_ocr_conservative.py:90-91 | `replace` rewrites something exactly when `in` finds the pattern |
| Text.ReplaceChanges | scripts/ocr_fixes/fix_ocr_conservative.py:90-91 | a replacement whose sides differ in length changes the text exactly when the pattern occurs |
| Text.ReplaceLengthChange | scripts/ocr_fixes/fix_ocr_conservative.py:91 | no occurrence leaves the text as it is; a longer replacement lengthens it and a shorter one shortens it |
| Text.ReplaceAbsent | scripts/ocr_fixes/fix_ocr_conservative.py:91 | with no occurrence the text comes back unchanged |
| Text.TokenEnd | add_word_count.py:24 | the run counted is the longest run of non-whitespace at the start |
| Text.Split | add_word_count.py:24-28 | every piece `split()` returns is a word: non-empty, without whitespace |
| Text.SplitConcat | add_word_count.py:24 | splitting works piecewise over a join that does not glue two words |
| Text.SplitToken | add_word_count.py:24 | a text starting with a word splits into that word and the split of the rest |
| Text.SplitOfSpaces | add_word_count.py:27-29 | a text of whitespace has no words |
| Text.SplitOfToken | add_word_count.py:24 | a single word splits into itself |
| Text.SplitJoinSpace | scripts/ocr_fixes/fix_ocr_manual.py:195-197 | two texts joined by a space have the words of the first followed by those of the second |
| Text.SplitOfJoin | add_word_count.py:24-28 | words joined by single spaces split back into the same words |
| Text.TrimStart | scripts/json_processing/reorganize_final.py:172 | what is cut off is whitespace, and the rest, if any, does not start with whitespace |
| Text.TrimEnd | add_word_count.py:24 | what is cut off is whitespace, and the rest, if any, does not end with whitespace |
| Text.Strip | add_word_count.py:24 | the result is no longer and has no whitespace at either end |
| Text.SplitStrip | add_word_count.py:24 | stripping keeps the words |
| Text.SplitEmptyIff | add_word_count.py:27-29 | a text has no words exactly when it is all whitespace |
| Text.StripEmpty | scripts/json_processing/reorganize_final.py:161-163 | a text strips to nothing exactly when it is all whitespace, which is exactly when it has no words |
| Text.TrimStartSet | scripts/json_processing/reorganize_final.py:175 | only the given characters are cut from the front, and the rest does not start with one |
| Text.CollapseSpaces | scripts/json_processing/reorganize_final.py:125 | every run of whitespace becomes one space: no whitespace other than a space, no two in a row, and the text is empty or starts with whitespace exactly when the input is or does |
| Text.SplitCollapse | scripts/json_processing/reorganize_final.py:125 | collapsing whitespace keeps the words |
| Text.CollapseBlanks | scripts/ocr_fixes/fix_ocr_conservative.py:108 | no two spaces remain next to each other, and a leading space stays exactly when there was one |
| Text.CollapseSpacesKeeps | scripts/json_processing/reorganize_final.py:125 | every non-whitespace character of the result comes from the input |
| Text.CollapseSpacesFixed | scripts/json_processing/reorganize_final.py:125 | a single-spaced text is its own collapse |
| Text.StripFixed | add_word_count.py:24 | a text with no whitespace at either end is its own strip |
| Text.StripKeeps | add_word_count.py:24 | every character of the strip is a character of the input |
| Text.CollapseUpToSpaces | scripts/ocr_fixes/fix_ocr_manual.py:13-25 | which whitespace characters a run is made of does not change the collapse |
| Text.MissingChar | scripts/ocr_fixes/fix_ocr_conservative.py:90 | a pattern holding a character the text lacks does not occur in it |
| Text.LowerAll | scripts/json_processing/split_part_titles.py:127 | each word is lower-cased, in place |
| Text.LowerIdempotent | scripts/json_processing/split_part_titles.py:127 | lower-casing twice is lower-casing once |
| Text.SplitLower | scripts/json_processing/split_part_titles.py:127 | the words of the lower-cased text are the lower-cased words |
| Text.LowerJoin | scripts/json_processing/split_part_titles.py:143 | lower-casing words joined by spaces is joining the lower-cased words |
| Text.StripSpacePrefix | add_word_count.py:24 | whitespace in front does not survive stripping |
| Text.StripSpaceSuffix | add_word_count.py:24 | whitespace behind does not survive stripping |
| Text.JoinConcat | add_word_count.py:24 | joining two non-empty lists is joining each and putting the separator between |
| TextStats.KeptNames | compare_epub_text.py:56-65 | a name is kept exactly when the archive lists it and it is a text file by the extension and exclusion tests |
| TextStats.TextFilesSpec | compare_epub_text.py:56-68 | the files read are the archive's text files, each as often as it is listed, in ascending order |
| TextStats.TextFilesOrderFree | compare_epub_text.py:56-68 | two archives listing the same text files in any order are read in the same order |
| TextStats.EndsWithLast | compare_epub_text.py:58-63 | a text ending with a pattern ends with the pattern's last character |
| TextStats.DeadExclusions | compare_epub_text.py:58-64 | the `_toc_ncx_.ncx` and `volume.opf` exclusions never decide anything: the test is the same without them |
| TextStats.CountWhere | compare_epub_text.py:109-110 | a count of characters never exceeds the length |
| TextStats.CountCharacters | compare_epub_text.py:99-106 | an empty or missing text gives all zeros |
| TextStats.CountWhereConcat | compare_epub_text.py:109-110 | counting works piecewise over a join |
| TextStats.CountWhereMono | compare_epub_text.py:109-110 | a weaker test counts at least as many characters |
| TextStats.RemoveLength | compare_epub_text.py:109 | deleting the spaces leaves exactly the characters that are not spaces, and spaces and non-spaces add up to the length |
| TextStats.WordsBound | compare_epub_text.py:111 | there are never more words than non-whitespace characters |
| TextStats.CountsFacts | compare_epub_text.py:95-119 | the total is the length and equals the count with spaces; the count without spaces is the total less the spaces; letters and words never exceed it |
| TextStats.FormatNumberSpec | compare_epub_text.py:121-125 | deleting the dots gives the plain decimal, and each dot is followed by exactly three digits and then a dot or the end |
| Translation.Wrap | scripts/translation/tradutor_docx_clean.py:54 | a marker is eight characters longer than its digits |
| Translation.WrapShape | scripts/translation/tradutor_docx_clean.py:54 | every marker is read back as a marker and is its own strip |
| Translation.WrapDigits | scripts/translation/tradutor_docx_clean.py:54 | a marker carries its digits between its opening and its closing |
| Translation.MarkerShape | scripts/translation/tradutor_docx_clean.py:54 | the marker of any counter is read back as a marker and is its own strip |
| Translation.MarkerInjective | scripts/translation/tradutor_docx_clean.py:54 | two counters get the same marker exactly when they are equal |
| Translation.Bodies | scripts/translation/tradutor_docx_clean.py:79 | each item becomes a field of its own, in order |
| Translation.ChapterFields | scripts/translation/tradutor_docx_clean.py:65-91 | a list of chapters gives one field for each title and each item |
| Translation.BookFields | scripts/translation/tradutor_docx_clean.py:48-91 | a book gives one field for each part title, chapter title and item |
| Translation.RefillItems | scripts/translation/tradutor_docx_clean.py:170-177 | refilling keeps the number of items |
| Translation.RefillChapters | scripts/translation/tradutor_docx_clean.py:161-177 | refilling keeps the number of chapters |
| Translation.RefillParts | scripts/translation/tradutor_docx_clean.py:152-177 | refilling keeps the number of parts |
| Translation.ChaptersSizeSame | scripts/translation/tradutor_docx_clean.py:161-177 | chapters with as many items each have as many fields |
| Translation.RefillChaptersFields | scripts/translation/tradutor_docx_clean.py:161-177 | refilling chapters with the fields of chapters of the same shape gives those chapters |
| Translation.RefillFields | scripts/translation/tradutor_docx_clean.py:152-177 | refilling a book with the fields of a book of the same frame gives that book |
| Translation.RefillChaptersShape | scripts/translation/tradutor_docx_clean.py:161-177 | refilled chapters keep their item counts |
| Translation.RefillShape | scripts/translation/tradutor_docx_clean.py:152-177 | refilling keeps the nesting, and keeps the subtitles exactly when asked to |
| Translation.MapFields | scripts/translation/tradutor_docx_clean.py:152-177 | a rewrite of the fields rewrites each field in place |
| Translation.MapFieldsCons | scripts/translation/tradutor_docx_clean.py:152-177 | rewriting a list is rewriting its head and then its tail |
| Translation.MapFieldsConcat | scripts/translation/tradutor_docx_clean.py:152-177 | rewriting works piecewise over a join |
| Translation.ChapterFieldsMap | scripts/translation/tradutor_docx_clean.py:161-177 | the fields of rewritten chapters are the rewritten fields |
| Translation.BookFieldsMap | scripts/translation/tradutor_docx_clean.py:152-177 | the fields of a rewritten book are the rewritten fields |
| Translation.Count | scripts/translation/tradutor_docx_clean.py:45-91 | a count of fields never exceeds the number of fields |
| Translation.CounterGap | scripts/translation/tradutor_docx_clean.py:44-91 | a reader that takes a number wherever the build gave one takes as many numbers as the build gave exactly when it takes none elsewhere |
| Translation.CounterSum | scripts/translation/tradutor_docx_clean.py:44-91 | the numbers a reader takes are those the build gave plus one per surplus field |
| Translation.SurplusNone | scripts/translation/tradutor_docx_clean.py:44-91 | there is no surplus field exactly when the reader takes numbers only where the build gave one |
| Translation.LookupOther | scripts/translation/tradutor_docx_clean.py:144-156 | storing a translation under one marker leaves every other counter's translation alone |
| Translation.Walk | scripts/translation/tradutor_docx_clean.py:150-177 | the walk keeps the number of fields |
| Translation.WalkAt | scripts/translation/tradutor_docx_clean.py:150-177 | each field is replaced by the translation under the counter it is reached with, which is one plus the number of earlier fields the reader took a number for |
| Translation.WalkStep | scripts/translation/tradutor_docx_clean.py:150-177 | the walk handles the first field and then walks the rest with the counter moved on if it took a number |
| Translation.CountPrefixStep | scripts/translation/tradutor_docx_clean.py:150-177 | the count over the first `k` fields is the first field's share plus the count over the next `k - 1` |
| Translation.FoundStep | scripts/translation/tradutor_docx_clean.py:135-146 | a field with a marker adds its translation, if kept, and moves the counter on; any other field adds nothing |
| Translation.FoundBelow | scripts/translation/tradutor_docx_clean.py:135-146 | the translations under smaller counters are left as they were |
| Translation.WalkFound | scripts/translation/tradutor_docx_clean.py:150-177 | a walk that takes a number exactly where the build gave one, with the translations that build yields, applies the rewrite to every field |
| Translation.CreateCleanDocx | scripts/translation/tradutor_docx_clean.py:14-110 | the count of texts is the number of fields given a marker |
| Translation.ReadAllConcat | scripts/translation/tradutor_docx_clean.py:136-145 | reading two runs of paragraphs is reading the first and then the second |
| Translation.NotMarkerLike | scripts/translation/tradutor_docx_clean.py:140 | a paragraph starting with a visible character other than `#` is not taken for a marker |
| Translation.IdleInert | scripts/translation/tradutor_docx_clean.py:136-145 | with no marker pending, a paragraph not taken for a marker changes nothing |
| Translation.TitleInert | scripts/translation/tradutor_docx_clean.py:36 | the document title is skipped by the reader |
| Translation.InfoInert | scripts/translation/tradutor_docx_clean.py:40 | the technical note is skipped by the reader |
| Translation.PreambleInert | scripts/translation/tradutor_docx_clean.py:36-41 | nothing before the first marker is recorded |
| Translation.ReadMarker | scripts/translation/tradutor_docx_clean.py:140-141 | a marker becomes the pending marker, and nothing is recorded |
| Translation.ReadBlank | scripts/translation/tradutor_docx_clean.py:142 | a blank paragraph changes nothing |
| Translation.ReadText | scripts/translation/tradutor_docx_clean.py:142-145 | a text after a marker is recorded under it, stripped, unless it is blank, looks like a marker or opens a comment |
| Translation.ReadThree | scripts/translation/tradutor_docx_clean.py:136-145 | reading three paragraphs is reading them one after the other |
| Translation.ReadUnit | scripts/translation/tradutor_docx_clean.py:59-62 | the marker, text and blank line of one field record exactly that text, when it can be restored |
| Translation.ReadBody | scripts/translation/tradutor_docx_clean.py:48-91 | reading back an untranslated document records exactly the texts the fields with markers hold, under their markers |
| Translation.ReadCleanDocx | scripts/translation/tradutor_docx_clean.py:14-146 | the translations read from the document as built are the fields' own texts, under the counters from 1 |
| Translation.RestoreNeedsMarker | scripts/translation/tradutor_docx_clean.py:53-91 | the restoration only touches fields that got a marker, and then as the reconstruction writes them |
| Translation.WalkRestores | scripts/translation/tradutor_docx_clean.py:150-177 | walking a body that takes a number exactly where the build gave one restores every field |
| Translation.RoundTrip | scripts/translation/tradutor_docx_clean.py:14-177 | read back untranslated, the document rebuilds the book with each restorable text stripped and its word count recounted, and nothing else changed |
| Translation.NoEmptyChapterFields | scripts/translation/tradutor_docx_clean.py:67 | chapters without empty titles give no empty title fields |
| Translation.NoEmptyBookFields | scripts/translation/tradutor_docx_clean.py:53 | a book without empty titles gives no empty title fields |
| Translation.RoundTripAsWritten | scripts/translation/tradutor_docx_clean.py:150-177 | the reconstruction as written restores every book without empty titles |
| Translation.RefillTitle | scripts/translation/tradutor_docx_clean.py:154-158 | the first part's title is taken from the first field |
| Translation.EmptyTitleFields | scripts/translation/tradutor_docx_clean.py:48-76 | a part with an empty title followed by a chapter titled `A` has exactly those two fields |
| Translation.RestorableA | scripts/translation/tradutor_docx_clean.py:142-145 | the text `A` is recorded as it is |
| Translation.RestorableLetter | scripts/translation/tradutor_docx_clean.py:142-145 | a single visible character is recorded as it is |
| Translation.EmptyTitleFound | scripts/translation/tradutor_docx_clean.py:53-76 | that book yields one translation, `A`, under counter 1 |
| Translation.EmptyTitleTranslations | scripts/translation/tradutor_docx_clean.py:14-146 | its untranslated document holds exactly that translation |
| Translation.EmptyTitleShifts | scripts/translation/tradutor_docx_clean.py:150-158 | as written, the empty part title takes counter 1 and so the chapter's text `A`, and the round trip fails; the corrected reconstruction keeps the empty title |
| TranslationGoogle.MarkerAtSame | scripts/translation/tradutor_docx_google.py:160 | whether the marker pattern matches depends on the first twelve characters only |
| TranslationGoogle.SpaceEnd | scripts/translation/tradutor_docx_google.py:160 | the run found is the longest run of whitespace from the position |
| TranslationGoogle.NewlineEnd | scripts/translation/tradutor_docx_google.py:160 | `\s*\n` matches exactly when the whitespace run holds a line break, and then ends just after the last one |
| TranslationGoogle.HashFrom | scripts/translation/tradutor_docx_google.py:160 | the lazy text stops at the first `#` or at the end |
| TranslationGoogle.MatchAt | scripts/translation/tradutor_docx_google.py:160 | a match starts with a marker, captures text without `#`, and ends at the next marker or at the end |
| TranslationGoogle.StrippedCapture | scripts/translation/tradutor_docx_google.py:165-167 | a capture without `#` that strips to something is stored stripped |
| TranslationGoogle.StoresStep | scripts/translation/tradutor_docx_google.py:163-167 | storing one marker's text keeps the extraction's promise |
| TranslationGoogle.ScanMissed | scripts/translation/tradutor_docx_google.py:161 | where the pattern does not match, the search moves on one character |
| TranslationGoogle.ScanMatched | scripts/translation/tradutor_docx_google.py:161-167 | where it matches, the stripped capture is stored if not empty and the search resumes after the match |
| TranslationGoogle.ScanStores | scripts/translation/tradutor_docx_google.py:161-167 | every key the extraction adds is a four-digit marker, and every value is stripped, non-empty and free of `#` |
| TranslationGoogle.Pow10Four | scripts/translation/tradutor_docx_google.py:160 | four digits reach 9999 and no further |
| TranslationGoogle.LongMarkersMissed | scripts/translation/tradutor_docx_google.py:160 | the marker of a counter of 10000 or more is never found, whatever the document |
| TranslationGoogle.MarkerAtHash | scripts/translation/tradutor_docx_google.py:160 | a marker starts with `###I` and has a digit at position 5 |
| TranslationGoogle.NotMarkerAt | scripts/translation/tradutor_docx_google.py:160 | a text shorter than twelve characters, or with any other start, is no marker |
| TranslationGoogle.HashFromIs | scripts/translation/tradutor_docx_google.py:160 | the lazy text ends exactly at the first `#` |
| TranslationGoogle.UnitNewline | scripts/translation/tradutor_docx_google.py:160 | after a marker, a line break and a text without `#`, the `\s*\n` ends within that text after whitespace only |
| TranslationGoogle.UnitMatch | scripts/translation/tradutor_docx_google.py:160 | the match at such a marker ends where the next marker begins, and its capture strips to the text |
| TranslationGoogle.UnitSlices | scripts/translation/tradutor_docx_google.py:160 | a marker, a text and a rest can be cut apart again |
| TranslationGoogle.UnitScan | scripts/translation/tradutor_docx_google.py:161-167 | a marker with its text stores that text, stripped, and the search resumes at the next marker |
| TranslationGoogle.ScanSkip | scripts/translation/tradutor_docx_google.py:161 | positions where no marker starts are passed over |
| TranslationGoogle.NoHashSkip | scripts/translation/tradutor_docx_google.py:161 | text without `#` yields nothing |
| TranslationGoogle.TemplateSkip | scripts/translation/tradutor_docx_google.py:39 | the placeholder `###IDXXXX###` in the note is not a marker |
| TranslationGoogle.NoHashHeading | scripts/translation/tradutor_docx_google.py:35 | the document title holds no `#` |
| TranslationGoogle.NoHashNotes | scripts/translation/tradutor_docx_google.py:38-39 | the notes hold no `#` outside the placeholder |
| TranslationGoogle.NoHashTail | scripts/translation/tradutor_docx_google.py:39 | the note's text after the placeholder holds no `#` and starts with a space |
| TranslationGoogle.Join3 | scripts/translation/tradutor_docx_google.py:153 | three paragraphs are joined by line breaks |
| TranslationGoogle.Join4 | scripts/translation/tradutor_docx_google.py:153 | four paragraphs are joined by line breaks |
| TranslationGoogle.PreambleSkip | scripts/translation/tradutor_docx_google.py:35-42 | the title, the notes and the page break yield nothing, whatever follows |
| TranslationGoogle.MarkerMatches | scripts/translation/tradutor_docx_google.py:160 | the marker of a counter below 10000 is matched by the pattern |
| TranslationGoogle.BodyHead | scripts/translation/tradutor_docx_google.py:53-107 | a body that is not empty starts with the marker of its first field |
| TranslationGoogle.UnitText | scripts/translation/tradutor_docx_google.py:63-65 | the text between a field's marker and the next is a line break, its text and whitespace |
| TranslationGoogle.LayoutLast | scripts/translation/tradutor_docx_google.py:63-65 | the last field's paragraphs are its marker, its text and a blank |
| TranslationGoogle.LayoutMore | scripts/translation/tradutor_docx_google.py:63-65 | a field's paragraphs followed by more are its marker, its text, two line breaks and the rest |
| TranslationGoogle.ContentHead | scripts/translation/tradutor_docx_google.py:153 | the joined text starts with the first paragraph's first twelve characters |
| TranslationGoogle.ScanUnitLayout | scripts/translation/tradutor_docx_google.py:161-167 | one field's paragraphs followed by a marker or nothing store that field's text |
| TranslationGoogle.ScanBodyHead | scripts/translation/tradutor_docx_google.py:161-167 | the first field of a body is stored under its marker |
| TranslationGoogle.ScanBody | scripts/translation/tradutor_docx_google.py:161-167 | scanning an untranslated body without headings finds every text given a marker, stripped, under its marker |
| TranslationGoogle.ContentAfter | scripts/translation/tradutor_docx_google.py:153 | the joined text of two runs of paragraphs is the first, a line break and the second |
| TranslationGoogle.PreambleThenBody | scripts/translation/tradutor_docx_google.py:153-167 | the preamble adds nothing to what a body yields |
| TranslationGoogle.ExtractCorrected | scripts/translation/tradutor_docx_google.py:153-167 | the document without headings yields the texts of the fields with markers, under their counters, when no text holds `#` and there are fewer than 10000 of them |
| TranslationGoogle.DropSubtitles | scripts/translation/tradutor_docx_google.py:189-192 | each part keeps its title and chapters and loses its subtitle |
| TranslationGoogle.RefillDropsSubtitles | scripts/translation/tradutor_docx_google.py:189-192 | refilling without subtitles is refilling and then dropping them |
| TranslationGoogle.EmittedConsumed | scripts/translation/tradutor_docx_google.py:53-212 | every field the build numbers is numbered by the reconstruction, which also numbers empty titles and blank text items |
| TranslationGoogle.GoogleField | scripts/translation/tradutor_docx_google.py:185-222 | where the build and the reconstruction number the same fields, the reconstruction puts back what the restoration expects |
| TranslationGoogle.GoogleRoundTrip | scripts/translation/tradutor_docx_google.py:129-234 | read back untranslated, the document without headings rebuilds the book with every text stripped, its items recounted and the subtitles dropped, for a book with no empty titles or blank text items, no `#` and fewer than 10000 texts |
| TranslationGoogle.GoogleCounters | scripts/translation/tradutor_docx_google.py:177-212 | the reconstruction's counter runs ahead of the build's, and they agree exactly when there is no empty title or blank text item |
| TranslationGoogle.GoogleShape | scripts/translation/tradutor_docx_google.py:180-230 | the reconstruction keeps the parts, chapters and items, and drops every subtitle |
| TranslationGoogle.PutGoogleField | scripts/translation/tradutor_docx_google.py:185-224 | a field takes its translation or keeps its own text; titles are always present and a text item gets its type, the text and its word count |
| TranslationGoogle.GoogleFieldAt | scripts/translation/tradutor_docx_google.py:177-224 | each field is filled from the translation under the counter it is reached with |
| TranslationGoogle.Missing | scripts/translation/tradutor_docx_google.py:186-216 | the markers reported missing are ones without a translation, at most one per numbered field |
| TranslationGoogle.HasTextEmitted | scripts/translation/tradutor_docx_google.py:186-216 | of the fields the reconstruction numbers, the ones checked for a missing translation are exactly those the build numbered |
| TranslationGoogle.AllExtractableStep | scripts/translation/tradutor_docx_google.py:165-167 | every text given a marker strips to something exactly when the first does and all the rest do |
| TranslationGoogle.AlignedTail | scripts/translation/tradutor_docx_google.py:180-212 | a book with no empty title or blank text item stays so after its first field |
| TranslationGoogle.NothingMissing | scripts/translation/tradutor_docx_google.py:178-216 | read back untranslated, nothing is reported missing exactly when every text given a marker strips to something |
| TranslationGoogle.LeakFields | scripts/translation/tradutor_docx_google.py:48-81 | a part titled `T` with one chapter titled `C` has exactly those two fields |
| TranslationGoogle.LeakBody | scripts/translation/tradutor_docx_google.py:59-81 | its body is a heading, a marker, `T` and a blank, then a heading, a marker, `C` and a blank |
| TranslationGoogle.LeakLayout | scripts/translation/tradutor_docx_google.py:153 | the joined text of those eight paragraphs |
| TranslationGoogle.LeakedShape | scripts/translation/tradutor_docx_google.py:165 | the text the part title is read back as is stripped, free of `#` and kept |
| TranslationGoogle.NewlineFacts | scripts/translation/tradutor_docx_google.py:160 | a line break is whitespace without `#` |
| TranslationGoogle.ChapterTextFacts | scripts/translation/tradutor_docx_google.py:165 | `C` is free of `#` and its own strip |
| TranslationGoogle.LeakFirstUnit | scripts/translation/tradutor_docx_google.py:160-167 | the part title's text runs on into the chapter heading |
| TranslationGoogle.LastUnit | scripts/translation/tradutor_docx_google.py:160-167 | the last field's stripped text is stored under its marker |
| TranslationGoogle.LeakUnits | scripts/translation/tradutor_docx_google.py:160-167 | the two units store the leaked part title and `C` |
| TranslationGoogle.LeakContent | scripts/translation/tradutor_docx_google.py:153 | the joined text of the body |
| TranslationGoogle.LeakTranslations | scripts/translation/tradutor_docx_google.py:59-167 | as written, the untranslated document yields the part title with the chapter heading attached |
| TranslationGoogle.LeakBodyScan | scripts/translation/tradutor_docx_google.py:160-167 | the body alone yields the two translations |
| TranslationGoogle.GoogleFirstTitle | scripts/translation/tradutor_docx_google.py:182-185 | the first part's title comes from marker 1 when there is a translation, and is its own title otherwise |
| TranslationGoogle.LeakAsWritten | scripts/translation/tradutor_docx_google.py:59-185 | as written, the part comes back titled with its title, a blank line and `Chapter 1` |
| TranslationGoogle.LeakReady | scripts/translation/tradutor_docx_google.py:180-212 | that book has no empty title, no `#` and fewer than 10000 texts |
| TranslationGoogle.LeakRestoredTitle | scripts/translation/tradutor_docx_google.py:185 | restored, its part is titled `T` |
| TranslationGoogle.LeakCorrected | scripts/translation/tradutor_docx_google.py:153-185 | built without headings, the part comes back titled `T` |
| TranslationGoogle.HeadingLeaks | scripts/translation/tradutor_docx_google.py:59-160 | as written, the round trip of that book gives the part a title that is not `T`, while the document without headings restores it |
| Reorganize.Collect | scripts/json_processing/reorganize_final.py:79-98 | at most one record per chapter, each from a chapter that is not `Content` and has items, hashed on its first two items |
| Reorganize.CollectAllChapters | scripts/json_processing/reorganize_final.py:75-100 | the records of the whole book obey the same bounds, over every chapter of every part |
| Reorganize.CollectConcat | scripts/json_processing/reorganize_final.py:79-98 | collection keeps document order: collecting two runs of chapters is collecting each and concatenating |
| Reorganize.CollectMembers | scripts/json_processing/reorganize_final.py:81-98 | a chapter is collected exactly when it is not `Content` and not empty, in both directions |
| Reorganize.CollectComplete | scripts/json_processing/reorganize_final.py:79-98 | every chapter that is not `Content` and has items gives a record |
| Reorganize.DeduplicateByContent | scripts/json_processing/reorganize_final.py:102-112 | the kept records have distinct hashes, cover every hash of the input, and keep the input's order |
| Reorganize.DeduplicateKeepsFirst | scripts/json_processing/reorganize_final.py:107-110 | a record whose hash did not occur earlier is kept |
| Reorganize.DeduplicateIdempotent | scripts/json_processing/reorganize_final.py:102-112 | deduplicating twice is deduplicating once |
| Reorganize.LongCount | scripts/json_processing/reorganize_final.py:237-239 | the long words are at most all the words |
| Reorganize.Hits | scripts/json_processing/reorganize_final.py:237-239 | the hit count never exceeds the number of long title words |
| Reorganize.ScoreNormalized | scripts/json_processing/reorganize_final.py:224-243 | on normalised text, a score is at most four hits plus the bonus |
| Reorganize.ScoreRaw | reorganize_final.py:113-132 | on raw lowercased text, a score is at most three hits plus the bonus |
| Reorganize.SplitContained | scripts/json_processing/reorganize_final.py:237-238 | every word of a split text occurs in that text |
| Reorganize.HitsAll | scripts/json_processing/reorganize_final.py:237-239 | when every title word occurs in the text, every long word is a hit |
| Reorganize.TitleAtStart | scripts/json_processing/reorganize_final.py:237-243 | a text that starts with the title gets the bonus and a hit for every long title word |
| Reorganize.ScoreRawTitleAtStart | reorganize_final.py:118-132 | with raw scoring, a chapter whose first paragraph starts with the lowercased title scores two plus its long words among the first three |
| Reorganize.ScoreNormalizedTitleAtStart | scripts/json_processing/reorganize_final.py:226-243 | with normalised scoring, the same on normalised text and the first four words |
| Reorganize.EmptyTitleScores | scripts/json_processing/reorganize_final.py:242-243 | a row with an empty title scores the bonus against every chapter |
| Reorganize.ArgMax | scripts/json_processing/reorganize_final.py:217-247 | nothing is chosen exactly when every score is 0; otherwise the choice has the greatest positive score and is the earliest such |
| Reorganize.Scores | scripts/json_processing/reorganize_final.py:221-243 | one score per chapter in the pool, 0 for a chapter without items |
| Reorganize.Without | scripts/json_processing/reorganize_final.py:252 | the filter keeps exactly the other elements, in order, and drops at least one when the element was present |
| Reorganize.WithoutDistinct | scripts/json_processing/reorganize_final.py:252 | in a list without repetition, only the one element goes |
| Reorganize.WithoutAbsent | scripts/json_processing/reorganize_final.py:252 | filtering out an absent element changes nothing |
| Reorganize.Match | scripts/json_processing/reorganize_final.py:210-262 | at most one chapter per row, each drawn from the pool |
| Reorganize.MatchFirst | scripts/json_processing/reorganize_final.py:216-261 | the first row takes the chapter with the highest positive score, the earliest on a tie, and it leaves the pool; when nothing scores it takes the first chapter |
| Reorganize.MatchEmptyPool | scripts/json_processing/reorganize_final.py:260-261 | with an empty pool no row gets a chapter |
| Reorganize.MatchDistinct | scripts/json_processing/reorganize_final.py:210-262 | on a pool without repetition no chapter is used twice, and there are as many matches as rows or chapters, whichever is fewer |
| Reorganize.MatchPickDistinct | scripts/json_processing/reorganize_final.py:249-253 | the same, when the first row picks by score |
| Reorganize.MatchFirstDistinct | scripts/json_processing/reorganize_final.py:254-258 | the same, when nothing scores and the first row takes the first chapter |
| Reorganize.CreateOrganizedStructure | scripts/json_processing/reorganize_final.py:264-334 | the organised book starts with the special sections |
| Reorganize.OrganizedLength | scripts/json_processing/reorganize_final.py:312-324 | with distinct records, as many chapters are placed as there are rows or records, whichever is fewer |
| Reorganize.OrganizedChapters | scripts/json_processing/reorganize_final.py:264-334 | the organised book holds the special sections' chapters and every placed chapter, each exactly once |
| WordCounts.CountWords | add_word_count.py:10-29 | the count is the number of whitespace-separated words, and 0 exactly for a blank text |
| WordCounts.RecountItem | scripts/json_processing/reorganize_final.py:18-21 | an item with text gets the word count of that text, keeping kind and text; an item without text is left alone |
| WordCounts.RecountedItems | scripts/json_processing/reorganize_final.py:18-21 | item by item, the recounted list keeps kinds and texts and counts every text's words |
| WordCounts.RecomputeWordCounts | scripts/json_processing/reorganize_final.py:13-24 | the book keeps its shape, titles, kinds and texts, every text item's count matches its text, other items are untouched, and the number reported is the number of text items |
| WordCounts.RecomputeIdempotent | scripts/ocr_fixes/fix_ocr_manual.py:406-415 | recounting a recounted book changes nothing |
| WordCounts.CountItem | add_word_count.py:63-70 | the item update with the normalising count is the same as the plain recount |
| WordCounts.AddWordCounts | add_word_count.py:31-80 | the pass gives the same book and item count as the recomputation, and the total is the sum of the words assigned |

## Left out

- File, zip and JSON input and output, backups, temporary directories, `os.walk`/`listdir` and `shutil` copies are not modelled. Loaded data (the book, the CSV table of contents, a directory listing) is a parameter, and what a script saves is its return value.
- Console output, progress messages and printed statistics are not modelled. Counters that are only printed are modelled only where a script's logic depends on them.
- Book.Chapter.Title: a missing `chapter_title` is read as `""`, as `chapter.get('chapter_title', '')` does. Scripts that index `chapter['chapter_title']` directly would raise `KeyError` on such a chapter, and one holding JSON `null` would raise later. The model gives these chapters the empty title.
- Book.Part.Title: the same for `part_title`: a missing key is read as `""` where a script indexing the key directly would raise.
- Book.Item: only dict items are modelled, and a JSON `null` is the same as an absent key (both `None`). The `isinstance(item, dict)` guards of the scripts therefore always hold, and a `content` or `word_count` of `null` behaves as if the key were missing.
- Reorganize.Collect: `requires Titled` excludes chapters without `chapter_title`; `collect_all_chapters` raises `KeyError` on them, and `main` has no `try`.
- Reorganize.CollectAllChapters: the same `requires Titled` over every chapter of the book.
- Reorganize.CreateOrganizedStructure: `requires RowsKnown` excludes a table row whose part is not one of `I` to `V`, on which `parts[csv_ch['part']]` raises `KeyError`. The model says nothing about such tables. The other reconciliation scripts, whose `main` catches the error, are modelled with `Run` returning `None` instead.
- Reorganize.OrganizedLength: the same `requires RowsKnown`.
- Reorganize.OrganizedChapters: the same `requires RowsKnown`.
- Reorganize.ToRecord: md5 is the function parameter `digest`. Its hex rendering and collisions are abstracted, so every deduplication property holds relative to whatever `digest` returns.
- FixIntelligent.CollectChapters: `create_chapter_hash`'s md5 (first ten hex characters) is likewise the parameter `digest`.
- Text.IsWordChar: the `\w` class is modelled as ASCII letters, digits, `_` and the Latin-1 letters U+00C0 to U+00FF. It leaves out `ª`, `µ`, `º`, `²`, `³`, `¹`, `¼` to `¾` and every letter or digit above U+00FF, which Python's Unicode `\w` includes. The same class feeds `AddedContent.Sanitize`, `AddedContent.Normalize` and the label normalisers of `Labels`.
- Text.IsDigit: `\d` is modelled as the ASCII digits `0` to `9`. Python's `\d` also matches every other Unicode decimal digit (Arabic-Indic, Devanagari, fullwidth and so on). It is used by the chapter heading test `^Chapter\s+\d+` (epub_to_json_processor.py:175, `EpubReader.IsChapterTitle`) and by the marker pattern `###ID(\d{4})###` (tradutor_docx_google.py:160, `TranslationGoogle.MarkerAt`). Where the digits are ones the model writes itself (`Decimal`), ASCII is exact.
- Text.IsLowerLetter: `str.islower()` on one character is modelled as ASCII `a` to `z` and the Latin-1 letters U+00E0 to U+00FF except `÷`. It leaves out `ß`, `ª`, `µ`, `º` and every lower-case letter above U+00FF, which Python accepts. It decides whether a paragraph continues the previous one at fix_ocr_manual.py:114 and 126 (`ParagraphMerge.LowerStart` and `ParagraphMerge.IsParagraphContinuation`).
- Text.Lower: `str.lower` is modelled on ASCII and Latin-1 letters (plus `Ÿ`); every other character is left unchanged, where Python also maps Greek, Cyrillic and other scripts.
- Text.Upper: `str.upper` is modelled one character to one character on ASCII and Latin-1. `'ß'.upper()`, which Python turns into `SS`, is left as `ß`, and letters above U+00FF are unchanged.
- ReadingSessions.Total: an absent `word_count` and a `null` one are both `None`, which absorbs every later addition. In App.js, `acc + null` and `null + n` add 0, so only an absent `word_count` (`undefined`, giving `NaN`) behaves as modelled.
- ReadingSessions.BookSessions: App.js throws when a part has no `chapters` or a chapter no `content`, and the surrounding promise swallows the error, leaving the sessions as they were. The model's book always has both lists, so this path is not modelled.
- ReadingSessions.Navigate: React state, rendering, `fetch`, the language switch and the keyboard listener are not modelled. Only the index update of `handleNavigate` is.
- TextStats.CountCharacters: the text is a parameter. Unzipping the EPUB and extracting the XHTML text with BeautifulSoup are not modelled, and neither are the floating-point percentage differences the script prints.
- AddedContent.FindSegments: the original and English texts are parameters. Extracting them from the two EPUBs with BeautifulSoup (with the file filter of `TextStats.IsTextFile`) is not modelled.
- EpubReader.ProcessEpub: unzipping, the directory walk and BeautifulSoup parsing are inputs. The walk is a list of paths, and each page is its heading text and a sequence of `(tag, text)` elements, or nothing when reading it raises.
- EpubPackage.CreateOpf: `datetime.now()` is the `date` parameter. The `has_prayer_in_json` and `has_preface_in_json` arguments, which neither builder reads, are dropped. The XML trees are records, and `minidom` pretty-printing, XML serialisation, `container.xml`, the `mimetype` entry and the zip are not modelled.
- EpubPages.CreateXhtml: the page is the list of its body elements. The XHTML boilerplate and the style sheet are not modelled, and neither is copying the license, title-page and cover files.
- Translation.CreateCleanDocx: the DOCX document is its list of paragraph texts. Fonts, styles, page breaks as layout, python-docx itself and the machine translation are not modelled, and the translated document is a parameter.
- TranslationGoogle.GoogleRoundTrip: the round trip is proved only for fewer than 10000 texts. The pattern `###ID(\d{4})###` at tradutor_docx_google.py:160 never reads a marker with five digits (`TranslationGoogle.LongMarkersMissed`), and a corrected pattern `\d+` is not modelled. The 10 MB size check and the file-size figures are not modelled either.
- main.py (interactive menu), process_epub.py, reconstruir_json_portugues.py, gerar_livro_en_com_word_count.py, the test, validation and comparison scripts that only read files and print, fix_ocr_professional.py (external spell checkers) and fix_ocr_issues.py (a cascade of global regular-expression rewrites) are not part of this model.

## Findings

| source | as written | input that shows it | evidently intended | confidence | as-written member | corrected member |
|---|---|---|---|---|---|---|
| scripts/json_processing/fix_ad_hoc.py:37-62 | every matching key rewrites `original.replace(wrong, correct)`, so each assignment restarts from the original text and only the last matching correction survives | the paragraph `theChurch JesusChrist`, which holds two keys, becomes `theChurch Jesus Christ` | each correction applied to the text the previous one left, giving `the Church Jesus Christ` | high, not executed | AdHoc.AdHocAsWrittenLosesFix | AdHoc.AdHocCorrectedKeepsBoth |
| fix_json_structure.py:123-124 | the table is keyed by the CSV `Part` column (`I` to `V`) but looked up under `Part I` to `Part V`, so no part is ever found | the one-row table `I, I, What Devotion Is` | each row's chapter placed in the part the row names | medium, not executed | FixStructure.AsWrittenNoParts | FixStructure.CorrectedPlacesRow |
| scripts/translation/tradutor_docx_clean.py:150-158 | the build gives a part title a marker only when it is non-empty (line 53), but the reconstruction advances the counter whenever the key is present (line 154) | a part titled `""` with one chapter titled `A`: the part takes the translation of `A` | the counters advance under the same condition on both sides | high, not executed | Translation.EmptyTitleShifts | Translation.RoundTrip |
| scripts/translation/tradutor_docx_google.py:59-160 | the `PART n` and `Chapter n` heading paragraphs (lines 59 and 76) carry no `#`, so the lazy capture of the marker before them (line 160) runs on into the heading | a part titled `T` with one chapter titled `C` comes back titled `T`, a blank line and `Chapter 1` | each marker's capture ends at its own text | high, not executed | TranslationGoogle.HeadingLeaks | TranslationGoogle.GoogleRoundTrip |
