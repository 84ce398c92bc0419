# Reader: a verified model of the vocabulary pipeline

Reader collects English words met while reading or watching a film. It looks
them up in the Cambridge dictionary, keeps the results as word-info records,
cuts subtitle audio and screenshots for example sentences, and turns everything
into Anki cards. A small Anki add-on repeats a card until it has been answered
Good twice (or Easy once) on the same day.

This project models the logic at the centre of that pipeline in Dafny:

- **Wrappers**: `Option` and `Result`. The result's error carries the Python
  exception class: `KeyError(name)` or `ValueError`.
- **Text**: the Python string primitives the code relies on. These are
  `str.strip`, `str.lower`, `str.split`/`str.join` (with and without
  `maxsplit`), substring search, `html.escape` with `quote=True`, the
  `" ".join(s.split())` whitespace collapse, and `int()` on decimal strings.
- **Patterns**: the regular-expression substitutions, each written out as the
  left-to-right scan that `re.sub` performs for that one pattern. There are
  four:
  - `{…}` override blocks;
  - `<…>` tags;
  - `[^\w\s]`;
  - the escaped, case-insensitive, optionally `\b`-bounded target word.
- **Records**: the word-info record (`word`, `wordUrl`, `partOfSpeech`,
  `sentences`). A part of speech is an entry-body part or an idiom part. The
  idiom part has no pronunciations and no phrases.
- **Info** (`code/info/info.py`): the prototype key and the merge of a new batch
  of records into the corpus.
- **Save** (`code/save/save.py`): keyed first-occurrence dedup, the new-versus-old
  difference, and the choice of the snapshot file whose date is nearest today.
- **Dictionary** (`code/dictionary/dict.py`): the page-result rules over an
  abstract document tree:
  - text extraction;
  - audio URL absolutising;
  - the scoping of definition and phrase blocks;
  - the "meaningful part" filter, including its `KeyError` on idiom blocks;
  - the two-URL lookup;
  - the English pronunciation overlay.
- **Subtitles** (`code/movie/extract_audio.py`):
  - word/sentence pairing;
  - ASS `Dialogue:` parsing;
  - SRT block classification;
  - SRT to ASS time conversion;
  - the first-match subtitle search;
  - dispatch by file suffix.
- **Importer** (`code/movie/import_to_anki.py`):
  - the insertion-ordered sentence-to-subtitle map and its lookup;
  - timestamp formatting;
  - the two example-HTML builders.
- **Cards** (`code/anki/anki.py`): alphanumeric and letter blanking, the card-field
  HTML serialiser, and the choice of empty fields to refill.
- **Update** (`code/anki/update.py`): `chunked`, the idempotent audio-markup prepend,
  and the insertion of a US sound after the first matched audio row.
- **Repeat** (`Anki/__init__.py`): the day → card → counts state as a class
  with a map field, updated by methods that mirror the add-on's functions.

The loops of the source are modelled as Dafny methods with loop invariants. Each
method is proved equal to a specification function, and the properties are
proved about those functions.

Behaviour of the code that the model keeps:

- Duplicate parts of speech are detected by plain structural equality.
- Merging a batch twice is not idempotent: `Info.MergeNotIdempotent`
  exhibits a record that is appended again, and
  `Info.SentenceUnionTextlessTwice` a sentence without text.
- `build_blanked_example` builds its pattern from the HTML-escaped target but
  applies it to the raw sentence, so a target with a quote or `&` never
  matches (`Importer.ApostropheTargetExample`).
- An idiom block with an empty headword and no definitions raises `KeyError`
  in the content filter (`Dictionary.EmptyIdiomFails`).

## Model

| member | source | states |
|---|---|---|
| Text.CollapseProperties | code/dictionary/dict.py:54-60 | the collapsed text has no leading, trailing or doubled whitespace, and collapsing it again changes nothing |
| Text.Split | code/movie/extract_audio.py:266 | `split(c)` yields at least one piece, and joining the pieces with `c` gives the input back |
| Text.SplitNJoinsBack | code/movie/extract_audio.py:70 | the pieces of `split(c, n)` joined with `c` give the input back |
| Text.SplitNPieces | code/movie/extract_audio.py:70 | only the last piece of `split(c, n)` may contain `c`, and only when all n splits were made |
| Text.HtmlEscapeMarkupFree | code/movie/import_to_anki.py:243-250 | escaped text contains no raw `<`, `>`, `"` or `'` |
| Text.HtmlEscapeConcat | code/movie/import_to_anki.py:243-250 | escaping distributes over concatenation |
| Text.PyIntOfDigits | code/movie/extract_audio.py:268 | `int()` of a non-empty digit string is its decimal value, leading zeros included |
| Text.StripEmpty | code/info/info.py:3-9 | `strip()` gives `""` exactly when the input is all whitespace |
| Patterns.RemoveBracesBraceFree | code/movie/extract_audio.py:87-88 | after removing `{…}` blocks no `{` is followed by a `}` |
| Patterns.RemoveBracesIdempotent | code/movie/extract_audio.py:87-88 | removing the blocks a second time changes nothing |
| Patterns.RemoveTagsTagFree | code/movie/extract_audio.py:235 | after removing `<…>` tags no tag is left |
| Patterns.RemoveTagsIdempotent | code/movie/extract_audio.py:235 | removing tags a second time changes nothing |
| Patterns.CleanProperties | code/movie/extract_audio.py:334 | the subtitle normal form holds only lower-case word and space characters, and normalising it again changes nothing |
| Patterns.SubFromFirst | code/movie/import_to_anki.py:290-294 | the substitution copies the text unchanged up to the first match |
| Patterns.SubFromUnmatched | code/movie/import_to_anki.py:290-294 | with no match from a position on, the rest of the text is copied |
| Info.NormalizeProto | code/info/info.py:3-9 | the key is trimmed and lower-case, and it is empty exactly when the input is all whitespace |
| Info.NormalizeProtoIdempotent | code/info/info.py:3-9 | normalising a key twice equals normalising it once |
| Info.GetPrototypeSpec | code/info/info.py:11-28 | uses the normalised first `wordPrototype` when it is non-empty, else the normalised text of the first sentence with text, else `None` |
| Info.MergeSentences | code/info/info.py:49-59 | the sentence loop computes the union by `text` |
| Info.SentenceUnionDistinct | code/info/info.py:50-59 | no appended sentence repeats the text of an earlier kept one |
| Info.SentenceFoldShape | code/info/info.py:50-59 | the old sentences are a prefix, appended sentences come from the batch, and every batch text ends up seen |
| Info.SentenceUnionIdempotent | code/info/info.py:50-59 | adding the same batch of sentences twice adds nothing the second time, provided every incoming sentence has text |
| Info.SentenceUnionTextlessTwice | code/info/info.py:51-59 | a sentence without text is appended again when the same batch is merged a second time, because only truthy texts are recorded as present |
| Info.PlacePartOfSpeechSpec | code/info/info.py:70-83 | a new part overwrites exactly the first slot with an empty prototype; with no empty slot the list is kept when an equal part is present and grows by the new part otherwise; resolved slots are kept and at most one slot changes |
| Info.MergePartsOfSpeech | code/info/info.py:70-83 | the loop over new parts computes the slot-filling union |
| Info.PartsOfSpeechUnionKeepsResolved | code/info/info.py:70-83 | the union keeps every resolved slot, grows by at most the batch size, and holds the last new part |
| Info.PartsOfSpeechFillSlots | code/info/info.py:70-83 | when every old slot is empty, the new parts fill the slots from the front, left to right |
| Info.MergeIntoSpec | code/info/info.py:47-83 | word and URL are kept; the old sentences stay in front, every appended sentence comes from the new record and repeats no earlier text, and every new text ends up present; resolved part-of-speech slots are kept, the list only grows and holds the last new part, and an empty old list is replaced wholesale |
| Info.LastIndexLast | code/info/info.py:39-42 | the prototype index points to the last base item with that prototype |
| Info.MergeWordLists | code/info/info.py:30-93 | the merge loop computes the fold of the batch into the corpus; the base is a value, so the deep copy is implicit |
| Info.MergeOne | code/info/info.py:44-91 | one new item merges into the indexed record, or is appended and indexed |
| Info.IndexPrototypes | code/info/info.py:39-42 | the index loop computes the last-occurrence index |
| Info.MergedCorpusLength | code/info/info.py:86-91 | the result length is the base length plus the number of new items that found no record |
| Info.UnkeyedAppended | code/info/info.py:44-46 | items without a prototype are all appended, in order |
| Info.MergeFoldIndex | code/info/info.py:88-91 | the final index covers exactly the prototypes of base and batch |
| Info.SameBatchMerged | code/info/info.py:88-91 | two new items with the same fresh prototype become one record, the second merged into the first |
| Info.ShadowedBaseUntouched | code/info/info.py:39-42 | a base item not pointed to by the index (an earlier duplicate) is never changed |
| Info.MergeFoldStable | code/info/info.py:39-42 | index entries that point into the base agree with the base index |
| Info.MergeNotIdempotent | code/info/info.py:44-46 | merging the same batch twice can append an item again |
| Save.MergeAndDeduplicate | code/save/save.py:94-106 | the loop computes the keyed first-occurrence dedup of `old + new` |
| Save.DedupIsFirstOccurrences | code/save/save.py:94-106 | the result is a subsequence in input order, and each kept item's key does not occur earlier in the input |
| Save.DedupKeys | code/save/save.py:94-106 | result keys are pairwise distinct and are exactly the input's keys |
| Save.DiffNewVsOld | code/save/save.py:108-115 | exactly the new items whose key is not an old key are kept |
| Save.DiffMultiplicity | code/save/save.py:113-115 | each kept item keeps its multiplicity, so new items are not deduplicated among themselves |
| Save.DiffConcat | code/save/save.py:113-115 | the difference preserves order (it distributes over concatenation) |
| Save.DiffCoversMerge | code/save/save.py:94-115 | the merged keys are the old keys plus the keys of the difference |
| Save.OrdinalNextDay | code/save/save.py:30 | the day number of a date advances by one from a day to the next, across month ends |
| Save.SnapshotDate | code/save/save.py:13-16 | only names of 15 characters ending in `.json` that hold a valid `YYYY-MM-DD` date have a date |
| Save.FirstClosest | code/save/save.py:26-34 | none exactly when no name has a date; otherwise the first name of minimal distance |
| Save.ChooseSnapshot | code/save/save.py:7-41 | no file without the folder or without a dated name; otherwise the first file nearest today (the same loop repeats at 55-89) |
| Dictionary.TextOrEmptyProperties | code/dictionary/dict.py:48-60 | a missing element gives `""`; any other text is collapsed, trimmed and a fixed point of the collapse |
| Dictionary.AbsAudioUrl | code/dictionary/dict.py:39-45 | missing or empty gives `""`, an http(s) URL is kept, and anything else gets the dictionary origin in front |
| Dictionary.AbsAudioUrlIdempotent | code/dictionary/dict.py:39-45 | absolutising a result again changes nothing |
| Dictionary.FirstUsable | code/dictionary/dict.py:173-178 | the chosen candidate is the first one that is not skipped and has text |
| Dictionary.FirstUsableUnique | code/dictionary/dict.py:173-178 | that position is characterised by its defining properties |
| Dictionary.ChooseTranslation | code/dictionary/dict.py:173-178 | the candidate loop returns the text of the first usable candidate, or `""` |
| Dictionary.DefinitionsScoped | code/dictionary/dict.py:164-167 | definitions are exactly those of the blocks outside any phrase block, one per block, in document order |
| Dictionary.CollectDefinitions | code/dictionary/dict.py:164-184 | the definition loop computes the scoped definitions |
| Dictionary.ParseEntryDefinition | code/dictionary/dict.py:168-184 | reads the English text and the first non-`hdb` Chinese candidate, falling back to any `.trans.dtrans` |
| Dictionary.ParsePhraseDefinition | code/dictionary/dict.py:194-206 | reads the English text and the first non-example Chinese candidate |
| Dictionary.ParseIdiomDefinition | code/dictionary/dict.py:89-115 | reads the first non-`hdb` Chinese candidate, falling back to the first candidate with text |
| Dictionary.TitlesOf | code/dictionary/dict.py:187-191 | at most one title per phrase block, never an empty one |
| Dictionary.CollectPhrases | code/dictionary/dict.py:186-207 | the phrase loop computes the titles and the definitions of all phrase blocks |
| Dictionary.MapDefinitions | code/dictionary/dict.py:193-206 | one phrase definition per definition block, in order |
| Dictionary.PhraseCounts | code/dictionary/dict.py:186-207 | titles are at most the blocks, and definitions are exactly one per definition block |
| Dictionary.PhrasesNotAligned | code/dictionary/dict.py:186-207 | an untitled block with one definition gives no phrase but one definition, so the two lists are not index-aligned |
| Dictionary.ParseEntryBody | code/dictionary/dict.py:123-209 | parsing an entry body computes the specified entry part |
| Dictionary.ParseIdiomBlock | code/dictionary/dict.py:62-118 | parsing an idiom block computes the specified idiom part |
| Dictionary.ParsedDefinitionsScoped | code/dictionary/dict.py:163-184 | an entry part's definitions are those of its blocks outside phrase blocks |
| Dictionary.Meaningful | code/dictionary/dict.py:281-288 | a part is kept when its prototype, definitions or phrases are non-empty; an idiom with neither prototype nor definitions raises `KeyError('phrases')` |
| Dictionary.KeepPartsSpec | code/dictionary/dict.py:276-290 | the kept parts extend the list, come from the blocks and have content; every block with content is kept; failure exactly on a `KeyError` block |
| Dictionary.CollectParts | code/dictionary/dict.py:276-290 | the filter loop computes the kept parts |
| Dictionary.KeepBothContent | code/dictionary/dict.py:276-290 | after both loops, each part has content and comes from an entry or idiom block, and none with content is lost |
| Dictionary.PagePartsContent | code/dictionary/dict.py:274-291 | the same over the `.entry-body__el` and `.di-body` blocks of a page |
| Dictionary.EmptyIdiomFails | code/dictionary/dict.py:285-289 | a page whose first idiom block is empty fails with `KeyError('phrases')` |
| Dictionary.GetWordInfoFromUrl | code/dictionary/dict.py:262-291 | a failed fetch gives the URL with one default part; otherwise the page's kept parts |
| Dictionary.FailedFetchHasNoContent | code/dictionary/dict.py:269-270 | the failed-fetch result holds no meaningful part, so the lookup moves on |
| Dictionary.LookupByWordResult | code/dictionary/dict.py:294-314 | the lookup fails, returns the placeholder, or returns a result with content from one of the two URLs |
| Dictionary.GetWordInfoByWord | code/dictionary/dict.py:294-314 | the loop tries the english-chinese URL, then the english URL, and returns the first result with content, else the placeholder |
| Dictionary.GetWordInfo | code/dictionary/dict.py:336-339 | an `http://` or `https://` argument is fetched as a URL and anything else is looked up as a word |
| Dictionary.FirstByPrototype | code/dictionary/dict.py:226-232 | every non-empty English prototype is indexed, and each maps to an English part with that prototype |
| Dictionary.FirstByPrototypeFirst | code/dictionary/dict.py:226-232 | a repeated prototype keeps the first English part |
| Dictionary.IndexByPrototype | code/dictionary/dict.py:226-232 | the index loop computes the first-occurrence index |
| Dictionary.OverlayPronunciation | code/dictionary/dict.py:250-257 | a phonetic or URL is overwritten only with a non-empty English value |
| Dictionary.OverlayPartProperties | code/dictionary/dict.py:244-257 | the overlay touches nothing but the pronunciations, and overlaying again changes nothing |
| Dictionary.MergePronunciationsFromEnglish | code/dictionary/dict.py:211-259 | unchanged when either part list is empty; otherwise each Chinese part is overlaid by its prototype match or its same-index English part; a failure is the `KeyError` of the first part whose overlay fails, every earlier part having been overlaid |
| Subtitles.ParseWordsFile | code/movie/extract_audio.py:18-50 | the `while` loop computes the word/sentence pairs of the stripped lines |
| Subtitles.PairLines | code/movie/import_to_anki.py:29-55 | the second copy of the pairing loop computes the same pairs |
| Subtitles.WordPairsInFileOrder | code/movie/extract_audio.py:32-48 | every pair is two adjacent non-empty stripped lines, and pairs appear in file order without overlapping |
| Subtitles.WordPairsNoBlank | code/movie/extract_audio.py:32-48 | without blank lines, the lines pair up two by two and an odd last line is dropped |
| Subtitles.AssDialogueOfFields | code/movie/extract_audio.py:68-91 | a `Dialogue:` line splits at its first nine commas; start and end are fields 1 and 2 stripped; the text keeps its commas |
| Subtitles.AssDialogueRejects | code/movie/extract_audio.py:68-74 | a line without the `Dialogue:` prefix or without commas gives no dialogue |
| Subtitles.SplitDialogueTextParts | code/movie/extract_audio.py:79-88 | the text splits at the first `\N` into Chinese and English with the blocks removed; without `\N` everything is English |
| Subtitles.SplitDialogueTextAtFirstBreak | code/movie/extract_audio.py:79-81 | with `\N` in the text, `split('\\N', 1)` gives two parts around the first `\N`, the first holding none |
| Subtitles.SplitDialogueTextClean | code/movie/extract_audio.py:79-88 | both parts are trimmed and hold no override block |
| Subtitles.CollectedMembers | code/movie/extract_audio.py:60-93 | a dialogue is collected exactly when some line parses to it and it passes the keep test |
| Subtitles.ParseAssFileForTiming | code/movie/extract_audio.py:53-93 | the loop keeps the dialogues with non-empty English |
| Subtitles.ParseAssFile | code/movie/extract_audio.py:96-141 | the loop keeps the dialogues with some non-empty part |
| Subtitles.ParsedAssMembers | code/movie/extract_audio.py:90-91 | a dialogue is in the list exactly when some line parses to it and it is kept |
| Subtitles.ClassifySrtLines | code/movie/extract_audio.py:228-245 | the line loop computes the Chinese and English texts of the block |
| Subtitles.ClassifyLinesJoins | code/movie/extract_audio.py:228-245 | Chinese lines (with a U+4E00–U+9FFF character) and English lines are each joined in order with one space |
| Subtitles.CjkLinesNonEmpty | code/movie/extract_audio.py:236-237 | every line classed as Chinese holds a CJK character |
| Subtitles.KeptDialogueSpec | code/movie/extract_audio.py:247-248 | a block is kept exactly when one of its texts is non-empty, with its timings |
| Subtitles.ParseSrtFileForTiming | code/movie/extract_audio.py:195-250 | the block loop computes the parsed blocks, and a failing block fails the file |
| Subtitles.ParsedSrtFailureSticks | code/movie/extract_audio.py:195-250 | once a block fails, later blocks do not change the result |
| Subtitles.ConvertSrtToAssTime | code/movie/extract_audio.py:253-278 | input without exactly three `:` parts is returned unchanged; the only failure is `int()`'s `ValueError` |
| Subtitles.ConvertWellFormed | code/movie/extract_audio.py:264-277 | `,` becomes `.`, the hours lose their leading zeros, and the fraction is cut or zero-padded to two digits |
| Subtitles.ConvertExample | code/movie/extract_audio.py:253-278 | `00:01:04,410` becomes `0:01:04.41` |
| Subtitles.TwoDigitFraction | code/movie/extract_audio.py:274 | the fraction has exactly two digits: the first two, or the given ones padded with `0` |
| Subtitles.FirstMatchingSpec | code/movie/extract_audio.py:334-351 | none exactly when no dialogue matches; otherwise the first matching dialogue in list order |
| Subtitles.FindMatchingDialogue | code/movie/extract_audio.py:320-351 | the search loop returns the first dialogue whose cleaned English and the cleaned sentence contain each other and which holds the cleaned word |
| Subtitles.Suffix | code/movie/extract_audio.py:291 | the suffix is empty or a final `.` part shorter than the name, as `Path.suffix` gives |
| Subtitles.SubtitleFormat | code/movie/extract_audio.py:291-297 | the lower-cased suffix selects SRT or ASS, and anything else is a `ValueError` |
| Subtitles.ParseSubtitleFileForTiming | code/movie/extract_audio.py:281-297 | dispatches to the SRT or the timing ASS parser, and passes the `ValueError` on |
| Subtitles.ParseSubtitleFile | code/movie/extract_audio.py:300-317 | dispatches to the SRT or the full ASS parser, and passes the `ValueError` on |
| Importer.PutSpec | code/movie/import_to_anki.py:156 | storing a key keeps the map valid, appends a new key to the order and leaves the order alone for an old key |
| Importer.MapOfValid | code/movie/import_to_anki.py:83-158 | the built map is valid, and its keys are the keys of the entries |
| Importer.MapOfOrder | code/movie/import_to_anki.py:83-158 | the insertion order is the first-occurrence order of the keys |
| Importer.MapOfLastWins | code/movie/import_to_anki.py:153-156 | a later entry with the same cleaned key overwrites the earlier one |
| Importer.BuildMap | code/movie/import_to_anki.py:92-156 | the loop builds the insertion-ordered map of the entries |
| Importer.AssEntriesOfTimingDialogues | code/movie/import_to_anki.py:126-156 | the ASS map entries are exactly the dialogues with non-empty English, keyed by their cleaned English |
| Importer.ParseDialogueMap | code/movie/import_to_anki.py:83-158 | dispatch by suffix: SRT blocks or ASS lines; any other suffix gives an empty map |
| Importer.ChineseForSpec | code/movie/import_to_anki.py:161-174 | an exact key gives its Chinese; else the first key in insertion order that contains the sentence or is contained in it; else `""` |
| Importer.FindChineseForSentence | code/movie/import_to_anki.py:161-174 | the lookup and search loop compute that Chinese |
| Importer.EmptySentenceTakesFirstKey | code/movie/import_to_anki.py:169-172 | an empty cleaned sentence is contained in every key, so it takes the first key's Chinese |
| Importer.FormatTimestampFraction | code/movie/import_to_anki.py:222-234 | `H:MM:SS.f` becomes `H:MM:SS:ff` with the fraction cut or padded to two digits |
| Importer.FormatTimestampWhole | code/movie/import_to_anki.py:227 | a missing fraction becomes `00` |
| Importer.FormatTimestampOther | code/movie/import_to_anki.py:220-236 | input without three parts is unchanged, and non-empty input never gives `""` |
| Importer.FormatTimestampExample | code/movie/import_to_anki.py:214-236 | `0:03:16.55` becomes `0:03:16:55` |
| Importer.MetaTextSpec | code/movie/import_to_anki.py:248-250 | the meta text is the escaped book in 《》, followed by the formatted timestamp only when there is one |
| Importer.ChineseBlock | code/movie/import_to_anki.py:275 | the Chinese div is emitted exactly when the Chinese text is non-empty |
| Importer.ExampleWithImageContents | code/movie/import_to_anki.py:239-279 | the HTML contains the escaped sentence and the meta text |
| Importer.ExampleWithImageChinese | code/movie/import_to_anki.py:243-279 | with Chinese text the escaped Chinese appears; without it the layout has no Chinese div |
| Importer.BlankedExampleSpec | code/movie/import_to_anki.py:282-297 | the example is the escaped form of a sentence that differs from the input only by blanked letters and digits |
| Importer.EscapedTargetUnmatched | code/movie/import_to_anki.py:285-294 | when escaping puts a `&` into the target and the sentence has none, nothing is blanked |
| Importer.ApostropheTargetExample | code/movie/import_to_anki.py:282-297 | blanking `don't` in `I don't know` leaves the sentence as it is |
| Cards.ReplaceAlnumSpec | code/anki/anki.py:61-67 | length is kept, every alphanumeric character becomes `_`, the rest is kept, and replacing again changes nothing |
| Cards.BlankOutAllWords | code/anki/anki.py:87-101 | the word loop blanks every letter of the sentence |
| Cards.BlankLettersSpec | code/anki/anki.py:87-101 | letters become `_`, everything else is kept, and `""` stays `""` |
| Cards.BlankLettersExample | code/anki/anki.py:90-91 | `Hello world!` becomes `_____ _____!` |
| Cards.BlankJoin | code/anki/anki.py:95-101 | blanking the space-separated words one by one equals blanking the whole sentence |
| Cards.HighlightedFirstMatch | code/anki/anki.py:202-212 | the escaped sentence is copied up to the first whole-word match of the escaped, stripped target, that match is wrapped in `<strong>`, and highlighting goes on after it |
| Cards.HighlightedUnmatched | code/anki/anki.py:202-212 | without a whole-word match of the escaped, stripped target the sentence is only escaped |
| Cards.SubBlanksFirstMatch | code/anki/anki.py:214-222 | text before the first match is kept, the match is blanked, and the length is unchanged |
| Cards.SubBlanksOnly | code/anki/anki.py:214-222 | the substituted sentence differs from the input only by blanked characters |
| Cards.PhrasePairing | code/anki/anki.py:178-191 | phrase i is paired with definition i, or with an empty meaning when the definitions run out |
| Cards.PronunciationsAndDefinitions | code/anki/anki.py:118-137 | the first loop computes the pronunciation lines and the definition blocks |
| Cards.PosDefinitions | code/anki/anki.py:140-194 | the second loop computes one block per part of speech |
| Cards.Examples | code/anki/anki.py:196-230 | the sentence loop computes the example and blanked-example entries |
| Cards.PartsCounts | code/anki/anki.py:123-194 | one titled block per part; pronunciation lines only for parts with a phonetic, definition blocks only for parts with definitions |
| Cards.ExampleCounts | code/anki/anki.py:197-230 | sentences with blank notes are skipped, and the other sentences add one entry to both lists |
| Cards.BuildHtmlFromWordInfo | code/anki/anki.py:104-238 | the serialiser computes the five card fields |
| Cards.FieldValue | code/anki/anki.py:232-238 | a name outside the five field names has no value |
| Cards.FieldsToUpdate | code/anki/anki.py:378-381 | exactly those of Pronunciation, Definition and Blanked_Examples that exist on the note and are whitespace-only are refilled with the generated value |
| Update.Chunked | code/anki/update.py:29-38 | the blocks concatenate to the input; every block but the last is full; no block is empty; empty input gives no blocks |
| Update.AudioUpdate | code/anki/update.py:77-83 | no update exactly when the markup is present; otherwise the markup goes in front of the kept current value, alone when the value is empty |
| Update.AudioUpdateIdempotent | code/anki/update.py:77-83 | an updated field needs no second update |
| Update.AudioFieldUpdates | code/anki/update.py:76-83 | exactly the target fields lacking the markup are updated, each with its new value |
| Update.AudioFieldUpdatesStable | code/anki/update.py:76-87 | after the updates are written back, no target field needs another |
| Update.Backfill | code/anki/update.py:145-160 | a note is skipped exactly when its field is empty, no row is found, no sound is stored, or the sound is already there |
| Update.BackfillAfterFirstRow | code/anki/update.py:160 | the sound is inserted right after the first occurrence of the row, and the rest of the field is kept |
| Update.BackfillIdempotent | code/anki/update.py:157-160 | a backfilled field is skipped on a second pass, whatever row is found |
| Repeat.CardKeyInjective | Anki/__init__.py:57 | distinct card ids have distinct keys |
| Repeat.IncrementedSpec | Anki/__init__.py:52-65 | the entry exists afterwards; good grows on ease 3, easy on ease 4; the day set gains today; nothing else changes |
| Repeat.ClearedSpec | Anki/__init__.py:67-73 | only today's entry for the card is removed, days are kept, and it is a no-op when absent |
| Repeat.EasyClears | Anki/__init__.py:140-145 | after an Easy answer the card has no entry |
| Repeat.GoodCounts | Anki/__init__.py:134-139 | after a Good answer the entry stays exactly when good+1 < 2 and easy < 1, with good grown by one |
| Repeat.TwoGoodsClear | Anki/__init__.py:134-139 | two Good answers in one day on a fresh card remove its entry |
| Repeat.AgainKeepsCounts | Anki/__init__.py:149-170 | Again and Hard never change counts; they clear a card that met the threshold, and otherwise make its entry exist when requeueing fails |
| Repeat.AnsweredOthersKept | Anki/__init__.py:120-171 | answering one card leaves every other card and day unchanged |
| Repeat.AnsweredPending | Anki/__init__.py:120-171 | no stored entry ever meets the thresholds, after any answer |
| Repeat.GoodClearsSecond | Anki/__init__.py:134-139 | under that invariant, Good removes the entry exactly when one Good was already counted |
| Repeat.CleanedUpSpec | Anki/__init__.py:178-187 | only today's day can remain, and it is kept as it was |
| Repeat.ReviewState.constructor | Anki/__init__.py:35-40 | the state starts as the loaded map |
| Repeat.ReviewState.IncrementCounter | Anki/__init__.py:52-65 | the state becomes the incremented state, and the returned counts are the bumped stored ones |
| Repeat.ReviewState.ClearCardState | Anki/__init__.py:67-73 | the state becomes the cleared state |
| Repeat.ReviewState.GetCardState | Anki/__init__.py:75-79 | returns the stored counts, which are zero exactly when absent or zero, and changes nothing |
| Repeat.ReviewState.OnAnswer | Anki/__init__.py:120-171 | the state becomes the answered state |
| Repeat.ReviewState.CleanupOld | Anki/__init__.py:178-187 | the deletion loop leaves the cleaned-up state |

## Left out

- Network I/O (`fetch_html`, `invoke`, `store_media_file`, `check_if_example_exists`, `add_or_update_word_to_anki`, `add_word_to_anki`, `create_anki_model`, `ensure_model_and_deck`, the audio download in `_store_audio_from_url`): external calls. A fetched page is a parameter of type `Option<Node>`, and a stored sound is an `Option<string>`.
- HTML parsing with BeautifulSoup/lxml: pages are an abstract tree of text and elements. Selectors are tag, class and attribute tests, with one optional ancestor.
- ffmpeg, GPU detection, PIL drawing, LUFS values, font scaling and `time_to_seconds`: subprocess and floating-point work.
- File reading and writing, `detect_file_encoding`, `os.listdir`, JSON load and dump, file globbing: lines, blocks, file names and folder existence are parameters.
- The clock: today's date is a parameter. The add-on reads it again in each hook, and the model does not capture that.
- The SRT block regular expression (with its look-ahead) and `US_AUDIO_ROW_PATTERN`: the matched blocks and the matched row are parameters.
- `ensure_pronunciation_audio` and `_store_audio_from_url` are not part of this model. The markup they produce is a parameter.
- The word and word-info skip conditions of `update_notes_audio` and `backfill_sound_from_pos_definitions`: these depend on network results.
- The batch size 50 of the backfill pass: only `chunked` itself is modelled.
- `load_state` falling back to `{}` on a read error, and `save_state` silently ignoring write failures: JSON persistence.
- Requeueing through reviewer internals and `tooltip`: whether requeueing succeeded is the `requeued` parameter, and a missing `card.id` is not modelled.
- Character classes: case mapping covers ASCII only. `\w`, `isalpha` and `isalnum` cover ASCII letters and digits, `_` and CJK ideographs. Unicode `IGNORECASE` folding is not modelled.
- `default_part_of_speech.copy()` is shallow, so failed fetches share nested dicts. The model gives each failed fetch its own value, so this aliasing is not captured.
- Dictionary.MergePronunciationsFromEnglish: `_merge_pronunciations_from_english` is defined in code/dictionary/dict.py but no function there calls it; it is modelled on its own.
- Dictionary.MergePronunciationsFromEnglish: works on values and returns the edited result, so the in-place update of `ch_res` and its sharing with the caller are not captured.
- The `d.get("enMeaning") or d.get("en")` fallbacks in the card serialiser: records always carry the `enMeaning`/`chMeaning` names.
- The `re.error` handler around the highlighting pattern: the escaped literal pattern always compiles.
- Subtitles.PathName and Subtitles.Suffix: only `/` separates path components, as on POSIX; the Windows flavour of `Path`, which also splits at a backslash, is not modelled.
- Update.Chunked: does not state the block count as a formula in the size, only the block shapes.
- spaCy lemmatisation (`get_word_prototype_and_pos`), the interactive and orchestration scripts, the mock `get_word_info` in `code/anki/anki.py`, and the `code.interact` debug hook: not part of the pipeline's logic.
- The insertion-ordered map carries a representation invariant (keys distinct, order equal to the key set) that Python dicts keep by themselves.
