# ChordScribe text pipelines, modelled in Dafny

ChordScribe is a set of small Python and JavaScript scripts around a chord-based
text expander. This project models their decision logic as pure Dafny functions
and proves properties about them. The scripts covered are:

- **Gutenberg harvesters.** The German one is `Datasets/Gutenberg/main.py`; the
  English one, `Dataset/Language/downloadGutenberg.py`, differs only in the
  language code. The model covers:
  - mirror URL generation;
  - the archive verdict;
  - the mirror fallback and the bounded retry loop;
  - the processed/failed bookkeeping of `process_book`;
  - the boilerplate normaliser `process_text`;
  - the next-page rule and the page loop of `harvest_books`.
  - Modules: `Harvester`, `Normalizer`, `Query`, `Crawl`.
- **The text expander** of `Chording/Chorder.py`: key-to-character conversion, the
  word buffer and its expansion, and the profile store with the window's
  chord edits (module `Chorder`).
- **The chord generator** of `Chording/generateChord.py` (module `Chords`).
- **The corpus filters and counters**:
  - `englishTokenFilter.py` and `englishScoredFilter.py`, with the Roman-numeral
    pattern as a recogniser (modules `Filters`, `Roman`);
  - `wordFrequency.py` (module `WordCount`);
  - the regex tokenizer with its chunked writing in `tokenization.py`
    (module `Tokenize`).
  - Insertion-ordered dictionaries and Python's stable descending sort are
    shared (module `Dicts`).
- **The keystroke metric fold** `analyzeWord` of
  `Chording/Fitness/word-analysis.js` (module `Keystrokes`).
- **The book-file wrapper** `process_file` and the ordered join of
  `Datasets/Gutenberg/combine.py` and `Dataset/Language/processGutenberg.py`.
  The two are identical (module `Combine`).

Module `Text` holds the Python string primitives all of these use: `strip` with
Python's whitespace set, `find`, `rfind`, `split`, `join`, `lower` and `upper`.

The outside world becomes values and parameters:
- The file system is a set of maps: staged archives by book id, extracted member
  texts by name, written outputs by book id.
- The network is a function from the round number and the URL to a response.
- A catalog page is a list of anchors, and the catalog server is a function.
- A file read in `combine.py` is a function returning `None` on an error.
- The metrics of a layout are a map from characters to key metrics.
- The dictionary of `generateChord.py` is a set.
- Text files are sequences of lines.

Where the scripts' own design notes and the code disagree, the model follows the
code:
- `validate_zip_file` deletes an invalid archive itself when
  `delete_if_invalid` is set; it is not left to the caller. Its messages are the
  code's own.
- A non-200 status, not just a non-2xx one, skips a candidate.
- The failure message is "All download attempts failed for book <id>".
- A URL without `/` has no book id: `url.split('/')[-2]` raises. Mirror
  generation itself never fails.
- The header step drops nothing when no newline follows the start marker.
- Each licence marker in turn cuts at its own last occurrence and strips.
- A skipped book makes `download_book` return `False`, not a prior outcome.
- The processed and failed sets can overlap (see `ProcessedAndFailedOverlap`).

Two rules in the code evidently miss their authors' intent (see "## Findings"):
the next-page filter and the 5 MiB cut. For each, the model has a member for
the rule as written and a corrected member beside it, with a lemma relating the
two. The page loop (`Crawl.GetPageContent`, `Crawl.Harvest`) and the combining
script (`Combine.Results`, `Combine.CombineFolder`) are built on the rules as
written. The corrected members (`Query.NextUrl`, `Crawl.GetPageContentCorrected`,
`Combine.Body`, `Combine.ProcessFile`) state what the code evidently meant to do.

## Model

| member | source | states |
|---|---|---|
| Harvester.MirrorUrls | Datasets/Gutenberg/main.py:48-60 | six URLs, two per mirror in mirror order, the digit-path form before the `pg<id>.txt.utf8.zip` form |
| Harvester.MirrorUrlsFrom | Datasets/Gutenberg/main.py:54-58 | for any mirror list: twice as many URLs as mirrors, URL 2k the digit-path form and URL 2k+1 the pg form of mirror k |
| Harvester.MirrorUrlsAreZips | Datasets/Gutenberg/main.py:56-58 | every generated mirror URL ends in ".zip" |
| Harvester.IdPartsShape | Datasets/Gutenberg/main.py:52 | the digit path is empty for an id of at most one character; otherwise it has 2n-3 characters, the id's characters but the last at even positions and "/" between them |
| Harvester.JoinSinglesShape | Datasets/Gutenberg/main.py:52 | joining the one-character slices of a string with "/" interleaves its characters with slashes |
| Harvester.MirrorUrlsExample | Datasets/Gutenberg/main.py:55-58 | book 1234 gives `https://www.gutenberg.org/files/1/2/3/1234/1234.zip` first and `http://www.gutenberg.org/cache/epub/1234/pg1234.txt.utf8.zip` last, as the comments show |
| Harvester.IdPartsExample | Datasets/Gutenberg/main.py:52 | the digit path of "1234" is "1/2/3" |
| Harvester.BookIdOf | Datasets/Gutenberg/main.py:115 | the id is the second-to-last `/`-segment; there is none exactly when the URL has no "/", and an id never holds "/" |
| Harvester.TxtMembers | Datasets/Gutenberg/main.py:80 | the text members are exactly the members whose name ends in ".txt" |
| Harvester.FirstEmpty | Datasets/Gutenberg/main.py:89-95 | the first text member with recorded size 0; none exactly when every text member has a positive size |
| Harvester.CheckArchive | Datasets/Gutenberg/main.py:62-111 | valid iff the file is a zip, `testzip` finds no bad member, some member is a text file and none of those is empty; the message is absent iff valid; the messages of the not-a-zip, corrupt and no-text cases |
| Harvester.ValidateZipFile | Datasets/Gutenberg/main.py:62-111 | with `delete_if_invalid`, an invalid verdict removes the staged archive and a valid one never does; a missing file is invalid |
| Harvester.Candidates | Datasets/Gutenberg/main.py:116 | seven candidates: the given URL, then the six mirror URLs |
| Harvester.TryFrom | Datasets/Gutenberg/main.py:125-165 | the loop ends fetched or failed, and a failure carries "All download attempts failed for book <id>" |
| Harvester.TryFromFetched | Datasets/Gutenberg/main.py:125-162 | fetched iff some candidate answers 200 with at least 100 bytes and a valid archive; then it is the first such one, all earlier were skipped, and its archive is staged |
| Harvester.TryFromFailed | Datasets/Gutenberg/main.py:139-165 | a failed loop tried every candidate; the staged file is gone if any body was written, and untouched otherwise |
| Harvester.DownloadWithMirrors | Datasets/Gutenberg/main.py:113-165 | a URL without a book id raises before any request; otherwise between 1 and 7 candidates are tried and the call is fetched or failed |
| Harvester.DownloadWithMirrorsFetched | Datasets/Gutenberg/main.py:125-162 | `download_with_mirrors` succeeds iff some candidate is acceptable, and then at the first acceptable one, its archive staged |
| Harvester.DownloadWithMirrorsFailed | Datasets/Gutenberg/main.py:164-165 | a failed call tried all seven candidates and reports "All download attempts failed for book <id>" |
| Harvester.DownloadWithMirrorsStaging | Datasets/Gutenberg/main.py:143-155 | only the book's own staged file changes; after success it holds a valid archive |
| Harvester.MirrorFallback | Datasets/Gutenberg/main.py:130-132 | a 404 on the primary URL does not stop the first acceptable mirror from being used |
| Harvester.AcceptableFromExists | Datasets/Gutenberg/main.py:125-151 | the recursive "some candidate from here on is acceptable" agrees with the existential one |
| Harvester.Round | Datasets/Gutenberg/main.py:181 | one round changes only the staging directory, only at this book, and succeeds iff a candidate answers acceptably in that round |
| Harvester.Rounds | Datasets/Gutenberg/main.py:179-190 | 1 to 3 rounds, stopping at the first success; every earlier round failed; three rounds when none succeeded |
| Harvester.Retry | Datasets/Gutenberg/main.py:175-196 | success iff one of the 3 rounds succeeds; sleeps are one fewer than rounds; after 3 failed rounds the id joins the failed set; the processed set never changes |
| Harvester.DownloadBook | Datasets/Gutenberg/main.py:167-196 | a book already processed or failed is skipped with `False` and no request; otherwise at least one round runs; the failed set only grows; afterwards the book is recorded or staged |
| Harvester.AllTimeoutsFail | Datasets/Gutenberg/main.py:157-159 | when every request times out, no round succeeds |
| Harvester.ExtractAll | Datasets/Gutenberg/main.py:215 | `extractall` adds a file for every member name |
| Harvester.NamesFrom | Datasets/Gutenberg/main.py:218 | the names of the text members from a position on |
| Harvester.ProcessMembers | Datasets/Gutenberg/main.py:218-245 | the member loop deletes exactly the extracted text members |
| Harvester.ProcessMembersLastWrite | Datasets/Gutenberg/main.py:218-245 | the loop's output is the normalised text of the last member it writes, and unchanged when it writes none |
| Harvester.LastWriteOf | Dataset/Language/downloadGutenberg.py:162-187 | when some member is written, the output is the normalised text of the last one written |
| Harvester.UsableIsStripCheck | Datasets/Gutenberg/main.py:225-232 | a member is written iff its content and its normalised content are both non-blank |
| Harvester.ProcessBook | Datasets/Gutenberg/main.py:198-261 | the archive is always removed; an invalid archive sends the id to the failed set and changes nothing else |
| Harvester.ProcessArchive | Dataset/Language/downloadGutenberg.py:157-195 | after validation the archive is removed, and the output holds whatever the member loop wrote |
| Harvester.ProcessArchiveRecords | Dataset/Language/downloadGutenberg.py:150-201 | the id becomes processed iff some text member yields non-blank normalised text, and failed otherwise, with no output written; extracted text members are removed |
| Harvester.ProcessArchiveOutput | Dataset/Language/downloadGutenberg.py:177-179 | `<id>.txt` holds the normalised text of the last text member that was written |
| Harvester.ProcessedAndFailedOverlap | Datasets/Gutenberg/main.py:247-248 | a book that failed to download while an older valid archive of it was still staged ends up both processed and failed |
| Normalizer.FirstListedPos | Datasets/Gutenberg/main.py:277-281 | the first occurrence of the first marker, in list order, that occurs; none iff no marker occurs |
| Normalizer.DropHeader | Dataset/Language/downloadGutenberg.py:214-222 | the header step keeps a suffix of the text, and the whole text when no start marker occurs |
| Normalizer.DropHeaderAt | Dataset/Language/downloadGutenberg.py:214-222 | after the first listed start marker found at p, the text after the first newline at or after p remains, or the whole text if no newline follows |
| Normalizer.CutFooter | Dataset/Language/downloadGutenberg.py:224-231 | the footer step keeps a prefix that ends where the first listed end marker first occurs, and the whole text when none occurs |
| Normalizer.LicenseStep | Dataset/Language/downloadGutenberg.py:240-243 | a licence marker cuts the text at its last occurrence and strips; an absent marker changes nothing |
| Normalizer.StripLicense | Dataset/Language/downloadGutenberg.py:233-243 | the licence steps never lengthen the text and change nothing when no marker occurs |
| Normalizer.NewlineRun | Datasets/Gutenberg/main.py:310 | the length of the run of newlines a text starts with |
| Normalizer.NoTripleIsNotContains | Datasets/Gutenberg/main.py:310 | having no three consecutive newlines is not containing "\n\n\n" |
| Normalizer.CollapseShape | Datasets/Gutenberg/main.py:310 | `re.sub(r'\n{3,}', '\n\n', ...)` never lengthens, empties only the empty text, keeps a non-newline first character, and leaves no run of three newlines |
| Normalizer.CollapseFixesNoTriple | Datasets/Gutenberg/main.py:310 | a text without three consecutive newlines is left unchanged by the substitution |
| Normalizer.CollapseIdempotent | Datasets/Gutenberg/main.py:310 | collapsing twice is collapsing once |
| Normalizer.Tidy | Datasets/Gutenberg/main.py:310 | the last line's result has no "\n\n\n", no surrounding whitespace, and is no longer than its input |
| Normalizer.ProcessText | Datasets/Gutenberg/main.py:263-310 | `process_text` output has no run of three newlines, no leading or trailing whitespace, and is never longer than its input |
| Normalizer.ProcessTextWithoutMarkers | Datasets/Gutenberg/main.py:276-310 | with no marker in the text, the result is the stripped text with newline runs collapsed |
| Normalizer.ProcessTextCollapsed | Datasets/Gutenberg/main.py:310 | the result is a fixed point of the collapse |
| Query.UrlJoin | Datasets/Gutenberg/main.py:335 | `urljoin(base_url, href)` keeps absolute links, resolves "" and "?"/"#" references against the base and root-relative paths against the host |
| Query.Defragment | Datasets/Gutenberg/main.py:336 | the fragment is dropped; an address without "#" is kept |
| Query.PlusToSpace | Datasets/Gutenberg/main.py:337 | `parse_qs` decodes "+" as a space and keeps every other character |
| Query.FilterInQuery | Datasets/Gutenberg/main.py:339 | the appended text always contributes a `filetypes[]` field to the query it extends |
| Query.NextUrlAsWritten | Datasets/Gutenberg/main.py:338-339 | an address whose query has `filetypes[]` is kept; any other gets "&filetypes[]=txt&langs[]=<code>" appended |
| Query.NextUrl | Datasets/Gutenberg/main.py:338-339 | the corrected next-page rule: an address with the filter key is kept, and the result always carries the filter key in its query |
| Query.NextUrlAgrees | Datasets/Gutenberg/main.py:338-339 | on an address that already has a query the written rule and the corrected one agree |
| Query.NextUrlAsWrittenMissesFilter | Datasets/Gutenberg/main.py:338-339 | on an address without "?" the written rule appends to the path, so the result still has no filter key; the corrected rule starts a query |
| Query.NextUrlAsWrittenExample | Datasets/Gutenberg/main.py:338-339 | a "Next Page" link to the bare harvest address stays unfiltered under the written rule |
| Crawl.ZipLinks | Datasets/Gutenberg/main.py:328-329 | the links are exactly the hrefs that end in ".zip" |
| Crawl.ZipLinksConcat | Datasets/Gutenberg/main.py:328-329 | the link list of two anchor runs is the concatenation of theirs, so document order is kept |
| Crawl.NextAnchor | Datasets/Gutenberg/main.py:332 | `soup.find` returns the first anchor whose text is "Next Page"; none iff there is no such anchor |
| Crawl.NextLink | Datasets/Gutenberg/main.py:332-335 | a next address exists iff the first "Next Page" anchor has an href, and it is that href joined with the base |
| Crawl.GetPageContent | Datasets/Gutenberg/main.py:315-350 | a non-200 status, timeout or error gives no links and no next page; otherwise the .zip links, and a next address iff the page has a next link, which extends that link |
| Crawl.GetPageContentNext | Datasets/Gutenberg/main.py:332-340 | the next address is the next link itself when its query has `filetypes[]`, and otherwise the link with "&filetypes[]=txt&langs[]=<code>" appended |
| Crawl.GetPageContentFiltered | Datasets/Gutenberg/main.py:332-340 | for a next link without a fragment, the next address carries the filter key iff the link has a "?" |
| Crawl.GetPageContentCorrected | Datasets/Gutenberg/main.py:315-350 | the page reading under the corrected next-page rule: the same links and the same presence of a next address, which now always carries the filter key |
| Crawl.DownloadAll | Datasets/Gutenberg/main.py:368-369 | after a page's downloads every linked book is processed, failed or staged; the processed set is unchanged |
| Crawl.ProcessBookRecords | Datasets/Gutenberg/main.py:247-261 | after `process_book` the book is processed or failed, and neither set shrinks |
| Crawl.ProcessAll | Datasets/Gutenberg/main.py:371-374 | every staged archive is processed, leaving the staging directory empty and every staged book recorded |
| Crawl.HandleLinks | Datasets/Gutenberg/main.py:367-374 | after a page is handled, every book it links to is processed or failed and nothing is staged |
| Crawl.Harvest | Dataset/Language/downloadGutenberg.py:281-307 | the first request is the harvest address with parameters, each later one the previous page's next address; stops at the first page without links or after one without a next address; every linked book ends recorded |
| Crawl.FollowPages | Datasets/Gutenberg/main.py:359-383 | the page loop for any page reader: the same stopping rule, visit order and bookkeeping as `Crawl.Harvest` |
| Chorder.GetChar | Chording/Chorder.py:48-70 | a character key gives one character, unchanged under QWERTY or when not z, y or '; space gives " ", enter "\n", any other key "" |
| Chorder.GetCharAgreesWithQwertz | Chording/Chorder.py:40-46 | the layout manager's table maps only lower-case z and y, so upper-case Y and Z pass unchanged, unlike the controller's mapping |
| Chorder.ApplyQwertz | Chording/Chorder.py:227-247 | same length as the input, character by character |
| Chorder.QwertzCharTable | Chording/Chorder.py:237-246 | y and z swap keeping case, ' becomes #, everything else stays |
| Chorder.ApplyQwertzTwice | Chording/Chorder.py:227-247 | mapping twice restores any text without an apostrophe |
| Chorder.Start | Chording/Chorder.py:119-128 | the controller starts on "Default" with an empty buffer, its shortcuts those of "Default"; there is no controller when "Default" is missing |
| Chorder.StartWithDefaults | Chording/Chorder.py:83-126 | with the default profiles the start succeeds, and "btw" expands to "by the way" |
| Chorder.DefaultNamesListKeys | Chording/Chorder.py:83-117 | the five default profile names are distinct and are exactly the default profiles |
| Chorder.CheckAndExpand | Chording/Chorder.py:206-225 | an edit happens iff the word is non-empty and its lower-case form has a non-empty expansion; it deletes len(word)+1 characters and inserts the expansion, QWERTZ-mapped under QWERTZ, plus " " |
| Chorder.ExpansionReplacesWord | Chording/Chorder.py:221-222 | under QWERTY the edit turns "word " into "expansion " after any preceding text |
| Chorder.OnPress | Chording/Chorder.py:186-204 | space clears the buffer (when the current profile exists) and edits exactly when `check_and_expand` would; an alphanumeric character appends; every other key changes nothing and nothing but space edits |
| Chorder.FeedWord | Chording/Chorder.py:200-202 | a run of keys without space appends exactly its alphanumeric characters |
| Chorder.LowerNames | Chording/Chorder.py:257 | the profile names in lower case, one for one |
| Chorder.CreateProfile | Chording/Chorder.py:249-262 | a stripped name known ignoring case changes nothing; otherwise an empty profile under the stripped name is added and becomes current with its shortcuts |
| Chorder.CreateProfileKeeps | Chording/Chorder.py:249-262 | creating a profile keeps the names listing the profiles without repeats and the shortcuts those of the current profile |
| Chorder.LastMatch | Chording/Chorder.py:272-274 | the dict comprehension keeps the last profile name with a given lower-case form |
| Chorder.SetProfile | Chording/Chorder.py:280-290 | a present name becomes current with its shortcuts; an absent one changes nothing |
| Chorder.SwitchProfile | Chording/Chorder.py:264-278 | switching changes neither the profiles nor the buffer nor the layout |
| Chorder.SwitchProfileResolves | Chording/Chorder.py:264-278 | a stripped name known ignoring case resolves to a stored spelling with the same lower-case form; an unknown one falls back to "Default" |
| Chorder.SwitchProfileKeeps | Chording/Chorder.py:264-290 | while "Default" exists, switching keeps the shortcuts those of the current profile |
| Chorder.GetProfiles | Chording/Chorder.py:292-299 | the names listed are exactly the profiles |
| Chorder.GetProfilesCount | Chording/Chorder.py:292-299 | one listed name per profile |
| Chorder.Remove | Chording/Chorder.py:309 | deleting a key keeps every other name |
| Chorder.DeleteProfile | Chording/Chorder.py:301-313 | an unknown name changes nothing; otherwise the profile goes, "Default" becomes current, and the shortcut lookup fails iff "Default" is gone |
| Chorder.DeleteProfileKeeps | Chording/Chorder.py:301-313 | the lookup fails exactly when "Default" itself is deleted |
| Chorder.AddChord | Chording/Chorder.py:632-645 | a blank chord or expansion changes nothing; otherwise the store fails iff the current profile is missing; names and current profile stay |
| Chorder.AddChordSets | Chording/Chorder.py:634-640 | the stripped chord maps to the stripped expansion in the current profile, and every other chord there stays |
| Chorder.AddChordOthers | Chording/Chorder.py:639 | the other profiles are untouched |
| Chorder.DeleteChord | Chording/Chorder.py:618-630 | no selection changes nothing; otherwise the current profile loses exactly the selected chord, and when it held the chord the shortcuts are the updated profile |
| Chorder.DeleteChordOthers | Chording/Chorder.py:627-628 | the other profiles are untouched |
| Chorder.AddThenDeleteChord | Chording/Chorder.py:618-645 | adding a new chord and deleting it restores the controller |
| Chords.Dedup | Chording/generateChord.py:8-14 | the distinct letters of a word, no repeats, every letter of the word present |
| Chords.PrefixIsDistinctLetters | Chording/generateChord.py:8-18 | the shorthand is the first `max_length` distinct letters in first-occurrence order |
| Chords.FirstAbsent | Chording/generateChord.py:21-24 | the first letter of the word absent from the prefix; none iff every letter is in the prefix |
| Chords.Replace | Chording/generateChord.py:21-24 | the last letter is replaced by the first absent letter when there is one; the length and distinctness are kept |
| Chords.Rotate | Chording/generateChord.py:26-27 | a left rotation by one: the same letters, the first moved to the end |
| Chords.GenerateChord | Chording/generateChord.py:7-29 | a prefix that is not a dictionary word is returned as is; a dictionary prefix is replaced, and the replacement rotated when it is a dictionary word too; the chord has the prefix's length, distinct letters, all from the word |
| Chords.GenerateChordExample | Chording/generateChord.py:20-27 | "little" at length 2 with "li" and "lt" in the dictionary gives "tl" |
| Chords.FirstFree | Chording/generateChord.py:36-45 | the first length from 2 up whose chord is not yet used, with every shorter length's chord in use; past the word's length none |
| Chords.AddWord | Chording/generateChord.py:35-50 | the word gets an entry and no other word's chord changes |
| Chords.AddWordFresh | Chording/generateChord.py:40-50 | a chord found by the loop differs from every chord assigned before; the fallback is the whole word |
| Chords.CreateChords | Chording/generateChord.py:31-52 | every word of the list gets a chord, and no other key appears |
| Chords.CreateChordsSound | Chording/generateChord.py:31-52 | every assigned chord is in `used_chords` and made of letters of its word |
| Chords.CreateChordsExample | Chording/generateChord.py:31-52 | "apple" and "apply" with an empty dictionary get "ap" and "apl" |
| Filters.Clean | Chording/englishTokenFilter.py:11-38 | a kept token is "_" or has no edge underscore; a token other than "_" is kept under its underscore-stripped form |
| Filters.CleanDigits | Chording/englishTokenFilter.py:30-35 | an all-digit token survives iff its length is not 7, not 10 and below 50 |
| Filters.CleanCodes | Chording/englishTokenFilter.py:26-27 | a token of capitals and digits with at least one of each is dropped |
| Filters.CleanWords | Chording/englishTokenFilter.py:11-38 | a token with a lower-case letter and no edge underscore is kept as is |
| Filters.CleanStrips | Chording/englishTokenFilter.py:18-19 | "_t_" for such a word t is kept as t |
| Filters.CleanDropsExample | Chording/englishTokenFilter.py:21-23 | "Zamudio_" and "_hi" are dropped |
| Filters.FilterTokens | Chording/englishTokenFilter.py:8-40 | the filtered table has no repeated key |
| Filters.FilterTokensGet | Chording/englishTokenFilter.py:8-40 | each key holds the frequency of the last token that cleans to it, and only such keys appear |
| Filters.FilterTokensKeys | Chording/englishTokenFilter.py:22-23 | no kept key other than "_" starts or ends with "_" |
| Filters.LastCleaningToClean | Chording/englishTokenFilter.py:38 | every kept key comes from some token that cleans to it |
| Filters.FilteredTokenFrequenciesSorted | Chording/englishTokenFilter.py:46 | the written table is a permutation of the filtered one, frequencies non-increasing, equal frequencies in their prior order |
| Filters.FilterScored | Chording/englishScoredFilter.py:10-16 | the kept entries are exactly those with a score, a key longer than 2 and no Roman-numeral match, with their values unchanged |
| Filters.FilterScoredDrops | Chording/englishScoredFilter.py:8-15 | a kept key is longer than 2, has a score, and is no numeral from 1 to 4999 in any case |
| Filters.FilterScoredDistinct | Chording/englishScoredFilter.py:10-16 | the comprehension keeps the keys distinct |
| Filters.SortedScoredSorted | Chording/englishScoredFilter.py:18 | the written table is a permutation of the kept entries, scores non-increasing, ties in prior order |
| Filters.CountPopular | Chording/englishScoredFilter.py:30 | the count is at most the number of entries |
| Filters.CountPopularSorted | Chording/englishScoredFilter.py:30 | sorting does not change the count |
| Filters.ReportedCount | Chording/englishScoredFilter.py:30 | the printed count, taken over the sorted table, equals the number of kept entries with frequency > 1 and score > 1 |
| Roman.MatchParts | Chording/englishScoredFilter.py:8 | a full match splits the text into one alternative per group |
| Roman.PartsMatch | Chording/englishScoredFilter.py:8 | one alternative per group, concatenated, matches |
| Roman.RomanValue | Chording/englishScoredFilter.py:8 | every text the pattern accepts, in any case, is the numeral of a number from 1 to 4999 |
| Roman.NumeralIsRoman | Chording/englishScoredFilter.py:8 | the numeral of every number from 1 to 4999, in any case, is accepted |
| Roman.ToRomanEmpty | Chording/englishScoredFilter.py:8 | only 0 has the empty numeral, so the lookahead rejects the empty text |
| Roman.ConcatLetters | Chording/englishScoredFilter.py:8 | a match uses only the letters MDCLXVI |
| Roman.MixIsRoman | Chording/englishScoredFilter.py:8 | "mix" matches, ignoring case |
| WordCount.Stripped | Chording/wordFrequency.py:14 | each line stripped of surrounding whitespace |
| WordCount.UpdateGet | Chording/wordFrequency.py:15 | `Counter.update` adds to each key the number of its occurrences and leaves other keys alone |
| WordCount.ReadChunksUpdate | Chording/wordFrequency.py:10-15 | reading in chunks of any positive size counts as one update with all stripped lines |
| WordCount.CountFileCounts | Chording/wordFrequency.py:7-15 | the counts do not depend on the chunk size; a key is present iff some line strips to it, with the number of such lines |
| WordCount.UpdateKeys | Chording/wordFrequency.py:15 | the counter's keys are the stripped lines in first-seen order |
| WordCount.UpdateTotal | Chording/wordFrequency.py:9-15 | the counts sum to the number of lines |
| WordCount.TokenFrequenciesSorted | Chording/wordFrequency.py:17 | the written table is a permutation of the counter, counts non-increasing, ties in first-seen order, total the number of lines |
| WordCount.TotalSorted | Chording/wordFrequency.py:17 | sorting keeps the total |
| Dicts.PutGet | Chording/englishTokenFilter.py:38 | assigning a key changes only that key's value |
| Dicts.PutKeys | Chording/englishTokenFilter.py:38 | assigning an existing key keeps the key order; a new key goes at the end |
| Dicts.SortDescDescending | Chording/wordFrequency.py:17 | `sorted(..., reverse=True)` by a key yields non-increasing keys |
| Dicts.SortDescStable | Chording/wordFrequency.py:17 | the items with any one key value keep their relative order |
| Dicts.SortedDictSorts | Chording/wordFrequency.py:17 | `dict(sorted(items, reverse=True))` of a table without repeated keys is a stable descending permutation |
| Tokenize.Scan | Chording/tokenization.py:14-20 | `re.findall` gives spans inside the line, non-empty, left to right and non-overlapping |
| Tokenize.ScanShapes | Chording/tokenization.py:14 | each match is a maximal word run with an optional apostrophe and second run, starting at a word boundary, or one ASCII punctuation character |
| Tokenize.ScanSkipsOther | Chording/tokenization.py:14 | only characters that are neither word characters nor punctuation lie before the first match |
| Tokenize.ScanGaps | Chording/tokenization.py:14 | only such characters lie between matches and after the last |
| Tokenize.TokenChars | Chording/tokenization.py:14-20 | a token is non-empty and holds no whitespace or other non-token character |
| Tokenize.LineTokens | Chording/tokenization.py:18-20 | each line's tokens, line by line, so no token spans lines |
| Tokenize.Flush | Chording/tokenization.py:25 | an empty buffer writes a lone "\n" |
| Tokenize.FlushTerminated | Chording/tokenization.py:25 | a non-empty buffer writes each token followed by "\n" |
| Tokenize.WriteChunks | Chording/tokenization.py:18-30 | the loop writes the flush of every whole chunk of `chunk_size` lines, then the rest only if it has tokens |
| Tokenize.TokenizeInChunks | Chording/tokenization.py:13-36 | `chunk_size` 0 writes nothing, and fails iff there is a line; otherwise the chunked output; when every whole chunk has a token, every token followed by "\n" in order |
| Tokenize.ChunkedOutputTokens | Chording/tokenization.py:17-30 | when every whole chunk has a token, the output does not depend on `chunk_size`: each token and "\n", in order |
| Tokenize.WholeEnd | Chording/tokenization.py:24 | the lines up to the last whole chunk: a multiple of `chunk_size` within one chunk of the end |
| Tokenize.ChunkEnd | Chording/tokenization.py:24 | inside a chunk, `(i + 1) % chunk_size == 0` holds exactly at its last line |
| Keystrokes.ZeroCounts | Chording/Fitness/word-analysis.js:18-21 | eight fingers by four rows, all zero |
| Keystrokes.FingerIndexInjective | Chording/Fitness/word-analysis.js:19 | distinct non-thumb fingers have distinct rows of counts |
| Keystrokes.Run | Chording/Fitness/word-analysis.js:28-61 | the fold's state accounts for exactly the keys found so far |
| Keystrokes.AnalyzeWord | Chording/Fitness/word-analysis.js:4-61 | effort and distance are the sums over the found keys; position is how many were found; each finger-row count is that key's uses; same-finger pairs; 0.5 per same-hand pair; 0.5 times the total row travel |
| Keystrokes.UnknownSkipped | Chording/Fitness/word-analysis.js:29-30 | a character missing from the metrics changes nothing in the result |
| Keystrokes.RunFound | Chording/Fitness/word-analysis.js:28-61 | the data depend only on the sequence of found keys |
| Keystrokes.SameFingerOverheadBound | Chording/Fitness/word-analysis.js:44-47 | the same-finger overhead is at most position-1, and 0 for no keys |
| Keystrokes.CountsTotalWord | Chording/Fitness/word-analysis.js:38-40 | the counts sum to the number of found non-thumb keys |
| Combine.Utf8Size | Datasets/Gutenberg/combine.py:21 | `len(s.encode('utf-8'))` lies between the length and four times the length |
| Combine.FitLength | Datasets/Gutenberg/combine.py:19-22 | the longest prefix within the byte budget: it fits, and one more character would not |
| Combine.Cut | Datasets/Gutenberg/combine.py:19-22 | the cut text fits the budget, is a prefix, equals the text iff the text fits, and is the longest fitting prefix |
| Combine.Body | Datasets/Gutenberg/combine.py:21-22 | the corrected cut: the body is the stripped content whenever it fits in 5·1024·1024 bytes, and otherwise its longest prefix that fits |
| Combine.Basename | Datasets/Gutenberg/combine.py:24 | the base name is a suffix of the path |
| Combine.BasenameJoined | Datasets/Gutenberg/combine.py:24 | the base name of `gutenberg_books/<name>` is the name |
| Combine.ProcessFile | Datasets/Gutenberg/combine.py:21-22 | `process_file` with the corrected cut: a read or decode error yields "" |
| Combine.UnframeCorrected | Datasets/Gutenberg/combine.py:21-27 | with the corrected cut the text between the start and end lines is the body, and it fits in 5·1024·1024 bytes |
| Combine.BodyAsWritten | Dataset/Language/processGutenberg.py:10-14 | the written truncation keeps a prefix of the stripped content of at most 5·1024·1024 characters: all of it when it fits in 5·1024·1024 bytes or has at most that many characters, and otherwise exactly 5·1024·1024 characters |
| Combine.ProcessFileAsWritten | Dataset/Language/processGutenberg.py:7-22 | a read or decode error yields ""; otherwise the result starts with "--- Start of <base> ---\n" and ends with "\n--- End of <base> ---\n\n" |
| Combine.Unframe | Datasets/Gutenberg/combine.py:24-27 | between the start line and the end line lies exactly the body as the script cuts it |
| Combine.FramedByName | Dataset/Language/processGutenberg.py:16-18 | a listed file is framed with its own name, under the written cut and the corrected one |
| Combine.BodyCutIsPrefix | Datasets/Gutenberg/combine.py:21-22 | the byte cut is a prefix of the character cut, and the two are equal when the content fits the byte budget |
| Combine.AsciiCutsAgree | Dataset/Language/processGutenberg.py:13-14 | on ASCII content the character cut and the byte cut give the same result |
| Combine.AsciiCut | Datasets/Gutenberg/combine.py:21-22 | on ASCII text the longest fitting prefix is the first `budget` characters |
| Combine.AsWrittenOverBudget | Datasets/Gutenberg/combine.py:21-22 | 5·1024·1024 copies of "é" still take 2·5·1024·1024 bytes after the written cut; the byte cut fits |
| Combine.TxtFiles | Datasets/Gutenberg/combine.py:39 | the files are exactly the folder-joined listed names ending in ".txt" |
| Combine.Results | Datasets/Gutenberg/combine.py:50 | one result per file, in file order, each the written `process_file` of that file |
| Combine.MapInBatches | Datasets/Gutenberg/combine.py:45-54 | batches of 1000 through `executor.map` give one result per file in listing order |
| Combine.CombineFolder | Dataset/Language/processGutenberg.py:30-46 | the combined file is the written `process_file` results of all ".txt" files in listing order, joined with "\n" |
| Text.Strip | Datasets/Gutenberg/main.py:310 | `str.strip` never lengthens and leaves no whitespace at either end |
| Text.StripSlice | Datasets/Gutenberg/main.py:307 | the stripped text is a slice with only whitespace around it |
| Text.StripEmptyIffAllSpace | Datasets/Gutenberg/main.py:225 | a text strips to "" iff it is all whitespace |
| Text.Find | Datasets/Gutenberg/main.py:278 | `find` gives the first occurrence, and none iff there is no occurrence |
| Text.FindFrom | Datasets/Gutenberg/main.py:280 | `find` from a position gives the first occurrence at or after it |
| Text.RFind | Datasets/Gutenberg/main.py:305 | `rfind` gives the last occurrence, and none iff there is no occurrence |
| Text.SplitJoin | Datasets/Gutenberg/main.py:115 | joining the parts of `split(sep)` with sep gives back the text |
| Text.StripChar | Chording/englishTokenFilter.py:19 | `strip("_")` leaves no underscore at either end and keeps only characters of the token |
| Text.Lower | Chording/Chorder.py:195 | `lower` maps each character, upper-case ASCII letters to lower case |
| Text.Upper | Chording/englishScoredFilter.py:15 | `re.IGNORECASE` compares upper-cased ASCII letters |

## Left out

- Concurrency is not modelled. This covers the asyncio semaphore, `asyncio.gather`
  with `return_exceptions=True`, `ThreadPoolExecutor` and the keyboard listener
  thread. Every operation runs sequentially, one book or one file at a time.
- Network, file and JSON I/O become values or parameters (see above); the
  directory listing of the staging folder is the staging map.
- `sleep` calls are counted in `Harvester.Retry`, not performed. Log lines and
  `print` output are not modelled.
- BeautifulSoup parsing is not modelled: a page is given as its list of anchors.
  Only the `urljoin` forms a catalog page uses are modelled (absolute,
  root-relative, query and fragment references).
- `parse_qs` is modelled only for key presence; percent-decoding of keys is left
  out.
- zipfile internals are left out: an archive is `NotAZip`, `Unreadable`, or a
  list of members plus `testzip`'s first bad name.
- Crawl.Harvest: the `while True` loop takes a page limit, because the catalog
  could link pages forever. The result reports when the limit stopped it.
- Harvester.ProcessMembers: the only read error modelled is a missing file,
  when an earlier member of the same name was already removed. Other I/O errors
  while reading a member are not modelled.
- Normalizer.ProcessText: the `except` branch that returns the partly
  processed text is left out, because none of the string operations used can
  raise.
- Unicode is not modelled in several places, each for the same reason: Dafny has
  no Unicode database.
  - `\w` in the tokenizer is the ASCII word set.
  - `str.isupper`, `isalnum`, `isdigit` and `lower` are ASCII.
  - `re.IGNORECASE` in the Roman pattern folds ASCII only; the non-ASCII letters
    Python also folds (such as the dotless i) are left out.
- Tokenize.TokenizeInChunks takes the file's lines already split at their
  newlines. It tokenises every line before the writing loop, which writes the
  same output.
- Keystrokes.AnalyzeWord stops before `new Stats(data)`: `Stats` and `Layout` are
  not part of this model.
  - A row is restricted to 0 to 3, the four rows counted.
  - A finger is one of the eight named fingers or the thumb. An unknown finger
    name, which fails in the script, is not modelled.
- Chorder: the following are not modelled:
  - locale detection, which is a `Layout` parameter;
  - the profile file, which gives the initial profiles;
  - the pyautogui/text-input back end: an expansion is the edit it is asked to
    make;
  - the Qt widgets, `filter_table` and `on_language_changed`.
- Tokenize.TokenizeInChunks: the chunk size is a `nat`. A negative `chunk_size`,
  for which Python's `%` would flush whenever `i + 1` is a multiple of its
  magnitude, is not modelled; the default is 1000.
- WordCount.CountFile: the chunk size is a `nat`. A negative `chunk_size`, for
  which `islice` raises `ValueError`, is not modelled; the default is 100000.
- Crawl.FollowPages and Crawl.Harvest: the one-second `sleep` between catalog
  pages is neither performed nor counted; it does not change which pages are
  requested.
- Combine: the creation of `processedFolder` and of the output directory is not
  modelled; it does not affect the combined text.
- The floating-point statistics scripts (`scoreWords.js`, `getDataStats.js`,
  `normalization.js`) and the histogram are not part of this model.
- `count_downloaded_books`, `main` and the argument parsing are not part of this
  model.

## Findings

| source | as written | input that shows it | evidently intended | confidence | as-written member | corrected member |
|---|---|---|---|---|---|---|
| Datasets/Gutenberg/main.py:338-339 | a next-page address whose query lacks `filetypes[]` gets "&filetypes[]=txt&langs[]=de" appended, also when it has no query at all | a "Next Page" href of `/robot/harvest` joins to `https://www.gutenberg.org/robot/harvest`; the appended text lands in the path, and the next request carries no filter | start a query with "?" when the address has none, so the filter reaches the server | medium, not executed | Query.NextUrlAsWritten (Query.NextUrlAsWrittenExample, Crawl.GetPageContent) | Query.NextUrl (Crawl.GetPageContentCorrected) |
| Datasets/Gutenberg/combine.py:21-22 | over the byte budget, the content is cut to `max_size` characters, not bytes | 5·1024·1024 copies of "é" (10 MiB of UTF-8): the cut keeps every character, so the body stays 10 MiB | cut to the longest prefix that fits in 5·1024·1024 bytes, as the comment on line 22 says | high, not executed | Combine.BodyAsWritten (Combine.AsWrittenOverBudget, Combine.ProcessFileAsWritten) | Combine.Body (Combine.ProcessFile) |
