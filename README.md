# Sentinel View entity and relationship pipeline, modelled in Dafny

This project models the data-handling core of the Sentinel View pipeline. The pipeline turns
news articles and WikiLeaks cables into a threat graph in five steps:

- **NER post-processing.** The NER tagger's results are post-processed into entity records
  (`extract_entities.py`).
- **Entity consolidation.** The entities are normalised, filtered, de-duplicated
  case-insensitively and stripped of redundant acronyms (`clean_entities.py`).
- **Relationship extraction.** Two scripts do this, one against the OpenAI chat API and one
  against a local model. For every unordered pair of entities from the same source file, each
  script:
  1. selects the relevant sentences;
  2. asks the model for a JSON relationship record;
  3. checks or cleans the reply;
  4. grows a JSON array file one record at a time.
- **Placeholder sanitising.** In the resulting records, placeholder values (`""`, `"Unknown"`,
  `"N/A"`) become `null` (`standardize_json.py`).
- **Graph building.** The graph builder makes one node per entity and one edge per record
  (`assets/nodeGenerator2.0.py`).

The model takes the source's own form:

- **Pure functions** (acronym test, sentence selection, pair generation, key validation, span
  search, context cleaning) are Dafny functions. Lemmas state what they compute.
- **Loops** are methods with loop invariants, proved against a specification function:
  - the entity filters;
  - `clean_entities`;
  - `clean_values`;
  - the retry loop;
  - the grouping loop;
  - the local driver;
  - the graph builder.
- **The output file** is a class `JsonFile.OutputFile` holding whether the file exists and its
  text. Its methods are `initialize_json`, both `append_to_json` variants and `finalize_json`.

External behaviour is passed in as function-typed parameters: Unicode NFC, the `unicode_escape`
codec, `json.loads`, `json.dumps`, `sent_tokenize`, reading a source file, Python's `str()`,
the models' replies and the chat API.

Modules:

| file | module | models |
|---|---|---|
| wrappers.dfy | Wrappers | Option and Result |
| seqs.dfy | Seqs | filter, map, subsequence, first index, `list.remove` |
| text.dfy | Text | `str.isspace`, `isupper`, `lower`, `strip`, `split`, `join` |
| json_value.dfy | JsonValue | parsed JSON values, dict lookup, `dict.get`, item assignment |
| extract_entities.dfy | ExtractEntities | `extract_entities_bert` filter loop, `deduplicate_entities` |
| clean_entities.dfy | CleanEntities | `is_acronym`, `filter_redundant_entities`, `clean_entities` |
| standardize_json.dfy | StandardizeJson | `clean_values`, the entry loop of `clean_json_data` |
| relevant_text.dfy | RelevantText | whole-word mention, `extract_relevant_sentences`, entity pairs |
| context_cleaning.dfy | ContextCleaning | `clean_relevant_context` |
| json_file.dfy | JsonFile | `initialize_json`, both `append_to_json`, `finalize_json` |
| relationships_api.dfy | RelationshipsApi | `validate_json_response`, the retry loop of `extract_relationship` |
| pipeline.dfy | Pipeline | grouping by file, source paths, the jobs of the main blocks |
| relationships_local.dfy | RelationshipsLocal | span search, fallbacks and error record, the local main block |
| node_generator.dfy | NodeGenerator | the node and edge loop |

## Model

| member | source | states |
|---|---|---|
| Text.LowerChar | src/clean_entities.py:73 | an upper-case ASCII letter maps to its lower-case letter, everything else is kept, and the result is never upper case |
| Text.TrimStart | src/clean_entities.py:60 | the result is a suffix of the input, starts with a non-space, and everything cut off is whitespace |
| Text.TrimEnd | src/clean_entities.py:60 | the result is a prefix of the input, ends with a non-space, and everything cut off is whitespace |
| Text.StripTrims | src/clean_entities.py:60 | `strip()` removes exactly the leading and trailing whitespace |
| Text.StripIdempotent | src/extract_relationships_API.py:157 | stripping twice equals stripping once |
| Text.StripEmpty | src/extract_relationships_API.py:224 | `not s.strip()` holds exactly when every character is whitespace |
| Text.WordLength | src/clean_entities.py:15 | the length of the leading run of non-space characters |
| Text.Words | src/clean_entities.py:15 | `split()` yields non-empty words that hold no whitespace |
| Text.JoinSnoc | src/extract_relationships_API.py:36 | joining one more part adds the separator and the part at the end |
| Text.JoinNotAllSpace | src/extract_relationships_API.py:36 | a join with a non-space character somewhere is not blank |
| JsonValue.Lookup | src/assets/nodeGenerator2.0.py:14-20 | a key is found exactly when the dict holds it, and the value found is stored under it |
| JsonValue.SetValue | src/extract_relationships_Local.py:152 | item assignment on a key the dict holds (the only case the source reaches) keeps the keys and their order and stores the value |
| JsonValue.SetValueOthers | src/extract_relationships_Local.py:152 | item assignment on a held key leaves every other key's value unchanged |
| ExtractEntities.ExtractEntitiesBert | src/extract_entities.py:25-45 | the loop returns the kept results, in order, each an ORG or PER entity with score at least 0.80, stamped with the file name and free of `##`; no more outputs than results |
| ExtractEntities.NerEntitiesProperties | src/extract_entities.py:17-44 | every entity has a relevant label, a score at least 0.80, the given file name and no `##` |
| ExtractEntities.NerEntitiesFromResults | src/extract_entities.py:27-44 | the kept results are a subsequence of the tagger's results, and every kept result yields its entity |
| ExtractEntities.RemoveHashesHasNoDoubleHash | src/extract_entities.py:35 | after `replace("##", "")` no `##` is left, and a first character other than `#` survives |
| ExtractEntities.DeduplicateEntities | src/extract_entities.py:70-82 | the loop returns the first entity per (text, filename); the keys are pairwise distinct and are exactly the input's keys |
| ExtractEntities.DeduplicatedProperties | src/extract_entities.py:74-82 | the de-duplicated list has distinct keys, the input's key set, and is a subsequence of the input |
| ExtractEntities.DeduplicatedKeepsFirst | src/extract_entities.py:79-81 | an entity whose key does not occur earlier is kept |
| ExtractEntities.DeduplicatedIdempotent | src/extract_entities.py:74-82 | de-duplicating twice equals de-duplicating once |
| ExtractEntities.DistinctKeysUnchanged | src/extract_entities.py:74-82 | a list with distinct keys is returned unchanged |
| CleanEntities.AcronymIsUpperWordStarts | src/clean_entities.py:5-16 | `is_acronym(f, a)` holds exactly when `a` is the sequence of upper-case letters that begin whitespace-separated words of `f` |
| CleanEntities.IsRedundantExists | src/clean_entities.py:33 | an entity is redundant exactly when some other entity's text has its text as initials |
| CleanEntities.FilterRedundantEntities | src/clean_entities.py:19-38 | the loop keeps the non-redundant entities in order; the acronym set holds the text of every redundant entity, and each text in it has a redundant entity as witness |
| CleanEntities.RedundantTextsSpec | src/clean_entities.py:30-34 | the acronym set is exactly the texts of the redundant entities |
| CleanEntities.NonRedundantKeeps | src/clean_entities.py:30-36 | the filtered list is a subsequence of the input and holds an entity exactly when it is in the input and not redundant |
| CleanEntities.FirstConflict | src/clean_entities.py:77-87 | the index the `for ... break` stops at is the first accepted entity whose key contains, or is contained in, the candidate's key |
| CleanEntities.CleanEntities | src/clean_entities.py:41-94 | the loop returns the fold of one step per entity; every returned entity passed the threshold, is at least 2 characters, is NFC-normal and stripped, a PER has a space, it is an input record with its text normalised, and lower-cased texts are distinct |
| CleanEntities.ResolvePartialDuplicates | src/clean_entities.py:74-87 | the partial-duplicate loop gives the list and `should_add` of the step function, and `seen` stays the set of lower-cased texts |
| CleanEntities.CleanedIsWellCleaned | src/clean_entities.py:50-92 | every entity in the fold's result is a good entry and the lower-cased texts are distinct |
| CleanEntities.CleanStepKeepsWellCleaned | src/clean_entities.py:53-92 | one iteration preserves the invariant of the loop |
| CleanEntities.CleanStepMembers | src/clean_entities.py:83-92 | one iteration only removes entities or appends the accepted candidate, which passed the score, length and PER checks |
| CleanEntities.CleanStepKeepsDistinct | src/clean_entities.py:74-92 | one iteration keeps the lower-cased texts distinct |
| CleanEntities.RemoveFromLowerTexts | src/clean_entities.py:83-84 | removing an accepted entity removes exactly its lower-cased text from `seen` |
| CleanEntities.StepRejects | src/clean_entities.py:55-74 | a candidate below the score threshold, shorter than two characters after NFC and strip, a single-word PER, or whose lower-cased key is already in `seen` leaves the list unchanged |
| CleanEntities.StepAppends | src/clean_entities.py:76-92 | any new candidate that passes the filters and conflicts with no accepted entity is appended with its normalised text |
| CleanEntities.StepReplaces | src/clean_entities.py:79-92 | any new candidate that passes the filters and whose key is strictly longer than that of the first conflicting entity removes that entity and is appended, with its normalised text, at the end |
| CleanEntities.StepDiscards | src/clean_entities.py:79-89 | a new candidate that passes the filters but whose key is no longer than that of the first conflicting entity is discarded: on equal length the earlier entity wins |
| CleanEntities.FirstKept | src/clean_entities.py:53-92 | a clean first entity is kept as it is |
| CleanEntities.FirstTwoKept | src/clean_entities.py:53-92 | two clean, unrelated entities are both kept in order |
| CleanEntities.ThirdReplacesFirst | src/clean_entities.py:79-92 | a longer third entity conflicting with the first replaces it at the end of the list |
| CleanEntities.FirstConflictOnly | src/clean_entities.py:87 | only the first conflict is handled: "united", "nations", "united nations" leaves "nations" beside "united nations" |
| CleanEntities.CleanedAllConflictFree | src/clean_entities.py:76-92 | with every conflicting entity handled, no returned key contains another |
| StandardizeJson.CleanValues | src/standardize_json.py:3-17 | the result is the sanitised dict: same keys in order, scalar values nulled exactly when they are placeholders, no placeholder left as a direct value |
| StandardizeJson.CleanList | src/standardize_json.py:10-13 | every dict element of a list is cleaned and every other element kept, and the length is kept |
| StandardizeJson.CleanJsonData | src/standardize_json.py:27-43 | an array of dicts has every entry sanitised in order and its length kept; any non-dict entry raises and nothing is written; an empty dict or string is written back unchanged |
| StandardizeJson.SanitizedHasNoPlaceholders | src/standardize_json.py:7-17 | no placeholder is left in any dict reachable through dicts and lists of dicts |
| StandardizeJson.SanitizedKeepsSkeleton | src/standardize_json.py:7-17 | every dict keeps its keys in order and every list its length; only scalar values change |
| StandardizeJson.SanitizedIdempotent | src/standardize_json.py:16-17 | cleaning a cleaned value changes nothing |
| RelevantText.MentionsIff | src/extract_relationships_API.py:32-33 | a sentence mentions an entity exactly when the entity occurs, ignoring case, between two word boundaries |
| RelevantText.MentionNotBlank | src/extract_relationships_API.py:32-33 | a mentioning sentence is not blank |
| RelevantText.BothMentioned | src/extract_relationships_API.py:34 | the membership filter selects exactly the sentences mentioning both entities, in order |
| RelevantText.ExtractRelevantSentencesCases | src/extract_relationships_API.py:29-36 | with a sentence mentioning both, the result joins exactly those; otherwise it joins the entity-1 sentences and then the entity-2 sentences, which do not overlap |
| RelevantText.ExtractRelevantSentencesBlank | src/extract_relationships_Local.py:59-67 | the result is blank, and then empty, exactly when no sentence mentions either entity |
| RelevantText.PairsWithIff | src/extract_relationships_API.py:220 | the pairs of one element are that element with every different later one |
| RelevantText.PairsSound | src/extract_relationships_API.py:220 | every pair is two different texts at indexes `i < j` |
| RelevantText.PairsComplete | src/extract_relationships_Local.py:217 | every two different texts at `i < j` form a pair |
| RelevantText.PairsCount | src/extract_relationships_API.py:220 | there are at most n(n-1)/2 pairs |
| ContextCleaning.RemoveUEscapesKeepsPlain | src/extract_relationships_API.py:25 | text without a backslash is left as it is |
| ContextCleaning.RemoveUEscapesIsSubsequence | src/extract_relationships_API.py:25 | removing `\uXXXX` leaves a subsequence of the text |
| ContextCleaning.CleanRelevantContext | src/extract_relationships_API.py:22-27 | cleaning fails exactly when the `unicode_escape` decode fails |
| ContextCleaning.CleanRelevantContextSpacing | src/extract_relationships_Local.py:51-55 | the cleaned text is the words of the decoded text joined by single spaces, so it has no edge whitespace and no whitespace run |
| ContextCleaning.NormalizeSpaceIsJoinOfWords | src/extract_relationships_API.py:26 | `re.sub(r'\s+', ' ', s).strip()` equals `" ".join(s.split())` |
| ContextCleaning.NormalizeSpaceIdempotent | src/extract_relationships_API.py:26 | the whitespace step changes nothing the second time |
| ContextCleaning.SingleSpacedFixed | src/extract_relationships_API.py:26 | single-spaced text is left unchanged |
| ContextCleaning.JoinOfWordsSingleSpaced | src/extract_relationships_API.py:26 | words joined by one space give single-spaced text |
| JsonFile.OutputFile.constructor | src/extract_relationships_API.py:175 | no file exists yet |
| JsonFile.OutputFile.Initialize | src/extract_relationships_Local.py:163-165 | the file exists and holds `[\n]` |
| JsonFile.OutputFile.AppendApi | src/extract_relationships_API.py:173-189 | a missing file becomes the dumped one-element array; otherwise a file over 2 characters loses its last character and gets a comma, then the record and `\n]` |
| JsonFile.OutputFile.AppendLocal | src/extract_relationships_Local.py:169-181 | a file over 2 characters loses its last two characters and gets a comma unless first, then the record and `\n]`; a missing file raises and nothing changes |
| JsonFile.OutputFile.FinalizeJson | src/extract_relationships_API.py:191-200 | `\n]` is appended exactly when the file is over 2 characters and its second-to-last character is not `]`; a missing file raises |
| JsonFile.ApiAppendedCloses | src/extract_relationships_API.py:173-189 | after an API append the file ends with `]` in both cases: an existing file ends with `\n]`, and a missing one becomes the dumped one-element array, from `[` to `]` |
| JsonFile.ApiAppendedShortFile | src/extract_relationships_API.py:183-189 | a file of 2 characters or fewer is not truncated: its text stays in front of the record |
| JsonFile.ApiArraySnoc | src/extract_relationships_API.py:180-189 | appending to the array file adds one element after a comma line |
| JsonFile.ApiAppendsBuildArray | src/extract_relationships_API.py:173-189 | a first append to a missing file, then one append per record, gives the head array extended by the records, and the file ends with `]` |
| JsonFile.LocalAppendedSnoc | src/extract_relationships_Local.py:163-181 | the empty file is the empty array, and an append flagged first exactly when nothing was written adds one element |
| JsonFile.LocalAppendsBuildArray | src/extract_relationships_Local.py:163-181 | from `[\n]`, the appends give `[` + the records joined by `,\n` + `\n]` |
| JsonFile.LocalAppendedCloses | src/extract_relationships_Local.py:163-181 | the empty array and every local append end in `\n]` |
| JsonFile.FinalizedDoublesBracket | src/extract_relationships_Local.py:185-192 | finalizing a file that ends in `\n]` appends another `\n]`, and finalizing again changes it again |
| JsonFile.FinalizedFixedCloses | src/extract_relationships_API.py:191-200 | the corrected finalize keeps a closed file, closes every file over 2 characters, and is idempotent |
| RelationshipsApi.ValidateJsonResponse | src/extract_relationships_API.py:20-46 | the reply is accepted exactly when it is a dict holding all six required keys |
| RelationshipsApi.MissingKeysEmpty | src/extract_relationships_API.py:42-43 | the set difference is empty exactly when every required key is present |
| RelationshipsApi.ExtractRelationship | src/extract_relationships_API.py:48-171 | the loop's outcome is the outcome of the rounds, and a returned value always passes validation |
| RelationshipsApi.FirstDecisive | src/extract_relationships_API.py:157-171 | every round before the first decisive one retries, and that one does not |
| RelationshipsApi.RetryOutcomeFirstDecisive | src/extract_relationships_API.py:157-171 | the first round that does not retry decides: an accepted reply is returned as parsed, an uncaught exception escapes, and with none the loop is still running |
| Pipeline.GroupIndex | src/extract_relationships_Local.py:202-204 | the group found has that file name, and none is found only when no group has it |
| Pipeline.GroupByFile | src/extract_relationships_Local.py:202-204 | groups have distinct names in order of first appearance, each holds the texts of its file in order, and every entity's file has a group |
| Pipeline.GroupedStep | src/extract_relationships_API.py:206-208 | one entity extends its file's group, or opens a new last group |
| Pipeline.GroupedDistinct | src/extract_relationships_API.py:206-208 | group names are distinct |
| Pipeline.GroupedTexts | src/extract_relationships_API.py:206-208 | each group holds exactly the texts of its file's entities, in order |
| Pipeline.GroupedCovers | src/extract_relationships_API.py:206-208 | every entity's file has a group |
| Pipeline.PairJobSpec | src/extract_relationships_API.py:222-226 | a pair gives a job exactly when some sentence mentions either entity, and the job carries its relevant text |
| Pipeline.PairJobsFromPairs | src/extract_relationships_Local.py:219-227 | every job comes from a generated pair and carries that pair's non-blank relevant text |
| RelationshipsLocal.IndexFrom | src/extract_relationships_Local.py:148 | the first index at or after a start that holds a character |
| RelationshipsLocal.JsonSpanBoundsSpec | src/extract_relationships_Local.py:148 | the span runs from the first `{` to the first `}` after it, holds no other `}`, and is missing exactly when no `}` follows a `{` |
| RelationshipsLocal.CleanContextFieldSpec | src/extract_relationships_Local.py:151-152 | the context is replaced only when present, the keys and all other values are kept, and the new context is single-spaced |
| RelationshipsLocal.ExtractRelationshipLocalCases | src/extract_relationships_Local.py:145-159 | the result is always a dict: `{}` with no span, the error record when anything raised, otherwise the parsed span with its context cleaned |
| RelationshipsLocal.PairRecord | src/extract_relationships_Local.py:219-227 | a pair yields one record when its relevant text is not blank, and none otherwise |
| RelationshipsLocal.AppendPair | src/extract_relationships_Local.py:219-227 | one pair's record is appended to the array and the first flag clears once something is written |
| RelationshipsLocal.AppendPairs | src/extract_relationships_Local.py:219-227 | one record per non-blank pair is appended, in pair order |
| RelationshipsLocal.AppendGroup | src/extract_relationships_Local.py:207-227 | a group whose file is missing adds nothing; otherwise its pairs' records are appended |
| RelationshipsLocal.RunLocal | src/extract_relationships_Local.py:196-229 | the file ends as the finalized array of one record per job, in group and pair order |
| NodeGenerator.RecordFields | src/assets/nodeGenerator2.0.py:14-20 | the reads succeed exactly when the record is a dict and its threat assessment, if present, is a dict |
| NodeGenerator.CheckedFields | src/assets/nodeGenerator2.0.py:14-37 | a round passes exactly when the reads succeed and both entities are hashable |
| NodeGenerator.RecordFieldsDefaults | src/assets/nodeGenerator2.0.py:14-20 | missing fields take the defaults `None`, "Unknown relationship", 1, "Unknown Type" and "Unknown Location" |
| NodeGenerator.BuildGraph | src/assets/nodeGenerator2.0.py:8-56 | the loop's nodes and edges, or the first error, are those of the specification |
| NodeGenerator.AddEntity | src/assets/nodeGenerator2.0.py:23-34 | a node is added only for a new id, and `node_ids` stays the set of node ids |
| NodeGenerator.CollectOk | src/assets/nodeGenerator2.0.py:13-20 | all records pass exactly when each does, and then fields and records correspond one to one |
| NodeGenerator.AllCheckedOk | src/assets/nodeGenerator2.0.py:13-20 | the run passes exactly when every record passes |
| NodeGenerator.NodesIds | src/assets/nodeGenerator2.0.py:10-48 | node ids are pairwise distinct and are exactly the entities the records name |
| NodeGenerator.GraphNodes | src/assets/nodeGenerator2.0.py:22-48 | every node is built from the first record that names its entity, with that record's location for that side |
| NodeGenerator.GraphEdges | src/assets/nodeGenerator2.0.py:50-56 | one edge per record, in record order, from Entity 1 to Entity 2 with its relationship and threat level |
| NodeGenerator.FirstMention | src/assets/nodeGenerator2.0.py:23-37 | the index of the first record naming an entity |
| NodeGenerator.FirstMentionPrefix | src/assets/nodeGenerator2.0.py:23-48 | later records do not change an entity's first mention |

## Left out

- Model inference is not modelled: the chat API, the local transformer and the NER tagger. The API replies are a finite sequence of attempts, the local reply is a function of the job, and the tagger's results are an input.
- RelationshipsApi.ExtractRelationship: the `while True` loop runs over a finite sequence of attempts. When all of them retry, the outcome is `Pending` instead of a loop that never returns.
- The API script's main block (lines 202-231 of src/extract_relationships_API.py) is not a method of its own. Its pieces are all modelled: the grouping, the pairs, the blank-text skip, the retry loop, the appends (`JsonFile.ApiAppendsBuildArray`) and the finalize. An uncaught exception or a reply loop that never returns would stop it part-way.
- Library behaviour is passed in as parameters: NFC normalisation, the `unicode_escape` codec, `json.loads`, `json.dump`, `sent_tokenize`, and `str()` in node titles. NFC is only required to leave its own stripped output unchanged, and `json.dump` of a non-empty list only to open with `[`, close with `]` and hold more than the two brackets (`JsonFile.DumpsLists`).
- File reading and writing are left out. So are `os.path.exists`, directory listings, `print`, `tqdm` and `time.sleep`. A source file is a function from path to optional text, and a missing file gives nothing. A `UnicodeDecodeError` on read is not modelled.
- File sizes are counted in characters, not in UTF-8 bytes. The `seek` and `truncate` offsets in the source are byte offsets, so this agrees only for ASCII text.
- The write in `finalize_json` after its one-character read is modelled as an append at the end of the file.
- Case folding, `isupper` and the `\w` class cover ASCII only. Whitespace is the full `str.isspace` set.
- A dict is an ordered list of members, and a lookup takes the first member with the key. Duplicate keys, which `json.loads` would merge, are not excluded.
- Python equality between `1`, `1.0` and `True` is not modelled: set and list membership use structural equality of JSON values. This affects `node_ids` and the `in` tests of the sentence lists.
- `clean_entities` is modelled on values. The output record is the input record with its text replaced. The in-place update is visible through the caller's list, and that aliasing is not modelled.
- The node generator's input is assumed to be a JSON array. The JavaScript file it writes is left out.
- `extract_entities_bert` and `process_text_files` read files and run the tagger. Only the result-filtering loop is modelled.

## Findings

| source | as written | input that shows it | evidently intended | confidence | as-written member | corrected member |
|---|---|---|---|---|---|---|
| src/extract_relationships_API.py:197-200 and src/extract_relationships_Local.py:189-192 | `finalize_json` reads the character at `size - 2`, which after any append or on `[\n]` is the newline, so it appends a second `\n]` | the file `[\n]` written by `initialize_json` | look at the last character and append `\n]` only when it is not `]` | not executed | JsonFile.FinalizedDoublesBracket | JsonFile.FinalizedFixedCloses |
| src/clean_entities.py:77-87 | the partial-duplicate loop `break`s at the first accepted entity that conflicts, so later conflicting entities stay | entities "united", "nations", "united nations" (all ORG, above the threshold) give ["nations", "united nations"] | every shorter partial duplicate is replaced, so no returned key contains another | not executed | CleanEntities.FirstConflictOnly | CleanEntities.CleanedAllConflictFree |

The corrected definitions are `JsonFile.FinalizedFixed` and `CleanEntities.CleanedAll`. The methods (`OutputFile.FinalizeJson`, `CleanEntities.CleanEntities`) keep the behaviour as written, since they model the scripts as they are.
