# PROJECT mention pipeline: label alignment, context windows and coordinate resolution

This is a Dafny model of the deterministic core of a named-entity pipeline for mining-exploration reports. The pipeline finds mining PROJECT names in PDF text and attaches coordinates to them. The model covers four stages.

- **Character spans to token tags** (`annotation_converter.dfy`, module `AnnotationConverter`).
  - Each annotated PROJECT span writes `B-PROJECT` at its first character and `I-PROJECT` at the rest, into a per-character label map that starts as `O`.
  - The tokenizer's tokens are then walked with a cursor that skips whitespace. Each token takes the tag under the cursor.
  - The map is built and the tokens are aligned by loops, each proved equal to a recursive specification function.
- **Token tags to subword label ids** (`dataset_preparer.dfy`, module `DatasetPreparer`).
  - Each subword position gets `-100` when it belongs to no word, the word's tag id when it is the word's first subword, and otherwise the id of the tag with `B-` rewritten to `I-`.
  - A second loop splits (token, tag) pairs into a column of tokens and a column of tags.
- **Mention records and context sentences** (`infer_ner.dfy`, module `InferNer`).
  - Predicted entities are filtered down to the PROJECT group. Each becomes a record whose context is a window of up to 150 characters on either side of the mention, clipped to the text, stripped and with every whitespace run collapsed to one space.
- **Coordinate resolution** (`geolocation_infer.dfy`, module `Geolocation`, class `GeolocationInfer`).
  - An exact-name table lookup comes first.
  - On a miss, and only when the LLM is enabled, the oracle's reply is read. A reply saying "unknown" in any letter case is refused, a failed call gives nothing, and any other reply is scanned for the first two decimal numbers, as `re.findall(r"[-+]?\d+\.\d+", ...)` finds them.

Shared pieces:
- `text.dfy` (module `Text`): Python's whitespace set, `str.strip`, ASCII lower-casing and substring search.
- `labels.dfy` (module `Labels`): the tag vocabulary `O`, `B-PROJECT`, `I-PROJECT` and the `label2id` table `{O: 0, B-PROJECT: 1, I-PROJECT: 2}`. The table is the default label list of `src/ner/ner_model.py:19-20`.
- `wrappers.dfy`: an `Option` type.

External collaborators become inputs:
- the word tokenizer is a function parameter `string -> seq<string>`;
- the subword tokenizer's `word_ids` are a `seq<Option<nat>>` per example;
- the entity predictor's output is a sequence of `Entity` records;
- the oracle's reply is an `Option<string>`, where `None` means the call raised;
- the API key read from the environment is an `Option<string>` given to the constructor.

## Model

| member | source | states |
|---|---|---|
| Text.Strip | src/ner/infer_ner.py:42 | `str.strip()`: the result has no whitespace at either end, and it is the slice of the input left after removing only whitespace on both sides |
| Text.LowerAscii | src/ner/geolocation_infer.py:51 | `lower()`: same length, each ASCII capital replaced by its small letter, every other character kept |
| Text.Contains | src/ner/geolocation_infer.py:51 | `sub in s` holds exactly when `sub` occurs at some position of `s` |
| AnnotationConverter.LabelMapUncovered | src/ner/annotation_converter.py:29-41 | an index covered by no PROJECT span has an entry exactly when it lies in `[0, len(text))`, and that entry is `O` |
| AnnotationConverter.LabelMapLastWins | src/ner/annotation_converter.py:31-41 | for an index covered by span `k` and by no later PROJECT span, the entry is `B-PROJECT` at span `k`'s start and `I-PROJECT` elsewhere, so the last overlapping span wins |
| AnnotationConverter.RegionWithoutEffect | src/ner/annotation_converter.py:34-41 | a span whose first label is not PROJECT, or whose start is not below its end, leaves the label map unchanged |
| AnnotationConverter.LabelMapHoldsTags | src/ner/annotation_converter.py:29-41 | every entry of the label map is one of `O`, `B-PROJECT`, `I-PROJECT` |
| AnnotationConverter.BeginMarksRegionStart | src/ner/annotation_converter.py:37-39 | a `B-PROJECT` entry sits at the start of some PROJECT span that covers it |
| AnnotationConverter.WriteRegion | src/ner/annotation_converter.py:37-41 | the index loop writes `B-PROJECT` at `start` and `I-PROJECT` on the rest of `[start, end)`, over the entries already there, and nothing when `start >= end` |
| AnnotationConverter.BuildLabelMap | src/ner/annotation_converter.py:29-41 | the nested span and index loops build exactly the label map that the span-by-span specification gives |
| AnnotationConverter.SkipWhitespace | src/ner/annotation_converter.py:49-50 | the cursor never moves back, every skipped character is whitespace, it stops on a non-space character or at the end of the text, and it never passes the end |
| AnnotationConverter.SkipSpaces | src/ner/annotation_converter.py:49-50 | the skip loop stops exactly where the specification's cursor does: at the first non-whitespace character at or after `idx`, or at the end of the text |
| AnnotationConverter.CursorAdvances | src/ner/annotation_converter.py:48-53 | each token starts at least `len(token)` after the start of every earlier token, so the cursor never decreases |
| AnnotationConverter.TaggedTokensShape | src/ner/annotation_converter.py:48-52 | one pair per token, in order, with the token unchanged and a tag from the vocabulary |
| AnnotationConverter.AlignTokens | src/ner/annotation_converter.py:45-53 | the cursor loop yields the pairs of the specification: token `k` is tagged with the map entry at its skip-whitespace start, or `O` if there is none |
| AnnotationConverter.ExtractProjectEntities | src/ner/annotation_converter.py:22-58 | one output per item, in order, each the item's text with its tagged tokens, built from the first annotation set only |
| DatasetPreparer.ReplaceBeginMarkerAt | src/ner/dataset_preparer.py:35 | `replace("B-", "I-")` keeps the length and turns exactly each `B` that is followed by `-` into `I` |
| DatasetPreparer.ContinuationOfTags | src/ner/dataset_preparer.py:33-35 | on a continuation subword `B-PROJECT` becomes `I-PROJECT`, while `O` and `I-PROJECT` stay as they are |
| DatasetPreparer.IgnoreExactlyWithoutWord | src/ner/dataset_preparer.py:28-36 | `-100` is emitted exactly at the positions with no word, and every other position gets an id in 0..2 |
| DatasetPreparer.SplitBeginWord | src/ner/dataset_preparer.py:30-36 | a `B-PROJECT` word split into contiguous subwords gets the `B-PROJECT` id on its first subword and the `I-PROJECT` id on the rest |
| DatasetPreparer.TagsEncodable | src/ner/dataset_preparer.py:31-36 | when every word index is in range and every tag is in the vocabulary, no lookup can fail |
| DatasetPreparer.EncodeExamples | src/ner/dataset_preparer.py:22-39 | one label list per example, in batch order, each as long as its `word_ids`, with each id the one its position calls for; `None` also counts as the previous word |
| DatasetPreparer.UnzipRoundTrip | src/ner/dataset_preparer.py:50-52 | the token and tag projections have the same length and zip back to the pair list |
| DatasetPreparer.BuildDataset | src/ner/dataset_preparer.py:44-54 | one row per example, in order: its tokens and its tags in pair order, with the text dropped |
| DatasetPreparer.ConvertedTagsEncodable | src/ner/dataset_preparer.py:27-36 | tags produced from annotations never make a `label2id` lookup fail, for any in-range `word_ids` |
| InferNer.Slice | src/ner/infer_ner.py:39-41 | a slice clipped at the text bounds: never longer than `hi - lo`, equal to the in-bounds part, empty past the end |
| InferNer.RawWindowIsSlice | src/ner/infer_ner.py:39-42 | for an in-text span, pre, mention and post together are the single slice `text[max(0, start-150) : end+150]` |
| InferNer.EmptySpanEmptyMention | src/ner/infer_ner.py:40 | a zero-length span gives an empty mention slice |
| InferNer.CollapseWhitespace | src/ner/infer_ner.py:43 | `re.sub(r"\s+", " ", s)`: no longer than the input, single-spaced, empty only for empty input, and keeping whether each end is whitespace |
| InferNer.CollapseMatchesRef | src/ner/infer_ner.py:43 | the collapse equals a character-at-a-time reference: a whitespace character that starts a run becomes one space, one that follows whitespace is dropped, and every other character is kept |
| InferNer.Normalize | src/ner/infer_ner.py:42-43 | strip then collapse: no longer than the input, with no whitespace at the ends, only plain spaces, and no two of them adjacent |
| InferNer.NormalizeMatchesRef | src/ner/infer_ner.py:42-43 | normalising is the character-at-a-time collapse of the stripped text, so interior whitespace runs become single spaces and are never deleted |
| InferNer.GetContext | src/ner/infer_ner.py:38-44 | the context is normalised and at most `(end - start) + 2*window` characters long |
| InferNer.NormalizeKeepsVisible | src/ner/infer_ner.py:42-43 | normalising keeps every non-whitespace character, in order |
| InferNer.CollapseFixpoint | src/ner/infer_ner.py:43 | collapsing a single-spaced string returns it unchanged |
| InferNer.NormalizeIdempotent | src/ner/infer_ner.py:42-43 | normalising a returned context again returns it unchanged |
| InferNer.ProjectEntitiesMembers | src/ner/infer_ner.py:24-25 | an entity is kept exactly when it is in the input and its group is PROJECT |
| InferNer.ProjectEntitiesConcat | src/ner/infer_ner.py:24-25 | the filter distributes over concatenation, so kept entities stay in input order |
| InferNer.MentionsAt | src/ner/infer_ner.py:26-34 | record `k` carries the file and page unchanged, the entity's word as project name, its context, and no coordinates |
| InferNer.ExtractProjectMentions | src/ner/infer_ner.py:20-36 | the loop emits exactly one record per PROJECT entity, in input order, and nothing for other entities |
| Geolocation.GeolocationInfer.constructor | src/ner/geolocation_infer.py:14-30 | the client is ready exactly when the LLM is enabled and a non-empty key was found; the table is the built-in one |
| Geolocation.DefaultLookupIsPairTable | src/ner/geolocation_infer.py:27-30 | every entry of the built-in table is a `[lat, lon]` pair |
| Geolocation.MatchAtSound | src/ner/geolocation_infer.py:63 | a match found at a position is a whole `[-+]?\d+\.\d+` literal |
| Geolocation.MatchAtComplete | src/ner/geolocation_infer.py:63 | no literal starting at a position is missed, and the match found there is the longest one, as the greedy regex takes it |
| Geolocation.FindAll | src/ner/geolocation_infer.py:63 | the matches lie at or after the scan start and are shaped like the pattern |
| Geolocation.FindAllOrdered | src/ner/geolocation_infer.py:63 | the matches go left to right without overlapping |
| Geolocation.FindAllFoundAtStart | src/ner/geolocation_infer.py:63 | each reported match is exactly the pattern's match at its own start |
| Geolocation.FindAllLeftmost | src/ner/geolocation_infer.py:63 | every position where a match could begin lies inside a reported match, so no number is skipped |
| Geolocation.FindAllSkipsOne | src/ner/geolocation_infer.py:63 | a position holding neither a digit nor a sign starts no match, so the scan moves past it |
| Geolocation.NoPointNoMatches | src/ner/geolocation_infer.py:63 | a text without a `.` has no matches |
| Geolocation.LiteralValue | src/ner/geolocation_infer.py:66 | `float(match)`: the magnitude has the digits before the point as its integer part and a fraction in `[0, 1)`, and it is negated exactly when the match starts with `-`; `LiteralValueIsDecimal` pins the fraction exactly |
| Geolocation.LiteralValueIsDecimal | src/ner/geolocation_infer.py:66 | `float(match)`, taken exactly, is the decimal reading of the literal: all the literal's digits with the point dropped, divided by ten to the number of digits after the point, negated exactly when the literal starts with `-`, so leading zeros after the point keep their places |
| Geolocation.DigitsConcat | src/ner/geolocation_infer.py:66 | reading the digits of `a` followed by those of `b` gives the value of `a` times ten to the length of `b`, plus the value of `b` |
| Geolocation.ShiftIsQuotient | src/ner/geolocation_infer.py:66 | `k` digits after the point, read as the integer `x`, are worth `x / 10^k` |
| Geolocation.ExtractCoordinatesFromText | src/ner/geolocation_infer.py:62-69 | a result exists exactly when there are at least two matches, and it is then `[value of the first match, value of the second match]` in scan order, so every later match is ignored |
| Geolocation.BareIntegersGiveNothing | src/ner/geolocation_infer.py:63-69 | text made of bare integers, with no `.`, such as `12 34`, gives nothing |
| Geolocation.SampleReplyCoordinates | src/ner/geolocation_infer.py:62-66 | the reply `-22.867, 120.712` is read as exactly `[-22.867, 120.712]`, sign included |
| Geolocation.ReadReply | src/ner/geolocation_infer.py:49-56 | a stripped reply containing `unknown` after lower-casing gives nothing; otherwise it gives a result exactly when the stripped reply holds at least two numbers, and the result is the values of the first two |
| Geolocation.GeolocationInfer.InferCoordinates | src/ner/geolocation_infer.py:32-60 | a table hit is returned as it is; on a miss the result is nothing when the LLM is disabled or the call raised, and otherwise it is what the reply reads as |
| Geolocation.LookupHitSkipsOracle | src/ner/geolocation_infer.py:33-36 | a non-empty table entry is returned as it is, whatever the oracle would reply |
| Geolocation.LookupIsCaseSensitive | src/ner/geolocation_infer.py:27-36 | with the built-in table, `Minyari Dome Project` is a hit and yields its pair, while the same name in lower case is not a hit, whatever the LLM setting; with the LLM disabled that miss gives nothing |
| Geolocation.DisabledMissGivesNothing | src/ner/geolocation_infer.py:38-60 | on a miss with the LLM disabled the result is nothing, for every reply |
| Geolocation.FailedCallGivesNothing | src/ner/geolocation_infer.py:47-60 | on a miss, a raising oracle call gives nothing |
| Geolocation.UnknownReplyGivesNothing | src/ner/geolocation_infer.py:49-52 | on a miss, a stripped reply that contains `unknown` after lower-casing gives nothing |
| Geolocation.UnknownOverridesNumbers | src/ner/geolocation_infer.py:49-53 | `Unknown 1.5 2.5` holds two numbers, yet it gives nothing |
| Geolocation.ReplyParsed | src/ner/geolocation_infer.py:49-56 | on a miss with a ready client, any other reply gives exactly what the number scan of the stripped reply gives |
| Geolocation.ResultIsPairOrNothing | src/ner/geolocation_infer.py:32-69 | with a table of pairs, the result is nothing or a full `[lat, lon]` pair, never a partial one |

## Left out

- The NLTK word tokenizer is not part of this model. Tokens are whatever the tokenizer parameter returns, and the cursor walk does not check that a token matches the text under it. A token the tokenizer rewrites therefore shifts the cursor, just as in the source.
- `load_annotations` and every other file, JSON and JSONL read or write (`main()` of the resolver, the inference and training scripts): these are I/O.
- Annotation records are reduced to the fields the converter reads: the text, and for each span its start, end and labels. An item without an annotation set, or a span without a label, is excluded by a precondition. The source raises `IndexError`/`KeyError` for them.
- The subword tokenizer call, truncation, padding, offsets and `Dataset.from_dict` are library internals. `word_ids` are an input, and the result is the label-id lists plus the two dataset columns.
- DatasetPreparer.EncodeExamples: requires every word index to be in range and every looked-up tag to be in `label2id`; the source raises `IndexError`/`KeyError` otherwise.
- Model construction, training, the prediction pipeline and `get_entities` (`src/ner/ner_model.py`, `train_ner.py`, `run_inference.py`): these are neural inference and training. The entity list is an input.
- `src/ner/pdf_reader.py` and `src/ner/utils.py` are not part of this model. They cover PDF extraction and logging.
- InferNer.Entity: offsets are natural numbers, so the source's handling of negative slice bounds (counting from the end) is not modelled.
- Gemini client set-up, the environment and `.env` lookup, prompt construction and the network call are left out. The key and the reply are inputs, and the `context` argument reaches only the prompt.
- Geolocation.GeolocationInfer.InferCoordinates: requires a lookup hit, a disabled LLM or a ready client. With the LLM enabled but no key, the source raises `AttributeError` outside its `try` on a miss, and that configuration is excluded.
- Geolocation.ExtractCoordinatesFromText: gives the exact decimal values of the matched literals, not the nearest binary floating-point numbers that `float()` produces. For the same reason the `try`/`except` around `float()` is not modelled: it cannot fire on a match of this pattern. The table's values are likewise exact decimals.
- Text.LowerAscii: lower-cases ASCII letters only, where `str.lower()` also folds other scripts. A reply spelling "unknown" with non-ASCII look-alikes is therefore not covered.
- Geolocation.MatchAt: `\d` is the ASCII digits only, whereas Python's `str` patterns also accept other Unicode decimal digits.
- Logging calls have no effect on results and are omitted.
