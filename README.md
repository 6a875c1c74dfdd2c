# LMX core of open-score-string-quartets, in Dafny

This project models the core of the string-quartet LMX converter in
MALerLab/open-score-string-quartets and proves properties of it. The core has
four components.

- **Voice locator** (`Mxl`, `lmx_utils/symbolic/MxlFile.py`). It accepts only
  part-wise MusicXML documents. It finds the piano part, or the string parts of
  a quartet, by exact membership of an entry's instrument name or part name in
  fixed name lists. It then selects the `<part>` elements that carry the
  resolved ids.
- **Delimiter splitter** (`Splitter`, `split_tokens_by_key_token`). It cuts a
  token list at every occurrence of a marker token. The marker can optionally
  be kept as its own group.
- **Multi-voice synchroniser** (`Synchronizer`, `LmxeProperties`, the split,
  check and merge part of `score_to_lmxe`).
  - Each voice's stream is split by `<new-page>`, then `<new-system>`, then
    `measure`.
  - All voices must agree on the page count, then on the system count of every
    page, then on the measure count of every system. A failure is reported at
    the first level that disagrees.
  - Every aligned measure becomes one line `measure part:1 <tokens> part:2
    <tokens> ...`.
- **Score assembler** (`Elements`, `PartToScore`, `part_to_score.py`). It wraps
  one part, or the four parts of a quartet, in a minimal `<score-partwise>`
  tree. The part-list is built by successive appends, and the `id` attribute of
  each given part element is overwritten in place.

Form of the model:

- The splitter's loop and the synchroniser's nested assembly loops are methods
  with loop invariants. Each method is proved equal to a specification function
  (`Split`, `MergedMeasure`, `SystemLines`, `PageLines`, `LmxeOf`).
- The synchroniser's checks are those functions. The lemmas state what the
  functions mean: counts of pages, systems and measures per voice, tokens
  conserved, line layout, and the round trip through `split(' ')`.
- The locator works on values. A document is modelled by what its queries read:
  the root tag, the `<score-part>` entries, and the `<part>` children. The
  `resolve_string_part_ids` loop is a method.
- `ET.Element` is a class with mutable `attrib`, `text` and `children`. Both
  assembler functions are methods that allocate fresh elements and modify the
  caller's parts.
- Python's `assert` failures and the piano-part exception are `Err` values of a
  `Result`.
- `zip(*xs)` truncates to the shortest list (`Sequences.Zip`), and
  `' '.join` / `split(' ')` are `Join` / `SplitAtSpaces`.
- `Scenarios` holds worked examples on concrete inputs:
  - four two-page voices of one-note measures;
  - a voice with one extra measure marker;
  - a part-list of five violins.

Points of the code's behaviour that the model keeps exactly:

- `split_tokens_by_key_token` drops an empty run before the first marker and
  between two adjacent markers. It always keeps the final run, even when that
  run is empty. So re-inserting the marker between the groups does not give the
  input back (`Splitter.SplitExamples`).
- A measure's tokens are merged as they are; no prefix is stripped from them.
- A structural mismatch reports only its level (`PageCountMismatch`,
  `SystemCountMismatch`, `MeasureCountMismatch`). The source's assertion
  messages carry no per-voice counts.
- The synchroniser is generic in the number of voices, as the code is. It is
  used with the four voices that `get_string_quartet_parts` guarantees.

## Model

| member | source | states |
|---|---|---|
| Splitter.Split | lmx_utils/__init__.py:23-44 | there is always at least one group; the empty list gives exactly one empty group |
| Splitter.SplitTokensByKeyToken | lmx_utils/__init__.py:23-44 | the loop returns exactly `Split(tokens, key, includeKey)` |
| Splitter.SplitDropsOnlyKeys | lmx_utils/__init__.py:28-42 | without `include_key`, concatenating the groups gives the input with every marker removed (no other token is lost, duplicated or reordered) |
| Splitter.SplitKeepsEverything | lmx_utils/__init__.py:28-42 | with `include_key`, concatenating the groups gives the input back |
| Splitter.SplitGroupsKeyFree | lmx_utils/__init__.py:29-39 | the marker never sits inside a content group; with `include_key`, a group containing it is exactly `[key]`, and without it no group contains it |
| Splitter.SplitNonEmptyButLast | lmx_utils/__init__.py:30-32 | every group except the last is non-empty |
| Splitter.SplitLastIsTrailingRun | lmx_utils/__init__.py:41-42 | the last group is the run of tokens after the last marker (the whole input without a marker) |
| Splitter.SplitKeyGroupCount | lmx_utils/__init__.py:34-35 | with `include_key`, the number of `[key]` groups equals the number of markers |
| Splitter.SplitWithoutKey | lmx_utils/__init__.py:28-44 | a list without the marker is one group equal to the list |
| Splitter.SplitFromRun | lmx_utils/__init__.py:39 | a marker-free run only extends the group being collected |
| Splitter.Runs | lmx_utils/__init__.py:28-42 | the list cut at every marker, empty runs kept, has one run more than the list has markers |
| Splitter.RunsCutAtMarkers | lmx_utils/__init__.py:28-42 | no run holds the marker, and the runs joined with one marker between each two give the list back |
| Splitter.RunsOfRejoin | lmx_utils/__init__.py:28-42 | this cut is unique: marker-free runs joined with the marker are cut back into exactly those runs |
| Splitter.SplitIsGroupsOfRuns | lmx_utils/__init__.py:28-42 | the loop's groups are the runs before the last marker, each kept only when non-empty and followed by `[key]` when markers are kept, then the final run |
| Splitter.GroupsWithoutKey | lmx_utils/__init__.py:30-32 | without markers kept, those groups are the non-empty runs before the last marker followed by the final run |
| Splitter.SplitIsNonEmptyRuns | lmx_utils/__init__.py:23-44 | `split_tokens_by_key_token(s, key)` is the non-empty runs between markers followed by the final run, empty or not |
| Splitter.SplitExamples | lmx_utils/__init__.py:23-44 | `measure a measure b` gives `[a] [b]`; kept markers become singleton groups; a trailing marker leaves a final empty group |
| Synchronizer.TaggedSegments | lmx_utils/__init__.py:116-117 | the tagged runs are as long as one tag per voice plus all of the voices' tokens (what they hold, and where, is `LmxeProperties.MeasureTokensLayout`) |
| Synchronizer.MergeMeasure | lmx_utils/__init__.py:114-119 | the `enumerate` loop and the join give `MergedMeasure(segs)` |
| Synchronizer.AssembleSystem | lmx_utils/__init__.py:110-122 | the loop over `zip(*systems)` gives `SystemLines` |
| Synchronizer.AssemblePage | lmx_utils/__init__.py:107-124 | the loop over `zip(*pages)` gives `PageLines` |
| Synchronizer.ScoreToLmxe | lmx_utils/__init__.py:62-126 | the three split levels, three checks and nested merge loops return exactly `LmxeOf(voices)` |
| LmxeProperties.MeasuresByVoice | lmx_utils/__init__.py:62-91 | the by-level split of all voices at once is each voice's own page/system/measure split |
| LmxeProperties.PageCheck | lmx_utils/__init__.py:67 | the page assertion holds iff every voice has as many pages as the first |
| LmxeProperties.SystemCheck | lmx_utils/__init__.py:77-80 | given equal page counts, the system assertion holds iff every voice has as many systems as the first on every page |
| LmxeProperties.MeasureCheck | lmx_utils/__init__.py:93-102 | given equal page and system counts, the measure assertion holds iff every voice has as many measures as the first in every system |
| LmxeProperties.SameShapeIffCountsAgree | lmx_utils/__init__.py:67-102 | the three level-wise agreements together are the same as all voices having the same page/system/measure shape |
| LmxeProperties.LmxeOutcome | lmx_utils/__init__.py:62-102 | which error is reported, each as an iff: pages disagree; else systems disagree; else measures disagree; success iff all voices have the same shape |
| LmxeProperties.LmxeShapeOnSuccess | lmx_utils/__init__.py:105-126 | on success the output has the voices' shape (pages, systems per page, lines per system); no voices give an empty document |
| LmxeProperties.LmxeLinesOnSuccess | lmx_utils/__init__.py:105-126 | on success line `m` of system `s` of page `p` is the merge of the voices' measure `m` of that system, in voice order |
| LmxeProperties.TokenConservation | lmx_utils/__init__.py:62-91 | a voice's measures, concatenated, are its stream with the three markers removed: no token dropped, duplicated or reordered |
| LmxeProperties.VoiceRunInLine | lmx_utils/__init__.py:105-126 | on success voice `v`'s run in the line at page `p`, system `s`, measure `m` (between its tag and the next) is the voice's own measure at that place |
| LmxeProperties.OutputShapeOfVoice | lmx_utils/__init__.py:105-126 | on success the result has the page/system/measure shape of every voice |
| LmxeProperties.LinesCarryRuns | lmx_utils/__init__.py:105-126 | on success every line of the result carries, for voice `v`, the voice's measure at that place |
| LmxeProperties.TokenConservationInOutput | lmx_utils/__init__.py:62-126 | on success a voice's runs in the result, read page by page, system by system and line by line, are its stream with the three markers removed |
| LmxeProperties.MeasureTokensLayout | lmx_utils/__init__.py:114-117 | a merged line's tokens start with `measure`, then for each voice in order its tag `part:i+1` followed by exactly its run, the last run ending the line |
| LmxeProperties.MergedMeasureSplitsBack | lmx_utils/__init__.py:119 | when no token contains a space, splitting a merged line at spaces gives its token list back |
| Scenarios.EndToEnd | lmx_utils/__init__.py:62-126 | four voices of 2 pages × 1 system × 2 one-note measures give 2 pages of one system of two `measure part:1 note part:2 note part:3 note part:4 note` lines |
| Scenarios.ExtraMeasureIsMismatch | lmx_utils/__init__.py:93-102 | one extra measure marker in one system of one voice is a measure-level mismatch |
| Mxl.FromTree | lmx_utils/symbolic/MxlFile.py:8-13 | a document is accepted iff its root is `score-partwise`, and is then kept unchanged; every query takes an `MxlFile`, a document whose root is `score-partwise` |
| Mxl.FirstPianoIdIsFirstMatch | lmx_utils/symbolic/MxlFile.py:35-44 | nothing is found iff no entry has a piano instrument name or part name; otherwise the id is that of the first such entry in document order |
| Mxl.ResolvePianoPartIdSpec | lmx_utils/symbolic/MxlFile.py:31-49 | the same for `resolve_piano_part_id`, whose failure carries the part-list |
| Mxl.PartsWithIds | lmx_utils/symbolic/MxlFile.py:92-95 | a `<part>` is selected iff its id is among the resolved ids |
| Mxl.PartsWithIdsAppend | lmx_utils/symbolic/MxlFile.py:92-95 | selection keeps document order (it distributes over concatenation) |
| Mxl.PartsWithIdsPosition | lmx_utils/symbolic/MxlFile.py:92-95 | a selected part at document position `i` is element number `k` of the selection, `k` being the number of selected parts before `i`: each selected part appears once, in document order |
| Mxl.PartsWithIdsSkip | lmx_utils/symbolic/MxlFile.py:92-95 | a part whose id is not resolved adds nothing to the selection |
| Mxl.PartsWithIdsTwo | lmx_utils/symbolic/MxlFile.py:56-59 | two different parts with a selected id make at least two selected |
| Mxl.GetPianoPart | lmx_utils/symbolic/MxlFile.py:52-63 | a resolution failure is passed on; a returned part is a `<part>` of the document carrying the resolved piano id |
| Mxl.GetPianoPartUnique | lmx_utils/symbolic/MxlFile.py:56-61 | failure iff the number of parts with the piano id is not one (reported with that count); on success the returned part is the only one with that id |
| Mxl.StringPartIds | lmx_utils/symbolic/MxlFile.py:70-77 | at most one id per entry, and none iff no entry has a string instrument or part name |
| Mxl.StringPartIdsAppend | lmx_utils/symbolic/MxlFile.py:72-77 | ids are collected in part-list order |
| Mxl.StringPartIdsMembers | lmx_utils/symbolic/MxlFile.py:72-77 | an id is collected iff some string entry carries it |
| Mxl.ResolvedStringPartIds | lmx_utils/symbolic/MxlFile.py:66-85 | failure iff there is no string entry; otherwise between one and four ids, the first ones in part-list order, and all of them when fewer than four |
| Mxl.ResolveStringPartIds | lmx_utils/symbolic/MxlFile.py:66-85 | the loop returns `ResolvedStringPartIds`, and warns iff more than four string entries were found |
| Mxl.GetStringQuartetParts | lmx_utils/symbolic/MxlFile.py:88-98 | resolution failures pass through; success iff exactly four parts carry resolved ids; the result is then exactly the selection of parts with a resolved id, so it is in `<part>` document order (`PartsWithIdsPosition`), each a `<part>` of the document, and every part with a resolved id is among them; a wrong count is reported with its value |
| Scenarios.FiveViolinsCappedAtFour | lmx_utils/symbolic/MxlFile.py:66-85 | five violin entries give five matches, of which the ids of the first four are returned in document order |
| Elements.Element.constructor | lmx_utils/symbolic/part_to_score.py:12 | a new element has the given tag and no attributes, text or children |
| Elements.Element.Append | lmx_utils/symbolic/part_to_score.py:20 | `append` adds the child at the end and changes nothing else |
| PartToScore.PartToScore | lmx_utils/symbolic/part_to_score.py:4-28 | the fresh root `score-partwise` with the version holds a fresh part-list of one `score-part` (the id, a `part-name` with the name) and then the given part, whose `id` is overwritten and whose text and children are unchanged |
| PartToScore.NewScorePart | lmx_utils/symbolic/part_to_score.py:58-62 | a fresh `score-part` with the id and a `part-name` child holding the name |
| PartToScore.NewGroupStart | lmx_utils/symbolic/part_to_score.py:46-53 | a fresh `part-group` with `type="start"` and `number="1"` holding a `group-symbol` with text `bracket` |
| PartToScore.NewGroupEnd | lmx_utils/symbolic/part_to_score.py:65-67 | a fresh `part-group` with `type="end"` and `number="1"` |
| PartToScore.AppendScorePart | lmx_utils/symbolic/part_to_score.py:57-63 | one loop step appends the next fresh entry and keeps the entries before it |
| PartToScore.AppendGroupEnd | lmx_utils/symbolic/part_to_score.py:65-69 | closing the group completes the quartet part-list |
| PartToScore.NewQuartetPartList | lmx_utils/symbolic/part_to_score.py:43-69 | the part-list is the group start, one entry per pair of `zip(part_ids, part_names)` in order, and the group end, all fresh |
| PartToScore.NewQuartetRoot | lmx_utils/symbolic/part_to_score.py:40-72 | a fresh root with the version whose only child is that part-list |
| PartToScore.LastWrite | lmx_utils/symbolic/part_to_score.py:75-77 | no id has been written into an element iff no step so far was for that element |
| PartToScore.LastWriteOfDistinct | lmx_utils/symbolic/part_to_score.py:75-77 | for distinct parts, each of the first `k` gets its own id and the others none |
| PartToScore.AttachParts | lmx_utils/symbolic/part_to_score.py:75-77 | the parts paired by `zip(part_ids, parts)` are appended in order; each element's `id` is the one written last into it, other attributes, text and children unchanged |
| PartToScore.StringQuartetPartsToScore | lmx_utils/symbolic/part_to_score.py:31-79 | failure iff there are not exactly four parts, then nothing changes; otherwise a fresh root with the version, the bracketed part-list, then the parts getting ids in order, with their `id` rewritten as above and nothing else in them changed |

## Left out

- Parsing and serialising XML (`ET.fromstring`, `ET.tostring`, `ET.ElementTree`): a document is given as its modelled parts, and the assemblers return the root element rather than an `ElementTree` wrapping it.
- Missing elements and attributes (`find` returning `None`, a missing `id`): the source would raise `AttributeError` or `KeyError`; the model assumes every entry has an id and represents an absent text as `None`.
- The linearizer call of `score_to_lmxe` (`lmx_utils/__init__.py:48-60`): the four token streams are the synchroniser's input. `SQLinearizer` and `Delinearizer` are not part of this model.
- The parts check at `lmx_utils/__init__.py:53-55` prints and exits; it never fires with parts from `get_string_quartet_parts`, which returns exactly four elements found as `<part>`, so it is not modelled.
- The warning printed by `resolve_string_part_ids` is the `warned` result of `Mxl.ResolveStringPartIds`; the text and the stream are not modelled.
- The voice locator and the score assembler use different representations of a part (the value `Mxl.Part` and the class `Elements.Element`); no lemma connects them.
- Python `assert` statements are modelled as always checked; running with `-O` would remove them.
- `load_mxl`, `delinearize_lmx` and the other functions of `lmx_utils/__init__.py` after line 126 (rendering through MuseScore, image handling): I/O and external tools.
- The batch scripts (`convert_musicxml_to_lmxe.py`, `render_mscore.py`, `crawl.py`, `download_pdfs.py`). This includes writing one `.lmxe` file per page; `convert_musicxml_to_lmxe.py:65` joins the systems of the first page for every page.
- Diagnostics of a structural mismatch: as in the source, an error names only its level, not the offending voice, page or system, nor the counts observed.
- Unique voice ids: the assembler writes whatever `part_ids` holds, so duplicate entries there give two parts the same id, as in the source.
