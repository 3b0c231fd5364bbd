# jarOfAwesome core in Dafny

A model of the state and policy at the heart of the "jar of awesome"
encouragement bot, with proofs about it:

- **The pre-generated catalogue** (`PregeneratedLoading`,
  src/data/pregenerated_loader.py). Finished messages, each with an id and a
  category, are loaded into a list and a category dict. The module also
  covers the hour's greeting put in front of a message, and the random pick
  that avoids repeating an id until the whole catalogue has been seen. The
  loader is a class. Its fields are the list, the dict, the dict's key order
  and the set of used ids. `_load`, `get_random_milestone` and `reset_usage`
  are methods that update those fields. Each method is proved against a
  function of the old state: `IndexOf` for loading, `Select` for a pick.
- **The markdown parser** (`MilestoneParsing`, src/data/parser.py). A file
  is given as its sequence of lines. `_parse` is a method with a loop that
  classifies each line and keeps the running category. It is proved equal to
  a fold of one step per line, `ParseUpTo`. `ParseMeaning` then states what
  that fold computes without the fold. `get_random_milestone` draws either
  uniformly or with weights `1..n`. `Weighting` models the weighted draw, as
  `random.choices` does it, by a cumulative-weight search.
- **Time of day** (`Prompts`, src/ai/prompts.py). The module holds the
  rephrasing template chosen by the hour and the Chinese time label.
- **The schedule setting** (`Config`, src/config.py). It holds the
  validator of the comma-separated `HH:MM` list and the conversion into
  (hour, minute) pairs. `ConfigExamples` replays the cases of
  tests/test_config.py.
- **Supporting modules.** `Text` holds Python's `strip`, `rstrip`,
  `lstrip`, `startswith`, `split` and `join`. `Decimal` holds `int()` and
  `str()` on integers. `Grouping` holds the category dict both catalogues
  build, its key order, and the per-category counts.

Randomness is an explicit argument `draw: nat`:

- `random.choice(pool)` picks `pool[draw % |pool|]`.
- `random.choices(pool, weights=[1..n])` picks the position whose
  cumulative-weight slot holds `draw % (n(n+1)/2)`.

The clock's hour is an argument. A file's content is given as a value: a
sequence of lines, or a sequence of milestone records.

The two hour splits differ, and the model keeps both. The greeting of
`get_message_with_greeting` changes from morning to noon at 11:00
(src/data/pregenerated_loader.py:45-47). The label of `format_time` changes
from 早上 to 中午 at 12:00 (src/ai/prompts.py:121-124).

## Model

| member | source | states |
|---|---|---|
| PregeneratedLoading.GreetingFor | src/data/pregenerated_loader.py:44-54 | no greeting exactly for hours before 6 or from 22 on; the morning, noon, afternoon and evening greetings exactly for [6,11), [11,14), [14,18) and [18,22); a greeting is one line ending in a newline |
| PregeneratedLoading.GreetingMatchesPrompt | src/data/pregenerated_loader.py:45-54 | the greeting periods coincide with the template periods of `get_prompt_for_time`, except that from 22:00 the evening template applies with no greeting; no greeting exactly when `format_time` says 深夜; at 11:00 the greeting is noon's while the label is still 早上 |
| PregeneratedLoading.PregeneratedMilestone.MessageWithGreeting | src/data/pregenerated_loader.py:56-60 | the message always ends the result; the result is the bare message exactly when the stripped message opens with one of the seven emojis or the hour has no greeting; otherwise the greeting is prepended |
| PregeneratedLoading.Unseen | src/data/pregenerated_loader.py:138 | the filtered pool holds exactly the pool items whose id is not used, and is no longer than the pool |
| PregeneratedLoading.BucketsNonEmpty | src/data/pregenerated_loader.py:107-109 | every bucket of a loaded index holds at least one milestone |
| PregeneratedLoading.IndexedAppendKnown | src/data/pregenerated_loader.py:109 | appending an item of a known category to the list and to its bucket keeps the dict exact and the key order unchanged |
| PregeneratedLoading.IndexedAppendNew | src/data/pregenerated_loader.py:107-109 | an item of a new category gets a fresh one-item bucket, and its category joins the end of the key order |
| PregeneratedLoading.RegisterIndexed | src/data/pregenerated_loader.py:103-109 | one round of the load loop keeps the dict equal to the grouping of the list, with keys in order of first occurrence |
| PregeneratedLoading.IndexOfMeaning | src/data/pregenerated_loader.py:102-109 | loading a list item by item yields, for each category, exactly its items in list order; the keys are the categories in order of first occurrence, each once |
| PregeneratedLoading.Select | src/data/pregenerated_loader.py:128-149 | an unknown requested category fails, names the category and leaves the used set alone; after a pick the used set is the old set (or the empty set, once as many ids were used as there are milestones) plus the pick; an empty pool fails with the same reset; a pick comes from the requested pool |
| PregeneratedLoading.SelectFromCatalogue | src/data/pregenerated_loader.py:129-148 | on a loaded index a pick is a catalogue milestone, and of the requested category when one is given |
| PregeneratedLoading.SelectEmptyPool | src/data/pregenerated_loader.py:129-148 | on a loaded index the pick finds nothing to draw exactly when no category is requested and the catalogue is empty |
| PregeneratedLoading.SelectAvoidsRepeats | src/data/pregenerated_loader.py:137-140 | with repeats avoided, fewer used ids than pool items and an unused item in the pool, the pick succeeds with an id not used before |
| PregeneratedLoading.SelectKeepsUsedWithin | src/data/pregenerated_loader.py:147-149 | used ids stay ids of catalogue milestones |
| PregeneratedLoading.SelectResets | src/data/pregenerated_loader.py:143-149 | once as many ids are used as there are milestones, a successful pick leaves exactly its own id used |
| PregeneratedLoading.UnusedExists | src/data/pregenerated_loader.py:137-138 | with distinct ids, fewer used ids than milestones leave some milestone unused |
| PregeneratedLoading.FreshPick | src/data/pregenerated_loader.py:137-149 | while fewer ids are used than there are milestones, an unrequested pick avoiding repeats returns a new catalogue id and grows the used set by exactly that id |
| PregeneratedLoading.RunCoversBeforeRepeating | src/data/pregenerated_loader.py:137-149 | from a fresh loader with distinct ids, the first `n` picks (n at most the catalogue size) return `n` different ids; the used set is exactly those ids and never exceeds the catalogue |
| PregeneratedLoading.RunStartsOver | src/data/pregenerated_loader.py:143-149 | the pick after a full round starts the used set over with just its own id |
| PregeneratedLoading.PregeneratedLoader.constructor | src/data/pregenerated_loader.py:69-85 | a new loader holds the given milestones, an exact category index and no used ids |
| PregeneratedLoading.PregeneratedLoader.Load | src/data/pregenerated_loader.py:101-109 | loading appends the items to the list and keeps the dict and key order equal to the index of the whole list; used ids unchanged |
| PregeneratedLoading.PregeneratedLoader.RandomMilestone | src/data/pregenerated_loader.py:113-152 | the result and the new used set are those of `Select` on the old state; list, dict and key order unchanged; the index stays exact |
| PregeneratedLoading.PregeneratedLoader.ResetUsage | src/data/pregenerated_loader.py:162-165 | empties the used set and changes nothing else |
| PregeneratedLoading.PregeneratedLoader.Categories | src/data/pregenerated_loader.py:154-156 | each category once, exactly the categories some milestone has, in the order of their first milestone in the file |
| PregeneratedLoading.PregeneratedLoader.CategoryStats | src/data/pregenerated_loader.py:158-160 | one count per category, each the size of its bucket and positive; the counts add up to the number of milestones |
| PregeneratedLoading.PregeneratedLoader.Length | src/data/pregenerated_loader.py:167-169 | zero exactly when there is no category |
| MilestoneParsing.DropHashesCut | src/data/parser.py:67 | `^#+` removes the longest run of leading `#`s: what is cut is all `#`, and what is left does not start with `#` |
| MilestoneParsing.DropSymbolsCut | src/data/parser.py:69 | `^[^\w\s]+` removes the longest run of leading symbols: what is cut is all characters outside `\w` and `\s`, and what is left does not start with one |
| MilestoneParsing.HeaderParts | src/data/parser.py:67-69 | every header line splits into a maximal run of `#`s, maximal whitespace, a maximal run of symbols, maximal whitespace, the category, and trailing whitespace |
| MilestoneParsing.CategoryNameCut | src/data/parser.py:67-69 | for any such split the category is exactly the part between the cut prefix and the trailing whitespace |
| MilestoneParsing.CategoryNameShape | src/data/parser.py:67-69 | a header's category is the line with its maximal `#` run, the whitespace after it, its maximal symbol run, the whitespace after that and its trailing whitespace cut off, so it neither starts nor ends with whitespace |
| MilestoneParsing.HeaderExample | src/data/parser.py:67-69 | the header `## 🏆 工作成就` names the category `工作成就` |
| MilestoneParsing.ClassifyBlank | src/data/parser.py:58-62 | a line is skipped as blank exactly when it is all whitespace |
| MilestoneParsing.ClassifyHeader | src/data/parser.py:64-65 | a line is a header exactly when it is not blank and begins with `##`, with no indentation |
| MilestoneParsing.ClassifyEntry | src/data/parser.py:74-85 | a line is an entry exactly when it is neither blank nor a header, its first non-whitespace character is `-`, and the stripped text after that `-` is non-empty and starts with neither `---` nor `*`; the entry's text is that stripped text |
| MilestoneParsing.ClassifyShape | src/data/parser.py:58-85 | blank, header and entry as above; an entry's text is non-empty, has no whitespace at either end, and starts with neither `---` nor `*` |
| MilestoneParsing.FirstOrphan | src/data/parser.py:87-95 | finds the first entry line with no header above it, or none exactly when there is no such line |
| MilestoneParsing.LastHeaderListed | src/data/parser.py:65-71 | the running category, once a header has been seen, is one of the header names, and no header has been seen exactly when there are no header names |
| MilestoneParsing.CurrentRegistered | src/data/parser.py:70-71 | the running category has a bucket exactly when a header came before |
| MilestoneParsing.StepFails | src/data/parser.py:87-95 | one line fails exactly when it is an entry with no header above it, and the error names `未分類` and the line number |
| MilestoneParsing.StepTracks | src/data/parser.py:56-95 | a successful line keeps the parser state equal to the reference milestones, key order, grouping and running category |
| MilestoneParsing.HeaderTracks | src/data/parser.py:65-71 | a header line sets the running category and registers the name once |
| MilestoneParsing.KnownHeaderTracks | src/data/parser.py:70 | a repeated header only changes the running category |
| MilestoneParsing.NewHeaderTracks | src/data/parser.py:70-71 | a new header gets an empty bucket at the end of the key order |
| MilestoneParsing.EntryTracks | src/data/parser.py:87-95 | an entry under a registered category succeeds and is appended to the list and to that bucket |
| MilestoneParsing.ParseMeaning | src/data/parser.py:50-95 | parsing fails exactly when some entry has no header above it, at the first such line; otherwise the milestones are the entries in file order under the header above each, the buckets are keyed by header names in order of first appearance, and the running category is the last header |
| MilestoneParsing.FailurePersists | src/data/parser.py:95 | once a line has failed, later lines change nothing |
| MilestoneParsing.BlankLineIgnored | src/data/parser.py:60-62 | a whitespace-only line adds no milestone and keeps the category |
| MilestoneParsing.ExpectedLines | src/data/parser.py:56-92 | each milestone's line number is the 1-based position of an entry line, whose text and right-stripped line it carries |
| MilestoneParsing.ExpectedOrdered | src/data/parser.py:87-94 | milestones come in file order: line numbers strictly increase |
| MilestoneParsing.MilestoneParser.constructor | src/data/parser.py:45-46 | a new parser has no milestones and no categories |
| MilestoneParsing.MilestoneParser.FromLines | src/data/parser.py:34-47 | building a parser fails exactly when some entry has no header above it, naming the first such line; otherwise its milestones and key order are the reference ones and the index is exact |
| MilestoneParsing.MilestoneParser.Parse | src/data/parser.py:50-95 | the loop's outcome is the line fold: the same error, or the same milestones, buckets and key order |
| MilestoneParsing.MilestoneParser.RandomMilestone | src/data/parser.py:99-130 | an empty catalogue, an unknown category (with the list of known ones) and a known but empty category each fail exactly in their case; a pick is `Pick` on the pool, so weighted picks follow the weights `1..n`; it lies in the catalogue and has the requested category |
| MilestoneParsing.MilestoneParser.Categories | src/data/parser.py:132-134 | each category once, exactly the dict's keys |
| MilestoneParsing.MilestoneParser.CategoryStats | src/data/parser.py:136-138 | one count per category, the size of its bucket; the counts add up to the number of milestones |
| Weighting.TriangleClosedForm | src/data/parser.py:127 | the weights `1..n` add up to `n(n+1)/2` |
| Weighting.AccumulateWeights | src/data/parser.py:127-128 | the running totals of the weights are the triangle numbers |
| Weighting.BisectTriangles | src/data/parser.py:128 | the cumulative search lands on the slot holding the draw |
| Weighting.WeightedSlot | src/data/parser.py:128 | a draw below the total weight picks a position of the pool, the one whose slot holds it |
| Weighting.WeightedIndexIff | src/data/parser.py:125-128 | position `i` is picked exactly by the draws in `[T(i), T(i+1))` |
| Weighting.HitsBelow | src/data/parser.py:125-128 | how many draws below a bound pick position `i` |
| Weighting.WeightedHits | src/data/parser.py:125-128 | of the `n(n+1)/2` equally likely draws exactly `i + 1` pick position `i`: later entries are favoured in proportion to their position |
| Weighting.Pick | src/data/parser.py:125-130 | a weighted pick is the item at `WeightedIndex`, the position whose slot `[T(i), T(i+1))` holds the draw, so `WeightedHits` counts its chances; an unweighted pick is the item at `draw % n`; either way an element of the pool |
| Grouping.Bucket | src/data/pregenerated_loader.py:106-109 | a bucket holds exactly the items of its category |
| Grouping.BucketAppend | src/data/pregenerated_loader.py:109 | appending an item adds it to its own bucket only |
| Grouping.FirstSeen | src/data/pregenerated_loader.py:107-108 | the dict's key order lists each category once, exactly those present |
| Grouping.FirstSeenAppend | src/data/pregenerated_loader.py:107-108 | a category is added to the key order only when it first appears |
| Grouping.GroupedAppend | src/data/parser.py:94-95 | appending an item to the list and to its existing bucket keeps the index exact |
| Grouping.GroupedNewKey | src/data/parser.py:70-71 | registering an unused category with an empty bucket keeps the index exact |
| Grouping.StatsSumToTotal | src/data/parser.py:136-142 | on an exact index the per-category counts add up to the number of items |
| Text.LStripShape | src/data/parser.py:77 | `lstrip` removes exactly the leading whitespace |
| Text.RStripShape | src/data/parser.py:58 | `rstrip` removes exactly the trailing whitespace |
| Text.StripShape | src/data/parser.py:61 | `strip` removes exactly the whitespace at both ends; the result is empty exactly for an all-whitespace string |
| Text.StripTrimmed | src/config.py:55 | text with no whitespace at either end is left alone by `strip` |
| Text.LStripAt | src/data/parser.py:67 | `lstrip` cuts exactly the whitespace before the first other character |
| Text.RStripAt | src/data/parser.py:58 | `rstrip` cuts exactly the whitespace after the last other character |
| Text.StripAt | src/data/parser.py:67-69 | `strip` keeps exactly the text between the whitespace at both ends |
| Text.StripRStrip | src/data/parser.py:58-77 | stripping a right-stripped line is stripping the line |
| Text.StripIdempotent | src/data/parser.py:77 | stripping twice is stripping once |
| Text.SplitShape | src/config.py:55 | the pieces of `split` hold no separator and join back to the input |
| Text.SplitJoin | src/config.py:55 | splitting a join of separator-free pieces gives the pieces back |
| Decimal.NatToString | src/ai/prompts.py:135-137 | the decimal form of a natural number is digits with no leading zero |
| Decimal.IntToString | src/ai/prompts.py:135-137 | the decimal form of an integer is digits and a sign |
| Decimal.ParseIntToString | src/config.py:71 | `int(str(n)) == n` |
| Decimal.ParseDigits | src/config.py:71 | a bare run of digits reads as its value |
| Decimal.ParseTwoDigits | src/config.py:71 | two digits read as tens and units, so a leading zero is dropped |
| Decimal.ParseLeadingZero | src/config.py:71 | `int("08") == 8` |
| Prompts.PromptForTime | src/ai/prompts.py:99-106 | morning exactly for [6,11), noon for [11,14), afternoon for [14,18), evening for every other integer |
| Prompts.PeriodLabel | src/ai/prompts.py:120-130 | 早上 exactly for [6,12), 中午 for [12,14), 下午 for [14,18), 晚上 for [18,22), 深夜 otherwise |
| Prompts.DisplayHour | src/ai/prompts.py:133 | for hours 0-23 the shown hour is the hour modulo 12 in 0-12, and 0 only at midnight |
| Prompts.FormatTime | src/ai/prompts.py:134-137 | the label opens with the period word and ends with `點` for minute 0, otherwise with `分` |
| Prompts.ReadFormatTime | src/ai/prompts.py:120-137 | reading a label back gives the period word, the shown hour and the minute |
| Prompts.FormatTimeExamples | src/ai/prompts.py:118-137 | 08:00 is 早上8點, 20:15 is 晚上8點15分, 00:00 is 深夜0點, 13:05 is 中午1點5分 |
| Config.FirstInvalid | src/config.py:56-62 | finds the first entry that is not two in-range integers, or none exactly when all are |
| Config.ValidateScheduleTimes | src/config.py:53-63 | accepted, unchanged, exactly when every entry is two integers around one colon with hour 0-23 and minute 0-59; otherwise the error names the first bad entry, stripped |
| Config.ScheduleTimesList | src/config.py:66-72 | one pair per entry, in order, when every entry reads as two integers; otherwise an error naming the first unreadable entry; on a validated setting every pair is in range |
| Config.ReadClock | src/config.py:58-59 | `HH:MM` with two-digit fields reads as its two numbers, leading zeros dropped |
| Config.EntriesOf | src/config.py:55 | cutting a comma-joined list of comma-free entries gives the entries back |
| Config.ClockTextReads | src/config.py:70-71 | every two-digit clock entry reads back as its own hour and minute |
| Config.ClockListEntries | src/config.py:69-71 | cutting a clock list gives its entries back, each reading as its clock time |
| Config.ValidateClockList | src/config.py:53-63 | a non-empty list of in-range clock times passes validation unchanged |
| Config.ScheduleOfClockList | src/config.py:66-72 | a clock list converts to its own clock times, in order |
| ConfigExamples.DefaultIsClockList | src/config.py:40-43 | the default setting is the clock list of 8, 12, 16 and 20 o'clock |
| ConfigExamples.DefaultAccepted | tests/test_config.py:6-15 | the default setting passes validation unchanged |
| ConfigExamples.HourOutOfRangeRejected | tests/test_config.py:31-39 | a setting whose first entry is a two-digit time with an hour past 23, such as `"25:00,12:00"`, is rejected, naming that entry |
| ConfigExamples.ExampleIsClockList | tests/test_config.py:18-28 | the example setting is the clock list of its four times |
| ConfigExamples.ExampleSchedule | tests/test_config.py:18-28 | `"08:00,12:30,16:45,20:15"` converts to `[(8,0),(12,30),(16,45),(20,15)]` |

## Left out

- File and JSON reading (`open`, `json.load`, `Path.exists` and its `FileNotFoundError`) is left out. The catalogue is given as a sequence of records and the markdown file as a sequence of lines.
- The loader's `metadata` dict is not modelled, and neither are the `__repr__` methods, logging or `Milestone._remove_emojis`, which returns its input.
- The clock and timezone lookup when `hour` is `None` is left out. The hour is an argument.
- `random.choice` and `random.choices` are replaced by the argument `draw`. Statements about frequencies count draws; no probability distribution is modelled.
- The key order of a Python dict is an explicit sequence beside the map: `categoryOrder` in the classes and `order` in the reference definitions.
- PregeneratedLoading.PregeneratedLoader.Valid: the class invariant covers the list, the dict and the key order. It does not include "used ids are catalogue ids". That fact is proved about the pick (`SelectKeepsUsedWithin`) rather than carried by every method.
- PregeneratedLoading.Select: `random.choice([])` raising `IndexError` is the error `EmptyPool`. The used set it leaves is the one after the reset, as in the code.
- MilestoneParsing.Parse: on the error path the model returns the error. It says nothing about the half-built parser Python discards with the exception.
- MilestoneParsing.IsWordChar: `\w` is a fixed set of characters. It covers ASCII letters, digits and `_`, Latin letters, kana, CJK ideographs, Hangul and full-width letters and digits. The rest of Unicode's word characters are not included.
- Decimal.ParseInt: `int()` accepts whitespace, an optional sign and ASCII digits. Underscores between digits and non-ASCII digits are not accepted here.
- Config.ScheduleTimesList: Python raises a bare `ValueError` from the unpacking or from `int()`. The model returns `InvalidTimeFormat` naming the entry.
- The prompt template texts of src/ai/prompts.py are constants. They appear as the tags of `PromptTemplate`.
- The Pydantic settings machinery, `.env` loading and the other settings fields are not part of this model.
- The Telegram bot, the HTTP server, the entry point and the Anthropic client are not part of this model.
