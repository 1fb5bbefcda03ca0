# Lobelia site scripts: a verified model of their logic

This project models the logic of a small static web site's browser scripts, and proves
properties of that model. The site serves a tabletop-gaming community. The modelled parts
are these:

- **Events calendar** (`js/calendario.js`):
  - the quote-aware CSV line splitter and the conversion of the sheet's lines into events;
  - the keyword classification of event types and their colours;
  - the 42-cell month grid `renderCalendar` draws;
  - the `d/m/y` split of event dates.
- **Language helpers** (`js/i18n.js`):
  - the normalisation of any value onto Spanish or English;
  - the stored-language helpers;
  - the initial-language choice and the selection of a translation table.
- **Matched-play missions screen** (`js/MisionesMatched.js`):
  - six pools of four missions and the rounds counter (stepper, text field, clamping);
  - the random pick;
  - the generation of one mission per round from distinct pools, via an in-place
    Fisher–Yates shuffle of the pool indexes, with badges numbered in order;
  - the deduplicated list of PDF addresses tried for a mission.
- **2vs2 missions screen** (`js/Matched2vs2.js`):
  - six missions and the same rounds counter, bounded by the number of missions;
  - the random pick;
  - round generation by shuffling a copy of the mission list;
  - the attachment of the screen's event listeners.

The scripts contain no dice or duel calculators.

Modules:

- `JsText` (`js_text.dfy`): the JavaScript built-ins the scripts rely on — truthiness,
  `trim`, ASCII case mapping, `split`/`join`, `includes`, `parseInt(s, 10)` and `String(n)`
  for integers.
- `Calendar` (`calendar.dfy`).
- `I18n` (`i18n.dfy`).
- `FisherYates` (`fisher_yates.dfy`): the in-place shuffle both mission screens run.
- `Rounds` (`rounds.dfy`): the rounds counter and badge numbering, shared by both screens.
  The two files carry identical copies of this code, with the bound written `6` in one
  and `MISSIONS.length` (also 6) in the other.
- `MisionesMatched` (`misiones_matched.dfy`).
- `Matched2vs2` (`matched2vs2.dfy`).

Imperative code is modelled as imperative Dafny:

- `parseCSVLine`, `parseCSV` and the grid loops are methods with loops. Each is proved equal
  to a specification function, and the properties are lemmas about that function.
- The shuffles run in place on an `array`.
- Each screen's `state` is a class whose handlers are methods. Each handler states its new
  state and keeps a validity invariant.

Randomness is injected:

- `Math.floor(Math.random() * (i + 1))` becomes a given sequence of indices with
  `0 <= j <= i`.
- Each other random choice becomes a given index.

## Model

| member | source | states |
|---|---|---|
| Calendar.ParseCsvLine | js/calendario.js:255-273 | the single pass with the `inQuotes` toggle returns exactly the fields between the commas that lie outside quotes, each trimmed and unquoted |
| Calendar.FieldCount | js/calendario.js:255-273 | a line has one field more than it has commas outside quotes, so never fewer than one field |
| Calendar.QuotedCommaKept | js/calendario.js:260-262 | after an opening quote and before the next quote every position is inside quotes, so no comma there separates fields |
| Calendar.InsideQuotesParity | js/calendario.js:260-261 | a position is inside quotes exactly when an odd number of `"` precede it |
| Calendar.SeparatorsIncreasing | js/calendario.js:262-266 | the field-ending commas are found in strictly increasing order |
| Calendar.SeparatorsComplete | js/calendario.js:262-266 | every comma outside quotes ends a field |
| Calendar.SeparatorCount | js/calendario.js:262-266 | one field is pushed per comma outside quotes |
| Calendar.FieldsAtSeparator | js/calendario.js:262-266 | a comma outside quotes pushes the trimmed, unquoted text since the previous separator and moves `startValue` past the comma |
| Calendar.FieldsPastCharacter | js/calendario.js:260-261 | a quote or any other non-separating character leaves `result` and `startValue` unchanged |
| Calendar.FieldsDone | js/calendario.js:269-271 | the text after the last separator becomes the final field |
| Calendar.Unquote | js/calendario.js:263-264 | the field is never longer than the trimmed text, and text without quotes is only trimmed |
| Calendar.UnquoteSpec | js/calendario.js:263-264 | a quoted value padded with any whitespace on either side comes back as written, inner quotes kept; text not both starting and ending with `"` is only trimmed |
| JsText.TrimPadded | js/calendario.js:263 | text starting and ending with a non-whitespace character comes back whole from `trim`, whatever whitespace surrounds it |
| Calendar.UnquotedLineIsSplit | js/calendario.js:255-273 | on a line without quotes the fields are those of `split(',')`, each trimmed |
| Calendar.SplitAtCommas | js/calendario.js:262-266 | listing exactly the commas of a line, in order, cuts it where `split(',')` does |
| Calendar.CommaPositionsShift | js/calendario.js:262-266 | the first listed comma is the first comma, and the later ones describe the text after it |
| Calendar.ParseCsv | js/calendario.js:234-253 | the events are those of the non-blank lines after the first, one per line with at least six fields |
| Calendar.EventOf | js/calendario.js:240-249 | an event takes the first six fields in order; `whatsapp` and `description` default to `''` when their columns are missing |
| Calendar.NonBlankSpec | js/calendario.js:235 | the line filter keeps exactly the lines that are not whitespace-only, never more lines than given |
| Calendar.NonBlankAppend | js/calendario.js:235 | filtering two runs of lines is filtering each and concatenating: the kept lines stay in order, repeats included |
| Calendar.NonBlankSingle | js/calendario.js:235 | a single line is kept exactly when it is not blank |
| Calendar.SheetEventsSpec | js/calendario.js:237 | the first remaining line is a header whatever it holds, and there is at most one event per data line |
| Calendar.RecordsAppend | js/calendario.js:237-251 | conversion works row by row: the events of two runs of rows are concatenated |
| Calendar.RecordsBound | js/calendario.js:237-251 | at most one event per row |
| Calendar.RecordsFromRows | js/calendario.js:238-250 | every event comes from one data line, as that line's only event |
| Calendar.RowWithSixFieldsKept | js/calendario.js:239 | every data line with at least six fields contributes its event |
| Calendar.EventTypeClass | js/calendario.js:163-170 | the class is one of the four type classes |
| Calendar.EventTypeClassSpec | js/calendario.js:163-170 | matching ignores case; tournament beats league beats journey; anything else, the empty type included, is `type-other` |
| Calendar.TournamentBeforeLeague | js/calendario.js:166-167 | a type naming both a league and a tournament is a tournament |
| Calendar.EventColor | js/calendario.js:226-232 | the colour is one of the four colours |
| Calendar.ColorIdentifiesClass | js/calendario.js:226-232 | two types share a colour exactly when they share a class, so the four colours are distinct |
| Calendar.MonthGrid | js/calendario.js:104-160 | the three loops append exactly the cells `GridCell` describes, `max(42, startDay + daysInMonth)` of them |
| Calendar.GridLayout | js/calendario.js:104-160 | 42 cells when the month fits; day `d` sits in cell `startDay + d - 1`; the leading padding ends with the previous month's last day; only days outside the month repeat; numbers count up by one except where a month starts |
| Calendar.DatePartsOfJoin | js/calendario.js:275-281 | a `d/m/y` text without further slashes gives back its three parts |
| Calendar.DateParts | js/calendario.js:275-282 | day, month and year are slash-free, and the text is exactly their join with `/` |
| Calendar.DatePartsExact | js/calendario.js:275-282 | the three parts are taken exactly when the text has two slashes; any other text goes to `new Date` whole |
| I18n.NormaliseLang | js/i18n.js:79-85 | the result is always `es` or `en` |
| I18n.NormaliseLangSpec | js/i18n.js:79-85 | the result is `en` exactly when the value is a string whose first two characters are `e`, `n` in either case; non-strings and the empty string give `es` |
| I18n.NormaliseLangPrefix | js/i18n.js:83-84 | only the first two characters matter |
| I18n.NormaliseLangIdempotent | js/i18n.js:83-84 | normalising a normalised language changes nothing |
| I18n.NormaliseLangExamples | js/i18n.js:79-85 | `EN-us` gives `en`; a lone `e` and a number give `es` |
| I18n.GetStoredLang | js/i18n.js:87-94 | nothing when storage is blocked or the item is absent or empty, else the normalised item |
| I18n.SetStoredLang | js/i18n.js:96-102 | only the normalised language is stored; blocked storage stays blocked |
| I18n.StoredLangRoundTrip | js/i18n.js:87-102 | a stored language reads back normalised, unless storage is blocked; storing twice is storing once |
| I18n.NavigatorLang | js/i18n.js:105 | the navigator's `language` when truthy, else its `userLanguage`; nothing without a navigator |
| I18n.DetectInitialLangSpec | js/i18n.js:104-107 | the stored language wins, then the navigator's `language \|\| userLanguage` when truthy, else `es`; storing `en` first makes it `en` unless storage is blocked |
| I18n.DetectInitialLang | js/i18n.js:104-107 | the result is always normalised |
| I18n.GetStrings | js/i18n.js:109-111 | one of the two defined tables is always returned |
| I18n.StringsCoverSameKeys | js/i18n.js:109-111 | the reduced four-key tables share their keys, so a lookup never depends on the language |
| Rounds.ClampRounds | js/MisionesMatched.js:68-74 | with a bound of at least 3 the result is always the decimal rendering of a count in `1..upper` |
| Rounds.ClampRoundsSpec | js/MisionesMatched.js:68-74 | text with no leading integer gives `'3'`; otherwise the parsed integer is clamped into `1..upper`; the result is always the decimal rendering of such an integer |
| Rounds.ClampRoundsDefault | js/MisionesMatched.js:69-71 | empty or unparsable text gives `'3'` |
| Rounds.ClampRoundsKeepsCount | js/MisionesMatched.js:73 | a count already in range is returned unchanged |
| Rounds.ClampRoundsIdempotent | js/MisionesMatched.js:68-74 | clamping a clamped value changes nothing |
| Rounds.RoundsTotal | js/MisionesMatched.js:443 | the number of rounds generated is between 1 and the bound |
| Rounds.RoundsTotalRendered | js/MisionesMatched.js:443 | that number is the clamped count, read back |
| Rounds.Stepped | js/MisionesMatched.js:537-544 | with a bound of at least 3 a step always lands on the decimal rendering of a count in `1..upper` |
| Rounds.SteppedSpec | js/MisionesMatched.js:537-544 | a step gives a count in `1..upper`: the parsed count plus or minus one, clamped, or `'3'` when the count is not a number |
| Rounds.SteppedDownAtOne | js/MisionesMatched.js:537-540 | decrementing `'1'` stays `'1'` |
| Rounds.SteppedUpAtTop | js/MisionesMatched.js:541-544 | incrementing the top count stays there |
| Rounds.ClassifyInput | js/MisionesMatched.js:564-573 | trimmed empty text clears the count; exactly one digit 1–6 is accepted as the count; anything else is rejected |
| Rounds.ClassifyInputValid | js/MisionesMatched.js:569-573 | an accepted count is valid; text of two or more characters is rejected; ` 4 ` is accepted as `4` and `7` rejected |
| Rounds.ClampRoundsValid | js/MisionesMatched.js:576-579 | a clamped count is always one digit 1–6 |
| Rounds.SteppedValid | js/MisionesMatched.js:537-544 | a stepped count is always one digit 1–6 |
| Rounds.ValidRoundsIsCount | js/MisionesMatched.js:443 | a valid non-empty count is already clamped |
| Rounds.Numbered | js/MisionesMatched.js:455-464 | only chosen missions get a badge, and every badge is in `1..total` |
| Rounds.NumberedSpec | js/MisionesMatched.js:455-464 | the badged missions are exactly the chosen ones, every badge is in `1..total`, and the last chosen mission has badge `total` |
| Rounds.NumberedDistinct | js/MisionesMatched.js:455-464 | with distinct missions, the mission at position `k` has badge `k + 1` and there are as many badges as missions |
| FisherYates.Shuffle | js/MisionesMatched.js:446-449 | the in-place loop leaves the array as the specified sequence of swaps makes it |
| FisherYates.ShuffleStepsPermutes | js/MisionesMatched.js:446-449 | every iteration keeps the elements, each as often as before |
| FisherYates.ShuffledPermutation | js/MisionesMatched.js:446-449 | a shuffle of distinct elements is a permutation of them, still distinct |
| FisherYates.ShuffledRange | js/MisionesMatched.js:444-449 | shuffling `0..n-1` gives every index once and nothing else |
| FisherYates.ShuffledPrefix | js/MisionesMatched.js:451 | the first `total` shuffled elements are distinct elements of the original |
| MisionesMatched.PoolsShape | js/MisionesMatched.js:10-17 | six pools of four missions |
| MisionesMatched.PoolsDisjoint | js/MisionesMatched.js:10-17 | no mission is listed twice |
| MisionesMatched.InAllMissions | js/MisionesMatched.js:210-231 | every pool mission has a button |
| MisionesMatched.ChosenPools | js/MisionesMatched.js:451 | the chosen pools are `total` distinct pool indexes |
| MisionesMatched.RoundMissionsFromPools | js/MisionesMatched.js:455-464 | round `k`'s mission is one of the missions of the pool chosen for round `k` |
| MisionesMatched.RoundMissionsDistinct | js/MisionesMatched.js:455-464 | missions drawn from distinct pools are distinct |
| MisionesMatched.GeneratedRounds | js/MisionesMatched.js:451-469 | `total` missions, each from its own pool, badged `1..total` in order, the last one badged `total` |
| MisionesMatched.DrawRounds | js/MisionesMatched.js:443-464 | shuffling the pool indexes in place, taking `total` and drawing one mission each gives the specified badges, and the last mission drawn |
| MisionesMatched.Dedup | js/MisionesMatched.js:95-104 | never more candidates than resolved addresses |
| MisionesMatched.DedupSpec | js/MisionesMatched.js:93-104 | the candidates hold every resolved address, only those, each once |
| MisionesMatched.DedupKeepsOrder | js/MisionesMatched.js:95-104 | the candidates keep the order of first occurrence |
| MisionesMatched.DedupOfDistinct | js/MisionesMatched.js:95-104 | addresses that are already distinct are all kept, in order |
| MisionesMatched.ResolvedHrefsFrom | js/MisionesMatched.js:95-99 | every address comes from a non-empty variant |
| MisionesMatched.CollectCandidates | js/MisionesMatched.js:93-105 | the `seen`-set loop yields the deduplication of the resolved non-empty variants |
| MisionesMatched.BuildPdfCandidates | js/MisionesMatched.js:84-105 | at most four distinct addresses, the resolved upper-cased `.pdf` name first |
| MisionesMatched.MissionsScreen.constructor | js/MisionesMatched.js:31-38 | the initial state: detected language, nothing selected, three rounds, no badges, one entry per mission |
| MisionesMatched.MissionsScreen.SetLang | js/MisionesMatched.js:474-478 | the language becomes the normalised value and is stored |
| MisionesMatched.MissionsScreen.Decrement | js/MisionesMatched.js:537-540 | the count steps down within `1..6` and the field shows it; nothing else changes |
| MisionesMatched.MissionsScreen.Increment | js/MisionesMatched.js:541-544 | the count steps up within `1..6` and the field shows it; nothing else changes |
| MisionesMatched.MissionsScreen.OnInput | js/MisionesMatched.js:563-574 | blank clears the count; a digit 1–6 becomes it; other text leaves the count and restores the field; the count stays valid |
| MisionesMatched.MissionsScreen.OnBlur | js/MisionesMatched.js:576-579 | the field's text clamped becomes the count and the field |
| MisionesMatched.MissionsScreen.PickRandomMission | js/MisionesMatched.js:430-440 | one of the missions is selected and the badges are cleared; with no entries nothing changes |
| MisionesMatched.MissionsScreen.GenerateRounds | js/MisionesMatched.js:442-472 | the badges number the missions drawn from the chosen pools, and the last one is selected |
| Matched2vs2.MissionsShape | js/Matched2vs2.js:10-17 | six distinct, named missions |
| Matched2vs2.ClampToMissions | js/Matched2vs2.js:63-69 | with bound `MISSIONS.length`: always a count 1–6, `'3'` for unparsable text, an in-range count kept |
| Matched2vs2.ShuffledMissions | js/Matched2vs2.js:261-265 | the shuffled copy is a permutation of `MISSIONS` |
| Matched2vs2.ChosenMissions | js/Matched2vs2.js:266 | the kept missions are `total` distinct missions of `MISSIONS` |
| Matched2vs2.GeneratedRounds | js/Matched2vs2.js:266-271 | `total` badges numbering the kept missions `1..total` in order; only missions are badged, the last kept has badge `total` |
| Matched2vs2.AllRoundsUseAllMissions | js/Matched2vs2.js:261-271 | asking for six rounds badges every mission |
| Matched2vs2.DrawMissions | js/Matched2vs2.js:261-272 | shuffling a fresh copy in place and numbering its first `total` entries gives the specified badges and the last kept mission |
| Matched2vs2.TwoVsTwoScreen.constructor | js/Matched2vs2.js:29-34 | the initial state: detected language, nothing selected, three rounds, no badges, one entry per mission |
| Matched2vs2.TwoVsTwoScreen.SetLang | js/Matched2vs2.js:321-325 | the language becomes the normalised value and is stored |
| Matched2vs2.TwoVsTwoScreen.Decrement | js/Matched2vs2.js:331-334 | the count steps down within `1..6` and the field shows it |
| Matched2vs2.TwoVsTwoScreen.Increment | js/Matched2vs2.js:335-338 | the count steps up within `1..6` and the field shows it |
| Matched2vs2.TwoVsTwoScreen.OnInput | js/Matched2vs2.js:357-368 | blank clears the count; a digit 1–6 becomes it; other text leaves the count and restores the field |
| Matched2vs2.TwoVsTwoScreen.OnBlur | js/Matched2vs2.js:370-373 | the field's text clamped to `1..MISSIONS.length` becomes the count and the field |
| Matched2vs2.TwoVsTwoScreen.PickRandomMission | js/Matched2vs2.js:247-257 | one of `MISSIONS` is selected and the badges are cleared |
| Matched2vs2.TwoVsTwoScreen.GenerateRounds | js/Matched2vs2.js:259-275 | the badges number the first clamped-count missions of the shuffled copy, and the last of them is selected |
| Matched2vs2.AttachListeners | js/Matched2vs2.js:327-381 | the listeners attached are the calls before the first one on a missing element, all on present elements |
| Matched2vs2.AsWrittenListeners | js/Matched2vs2.js:353 | as written, only the eleven registrations before `modalCard` are attached (the six mission buttons counted as one), and the rounds field's `input` and `blur` listeners are not |
| Matched2vs2.CorrectedListeners | js/Matched2vs2.js:187-204 | with `modalCard` copied into `elements`, every listener is attached |
| JsText.TrimSpec | js/calendario.js:263 | `trim` removes whitespace only, from both ends only, and leaves none at either end |
| JsText.TrimIdempotent | js/Matched2vs2.js:358 | trimming twice is trimming once |
| JsText.TrimEmptyIffBlank | js/calendario.js:235 | text trims to nothing exactly when it is all whitespace |
| JsText.LowerForgetsCase | js/calendario.js:165 | lower-casing forgets the case the text had |
| JsText.JoinSplit | js/calendario.js:277 | joining the pieces of `split` gives back the text |
| JsText.SplitJoin | js/calendario.js:277 | splitting a join of separator-free pieces gives back the pieces |
| JsText.SplitCount | js/calendario.js:277-278 | `split` gives one piece more than there are separators |
| JsText.ParseIntOfString | js/MisionesMatched.js:443 | `parseInt(String(n), 10)` is `n` |

## Findings

| source | as written | input that shows it | evidently intended | confidence | as-written member | corrected member |
|---|---|---|---|---|---|---|
| js/Matched2vs2.js:187-204, 353 | `buildLayout` does not copy `modalCard` into `elements`, so `elements.modalCard.addEventListener` throws and `initEventHandlers` stops there | loading the page: the rounds field's `input` and `blur` listeners (lines 357-373), the resize and Escape-key listeners are never attached, and the error escapes `initEventHandlers()` (called at line 387 outside any `try`), so `recalcSizes()` at line 388 never runs either; typing in the field never changes `state.rounds` | `modalCard` is listed in `elements`, as js/MisionesMatched.js:320 does, and every listener is attached | high; not executed | Matched2vs2.AsWrittenListeners | Matched2vs2.CorrectedListeners |

The screen model's `OnInput` and `OnBlur` are the listeners as intended.

## Left out

- DOM construction and rendering: `create`, `buildLayout`, `renderStrings`, `updateBadges`, `updateSelectedButton`, `applyDomTranslations`.
- Modal and UI plumbing: the modal, focus and history handling, `handleMissionClick`, `openPdfInModal`, `openEventModal`, `closeModal`, `recalcSizes`, `alert`. These are browser UI with no logic to state.
- Network I/O: `fetch` of the CSV, the PDF probing, and `videos.txt`.
- The `URL` constructor and `encodeURIComponent`: these are foreign calls, passed to `BuildPdfCandidates` as functions. `new URL` throwing on a bad address is not modelled.
- `Math.random`: replaced by injected indices.
- `Date` and `Intl.DateTimeFormat`: `startDay`, `daysInMonth` and `prevMonthLastDay` are parameters of the grid; `parseDate` is modelled up to the parts it hands to `new Date`.
- The filter of events by day and the "today" highlight: they depend on `Date`.
- `localStorage`: replaced by a `Storage` value, blocked or holding an optional item.
- js/main.js is not part of this model: it parses YouTube links with the browser `URL` class and builds video cards.
- The translation tables: reduced to four keys (`random`, `rounds`, `generate`, `back`); the other keys and the text of every string are left out.
- Strings are sequences of characters:
  - case mapping covers ASCII letters only;
  - UTF-16 code units and locale rules are not modelled.
- Numbers are unbounded integers:
  - `String(n)` of huge values (exponent notation) and floating point are not modelled;
  - NaN is represented as `None`.
- Rounds.RoundsTotal: `parseInt(clampRoundsValue(…))` is read through the model's own `ParseInt`, not a floating-point number.
- MisionesMatched.MissionsScreen.GenerateRounds: takes the number of rounds from the length of the injected mission draws, which its precondition equates with the clamped count.
- MisionesMatched.MissionsScreen.GenerateRounds: the guard `if (!missions.length)` cannot fail with the fixed pools of four missions, so it has no branch in the model. The `if (lastSelected)` guard is kept as a branch.
- Matched2vs2.DrawMissions: `selected[selected.length - 1] || ''` always finds a named mission, since at least one round is generated. The `|| ''` fallback is therefore not modelled; the last entry is returned as is.
- MisionesMatched.MissionsScreen.PickRandomMission: the `!missionEntries.size` guard is kept, although the entries are never empty. The same holds for Matched2vs2.TwoVsTwoScreen.PickRandomMission.
- Concurrency and event ordering: each handler is one atomic method call.
