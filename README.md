# Daily Quran Reflection Journal — a verified model of the renderer logic

The journal is a desktop-wrapped page with three views. The **Daily** view picks a
"surah of the day" from the date, shows its Arabic ayahs beside an English
translation, and lets the user save a reflection. The **All Surah** catalog lists
every surah and has a search box and a mood selector. The **History** view lists
the saved reflections and lets the user edit or delete them. Reflections live in
the browser's `localStorage`, one record per surah, under the key
`"daily_reflection_" + surahNumber`.

This project models the logic of `fetchdata.js` behind those views in Dafny:

- `daily.dfy` (`Daily`): `getDailySurahNumber`, with the clock as a parameter and
  JavaScript's truncating `%` written out.
- `html.dfy` (`Html`): `escapeHtml` as the three chained global replacements. An
  entity decoder is its partner, and the round trip is proved.
- `reading.dfy` (`Reading`): the daily page's ayah loop, which pairs Arabic ayah `i`
  with translation ayah `i` or with `''`.
- `catalog.dfy` (`Catalog`): the surah metadata, the `find` of the day's surah, the
  search and mood filters, and the catalog view whose two handlers always filter
  the full list.
- `reflections.dfy` (`Reflections`): the storage as a map from keys to records.
  Save, read with defaults, list, edit and delete are pure functions with lemmas,
  and `LocalStore` is a class whose methods change the map in place.
- `js_text.dfy` (`JsText`) and `options.dfy` (`Options`): the JavaScript string
  primitives the code relies on (`String(n)`, `toLowerCase`, `trim`, `includes`)
  and `undefined` as `None`.

The model follows the code as written, including these details:

- The mood option is `short`, not "quick".
- Before 2020-01-01 the daily number lies in [-112, 1]. It is 1 exactly on the days a multiple of 114 days before the start (the first is 2019-09-09), where `%` gives -0. On every other such day it names no surah.
- The daily page reads back only `ayahCompleted` and `reflection`.
- The history page parses every stored value without any guard.

## Model

| member | source | states |
|---|---|---|
| Daily.JsRem | fetchdata.js:32 | `%` is the truncating remainder: it has the dividend's sign, is smaller than the divisor in magnitude, and dividend = truncated quotient × divisor + remainder |
| Daily.DailySurahNumber | fetchdata.js:28-33 | the day's number is never above 114 and never below -112, for any clock value |
| Daily.DailyInRange | fetchdata.js:28-33 | from 2020-01-01 on, the number names a surah, 1 to 114 |
| Daily.DailyDependsOnlyOnDay | fetchdata.js:31-32 | from 2020-01-01 on (day `d >= 0`), every instant of day `d` gives surah `d mod 114 + 1`, so the choice depends on the day alone |
| Daily.DailyAdvancesEachDay | fetchdata.js:31-32 | from 2020-01-01 on, the next day shows the next surah, and 114 wraps to 1 |
| Daily.DailyPeriodic | fetchdata.js:31-32 | from 2020-01-01 on, the selection repeats every 114 days |
| Daily.DailyAcrossStart | fetchdata.js:31-32 | the cycle breaks across the start date: the day before 2020-01-01 gives 0 but 114 days later gives 114, and the day after 114 days before the start gives -112, not 2 |
| Daily.DailyBeforeStart | fetchdata.js:29-32 | before the start date the number lies in [-112, 1], and it is 1 exactly when the (negative) day count is a multiple of 114 |
| Daily.DailyBeforeStartExamples | fetchdata.js:29-32 | one millisecond before the start date the number is 0, 113 days before it is -112, and 114 days before it is 1 |
| Html.ReplaceAllAbsent | fetchdata.js:249-251 | a global replace of a character the string does not contain leaves the string unchanged |
| Html.EscapeHtml | fetchdata.js:246-252 | no contract; characterised by `EscapeHtmlSafe`, `EscapeIsPerCharacter` and `EscapeRoundTrip` |
| Html.EscapeHtmlSafe | fetchdata.js:246-252 | null/undefined give `""`, the output never contains a raw `<` or `>`, and text without `&`, `<`, `>` comes back unchanged |
| Html.EscapeIsPerCharacter | fetchdata.js:248-251 | because `&` is replaced first, the chain equals escaping each character on its own |
| Html.EscapeRoundTrip | fetchdata.js:246-252 | decoding `&amp;`, `&lt;`, `&gt;` in the escaped text gives back exactly the input |
| Html.EscapeInjective | fetchdata.js:246-252 | two different texts never escape to the same markup |
| Reading.RenderAyahs | fetchdata.js:61-69 | one row per Arabic ayah, carrying its number and its text as displayed; row `i` displays translation ayah `i` when it exists and is `""` past the end of a shorter translation |
| Reading.RowAt | fetchdata.js:62-67 | no contract; characterised by `RowAtDisplays` |
| Reading.RowAtDisplays | fetchdata.js:62-67 | once its entities are decoded, the row for position `i` shows the Arabic text and the translation text at `i`, or an empty translation past the end |
| Catalog.Filter | fetchdata.js:162-166 | `filter` keeps every copy of the accepted elements and nothing else, in their original order |
| Catalog.FindSurah | fetchdata.js:38 | `find` gives the first entry with the requested number (every earlier entry has another number), and `undefined` exactly when no entry has the number |
| Catalog.NormalizeQuery | fetchdata.js:161 | no contract; characterised by `SearchIgnoresCase`, `SearchIgnoresSurroundingSpace` and `SearchEmptyQueryKeepsAll` |
| Catalog.MatchesQuery | fetchdata.js:162-166 | no contract; characterised by `SearchSelects`, `SearchByLastDigit` and `SearchByNumberExamples` |
| Catalog.SearchFilter | fetchdata.js:160-167 | no contract; characterised by `SearchSelects` and the other search lemmas |
| Catalog.SearchSelects | fetchdata.js:160-167 | search keeps, in list order, exactly the surahs whose lower-cased English name, lower-cased native name or decimal number contains the trimmed, lower-cased query |
| Catalog.SearchIgnoresCase | fetchdata.js:161 | queries that differ only in ASCII letter case give the same result |
| Catalog.SearchIgnoresSurroundingSpace | fetchdata.js:161 | white space before or after the query does not change the result |
| Catalog.SearchEmptyQueryKeepsAll | fetchdata.js:161-166 | an empty or all-blank query shows the whole list |
| Catalog.SearchByLastDigit | fetchdata.js:165 | query `"2"` finds every surah whose number ends in 2 |
| Catalog.SearchByNumberExamples | fetchdata.js:162-166 | `"2"` finds surahs 2, 12 and 20 by their number and does not find surah 3 |
| Catalog.MoodFilter | fetchdata.js:171-179 | no contract; characterised by `MoodSelects`, `ShortWithinCalm` and `StudyExample` |
| Catalog.MoodSelects | fetchdata.js:171-179 | calm keeps exactly ≤6 ayahs, study ≥50, comfort lower-cased `meccan` with ≤20, short ≤3, all in list order; `""` or any other value shows the full list |
| Catalog.ShortWithinCalm | fetchdata.js:174-177 | the short selection is a sublist of the calm selection |
| Catalog.StudyExample | fetchdata.js:175 | "study" over ayah counts 7, 55, 3, 50 keeps exactly the surahs with 55 and 50 ayahs |
| Catalog.CatalogView.constructor | fetchdata.js:157 | the catalog opens on the full list |
| Catalog.CatalogView.OnSearchInput | fetchdata.js:160-168 | the shown list becomes the search result over the full list, whatever was shown before |
| Catalog.CatalogView.OnMoodChange | fetchdata.js:171-179 | the shown list becomes the mood result over the full list, so an active search is discarded, not composed |
| JsText.NatToString | fetchdata.js:165 | the digits of `String(n)` for `n >= 0`: a non-empty digit string whose last digit is `n mod 10` and which starts with `0` only for `n == 0` (no leading zeros) |
| JsText.DecimalRoundTrip | fetchdata.js:165 | `String(n)` can be parsed back to `n` |
| JsText.DecimalStringInjective | fetchdata.js:165 | different numbers have different decimal forms |
| Reflections.KeyFor | fetchdata.js:86 | the key starts with `daily_reflection_` and its suffix reads back as the surah number |
| Reflections.KeyForInjective | fetchdata.js:86 | different surahs never share a key |
| Reflections.SaveDaily | fetchdata.js:86-91 | no contract; characterised by `SaveThenRead`, `SaveLeavesOthers` and `SaveIsListed` |
| Reflections.DailyFields | fetchdata.js:52-54 | no contract; characterised by `SaveThenRead`, `ReadAbsentIsEmpty` and `RemoveThenRead` |
| Reflections.Lookup | fetchdata.js:221 | no contract; characterised by `LookupAfterOperations` |
| Reflections.Remove | fetchdata.js:210 | no contract; characterised by `RemoveExactlyOne` and `RemoveThenRead` |
| Reflections.CommitEdit | fetchdata.js:236-238 | no contract; characterised by `EditKeepsTheRest` |
| Reflections.SaveThenRead | fetchdata.js:86-91 | after a save the key holds exactly the saved record, and the daily page reads back the saved `ayahCompleted` and `reflection` |
| Reflections.SaveLeavesOthers | fetchdata.js:86-91 | a save changes no other key and no other surah's reflection |
| Reflections.SaveIsListed | fetchdata.js:184 | after a save the history lists the earlier reflection keys plus this one |
| Reflections.ReadAbsentIsEmpty | fetchdata.js:52-54 | a surah with no stored record reads as `""` for both fields |
| Reflections.RemoveExactlyOne | fetchdata.js:210 | a delete removes exactly the chosen key and leaves every other entry; deleting an absent key, or deleting twice, changes nothing |
| Reflections.LookupAfterOperations | fetchdata.js:221-238 | the history page's read finds a saved record whole, finds nothing after a delete, and finds the record with its two fields replaced after an edit |
| Reflections.RemoveThenRead | fetchdata.js:210 | after a delete the daily page shows empty fields for that surah |
| Reflections.EditKeepsTheRest | fetchdata.js:221-238 | an edit replaces `ayahCompleted` and `reflection`, keeps `date` and `surahNumber`, and touches no other key |
| Reflections.ConsistentOnePerSurah | fetchdata.js:86 | in a consistent store two different reflection keys hold records of different surahs: at most one reflection per surah |
| Reflections.OperationsKeepConsistent | fetchdata.js:86-91 | save, edit and delete keep every reflection stored under its own surah's key |
| Reflections.LocalStore.SaveReflection | fetchdata.js:83-91 | the store becomes the old store with the surah's key overwritten by the new record, and it stays consistent |
| Reflections.LocalStore.ReadDaily | fetchdata.js:52-54 | gives exactly `DailyFields` of the current store, so `SaveThenRead`, `ReadAbsentIsEmpty` and `RemoveThenRead` describe what it returns |
| Reflections.LocalStore.HistoryKeys | fetchdata.js:184-188 | lists every key that starts with `daily_reflection_` and no other key, each once; the list is empty exactly when no reflection is stored |
| Reflections.LocalStore.Delete | fetchdata.js:207-212 | the store becomes the old store without the chosen key |
| Reflections.LocalStore.ReadForEdit | fetchdata.js:221 | gives exactly `Lookup` of the current store: the stored record, or nothing when the key is absent |
| Reflections.LocalStore.SaveEdit | fetchdata.js:233-238 | writes the snapshot taken at Edit, with the two new field values, under its key |
| Reflections.LocalStore.Edit | fetchdata.js:217-240 | a stored record gets its two fields replaced and the store stays consistent; a key with nothing stored fails and changes nothing |

## Left out

- Every network call is left out: `loadSurahList` with its in-memory `surahData` cache, and the Arabic and translation fetches from the Quran text API (fetchdata.js:13-25, 43-50, 134-136). The fetched surah list and ayah arrays are parameters instead.
- The error paths of those fetches are left out. They replace the view with an error message. A missing translation `data` property is one such path; the model takes the translation array as given.
- DOM building, `innerHTML` templates, event wiring, `alert`, `confirm` and the edit button's clone trick are left out. They are UI. `Reading.RenderAyahs` produces the rows, not the HTML string around them.
- The clock and `Date` are left out. `Daily.DailySurahNumber` takes the signed milliseconds since 2020-01-01T00:00Z. The save's date is the ISO date string passed in.
- `JSON.stringify` and `JSON.parse` are left out. The storage holds records directly.
- Reflections.LocalStore.HistoryKeys: malformed JSON under a reflection key is not modelled. The history page would throw on it.
- Reflections.LocalStore.ReadDaily: malformed JSON and values that are not strings are not modelled. The daily page's `savedData.x || ''` handles only records with string fields here.
- Html.EscapeHtml: takes a string or `undefined`/`null`. The `String(str)` conversion of numbers and other values is not modelled.
- `toLowerCase` is modelled for ASCII letters only. `trim` uses the full JavaScript white-space set by code point. JavaScript strings are UTF-16 code units, while Dafny characters are Unicode scalar values.
- Reflections.LocalStore.HistoryKeys: the key order is left unspecified, as `Object.keys(localStorage)` leaves it.
- Clicking a catalog entry to load its ayahs, and "Back to List", are left out (fetchdata.js:131-152). They are a network fetch followed by re-rendering the full list.
- JsText.DecimalString: integers are unbounded, and `String(n)` is modelled only for |n| < 10^21. From 10^21 on, JavaScript switches to exponent notation. Surah numbers are far below that bound.
- `main.js` is not part of this model. It is the Electron window lifecycle.
