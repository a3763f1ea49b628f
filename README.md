# Animal ETL: a verified model

This project models the "animals" ETL system in Dafny. The system has three parts.

- **The server** (`app/animal_api.py`; `server-app/animal_api.py` is the same file) generates `TOTAL_PAGES * 10` animals at start-up. It serves them page by page at `GET /animals/v1/animals?page=p` and one by one at `GET /animals/v1/animals/{id}`. It accepts up to 100 animals at a time at `POST /animals/v1/home`. With `VERIFY=1`, that endpoint ticks each posted id off a set.
- **The asynchronous client** (`poc-ETL-2/main.py`):
  - walks the listing pages until `page >= total_pages`;
  - fetches every animal's details;
  - transforms each record: the comma-joined `friends` become a list, and the epoch-millisecond `born_at` becomes an ISO 8601 UTC string with a `Z` suffix;
  - posts the results in slices of 100, making up to 5 attempts per slice, retrying on 500/502/503/504.
- **The synchronous service** (`poc-ETL-1/animal_startup/service.py`; the `poc-ETL-1-initial-idea` copy is the same file):
  - accumulates transformed records and flushes every batch that reaches 100, then flushes the remainder;
  - pauses on transient errors and re-raises all others (reading the status from the error's response, see "Left out");
  - uses `AnimalDetail.transform` (`poc-ETL-1-initial-idea/animal_startup/models.py`), which overwrites the record's own fields.

Modules:

- `Wrappers`, `Wire`: `Option`, the `Reply` of an HTTP request (a body, an error status or a network error) and the wire records.
- `Text`: Python's `str.split` and `str.join` for one separator character, and their round trips.
- `CivilTime`: `utcfromtimestamp(...).isoformat()` for whole seconds. The conversion uses integer civil-from-days arithmetic. It is proved inverse to `DaysFromCivil`, consistent with the calendar day by day, and readable back by `ParseIso`.
- `Batching`: slicing into batches of 100, and the facts that let an accumulate-and-flush loop be shown to cut the same batches.
- `Etl2`: the asynchronous client.
  - `TransformAnimal` is a function.
  - `FetchAnimals`, `PostAnimalsBatch`, `TransformDetails`, `PostInBatches` and `Run` are methods with the source's loops.
  - Each endpoint is a function from the request (page, id or attempt number) to its answer.
- `Etl1Models`: the mutating `AnimalDetail.transform`, as a class and as a function on its fields.
- `Etl1Service`: `AnimalService` as a class.
  - `postCalls` counts repository calls, a ghost `pauses` records every sleep and a ghost `handed` every batch given to `_post_batch`.
  - `load_animals` (its loop as `LoadEach`, the body of the loop as `LoadOne`, the last flush as `FlushRest`), `_post_batch` and `_handle_error` are methods.
- `AnimalApi`: the server model.
  - `generate_animals` is a loop over given random draws, and `get_animals` / `get_animal` are functions.
  - `receive_animals` is a method on a class that holds the verify set.
- `EndToEnd`: the clients run against the server model.
  - Pagination collects every animal once, in id order, in `TOTAL_PAGES` requests.
  - No slice of 100 is refused with 400; with `VERIFY=1` a slice can still be answered 500.
  - Generated friends survive the trip.

Python semantics written out explicitly:

- truthiness of `None`, `0` and `""`;
- negative slice and list indices;
- `"".split(",") == [""]`.

## Model

| member | source | states |
|---|---|---|
| Wire.Reraise | poc-ETL-2/main.py:40 | A failed request propagates with its kind kept: an error status stays that status, a network error stays a network error |
| Text.Split | poc-ETL-2/main.py:63 | `split` always gives at least one piece, so `"".split(",")` is `[""]` |
| Text.Join | app/animal_api.py:59 | The joined string starts with the first part, and the separator follows it when more parts come |
| Text.SplitLength | poc-ETL-2/main.py:63 | `split(",")` gives one piece more than there are commas |
| Text.JoinSplit | poc-ETL-2/main.py:63 | Joining the pieces with the separator gives back the input, so order is kept and nothing is trimmed |
| Text.SplitSeparatorFree | poc-ETL-2/main.py:63 | No piece contains the separator |
| Text.SplitJoin | app/animal_api.py:59 | A non-empty list of separator-free names that is joined and then split comes back unchanged |
| Text.SplitPiece | poc-ETL-2/main.py:63 | A separator-free prefix glues onto the first piece of the rest |
| Text.SplitExample | poc-ETL-final-code/test_main.py:46-57 | `"Tiger,Elephant"` splits into `["Tiger", "Elephant"]` |
| CivilTime.NextDay | poc-ETL-2/main.py:67 | The next calendar day is a valid date in the same year, or 1 January of the next year |
| CivilTime.YearOfEraBounds | poc-ETL-2/main.py:67 | The year found for a day of a 400-year era holds that day |
| CivilTime.YearOfEraUnique | poc-ETL-2/main.py:67 | A day of an era lies in exactly one year of the era |
| CivilTime.StartOfYearStep | poc-ETL-2/main.py:67 | Consecutive years of an era follow each other without gap or overlap (365 or 366 days) |
| CivilTime.MonthOfYearBounds | poc-ETL-2/main.py:67 | The month found for a day of a March-based year holds that day |
| CivilTime.LeapYearShift | poc-ETL-2/main.py:67 | Shifting a year by whole 400-year eras keeps whether it is a leap year |
| CivilTime.MarchDateValid | poc-ETL-2/main.py:67 | Every day of a March-based year is a valid date of that year at that offset |
| CivilTime.MarchDateOfDate | poc-ETL-2/main.py:67 | Every valid date is recovered from its offset in its March-based year |
| CivilTime.MarchFirstStep | poc-ETL-2/main.py:67 | 1 March of the next year follows the last day of the March-based year |
| CivilTime.EraDateValid | poc-ETL-2/main.py:67 | Each day of an era is a valid date, in the right year and at the right offset |
| CivilTime.CivilFromDays | poc-ETL-2/main.py:67 | Every day number gives a valid calendar date |
| CivilTime.DaysFromCivilOfCivilFromDays | poc-ETL-2/main.py:67 | Counting the days back from the computed date gives the day number |
| CivilTime.CivilFromDaysOfDaysFromCivil | poc-ETL-2/main.py:67 | A valid date is recovered from its day number |
| CivilTime.DateInEra | poc-ETL-2/main.py:67 | A valid date is the day of its 400-year era that its day number gives |
| CivilTime.CivilFromDaysOfEra | poc-ETL-2/main.py:67 | The day number of a day of an era converts to that day |
| CivilTime.DaysFromCivilNextDay | poc-ETL-2/main.py:67 | The next calendar day has the next day number |
| CivilTime.CivilFromDaysEpoch | poc-ETL-2/main.py:67 | Day 0 is 1970-01-01, in both directions |
| CivilTime.CivilFromDaysSucc | poc-ETL-2/main.py:67 | Day `z + 1` is the calendar day after day `z`, which with the epoch pins the conversion to the calendar |
| CivilTime.CivilFromDaysExample | poc-ETL-2/main.py:67 | Day 19158 is 2022-06-15 |
| CivilTime.TimeOfDay | poc-ETL-2/main.py:67 | A second of the day splits into an hour, minute and second in range, which add back up to it |
| CivilTime.UtcFromTimestamp | poc-ETL-2/main.py:67 | Every timestamp converts to a valid date and time that denotes that timestamp |
| CivilTime.UtcFromTimestampOf | poc-ETL-2/main.py:67 | Every valid UTC date and time converts back from its timestamp |
| CivilTime.CivilFromDaysYearNonNegative | poc-ETL-2/main.py:67 | Days from 0000-03-01 on fall in years 0 and later |
| CivilTime.Decimal | poc-ETL-2/main.py:67 | A zero-padded number has exactly the given width and only digits |
| CivilTime.ParseDecimalOfDecimal | poc-ETL-2/main.py:67 | Reading a zero-padded decimal gives back the number |
| CivilTime.ParseDecimal | poc-ETL-2/main.py:67 | A string is read exactly when it is all digits, and its value fits in that many digits |
| CivilTime.DecimalOfParseDecimal | poc-ETL-2/main.py:67 | A string of digits is the zero-padded rendering of its value at its own width |
| CivilTime.IsoFormat | poc-ETL-2/main.py:67 | `isoformat()` is 19 characters with `-`, `-`, `T`, `:`, `:` at positions 4, 7, 10, 13, 16 |
| CivilTime.IsoFormatExample | poc-ETL-2/main.py:67 | 2022-06-15 20:00:00 renders as `2022-06-15T20:00:00` |
| CivilTime.ParseIsoOfIsoFormat | poc-ETL-2/main.py:67 | Parsing the rendering gives back the date and time |
| CivilTime.ParseIso | poc-ETL-2/main.py:67 | Whatever is read back is a valid date and time with a four-digit year |
| CivilTime.ParseIsoFields | poc-ETL-2/main.py:67 | An accepted string has its separators in place and each field read from its own digits |
| CivilTime.IsoFormatOfParseIso | poc-ETL-2/main.py:67 | Whatever is read back renders as the same string, so rendering and reading are inverse both ways |
| CivilTime.UtcIsoFormat | poc-ETL-2/main.py:67 | The UTC rendering of a timestamp is 19 characters |
| CivilTime.IsoTimestampOfUtcIsoFormat | poc-ETL-2/main.py:67 | The rendered string denotes exactly the instant it was rendered from |
| CivilTime.UtcIsoFormatExample | poc-ETL-2/main.py:67 | 1655323200 s renders as `2022-06-15T20:00:00` |
| Batching.ConcatAppend | poc-ETL-2/main.py:114-116 | Putting batches back together distributes over appending batch lists |
| Batching.ConcatCons | poc-ETL-2/main.py:114-116 | A first batch comes first when the batches are put back together |
| Batching.Chunks | poc-ETL-2/main.py:114-115 | There are no slices exactly when there are no records |
| Batching.ChunksConcat | poc-ETL-2/main.py:114-116 | The slices of 100, put back together, are the input in order |
| Batching.ChunksWellCut | poc-ETL-2/main.py:114-116 | Every slice holds 1 to 100 records, and all but the last hold exactly 100 |
| Batching.ChunksCount | poc-ETL-2/main.py:114-116 | `n` records give `ceil(n / 100)` slices |
| Batching.ChunksOfFullBatches | poc-ETL-1/animal_startup/service.py:20-29 | Full batches followed by a shorter remainder are exactly the slices of their concatenation, the remainder counted only when non-empty |
| Batching.Drop | poc-ETL-2/main.py:114-115 | The records from index `i` on: `|xs| - i` of them, or none past the end |
| Batching.ChunksStep | poc-ETL-2/main.py:114-116 | The slices from index `i` are `xs[i:i + 100]` followed by the slices from `i + 100` |
| Etl2.SplitFriends | poc-ETL-2/main.py:63 | The list is empty exactly for a falsy `friends`; otherwise it has one name more than there are commas, joins back to the input, and no name holds a comma |
| Etl2.RenderBornAt | poc-ETL-2/main.py:66-69 | Present exactly for a truthy `born_at`; then 20 characters ending in `Z`, whose first 19 denote `born_at / 1000` seconds |
| Etl2.TransformAnimal | poc-ETL-2/main.py:61-76 | `id` and `name` are copied; `friends` and `born_at` are as for `SplitFriends` and `RenderBornAt` |
| Etl2.TransformAnimalExample | poc-ETL-final-code/test_main.py:41-57 | Lion, born 1655323200000 with friends `"Tiger,Elephant"`, becomes `2022-06-15T20:00:00Z` and `["Tiger", "Elephant"]` |
| Etl2.RenderBornAtExample | poc-ETL-final-code/test_main.py:45-56 | 1655323200000 ms renders as `2022-06-15T20:00:00Z` |
| Etl2.FirstStopExists | poc-ETL-2/main.py:37-49 | If some page stops the loop, there is a first such page |
| Etl2.FirstStop | poc-ETL-2/main.py:37-49 | The last page requested is the first that fails or has `page >= total_pages`, and every page before it succeeded and went on |
| Etl2.Collected | poc-ETL-2/main.py:44-49 | Every item of every page collected so far is in the collected list |
| Etl2.Fetched | poc-ETL-2/main.py:33-51 | `fetch_animals` returns exactly when every page it requested came back |
| Etl2.FetchAnimals | poc-ETL-2/main.py:33-51 | Requests pages 1 to `FirstStop` consecutively, then returns their items in page order or reraises its failure, with no retry |
| Etl2.ConstantTotalPages | poc-ETL-2/main.py:47-49 | With the same `total_pages` T on every page, the loop stops at page `max(T, 1)`: T requests for T ≥ 1 |
| Etl2.AttemptsFrom | poc-ETL-2/main.py:82-97 | From attempt `j` on, the attempts made run up to the first one not retried, and never past 5 |
| Etl2.AttemptsFromValue | poc-ETL-2/main.py:82-97 | The attempt count is the first attempt not retried, or 5 |
| Etl2.PostAnimalsBatch | poc-ETL-2/main.py:79-97 | See the breakdown below |
| Etl2.TransformedAll | poc-ETL-2/main.py:107-111 | One transformed record per summary, in order |
| Etl2.TransformedAllStep | poc-ETL-2/main.py:108-111 | One more summary appends its transformed record |
| Etl2.TransformDetails | poc-ETL-2/main.py:107-111 | Succeeds exactly when every detail request does, and then yields `TransformedAll` |
| Etl2.Shift | poc-ETL-2/main.py:113-116 | The answers seen by a batch begun at attempt `start` are those of the loop from `start` on |
| Etl2.NextStart | poc-ETL-2/main.py:113-116 | The next batch begins 1 to 5 attempts after the one before |
| Etl2.PostedWithoutNetworkErrors | poc-ETL-2/main.py:113-116 | Without network errors the loop hands over all `ceil(n / 100)` slices and does not fail |
| Etl2.PostInBatches | poc-ETL-2/main.py:113-116 | See the breakdown below |
| Etl2.Run | poc-ETL-2/main.py:100-119 | A failed fetch or detail posts nothing and is logged; otherwise the posting loop does what `PostInBatches` states on the transformed records |
| Etl1Models.TransformStep | poc-ETL-1-initial-idea/animal_startup/models.py:13-17 | `id`, `name` and `species` never change; a returned dict equals the fields afterwards |
| Etl1Models.TransformFresh | poc-ETL-1-initial-idea/animal_startup/models.py:14-17 | On a fresh record: succeeds; `friends` becomes the pieces, joining back to the string, one more than its commas; a `datetime` becomes its UTC string; `None` stays |
| Etl1Models.TransformEmptyFriends | poc-ETL-1-initial-idea/animal_startup/models.py:16 | `""` becomes `[""]` |
| Etl1Models.TransformTwiceFails | poc-ETL-1-initial-idea/animal_startup/models.py:13-17 | After a successful `transform`, a second one raises |
| Etl1Models.AnimalDetail.constructor | poc-ETL-1-initial-idea/animal_startup/models.py:6-11 | A new record holds a `datetime` or `None` and a friends string |
| Etl1Models.AnimalDetail.Transform | poc-ETL-1-initial-idea/animal_startup/models.py:13-17 | The result and the new fields are those of `TransformStep` on the old fields, including the fields changed before an `AttributeError` |
| Etl1Service.FailureOf | poc-ETL-1/animal_startup/service.py:38-41 | The exception of a failed request carries its status, or is a network error |
| Etl1Service.Kept | poc-ETL-1/animal_startup/service.py:14-26 | No more records are kept than there are animals |
| Etl1Service.KeptPrefix | poc-ETL-1/animal_startup/service.py:14-26 | The kept records of a prefix of the animals are a prefix of all kept records |
| Etl1Service.KeptAll | poc-ETL-1/animal_startup/service.py:14-18 | When every detail comes back, every record is kept, in order |
| Etl1Service.AnimalService.constructor | poc-ETL-1/animal_startup/service.py:8-9 | A new service has made no calls, no pauses and handed over no batch |
| Etl1Service.AnimalService.HandleError | poc-ETL-1/animal_startup/service.py:43-49 | Raises exactly for a non-transient status; otherwise records one pause of 5 to 15 s |
| Etl1Service.AnimalService.PostCalls | poc-ETL-1/animal_startup/service.py:32-41 | The calls `_post_batch` makes: one more after each transient status, none after any other answer, at most `RETRY_LIMIT`, and at least one when `RETRY_LIMIT >= 1` |
| Etl1Service.AnimalService.PostCallsTransient | poc-ETL-1/animal_startup/service.py:33-41 | Every call of one `_post_batch` but the last got a transient status |
| Etl1Service.AnimalService.PostCallsRetryThenRaise | poc-ETL-1/animal_startup/service.py:33-49 | With `RETRY_LIMIT = 2`, a 503 then a 404 give two calls and an exception |
| Etl1Service.AnimalService.PostCallsSuccessStops | poc-ETL-1/animal_startup/service.py:35-37 | With `RETRY_LIMIT = 1`, a first success gives one call and no exception |
| Etl1Service.AnimalService.PostBatch | poc-ETL-1/animal_startup/service.py:31-41 | See the breakdown below |
| Etl1Service.AnimalService.KeptOne | poc-ETL-1/animal_startup/service.py:16-18 | One animal keeps at most one record, and none exactly when its details did not come back |
| Etl1Service.AnimalService.LoadOne | poc-ETL-1/animal_startup/service.py:15-26 | See the breakdown below |
| Etl1Service.AnimalService.LoadEach | poc-ETL-1/animal_startup/service.py:14-26 | See the breakdown below |
| Etl1Service.AnimalService.LoadAnimals | poc-ETL-1/animal_startup/service.py:11-29 | See the breakdown below |
| Etl1Service.AnimalService.StepShape | poc-ETL-1/animal_startup/service.py:15-26 | One step from a batch that is not full hands over nothing, or exactly the batch grown by the animal's record when it reaches 100; without an exception the records are all in the flush and the new batch |
| Etl1Service.AnimalService.LoadStepAfter | poc-ETL-1/animal_startup/service.py:15-26 | A step hands over the same batches whatever was handed over before |
| Etl1Service.AnimalService.LoadedStep | poc-ETL-1/animal_startup/service.py:14-26 | The loop over one more animal is one more step |
| Etl1Service.AnimalService.LoadedAborted | poc-ETL-1/animal_startup/service.py:14-26 | Once an exception is raised, the later animals change nothing |
| Etl1Service.AnimalService.FlushRest | poc-ETL-1/animal_startup/service.py:28-29 | After the loop, a non-empty remainder is posted only when nothing was raised; the exception, batches and calls become exactly those of `LoadAll` |
| Etl1Service.AnimalService.LoadAllStops | poc-ETL-1/animal_startup/service.py:28-29 | A loop that raised or left an empty remainder ends `load_animals` with nothing more posted |
| Etl1Service.AnimalService.LoadAllFlushes | poc-ETL-1/animal_startup/service.py:28-29 | A loop that left a non-empty remainder without raising ends with that remainder flushed |
| Etl1Service.AnimalService.FlushIs | poc-ETL-1/animal_startup/service.py:28-29 | A `_post_batch` call with the exact call count and exception of `PostCallsFrom`/`FlushFails` is the reference `Flush` |
| Etl1Service.AnimalService.LoadAllMeans | poc-ETL-1/animal_startup/service.py:11-29 | Any outcome equal to `LoadAll` has the properties of `LoadAllBatches` and `LoadAllCalls`, stated on the outcome itself |
| Etl1Service.AnimalService.LoadedBatches | poc-ETL-1/animal_startup/service.py:14-26 | Without an exception, the full batches handed over and the batch being filled make up the kept records; with one, the batches handed over are a well-cut prefix of them |
| Etl1Service.AnimalService.LoadedCalls | poc-ETL-1/animal_startup/service.py:14-26 | At least one `post_animals` call per batch handed over, and none with a fatal answer unless the loop raised |
| Etl1Service.AnimalService.LoadedRaised | poc-ETL-1/animal_startup/service.py:14-26 | The loop raises when some detail fails fatally, and otherwise only on a fatal answer to the last `post_animals` call |
| Etl1Service.AnimalService.LoadedFacts | poc-ETL-1/animal_startup/service.py:14-26 | The facts of `LoadedBatches`, `LoadedCalls` and `LoadedRaised` together |
| Etl1Service.AnimalService.FlushFacts | poc-ETL-1/animal_startup/service.py:28-29 | The last flush hands the remainder over after the other batches, makes the calls of `_post_batch`, and raises exactly when its last answer is fatal |
| Etl1Service.AnimalService.LoadAllBatches | poc-ETL-1/animal_startup/service.py:11-29 | All batches handed over are well cut and a prefix of the kept records; without an exception they are exactly its slices of 100 |
| Etl1Service.AnimalService.LoadAllCalls | poc-ETL-1/animal_startup/service.py:11-29 | `load_animals` raises when a detail fails fatally, and otherwise only on a fatal answer to its last `post_animals` call; without an exception no call got one |
| Etl1Service.AnimalService.LoopStep | poc-ETL-1/animal_startup/service.py:14-22 | One animal processed without an exception keeps "flushed batches plus the current batch are the records kept so far", with all flushed batches full |
| Etl1Service.AnimalService.KeptStep | poc-ETL-1/animal_startup/service.py:15-18 | The kept records grow by one animal's record at a time |
| Etl1Service.AnimalService.AbortPrefix | poc-ETL-1/animal_startup/service.py:21-26 | What was flushed before an abort is well cut and a prefix of the kept records |
| Etl1Service.FinalFlush | poc-ETL-1/animal_startup/service.py:28-29 | Full batches and the non-empty remainder are the slices of 100 of the kept records |
| Etl1Service.AppendConcat | poc-ETL-1/animal_startup/service.py:18-22 | Appending a flush keeps "flushed plus batch" equal to the records so far |
| Etl1Service.AbortConcat | poc-ETL-1/animal_startup/service.py:20-26 | The batches handed over before an abort are the kept records before the animal, with or without its own |
| Etl1Service.AppendFull | poc-ETL-1/animal_startup/service.py:20-22 | Only full batches are flushed inside the loop |
| Etl1Service.FullBatchesWellCut | poc-ETL-1/animal_startup/service.py:20-22 | Full batches are well cut |
| AnimalApi.Picked | app/animal_api.py:59 | As many names as indices drawn, each the name at its index |
| AnimalApi.GenerateAnimals | app/animal_api.py:44-63 | `TOTAL_PAGES * 10` animals with ids equal to their positions; `born_at` present exactly when the roll is 1 and then in `[536461200000, now]`; a name from the list; friends the comma-join of the drawn names |
| AnimalApi.PickedDistinct | app/animal_api.py:59 | With distinct names in the list, an animal's friends are at most five distinct names |
| AnimalApi.SliceIndex | app/animal_api.py:73 | A Python slice index: in range it is itself, negative counts from the end, past either end it is clamped to the length or to 0 |
| AnimalApi.PySlice | app/animal_api.py:73 | A slice is never longer than the list |
| AnimalApi.Strip | app/animal_api.py:74 | The summary keeps id, name and `born_at` and drops friends |
| AnimalApi.GetAnimals | app/animal_api.py:70-79 | Echoes `page`, always reports `TOTAL_PAGES`, and returns at most 10 items |
| AnimalApi.GetAnimalsPage | app/animal_api.py:70-74 | Page `1 ≤ p ≤ TOTAL_PAGES` holds exactly the 10 animals with ids `10(p-1) ..`, in order and without friends |
| AnimalApi.GetAnimalsOutside | app/animal_api.py:71-73 | A page past `TOTAL_PAGES`, or page 0, is empty |
| AnimalApi.GetAnimalsNegative | app/animal_api.py:71-73 | A negative page counts from the end, as negative slice indices do |
| AnimalApi.GetAnimal | app/animal_api.py:82-84 | Succeeds exactly for `-len ≤ id < len`, with Python indexing; otherwise answers 500 |
| AnimalApi.GetAnimalById | app/animal_api.py:82-84 | For `0 ≤ id < len` the animal served has that id |
| AnimalApi.Ids | app/animal_api.py:92-93 | The ids of the posted body, in order |
| AnimalApi.BeforeCons | app/animal_api.py:92-93 | The first `j + 1` ids are the first id and the first `j` of the rest |
| AnimalApi.DistinctCons | app/animal_api.py:92-93 | Ids are distinct exactly when the first does not recur and the rest are distinct |
| AnimalApi.AllInCons | app/animal_api.py:92-93 | When the first id does not recur, all ids are in the set exactly when the first is and the rest are in the set without it |
| AnimalApi.RemoveEach | app/animal_api.py:92-93 | Removing ids one by one only ever shrinks the set |
| AnimalApi.RemoveEachOk | app/animal_api.py:91-94 | Every removal succeeds exactly when the ids are distinct and all in the set; then the set loses exactly those ids and shrinks by their number |
| AnimalApi.RemoveEachFails | app/animal_api.py:92-93 | A failed removal keeps the earlier removals, and the id that failed is absent |
| AnimalApi.Api.constructor | app/animal_api.py:14-66 | `TOTAL_PAGES` is in `[500, 600]`; the verify set is the set of ids of the animals given when `VERIFY` is on |
| AnimalApi.Api.ReceiveAnimals | app/animal_api.py:87-95 | More than 100 animals answer 400 and change nothing; without `VERIFY` the answer is the count; with it, the set is what the removals leave, and the answer is the count only if every removal succeeded, else 500 |
| EndToEnd.CollectedFromServer | app/animal_api.py:70-74 | Pages `1..p` of the server hold its first `10p` animals, in order |
| EndToEnd.FetchFromServer | poc-ETL-2/main.py:33-51 | Against the server, `fetch_animals` makes `TOTAL_PAGES` requests and returns every animal once, ids ascending |
| EndToEnd.DetailsFromServer | app/animal_api.py:82-84 | The server serves the details of every listed animal, each with the listed id |
| EndToEnd.BatchesAdmitted | app/animal_api.py:89-90 | No slice of 100 is refused with 400 |
| EndToEnd.FriendsRoundTrip | poc-ETL-2/main.py:63 | ETL-2 recovers any joined list of comma-free names except `[""]` |
| EndToEnd.FriendsRoundTripLoses | poc-ETL-2/main.py:63 | `[""]` joins to `""` and comes back as `[]` |
| EndToEnd.GeneratedFriendsRoundTrip | app/animal_api.py:59 | The friends generated from comma-free, non-empty names come back through ETL-2 as the names drawn, in order |
| EndToEnd.EmptyFriendsContrast | poc-ETL-1-initial-idea/animal_startup/models.py:16 | No friends: ETL-2 gives `[]` where ETL-1 gives `[""]` |
| EndToEnd.Etl1FriendsRoundTrip | poc-ETL-1-initial-idea/animal_startup/models.py:16 | ETL-1 recovers a joined list of comma-free names exactly when the list is non-empty |

Breakdown of the longer contracts above:

- `Etl2.PostAnimalsBatch`:
  - It makes 1 to 5 attempts, and every attempt before the last was retried.
  - It ends `Posted` exactly on a 2xx answer.
  - It ends `Rejected` exactly on a non-transient status, and carries that status.
  - It ends `Unbound` exactly when the first attempt is a network error.
  - It ends `Exhausted` exactly after 5 retried attempts.
  - There is one wait of 3 to 30 s per retry.
- `Etl2.PostInBatches` (`starts[k]` is the attempt at which batch `k` begins):
  - The batches handed over are a prefix of the slices of 100.
  - The first batch begins at attempt 0, and each next one right after the attempts `post_animals_batch` made for the one before.
  - No batch but the last met a network error on its first attempt.
  - The loop fails exactly when the last batch met one, so a failure always follows at least one batch.
  - Without a failure, every slice was handed over.
- `Etl1Service.AnimalService.PostBatch`:
  - The batch is logged as handed over.
  - With `RETRY_LIMIT >= 1` it makes at least one call.
  - It makes at most `RETRY_LIMIT` repository calls, and every call before the last got a transient status.
  - It raises exactly when the last answer is fatal, and raises that answer's error.
  - If it neither raises nor uses up the limit, the last call succeeded.
  - If it does not raise, none of its calls got a fatal answer.
  - There is one pause per transient failure.
  - The number of calls is exactly `PostCallsFrom` of the first call, the count given by `PostCalls`.
- `Etl1Service.AnimalService.LoadOne`:
  - The record is appended; a batch reaching 100 is handed to `_post_batch` and reset.
  - A fatal detail error raises that error, before any batch is handed over.
  - A transient detail error pauses once and skips the animal; the batch stays as it was.
  - Calls of `post_animals` are made only when a batch is handed over.
  - Any other exception comes from a fatal answer to the last `post_animals` call.
  - Without an exception, no `post_animals` call it made got a fatal answer.
  - The exception, the new batch, the batch handed over and the number of calls are exactly those of `LoadStep`, the reference step of the loop.
- `Etl1Service.AnimalService.LoadEach` and `LoadAnimals`:
  - The exception, the batches handed over and the number of `post_animals` calls are exactly those of `Loaded` (the loop) and `LoadAll` (the loop and the last flush). These reference functions fold `LoadStep` over the animals. So whether `load_animals` raises, and after how many calls, is fixed by the detail and post answers.
  - The batches handed over (`flushed`) are exactly those logged in `handed`, well cut, and together a prefix of the kept records.
  - A fatal detail error raises.
  - An exception comes from a fatal detail answer or from a fatal answer to the last `post_animals` call.
  - Conversely, a fatal answer to any `post_animals` call they made means an exception.
  - With `RETRY_LIMIT >= 1`, there are at least as many `post_animals` calls as batches handed over.
  - Without an exception, the batches are exactly the slices of 100 of the kept records (for `LoadEach`: full batches, and the batch still being filled).
  - Every pause lasts 5 to 15 s.

## Left out

- HTTP, JSON, asyncio, real sleeps, the clock, `random`, `print` and logging. Each endpoint is a function from the request to its answer. Sleeps are ghost durations kept in the range of the `random` call. Random draws, `TOTAL_PAGES` and `now` are parameters in their ranges. Logging is reflected only in the `failed` flag and the outcome kind.
- The server's `chaos_middleware` (with path `/` exempt), reading `animals.json`, and FastAPI routing. The clients take any answer, so chaos answers are covered by the endpoint functions.
- Pydantic validation and coercion. `TransformedAnimal.born_at` is declared as a `datetime`, which would coerce the string built at `poc-ETL-2/main.py:67`. The model keeps the string that line builds. It has no 422 answer.
- `poc-ETL-1*/animal_startup/repository.py` is not part of this model. Its `fetch_all_animals` has no exit other than an exception, so the service model takes the listed summaries as input. `fetch_animal_details` and `post_animals` are the `details` and `postAnswer` functions.
- AnimalApi.GetAnimals: takes `page` always; the endpoint's default `page = 1` (`app/animal_api.py:70`) is not modelled, since `fetch_animals` always sends a page.
- `fetch_animal_detail` (`poc-ETL-2/main.py:54-58`) is the `detail` function: one request, no retry.
- `utils.transform_animal` and `RETRY_LIMIT` are not part of this model. The service takes them as parameters, without the `NameError` an undefined `RETRY_LIMIT` gives.
- `astimezone(pytz.UTC).isoformat()` in `models.py:15` is a parameter `utcIso`: the local time zone it reads a naive `datetime` in is not modelled.
- Etl2.RenderBornAt: requires `ConvertibleBornAt`, the whole-second range described on the next line.
- Etl2.TransformAnimal: requires `Convertible(d)`. The conversion is modelled only for `born_at` values that are whole seconds (`% 1000 == 0`), from 1970 up to the end of year 9999. Python writes a `.ffffff` fraction for other values, passes them through float division, and raises beyond year 9999.
- Etl2.Run: inherits that requirement as `AllConvertible`. It also requires `Terminates`: some page stops the loop, because otherwise `fetch_animals` never returns.
- Etl2.FetchAnimals: requires `Terminates` for the same reason.
- Exceptions inside `transform_animal` and `utils.transform_animal` are not modelled, because both are total here.
- The `RETRY_WAIT_TIME` comment at `poc-ETL-2/main.py:16` says 5 to 15 seconds. The code uses `[3, 30]`, and the model follows the code.
- The code retries no page, hands no exhausted batch to a recovery worker and gives 422 no special case. An exhausted batch is dropped with a log line, and 422 is an ordinary non-transient status.
- Etl1Service.AnimalService.HandleError: reads the status the code evidently means. As written, `error.status_code` at `poc-ETL-1/animal_startup/service.py:44` is read from an `httpx.HTTPStatusError`, which keeps the status on `error.response`, so every status error would raise `AttributeError` there and end `load_animals` before any pause.
- `LoadEach` is the `for` loop of `load_animals` and `FlushRest` its lines 28-29, split out so that each method's proof stays small; `LoadAnimals` calls the two in turn.
- The two `test_main.py` files are used only for the transform example.
