# A verified model of uSched

uSched is a command scheduler. A client reads sentences such as `run 'backup' on hour 3 then every 1 day`,
compiles them into schedule entries and sends the entries to a daemon. The daemon authorizes each request, keeps
the entries in an active pool backed by a timer library, writes the pool to disk, and hands the commands that are
due to an executer. The executer reports through a statistics service back to the daemon.

The project models five parts of this system in Dafny and proves what they promise, for every input and every run.

| part | files |
|---|---|
| time arithmetic | `Calendar`, `NextOccurrence`, `AlignedStep`, `Reload` |
| request language | `Language`, `Numbers`, `RequestArg`, `Tokenizer`, `Parser`, `Logic`, `Compile`, `Recurrence`, `IdLists`, `Client` |
| codecs and rewriting | `Bytes`, `Entries`, `GetReply`, `DiskCodec`, `Wire`, `Replace`, `Vars`, `Templates` |
| daemon | `Auth`, `Pool`, `PoolRuns`, `Messages`, `Scheduler`, `Protocol`, `Daemon`, `Session`, `Requests`, `Durability`, `Restart`, `Occurrences` |
| statistics, users | `Stats`, `Users` |

`Arithmetic` holds lemmas on division, `Limits` the ranges of the C types, `Wrappers` the optional value.
Check everything with `dafny verify dfyconfig.toml`.

## How the model is built

- Code that updates objects in place is a class or a method with loops, proved against a function on values:
  `Scheduler` refines the functions of `Pool`, `Daemon` those of `Protocol`, `Directory` those of `Users`. What
  every run keeps is then proved about the functions.
- Each such function is then tied to something that does not mention it. Units are tied to the calendar
  (`Compile.Elapsed`), what is stored, removed and listed to what the user typed (`Client`, `Requests`), messages to
  the entries they are about (`Messages`), a reload to when entries run next (`Restart.Back`), and records to the
  executions they report (`Stats.EntryShowsLast`).
- The host is little-endian. Words are unbounded numbers with their range stated; wrap-around is written out
  (`% U32`).
- `localtime_r()` and `mktime()` are the proleptic Gregorian calendar with a constant offset from UTC. `mktime()`
  takes its fields out of range as section 7.27.2.3 of ISO/IEC 9899:2011 describes; its value on UTC is proved
  equal to the formula in section 4.16 of the POSIX.1-2017 Base Definitions.
- Foreign code is a parameter: the cipher with the law that decryption undoes encryption under the same key and
  counter (`Wire.Sound`), the digest (`Pool.Lawful`), the id hash, `strptime()`, peer credentials, the key exchange.
- The timer library is a map from identifiers to (trigger, step, expire). A fire advances the trigger by the step,
  or drops the record if it has no step or the new trigger reaches the expiry. Identifiers are never used twice.
- A header is well formed if it names exactly one operation, sets no daemon flag, has its result fields zeroed and
  announces a payload that is longer than what the cipher adds and shorter than 2^32 - 1, as the official client
  sends it (`Protocol.WellFormed`). The loop that should clear daemon flags has the bound 3 and the start 9, so it
  clears none (`Protocol.UnsetFlagsBelow`).
- The serialization file is read as records up to its end; that is the contract taken for the list library.
- Allocation, arming, and complete reads and writes succeed.

## Where the code does less than one would expect

Each of these is proved as an exact condition under which the code keeps its promise.

- `on day 29`, `30` or `31` lands in the wrong month when the month that is picked lacks the day
  (`NextOccurrence.LeastIffNameable`, `DayThirtyOneOverflows`).
- `every n months` drifts once to another day of the month when a month lacks the day
  (`AlignedStep.AlignedIffMonthHasDay`, `DayChangesAtMostOnce`), and loses its count when n * 2592000 does not fit
  32 bits (`MonthsRecovered`, `MonthsLost`).
- A monthly entry moved back by a reload steps back by 30 days, not by a month. It keeps its day of the month exactly
  when the place where it lands leads to that day (`Reload.ReloadKeepsDayIff`, `AlignedReloadDrifts`).
- A phrase whose last character is a backslash never closes (`Tokenizer.TokenizePrinted`).
- Saving a pool does not truncate the file. It comes back exactly when the file was not longer before; deleting the
  last entries and saving brings them back (`DiskCodec.SavedOverIff`, `DeletedComeBack`).
- The client loses its place in a listing after an entry with an empty subject (`GetReply.ReplyRoundTrip`). No request
  can store one; only a serialization file made by hand can (`Session.ListingMeans`).
- The size check on a NEW header lets a size through that wraps the sum (`Protocol.HeaderFitsIff`).
- `@@id@@` and `@@username@@` may be left in a command, for instance for every local user, whose name is empty
  (`Vars.AllExpandedIffCleanName`).
- With no handler left to signal, the serializer sleeps on a mark exactly when a handler gave up on that mark, and
  then writes nothing until the next request (`Durability.AsleepOnMarkIff`, `WrittenIff`, `AbandonedSleeps`).
- A refused change of a user drops its staged file, and adding the user then empties the file in effect without a
  commit (`Users.ChangeCoversIff`, `RefusedChangeUncovers`); a change before the first commit leaves the user
  without an effective file (`ChangePairsIff`).
- A command that is killed by a signal counts as a success: only an exit code other than 0 counts as a failure
  (`Stats.FailsIff`).
- A message size of at most 80 bytes makes every execution report fail, and no other does (`Stats.GetsThroughIff`).

## Model

| member | source | states |
|---|---|---|
| `Calendar.LocalTimeThenMkTime` | src/usd/schedule.c:406-424 | Converting an instant to civil fields and back gives the instant, for every instant and offset. |
| `Calendar.MkTimeThenLocalTime` | src/usd/schedule.c:406-424 | Converting in-range civil fields to an instant and back gives the fields: day numbers and civil dates are in bijection. |
| `Calendar.MkTimeIsPosix` | src/usd/schedule.c:406-424 | The recursive month count behind `mktime()` equals the closed POSIX formula for seconds since the Epoch. |
| `NextOccurrence.LeastIffNameable` | src/usc/parse.c:92-195 | For second, minute, hour, day, month and weekday the computed instant is the least one strictly after now that matches with smaller fields zeroed, if and only if the value is in range and, for days, the picked month has the day. |
| `NextOccurrence.DayThirtyOneOverflows` | src/usc/parse.c:111-115 | "on day 31" said on 31 January 2015 lands on 3 March. |
| `NextOccurrence.YearTarget` | src/usc/parse.c:128-133 | "on year" reaches the first second of that year, which lies ahead exactly if the year does. |
| `NextOccurrence.WeekTarget` | src/usc/parse.c:116-121 | "on week" reaches midnight of the last day of that week of this year, or of the next one if the week has passed. |
| `RequestArg.BumpFields` | src/usc/parse.c:94-133 | The field-bumping code returns the distance to that instant, and it is the least match exactly for nameable values. |
| `RequestArg.ResolveWeekday` | src/usc/parse.c:170-188 | A weekday name wins over a number, numbers 1 to 7 name the days from Sunday on, anything else is refused. |
| `RequestArg.ParseRequestArg` | src/usc/parse.c:54-198 | The whole argument evaluation, with units, alignment flags, refusals, a stale errno and the four absolute forms, equals the value its preposition and adverb name; `Compile.JobFulfilled` says what those values mean. |
| `RequestArg.TimeIsLeast` | src/usc/parse.c:147-169 | "on time" gives the least instant at or after now showing that clock time, if and only if it does not name a leap second. |
| `AlignedStep.MonthsLaterFields` | src/usd/schedule.c:406-414 | n months later is the same day and time of day n months on, or the missing days into the month after, for every day, n and offset. |
| `AlignedStep.AlignedIffMonthHasDay` | src/usd/schedule.c:406-414 | A month step keeps day and time exactly when the month it goes to has the day. |
| `AlignedStep.YearAlignedIff` | src/usd/schedule.c:416-424 | A year step keeps month, day and time exactly when it does not carry 29 February into a common year. |
| `AlignedStep.ForwardIffSomeMonths` | src/usd/schedule.c:406-424 | A month step strictly increases the instant exactly when it is at least one month. |
| `AlignedStep.RepeatedStaysAligned` | src/usd/schedule.c:372-376 | k steps of n months move the month index by exactly k * n and keep day and time, for days up to 28. |
| `AlignedStep.DayChangesAtMostOnce` | src/usd/schedule.c:372-376 | Over any number of updates the day of the month changes at most once. |
| `AlignedStep.DayAfterIs` | src/usd/schedule.c:372-376 | The day of the month after k steps, for every day: the first month that lacks the day decides for good. |
| `AlignedStep.StepMonthsExact` | src/usd/schedule.c:372-376 | The 32-bit update reaches the calendar instant whenever that fits, and moves forward exactly for steps of a month or more. |
| `AlignedStep.StepYearsExact` | src/usd/schedule.c:372-376 | The same for years. |
| `AlignedStep.UpdatesExact` | src/usd/schedule.c:372-376 | k 32-bit updates are the k-fold month step while it fits. |
| `AlignedStep.YearUpdatesExact` | src/usd/schedule.c:372-376 | k 32-bit year updates are the k-fold step of twelve n months while it fits. |
| `AlignedStep.RepeatedYearsIff` | src/usd/schedule.c:416-424 | k steps of n years keep month, day and time exactly off 29 February or when every year met is a leap year. |
| `AlignedStep.EveryMonths` | src/usd/schedule.c:372-376 | From the client's word to the k-th update: exactly k * n months, same day, same time. |
| `AlignedStep.EveryYears` | src/usd/schedule.c:372-376 | From the client's word to the k-th update of "every n years": same month, day and time, exactly off 29 February or when every year met is a leap year. |
| `AlignedStep.MonthsRecovered` | src/usc/parse.c:78-85 | The daemon's division recovers the client's count of months exactly when its step fits 32 bits. |
| `AlignedStep.YearsRecovered` | src/usc/parse.c:78-85 | The same for years. |
| `AlignedStep.MonthsLost` | src/usc/parse.c:78-85 | "every 1658 months" arrives as a step of no month. |
| `Reload.ForwardAdvances` | src/usd/marshal.c:313-323 | Every turn of the forward loop strictly increases the trigger and stays in a word, so the loop ends. |
| `Reload.StepBack` | src/usd/marshal.c:297-302 | The backward loop ends at the first value below now, a whole number of steps back, at the landing computed in closed form. |
| `Reload.BackwardFitsIff` | src/usd/marshal.c:297-302 | The backward loop meets a value below now before it wraps around exactly when the remainder of the trigger by the step is one. |
| `Reload.StepForward` | src/usd/marshal.c:313-323 | The forward loop ends past now after the least number of plain or aligned steps. |
| `Reload.CatchUp` | src/usd/marshal.c:297-323 | A triggered plain entry ends at a value congruent to its saved trigger modulo its step in (now, now + step]; an aligned one at the first aligned step past now, counted from its trigger or, if it was moved back, from its landing. |
| `Reload.SettledUnique` | src/usd/marshal.c:297-323 | That value is unique, for plain and aligned entries. |
| `Reload.SettledIdempotent` | src/usd/marshal.c:297-323 | A second pass at the same time changes nothing, unless an aligned entry is too far ahead again. |
| `Reload.ActivePool.Rearm` | src/usd/marshal.c:292-341 | Over the whole pool: settled entries are kept in order, expired and past ones dropped, and every one re-armed lies after now and before its expiry. An entry without a step is kept with its trigger exactly if that lies ahead and before the expiry, a recurring one exactly if its settled trigger lies before the expiry. |
| `Reload.ReloadedIdempotent` | src/usd/marshal.c:292-341 | Two reloads of a pool without aligned entries end where one does. |
| `Reload.ReloadKeepsDayIff` | src/usd/marshal.c:297-323 | An aligned entry that is moved back keeps its day of the month exactly when its landing has the day, for landings up to day 28, and exactly when the months stepped over carry the landing's day to it, for later ones. |
| `Reload.AlignedReloadDrifts` | src/usd/marshal.c:297-323 | An aligned entry due 1 April 2015, reloaded on 1 March, is set to 3 March. |
| `Language.PrepSpelling` | src/usc/parse.c:216-233 | A word is looked up as a preposition exactly when it spells it, up to case. |
| `Language.ConjSpelling` | src/usc/parse.c:275-289 | The same for conjunctions. |
| `Language.AdverbSpelling` | src/usc/parse.c:235-273 | The same for adverbs in singular and plural. |
| `Numbers.StrtolOfDecimal` | src/usc/parse.c:54-76 | `strtol()` reads a printed decimal back in full and without error. |
| `Tokenizer.Extend` | src/usc/parse.c:604-616 | Every later concatenation fits its reallocation, exactly once the argument is not empty. |
| `Tokenizer.Begin` | src/usc/parse.c:594-602 | The first word without its quotes fills its allocation exactly. |
| `Tokenizer.ReadQuoted` | src/usc/parse.c:594-619 | The inner loop collects a quoted argument up to the first word that closes it, or finds that none does. |
| `Tokenizer.Tokenize` | src/usc/parse.c:575-647 | The loop over the words that strtok_r() yields returns the arguments, quoted words joined by single spaces. |
| `Tokenizer.TokenizePrinted` | src/usc/parse.c:575-647 | Tokenizing a printed list of plain words and quoted phrases returns the list, if and only if no phrase ends in a backslash. |
| `Parser.ParseComplete` | src/usc/parse.c:291-444 | Every sentence of the grammar that keeps the conjunction and preposition rules is accepted and elaborated. |
| `Parser.ParseSound` | src/usc/parse.c:291-444 | Everything accepted is such a sentence. |
| `Parser.ParseIff` | src/usc/parse.c:291-538 | The mutually recursive parser accepts exactly those word lists, with exactly that result; it stops on fewer words and never reads past the end. |
| `Parser.ParsePrinted` | src/usc/parse.c:291-538 | Parsing the printed words of a sentence gives it back, exactly when it keeps the rules and its arguments evaluate. |
| `Parser.SpellsUnique` | src/usc/parse.c:291-538 | No word list spells two sentences. |
| `Compile.JobsPrinted` | src/usc/parse.c:291-444 | The clauses of any jobs print as the words a user writes: now, in n units, on adverb value, then every n units, until to adverb value, while in n units, and. |
| `Logic.CompileOne` | src/usc/logic.c:138-225 | One turn of the loop accepts exactly a sentence P [then every S] [until to E or while in W], consumes it, and yields trigger, step, expiry and flags of its denotation. |
| `Logic.ProcessRun` | src/usc/logic.c:126-230 | The whole loop yields the meaning of the request list, or refuses it. |
| `Logic.SentencesIff` | src/usc/logic.c:126-230 | A list is read as sentences exactly when it is the flattening of proper sentences. |
| `Logic.MeaningIff` | src/usc/logic.c:126-230 | A list is accepted with given schedules exactly when it flattens sentences that denote them and does not start with "every". |
| `Logic.OneEntryPerAnd` | src/usc/logic.c:126-230 | There is one entry more than there are "and"s. |
| `Compile.JobFulfilled` | src/usc/logic.c:126-230 | The denotation of a job's sentence has the trigger, step, expiry, relative and alignment flags that the job asks for; counted units are told by the calendar: n days later at the same time of day, n weeks later on the same weekday. |
| `Compile.CompileCorrect` | src/usc/parse.c:575-647 | Printing any jobs as a command and running tokenizer, parser and logic pass gives the subject and one schedule per job that fulfils it, with starts and ends in counted units, fields, weekday names, times of day, dates, datetimes and timestamps. |
| `Compile.AbsoluteIff` | src/usc/parse.c:134-141 | A date, datetime or timestamp is refused exactly if it has gone by or cannot be read. |
| `Recurrence.MonthlyRuns` | src/usc/parse.c:78-81 | From the text "every n months" to the k-th update in the daemon: the step is read as n months exactly if it fits the word, and the trigger then moves by k * n months, with day and time kept for days up to 28. |
| `Recurrence.YearlyRuns` | src/usc/parse.c:82-85 | From the text "every n years" to the k-th update: same month, day and time, exactly off 29 February or when every year met is a leap year. |
| `Recurrence.PlainRuns` | src/usc/parse.c:73-77 | For seconds to weeks, k steps of the daemon are k * n units by the calendar, exactly if a step fits the word. |
| `IdLists.ProcessIds` | src/usc/logic.c:248-275 | The loop over the fields of a stop or show request reads every field as a hexadecimal id, gives up at the first that is none or 0, and takes "all" for 0. |
| `IdLists.IdsOfPrinted` | src/usc/logic.c:248-275 | A printed list of ids is read back, exactly when none of them is 0. |
| `Client.RunTyped` | src/usc/logic.c:138-225 | A run command queues one new entry per job, with the schedule the job asks for, the claimed account, and the subject with its NUL. |
| `Client.IdsTyped` | src/usc/logic.c:232-390 | A stop or show command queues one request with its flag and exactly the typed ids, or is refused if one is 0. |
| `Client.AllTyped` | src/usc/logic.c:248-255 | "stop all" asks for the id that stands for all. |
| `Client.TypedWellFormed` | src/usc/entry.c:48-73 | Whatever is typed, the queued headers are well formed in the sense the daemon is proved for. |
| `Client.RunIsStored` | src/usd/process.c:47-121 | Once the daemon serves the k-th job of a typed command, the pool holds an entry that fulfils that job, with the typed text, the proved account and a timer with its three times, under the id that the client reads. |
| `Client.StopIsDone` | src/usd/process.c:143-253 | A typed stop removes exactly those of the ids that the user owns, with their timers, and the client reads which, in order. |
| `Client.ShowIsDone` | src/usd/process.c:279-479 | A typed show is read back as exactly those of the ids that the user owns and that can be listed, in order, and changes nothing. |
| `Bytes.HtonLayout` | include/conn.h:42-58 | Converting a word to network order lays it out highest byte first, and converting twice is the identity, for every width. |
| `Bytes.Htonll` | include/conn.h:46-58 | Swapping the two converted halves in place is that conversion for 64 bits. |
| `Bytes.HtonAllLayout` | src/usd/process.c:427-446 | Converting a record field by field and copying it out gives its network image; converting again gives the record. |
| `Bytes.LoadOfImage` | src/usd/entry.c:500-531 | Loading a packed record from its memory image gives its fields. |
| `Bytes.FlagsRoundTrip` | src/common/entry.c:104-114 | A set of flag numbers survives the trip through its 32-bit word. |
| `GetReply.AsciiIff` | src/common/str.c:106-112 | The check on a subject accepts exactly strings of ASCII characters. |
| `GetReply.CopyOut` | src/usd/process.c:412-452 | One entry in the reply: converted words, output, user name, subject size, subject and NUL. |
| `GetReply.EncodeReply` | src/usd/process.c:365-479 | The loop encodes exactly the requested entries that are active, owned, printable and consistent, in request order, behind their count. |
| `GetReply.DecodePayload` | src/usc/process.c:409-474 | The client's loop with its running offset is the recursive decoder. |
| `GetReply.DecodeOneBack` | src/usc/process.c:438-474 | What the decoder makes of one encoded entry, for good, empty and non-ASCII subjects. |
| `GetReply.ReplyRoundTrip` | src/usc/process.c:409-474 | The client recovers every transmitted field of every entry in order and consumes exactly the encoded bytes, if and only if every subject is a non-empty ASCII text. |
| `DiskCodec.File.Store` | src/usd/entry.c:386-472 | A removed entry is skipped, any other written as one record at the file position, over what is there, and marked. |
| `DiskCodec.File.StoreAll` | src/usd/marshal.c:201-252 | The file then starts with the records of the pool in order, and keeps what was longer before behind them. |
| `DiskCodec.LoadAt` | src/usd/entry.c:474-593 | Whatever the bytes, a record that loads carries the signature recomputed from it and is marked serialized. |
| `DiskCodec.File.LoadAll` | src/usd/marshal.c:263-289 | The loop loads every record in order or fails at the first refused one. |
| `DiskCodec.LoadRecordIff` | src/usd/entry.c:474-593 | A stored entry comes back with its persistent fields, subject and output prefix if and only if its stored signature is the recomputed one, and is refused otherwise. |
| `DiskCodec.FileRoundTripIff` | src/usd/entry.c:386-593 | The records of any pool give back its non-removed entries if and only if each is correctly signed. |
| `DiskCodec.SavedOverIff` | src/usd/marshal.c:201-252 | A signed pool saved over an older file is read back exactly when the older file was not longer. |
| `DiskCodec.DeletedComeBack` | src/usd/marshal.c:201-252 | Saving a pool without its last entries leaves the file as it was, so that a reload brings them back. |
| `DiskCodec.PersistentTwice` | src/usd/entry.c:386-593 | Saving what was loaded and loading it again loses nothing more. |
| `Replace.ReplaceOne` | src/common/str.c:34-84 | One replacement at the first occurrence from an offset fills the computed length exactly; none if the needle is empty or absent. |
| `Replace.StrReplAll` | src/common/str.c:90-104 | The loop equals left-to-right substitution on the original text, never rescans inserted text, and yields nothing exactly when there is nothing to replace. |
| `Replace.ReplaceRemovesAll` | src/common/str.c:90-104 | Replacing a variable by text that has no pair of at-signs, none at its end, and is no part of "@name" leaves no occurrence of it. |
| `Replace.ReplaceMakesNone` | src/common/str.c:90-104 | Nor does such a replacement of another variable create one. |
| `Vars.ReplaceAllVars` | src/usd/vars.c:114-173 | The seven-step chain is the composition of the substitutions, and yields nothing exactly when the command mentions no variable. |
| `Vars.NumbersAllExpanded` | src/usd/vars.c:64-173 | No @@uid@@, @@gid@@, @@trigger@@, @@step@@ or @@expire@@ is left, whatever the user name and command. |
| `Vars.CleanNameExpandsAll` | src/usd/vars.c:44-173 | For a name that is not empty, does not end in an at-sign and is part of neither "@id" nor "@username", none of the seven is left. |
| `Vars.AllExpandedIffCleanName` | src/usd/vars.c:44-173 | For names without a pair of at-signs, every command is expanded in full if and only if the name is of that kind. |
| `Templates.PassPrints` | src/usd/vars.c:40-42 | One replacement pass over a text with separated variables replaces that variable everywhere and touches nothing else. |
| `Templates.MeantDenotes` | src/usd/vars.c:44-112 | What is put in for a variable reads back as the field of that name: the id in sixteen hexadecimal digits, the numbers in decimal, the user name as it is. |
| `Templates.ExpansionMeans` | src/usd/vars.c:114-173 | For every command whose variables are set apart by blanks and every user name without an at-sign, the seven passes yield the text with each variable replaced by what denotes its own field. |
| `Wire.IdsBack` | src/usd/process.c:170-172 | An id list written in network order is read back. |
| `Wire.ConvertIds` | src/usd/process.c:155-172 | The in-place conversion loop reads the id list. |
| `Wire.FrameIs` | src/usd/process.c:464-487 | The framed reply announces its own length, size word included. |
| `Wire.RepliesBack` | src/usc/process.c:236-342 | The client reads back the new id and the list of deleted ids. |
| `Auth.Authorize` | src/usd/entry.c:82-162 | A request is authorized exactly when its claim fits the peer (equal credentials locally, the reserved ids, a user record and a verified key exchange remotely) and the lists permit the account, a non-empty blacklist deciding alone; it then carries that account. |
| `Auth.PolicyIff` | src/usd/entry.c:127-151 | The lists permit an account exactly if it is on no blacklist and, where only a whitelist is given, on it, for user and group alike. |
| `Pool.CreatedKeeps` | src/usd/schedule.c:94-151 | Creating an entry keeps the invariant of pool and timers. |
| `Pool.DeletedKeeps` | src/usd/schedule.c:282-332 | So does deleting one. |
| `Pool.UpdatedKeeps` | src/usd/schedule.c:334-404 | An update brings an entry back in line with its timer, re-arms it with an aligned trigger, or removes it when the timer is gone. |
| `Pool.FiredKeeps` | src/usd/entry.c:196-384 | A dispatch keeps the invariant; its guard against unauthorized entries never fires. |
| `Pool.NotedKeeps` | src/usd/stat.c:62-88 | Recording a result keeps it. |
| `Pool.ExactlyOneTimer` | src/usd/schedule.c:94-151 | A valid active entry has exactly one armed timer, with its trigger, step and expiry. |
| `Pool.RunKeeps` | src/usd/schedule.c:94-404 | Over every run of creations, deletions, dispatches and reports: ids are non-zero and distinct, valid entries have their one agreeing timer, timers have their entry, and all entries are signed, authorized and permitted. |
| `Pool.FirstOwned` | src/usd/process.c:193-218 | The answer to a deletion lists exactly the listed ids that the user owns. |
| `Pool.DeletedAllExact` | src/usd/process.c:193-218 | A DEL removes exactly those entries with their timers and reports each once in request order, for any list with repeats, unknown and foreign ids. |
| `Pool.FirstOwnedDistinct` | src/usd/process.c:193-218 | No id is reported twice. |
| `PoolRuns.StepIsolates` | src/usd/schedule.c:282-332 | A step for one user neither adds, alters nor removes an entry of another, nor its timer. |
| `PoolRuns.RunIsolates` | src/usd/schedule.c:94-404 | Over any run without a step of its own, a user's entries and timers stay as they are. |
| `PoolRuns.SelectedOwned` | src/usd/process.c:377-401 | A listing holds exactly the requested entries visible to the user, all of them the user's own. |
| `PoolRuns.FiredSends` | src/usd/entry.c:258-298 | A dispatch sends at most one message, for that entry, and only on the verdict to send. |
| `PoolRuns.FireAdvances` | src/usd/schedule.c:334-404 | A fire that keeps a valid entry moves its trigger by one step, in seconds or in calendar months or years, and keeps step and expiry. |
| `PoolRuns.StaysIff` | src/usd/entry.c:326-384 | An entry stays after a fire exactly when its timer does or it is invalid. |
| `PoolRuns.LastFire` | src/usd/entry.c:326-384 | When the timer is dropped, no timer is left for the entry, and it leaves the pool unless it is or becomes invalid. |
| `PoolRuns.SentAtMostOnce` | src/usd/entry.c:326-384 | However a run goes, a valid entry without a step is sent at most once until its id is given out again, and has then left the pool. |
| `Messages.TextIs` | src/usd/entry.c:258-260 | A subject is taken as its bytes up to the NUL. |
| `Messages.FireSendsIff` | src/usd/entry.c:208-298 | A fire sends a message exactly if the entry is within its tolerance, valid and short enough and the delivery succeeds; the message has the id, user, group and trigger of that entry, of an account the lists permit, and its command with that entry's own values filled in. |
| `Messages.FireInvalidatesIff` | src/usd/entry.c:270-284 | A fire makes a valid entry invalid exactly if it is on time and its expanded command is too long. |
| `Messages.FireKeepsJob` | src/usd/entry.c:196-206 | A fire changes nothing of an entry that stays but its timing and flags, and marks it triggered. |
| `Messages.RunsAgainIff` | src/usd/entry.c:326-384 | After a fire a valid entry stays exactly if it has a step and the step ends before its expiry. |
| `Messages.MessagesOfRun` | src/usd/entry.c:196-384 | Every message of every run was sent by a delivered fire of its own entry, as that entry was then, when it was due. |
| `Occurrences.FiresMove` | src/usd/schedule.c:334-404 | Through any number of fires that an entry survives, its trigger moves one step at a time, in seconds, months or years, with step, expiry and alignment kept. |
| `Occurrences.MonthlyOccurs` | src/usd/schedule.c:372-376 | An entry that fulfils a job "every n months" has moved, after k fires, by k * n months with its day, up to 28, and time of day. |
| `Occurrences.YearlyOccurs` | src/usd/schedule.c:372-376 | After k fires of "every n years": the same month, day and time, exactly off 29 February or when every year met is a leap year. |
| `Occurrences.PlainOccurs` | src/usd/schedule.c:394-398 | After k fires of any other period: k * n units on by the calendar. |
| `Scheduler.Scheduler.Create` | src/usd/schedule.c:94-151 | The search loop takes the first hash that is non-zero and free; the entry is signed, armed and inserted. |
| `Scheduler.Scheduler.OwnershipDelete` | src/usd/schedule.c:282-332 | One deletion happens exactly for a finished entry of that user with a timer. |
| `Scheduler.Scheduler.DeleteList` | src/usd/process.c:193-218 | The request loop is the fold of those deletions. |
| `Scheduler.Scheduler.Update` | src/usd/schedule.c:334-404 | The update in place, and whether the timer was found. |
| `Scheduler.Scheduler.Deliver` | src/usd/entry.c:208-324 | The part up to the delivery: late entries are skipped, invalid ones ignored, too long ones marked, others sent expanded. |
| `Scheduler.Scheduler.Dispatch` | src/usd/entry.c:196-384 | The whole callback refines the step on values; the authorization and signature guards are unreachable. |
| `Scheduler.Scheduler.Report` | src/usd/stat.c:62-88 | The result fields and the clipped, terminated output of the entry found. |
| `Scheduler.Scheduler.Complete` | src/usd/notify.c:92-103 | Completing a request marks its pool entry and keeps the invariant. |
| `Protocol.UnsetFlagsBelow` | src/common/entry.c:96-102 | The clearing loop with its bound clears the flags from INIT up to it. |
| `Protocol.OnHeaderInFlight` | src/usd/process.c:500-619 | A well-formed header that is accepted leaves a request that is PROGRESS and INIT, not AUTHORIZED, FINISH or COMPLETE. |
| `Protocol.HeaderFitsIff` | src/usd/process.c:554-560 | An accepted NEW header announces a subject that fits the message exactly when its size does not wrap the sum. |
| `Protocol.AdmittedIs` | src/usd/process.c:653-683 | An admitted request carries the peer's own account, and the lists permit it. |
| `Protocol.OperateDone` | src/usd/notify.c:92-103 | Completing a request after its operation equals completing it before. |
| `Protocol.OnPayloadKeeps` | src/usd/process.c:621-742 | Serving any payload keeps the invariant of the pools. |
| `Protocol.EntriesTraceable` | src/usd/process.c:650-683 | Every entry in the pool after a request was there before, or belongs to the account the peer proved and the lists permit. |
| `Protocol.RequestIsolates` | src/usd/process.c:621-742 | Whatever a payload does, entries and timers of every user but the one it acts for stay as they are, and none is added. |
| `Protocol.RequestShowsOwn` | src/usd/process.c:377-401 | What a listing shows belongs to the account the request acts for. |
| `Daemon.Daemon.RecvCreate` | src/usd/process.c:500-619 | A header becomes a request, or is refused, as the phase machine says. |
| `Daemon.Daemon.RecvAuthorize` | src/usd/process.c:621-705 | Authorization and decryption as the phase machine says; the guards on INIT, COMPLETE, FINISH and the size are unreachable. |
| `Daemon.Daemon.OpNew` | src/usd/process.c:47-121 | NEW creates the entry and answers its id, or refuses a non-ASCII subject and changes nothing. |
| `Daemon.Daemon.OpDel` | src/usd/process.c:143-253 | DEL deletes, answers the deleted ids, and marks the pools exactly if there are any. |
| `Daemon.Daemon.OpGet` | src/usd/process.c:279-479 | GET answers the selected entries and changes nothing. |
| `Daemon.Daemon.ReadHeader` | src/usd/notify.c:71-139 | The callback on a header; the "state not recognized" branch is unreachable. |
| `Daemon.Daemon.ReadPayload` | src/usd/notify.c:55-145 | The callback on a payload: new pools, reply, serialize mark and signal as the phase machine says. |
| `Daemon.Daemon.NotifyRead` | src/usd/notify.c:49-199 | For every connection, the pending read asks for what its phase wants, and the callback moves it to the next phase or closes it without a residual request. |
| `Daemon.Daemon.NotifyWrite` | src/usd/notify.c:201-330 | The same for writes; a request is pending exactly between header and payload, and the "unexpected state" branch is unreachable. |
| `Session.HeaderBack` | src/usc/conn.c:89-147 | The daemon reads out of a header exactly the fields and size the client put in. |
| `Session.PayloadUnderstood` | src/common/entry.c:166-243 | The daemon decrypts with the key and counter that the client encrypted with, and sees the client's payload. |
| `Session.RunKeepsStep` | src/usc/conn.c:79-256 | In every interleaving of client, daemon and whatever else changes the pools, the two stay in lock step. |
| `Session.ReadsMatchWrites` | src/usc/conn.c:146-222 | Whenever bytes are there for an end that reads, they are exactly as many as it asks for; no reply fails to decrypt. |
| `Session.OthersKeepStep` | src/usd/notify.c:49-278 | Whatever other connections and timers do to the shared pools, the two ends stay in step. |
| `Session.EveryExchange` | src/usc/conn.c:79-256 | From an idle connection, through any interleaving, all of this holds and the client has the daemon's answers in order. |
| `Session.NeverStuck` | src/usc/conn.c:79-256 | Unless the daemon closed the connection or everything was answered, one of the two can move. |
| `Session.AnswersMean` | src/usc/process.c:236-342 | The client decodes the id of its new entry, and exactly the deleted ids in order. |
| `Session.ListingMeans` | src/usc/process.c:409-474 | The client decodes all visible entries it asked for, whole and in order. |
| `Requests.NewStores` | src/usd/process.c:47-121 | NEW stores the request under the new id with its trigger, step, expiry, user name, alignment and relative flags, the payload as subject and the creation time, signed and complete, with one timer with those times; nothing else changes. |
| `Requests.DelRemoves` | src/usd/process.c:143-253 | DEL on a list of ids removes exactly the listed entries of the user with their timers; the answer reads back as each of them once, in request order; a single 0 stands for all. |
| `Requests.VisibleIff` | src/usd/process.c:377-401 | An active entry is visible exactly to its owner, if its subject is ASCII and its output as long as it says. |
| `Requests.GetShows` | src/usd/process.c:279-479 | GET on a list of ids reads back as exactly the listed entries visible to the user, in request order, and changes nothing. |
| `Requests.OwnAlwaysListed` | src/usd/process.c:377-401 | Over every run with ASCII subjects and outputs without a NUL, every entry can be listed by its owner, and by nobody else. |
| `Requests.EveryHeader` | src/usd/process.c:500-619 | In every exchange, the daemon goes on with the client's next header exactly if a session can be made, an operation is named, the payload is not empty and a subject fits; it then holds the client's entry. |
| `Requests.EveryRequest` | src/usd/process.c:621-742 | In every exchange, the daemon serves the client's next payload exactly if the peer proves an account that the lists permit and the payload can be worked on; it then does what that request asks for and answers so, and otherwise closes and changes nothing. |
| `Durability.HandlerKeepsDurable` | src/usd/process.c:64-80 | No action of a handler loses track of a change. |
| `Durability.HandlerKeepsAwake` | src/usd/notify.c:108-117 | No action of a handler leaves the monitor asleep on a mark nobody will signal, unless it gives up on that mark. |
| `Durability.MonitorKeeps` | src/usd/marshal.c:61-113 | No action of the monitor breaks either, with spurious wake-ups and failing writes. |
| `Durability.EveryRunIsGood` | src/usd/marshal.c:61-113 | At every point of every interleaving, a NEW or DEL change missing from the last snapshot is marked, or cleared and being written, or about to be marked; and the monitor sleeps on a mark only if a handler has its test or signal to run or gave up on that mark. |
| `Durability.EverythingIsWritten` | src/usd/marshal.c:61-113 | Once the handlers are through, the monitor left alone has every change written within six actions, unless it sleeps on a mark given up on. |
| `Durability.AsleepOnMarkIff` | src/usd/marshal.c:61-71 | Asleep with no handler left to signal, the monitor has a mark before it exactly when a handler gave up on it. |
| `Durability.WrittenIff` | src/usd/marshal.c:61-113 | With all handlers over, an unwritten change gets written exactly when the monitor does not sleep on a mark given up on. |
| `Durability.AbandonedSleeps` | src/usd/process.c:92-99 | A handler that gives up after its mark leaves the monitor asleep on it. |
| `Restart.Activate` | src/usd/marshal.c:291-366 | Over the loaded entries: one without a step is active again, at its trigger, exactly if that lies ahead and before the expiry; a recurring one is active again at its first run after now, in seconds or by the calendar, exactly if that lies before the expiry; the job is the same, and the daemon's invariant holds again. |
| `Restart.RestartDaemon` | src/usd/marshal.c:171-374 | From a pool with the invariant, through a file not longer before, to a pool with it: every entry not marked removed is active again under the same two conditions, with the same job, and no other entry is. |
| `Stats.GetsThroughIff` | src/use/exec.c:82-97 | An output of any length gets through all three length checks exactly when a message is longer than 80 bytes. |
| `Stats.OutputEndToEnd` | src/usd/stat.c:56-85 | The output kept with an entry is a prefix of the child's output, ends in a NUL at its length below 4096, and passes the check of a later GET; nothing but the result fields changes. |
| `Stats.MessageCarries` | src/uss/stat.c:255-268 | The service passes on unchanged what it got of the output. |
| `Stats.TimesAdd` | src/uss/stat.c:255-261 | Latency runs from trigger to start and execution time from start to end. |
| `Stats.RecordHolds` | src/uss/stat.c:98-119 | The record of an id holds its last execution with the exit status, and its last failed one. |
| `Stats.PassedOn` | src/uss/stat.c:219-299 | The i-th message to the daemon reports the i-th accepted execution: its entry, process, exit status, latency, execution time and output. |
| `Stats.EntryShowsLast` | src/usd/stat.c:42-88 | Once all messages of any history are delivered, every active entry shows its last execution, and one without any is as it was. |
| `Stats.StatService.Update` | src/uss/stat.c:46-148 | A message is recorded and queued, or refused if its output is too long; ids stay unique and records follow from the messages. |
| `Stats.StatService.Dispatch` | src/uss/stat.c:219-299 | The queue goes out in the order the messages came in. |
| `Stats.CountersCount` | src/uss/stat.c:110-119 | The counters of an id count its executions, failures and successes, and the first is the sum of the others. |
| `Stats.FailsIff` | src/uss/stat.c:109-116 | An execution counts as failed exactly if the child exited by itself with a code other than 0. |
| `Stats.MessagesConserved` | src/uss/stat.c:71-119 | Every accepted message is counted under exactly one id. |
| `Stats.StatService.Totals` | src/uss/report.c:85-128 | The report loops add up to the number of accepted messages, and successes and failures to all. |
| `Users.Directory.Add` | src/usa/users.c:237-442 | Adding a user, with all its refusals, as a change of the file map. |
| `Users.Directory.Delete` | src/usa/users.c:448-560 | Deleting a user, committed or not. |
| `Users.Directory.Change` | src/usa/users.c:566-587 | Changing a user is a deletion and an addition, and keeps the half that succeeded. |
| `Users.Directory.Commit` | src/usa/users.c:195-214 | Both walks of a commit, in any order of the directory. |
| `Users.Directory.Rollback` | src/usa/users.c:216-235 | Both walks of a rollback. |
| `Users.EffectiveOnlyAtCommit` | src/usa/users.c:195-587 | Across any acceptable operations without a commit, no effective content changes. |
| `Users.CommitAppliesStaged` | src/usa/users.c:195-214 | A commit makes the effective contents equal to the staged ones. |
| `Users.RunPaired` | src/usa/users.c:195-587 | If only committed users are changed, staged and effective names coincide throughout. |
| `Users.RollbackRestores` | src/usa/users.c:216-235 | A rollback after any edits restores the last committed view. |
| `Users.ChangePairsIff` | src/usa/users.c:566-587 | A change keeps the names paired exactly when its user is in effect. |
| `Users.ChangeCoversIff` | src/usa/users.c:566-587 | A change keeps every user in effect covered by a staged file exactly when its input is acceptable or its user is not in effect. |
| `Users.RefusedChangeUncovers` | src/usa/users.c:566-587 | After a refused change of a user in effect, adding that user empties what is in effect. |
| `Users.AddIff` | src/usa/users.c:237-446 | An addition succeeds exactly for a name and password of the allowed form and no staged file; it stages the record and touches no other user. |
| `Users.DeleteIff` | src/usa/users.c:448-564 | A deletion succeeds exactly if both files are there; nothing is staged afterwards, what is in effect stays, and no other user is touched. |
| `Users.ChangeIff` | src/usa/users.c:566-587 | A change succeeds exactly if both files are there and the input is allowed; it stages the record, what is in effect stays, and no other user is touched. |
| `Users.EditThenCommit` | src/usa/users.c:195-587 | After an edit and a commit, that user has the new record in effect, or nothing if deleted, and every other user what was staged before. |

## Left out

- Sockets, the asynchronous I/O library, signals, privilege drop, fork and exec, pipes: foreign calls.
- Incomplete asynchronous reads and writes, after which the callbacks return and nothing follows.
- Key exchange, cipher, digests and password hashing: parameters with the laws they need.
- Internals of the list, timer, message queue and file libraries: sequences, maps and the stated contracts. Loading a serialization file stops at the first refused record.
- Daylight saving time.
- Signed overflow of `long` in the client's multiplications.
- The hold operation, which the parser never accepts.
- Entries listed for "all": the counter of the list also advances on entries of other users, so that slots may hold anything. Deletion, listing and isolation are proved for any list in its place.
- Races on other bits of the flag words; the bit operations are taken as atomic.
- Heap ownership, double release on error exits, and error codes.
- The removal of a just created entry when its answer cannot be encrypted.
- Compensation of triggers for changes of the machine time when pools are written.
- Latency and execution time minima, maxima and averages of the report; configuration readers; printing.
- Termination of the monitor thread and its last write.
- Reload.CatchUp: requires that the loops that run do not wrap around; for the backward loop that is the exact condition, for the forward loop one more step past now must fit 32 bits.
- Reload.ActivePool.Rearm: carries the same condition for every entry.
- Scheduler.Scheduler.Create: assumes that some hash in the search is free, because the loop has no bound of its own.
- DiskCodec.LoadRecordIff: takes an output length below 4096, because the check for it runs before the field is read.
- GetReply.EncodeReply: the reply is not cut to 32 bits here; the framing is.
- Requests.OwnAlwaysListed: takes outputs without a NUL, as the statistics service sends them.
- Session.EveryExchange: the client is a transition function beside the daemon's, not a loop, because the two interleave; a reply must fit its 32-bit size word.
- Stats.StatService.Totals: does not model wrap-around of the 64-bit totals.
- Vars.AllExpandedIffCleanName: leaves out user names with a pair of at-signs. For them only the five numeric variables are claimed; the exact condition for the other two is not stated.
- Templates.ExpansionMeans: takes variables set apart by blanks, because the closing at-signs of one variable and the opening ones of the next spell a third if its name stands between them.
- Restart.RestartDaemon: takes a file that was not longer before, and the same configured lists.
- Reload.SettledIdempotent: does not say when an aligned entry that is too far ahead again stays by chance.
