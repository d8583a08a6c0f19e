# School-route WhatsApp bot — a Dafny model of its core

The bot answers WhatsApp messages for a school-transport office. Its core is
a route registry, held in memory and read from and written to a spreadsheet.
Each row of the sheet is a route: bus, route number, route name, schools,
shift, monitor, driver, company, distance, plate and start date. Users query
the registry with text commands (`!rotas`, `!rota <n>`, `!motorista <name>`,
`!monitor <name>`, `!empresa <name>`). Administrators change it with
`!addrota` and `!updrota`. General commands (`!ajuda`, `!estatisticas`, the
two mention commands) go through a per-user, per-command rate limiter and
are counted in usage statistics.

The model has eight modules, one file each:

- `Wrappers` (wrappers.dfy): the shared `Option` type.
- `Text` (text.dfy): the string operations the bot relies on. This covers
  ASCII case mapping, `trim`, `includes`, `indexOf`, `replace` of the first
  occurrence, and `split`/`join` on one character, with their laws.
- `Routes` (routes.dfy): a route record as a map from column name to cell
  text. It holds the read-only registry operations: lookup by number, the
  three substring searches and the listing. It also holds the two key
  searches that adding and updating start with.
- `Sheet` (sheet.dfy): the row logic of reading and writing the sheet. This
  is how the header row is found, which rows become records, and which rows
  are written.
- `Registry` (registry.dfy): the route manager as a class with `headers` and
  `routes` fields. Reading is written as the source's loops. Adding and
  updating change the list in place and roll back when the write fails.
- `Usage` (usage.dfy): the rate limiter and the usage counters, as classes
  over maps.
- `Commands` (commands.dfy): command normalisation, the administrator test,
  message routing and the parsing of route commands.
- `Bot` (bot.dfy): the route command handler, the general command handler,
  the auto-responder and the message handler. The handlers are methods over
  the registry, the limiter and the counters.

The model follows the code as written. These behaviours of the code are
modelled and proved:

- The route handler lower-cases the whole message. Route numbers, names and
  the fields of a new route therefore reach the registry in lower case.
  The field name of `!updrota` can never equal one of the upper-case column
  names it accepts, so an update is never attempted
  (`Commands.UpdateNeverParsed`).
- Adding compares route numbers exactly. Lookup compares them ignoring
  case. A route `a1` can be added beside `A1`, and is then hidden by it
  (`Routes.CaseVariantShadowed`).
- `!addrota` accepts eleven or more fields and ignores any beyond the
  eleventh.
- Route commands are sent to their handler before the general path, so they
  are neither rate-limited nor counted (`Bot.HandleMessage`,
  `Bot.RotasTwiceUnlimited`). Only the general commands pass through the
  rate limiter.
- A bare `!`, alone or followed by blanks, reaches the general handler but
  normalises to the empty command, which the handler drops without stamping,
  counting or answering it (`Bot.BarePrefixIgnored`).
- The auto-responder looks for its keywords anywhere in a private message and
  tests the greeting first. Any text holding `oi`, such as "boa noite", is
  greeted, even when it also asks for help (`Bot.GreetingWins`).
- Routing tests the route words case-sensitively, on the trimmed text.
  `!ROTAS` therefore goes to the general handler
  (`Commands.UpperCaseRotasIsGeneral`).
- The write puts a banner row with the cell `NUMERO` above the header row.
  When that file is read back, the banner is taken for the header row and
  no route number survives (`Sheet.ReloadTakesBannerAsHeader`).
- The administrator test on route commands uses the chat id. A group's id
  is never an administrator (`Commands.GroupIdNeverAdmin`).

## Model

| member | source | states |
|---|---|---|
| Text.Lower | bot_completo.js:465 | `toLowerCase` keeps the length, maps each character, and leaves no upper-case letter |
| Text.Upper | bot_completo.js:155 | `toUpperCase` keeps the length and maps each character |
| Text.Trim | bot_completo.js:88 | `trim` never lengthens a string, and its result starts and ends with a non-blank |
| Text.TrimEmpty | bot_completo.js:108 | a cell trims to the empty string exactly when it is all whitespace |
| Text.TrimIdempotent | bot_completo.js:88 | trimming twice is trimming once |
| Text.ContainsIndex | bot_completo.js:163 | `includes` holds exactly when the query occurs at some index |
| Text.IndexOf | bot_completo.js:308 | `indexOf` gives the first position where the pattern occurs, or none when it occurs nowhere |
| Text.ReplacePrefix | bot_completo.js:559 | replacing a prefix the text starts with removes exactly that prefix |
| Text.ContainsTrim | bot_completo.js:733 | trimming the text does not change whether a keyword without blank ends occurs in it |
| Text.ReplaceFirst | bot_completo.js:308 | `replace` with a text pattern: the text with its first occurrence of the pattern replaced, or the text itself when there is none (the first occurrence is `IndexOf`'s) |
| Text.Join | bot_completo.js:506 | `join`: the pieces with the separator between each two; `JoinSplit` and `SplitJoin` make it the inverse of `Split` |
| Text.Split | bot_completo.js:559 | `split` gives at least one piece, and no piece holds the separator |
| Text.JoinSplit | bot_completo.js:506 | joining the pieces of a split gives back the original text |
| Text.SplitJoin | bot_completo.js:559 | splitting joined separator-free pieces gives back the pieces |
| Text.SplitCons | bot_completo.js:498 | a separator-free word, the separator and the rest split into the word and the pieces of the rest |
| Routes.FindByNumber | bot_completo.js:153-157 | `buscarPorRota` finds nothing exactly when no route has a non-empty number equal to the key up to case; otherwise it finds the first such route |
| Routes.EmptyKeyFindsNothing | bot_completo.js:155 | an empty key finds no route |
| Routes.FindAppended | bot_completo.js:153-157 | a route appended where no number matches its own is found by its number |
| Routes.CaseVariantShadowed | bot_completo.js:185-187 | `a1` is not a duplicate of `A1`, and after adding it, a lookup of `a1` finds the older `A1` route |
| Routes.InsertTwiceDuplicate | bot_completo.js:185-191 | adding a route with a non-empty number a second time is refused as a duplicate |
| Routes.FilterByField | bot_completo.js:159-181 | the filter keeps every route whose column is non-empty and contains the query up to case, as often as it occurs, in registry order, and no other route |
| Routes.FindByDriver | bot_completo.js:159-165 | `buscarPorMotorista` returns exactly the routes whose driver column contains the query up to case, as often as they occur, in registry order |
| Routes.FindByMonitor | bot_completo.js:167-173 | `buscarPorMonitor` returns exactly the routes whose monitor column contains the query up to case, as often as they occur, in registry order |
| Routes.FindByCompany | bot_completo.js:175-181 | `buscarPorEmpresa` returns exactly the routes whose company column contains the query up to case, as often as they occur, in registry order |
| Routes.EmptyQueryMatches | bot_completo.js:162-163 | an empty query matches exactly the routes whose column is non-empty |
| Routes.ListAll | bot_completo.js:261-272 | `listarTodasRotas`: the "not loaded" reply for an empty registry, otherwise the title and one line per route in registry order (see `ListAllAppend`) |
| Routes.IsDuplicate | bot_completo.js:185-187 | the duplicate test of `adicionarRota`: some route has a non-empty number equal, exactly and case-sensitively, to the new route's number |
| Routes.AddThrows | bot_completo.js:185-187 | `adicionarRota` throws when the new route has no number and some route has a non-empty one, since the `toString` on the missing number is then reached |
| Routes.ListLinesConcat | bot_completo.js:266-269 | the listing lines of two lists in a row are their two listings in a row |
| Routes.ListAllAppend | bot_completo.js:261-272 | the empty registry lists as the "not loaded" reply; adding a route to a non-empty one adds exactly its line |
| Routes.FindIndex | bot_completo.js:210-212 | `findIndex` gives the first route whose non-empty number equals the key exactly, or none when no route matches |
| Routes.Patched | bot_completo.js:221-225 | the patched route has the old columns plus the patch fields that are column names; those take the patch value, every other column keeps its value |
| Sheet.HeaderIndex | bot_completo.js:83-92 | the header row is the first row holding a cell `N° ROTA` or `NUMERO`; there is none when no row holds one |
| Sheet.HeadersOf | bot_completo.js:88 | the column names are the header row's cells, trimmed, one per cell |
| Sheet.RowRecord | bot_completo.js:103-107 | the record a data row makes: each column name gets the cell under it, "" past the row's end, a later equal name overwriting an earlier one (see `RowRecordKeys`, `RowRecordAt`) |
| Sheet.KeptRecords | bot_completo.js:100-116 | the records of the data rows whose flag is raised, in row order (see `KeptRecordsSpec`) |
| Sheet.LoadedRoutes | bot_completo.js:80-116 | the routes a read ends with: none without a header row, otherwise the kept records of the rows below it (see `LoadedFromBelowHeader`) |
| Sheet.RowRecordKeys | bot_completo.js:104-107 | a row's record has exactly the column names as keys |
| Sheet.RowRecordAt | bot_completo.js:106-107 | the last column of a given name holds that column's cell, empty past the row's end |
| Sheet.FlagIndex | bot_completo.js:105-111 | the row's flag is raised exactly when some route-number column has a cell that is not blank |
| Sheet.KeptRecordsSpec | bot_completo.js:100-116 | every kept record is the record of a flagged row, and every flagged row's record is kept |
| Sheet.KeptAll | bot_completo.js:112-114 | when every row is flagged, the records are the rows' records, one for one, in order |
| Sheet.KeptHaveRouteNumber | bot_completo.js:106-113 | with no repeated route-number column, every kept record holds a route-number column that is not blank |
| Sheet.RepeatedMarkerKeepsBlank | bot_completo.js:106-111 | with the route-number column twice, a row is kept whose record has a blank route number |
| Sheet.LoadedFromBelowHeader | bot_completo.js:94-116 | without a header row nothing is loaded; otherwise every loaded record comes from a flagged row strictly below the header row |
| Sheet.HeaderHasMarker | bot_completo.js:85-88 | after a load that found a header row, one column name is `N° ROTA` or `NUMERO` |
| Sheet.LoadScenario | bot_completo.js:80-116 | a title row, a header row and one data row load as that one route, found by its number `100` and not by `999` |
| Sheet.DataRow | bot_completo.js:140 | a written data row has one cell per column: the route's value, or empty |
| Sheet.SaveRows | bot_completo.js:134-142 | the written sheet is two banner rows, the header row and one row per route |
| Sheet.SavedDataRows | bot_completo.js:136-142 | the third written row is the header row, and each later row is its route's data row |
| Sheet.RecordOfDataRow | bot_completo.js:139-141 | reading a row whose cells are a route's values gives the route seen through the columns |
| Sheet.DataRowReloads | bot_completo.js:139-141 | a route's data row, with a non-blank number, raises the flag and reads back as the route seen through the columns |
| Sheet.ReloadBelowBanners | bot_completo.js:136-142 | read from the written header row on, the sheet gives every route back, in order, seen through the columns |
| Sheet.KeptLacksColumn | bot_completo.js:106-107 | a column that is not a header is in no loaded record |
| Sheet.BannerTrimmed | bot_completo.js:134 | the first banner row trims to itself |
| Sheet.ReloadTakesBannerAsHeader | bot_completo.js:134 | reading a written sheet takes the first banner row for the header row, and then every lookup by number fails |
| Registry.FindHeaderRow | bot_completo.js:80-92 | the header loop finds the first header row, or -1 when there is none |
| Registry.ZipRow | bot_completo.js:103-111 | the column loop builds the row's record and raises the flag exactly when the row is to be kept |
| Registry.CollectRecords | bot_completo.js:100-116 | the row loop collects the records of the flagged rows strictly below the header row |
| Registry.RouteRegistry.constructor | bot_completo.js:32-41 | a new manager has no columns and no routes |
| Registry.RouteRegistry.Load | bot_completo.js:67-124 | a missing or unreadable file empties both lists; a sheet without a header row empties the routes and keeps the columns; otherwise the columns are the trimmed header cells and the routes are the loaded records |
| Registry.AddRollbackScenario | bot_completo.js:193-201 | a route added to an empty registry whose write fails is popped again, and the write attempted held the banners, no columns and that route |
| Registry.RouteRegistry.AddRoute | bot_completo.js:183-206 | a route without a number throws once a numbered route exists; a duplicate is refused; in both cases nothing changes. Otherwise the route is appended and the sheet written; a failed write pops it, leaving the list as before |
| Registry.RouteRegistry.UpdateRoute | bot_completo.js:208-239 | an unknown number changes nothing; otherwise the first matching route gets the patch fields that are column names and the sheet is written; a failed write puts the original route back |
| Registry.PatchedStep | bot_completo.js:221-225 | each field of the patch loop writes its value when it is a column name and is skipped otherwise |
| Registry.PatchedOne | bot_completo.js:222-223 | adding one field to a patch adds it to the patched route exactly when it is a column name |
| Registry.UpdateTouchesOnlyHeaders | bot_completo.js:221-225 | after an update, a column outside the patch or outside the headers keeps its value |
| Usage.RateKey | bot_completo.js:314 | the limiter's key is the user id, a dash and the command |
| Usage.WithinWindowMillis | bot_completo.js:322-324 | the refusal test on seconds as a fraction means less than 30000 ms since the last run let through |
| Usage.RateLimiter.constructor | bot_completo.js:298 | the limiter starts empty |
| Usage.RateLimiter.Check | bot_completo.js:312-330 | an unseen key is allowed and stamped; a key seen less than 30 s ago is refused and nothing changes; otherwise it is allowed and re-stamped |
| Usage.RefusedForThirtySeconds | bot_completo.js:312-330 | after a run let through at t, the same key is refused until t + 30 s and allowed from then on |
| Usage.KeysIndependent | bot_completo.js:314-316 | stamping one key does not change the verdict for another |
| Usage.Allowed | bot_completo.js:312-330 | `checkRateLimit`'s verdict: an unseen key, or one whose last stamp is not within the window (see `RefusedForThirtySeconds`) |
| Usage.WaitSeconds | bot_completo.js:699 | the announced wait: the limit minus the whole seconds elapsed, read on a later clock (see `WaitInRange`) |
| Usage.WaitInRange | bot_completo.js:699 | the announced wait after a refusal is between 1 and 30 seconds |
| Usage.SumRemove | bot_completo.js:333-338 | any one counter can be taken out of the sum of all counters first |
| Usage.SumUpdate | bot_completo.js:333-338 | setting one counter changes the sum by the difference |
| Usage.UserCountsUpdate | bot_completo.js:349-350 | replacing one user's entry replaces only that user's count |
| Usage.SumBump | bot_completo.js:335-338 | adding one to one command's counter adds one to the sum of all command counters |
| Usage.UserSumBump | bot_completo.js:340-350 | giving one user a count one above their old count (zero when new) adds one to the sum of all users' counts |
| Usage.CommandStats.constructor | bot_completo.js:299-303 | the counters start at zero, with no command and no user |
| Usage.CommandStats.Update | bot_completo.js:332-353 | the total, the command's counter and the user's count each go up by one, so total = sum of per-command counts = sum of per-user counts is kept; a new user is created with the given name; the user's last command becomes this one |
| Commands.NormalizeCommand | bot_completo.js:359-365 | nothing exactly when the text does not start with `!`; otherwise the lower case of a slice of the text after `!` with only blanks on either side, itself with no blank at either end and no upper-case letter |
| Commands.NormalizeStable | bot_completo.js:359-365 | a normalised command, written again after `!`, normalises to itself |
| Commands.LeadingBlankHidesCommand | bot_completo.js:360 | a message starting with a blank is not a general command |
| Commands.StripSuffix | bot_completo.js:308 | removing the first `@c.us` leaves an id without `@` alone and strips exactly the suffix from id + `@c.us` |
| Commands.IsAdmin | bot_completo.js:307-310 | `isAdmin`: the id with its first `@c.us` removed is a listed number (see `AdminIff`, `GroupIdNeverAdmin`) |
| Commands.AdminIff | bot_completo.js:307-310 | for a bare number, with or without `@c.us`, administrator means the number is listed |
| Commands.GroupIdNeverAdmin | bot_completo.js:307-310 | an id holding `@` but not `@c.us` is never an administrator |
| Commands.RouteOf | bot_completo.js:849-867 | a message goes to the route handler exactly when its trimmed text starts with one of the seven route words, to the general handler exactly when that text starts with `!` otherwise, and is plain text exactly when it does not start with `!` |
| Commands.UpperCaseRotasIsGeneral | bot_completo.js:856-865 | `!ROTAS` goes to the general handler and normalises to `rotas` |
| Commands.RecordOf | bot_completo.js:565-577 | the new route has exactly the eleven columns, each from its field in order |
| Commands.ParseRotas | bot_completo.js:464-621 | only an administrator's message can become an add or an update; a parsed new route has a route number and no upper-case value |
| Commands.ParseAdd | bot_completo.js:553-585 | the add branch gives a refusal, a format error or a new route, the last only for an administrator, with a number and lower-case values |
| Commands.ParseUpdate | bot_completo.js:588-618 | the update branch gives a refusal, a format error, an invalid field or an update, the last only for an administrator |
| Commands.UpdateFieldsHaveUpper | bot_completo.js:604-605 | every accepted update field holds an upper-case letter |
| Commands.UpdateNeverParsed | bot_completo.js:588-609 | no message ever parses as an update |
| Commands.UpdateNeverParsedLower | bot_completo.js:594-609 | on lower-case text the update branch never gives an update |
| Commands.SplitHasTwo | bot_completo.js:498 | a text holding the separator splits into at least two pieces |
| Commands.PartsHaveNoUpper | bot_completo.js:559 | the pieces of a lower-case text are lower case |
| Commands.JoinNoUpper | bot_completo.js:559 | joining lower-case pieces with a pipe gives lower-case text |
| Commands.RouteKeyArgument | bot_completo.js:497-498 | `!rota <key>` with a key without spaces looks up the lower-cased key |
| Commands.DoubleSpaceKey | bot_completo.js:497-498 | `!rota` with two spaces looks up the empty key, which finds nothing |
| Commands.DriverArgument | bot_completo.js:504-506 | `!motorista` takes everything after the first space, lower-cased, as the driver query |
| Commands.MonitorArgument | bot_completo.js:520-522 | `!monitor` takes everything after the first space, lower-cased, as the monitor query |
| Commands.CompanyArgument | bot_completo.js:536-538 | `!empresa` takes everything after the first space, lower-cased, as the company query |
| Commands.RestAfterWord | bot_completo.js:506 | after a command word and a space, split-slice-join gives back the rest of the text |
| Commands.AddArgument | bot_completo.js:559-577 | an administrator's `!addrota` with eleven or more lower-case fields makes the route of the first eleven; fewer give the format error |
| Commands.ReachesAdd | bot_completo.js:553 | a text starting with `!addrota ` reaches the add branch |
| Commands.CommandWordsDiffer | bot_completo.js:469-588 | a text starting with `!addrota ` or `!updrota ` matches none of the earlier tests of the chain, so it reaches its own branch |
| Bot.RunRotas | bot_completo.js:464-621 | the whole new state (`RotasDone`): a query answers from the old routes and changes nothing; an add is refused as a duplicate exactly when the number is taken, and otherwise is answered "added" and appended exactly when the write succeeds, or "save failed" with the registry unchanged; an update of an unknown number answers "not found", otherwise patches the first matching route and keeps it exactly when the write succeeds; the columns never change; a non-administrator never changes the registry |
| Bot.QueryReply | bot_completo.js:469-550 | the reply to a route command that only reads: the help, the listing, the route found by number or the routes found by a search, or the refusal and format replies |
| Bot.CommandReply | bot_completo.js:708-729 | the `switch`: the four known commands get their own reply, every other command the "unrecognised" reply, never a wait or silence |
| Bot.BarePrefixIgnored | bot_completo.js:687 | `!` alone or followed by blanks gives no command, so `processCommand` returns at once |
| Bot.RunCommand | bot_completo.js:698-729 | a refused command gets the wait, read on the later clock, and counts nothing; an allowed one is stamped, counted once in total, once under its name and once for the sender (created with the sender's name when new, last command updated), and answered by its name; the counters' sums stay equal |
| Bot.ProcessCommand | bot_completo.js:682-730 | a text without a command (no `!`, or nothing after it) is ignored and changes nothing; a refused command gets the wait and counts nothing; an allowed one is stamped, counted once in total, once under its name and once for the sender (created with the sender's name when new, last command updated), and answered by its name |
| Bot.AutoReplyFor | bot_completo.js:732-755 | `processAutoResponse` on the lower-cased, trimmed text: the greeting for oi/olá/ola, else the help for ajuda/help, else the instructions for como usar/como funciona, else nothing |
| Bot.GreetingWins | bot_completo.js:745-747 | any text holding `oi`, whatever surrounds it, is answered with the greeting |
| Bot.GoodNightGreeted | bot_completo.js:745 | "boa noite" is greeted |
| Bot.HandleMessage | bot_completo.js:828-883 | nothing happens before the client is ready, for the bot's own messages or for status broadcasts; route commands get exactly the route handler's reply and registry change (`RotasDone`) and change neither the limiter nor the counters; only route commands can change the registry; other `!` texts get exactly `processCommand`'s reply, stamp and counts; plain text goes to the auto-responder in private chats and gets nothing in groups |
| Bot.RotasTwiceUnlimited | bot_completo.js:856-863 | the same `!rotas` sent twice at once is answered twice, with the limiter and counters untouched |

## Left out

- The WhatsApp client, the QR code, connection events, reconnection and
  process-level error handlers are left out. They are transport and process
  plumbing.
- Timers, `sleep`, the message delay and the readiness wait in
  `processCommand` are replaced by a `ready` parameter on the message
  handler. Clock readings are parameters.
- Spreadsheet I/O is left out, with `fs` directory creation and the backup
  copy. A read is the sheet's rows, or nothing when the file is missing or
  unreadable. A write is the rows it would write, plus a flag saying whether
  it succeeded. The backup's result is discarded by the code, so it cannot
  change any outcome.
- Reply texts are left out: `formatarRespostaRota`, the help texts, the
  statistics report, the mention commands and the auto-response greeting.
  Replies are modelled as the kind of reply and the data it is built from.
- Logging is left out, and so is the `lastCommandTime` ISO timestamp of
  `updateStats`.
- Case mapping covers ASCII letters only, and `trim` covers the common blank
  characters only. Full Unicode case and whitespace tables are not modelled.
- Cells are text. The code stores each cell as the spreadsheet library gives
  it (a number, a date, rich text), and `rowValues[i] || ''` turns a numeric
  0 into ''. It applies `toString` when it compares or searches cells: in
  the header search at :84, in the tests at :108, :155, :186 and :211, and
  in the three searches at :163, :171 and :179. Non-text cells are not
  modelled.
- An empty header cell is modelled as the column name "". In the code the
  header array keeps a hole there. `forEach` skips holes, so a data row gets
  no key for that column and its flag test skips it. Writing keeps the hole
  as an empty cell. The model instead makes a "" column. It reads the cell
  under the last such column into it, and writes that value back under every
  empty-header column. A header cell of blanks only, which trims to "", is a
  real "" key in the code as in the model.
- Awaits and the interleaving between them are not modelled. Each handler
  runs to completion. The `pop` rollback of `adicionarRota` relies on this.
- Records are values, not shared objects. `rotaOriginal` is a copy in the
  code as well, so only aliasing of records outside the registry is lost.
- The outer `try`/`catch` around `!addrota` and `!updrota` cannot fire on
  the modelled paths, since `replace` and `split` do not throw. Its reply is
  not modelled.
- Sheet.ReloadTakesBannerAsHeader: re-reading a written sheet is stated for
  the rows as written. The code's real file may hold other rows above the
  header row; those are not modelled.
- Usage.WaitInRange: the range is stated for a second clock reading inside
  the window. A clock that goes backwards, or a second reading past the
  window, is not covered.
