# CLIverse: a verified model

CLIverse is a Fediverse instance whose user interface is a shell reached by SSH. This project models its state
machines, parsers and tables in Dafny and proves what they keep over all inputs and all runs.

`dafny verify dfyconfig.toml` checks everything.

## What is modelled

- **Delivery queue** (`DeliveryQueue`, `DeliveryBound`, `DeliveryTight`, `DeliverySingle`, `DeliveryWorker`,
  `DeliveryProgress`, `OldestFirst`). Workers copy pending rows and write back without locks, and both the server
  process and the worker process run such a worker. The machine interleaves n workers that hold stale copies. `DeliveryWorker` has
  the loop itself as classes over one table.
- **Inbox queue** (`InboxQueue`, `InboxOrder`, `InboxWorkers`): the same form of loop over received activities, for one worker and
  for n.
- **Shell** (`LineEditor`, `ShellTyping`, `Terminal`, `ShellScreen`, `ShellHistory`, `CommandLexer`, `SessionWriter`). The class
  `Shell` reads bytes and writes an echo stream; `Terminal` interprets such a stream on one row.
- **Posts and threads** (`PostStore`, `PostCommands`, `Thread`, `ThreadTermination`, `Sanitize`, `Drafts`). Inserts
  succeed or fail by the constraints of the schema, and any statement may fail. The recursive query is the
  working-table loop of section 7.8.2 of the PostgreSQL 15 manual.
- **Logins** (`RateLimiter`, `LimiterLockout`, `LimiterHandlers`, `LimiterBound`, `LimiterTight`, `PasswordHash`,
  `PasswordText`, `SshKeyTable`, `SshKeys`).
- **Federation texts** (`Signatures`, `SignThenVerify`, `SignatureText`, `Mentions`, with `Base64`, `Text` and `Utf8`),
  after sections 2.3 to 2.5 of draft-cavage-http-signatures-12.

The classes of posts, drafts and keys carry the run of statements that made them, so theorems on all runs speak about
them; `DeliveryWorker`, `InboxWorkers` and `LimiterHandlers` have lemmas that turn their loops and handlers into runs.

Strings of bytes are written as sequences of characters below 256. Identifiers, times, outcomes of remote calls and
failures of statements are parameters, so the theorems hold for all of them.

## What the proofs found

- n workers send at most C(n + 5, 5) - 1 POSTs for one queued row, and some run sends that many: 5 for one worker,
  20 for the two processes of the shipped setup.
- `delivered` and `failed` are final if and only if at most one worker runs. With two a delivered row can become
  pending again.
- A received note is never stored. The handler makes a local id of 36 characters for a column of 32, and names an
  author that does not exist (`internal/activitypub/inbox.go:288-291`, `migrations/001_initial.sql:45-46`). The
  README of the repository lists `Create` among the implemented activities. So mentions are never scanned either;
  `Mentions` says what the scan would do.
- Local-only posts all carry the empty string in a unique column, so an instance stores at most one, although
  `post local` is documented as a command for every user.
- The comment at `internal/auth/auth.go:132` says that the time to live is set on first use. The code sets it on
  every failure, which is what makes the bound a sliding window.
- The bound of the limiter needs care with its pipeline: when the counter expires between the two commands of d
  records, 9 + c + d failures fit into one second.
- A draft of a silenced user is published openly by `draft post`, while `post global` would keep it local.
- With one worker each inbox event is handled exactly once, but in the order of creation if and only if none is
  inserted after a younger one was processed. The creation time is taken before the insert, so this can happen.
- A keyId comes back from the printed header if and only if it has no comma and no quote at its ends; outer spaces do
  no harm.
- The constraints on the table of posts allow a post that answers itself, and on such a root the thread query would
  not end. The commands never insert one, because they look the parent up first.
- An import leaves out a readable, unregistered key whose first word has more than 246 characters: the name made from
  that word does not fit its column.
- The comment at `internal/activitypub/inbox.go:593` says that HTML tags are stripped from a word. Only outer
  brackets are, so a handle directly behind a tag is not seen.

## Model

| member | source | states |
|---|---|---|
| `DeliveryBound.PostsAreBounded` | `internal/federation/worker.go:52-100` | In every run of n workers that interleave on unlocked, stale copies, the POSTs for one row number at most `PostLimit(n)`, whatever the outcomes and however statuses are overwritten. |
| `DeliveryTight.PostLimitIsReached` | `internal/federation/worker.go:52-100` | For every n some run makes exactly `PostLimit(n)` POSTs for one row: the bound cannot be lowered. |
| `DeliveryBound.PostLimitClosedForm` | `internal/federation/worker.go:52-100` | `PostLimit(n)` is the binomial coefficient of n + 5 over 5, less one. |
| `DeliveryBound.PostLimitOfSmallFleets` | `cmd/worker/main.go:40-44` | Five POSTs for one worker, twenty for the server process together with the worker process. |
| `DeliveryBound.AttemptSpendsOne` | `internal/federation/worker.go:64-94` | The potential behind the bound: an attempt pays for its POST, for any mixture of stale copies. |
| `DeliveryBound.CommitKeepsSpent` | `internal/db/db.go:842-848` | Overwriting a row from a stale copy, also back to `pending`, does not raise that potential. |
| `DeliveryQueue.AttemptsStayInRange` | `internal/db/db.go:820-848` | For any number of workers the counter stays in 0..5 and a row is `pending` exactly if the query with its filter on the counter can return it. |
| `DeliveryQueue.StepKeepsOk` | `internal/federation/worker.go:52-100` | Every single step keeps the invariant on rows, held copies and owed writes. |
| `DeliverySingle.OneWorkerTellsTruth` | `internal/federation/worker.go:64-100` | With one worker `attempts` is the number of POSTs made, `delivered` says that the last one and no earlier one was accepted, `failed` says five rejections or a request that could not be built. |
| `DeliverySingle.TwoWorkersLoseAnUpdate` | `internal/federation/worker.go:79-93` | With two or more workers a run turns a row from `delivered` back to `pending`. |
| `DeliverySingle.FinalExactlyForOneWorker` | `internal/federation/worker.go:52-100` | `delivered` and `failed` are final if and only if at most one worker runs. |
| `DeliveryProgress.NoStarvation` | `internal/federation/worker.go:52-88` | With one worker a pending row with p older pending rows is delivered or failed within 5 * (p / 50 + 1) ticks, whatever the outcomes and however many newer rows arrive. |
| `DeliveryProgress.FrontRowsFinish` | `internal/federation/worker.go:52-88` | A row with fewer than fifty older pending rows is finished after as many ticks as it has attempts left. |
| `DeliveryProgress.FiveTicksClearABatch` | `internal/federation/worker.go:53-61` | Five ticks take at least fifty of the older rows out of the queue. |
| `DeliveryWorker.DrainAttemptsEachOnce` | `internal/federation/worker.go:59-61` | A tick attempts every row of the batch once and changes no other row. |
| `DeliveryWorker.DrainIsARun` | `internal/federation/worker.go:59-61` | The loop of one tick is a run of the machine with one worker, so what holds of all runs holds of it. |
| `DeliveryWorker.DeliveryStore.CreateDelivery` | `internal/activitypub/delivery.go:119-129` | A queued delivery starts as `pending` with no attempts; a taken key changes nothing. |
| `OldestFirst.Pick` | `internal/db/db.go:823-825` | Ordering by age under a limit: different candidates, oldest first, and none is left out for a younger one. |
| `DeliveryWorker.DeliveryStore.GetPendingDeliveries` | `internal/db/db.go:820-840` | The answer holds the oldest eligible rows in order, at most `limit`, and leaves an eligible row out only if it is full of older ones; none if the query fails. |
| `DeliveryWorker.DeliveryStore.UpdateDeliveryStatus` | `internal/db/db.go:842-848` | The write ignores the old status and counter and touches one row. |
| `DeliveryWorker.FederationWorker.AttemptDelivery` | `internal/federation/worker.go:64-94` | The written status and counter are those of the transition function of the machine, in all three outcomes. |
| `DeliveryWorker.FederationWorker.MarkFailed` | `internal/federation/worker.go:96-100` | Writes `failed` with the given counter. |
| `DeliveryWorker.FederationWorker.ProcessDeliveries` | `internal/federation/worker.go:52-62` | One tick: a valid batch of fifty, each copy of it attempted in order; nothing if the query fails. |
| `InboxWorkers.HandledAtMostOncePerWorker` | `internal/federation/worker.go:103-124` | However n workers interleave, an inbox event is handled at most n times. |
| `InboxWorkers.EveryWorkerCanHandleIt` | `internal/federation/worker.go:103-124` | For every n some run handles one event n times: marking comes after handling and takes no lock. |
| `InboxQueue.InboxWorker.ProcessInboxEvents` | `internal/federation/worker.go:103-124` | With one worker a tick handles and marks the oldest unprocessed events, at most fifty, in order of creation, and the processed events are always exactly those handled, each once; nothing happens if the query fails. |
| `InboxOrder.SortedExactlyIfPunctual` | `internal/db/db.go:1050-1053` | Over any run of one worker in which all events are processed in the end, events are handled in the order of creation if and only if none arrives after a younger one was processed. |
| `InboxOrder.LateBreaksOrder` | `internal/activitypub/inbox.go:61-69` | An event that is inserted after a younger one was processed is handled out of order. |
| `InboxWorkers.TickIsARun` | `internal/federation/worker.go:110-123` | The loop of one tick is a run of the machine with one worker. |
| `InboxQueue.InboxWorker.CreateInboxEvent` | `internal/db/db.go:1041-1048` | Inserts an unprocessed event of any creation time; a taken key changes nothing; what is processed stays what was handled. |
| `InboxQueue.InboxWorker.GetUnprocessedInboxEvents` | `internal/db/db.go:1050-1069` | The oldest unprocessed events in order, as many as the limit allows. |
| `InboxQueue.InboxWorker.MarkInboxEventProcessed` | `internal/db/db.go:1071-1075` | Marks the one event and stores the error text. |
| `LineEditor.Shell.Handle` | `internal/ssh/shell.go:51-168` | The reading loop over a whole input, with its prompt, echo, history, dispatched commands and farewell, is the fold of `Feed`, about which the lemmas on screen and history speak. |
| `LineEditor.Shell.ReadByte` | `internal/ssh/shell.go:79-168` | One byte moves the whole state, including the echo stream, as `Feed` says. |
| `LineEditor.Shell.ReadEscaped` | `internal/ssh/shell.go:91-126` | Escape sequences: arrows recall entries, anything else is dropped after three bytes. |
| `LineEditor.Shell.ReadPlain` | `internal/ssh/shell.go:128-167` | All other bytes: escape, enter, backspace over one rune, Ctrl-C, Ctrl-D, Ctrl-U, printable and ignored bytes. |
| `LineEditor.Shell.RecallEntry` | `internal/ssh/shell.go:101-110` | Recalling an entry erases the line on the screen and prints the entry. |
| `LineEditor.Shell.ClearLine` | `internal/ssh/shell.go:273-277` | Erases as many cells as the line has bytes. |
| `LineEditor.Shell.AddToHistory` | `internal/ssh/shell.go:176-182` | An input that repeats the latest entry is not added, and the oldest of 101 entries goes. |
| `LineEditor.Shell.FinishLine` | `internal/ssh/shell.go:170-218` | Trimming, history, leaving, parsing and dispatching of a submitted line. |
| `LineEditor.KeyKeepsValid` | `internal/ssh/shell.go:91-168` | Every byte keeps the recall index inside the history and the escape buffer short, and leaves the history alone. |
| `ShellTyping.TextIsTyped` | `internal/ssh/shell.go:163-166` | From an open session outside of an escape sequence any text of bytes from 0x20 on, without the delete key, is appended to the line and echoed, and nothing else changes. |
| `ShellTyping.EnterSubmits` | `internal/ssh/shell.go:135-218` | Text and Enter: the trimmed line is recorded as input unless it is empty, exactly its tokens are dispatched, `exit` and `quit` and nothing else close the session, and the reply or the farewell and a fresh prompt are printed. |
| `ShellTyping.DeleteUndoesTyping` | `internal/ssh/shell.go:138-144` | Backspace takes back one typed rune, of one to four bytes, and one cell. |
| `ShellTyping.DeleteOnEmptyLine` | `internal/ssh/shell.go:138-144` | On an empty line backspace does nothing. |
| `ShellTyping.CtrlDCloses` | `internal/ssh/shell.go:152-156` | Ctrl-D closes the session exactly on an empty line and does nothing otherwise. |
| `ShellTyping.CtrlCCancels` | `internal/ssh/shell.go:146-150` | Ctrl-C empties the line: nothing is recorded or dispatched, and a fresh prompt follows. |
| `ShellTyping.CtrlUClears` | `internal/ssh/shell.go:158-160` | Ctrl-U empties the line and erases one cell for each of its bytes; the place in the history stays. |
| `ShellTyping.ControlIsIgnored` | `internal/ssh/shell.go:162-167` | The other control bytes are ignored. |
| `ShellTyping.OtherEscapesAreDropped` | `internal/ssh/shell.go:91-126` | ESC, "[" and a letter that is no arrow up or down leave no trace. |
| `ShellTyping.LongEscapesAreDropped` | `internal/ssh/shell.go:121-125` | ESC and three bytes of which the first is not "[" leave no trace. |
| `Utf8.DecodeLastUndoesEncode` | `internal/ssh/shell.go:141-142` | The rune that is deleted is the last one that was written, for every Unicode scalar value behind any bytes. |
| `Utf8.DecodeUndoesEncode` | `internal/ssh/shell.go:141-142` | Decoding reads every encoded rune, whatever follows. |
| `Utf8.DecodeIsSound` | `internal/ssh/shell.go:141-142` | What is decoded with more than one byte is the encoding of a scalar value. |
| `ShellScreen.RowIsPromptAndLine` | `internal/ssh/shell.go:69-168` | Screen simulation: after any ASCII input, when the greeting and the replies of commands end their rows, the terminal row reads exactly the prompt and the edited line, the cursor at its end and blanks after it. |
| `ShellScreen.ScreenShowsLine` | `internal/ssh/shell.go:69-168` | When they leave the cursor behind some text, exactly what the greeting, or the reply to the line submitted last, left on the row stands in front of the prompt. |
| `ShellScreen.KeyShows` | `internal/ssh/shell.go:91-168` | One key: the echo turns a row that shows the old line into one that shows the new line, or starts a new row. |
| `ShellScreen.EraseLine` | `internal/ssh/shell.go:273-277` | The erasing bytes take exactly the line off the screen and nothing before it. |
| `ShellScreen.PromptShows` | `internal/ssh/shell.go:63-70` | The prompt with its colour codes shows as its visible text. |
| `ShellHistory.HistoryIs` | `internal/ssh/shell.go:170-183` | After any input `history` is the last hundred of the non-empty trimmed inputs without adjacent repetitions, and the index is in -1..len-1. |
| `ShellHistory.UpsThenDowns` | `internal/ssh/shell.go:95-115` | From a fresh prompt u ups and d downs show the entry min(u, len) - d steps back; as many downs as ups return to the empty line. |
| `CommandLexer.ParseCommand` | `internal/ssh/shell.go:281-304` | The loop computes the scan that the four laws below are about. |
| `CommandLexer.ParseIsPieces` | `internal/ssh/shell.go:281-304` | The tokens are the non-empty pieces between the spaces that have an even number of quotes before them, without their quotes. |
| `CommandLexer.ParseConserves` | `internal/ssh/shell.go:281-304` | No token is empty or holds a quote; together the tokens are the input without quotes and unquoted spaces. |
| `CommandLexer.ParseConcat` | `internal/ssh/shell.go:281-304` | parse(a + " " + b) = parse(a) + parse(b) whenever a has an even number of quotes. |
| `CommandLexer.ParseRoundTrip` | `internal/ssh/shell.go:279-304` | Parsing the quoted, space-joined form of any non-empty quote-free arguments returns them. |
| `CommandLexer.UnclosedQuote` | `internal/ssh/shell.go:286-303` | An open quote parses as if it were closed at the end. |
| `SessionWriter.ConvertPairsLineFeeds` | `internal/ssh/shell.go:317-320` | The two replacements equal the single pass that puts a CR before each LF without one; they are idempotent, change nothing exactly if all LFs were paired, and never shorten. |
| `SessionWriter.CutInTwoWrites` | `internal/ssh/shell.go:316-330` | Two writes send what one write of both texts would if and only if the cut does not fall between a CR and its LF. |
| `SessionWriter.Writer.Write` | `internal/ssh/shell.go:316-330` | A complete write underneath always reports exactly the length of the argument; a partial one what was taken, capped. |
| `PostStore.ReachableIsForest` | `migrations/001_initial.sql:43-55` | In every store that statements of the commands can reach, ids are unique and every reply stands after its parent: an acyclic forest. |
| `PostStore.InsertKeepsForest` | `internal/commands/post.go:98-129` | Inserting a reply to a post that was looked up keeps the forest. |
| `PostStore.SchemaAllowsSelfReply` | `migrations/001_initial.sql:44-49` | The constraints alone do not give this: a row may reference itself. |
| `PostStore.TombstonesStay` | `internal/db/db.go:350-355` | In every run a deleted post stays deleted and stored, its ActivityPub id is never visible again and never belongs to a second row. |
| `PostStore.OneLocalOnlyPost` | `migrations/001_initial.sql:50` | In the whole life of an instance there is at most one row with the empty ActivityPub id: the one found after any further statements is the one found first. |
| `PostStore.RowsAlwaysFit` | `migrations/001_initial.sql:43-55` | In every reachable store the author of each row exists and its local id has at most 32 characters. |
| `Thread.GetThread` | `internal/db/db.go:443-462` | The working-table loop of the recursive query ends and returns exactly the live posts that hang under the root, each once, oldest first, also through deleted posts. |
| `Thread.ThreadReadsInOrder` | `internal/commands/thread.go:40-51` | With a strictly increasing clock parents come before their replies and a live root comes first. |
| `Thread.OneLevel` | `internal/db/db.go:450-453` | A row occurs in one round of the query only, so `UNION ALL` makes no duplicates. |
| `Thread.SortByTimeIs` | `internal/db/db.go:455` | The final sorting keeps the rows, each once, and orders them by creation time. |
| `ThreadTermination.EndsExactlyOffCycles` | `internal/db/db.go:445-454` | On any table with a primary key the recursive query ends if and only if the root does not answer itself through any chain. |
| `ThreadTermination.ForestHasNoCycle` | `internal/db/db.go:443-462` | In every reachable store it ends for every root. |
| `PostCommands.Database.CreateUser` | `internal/db/db.go:56-67` | Adds a user; the database stays one that a run of statements reaches. |
| `PostCommands.Database.DeleteUser` | `internal/db/db.go:125-128` | Removes a user who has no posts. |
| `PostCommands.Database.HasNoConflict` | `migrations/001_initial.sql:43-52` | Exactly the inserts that the keys, the column width and the references of the schema admit. |
| `PostCommands.Database.CreatePost` | `internal/db/db.go:294-303` | Appends the row if the statement succeeds and the constraints hold, which are spelled out: author, width of 32, unique keys, parent; else changes nothing. |
| `PostCommands.Database.DeletePost` | `internal/db/db.go:350-355` | Marks the row with this id and author. |
| `PostCommands.Database.GetPostByLocalID` | `internal/db/db.go:320-333` | Finds the live post with this local id if there is one. |
| `PostCommands.Database.GetPostByAPID` | `internal/db/db.go:335-348` | Finds the post with this ActivityPub id, deleted or not, if there is one. |
| `PostCommands.Database.PostCreate` | `internal/commands/post.go:36-84` | All outcomes of `post global` and `post local`, the row field by field: no parent, the stripped content within the limit, an ActivityPub id that is empty exactly for `post local` and silenced users; the command extends a run of the machine of the store. |
| `PostCommands.Database.PostReply` | `internal/commands/post.go:86-133` | All outcomes of `post reply` in the order of its checks, the row field by field: its parent is the live post with the local id, so it hangs under that post in its thread; the command extends a run of the store. |
| `PostCommands.Database.PostDelete` | `internal/commands/post.go:135-158` | Only the author or an administrator deletes; afterwards no live post has this local id, and nothing but marks changed; the command extends a run of the store. |
| `PostCommands.Database.HandleCreate` | `internal/activitypub/inbox.go:267-314` | A received note never adds a row: known ids, deleted ones included, are skipped and every other insert is refused by the schema; both look-ups may fail. |
| `PostCommands.Database.HandleDelete` | `internal/activitypub/inbox.go:317-329` | Afterwards the named post is not visible unless a statement fails; other posts are unchanged; a failed look-up passes for a missing post. |
| `PostCommands.MarkHides` | `internal/db/db.go:350-355` | After marking a live post no live post has its local id. |
| `PostCommands.ContentExactly` | `internal/commands/post.go:41-47` | A content is accepted if and only if it is the stripped text, not empty and at most as long as the limit. |
| `Sanitize.StripIsOutsideTags` | `internal/commands/sanitize.go:7-11` | Stripping keeps, in order, exactly the characters that are not between a "<" and the first ">" after it. |
| `Sanitize.StripFixpoint` | `internal/commands/sanitize.go:5-11` | Afterwards no "<" has a later ">"; a text is unchanged if and only if it had none; stripping twice is stripping once. |
| `Drafts.PublishBothWays` | `internal/commands/draft.go:32-129` | From equal stores, a text saved by `draft new` and published by `draft post` under the same limit gives the same post and store as `post global`, and leaves no draft. For a silenced user, and only then, the posts differ. |
| `Drafts.SaveAndPost` | `internal/commands/draft.go:32-129` | `draft new` and then `draft post` store exactly the row that a user who is not silenced would publish, and leave no draft. |
| `Drafts.DraftThenPostIsPost` | `internal/commands/draft.go:96-102` | A saved draft passes the checks again with exactly the content that was saved. |
| `Drafts.CommandsLoseNoDraft` | `internal/commands/draft.go:85-146` | In every state that the commands reach, each draft ever saved is stored, is in the table of posts by its author word for word, or was removed by `draft delete`. |
| `Drafts.NoDraftIsLost` | `internal/commands/draft.go:85-146` | In every interleaved run with any failing statements a draft is still stored, was published by its author word for word, or was removed by `draft delete`. |
| `Drafts.EventKeepsDrafts` | `internal/commands/draft.go:119-125` | Every statement keeps this; it needs that the draft is removed only after the insert succeeded. |
| `Drafts.DraftCommands.DraftNew` | `internal/commands/draft.go:32-60` | All outcomes of `draft new`. |
| `Drafts.DraftCommands.FindDraft` | `internal/commands/draft.go:149-160` | The most recent own draft whose id starts with the prefix, if there is one and drafts can be listed. |
| `Drafts.DraftCommands.DraftPost` | `internal/commands/draft.go:85-129` | All outcomes; the post is inserted before the draft is removed, and a failure in between leaves both; the command is a run of the machine of drafts. |
| `Drafts.DraftCommands.DraftDelete` | `internal/commands/draft.go:131-147` | Removes the found draft or changes nothing; the command is a run of the machine of drafts. |
| `LimiterBound.SlidingWindow` | `internal/auth/auth.go:123-143` | If at most c attempts of an address are ever between check and record and at most d between the two commands of a record, any stretch of a run with 10 + c + d of its failures, and one more for each check or renewal that gets lost in it, lasts at least 15 minutes: 11 failures for sequential attempts with whole records. |
| `LimiterTight.BurstIsPossible` | `internal/ssh/server.go:96-118` | 9 + c failures can be recorded at one moment, so with whole records the number cannot be lowered. |
| `LimiterTight.OverlapIsPossible` | `internal/auth/auth.go:135-138` | The counter can expire between the two commands of d records, and 9 + c + d failures then fall into one second. |
| `LimiterHandlers.AttemptIsARun` | `internal/ssh/server.go:96-118` | What either handler does to the counters is a run of the steps of the machine and leaves nothing in flight. |
| `LimiterLockout.LockOut` | `internal/ssh/server.go:142-197` | Over the handlers themselves: after ten failed logins of one address that were let through, by password or by unknown key, each less than 15 minutes after the one before, the next attempt less than 15 minutes later is refused even with the right password or key; an address without a counter is let through ten times. |
| `LimiterLockout.OpenAgain` | `internal/auth/auth.go:123-143` | Fifteen minutes after the last record the address is let in again. |
| `LimiterBound.EventKeepsCount` | `internal/auth/auth.go:133-143` | Every step keeps the tally: since each record renews the time to live, the counter expires in a window once at most and loses only failures that were inside their record. |
| `RateLimiter.Limiter.CheckLoginAttempts` | `internal/auth/auth.go:123-130` | Allowed exactly if fewer than ten unexpired failures are counted; no answer if Redis fails. |
| `RateLimiter.Limiter.RecordLoginAttempt` | `internal/auth/auth.go:133-143` | Counts one more and then renews the time to live, also when the counter exists; either command can get lost, and what is then left is stated for each case. |
| `RateLimiter.Server.HandlePasswordAuth` | `internal/ssh/server.go:142-197` | Who is accepted; a failed look-up, an unknown user and a wrong password each leave the count one higher and its expiry 900 seconds on, a right password and a locked account change nothing; an attempt goes on when the limiter fails. |
| `RateLimiter.Server.HandlePublicKeyAuth` | `internal/ssh/server.go:91-139` | The same for keys: only an unknown key counts, an error of its look-up, a missing user and a locked account do not. |
| `SignThenVerify.AcceptedExactlyIfUntouched` | `internal/activitypub/signatures.go:103-172` | A request that carries a signature made by `Sign` is accepted if and only if target, host, date and, if signed, digest are those that were signed, or the two different strings have one signature. |
| `SignThenVerify.SigningStringIsInjective` | `internal/activitypub/signatures.go:61-80` | Two signing strings over the signed list are equal if and only if all covered values are. |
| `SignThenVerify.UntouchedIsAccepted` | `internal/activitypub/signatures.go:109-171` | As long as the covered values are those that were signed, `Verify` rebuilds exactly the string of `Sign` and accepts, whatever else changed. |
| `SignThenVerify.SignedVerifies` | `internal/activitypub/signatures.go:27-172` | `Sign` then `Verify` on one request accepts, for any request whose URL or header names a host. |
| `SignThenVerify.TransmittedVerifies` | `internal/activitypub/signatures.go:51-53` | After transport, where the client writes its own host and the server takes it off the header map, a signed request verifies if and only if the signed host is the one on the wire, or the strings collide. |
| `SignThenVerify.DeliveredVerifies` | `internal/activitypub/delivery.go:42-56` | Every request that `Deliver` builds and signs verifies where it arrives. |
| `SignThenVerify.KeyIdRoundTrip` | `internal/activitypub/signatures.go:92-95` | The printed keyId is read back if and only if it has no comma and no quote at its ends. |
| `SignThenVerify.ParamsOfSignature` | `internal/activitypub/signatures.go:175-189` | The parsed header has the printed header list and signature. |
| `Signatures.Request.Sign` | `internal/activitypub/signatures.go:27-98` | Sets date and host unless set, signs the string over the list, stores the header; an unreadable key changes nothing. |
| `Signatures.BuildSigningString` | `internal/activitypub/signatures.go:61-80` | The builder loop joins the lines of the covered values by line feeds. |
| `Signatures.ParseSignatureHeader` | `internal/activitypub/signatures.go:175-189` | The loop computes the map that the round-trip lemmas are about. |
| `Signatures.Verify` | `internal/activitypub/signatures.go:103-172` | The accepted string, or the first of the six errors, in the order of the code. |
| `SignatureText.SignedStringIs` | `internal/activitypub/signatures.go:50-80` | The signed string of any request, letter by letter: the target with a verb that equals the one of the request up to case and has no capital, the host of the header or else of the URL, the date of the header or else the present one, and the digest if there is one. |
| `SignatureText.DeliveredStringIs` | `internal/activitypub/delivery.go:42-56` | For a delivery the signed string is "(request-target): post " + uri + "\nhost: " + host + "\ndate: " + date + "\ndigest: " + digest. |
| `SignatureText.SignatureHeaderIs` | `internal/activitypub/signatures.go:88-97` | The header that is sent, letter by letter, for any request. |
| `SignatureText.FilledInAre` | `internal/activitypub/signatures.go:49-55` | Signing fills in the date and the host where they are missing and leaves every other header but the signature as it was. |
| `SignatureText.LineIs` | `internal/activitypub/signatures.go:132-151` | What `Verify` rebuilds for one name of any received list: target, host, or the name as written and the value of the header whose canonical name it is. |
| `SignatureText.RebuiltOneMore` | `internal/activitypub/signatures.go:132-151` | Each further name adds a line feed, except the first, and its line. |
| `SignatureText.CanonicalIs` | `internal/activitypub/signatures.go:149` | Canonical names, position by position: capitals at the start and behind hyphens, small letters elsewhere; a name with other than token characters stays. |
| `SignatureText.ContentTypeIs` | `internal/activitypub/signatures.go:149` | The name content-type is looked up as Content-Type. |
| `SignatureText.ParamsAre` | `internal/activitypub/signatures.go:175-189` | For any received header a name has a value if and only if the last part between commas that assigns the name before its first "=" assigns that value, white space and outer quotes aside. |
| `SignatureText.AcceptedExactly` | `internal/activitypub/signatures.go:103-172` | A request is accepted if and only if it has a signature header with no or the right algorithm, a signature that decodes and a readable key, and the key verifies the rebuilt string, of the list or else of the date alone. |
| `SignatureText.RefusedExactly` | `internal/activitypub/signatures.go:104-110` | A missing header is the first error, and occurs exactly if there is no header. |
| `SignatureText.RefusedParams` | `internal/activitypub/signatures.go:113-127` | Which of the errors a refused request gets. |
| `Base64.RoundTrip` | `internal/activitypub/signatures.go:90-127` | Decoding undoes encoding, padded and unpadded. |
| `Base64.DecodedExactly` | `internal/activitypub/signatures.go:125-127` | Without its line breaks a text decodes to some bytes if and only if its digits hold exactly their bits, in order and with the right padding; the unused bits of a last digit may be any. |
| `Base64.AlphabetIs` | `internal/auth/auth.go:44-45` | The 64 digits. |
| `Base64.QuantumIs` | `internal/auth/auth.go:44-45` | Four digits are three bytes as one number of 24 bits. |
| `Base64.LastTwoAre` | `internal/auth/auth.go:44-45` | Two last bytes are three digits, filled up with two zero bits. |
| `Base64.LastOneIs` | `internal/auth/auth.go:44-45` | One last byte is two digits, filled up with four zero bits. |
| `Base64.BreaksAreSkipped` | `internal/auth/auth.go:67-75` | Line breaks are skipped wherever they stand, and nothing else is. |
| `PasswordHash.ReadUndoesFormat` | `internal/auth/auth.go:47-75` | Reading a formatted hash returns its parameters, salt and bytes, for all parameters of the integer widths. |
| `PasswordHash.HashThenVerify` | `internal/auth/auth.go:36-88` | Against a hash made from one password another is accepted if and only if Argon2id gives both the same key. |
| `PasswordHash.VerifyPassword` | `internal/auth/auth.go:52-88` | All errors in the order of the code, else the comparison of all bytes. |
| `PasswordHash.Differ` | `internal/auth/auth.go:83-87` | The accumulated difference is zero if and only if the byte sequences are equal. |
| `PasswordHash.ScanParamsUndoesPrint` | `internal/auth/auth.go:59-65` | Scanning undoes printing of the cost parameters. |
| `PasswordText.HashIs` | `internal/auth/auth.go:36-49` | The stored text of a password, letter by letter, with its parameters 65536, 3 and 4 and a key of 32 bytes. |
| `PasswordText.ScanFieldExactly` | `internal/auth/auth.go:59-65` | One parameter is read from exactly the texts of its name, white space without a line feed, all the digits of a number below the limit, and any rest. |
| `PasswordText.ScanParamsExactly` | `internal/auth/auth.go:59-65` | Parameters are read from exactly the texts that consist of the three names with numbers in the range of their types behind them, white space before a number and anything but a digit at the end. |
| `PasswordText.ReadExactly` | `internal/auth/auth.go:52-75` | A stored hash is read from exactly the texts of six parts between "$" with the scheme, parameters and two base64 texts in their places; the version is not looked at. |
| `Mentions.InboxProcessor.CreateMentionNotifications` | `internal/activitypub/inbox.go:588-627` | No user is notified twice, and a user is notified if and only if the first mention of the name has no domain or the local one and its statements succeed. |
| `Mentions.InboxProcessor.NotifyMention` | `internal/activitypub/inbox.go:592-626` | One turn of the loop: who is notified because of one word, and which name counts as seen. |
| `Mentions.MentionExactly` | `internal/activitypub/inbox.go:594-604` | A word mentions a handle if and only if it is the written handle between any punctuation, the name is not empty and has no "@", and the handle does not itself end in punctuation. |
| `Mentions.TagHidesMention` | `internal/activitypub/inbox.go:593-597` | A handle directly behind a tag is never a mention: only the brackets of the tag are cut. |
| `SshKeys.KeyDatabase.ImportSSHKeysFromURL` | `internal/commands/admin.go:304-346` | The reported number is the growth of the table, an error means no growth, and the new table is `AfterImport` of the body, of which `BodyRegisters` and `ImportAdds` speak. |
| `SshKeys.KeyDatabase.SettingsAddKeyURL` | `internal/commands/settings.go:166-215` | The second copy of the loop has the same contract, so the same effect on the table. |
| `SshKeys.ImportRegisters` | `internal/commands/admin.go:310-341` | After an import the registered fingerprints are those from before and exactly those of readable keys that fit and whose statements succeed. |
| `SshKeys.BodyRegisters` | `internal/commands/admin.go:304-346` | When no statement fails, an import for an existing user from a body of at most 65536 bytes registers exactly the digests of the lines whose trimmed text is not empty, is no comment, can be read, and has a first word of at most 246 characters. |
| `SshKeys.FetchedWhole` | `internal/auth/auth.go:200-205` | A body of at most 65536 bytes is read whole: its keys are the trimmed lines that are keys, in order. |
| `SshKeys.FetchedCut` | `internal/auth/auth.go:173` | Of a longer body the first 65536 bytes are read. |
| `SshKeys.ImportAdds` | `internal/commands/admin.go:317-341` | Rows from before and their owners are untouched, each fingerprint keeps one owner, and new rows hold keys of the list for the user under their fingerprints and names. |
| `SshKeys.SecondImportAddsNothing` | `internal/commands/admin.go:317-325` | Importing the same list again changes nothing. |
| `SshKeys.FitsExactly` | `internal/commands/dispatcher.go:97-107` | A key of an existing user fits the table if and only if the first word on its line has at most 246 characters, because the name of the key is built from it. |
| `SshKeyTable.WidthCountsCharacters` | `migrations/001_initial.sql:28-30` | The width of a column counts the characters of a text, of one to four bytes each. |
| `SshKeys.OwnerKeepsKey` | `internal/commands/settings.go:217-237` | In every run of imports and removals by anybody a key stays with its owner until the owner removes it, and no fingerprint has two owners. |
| `SshKeys.KeyDatabase.SettingsRemoveKey` | `internal/commands/settings.go:217-237` | All outcomes: removes the own key with this fingerprint; the key of another user reads as not found; a failed look-up is an error. |
| `SshKeys.KeyDatabase.CreateSSHKey` | `internal/db/db.go:199-206` | Appends the row exactly if its fingerprint is free, its user exists and it fits the columns. |
| `SshKeys.KeyDatabase.GetSSHKeyByFingerprint` | `internal/db/db.go:208-220` | Finds the row with this fingerprint if there is one. |
| `SshKeys.FingerprintIsInjective` | `internal/auth/auth.go:98-100` | Cutting the padding loses nothing: fingerprints are equal if and only if the digests are. |
| `SshKeys.ParseSSHKeys` | `internal/auth/auth.go:210-228` | The trimmed lines that are keys, in order, or an error if there is none. |
| `SshKeys.KeysAreThoseOnLines` | `internal/auth/auth.go:212-223` | The list has exactly the trimmed lines that are not empty, do not start with "#" and can be read, each once and in order. |
| `SshKeys.ListedIsReadable` | `internal/commands/admin.go:311-315` | Every key on the list can be read again during the import. |
| `SshKeys.KeyNameIs` | `internal/commands/dispatcher.go:97-107` | The name of a key is the first word of its line, a space, and the last eight of the 43 characters of the digest. |
| `Utf8.TrimSpaceIs` | `internal/ssh/shell.go:170` | Trimming cuts white space only and leaves none at the ends, with multi-byte white space. |
| `Utf8.SpacesAre` | `internal/ssh/shell.go:170` | White space is exactly the 25 characters with the Unicode property White_Space. |
| `Text.TrimExactly` | `internal/activitypub/inbox.go:594` | What remains of a text is t if and only if t has none of the characters to cut at its ends and the text is t between some of them. |
| `Text.FieldsOfJoined` | `internal/activitypub/signatures.go:91-121` | Words joined by spaces come back as the same words. |
| `Text.FieldsAre` | `internal/activitypub/inbox.go:590` | The words of any text: none is empty or holds white space, and the text is these words between runs of white space, of which only the outer ones may be empty. |
| `Text.SplitJoin` | `internal/auth/auth.go:53` | Splitting undoes joining. |

## Left out

- HTTP clients and servers, JSON, WebFinger, actor fetching, NodeInfo, outbox and collections: input and output.
- RSA, SHA-256, Argon2id, PEM and the reading of SSH keys are functions with stated laws (`Sound`, `Signs`,
  `KeepsLength`), total on all arguments: panics of Argon2id on zero costs are not modelled.
- The other commands and the inbox handlers for Follow, Like, Announce, Accept, Reject and Undo: one statement and
  some printing each.
- Single-key commands `settings add_key` and `admin add_key`: one turn of the import loop with other messages.
- DeliveryBound.PostsAreBounded: assumes that workers do not crash and that their writes succeed; after a lost write
  a row is simply sent again, without limit.
- DeliveryProgress.NoStarvation: assumes distinct creation times of the older rows, since the query leaves the order
  of equal ones open, that rows which arrive later are created later, and that queries and writes succeed.
- DeliveryWorker.FederationWorker.AttemptDelivery: the copy is a value, so the increment of its counter in place is
  seen only in what is written back.
- InboxWorkers.HandledAtMostOncePerWorker: assumes that marking an event succeeds; what handling it does is not part
  of that module.
- InboxQueue.InboxWorker.ProcessInboxEvents: assumes that marking succeeds; an event whose mark is lost is handled again.
- The columns `last_attempt` of deliveries and `updated_at` of posts: written, never read by the modelled queries.
- ShellScreen.ScreenShowsLine: ASCII input only, since one cell is erased per byte; one row without wrapping; replies
  of commands leave the cursor behind text with nothing to its right.
- LineEditor.Shell.Handle: an input that ends is an end of file; other read errors return without the farewell.
  Banner, dashboard and the bodies of commands are the parameters `greeting` and `reply`.
- LimiterBound.SlidingWindow: all steps read one clock, that of Redis, and a restart of Redis, which forgets the
  counters, is left out.
- LimiterTight.OverlapIsPossible: shown for d up to 9; more attempts cannot get halfway one by one.
- PostCommands.Database.CreateUser: of the row of a user only its key; PostCommands.Database.DeleteUser: of the
  references to a user only those of posts.
- PostCommands.Database.HandleCreate: the activity is already decoded, as for the deletion.
- Drafts.DraftCommands.DraftNew: identifiers of drafts are taken to be drawn only once.
- Drafts.DraftCommands.FindDraft: takes the newest match directly instead of listing all drafts in that order; drafts
  of equal age come in any order.
- Drafts.NoDraftIsLost: rows of users that are deleted, with which their drafts go, are left out.
- Mentions.InboxProcessor.CreateMentionNotifications: identifiers of rows and creation times are left out.
- SshKeys.OwnerKeepsKey: deleting a user, which deletes the user's keys, is left out.
- SshKeys.KeyDatabase.ImportSSHKeysFromURL: the audit log and the printed lines are left out.
- Texts that PostgreSQL refuses, such as zero bytes or invalid UTF-8, are failing statements.
- SignThenVerify.AcceptedExactlyIfUntouched: whether two strings ever have the same signature is left to RSA and
  SHA-256; that case is named in the statement.
- SignThenVerify.TransmittedVerifies: apart from the host, header values and the request target arrive as they were
  set; blanks at the ends of a value, which transport cuts, are not modelled.
- Signatures.Verify: parameters of the signature beside those that the code reads, such as `created`, are ignored as in
  the code; freshness of the date is not checked there either.
- `formatDuration`, configuration, migrations as executable SQL, key generation and the main functions.
