# Verified model of tiniclaw's stateful core

tiniclaw is an assistant runtime written in C. Around its input and output sit a few small stateful
components, and this project models those in Dafny and proves what they keep over whole runs.

| files | component |
|---|---|
| `Widths` | the integer widths all of them share |
| `CText`, `CronExpr`, `Json`, `CronTable`, `CronScheduler`, `CronRuns`, `CronSafety` | the cron scheduler and its jobs file |
| `RateWindow`, `RateTracker` | the sliding-window rate tracker |
| `Conversation`, `Agent` | the agent's history, tool dispatch and turn loop |
| `Bytes`, `Nibbles`, `Hex`, `Powers`, `BufferGrowth`, `ByteBuffer`, `JsonText` | hexadecimal, the growing buffer, JSON escaping |
| `Envelope`, `SecretStore` | encrypted secrets and their key file |
| `ArenaLayout`, `Arena` | the bump arena |
| `HttpText`, `HttpRequest` | the gateway's request parser |
| `TelegramChannel`, `TelegramPolling` | the Telegram polling loop and its server |
| `Similarity` | vector similarity and the hybrid score |

Most components come in two parts. One describes the component as a value, with functions, and
proves its laws: invariants over every run, round trips, exact conditions. The other is the object
with its fields, arrays and loops; each method states that it does what the function says.

What lies outside the code is a parameter: clock readings, random bytes, the provider and the tools,
the answers of the Bot API server, `strptime` with `mktime`, the conversion of an integer to a
double (of which only "exact up to 53 bits" is used), the square root (a non-negative number with
the given square), and the cipher (of which only this is used: sealing a text whose length fits an
int succeeds, adds a tag of 16 bytes, and is undone by opening). Clocks do not go back. All other results hold for every value of these parameters.

Run `dafny verify dfyconfig.toml` to check everything.

## Where the code and its documentation differ

The model follows the code.

- `README.md` and the head of `src/cron.c` call `at:` expressions one-shots. One stored as a cron
  expression, as the command line stores it, runs again at every pass
  (`CronTable.AtExpressionFiresForever`). Jobs of the one-shot kind do fire once.
- `include/util.h` says JSON escaping returns the number of bytes written. It returns 0.
- `include/agent.h` says a turn returns NULL on error. It returns the error's text.
- `include/security.h` calls the tracker a sliding-window limiter. Outside 1 <= limit <= 1024 it does
  not limit (`RateWindow.WindowBoundExactly`).

## What is not so

Some properties one might expect do not hold. Each is shown to fail and given its exact condition.

- Job identifiers are not always unique: `CronTable.IdentifiersRepeat`, `CronSafety.IdsDistinctExactly`.
- A job can stay due after it ran: `CronTable.AtExpressionFiresForever`, `CronTable.StillDueExactly`.
- An update can leave a job that a restart changes: `CronTable.UpdateSettledExactly`.
- The rate limit does not hold for all settings: `RateWindow.UnenforcedAllowsAll`,
  `RateWindow.WindowBoundExactly`.
- The history is not always within its maximum: `Conversation.PlainTurnsGrow`,
  `Conversation.WithinMaximumExactly`.
- The system prompt does not always stay first: `Conversation.RoundDropsOldestExactly`,
  `Conversation.PromptDroppedExactly`.
- A request without an Authorization field can get a value for it from its body:
  `HttpText.BodyTakenForAuth`, `HttpText.AuthorizationExactly`.

## Model

| member | source | states |
|---|---|---|
| `CText.ScanUndoesPrint` | src/cron.c:28 | `strtol` undoes `%llu` and stops where the digits stop, for every number up to `LONG_MAX` |
| `CText.ScanExactly` | src/cron.c:28 | `strtol` on white space, a sign and a number of any size: the number with its sign, or the end of the 64-bit range it is past, and the text where the digits stop |
| `CText.NothingScanned` | src/cron.c:28 | without a digit there it reads 0 and nothing of the text |
| `CText.ScanUndoesPrintInt` | src/channels/telegram.c:111-112 | a 64-bit integer printed in decimal is read back as itself |
| `CText.PrintAppendsDigit` | src/cron.c:139-141 | numbers are printed in decimal, the most significant digit first |
| `CronExpr.IntervalRoundTrip` | src/cron.c:135-143 | for every 64-bit interval the text rebuilt for it (h, m or s) is read back as exactly `every_ms / 1000` seconds, or rejected below a second; no product leaves the signed 64-bit range; the text fits its 32 bytes |
| `CronExpr.EveryTextExactly` | src/cron.c:24-35 | a user's `every:` text means that many seconds, minutes or hours from now, any other letter standing for seconds; zero and negative numbers are refused |
| `CronTable.IdentifiersRepeat` | src/cron.c:264 | after two adds, a removal and an add, two jobs share an identifier, and removing it takes the older |
| `CronTable.AddDistinctExactly` | src/cron.c:263-264 | an add keeps the identifiers distinct if and only if the number the job gets (its own, or one more than there are jobs) is not taken |
| `CronTable.AddExactly` | src/cron.c:258-276 | an added job stands behind the others, unchanged but for its number and its next run |
| `CronTable.RemoveExactly` | src/cron.c:282-293 | the first job of the identifier goes, all others keep their order |
| `CronTable.UpdateExactly` | src/cron.c:295-306 | the first job of the identifier becomes the one given, under the same identifier; no other job changes |
| `CronTable.UnknownIdExactly` | src/cron.c:282-306 | with an unknown identifier neither changes anything |
| `CronTable.DueSlotsExact` | src/cron.c:198-205 | a pass runs exactly the jobs enabled and due, each once, in table order |
| `CronTable.StillDueExactly` | src/cron.c:176-186 | a job that ran is due again at the same reading if and only if its expression is an `at:` text naming a past time |
| `CronTable.PassLeavesNothingDue` | src/cron.c:196-205 | after a pass nothing is due at its reading except those jobs, and what was not due is untouched |
| `CronTable.RunKeepsTheRest` | src/cron.c:172-186 | a run writes `last_run`, `next_run` and, for a one-shot, `enabled`, and no other field of the job |
| `CronTable.PassKeepsTheRest` | src/cron.c:196-205 | a pass does so to the jobs enabled and due, and nothing to the others |
| `CronTable.CronTextArms` | src/cron.c:37-51 | an `at:` text stored as a cron expression arms a job for exactly the time it names; one that names none, and any other text but `every:`, for a minute later |
| `CronTable.AtExpressionFiresForever` | src/cron.c:38-45 | an `at:` text stored as a cron expression is due again at every later reading, whatever ran (documented as a one-shot) |
| `CronTable.JobReadBack` | src/cron.c:102-121 | the fifteen fields written for a job are read back under the same names, for every job whose texts fit and whose numbers have at most 53 bits |
| `CronTable.NumbersWritten` | src/cron.c:60-76 | each number of a job is written under its own name |
| `CronTable.TextsWritten` | src/cron.c:60-76 | and so is each text, and whether it is enabled |
| `CronTable.LoadedTextsFit` | src/cron.c:102-121 | whatever a file holds, the texts of a loaded job fit their buffers; an element that is no object loads as an empty, disabled job |
| `CronTable.ReloadExactly` | src/cron.c:97-125 | saving and loading gives back the same jobs in the same order if and only if every job has an identifier and every enabled job is scheduled |
| `CronTable.AddSettled` | src/cron.c:263-276 | adding keeps every job reloadable in that sense |
| `CronTable.PassSettled` | src/cron.c:176-186 | so does a pass |
| `CronTable.RemoveSettled` | src/cron.c:282-293 | so does a removal |
| `CronTable.LoadSettled` | src/cron.c:97-125 | and a load of any file establishes it |
| `CronTable.UpdateSettledExactly` | src/cron.c:295-306 | an update keeps it if and only if what it stores is scheduled |
| `CronScheduler.Scheduler.constructor` | src/cron.c:213-225 | the start or restart of the run as a value: a new scheduler holds what its file loads to, and leaves the file as the loaded table is saved |
| `CronScheduler.Scheduler.Save` | src/cron.c:54-83 | the file holds the whole table afterwards, the table is unchanged |
| `CronScheduler.Scheduler.Load` | src/cron.c:85-127 | the table is the file's elements added in order; the file ends as that table saved |
| `CronScheduler.Scheduler.Add` | src/cron.c:248-280 | the step of the run as a value: the array grows when full; the table is the old one with the job numbered and scheduled at its end; it is saved |
| `CronScheduler.Scheduler.Remove` | src/cron.c:282-293 | the step of the run as a value: the first job of the identifier goes, the rest keeps its order; an unknown identifier changes nothing |
| `CronScheduler.Scheduler.Update` | src/cron.c:295-306 | the step of the run as a value: the first job of the identifier is replaced, its identifier kept; an unknown one changes nothing |
| `CronScheduler.Scheduler.RunJob` | src/cron.c:148-187 | the command line handed to the shell, and the job afterwards: only `last_run`, `next_run` and `enabled` of one slot change; a one-shot is disabled, any other job is scheduled from the end of its run |
| `CronScheduler.Scheduler.Pass` | src/cron.c:196-206 | the step of the run as a value: the in-place pass gives the table and the run order of the pass as a value, and saves only if something ran |
| `CronRuns.StepBooked` | src/cron.c:248-306 | every step keeps file and table in step and the serials of jobs distinct |
| `CronRuns.PassLogIsDueSlots` | src/cron.c:198-205 | the runs a pass logs are the due slots, run for run in table order |
| `CronRuns.StepView` | src/cron.c:148-306 | what one step can do to one job: leave it, drop it, run it once while due with its own command, or save it and add it again |
| `CronSafety.OneShotFiresOnce` | src/cron.c:148-187 | over every run of adds, removals, updates, passes and restarts, every one-shot, whatever it holds and however it came in, fires at most once and is disabled once it has |
| `CronSafety.OneShotNeverEarly` | src/cron.c:266-276 | over every such run a one-shot never fires before its time (or the next run it came with), and while enabled it is armed for exactly then, unless an update put it in unarmed |
| `CronSafety.OneShotFiresInTime` | src/cron.c:176-205 | and it does fire: the first pass from its time on runs an enabled one-shot that was added, for the one time, and disables it |
| `CronSafety.RepeatingRunsApart` | src/cron.c:131-209 | over every such run, each run of a repeating job starts at least its gap after the one before ended, and an interval of length T holds at most T / gap + 1 starts, and the job is armed for exactly its gap after its last run |
| `CronSafety.GapRearms` | src/cron.c:181-185 | a repeating job's next run is the end of its run plus its gap |
| `CronSafety.IntervalRunsApart` | src/cron.c:131-209 | over every such run each run of an interval job starts at least `every_ms / 1000` seconds (60 if below 1000 ms) after the one before ended, and an interval of length T holds at most T / that + 1 starts |
| `CronSafety.TaskKept` | src/cron.c:148-186 | over every such run a job keeps its name, type, command, schedule, timezone and delivery as they came in, through passes and restarts, and each of its runs hands the shell exactly its command with `2>&1` |
| `CronSafety.StepNamedExactly` | src/cron.c:248-306 | removals, updates, passes and restarts keep the identifiers distinct, and an add does if and only if the number it gives is free |
| `CronSafety.IdsDistinctExactly` | src/cron.c:248-306 | over every run the identifiers are distinct throughout if and only if they are so at the start and every job added gets a number that is free then |
| `CronSafety.RestartChangesNothing` | src/cron.c:85-127 | after any run without updates, a restart gives back table and file unchanged |
| `RateWindow.DecidesLikeFullLog` | src/security/pairing.c:171-178 | each decision equals the one the full unpruned record would give: fewer than `limit` calls allowed since now - window of the keys that agree with this one in their first 255 characters |
| `RateWindow.WindowBound` | src/security/pairing.c:156-182 | no window (t - window, t], wherever it lies, holds more than `limit` allowed calls of a key, for every run in order |
| `RateWindow.WindowBoundExactly` | src/security/pairing.c:157-179 | over all runs the bound holds if and only if the window is empty, or 1 <= limit <= 1024 and the window is below 2^63 |
| `RateWindow.UnenforcedAllowsAll` | src/security/pairing.c:157-179 | with any other limit or window no call of any run is refused |
| `RateWindow.KeysIndependent` | src/security/pairing.c:162-169 | every decision on a key, and the calls of it that were allowed, are as if only keys that agree with it in the first 255 characters had called |
| `RateWindow.EntryKeyExactly` | src/security/pairing.c:162-169 | two keys share an entry if and only if they are the same or agree in their first 255 characters |
| `RateTracker.RateEntry.Prune` | src/security/pairing.c:171-176 | compacting in place is filtering, in order |
| `RateTracker.RateEntry.Admit` | src/security/pairing.c:171-179 | the stamps left are the filtered ones and, if allowed and there is room, the new one |
| `RateTracker.RateTracker.Find` | src/security/pairing.c:162-163 | the walk finds the one entry of the key, or there is none |
| `RateTracker.RateTracker.Prepend` | src/security/pairing.c:164-169 | a new entry goes to the head; the keys stay distinct |
| `RateTracker.RateTracker.Allow` | src/security/pairing.c:156-182 | answer and stamps of every key are those of the tracker as a value, for any clock |
| `Conversation.HistoryIsSuffix` | src/agent/agent.c:14-36 | after any turns the history is the end of everything said since the reset |
| `Conversation.RequestsBounded` | src/agent/agent.c:202-222 | a turn makes at most `max_tool_iterations` provider calls, the first with the opened history, later ones within the maximum |
| `Conversation.FirstRequest` | src/agent/agent.c:182-222 | the first request of a turn is the history, the system prompt if none was said since the reset, and the user's words |
| `Conversation.RequestsFollow` | src/agent/agent.c:240-261 | each later request is the one before with the provider's own words and one message per call, cut to the maximum from the front |
| `Conversation.TurnEnds` | src/agent/agent.c:224-237 | a turn ends with the provider's error and the history as asked with, with its plain answer as newest message, or with the iterations used up by tool rounds |
| `Conversation.ToolTurnBounded` | src/agent/agent.c:261 | a turn with a tool round exceeds the maximum by the final answer at most |
| `Conversation.WithinMaximumExactly` | src/agent/agent.c:224-261 | a turn leaves the history within its maximum if and only if its last request was within it and, where a plain answer came back, left room for one more; after a last tool round always |
| `Conversation.RoundAnswersCalls` | src/agent/agent.c:242-258 | a tool round adds one message per call, in order, as the newest messages, with the tool's name and output |
| `Conversation.ResultExactly` | src/agent/agent.c:144-169 | a result carries its call's id and name and reports the output or error of the first tool of that name, or says there is none |
| `Conversation.RoundDropsOldestExactly` | src/agent/agent.c:28-36 | a tool round drops the oldest message if and only if what it adds exceeds the maximum; a system prompt at the front is lost in exactly these rounds |
| `Conversation.DroppedPromptStaysDropped` | src/agent/agent.c:182-188 | a dropped system prompt is not put back by later rounds |
| `Conversation.PromptDroppedExactly` | src/agent/agent.c:14-36 | over any turns since a reset one system prompt is said, first; the history has lost it if and only if it has lost anything |
| `Conversation.SaidByUserAndSystem` | src/agent/agent.c:182-190 | over any turns since a reset the user's messages are the inputs, in order, and the one system text is the first turn's prompt |
| `Conversation.PlainTurnsGrow` | src/agent/agent.c:232-237 | n turns without tool calls leave 2n + 1 messages, whatever the maximum |
| `Agent.Agent.PushMessage` | src/agent/agent.c:14-26 | history and log grow by the message, which owns a fresh copy of its text |
| `Agent.Agent.TrimHistory` | src/agent/agent.c:28-36 | the oldest messages over the maximum go and exactly their texts are freed, each once |
| `Agent.Agent.ResetHistory` | src/agent/agent.c:75-79 | the history is empty and exactly its texts are freed |
| `Agent.Agent.DispatchTools` | src/agent/agent.c:132-176 | one result per call, in order, each with three fresh texts of its own |
| `Agent.Agent.TakeTurn` | src/agent/agent.c:180-273 | the turn is the turn as a value, and first asks with the history, the prompt and the input; of all strings allocated on the way exactly those of the history and the answer stay live |
| `BufferGrowth.DoublingEndsExactly` | src/util.c:106-107 | the doubling loop, in wrapping 64-bit arithmetic, ends if and only if what is needed is at most 2^63 |
| `BufferGrowth.ResizedSound` | src/util.c:105-123 | every operation keeps room for the terminator, a capacity of 256 * 2^k at most twice the most needed, and a copying cost below the capacity |
| `BufferGrowth.RunBounds` | src/util.c:105-145 | so over every run: capacity 0 or 256 * 2^k, at most max(256, 2 * (largest len + 1)), all growths together copied less than it |
| `ByteBuffer.NcBuf.Grow` | src/util.c:105-113 | the least doubling that fits, with the contents kept |
| `ByteBuffer.NcBuf.Append` | src/util.c:115-123 | the contents are the old ones followed by the input, terminated |
| `ByteBuffer.NcBuf.Clear` | src/util.c:145 | empty contents, same block |
| `ByteBuffer.NcBuf.Take` | src/util.c:147-151 | the block is handed over with its terminated contents, the buffer is unused |
| `JsonText.JsonEscape` | src/util.c:155-177 | appends the escaped text of the NUL-terminated input |
| `JsonText.ReadsBack` | src/util.c:155-177 | a reader after section 7 of RFC 8259, given an escaped text and any tail, returns the text and the tail |
| `JsonText.SelfDelimiting` | src/util.c:155-177 | an escaped text determines the text and where it ends in any continuation |
| `JsonText.NoControlCharacters` | src/util.c:165-172 | no byte below 0x20 is written, and every quotation mark between the outer two follows a backslash |
| `JsonText.EscapesExactly` | src/util.c:158-172 | exactly quotation marks, backslashes and control characters are escaped, five of them in two characters and the others in six |
| `Hex.DecodeEncode` | src/util.c:203-229 | decoding undoes encoding, for every byte sequence |
| `Hex.EncodeDecode` | src/util.c:203-229 | encoding undoes decoding up to the case of the digits |
| `Hex.DecodesExactly` | src/util.c:218-227 | decoding accepts exactly the texts of an even number of hexadecimal digits |
| `Hex.EncodesAt` | src/util.c:203-206 | each byte is two lower-case digits, the high one first |
| `Hex.DigitsExactly` | src/util.c:211-216 | a digit's value is its place among the digits in either case, and nothing else is a digit |
| `Hex.HexEncode` | src/util.c:203-209 | the buffer holds the encoding and its terminator, the rest is unchanged |
| `Hex.HexDecode` | src/util.c:218-229 | -1 exactly for what cannot be decoded or does not fit; otherwise the bytes, and their count as an int |
| `Nibbles.SplitByte` | src/util.c:205-206 | shift and mask are quotient and remainder by 16 |
| `Nibbles.JoinByte` | src/util.c:226 | shift and or join them again |
| `Envelope.RoundTripExactly` | src/security/secrets.c:89-159 | decrypting what was encrypted gives back the secret if and only if it was sealed and its envelope's length fits an int, or it was left as it is and does not look like an envelope |
| `Envelope.EnvelopeOpens` | src/security/secrets.c:109-158 | the envelope splits back into nonce, ciphertext and tag |
| `Envelope.EncryptSeals` | src/security/secrets.c:107-124 | with a key an enabled store writes `enc2:` and the hexadecimal of the nonce and the sealed secret |
| `Envelope.LeftInClearExactly` | src/security/secrets.c:90-94 | a secret is left in the clear if and only if the store is disabled, the secret is empty, or there is no key |
| `Envelope.DecryptOpens` | src/security/secrets.c:132-158 | an envelope is opened with its first 12 bytes as the nonce and the rest as the ciphertext; where the cipher refuses, or without a key, the text is empty |
| `Envelope.DecryptLeaves` | src/security/secrets.c:129-130 | what does not begin like an envelope is left as it is; a disabled store only takes `enc2:` off |
| `Envelope.MalformedIsEmpty` | src/security/secrets.c:132-138 | odd, non-hexadecimal or too short envelopes decrypt to the empty text without touching the key file |
| `Envelope.SecretsSurvive` | src/security/secrets.c:72-159 | a secret sealed after any uses of the store comes back after any further uses: the key is made once and read again |
| `Envelope.KeyExactly` | src/security/secrets.c:72-87 | the key is the first 32 bytes of the file; without a file fresh random bytes are the key and the file |
| `Envelope.FileCreatedExactly` | src/security/secrets.c:89-145 | a use creates the key file if and only if there is none, it can be created, and there is something to seal or a well-formed envelope to open |
| `SecretStore.SecretStore.LoadOrCreateKey` | src/security/secrets.c:72-87 | the key is the file's first 32 bytes, or made and stored when there is no file; a short file gives none |
| `SecretStore.SecretStore.Encrypt` | src/security/secrets.c:89-125 | result and key file are those of the store as a value; with a key the result is an envelope of the nonce and the sealed secret |
| `SecretStore.SecretStore.Decrypt` | src/security/secrets.c:127-159 | result and key file are those of the store as a value |
| `ArenaLayout.MaskClearsLowBits` | src/arena.c:10-12 | masking with ones above k zeros clears the low k bits |
| `ArenaLayout.AlignUpLeast` | src/arena.c:10-12 | for a power of two the mask gives the least multiple not below the position |
| `ArenaLayout.AllocatedIs` | src/arena.c:29-34 | an allocation is aligned, behind the earlier ones and inside the buffer, or fails, for want of room, and changes nothing |
| `ArenaLayout.FailsExactly` | src/arena.c:29-34 | it fails if and only if the block fits at no aligned place behind the position; otherwise it gets the first such place |
| `ArenaLayout.BlocksDisjoint` | src/arena.c:29-34 | over every sequence of allocations the blocks are pairwise disjoint, in order, aligned and inside |
| `ArenaLayout.FitsWithoutFailure` | src/arena.c:29-34 | the position is at most the sum of size + align - 1, and a sequence whose sum fits never fails |
| `Arena.Arena.Alloc` | src/arena.c:29-34 | the position and block of the arithmetic; a failure changes nothing |
| `Arena.Arena.ZAlloc` | src/arena.c:36-40 | the block is zero, every earlier block keeps its bytes |
| `Arena.Arena.StrDup` | src/arena.c:42-50 | the block is a terminated copy, every earlier block keeps its bytes |
| `Arena.Arena.StrnDup` | src/arena.c:52-59 | the block is the first n bytes and a terminator; it fails exactly when they do not fit |
| `Arena.Arena.ResetArena` | src/arena.c:61-63 | the whole buffer is free again |
| `HttpText.ParseUndoesRender` | src/gateway.c:74-118 | parsing a printed request gives back the method (refused at 8 characters), the path without its query, the first Authorization value and the body, each as far as it fits |
| `HttpText.RefusedExactly` | src/gateway.c:76-96 | any received bytes are refused if and only if, up to the first NUL, there is no blank within the first 8 characters, no second blank, or no blank line |
| `HttpText.AuthIgnoresCase` | src/gateway.c:98 | the field's name is told in any mix of upper and lower case |
| `HttpText.AuthorizationExactly` | src/gateway.c:98-106 | the value a parsed request gets is its first Authorization field's; without such a field it is not empty if and only if the body, taken to begin a line and up to its first NUL, has an Authorization line and the first one has a value |
| `HttpText.BodyTakenForAuth` | src/gateway.c:98-106 | without such a field, a body that is an Authorization line gives its value |
| `HttpText.FindIsFirst` | src/gateway.c:95-102 | a search finds the first place and nothing when there is none |
| `HttpRequest.ParseRequest` | src/gateway.c:74-118 | the record's C strings and body are those of the parser as a function; the body length never underflows |
| `HttpRequest.ParseLine` | src/gateway.c:76-92 | method and path buffers, with the query cut off in place |
| `HttpRequest.ParseAuth` | src/gateway.c:98-106 | the Authorization buffer |
| `HttpRequest.ParseBody` | src/gateway.c:108-116 | the rest of the buffer, when not empty and under 1 MiB |
| `TelegramChannel.TelegramChannel.TakeAnswer` | src/channels/telegram.c:86-125 | one answer moves the offset past its last update and calls the handler with its text messages, in order |
| `TelegramPolling.HandledExactlyOnce` | src/channels/telegram.c:73-128 | over every run with lost polls and answers the handler was called for exactly the delivered text updates, once each in order of identifier, and no issued update is lost between client and server |
| `TelegramPolling.HandledAsPrinted` | src/channels/telegram.c:95-122 | over every run whose updates are as the Bot API prints them, the handler heard the delivered text messages, once each and in order: text, sender (63 characters, or `unknown`) and chat |
| `TelegramPolling.MessageExactly` | src/channels/telegram.c:95-122 | of one printed update the handler hears its text, its sender and its chat in decimal, and nothing of an update without text |
| `TelegramPolling.OddUpdateHeard` | src/channels/telegram.c:95-113 | of any other JSON only a text is heard, from `unknown` if the name is no text |
| `TelegramPolling.OffsetNeverDecreases` | src/channels/telegram.c:93 | the offset never goes back |
| `TelegramPolling.StepKept` | src/channels/telegram.c:75-126 | every step of either party keeps the account of updates |
| `Similarity.CauchySchwarz` | src/memory/sqlite_mem.c:61-65 | the Cauchy-Schwarz inequality for the accumulated sums, for vectors of any length |
| `Similarity.CosineSimilarity` | src/memory/sqlite_mem.c:59-68 | the loop computes the quotient of the sums, between -1 and 1, and never divides by zero |
| `Similarity.CosineSymmetric` | src/memory/sqlite_mem.c:59-68 | symmetric |
| `Similarity.CosineScaleInvariant` | src/memory/sqlite_mem.c:59-68 | unchanged when a vector is scaled by a positive factor |
| `Similarity.CosineNegated` | src/memory/sqlite_mem.c:59-68 | negated when a vector is scaled by a negative factor |
| `Similarity.CosineExactly` | src/memory/sqlite_mem.c:59-68 | 0 where a vector is zero; elsewhere, times both lengths, the inner product |
| `Similarity.SelfSimilarity` | src/memory/sqlite_mem.c:59-68 | a vector that is not zero has similarity 1 with itself |
| `Similarity.HybridRangeExactly` | src/memory/sqlite_mem.c:70-72 | scores in [-1, 1] mix into [-1, 1] if and only if the weights' absolute values sum to at most 1 |
| `Similarity.HybridLinear` | src/memory/sqlite_mem.c:70-72 | the weights (1, 0) give the first score, (0, 1) the second, and weights mix linearly |

## Left out

- CronSafety.OneShotFiresOnce: for clocks up to 2^52.
- CronSafety.OneShotNeverEarly: likewise, and for jobs whose numbers have at most 53 bits, as larger ones change in the file.
- CronSafety.IntervalRunsApart: likewise.
- CronSafety.RepeatingRunsApart: likewise, and for gaps up to 2^52 seconds; jobs whose expression is an `at:` text have no gap.
- CronSafety.OneShotFiresInTime: as CronSafety.OneShotNeverEarly.
- CronSafety.TaskKept: for clocks up to 2^52, and for jobs whose texts fit their buffers and whose numbers have at most 53 bits. What the shell does with the command, and its output, are outside.
- CronSafety.IdsDistinctExactly: for clocks up to 2^52; an identifier of more than 53 bits counts as not distinct, as the file can make two of them equal.
- CronRuns.StepView: a pass and a call of the public interface are single steps; the code takes no lock between the scheduler thread and its callers, and a crash between a run and its save is not modelled.
- CronExpr.IntervalRoundTrip: sums and products of user-written `every:` texts are computed without bound, where the C arithmetic is undefined on overflow; for interval jobs it is proved not to overflow.
- CronScheduler.Scheduler.Save: writing and reading the file do not fail, and the file's text is the JSON value it denotes.
- RateWindow.WindowBoundExactly: the cutoff is computed without bound; the C subtraction overflows for windows from 2^63 up to 2^63 plus the clock reading. The run that breaks the bound is at second 0, where only a window of exactly 2^63 does so.
- RateWindow.UnenforcedAllowsAll: likewise; at such a window and clock the C result is undefined.
- RateTracker.RateTracker.Allow: the mutex is not modelled, calls are single steps; keys are NUL-free.
- Agent.Agent.TakeTurn: texts the provider and the tools allocate for themselves, the building of the system prompt from files, and the saving of a turn to memory are not modelled; tool calls have names.
- Agent.Agent.PushMessage: running out of memory is not modelled, here or anywhere else.
- ByteBuffer.NcBuf.Append: also stands for the formatted append, on the bytes the format comes to; buffers above 2^63 bytes are excluded.
- JsonText.JsonEscape: for outputs that keep the buffer within 2^63 bytes.
- JsonText.ReadsBack: the reader refuses a lone surrogate escape, where section 7 of RFC 8259 leaves the choice open.
- Envelope.RoundTripExactly: the cipher itself is not modelled, nor plaintexts of 2^31 bytes and more, where the length passed to it changes sign.
- SecretStore.SecretStore.LoadOrCreateKey: the file's permissions are reduced to whether it can be created.
- Arena.Arena.Alloc: callers ask for sizes that do not wrap a `size_t` and for alignments that are powers of two; so do those of `ZAlloc`, `StrDup` and `StrnDup`.
- ArenaLayout.AllocatedIs: likewise, under sizes that do not wrap a `size_t`, and alignments that are powers of two, as the header asks; aligned means relative to the buffer.
- HttpText.ParseUndoesRender: header lines are printed with one blank after the colon, the only form the parser recognises.
- TelegramPolling.HandledExactlyOnce: one process; the offset is not stored, so after a restart the server's last unconfirmed answer is delivered again.
- TelegramPolling.HandledAsPrinted: chat identifiers of at most 53 bits, as larger ones are not exact in the JSON double.
- Similarity.CosineSimilarity: reals instead of floating point, so no rounding.
- Sockets, curl, child processes, the terminal interface, SQLite, cJSON and OpenSSL: input and output, or libraries.
- Real cron fields, which the code does not parse (any other expression means one minute), and time zones, which it ignores.
- Configuration, provider and channel tables, command risk lists and path checks: field copying and table lookup, which would only add easy members.
- The pairing code and bearer token, the audit log and the sandbox: one comparison, one formatted line and an empty wrapper.
