# A verified model of vaultproxy's in-process logic

The project models the parts of vaultproxy that decide something without
help from outside: how the privileged mount helper reads a request and edits
fstab, how the access log chains its entries, how a password rotation moves
from step to step, how caches, session maps and limiters forget, how the
Pass-2 login checker holds itself back, how reuse groups are found, how the
keystore's files fit together, and two text cutters. Each is proved against
an independent description of what it is for.

Verify everything with `dafny verify dfyconfig.toml`.

## How to read it

| file | models |
|---|---|
| `Text.dfy`, `Utf8.dfy`, `Sequences.dfy`, `Wrappers.dfy` | Rust's `str` operations, UTF-8, and shared helpers |
| `MiniJson.dfy`, `JsonParser.dfy`, `JsonEscape.dfy`, `JsonPrinter.dfy` | the mount helper's JSON grammar, cursor parser and escaper, and a printer for the round trip |
| `MountValidators.dfy`, `MountRequest.dfy` | validators, request fields, the fstab line and the credentials file |
| `Fstab.dfy`, `FstabRuns.dfy` | the fstab block editor and whole runs of it |
| `AccessLog.dfy` | the HMAC-chained access log |
| `RotationWorkflow.dfy`, `ApprovalQueue.dfy` | the rotation state machine and its approval queue |
| `CredCache.dfy`, `LocalSocket.dfy` | the credential cache and the socket handler over it |
| `SessionStore.dfy`, `RateLimiter.dfy` | dashboard sessions and sliding-window limiters |
| `Pass2.dfy` | the Pass-2 engine and worker |
| `PasswordAudit.dfy` | the password health audit |
| `Keystore.dfy` | the keystore's files over ideal cryptography |
| `ThinkBlocks.dfy` | removal of reasoning blocks |

State that the source updates in place is a class with the same fields; its
methods are tied to specification functions, and the laws are lemmas about
those. What a specification function computes is stated a second time without
it, in literal characters and numbers, places in a list, or sets of places: the
`...Iff`, `...Are` and `...Is` lemmas. Text is a sequence of Unicode scalar values, as a Rust `str` is; the
parser and the truncation work on bytes. Time is a parameter that does not
run backwards. What a lock protects is one step. What comes from outside (the
vault, the browser, the TPM, the clock) is a parameter that may answer anything.

HMAC and JSON serialisation of the access log are the fields of a `Codec`. The
tag function is arbitrary apart from yielding 64 hexadecimal digits; it is
never assumed injective. Tamper evidence is therefore stated as "the same
events, or here are two different inputs with one tag". `BodiesTell`
and `Faithful` say what the serialisation owes: an event's body starts with `{`
and determines the event, and a written line is a single non-blank line that
parses back. Tamper evidence needs only the former. The
audit's fingerprint is treated the same way. Keystore ciphertexts are terms.

## Findings

Where a promise does not hold of the code as it is, the model keeps the code,
gives an input that shows it, and proves exactly when the promise holds.

- An fstab line that ends in a carriage return of its own loses it at every
  accepted rewrite, because `lines()` takes one `\r` with each `\n`
  (`FstabRuns.OperatorLineCanChange`). Operator lines survive a run unchanged
  exactly when there is no such line or nothing was accepted
  (`FstabRuns.OperatorLinesKeptIff`).
- `validate_creds_dir` accepts any text below `/etc/samba/`, also with spaces,
  commas or line breaks (`MountRequest.SplitBackCanFail`,
  `MountRequest.PlainLineCanFail`). The fstab line splits back into its fields and
  options exactly when the directory has neither whitespace nor a comma
  (`MountRequest.LineSplitsBackIff`), and is a single plain line exactly when
  the directory has no line break (`MountRequest.BuiltLineIsPlainIff`).
- The escaper's output is read back unchanged exactly when the text is ASCII
  (`JsonEscape.RoundTripIffAscii`, `JsonEscape.RoundTripCanFail`); it is injective
  on all texts regardless.
- A keystore set up over a directory whose TPM files were not cleared cannot be
  unlocked with the new password while the TPM works: the TPM path succeeds
  with the old key and nothing falls back (`Keystore.SetupOverLeftoversIff`,
  `Keystore.SecondSetupLocksOut`).
- The approval queue's comment and error text speak of refusing when all 64
  entries are pending. The code evicts the oldest pending request instead and
  cannot refuse (`ApprovalQueue.ApprovalQueue.Enqueue`); a pending request is lost
  exactly when a full queue holds nothing else (`ApprovalQueue.PushLaw`,
  `ApprovalQueue.PendingCanBeLost`).
- A rotation needs at most 46 step executions, not 3 times 16: the synchronous
  generate step cannot fail. The bound is attained (`RotationWorkflow.BoundIsTight`).
- Stripping reasoning blocks a second time can remove more
  (`ThinkBlocks.NotIdempotent`). It changes nothing exactly when, in the division
  of the input into kept and dropped stretches, no kept stretch ends in a front of
  the opening tag that the kept text behind it completes
  (`ThinkBlocks.SecondPassIff`).

## Model

| member | source | states |
|---|---|---|
| MiniJson.ParserIffGrammar | src/bin/mount_helper.rs:509-701 | The parser yields these fields on a byte string if and only if a concrete syntax tree of the grammar spells that string and means those fields |
| MiniJson.DocumentComplete | src/bin/mount_helper.rs:581-609 | Every document of the grammar, whatever its whitespace and escapes, is read back as its meaning |
| MiniJson.DocumentSound | src/bin/mount_helper.rs:509-522 | From every accepted byte string a syntax tree can be rebuilt that spells exactly that string, nothing left over |
| MiniJson.MembersComplete | src/bin/mount_helper.rs:588-608 | Members separated by commas, with whitespace around each token, are read in order up to the closing brace |
| MiniJson.ItemsComplete | src/bin/mount_helper.rs:628-653 | The same for a string array up to its bracket |
| MiniJson.BodyComplete | src/bin/mount_helper.rs:655-701 | A literal's body is read character by character and reading stops right behind the quote |
| MiniJson.BodySound | src/bin/mount_helper.rs:655-701 | Every body accepted is spelled by valid pieces that mean the result: raw bytes one by one, short escapes, four-digit escapes that are no surrogates |
| MiniJson.HexValueIff | src/bin/mount_helper.rs:681-686 | Four bytes read as a number if and only if they are its hexadecimal digits, most significant first, where a leading plus sign, which from_str_radix lets through, stands for a zero |
| MiniJson.SpaceIff | src/bin/mount_helper.rs:557-564 | Whitespace is space, tab, line feed and carriage return, and nothing else |
| MiniJson.ShortEscapeIff | src/bin/mount_helper.rs:666-678 | The eight one-character escapes stand for what RFC 8259 says, and there is no other |
| MiniJson.HexDigitIff | src/bin/mount_helper.rs:681-686 | Hexadecimal digits in either case |
| MiniJson.CharOfIff | src/bin/mount_helper.rs:687-691 | A four-digit escape is the character of its number, and refused exactly for surrogates |
| MiniJson.NothingBehindObject | src/bin/mount_helper.rs:509-522 | Behind the object nothing but whitespace may follow |
| MiniJson.TrailingCommaRefused | src/bin/mount_helper.rs:588-608 | A comma behind the last member is refused |
| JsonParser.Parse | src/bin/mount_helper.rs:509-522 | For every byte string the cursor parser terminates, stays in range, and succeeds with exactly the fields that the grammar derives |
| JsonParser.Parser.ParseString | src/bin/mount_helper.rs:655-701 | The loop over the cursor returns what the suffix parser returns and leaves the cursor at the unread rest |
| JsonParser.Parser.ParseStringArray | src/bin/mount_helper.rs:628-653 | The array loop agrees with the suffix parser in value and rest |
| JsonParser.Parser.ParseAnyValue | src/bin/mount_helper.rs:611-626 | A value is a string, an array or null; anything else is rejected |
| JsonParser.Parser.ParseMember | src/bin/mount_helper.rs:588-592 | Key, colon and value of one member, rejected when any is missing |
| JsonParser.Parser.ParseObj | src/bin/mount_helper.rs:581-609 | The object loop agrees with the suffix parser in fields and rest |
| JsonParser.Parser.SkipWs | src/bin/mount_helper.rs:557-564 | The cursor stops at the first byte that is not JSON whitespace |
| JsonParser.Parser.Expect | src/bin/mount_helper.rs:566-574 | Succeeds exactly when the byte is the next one behind whitespace, and then consumes it |
| JsonParser.Parser.Peek | src/bin/mount_helper.rs:576-579 | Shows the next byte behind whitespace without consuming it |
| JsonEscape.SerdeEscape | src/bin/mount_helper.rs:705-719 | The escaping loop computes the concatenation of the characters' escapes |
| JsonEscape.ReadEscaped | src/bin/mount_helper.rs:655-719 | For every text, parsing its escape between quotes yields the text's UTF-8 bytes as characters and stops right behind the closing quote |
| JsonEscape.RawBytesAreRead | src/bin/mount_helper.rs:655-701 | Any bytes but quote and backslash, control bytes too, may stand raw and are read one by one |
| JsonEscape.RoundTripIffAscii | src/bin/mount_helper.rs:655-719 | The text comes back unchanged if and only if it is ASCII |
| JsonEscape.RoundTripCanFail | src/bin/mount_helper.rs:698 | One character beyond ASCII comes back as two |
| JsonEscape.EscapeHasNoControl | src/bin/mount_helper.rs:705-719 | No escape holds a character below 0x20 |
| JsonEscape.EscapeInjective | src/bin/mount_helper.rs:705-719 | Different texts have different escapes |
| JsonEscape.EscapeForms | src/bin/mount_helper.rs:705-719 | Five characters have short escapes, the other control characters six-character ones with lower-case digits, all others none |
| JsonPrinter.PrintedIsDerived | src/bin/mount_helper.rs:509-719 | An object of ASCII texts and text arrays, printed with the escaper, is a document that means its fields |
| JsonPrinter.NullIsEmptyText | src/bin/mount_helper.rs:611-626 | A null value counts as the empty text |
| MountRequest.ParseRequest | src/bin/mount_helper.rs:95-144 | Accepts a buffer exactly when it is UTF-8 and a document of the grammar whose members hold a request that obeys the rules, which is the result |
| MountRequest.RequestOfIff | src/bin/mount_helper.rs:100-144 | The parts are the first members of their names and kind, or the literal defaults, and a request results if and only if these obey the rules |
| MountValidators.ValidatedIff | src/bin/mount_helper.rs:119-131 | The validators accept a request if and only if it obeys the rules in plain terms, action by action |
| MountValidators.MountPointIff | src/bin/mount_helper.rs:218-239 | The mount point is the allowed root, cut of its trailing slashes, a slash and more text, with no component `..`, at most 256 path characters |
| MountValidators.AbsPathIff | src/bin/mount_helper.rs:196-207 | Absolute, and no component between slashes is `..` |
| MountValidators.CredsDirIff | src/bin/mount_helper.rs:209-216 | One of the two named directories or any text below /etc/samba/ without a component `..` |
| MountValidators.ShareIff | src/bin/mount_helper.rs:166-194 | Two slashes, a host, a slash and a path of the allowed characters, no two dots in the path, at most 256 characters |
| MountValidators.FsOptionIff | src/bin/mount_helper.rs:276-297 | 1 to 128 option characters, and none of the five reserved keys is set |
| MountValidators.SlugIff | src/bin/mount_helper.rs:150-164 | 1 to 32 lower-case letters, digits and hyphens, no hyphen at either end |
| MountValidators.UsernameIff | src/bin/mount_helper.rs:241-252 | 1 to 64 characters of the allowed ones |
| MountValidators.PasswordIff | src/bin/mount_helper.rs:254-266 | 1 to 512 bytes without line feed, carriage return and NUL |
| MountRequest.PrintedRequestIsRead | src/bin/mount_helper.rs:95-144 | A rule-abiding ASCII request printed as JSON is read back as itself, from the bytes on |
| MountRequest.RequestRoundTrip | src/bin/mount_helper.rs:100-144 | Every valid request is read back from an object of its own fields, each from its own key |
| MountRequest.LineSplitsBackIff | src/bin/mount_helper.rs:364-374 | The fstab line of a validated mount request splits back into share, mount point, cifs, options, 0 and 0, and the options into the credentials file and all of the caller's in order, if and only if the credentials directory has no whitespace and no comma; credentials is always the first option and the only one with that key |
| MountRequest.LineDetermines | src/bin/mount_helper.rs:364-374 | Requests with one line have one share, mount point, credentials file and option list |
| MountRequest.CredsBodyReadsBack | src/bin/mount_helper.rs:254-266 | The credentials file of a validated request reads back as its two lines and no third |
| MountRequest.NamedDirsSplitBack | src/bin/mount_helper.rs:364-374 | For the two directories named outright the line always splits back |
| MountRequest.SplitBackCanFail | src/bin/mount_helper.rs:212-214 | A directory below /etc/samba/ that passes validation and whose line never splits back |
| MountRequest.BuiltLineIsPlainIff | src/bin/mount_helper.rs:364-374 | The built line is one trimmed line that is no comment if and only if the credentials directory has no line break |
| MountRequest.PlainLineCanFail | src/bin/mount_helper.rs:212-214 | A directory below /etc/samba/ that passes validation and whose line is always broken in two |
| MountRequest.ShareIsWord | src/bin/mount_helper.rs:166-194 | A valid share has path characters only, so no field separator |
| Text.LinesOfUnlines | src/bin/mount_helper.rs:389-403 | Writing lines and reading them back drops one trailing carriage return per line and nothing else |
| Text.RewriteKeepsLines | src/bin/mount_helper.rs:389-403 | Reading back gives the same lines if and only if none ends in a carriage return |
| Text.SplitJoin | src/bin/mount_helper.rs:365-367 | Splitting undoes joining options if and only if no option holds the separator |
| Text.WhitespaceIff | src/bin/mount_helper.rs:392 | Whitespace is the 25 characters with the Unicode property |
| Text.TrimOver | src/bin/mount_helper.rs:392 | Trimming takes the whitespace at both ends and nothing else |
| Text.WordsOver | src/bin/mount_helper.rs:416 | Words are found whatever whitespace stands before and between them |
| Fstab.FstabFile.WriteFstabBlock | src/bin/mount_helper.rs:379-437 | Refuses exactly on an unterminated block or a mount point that another active line uses, leaving the file alone; otherwise the file holds the lines outside the slug's blocks, in order, and the new block |
| Fstab.OpenStep | src/bin/mount_helper.rs:391-403 | The in-block flag means that a begin marker stands before the line with no end marker since |
| Fstab.ShadowStep | src/bin/mount_helper.rs:410-423 | The scan for a mount point in use covers every active line before the current one |
| Fstab.LineClaimsSecondWord | src/bin/mount_helper.rs:410-424 | An operator line of two or more words, spaced as it may be, claims its second word and no other mount point |
| Fstab.ShortLineClaimsNothing | src/bin/mount_helper.rs:410-424 | A line of one word or none claims nothing |
| Fstab.CommentClaimsNothing | src/bin/mount_helper.rs:412-414 | A comment claims nothing |
| FstabRuns.RefusedIff | src/bin/mount_helper.rs:404-424 | On any file the editor refuses if and only if a block of the slug is left open or a line in none of its blocks claims the new line's mount point |
| FstabRuns.RewrittenIs | src/bin/mount_helper.rs:425-437 | An accepted rewrite of any file leaves exactly the lines in none of the slug's blocks, in order, and then the three lines of the new block |
| FstabRuns.FileIsOrderedMap | src/bin/mount_helper.rs:379-437 | From any marker-free file, any run of valid writes and removals leaves the operator's lines followed by one block per installed slug by last write, slugs distinct, no managed mount point used by another active line |
| FstabRuns.RunRefines | src/bin/mount_helper.rs:379-437 | Every run on a file that shows a table keeps showing the table that the same commands give |
| FstabRuns.StepRefines | src/bin/mount_helper.rs:379-437 | One rewrite is one delete-then-append on the table, refused exactly when the table says so |
| FstabRuns.RefusalAgrees | src/bin/mount_helper.rs:404-424 | The editor refuses if and only if an operator line or another slug's line uses the mount point |
| FstabRuns.OutsideTable | src/bin/mount_helper.rs:391-403 | Scanning out a slug from a table's lines is deleting it from the table |
| FstabRuns.OperatorLinesKeptIff | src/bin/mount_helper.rs:391-403 | A run leaves the operator's lines unchanged if and only if none ends in a carriage return or every command was refused |
| FstabRuns.OperatorLineCanChange | src/bin/mount_helper.rs:391-403 | A file whose one line loses a carriage return by an accepted removal |
| FstabRuns.RewriteKeepsOutside | src/bin/mount_helper.rs:391-403 | On an arbitrary file, the lines outside the slug's block are kept in order, up to carriage returns |
| FstabRuns.StepKeepsUnique | src/bin/mount_helper.rs:407-424 | No command makes a managed mount point coincide with another active line's second field |
| FstabRuns.LastWriteWins | src/bin/mount_helper.rs:376-378 | Of two installs of one slug in a run, the second is refused or not regardless of the first; refused it leaves the first, accepted it leaves what it alone would have left, so writing is idempotent |
| FstabRuns.RemoveUndoesInstall | src/bin/mount_helper.rs:376-378 | Installing a slug that was not there, accepted or refused, and removing it restores the blocks, and the whole table when no operator line ends in a carriage return |
| FstabRuns.OthersUnaffected | src/bin/mount_helper.rs:391-403 | A run that does not name a slug leaves its block alone; a run for one slug leaves all other blocks and their order alone |
| FstabRuns.BlockIsLastWrite | src/bin/mount_helper.rs:379-437 | After any run, refusals included, a slug's block is exactly what the last accepted command for it left |
| FstabRuns.OwnWriteNeverRefuses | src/bin/mount_helper.rs:404-424 | What was done to a slug has no say in whether a later mount point for it is refused |
| FstabRuns.MountIsCommand | src/bin/mount_helper.rs:303-311 | A validated mount request installs a line for its own mount point, and is a valid command if and only if the credentials directory is on one line |
| AccessLog.Verify | src/access_log.rs:150-204 | Accepts exactly the logs whose non-blank lines parse and in which every entry names the tag before it and carries the tag over that and its body |
| AccessLog.VerifiedIff | src/access_log.rs:150-204 | A log verifies if and only if its non-blank lines parse to entries of which the first names no tag, each other the tag before it, and each carries the tag of its own input |
| AccessLog.EntriesAre | src/access_log.rs:159-185 | The entries are what the non-blank lines parse to, in order; reading fails exactly when one does not parse |
| AccessLog.ComputeLastHmac | src/access_log.rs:246-262 | Returns the last stored tag, empty for an absent or blank log, an error when a line does not parse |
| AccessLog.Open | src/access_log.rs:73-104 | Fails exactly when a line does not parse; otherwise resumes from the last stored tag and creates a missing file empty |
| AccessLog.AccessLog.Record | src/access_log.rs:113-143 | Appends the one line that continues the chain and moves the head to its tag, or changes nothing when the write does not land |
| AccessLog.StepKeepsConsistent | src/access_log.rs:73-143 | One write or reopening keeps the file verified and the head in memory equal to the last tag in it |
| AccessLog.RunKeepsConsistent | src/access_log.rs:73-204 | The same over any sequence of writes and reopenings, and the log gains exactly the events that landed, in order |
| AccessLog.FreshLogHoldsLanded | src/access_log.rs:73-143 | A log started from nothing verifies and holds exactly the landed events |
| AccessLog.InputSplitsUniquely | src/access_log.rs:121-125 | What a tag is computed over determines the previous tag and the event |
| AccessLog.SameHeadSameEvents | src/access_log.rs:150-204 | Two verified chains with one final tag, of any lengths, hold the same events in order, or the pair computed from them is two different inputs of their own entries with one tag |
| AccessLog.FindCollision | src/access_log.rs:186-201 | What it returns are two different tag inputs, one of an entry of each chain |
| AccessLog.VerifiedLogsAgree | src/access_log.rs:150-204 | Two log texts that verify and end in one tag log the same events in order, or the pair computed from their entries is a tag collision |
| AccessLog.AlteredEventNeedsCollision | src/access_log.rs:145-149 | An entry altered in place still verifies only with an explicit tag collision |
| RotationWorkflow.EveryRunIsSafe | src/browser/workflow.rs:122-264 | In every run one password is generated, first; all fills and vault writes carry it; each vault write follows generate, fill, confirm, save and positive verification, complete and in order; no execution reports a missing password; success means an acknowledged vault write |
| RotationWorkflow.VaultWritesArePrepared | src/browser/workflow.rs:122-264 | In every run each vault write has generate, fill, confirm, save and positive verification of the one password at increasing places before it |
| RotationWorkflow.RejectionEndsRun | src/browser/workflow.rs:700-709 | A rejected verification ends the run at once as failed, with nothing written |
| RotationWorkflow.TimeoutEndsRun | src/browser/workflow.rs:127-142 | The run timer ends the run at once as failed, in whatever step that waits for the outside |
| RotationWorkflow.SuccessSawNoRejection | src/browser/workflow.rs:122-211 | In a run that succeeds no verification was rejected and the run timer did not strike |
| RotationWorkflow.UnclearIsRetried | src/browser/workflow.rs:710-717 | An answer that is no verification counts as one failed attempt |
| RotationWorkflow.FailedWriteMayLand | src/browser/workflow.rs:720-756 | A vault write that fails after it got through keeps the password for the next attempt |
| RotationWorkflow.SmoothSteps | src/browser/workflow.rs:213-244 | When nothing fails the executed steps are exactly the listed ones in order, two-factor handling only on demand |
| RotationWorkflow.TickKeepsInvariant | src/browser/workflow.rs:144-211 | Every step execution keeps the invariant whatever the outside answers, and never reports a missing password |
| RotationWorkflow.TickUsesOne | src/browser/workflow.rs:170-209 | Every execution lowers the number of executions that can still follow, attempts staying at most two |
| RotationWorkflow.SuccessAdvances | src/browser/workflow.rs:213-244 | A successful step leads strictly forward in the step order |
| RotationWorkflow.ExecutionsBounded | src/browser/workflow.rs:144-211 | Every run ends in a terminal step after at most 46 executions, without the run timer |
| RotationWorkflow.BoundIsTight | src/browser/workflow.rs:144-211 | A successful run with exactly 46 executions |
| RotationWorkflow.GivesUpAfterThree | src/browser/workflow.rs:179-209 | Three failures or timeouts of a step in a row end the run as failed |
| RotationWorkflow.SmoothRun | src/browser/workflow.rs:213-244 | When nothing fails each step runs once, two-factor handling only on demand, and the trace is the milestones and one acknowledged write |
| RotationWorkflow.OkMeansDone | src/browser/workflow.rs:153-163 | The run reports success exactly when it ends in the done step |
| RotationWorkflow.RotationWorkflow.Run | src/browser/workflow.rs:122-211 | The imperative loop over step and attempt counter computes the specified run |
| RotationWorkflow.RotationWorkflow.RunFresh | src/browser/workflow.rs:122-142 | A fresh workflow's run is the specified run from the start and obeys the laws of every run |
| RotationWorkflow.RotationWorkflow.ExecuteStep | src/browser/workflow.rs:213-244 | Each step acts on the password slot and the outside as specified |
| RotationWorkflow.RotationWorkflow.StepGenerateNewPassword | src/browser/workflow.rs:622-627 | Fills the password slot and cannot fail |
| RotationWorkflow.RotationWorkflow.StepFillPassword | src/browser/workflow.rs:629-663 | Fills the slot's password into the new or the confirm field, possibly even when the step fails |
| RotationWorkflow.RotationWorkflow.StepVerifySuccess | src/browser/workflow.rs:677-718 | Only a positive verification leads on to the vault update |
| RotationWorkflow.RotationWorkflow.StepUpdateVault | src/browser/workflow.rs:720-756 | Writes the slot's password and empties the slot only when the write is acknowledged |
| ApprovalQueue.ApprovalQueue.Enqueue | src/browser/workflow.rs:450-487 | Always adds the request, evicting the oldest resolved or else the oldest entry of a full queue |
| ApprovalQueue.PushLaw | src/browser/workflow.rs:450-487 | The cap of 64 holds and a pending request is lost exactly when a full queue holds nothing else |
| ApprovalQueue.EvictsOldestResolved | src/browser/workflow.rs:458-470 | A full queue loses its oldest resolved entry, or its oldest if none is resolved; any other loses none |
| ApprovalQueue.PendingCanBeLost | src/browser/workflow.rs:450-487 | With 64 pending requests the next one drops the first |
| CredCache.CredCache.Get | src/cred_cache.rs:44-56 | Answers as an unbounded record of the accepted puts filtered by expiry |
| CredCache.CredCache.PutEntry | src/cred_cache.rs:58-71 | Extends that record, except that a zero default TTL without an override is ignored |
| CredCache.CredCache.PurgeExpired | src/cred_cache.rs:73-76 | Leaves the record, and so every later answer, unchanged and keeps nothing expired |
| CredCache.AnswerIff | src/cred_cache.rs:44-71 | A value is answered if and only if it is an unexpired put that no later put of its key replaced |
| LocalSocket.SocketServer.GetItemFields | src/local_socket.rs:189-247 | Every served value is either what the cache answers at that field's own lookup time, returned by the vault and cached less than one TTL before, or, when the cache has no answer then, what the vault replied to this request; with a zero TTL always the latter; success carries exactly the requested fields; an error is the first failed fetch |
| LocalSocket.SocketServer.FieldValue | src/local_socket.rs:193-210 | One round of the loop: the cache's answer at the lookup, or the fetch, whose value is then put |
| LocalSocket.RequestIsJustified | src/local_socket.rs:189-247 | Over all rounds of a request, each served value is justified at the moment of its own lookup, whatever other connections do in between |
| LocalSocket.CachedForOneTtl | src/local_socket.rs:199-202 | A fetched value answers from the cache for exactly one TTL, unless its key is put again |
| LocalSocket.LatestIsCollected | src/local_socket.rs:193-202 | A field requested twice is answered with the later value |
| LocalSocket.SocketServer.Others | src/local_socket.rs:80-118 | Other connections fetch, cache what the vault returned, look up and sweep, each after its delay, and nothing else happens to clock, replies and puts |
| LocalSocket.OthersKeepSound | src/local_socket.rs:80-118 | Whatever they do, every cached value stays one that the vault returned earlier for its key |
| SessionStore.RunSimulates | src/dashboard/auth.rs:189-240 | Over every run with a non-decreasing clock the store holds at most 100 entries and its live sessions take exactly the steps of a store that forgets at expiry and evicts only among 100 live ones |
| SessionStore.StepSimulates | src/dashboard/auth.rs:189-240 | The same for one login, check or cleanup |
| SessionStore.EvictionNeedsFullLive | src/dashboard/auth.rs:196-213 | A live session is evicted only by a login that finds 100 live ones and nothing expired, and it expires first |
| SessionStore.ExpiredGoesFirst | src/dashboard/auth.rs:199-204 | While an expired session is stored, the one evicted is expired |
| SessionStore.SessionStore.Login | src/dashboard/auth.rs:189-215 | Inserts for a day, after evicting an earliest-expiring session from a full map |
| SessionStore.SessionStore.IsValid | src/dashboard/auth.rs:218-228 | True exactly for a live session; an expired one is dropped |
| SessionStore.SessionStore.CleanupExpired | src/dashboard/auth.rs:231-240 | Keeps exactly the live sessions |
| RateLimiter.RateLimiter.CheckAndRecord | src/notify.rs:31-40 | Refuses exactly when as many allowed calls of the full history as the maximum are less than one window old, and the pruned list is the history restricted to the window |
| RateLimiter.SpreadGrows | src/notify.rs:31-40 | Allowed calls the maximum apart in number are at least one window apart in time |
| RateLimiter.AtMostMaxPerWindow | src/dashboard/auth.rs:98-112 | No window, wherever it starts, holds more than the maximum of allowed calls |
| RateLimiter.PruneTwice | src/notify.rs:33-34 | Pruning early is not observable later |
| RateLimiter.Retain | src/notify.rs:33-34 | Keeps exactly the calls in the window, in order |
| Pass2.Orchestrator.Pass2RunWorker | src/credential_audit/orchestrator.rs:423-551 | Every item it comes to is attempted exactly once or not, and written, as its URL, the host's history and the vault's answers tell; attempts on a host stay 300 seconds apart with none after its second strike; without vault or database errors it succeeds with exactly one update per listed item, in order; an item ends marked only after an attempt of this worker judged a failure; other rows stay |
| Pass2.WorkerLaws | src/credential_audit/orchestrator.rs:423-551 | The same laws of the specified worker, for however many items it updated before an error |
| Pass2.ItemIsHandled | src/credential_audit/orchestrator.rs:428-545 | An item is attempted if and only if its URL has a host below two strikes whose attempts are all 300 seconds old and the vault has a password; its row gets the judged status, or untestable with the first failing test; it fails exactly on a vault or database error |
| Pass2.WorkerHandles | src/credential_audit/orchestrator.rs:423-551 | The same for every item of a worker, in the state that it meets |
| Pass2.StrikesCounted | src/credential_audit/pass2.rs:49-62 | Strikes are the attempts on the host judged captcha, lockout or no login form |
| Pass2.Orchestrator.RunItem | src/credential_audit/orchestrator.rs:428-545 | Carries out what the attempt history and the vault's answers decide: abort, skip with a reason, or one attempt and its update |
| Pass2.Orchestrator.AttemptLogin | src/credential_audit/orchestrator.rs:505-531 | Records the attempt before judging it and the strike after |
| Pass2.Orchestrator.GatesRead | src/credential_audit/pass2.rs:57-76 | The engine's two maps block exactly the hosts that the attempt history blocks |
| Pass2.Orchestrator.UpdatePass2Result | src/credential_audit/orchestrator.rs:554-588 | Overwrites the item's row if there is one, unless the database fails |
| Pass2.PoliteGrows | src/credential_audit/pass2.rs:57-88 | An attempt that passed both gates keeps the history spaced and free of attempts after blacklisting |
| Pass2.LastAttemptIsLatest | src/credential_audit/pass2.rs:64-76 | The recorded time of a host is its latest attempt |
| PasswordAudit.GroupsAreClasses | src/audit.rs:346-417 | The reported groups are exactly the classes of two or more items with one password, each once, or two different audited passwords with one fingerprint are exhibited |
| PasswordAudit.RunAudit | src/audit.rs:287-417 | Exactly the weak items in order, the number of fair ones, and the groups of two or more items per fingerprint, in item order |
| PasswordAudit.StrengthIff | src/audit.rs:182-220 | Weak is fewer than eight characters; strong is at least sixteen with no two of the four ASCII classes absent; fair is the rest |
| PasswordAudit.SelectIs | src/audit.rs:299-345 | A selection of items by password is exactly the matching ones, scored, in list order, each once |
| PasswordAudit.RewriteReasons | src/audit.rs:383-415 | Only the reasons change, each naming how many other members there are, the first five of them in order, and how many more |
| PasswordAudit.ReasonNamesOthers | src/audit.rs:394-411 | The reason reads as that in plain terms, numbers in decimal |
| PasswordAudit.OthersAre | src/audit.rs:388-393 | The others are all members but the item itself, in group order |
| PasswordAudit.CollectOthers | src/audit.rs:388-393 | The names of all members but one, in order |
| PasswordAudit.StrengthsPartition | src/audit.rs:182-220 | Weak, fair and strong items partition the decryptable ones |
| PasswordAudit.StrengthsAddUp | src/audit.rs:327-343 | The three counts add up to the number of decryptable items |
| PasswordAudit.WeakCountsCharacters | src/audit.rs:183-195 | A UTF-8 password is weak exactly when it has fewer than eight characters, however many bytes |
| PasswordAudit.OneClassPerItem | src/audit.rs:346-353 | Each decryptable item is in the class of its own fingerprint and its name in no other |
| PasswordAudit.FindCollision | src/audit.rs:223-228 | Finds two different passwords of the list with one fingerprint if and only if there are any |
| Keystore.SetupPasswordUnlocks | src/keystore.rs:349-548 | After any run from an empty directory, with sealing stopped anywhere and any TPM behaviour, the setup password unlocks what was stored last, and an empty store unlocks nothing |
| Keystore.UnlockIff | src/keystore.rs:397-475 | In such a directory unlocking succeeds if and only if the password is right or the TPM's two files fit, and then yields the stored credentials |
| Keystore.SealedUnlocksAlone | src/keystore.rs:397-548 | After sealing, a working TPM alone unlocks if and only if sealing completed with the right password or what is left of the two files fits |
| Keystore.FilesAfterSetup | src/keystore.rs:349-392 | The files that setup makes in an empty directory; the sealed private key exactly when the TPM is there and seals |
| Keystore.StepKeepsAgreement | src/keystore.rs:349-585 | Every operation keeps all key material of one key pair |
| Keystore.SetupOverLeftoversIff | src/keystore.rs:397-427 | After setup over an uncleared directory the new password works if and only if no working TPM files of another key pair remain |
| Keystore.SecondSetupLocksOut | src/keystore.rs:408-420 | Setup, sealing and a second setup leave the new credentials locked |
| Keystore.ConfigDir.SetupKeystore | src/keystore.rs:349-392 | Writes credentials, public key and wrapped key of one pair |
| Keystore.ConfigDir.UnlockKeystore | src/keystore.rs:397-427 | TPM path first when its files exist, password otherwise or on its failure |
| Keystore.ConfigDir.ReencryptCredentials | src/keystore.rs:481-495 | Replaces the credentials under the stored public key |
| Keystore.ConfigDir.SealAfterUnlock | src/keystore.rs:504-548 | Writes the sealed AES key first and the key it wraps second, stopping anywhere |
| Keystore.ConfigDir.ResetKeystore | src/keystore.rs:570-585 | Leaves none of the six files |
| Utf8.TruncateUtf8 | src/notify.rs:279-289 | Returns the encoding of the longest character prefix that fits, the whole text when it fits, and otherwise wastes at most three bytes |
| Utf8.FittingPrefixIsLongest | src/notify.rs:274-278 | The prefix kept is the largest whose encoding fits the budget |
| Utf8.BoundaryEndsPrefix | src/notify.rs:284-288 | The last character boundary within the budget is where that prefix ends |
| Utf8.DecodeIffEncode | src/bin/mount_helper.rs:96 | Decoding accepts exactly the encodings and inverts them |
| Utf8.EncodedPerTable | src/notify.rs:279-289 | The table of section 3 of RFC 3629: lengths by range, lead and continuation bytes, payload bits in order |
| ThinkBlocks.StripThinkBlocks | src/browser/vision.rs:218-232 | The loop computes the leftmost-first removal of blocks |
| ThinkBlocks.StripBlock | src/browser/vision.rs:221-224 | A closed block goes, what precedes it stays, what follows is stripped in turn |
| ThinkBlocks.StripUnterminated | src/browser/vision.rs:225-228 | An unterminated block drops the rest |
| ThinkBlocks.StripFixedIff | src/browser/vision.rs:221-231 | A text is left alone if and only if it has no opening tag |
| ThinkBlocks.StripDivides | src/browser/vision.rs:218-232 | The output is the kept stretches of a division of the input, lengths adding up |
| ThinkBlocks.NotIdempotent | src/browser/vision.rs:218-232 | For every cut of the tag, removing a block inside it splices a tag that a second pass removes |
| ThinkBlocks.SecondPassIff | src/browser/vision.rs:218-232 | A second pass changes nothing if and only if, in the division of the input, no kept stretch ends in a front of the opening tag whose rest begins what is kept behind it |
| ThinkBlocks.KeptHoldsTagIff | src/browser/vision.rs:221-231 | Kept text holds an opening tag exactly where the removal of a block joined one |

## Left out

- HTTP routing, middleware, TLS, clients, browser and subprocess driving: input and output without an invariant of their own.
- Real cryptography, serde, rusqlite and the TPM tools: parameters or terms, as described above.
- Error texts, log texts, file permissions, memory zeroing and the parser's cursor position after a rejection: not observable in what is modelled.
- I/O failures of the fstab read and of the atomic replacement, and `do_mount` as a transaction: mounting can fail after the edit.
- The 64 KiB limit on a mount request and the dispatch on its action: a length test and a match.
- MountRequest.ParseRequest: rejections are not told apart, because only their wording differs.
- MountRequest.CredsBody: the text of the credentials file only; its temporary file, mode and renaming are effects on the file system.
- AccessLog.Faithful: hypotheses about the JSON functions, not proved of serde; a write that lands in part or fails to sync after landing, key loss and dropped log suffixes are outside what the chain promises.
- The failed-login and failed-unlock limiters: they prune as `RateLimiter` does but record failures elsewhere. Password hashing is not modelled; a modelled login is one whose password was accepted.
- RateLimiter.RateLimiter.CheckAndRecord: reads the clock once per call, while the dashboard's copy reads it once per timestamp and once more when recording.
- CredCache.CredCache.Get: is one step, while the code removes and then reads, with the clock read in between.
- Concurrent Pass-2 workers: checking and recording are separate lock sections, so the laws are about workers one after the other. `start_scan` has the same gap.
- Pass2.Orchestrator.UpdatePass2Result: evidence texts and timestamps of the row are not modelled.
- PasswordAudit.RunAudit: the key of the fingerprint and the random order of the hash map's values appear as an arbitrary function and an arbitrary order; the scoring note is a constant text.
- Keystore.Step: setup stopped between its files, and reset stopped halfway, are not operations; `SetupOverLeftoversIff` says what a stopped reset can lead to.
- The two-factor step's polling and TOTP entry: its outcome is one answer of the outside.
- Selector resolution, profiles and screenshots of a rotation: their failures are failures of the step.
- The rest of the repository (proxy, vault, sync, permissions, dashboards, launchers, setup wizard): not part of this model.
