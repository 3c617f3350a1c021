# nanoguard: verified core

nanoguard is a proxy in front of language-model backends. It redacts personal data from prompts,
puts it back into replies, filters and gates what backends answer, authenticates clients, and keeps
budgets. This project models the parts of it that are hard to get right and proves what they are
for: text rewriters that undo each other, streaming machines that agree with their whole-text forms,
and small stateful protocols.

Code that works by updating state is written as classes and methods with loops; each is proved
against a pure specification function or a property, and the theorems are proved about those.

| module | subject |
|---|---|
| `Vault`, `Redact`, `Messages` | placeholders, the redactor and its message walker |
| `Deanonymize`, `DeanonStream`, `DeanonSegments` | restoring replies, whole and streamed, flat or not |
| `KnownText`, `UnknownText`, `RoundTrip`, `Recased`, `NestedMatch` | the round trip, and exactly when it holds |
| `Sse`, `SseStream`, `SseContents` | re-framing of server-sent events (section 9.2 of the WHATWG HTML Standard), and what a client reads in them |
| `Normalize`, `Disguise` | text normalisation, and the spellings it sees through |
| `Mask`, `MaskPhrase`, `MaskRestore`, `MaskStream`, `Utf8Text` | the output mask, on whole replies and on streams, and a UTF-8 decoder (section 3 of RFC 3629) |
| `Console`, `ConsoleRuns`, `ConsoleRows` | login lockout, sessions and pruning |
| `ClientCache`, `Revocation` | the token cache over the token table |
| `Budget` | check, then record |
| `ToolGate` | the tool gate, on whole replies and on streams |
| `Routing` | backend pool, route chains, failover |
| `Base64` | the encoder of the spotlighting transform (section 4 of RFC 4648) |
| `Brackets`, `Seqs`, `Options` | shared vocabulary |

Foreign code is a parameter: regular expressions are any function that returns sorted, disjoint
spans within the text; the phrase scanner is any function that returns matches within the text; JSON
is a parser and a printer, of which "emits no control bytes" (section 7 of RFC 8259), "the empty text
is no JSON" (section 2) and, for `SseContents`, "a value that was read, with other delta contents, is
printed so that its contents are read back" are assumed where a theorem says so; Unicode case and NFKC
tables, `str::trim`, clocks, random ids and password checks are arguments. What is assumed of the case
tables (`Normalize.CaseOk`) allows for upper-case characters that have no lower-case form and for
those that become two characters. Tables are finite maps and each statement on them is atomic.

## Where code and documentation disagree

- `src/client_auth/cache.rs:14-18` promises that a revocation is effective on the very next request.
  That holds if no lookup still holds the row it read before the revoke (`Revocation.RevocationIsFinal`);
  otherwise the held row can come back (`Revocation.StaleHolderUndoes`, and from an empty table
  `Revocation.RevocationUndone`) and is served for less than one TTL after the last such insert
  (`Revocation.StalenessBound`).
- `src/config/mod.rs:214-223` describes a pool with several backends and no default as let through
  with a warning; the code rejects it, and so does `Routing.ResolvePool`.
- `src/proxy/sse.rs` accepts CR LF CR LF as a terminator but always emits LF LF. `SseStream.InertIsIdentity`
  and `SseStream.FramingPreserved` give the exact conditions under which bytes and framing survive.
- The filter is there to transform every delta content, but an event in which the bytes `[DONE]` occur
  anywhere, in a content, another JSON field or another line, passes unfiltered
  (`src/proxy/sse.rs:101-108`). `SseContents.DoneInContentPasses` is such an event.
  `SseContents.HandledExactly` gives the exact condition per event, `SseContents.StreamExactly` for
  whole streams.
- On streams each delta is masked on its own (`src/proxy/mod.rs:333-340`), so a placeholder that is cut
  between two deltas can be starred and is then not restored (`MaskStream.CutPlaceholderLost`,
  `MaskStream.SampleCut`). `MaskStream.MaskedStream` gives the exact condition.
- The default rules end with a rule for any word of 32 or more letters, digits, `_` or `-`
  (`src/proxy/redact.rs:522`), which also matches the body of a long placeholder such as
  `[REDACTED_GITHUB_FINE_GRAINED_PAT_1]`. `RoundTrip.RoundTripExactly`: a prompt comes back in every
  entry order if and only if no rule matches into an inserted placeholder. `NestedMatch.OrderDecides`
  and `NestedMatch.NoOrderRestores` follow the redactor from a prompt to a reply that one order, or no
  order, restores.
- `CaseInsensitive` takes placeholders of entities whose names differ only in case for each other
  (`RoundTrip.CaseClashFails`); `RoundTrip.EachRestoredExactly` gives the exact condition on the vault.
- The tool gate judges some calls differently on streams and in whole replies: a call without a name is
  skipped on streams and denied whole, and arguments sent as an empty text are read as `{}` on streams
  and denied as no JSON whole (`src/guard/sse_tool_gate.rs:56-70`, `src/guard/tool_gate.rs:110-113`). `ToolGate.CallAgrees`
  gives the exact condition per call, `ToolGate.StreamGateAgrees` for whole runs;
  `ToolGate.UnnamedDiffers` and `ToolGate.EmptyArgumentsDiffer` are the two inputs.

## Model

| member | source | states |
|---|---|---|
| Vault.FormatInjective | src/guard/vault.rs:71-76 | A placeholder determines its entity and index, also for entity names with underscores or digits |
| Vault.FormatIsWindow | src/guard/vault.rs:71-76 | Placeholders of bracket-free entities are `[` body `]` with a bracket-free body |
| Vault.PlaceholderText | src/guard/vault.rs:71-76 | The placeholder text of either style, `[REDACTED_EMAIL_1]` and `[EMAIL_12]` for instance |
| Vault.DecimalCanonical | src/guard/vault.rs:71-76 | Indices are written without leading zeros |
| Vault.LocalVault.WithStyle | src/guard/vault.rs:62-69 | A new vault is empty |
| Vault.LocalVault.Store | src/guard/vault.rs:86-103 | The new state and the placeholder are those of `Issue` on the old state; a consistent vault stays consistent |
| Vault.LocalVault.Get | src/guard/vault.rs:105-107 | The original of the pair whose placeholder this is; none exactly if it was never issued |
| Vault.StoreKeepsValid | src/guard/vault.rs:86-107 | Every store keeps the vault consistent, changes no earlier mapping, and is found by a lookup |
| Vault.RunBijection | src/guard/vault.rs:86-114 | Over every run of stores on a fresh vault: equal placeholders exactly for equal requests, lookups return what was stored, nothing else is listed, and each entity's indices are exactly 1 to the number of its originals |
| Vault.CounterCounts | src/guard/vault.rs:86-103 | An entity's counter is the number of its distinct originals |
| Vault.StoreKeepsWindows | src/guard/vault.rs:86-103 | Entries stay windows with bracket-free originals |
| Redact.ReplaceRange | src/proxy/redact.rs:218-241 | One in-place replacement in front of replaced spans is one more span of the simultaneous splice |
| Redact.RedactOneRule | src/proxy/redact.rs:218-241 | Right-to-left in-place replacement equals the simultaneous splice of all matches, with placeholders issued from last to first |
| Redact.AssignStoresBackwards | src/proxy/redact.rs:218-241 | The vault after a rule is that of storing its matches from the last to the first, and each match gets the placeholder of its store |
| Redact.RedactTextWithVault | src/proxy/redact.rs:218-241 | All enabled rules in order, each on the text the previous one left |
| Redact.Indexer.Placeholder | src/proxy/redact.rs:425-442 | Name and new counters are those of `Name` on the old counters |
| Redact.NameIsIssue | src/proxy/redact.rs:425-442 | The indexer is the vault without its entries, step for step |
| Redact.IndexOneRule | src/proxy/redact.rs:308-327 | One rule through the indexer gives the text and the counters of the vault path |
| Redact.RedactTextIn | src/proxy/redact.rs:114-151 | The indexed redactor gives the text of the vault redactor with a fresh vault, for every text, rule list and entity set |
| Messages.RedactParts | src/proxy/redact.rs:245-282 | Text parts are redacted in order, every other part and field stays as it is, and the flag says whether anything changed |
| Messages.RedactMessagesWithVault | src/proxy/redact.rs:245-282 | Every text of a request is redacted in document order with one vault, all else is unchanged, and the flag is true exactly if the body changed |
| Messages.Determined | src/proxy/redact.rs:245-282 | A request is determined by its texts and by what the walker does not touch |
| Messages.RequestRoundTrip | src/proxy/redact.rs:245-282 | Restoring every text of a cleanly redacted request gives the request back, field for field, in every entry order |
| Deanonymize.ExactRestore | src/guard/deanonymize.rs:24-34 | The loop over entries with its `contains` shortcut is one replacement per entry |
| Deanonymize.ReplaceIgnoringCase | src/guard/deanonymize.rs:40-70 | The index loop replaces every leftmost case-insensitive occurrence |
| Deanonymize.CaseInsensitiveRestore | src/guard/deanonymize.rs:40-70 | One case-insensitive replacement per entry, empty placeholders skipped |
| Deanonymize.SameLetters | src/guard/deanonymize.rs:24-70 | `Exact` takes only equal texts for equal, `CaseInsensitive` texts of equal length whose characters are equal or the two forms of one ASCII letter |
| Deanonymize.EmptyPlaceholder | src/guard/deanonymize.rs:24-70 | An empty placeholder makes `Exact` put its original in front of every character and at the end, and `CaseInsensitive` do nothing |
| Deanonymize.RestoreIsResolve | src/guard/deanonymize.rs:24-70 | On flat text, rewriting once per entry equals looking every window up exactly once, for both strategies |
| Deanonymize.RestoreAnyOrder | src/guard/vault.rs:109-114 | The restored text does not depend on the order in which the hash map lists its entries, for `Exact`, and for `CaseInsensitive` if no two placeholders differ only in case |
| DeanonStream.DeanonymizeStream.Push | src/guard/sse_deanon.rs:48-86 | State and output are those of feeding the characters one by one |
| DeanonStream.DeanonymizeStream.Flush | src/guard/sse_deanon.rs:89-93 | The pending text comes out verbatim and the machine starts over |
| DeanonStream.FeedConcat | src/guard/sse_deanon.rs:48-86 | Feeding a text is feeding its parts one after the other |
| DeanonStream.PushAllIsOnePush | src/guard/sse_deanon.rs:48-86 | The outputs and the final state do not depend on the chunking |
| DeanonStream.FeedWindow | src/guard/sse_deanon.rs:55-82 | A window of at most 64 bytes is restored, a longer one passes verbatim |
| DeanonStream.StreamIsShortRestore | src/guard/sse_deanon.rs:48-93 | For every flat reply and chunking, streaming restores what `restore` does with the placeholders of at most 64 bytes |
| DeanonStream.StreamEqualsBatch | src/guard/sse_deanon.rs:48-93 | For every flat reply, chunking, entry order and strategy, streaming equals whole-text restoring if and only if no placeholder of more than 64 bytes occurs in the reply |
| DeanonSegments.StreamIsSegmented | src/guard/sse_deanon.rs:48-93 | For every reply, flat or not, every chunking, entry list and strategy: segments run from a `[` to the first `]`, the 64th byte or the end; a closed one is replaced by its restoration and all else is verbatim |
| DeanonSegments.StreamConserves | src/guard/sse_deanon.rs:48-93 | A reply in which no placeholder occurs comes out as it went in |
| KnownText.ReplaceKnown | src/guard/deanonymize.rs:24-70 | One rewrite of a text of plain characters and placeholders resolves the windows of that entry and keeps what the text stands for |
| KnownText.RestoreKnown | src/guard/deanonymize.rs:24-70 | Such a text is restored to what it stands for, in every entry order, by both strategies and whatever else the vault holds |
| UnknownText.Classify | src/proxy/redact.rs:218-241 | A redacted text that is not such a text holds a placeholder of a bracketed original, a stray `]` or a nested `[` |
| UnknownText.UnknownFails | src/guard/deanonymize.rs:24-70 | Then some entry order leaves a bracket in it, for both strategies, if the strategy tells the placeholders apart |
| RoundTrip.SpliceKeepsMeaning | src/proxy/redact.rs:218-241 | Splicing placeholders over clean spans does not change what the text stands for |
| RoundTrip.SpliceWasClean | src/proxy/redact.rs:218-241 | If the result is known, the text was known and every span clean |
| RoundTrip.ApplyRulesContinues | src/proxy/redact.rs:218-241 | A run of rules leaves a known text known exactly if no match touches a placeholder |
| RoundTrip.RoundTrip | src/proxy/redact.rs:218-241 | For every list of bracket-free prompts sharing one vault, a prompt whose rule run is clean is restored with the final vault, in every entry order, by `Exact` and, if no two entities differ only in case, by `CaseInsensitive` |
| RoundTrip.EachRestoredExactly | src/guard/deanonymize.rs:24-70 | Each placeholder of a vault is restored in every entry order if and only if placeholders that the strategy does not tell apart stand for the same |
| RoundTrip.CaseClashFails | src/guard/deanonymize.rs:40-70 | With entities whose names differ only in case, a placeholder can be restored to the value of another |
| RoundTrip.RoundTripExactly | src/proxy/redact.rs:218-241 | A prompt is restored in every entry order if and only if no rule matched into an inserted placeholder, by `Exact` and, if no two entities differ only in case, by `CaseInsensitive` |
| RoundTrip.ConversationExactly | src/proxy/redact.rs:218-241 | The same for all prompts of a request |
| RoundTrip.StreamedRoundTrip | src/guard/sse_deanon.rs:48-93 | The round trip through the streaming deanonymizer, for every chunking, if placeholders fit 64 bytes |
| Recased.RecasedRoundTrip | src/guard/deanonymize.rs:40-70 | A cleanly redacted prompt in which the case of any ASCII letters of its placeholders was changed is restored by `CaseInsensitive`, in every entry order, if no two entities differ only in case |
| NestedMatch.EntryOrderMatters | src/guard/deanonymize.rs:24-34 | With one placeholder inside another, listing the inner one first restores the reply and listing the outer one first leaves it |
| NestedMatch.OrderDecides | src/proxy/redact.rs:499-526 | From a bracket-free prompt, a rule that matches inside the placeholder of an earlier rule makes the redactor reach such a reply and vault |
| NestedMatch.NoOrderRestores | src/proxy/redact.rs:499-526 | If that match is the stored value itself, its placeholder is put into itself and no order restores the prompt |
| Sse.FindEventEnd | src/proxy/sse.rs:169-188 | The first LF LF or CR LF CR LF, or none if there is none |
| Sse.FirstEndStable | src/proxy/sse.rs:169-188 | A terminator that was found stays the first one when the buffer grows |
| Sse.SseFilter.FilterDeltaContent | src/proxy/sse.rs:190-212 | Every string `choices[i].delta.content` is transformed in order and the flag says whether any of them changed |
| Sse.SseFilter.ProcessEvent | src/proxy/sse.rs:97-152 | The event is rewritten line by line and ended by a blank line |
| Sse.SseFilter.Push | src/proxy/sse.rs:31-44 | All complete events are emitted rewritten, the remainder is kept |
| Sse.SseFilter.Flush | src/proxy/sse.rs:47-53 | The remainder comes out verbatim and the buffer is empty |
| SseStream.DrainExtend | src/proxy/sse.rs:31-44 | Draining a longer buffer first drains the shorter one |
| SseStream.ChunkingInvariance | src/proxy/sse.rs:31-53 | For every byte stream and every chunking, output, remainder and transform state are those of one push, also for stateful transforms |
| SseStream.InertIsIdentity | src/proxy/sse.rs:97-152 | A transform that changes nothing gives byte-identical output exactly if no event is ended by CR LF CR LF; otherwise the output is shorter |
| SseStream.FramingPreserved | src/proxy/sse.rs:97-188 | Parsing the output finds exactly the rewritten events, in order, if and only if no event ends in LF or CR LF CR |
| SseStream.OtherLinesSurvive | src/proxy/sse.rs:97-152 | A rewritten event has as many lines, and lines that are not `data:` lines are verbatim |
| SseContents.FilterRewords | src/proxy/sse.rs:190-212 | The rewrite changes delta contents and nothing else in the value |
| SseContents.EventThreads | src/proxy/sse.rs:97-152 | For every transform: the contents read in the processed event are the transformed contents, in order, if and only if the event passes the guard or the transform leaves its contents and state as they are |
| SseContents.HandledExactly | src/proxy/sse.rs:97-152 | An event has no content or passes the guard (UTF-8, no `[DONE]`, a `data:`) if and only if its contents are transformed whatever the transform does |
| SseContents.DonePasses | src/proxy/sse.rs:101-108 | Every event in which `[DONE]` occurs comes out verbatim and leaves the transform's state alone |
| SseContents.DoneInContentPasses | src/proxy/sse.rs:101-108 | A delta content `[DONE]` comes out verbatim, so any transform that changes it or its own state is bypassed |
| SseContents.StreamThreads | src/proxy/sse.rs:31-53 | What a client reads in the whole output are the contents of the input, transformed one after the other with one state |
| SseContents.StreamExactly | src/proxy/sse.rs:31-53 | A client finds the rewritten events and in them the transformed contents, whatever the transform does, if and only if no event ends in LF or CR LF CR and every event with content passes the guard |
| SseContents.StreamRestores | src/guard/sse_deanon.rs:48-93 | With the deanonymizer as the transform, the contents a client reads and what the deanonymizer still holds are the restored reply if and only if no placeholder of more than 64 bytes occurs in it |
| Normalize.SampleTableOk | src/matcher/mod.rs:56-60 | What is assumed of the case tables holds with an upper-case character that maps to itself and one that becomes two characters |
| Normalize.PushChar | src/matcher/mod.rs:46-70 | One character is dropped, folded, lowered, squeezed or kept, in the order of the branches |
| Normalize.BaseNormalize | src/matcher/mod.rs:43-75 | The loop emits what `Base` says |
| Normalize.BaseNormalForm | src/matcher/mod.rs:43-75 | Results are tidy, and the fixed points are exactly the tidy texts |
| Normalize.ScanRun | src/matcher/mod.rs:92-98 | The inner loop finds the whole run of single letters and its last index |
| Normalize.CollapseSeparators | src/matcher/mod.rs:80-110 | The loop collapses what `Collapse` says |
| Normalize.CollapseDrops | src/matcher/mod.rs:80-110 | Nothing but separators is deleted and nothing is moved |
| Normalize.CollapseIdempotent | src/matcher/mod.rs:80-110 | Collapsing twice is collapsing once |
| Normalize.NormalizeIdempotent | src/matcher/mod.rs:112-128 | Normalising twice is normalising once, for every option set, where NFKC does nothing |
| Normalize.NormalizeAscii | src/matcher/mod.rs:112-128 | On ASCII text the result is ASCII and depends on the ASCII part of the tables alone |
| Normalize.NormalizeIdempotentAscii | src/matcher/mod.rs:112-128 | On ASCII text normalising is idempotent with NFKC on, whatever the rest of the tables |
| Normalize.NormalizeCanonical | src/matcher/mod.rs:112-128 | With zero-width removal, texts that differ only in ASCII case, in the white space of runs or in zero-width characters get equal results |
| Disguise.LeetIsRead | src/matcher/mod.rs:26-75 | Every spelling of a word with the ten leet characters and in mixed case is normalised to the word |
| Disguise.SeparatedIsRead | src/matcher/mod.rs:77-128 | So is every such spelling of four or more letters with a separator between each two |
| Disguise.ShortStaysSeparated | src/matcher/mod.rs:77-128 | With fewer than four letters the separators stay |
| Disguise.FoldsByTable | src/matcher/mod.rs:26-37 | Nothing but the leet characters is folded |
| Disguise.SeparatesByTable | src/matcher/mod.rs:39-41 | The separators are exactly `-`, `.`, `_`, `*` and `~` |
| Disguise.ZeroWidthInvisible | src/matcher/mod.rs:19-24 | A zero-width character anywhere leaves no trace |
| Mask.LowerWithByteMap | src/matcher/mod.rs:317-343 | The lowered bytes and, for each, the byte offset of its character, with a sentinel at the end |
| Mask.ByteMapMonotone | src/matcher/mod.rs:317-343 | The map is monotone, in bounds and lands on character boundaries |
| Mask.IsInsideBrackets | src/matcher/mod.rs:431-442 | True exactly if the nearest bracket before the position opens |
| Mask.InsideAgrees | src/matcher/mod.rs:431-442 | The byte scan agrees with the same question on characters |
| Mask.FilterOutput | src/matcher/mod.rs:393-429 | For every in-bounds match list the result is the UTF-8 encoding of the reply with exactly the characters of matches outside brackets starred, so it is valid UTF-8 |
| Mask.MaskedByte | src/matcher/mod.rs:393-429 | The result has the length of the reply, and each byte is a star or unchanged according to its character |
| Utf8Text.Utf8Canonical | src/matcher/mod.rs:317-343 | The encoding of a text is the one byte string that a strict UTF-8 decoder reads as that text |
| MaskPhrase.PhraseIsStarred | src/matcher/mod.rs:393-442 | A matched phrase outside brackets becomes as many stars as it has bytes and all else stays; one that begins inside brackets is left alone |
| Mask.MaskKeepsPlaceholders | src/matcher/mod.rs:393-442 | For bracket-free phrases the masked reply has the windows of the reply, in order |
| MaskRestore.SparedFlat | src/matcher/mod.rs:393-442 | A mask that spares brackets keeps flat text flat |
| MaskRestore.RestoreAfterMask | src/proxy/mod.rs:514-529 | Restoring the masked reply restores every window as without the mask and keeps the masked text between them, for both strategies |
| MaskStream.ScannerMasksHarmlessly | src/matcher/mod.rs:393-442 | The mask of a scanner for bracket-free phrases stars only plain characters outside the brackets of each text |
| MaskStream.MaskedStream | src/proxy/mod.rs:333-340 | Masking each delta and pushing it into the deanonymizer restores every window and masks the text between them, if and only if the mask changes nothing from a `[` to its `]` and no placeholder of more than 64 bytes occurs |
| MaskStream.ClosedDeltasRestore | src/proxy/mod.rs:333-340 | If no delta ends inside brackets, the length of the placeholders alone decides |
| MaskStream.CutPlaceholderLost | src/proxy/mod.rs:333-340 | A placeholder that is cut in two and starred in a part comes out with the stars and is not restored |
| MaskStream.SampleCut | src/proxy/mod.rs:333-340 | One reply under one mask: restored in one delta, lost in two |
| MaskStream.MaskedStreamRestores | src/proxy/mod.rs:333-340 | The same for event streams: what a client reads is the masked and restored reply if and only if the reply is intact under the stars of its deltas |
| Console.ConsoleDb.RecordLoginAttempt | src/console/db.rs:280-292 | One attempt row is added |
| Console.ConsoleDb.SetLockedUntil | src/console/db.rs:343-353 | One user's lock changes and nothing else |
| Console.ConsoleDb.ApiLogin | src/console/handlers.rs:225-425 | Reply and new rows are those of `Login` on the old rows |
| Console.ConsoleDb.CurrentUser | src/console/auth.rs:187-246 | Reply and new session rows are those of `Authenticate`: expired and idle sessions are deleted, accepted ones touched |
| Console.ConsoleDb.MutatingUser | src/console/auth.rs:274-354 | Reply and new rows are those of `Mutate`, with the token compared before the action |
| Console.ConsoleDb.PruneRound | src/console/mod.rs:183-226 | Expired sessions, idle sessions and old attempts are deleted |
| ConsoleRows.VisitAccepts | src/console/auth.rs:187-246 | A visit is accepted for a user exactly with a session of that user that is neither past its expiry nor idle too long, if the user exists and is enabled |
| ConsoleRows.MutateAccepts | src/console/auth.rs:274-354 | A mutation is let in exactly if, in addition, a token is stored with the session and the header carries it |
| ConsoleRows.RejectedRows | src/console/auth.rs:274-354 | A rejected mutation changes no user, attempt or other session; its own session is touched if live and gone if not |
| ConsoleRows.RejectedBecause | src/console/auth.rs:274-354 | The rejection names the first condition that failed |
| ConsoleRows.AcceptedRows | src/console/handlers.rs:2490-2936 | An accepted mutation touches its session and then does exactly its action, row by row |
| ConsoleRows.CountsRows | src/console/db.rs:294-322 | The counts are the numbers of attempts under a name or from an address after a time |
| ConsoleRows.LoginPasses | src/console/handlers.rs:225-399 | A login passes exactly for an open account, from an address that has not used up its attempts, with the password of the stored hash |
| ConsoleRows.LoggedInRows | src/console/handlers.rs:360-399 | A successful login creates a session of that user with the session's time and token, clears that user's attempts and lock, and keeps all other rows |
| ConsoleRows.WrongPasswordRows | src/console/handlers.rs:321-358 | A wrong password adds one attempt, and a lock exactly if the attempts under the name have reached their number |
| ConsoleRows.TurnedAwayRows | src/console/handlers.rs:230-319 | A login that does not reach the password changes nothing but for one attempt under a name without an account or password |
| ConsoleRows.PrunedRows | src/console/mod.rs:183-226 | A round keeps exactly the sessions neither expired nor idle and the attempts of the last two lockout lengths |
| ConsoleRows.AccessNeedsLogin | src/console/auth.rs:187-354 | In every run from a database without sessions, access as a user shows a session id that an earlier login of that user with the right password was given, within its time |
| ConsoleRows.AccountsNeedToken | src/console/auth.rs:274-354 | In a run in which no mutation shows the token of its live session, no account is created, disabled, enabled or given a password |
| ConsoleRuns.LockoutBound | src/console/handlers.rs:289-367 | From any rows and for any interleaving of logins, visits, mutations and prunes in a window of the lockout's length without a successful login: at most `max_login_attempts` (at least one) password checks of a user fail |
| ConsoleRuns.LockoutBoundAttained | src/console/handlers.rs:289-367 | That many do fail for an account with a clean record |
| ConsoleRuns.PruningUnobservable | src/console/mod.rs:183-226 | Wherever prunes are placed in a run, every login and session decision is that of the run without them |
| ClientCache.TokenCache.Get | src/client_auth/cache.rs:88-105 | Result and new state are those of `Fetch` |
| ClientCache.TokenCache.Insert | src/client_auth/cache.rs:108-135 | Room is made only for a new prefix in a full cache; the entry is stored with a new stamp |
| ClientCache.TokenCache.EvictOne | src/client_auth/cache.rs:173-196 | An expired entry goes if there is one, otherwise the least recently used |
| ClientCache.TokenCache.LeastRecentlyUsed | src/client_auth/cache.rs:187-192 | An entry with the smallest stamp, if there is any |
| ClientCache.TokenCache.Invalidate | src/client_auth/cache.rs:138-145 | One entry goes and nothing else changes |
| ClientCache.TokenCache.Clear | src/client_auth/cache.rs:148-151 | All entries go |
| ClientCache.RunInvariants | src/client_auth/cache.rs:88-196 | Over every run: size at most max(1, capacity), stamps distinct and within the counter, every entry the latest insert |
| ClientCache.HitIsLatest | src/client_auth/cache.rs:88-151 | A hit is the last value inserted for that prefix since its last invalidate or clear, and younger than the TTL |
| ClientCache.YoungIsHit | src/client_auth/cache.rs:88-105 | A get within one TTL of the latest insert is a hit with that value, unless an insert evicted it |
| ClientCache.EvictedOnlyWhenFull | src/client_auth/cache.rs:108-196 | An insert evicts only for a new prefix in a full cache, and a fresh entry only if nothing has expired and nothing was used less recently |
| ClientCache.GetQueued | src/client_auth/cache.rs:88-105 | A get acts on the recency queue as on an LRU queue |
| ClientCache.InsertQueued | src/client_auth/cache.rs:108-135 | With nothing expired an insert is insertion into an LRU queue: a full cache loses exactly the front |
| ClientCache.InsertDropsExpired | src/client_auth/cache.rs:173-196 | A full cache with an expired entry loses one expired entry and nothing else |
| ClientCache.RunIsLru | src/client_auth/cache.rs:88-196 | Over every run in which nothing has expired, the cache holds the prefixes of an LRU queue in its order |
| Revocation.ClientAuth.Lookup | src/client_auth/runtime.rs:109-123 | A fresh cache entry, otherwise the table row, which is then inserted into the cache; a miss in both changes only what the fetch changes |
| Revocation.ClientAuth.RevokeClient | src/admin/mod.rs:448-481 | Exactly the row of that id is revoked and exactly its prefix is gone from the cache |
| Revocation.RevokeRows | src/client_auth/store.rs:165-175 | A revoke marks the row of that id, keeps an earlier time of revocation and every other field, and leaves all other rows alone |
| Revocation.RevokeAllRows | src/client_auth/store.rs:177-188 | The same for all rows of a user |
| Revocation.RevokeIdempotent | src/client_auth/store.rs:165-175 | Revoking again changes nothing |
| Revocation.RevocationIsFinal | src/client_auth/runtime.rs:109-137 | Under all interleavings: after a revoke and an invalidation that no stale lookup overlaps, every row served for the prefix is revoked |
| Revocation.StaleHolderUndoes | src/client_auth/runtime.rs:109-123 | From every state with a stale holder there is a run in which the invalidation is undone and a hit serves the stale row |
| Revocation.RevocationUndone | src/client_auth/runtime.rs:109-137 | From an empty table and cache there is a run in which a token is minted, revoked and invalidated and a hit still serves the unrevoked row |
| Revocation.StalenessBound | src/client_auth/cache.rs:88-135 | A stale hit comes less than one TTL after the last stale insert, and there are at most as many such inserts as stale holders |
| Budget.BudgetStore.RecordSpend | src/budget/sqlite.rs:32-58 | One log row and the key's usage grow by the same total |
| Budget.BudgetStore.SetLimit | src/budget/sqlite.rs:96-111 | One limit changes and nothing else |
| Budget.BudgetStore.ResetUsage | src/budget/sqlite.rs:113-126 | An existing usage row becomes zero and nothing else changes |
| Budget.BudgetStore.Check | src/budget/store.rs:33-44 | Unlimited without a limit, exceeded exactly if usage has reached the limit |
| Budget.OvershootBound | src/proxy/mod.rs:158-177 | With at most n requests between check and record and at most m tokens each, usage never exceeds limit - 1 + n * m |
| Budget.OvershootAttained | src/proxy/mod.rs:427-440 | From zero usage there is a run within the conditions of the bound that attains it |
| Budget.UsageIsLogged | src/budget/sqlite.rs:32-126 | In every run a key's usage is the sum of its logged totals since its last reset |
| Budget.StoreIsTold | src/budget/sqlite.rs:32-126 | In every run a key's usage is the sum of prompt and completion tokens of its requests since its last reset, and its limit the last one set |
| Budget.LogIsTold | src/budget/sqlite.rs:32-58 | The log grows by one row per record, with the key the request was admitted under, its tokens, their sum and its model |
| Budget.AdmittedBelowLimit | src/proxy/mod.rs:158-177 | A request is admitted exactly while what its key spent since the last reset is below the last limit, if there is one |
| ToolGate.ApplyToolGate | src/proxy/mod.rs:756-803 | Each call, by position, is either kept (sanitised where the gate says so) or listed as denied with its reason; order is kept and none is lost |
| ToolGate.MatchesExactly | src/guard/tool_gate.rs:33-42 | A trailing `*` stands for any ending, a leading one for any beginning, and any other pattern for itself |
| ToolGate.LetThrough | src/guard/tool_gate.rs:92-205 | A call is let through exactly if it is named, no deny pattern and in closed mode some allow pattern matches, and its arguments are JSON, fit the schema and hold no rejected entity |
| ToolGate.DeniedBecause | src/guard/tool_gate.rs:139-205 | The reason of a denial, and the order in which reasons are tried |
| ToolGate.GatedArguments | src/proxy/mod.rs:756-803 | A call that is let through keeps id and name; its arguments are the printed redaction of the parsed ones exactly if they hold an entity to mask |
| ToolGate.StreamingToolGate.Observe | src/guard/sse_tool_gate.rs:105-130 | State and outcome are those of `GateStep`: fragments accumulate per index and are judged when a choice finishes with tool calls |
| ToolGate.StreamingToolGate.EvaluateCollected | src/guard/sse_tool_gate.rs:132-157 | The accumulated calls are judged in index order and the map is emptied |
| ToolGate.CollectAssembles | src/guard/sse_tool_gate.rs:36-54 | The accumulator holds, per index, the latest id and name and the concatenated arguments |
| ToolGate.CompletedCalls | src/guard/sse_tool_gate.rs:36-70 | However calls are fragmented and interleaved, what is judged are the reassembled calls in index order |
| ToolGate.EventDeltasAre | src/guard/sse_tool_gate.rs:105-130 | What is collected from an event are the fragments of its choices up to and including the first that finishes its tool calls |
| ToolGate.OneChoiceEach | src/guard/sse_tool_gate.rs:105-130 | With one choice per event a run collects from all of them, in order |
| ToolGate.FinishedRun | src/guard/sse_tool_gate.rs:105-157 | In a run whose last event finishes the tool calls every earlier event passes, the reassembled calls are judged at the last one in index order, and the accumulator ends empty |
| ToolGate.DeniedToolStops | src/guard/sse_tool_gate.rs:105-157 | However a call is fragmented over a run, if a deny pattern matches its name the run is stopped at the end and says so |
| ToolGate.CallAgrees | src/guard/tool_gate.rs:92-115 | A call is denied alike on streams and whole if and only if it is named and its arguments were not sent, are not empty, or are judged like `{}` |
| ToolGate.StreamGateAgrees | src/guard/sse_tool_gate.rs:105-157 | In such a run the last outcome is the one the denials of the whole reply call for, with their reasons in order, if and only if every call is of that kind |
| ToolGate.UnnamedDiffers | src/guard/sse_tool_gate.rs:56-57 | A call without a name passes on a stream and is denied in a whole reply |
| ToolGate.EmptyArgumentsDiffer | src/guard/sse_tool_gate.rs:58-69 | A call with arguments sent as an empty text, whose tool accepts `{}`, passes on a stream and is denied in a whole reply |
| Routing.ResolvePool | src/config/mod.rs:145-258 | Succeeds exactly if there is a backend, every chain names known backends once each, and the default is known or the only one |
| Routing.LegacyBackend | src/config/mod.rs:145-170 | A single legacy backend is accepted under the name `default`; beside named backends it plays no part |
| Routing.CheckRule | src/config/mod.rs:171-212 | Accepts exactly the rules whose chain is known and without repetition |
| Routing.ValidateRoutingBody | src/console/handlers.rs:1530-1596 | Accepts exactly the edits with a known default, valid rules and different models, up to trimming |
| Routing.FallbackNormalized | src/console/handlers.rs:1456-1471 | A blank fallback is dropped from an edit, any other is kept, trimmed, in its place |
| Routing.AcceptedEditBoots | src/console/handlers.rs:1456-1484 | Every edit the console accepts and writes is accepted by the pool on reload |
| Routing.Route | src/config/mod.rs:265-283 | The backend of the first matching rule, otherwise the default |
| Routing.RuleMatchesExactly | src/config/mod.rs:298-304 | A trailing `*` stands for any ending; without it only the model itself matches |
| Routing.EditTakesEffect | src/console/handlers.rs:1456-1484 | Once an edit is written and loaded, a model goes to the backend of its first matching rule, otherwise to its default |
| Routing.RuleChain | src/backend/mod.rs:142-150 | The known backends of one rule, in order |
| Routing.KnownMembers | src/backend/mod.rs:142-150 | Exactly the labels of backends that exist are kept |
| Routing.RouteChain | src/backend/mod.rs:137-158 | The known backends of the first matching rule's chain, otherwise the default alone |
| Routing.ChainIsSound | src/backend/mod.rs:116-158 | For every accepted pool and model the chain is not empty, names no backend twice and starts with the routed backend |
| Routing.Failover | src/proxy/mod.rs:206-278 | Each backend gets the same body at most once, in order; the response is the first reply that is no server error, else the last server error, and a 502 with the last error exactly if no backend replied |
| Base64.Base64Encode | src/guard/spotlight.rs:178-205 | The loop and its tail produce `Encode` |
| Base64.Canonical | src/guard/spotlight.rs:178-205 | The encoding has length 4 * ceil(n / 3) and is the one text that a strict decoder of the standard alphabet and padding reads as the input |

## Left out

- Redaction offsets are counted in characters, not bytes; regular expressions return spans on character boundaries in both.
- Redact.RedactTextIn: the `Bare` style (src/proxy/redact.rs:120-132, 293-306) is not modelled, because it is one call of the regex library with its own replacement syntax.
- Redact.Indexer.Placeholder: the `Bare` arm (src/proxy/redact.rs:440), which the program never reaches, is not modelled.
- Counters are unbounded; u32 and u64 wrap-around is not modelled.
- RoundTrip.RoundTripExactly: for `CaseInsensitive` it is about entities that do not differ only in case; for others see `RoundTrip.EachRestoredExactly`.
- RoundTrip.ConversationExactly: the same.
- DeanonStream.StreamEqualsBatch: is about the outputs of `push` plus `flush`; at the end of a stream the proxy discards what `flush` returns (src/proxy/mod.rs:417-425).
- MaskStream.MaskedStream: is about placeholders without `*`.
- SseContents.StreamRestores: is about replies without a mask; `MaskStream.MaskedStreamRestores` is about masked ones.
- ToolGate.StreamGateAgrees: is about decoded events; the proxy looks at each network chunk on its own (src/proxy/mod.rs:359-398).
- Normalize.NormalizeIdempotent: assumes NFKC does nothing to the text and to the result, because nothing is assumed about the NFKC table.
- Console.ConsoleDb.ApiLogin: users are identified by name (id and name are both unique keys), password hashing is a yes-or-no input, session ids are inputs that the run theorems assume fresh, and a failing database statement is not modelled.
- ConsoleRows.AcceptedRows: the role check of administrators' handlers (src/console/handlers.rs:172) and the checks of new names and passwords come between token and action and are not modelled; the new token that a handler stores afterwards is an action of its own (`RotateCsrf`).
- ConsoleRows.AccountsNeedToken: for the same reason it says what a session and its token are needed for, not which role.
- Disguise.SeparatedIsRead: is about spellings of words of the letters a to z, each alone in its text.
- Routing.Failover: `send` answers as a function of backend and body; since each backend is asked at most once, nothing is lost.
- Routing: names, not connection handles, are routed; writing the TOML file and hot reload are not part of this model.
- Database errors, mutex poisoning and partial writes: every statement succeeds atomically.
- HTTP plumbing, headers, cookies, the user interface, audit log and command-line tools: input and output without algorithmic content.
- The iword scanner, verdict precedence, policies, schemas and the Anthropic adapter: they would only add easy members or repeat a loop already modelled.
- Timing, constant-time comparison and secrecy: not functional correctness.
