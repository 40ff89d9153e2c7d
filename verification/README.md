# gaze-lens: a verified model

gaze-lens lets a client query databases and logs through a privacy layer. Requests and results
cross a bounded wire language; a server admits them under an authority file that may change at any
moment; queries become SQL; logs are read from the end and searched through an index; the token map
that undoes redaction is persisted while calls run concurrently. This project models those parts in
Dafny and proves what they promise.

`dafny verify dfyconfig.toml` checks everything. Code that changes state step by step is a class or a
method with loops, proved equal to a function on values; the promises are lemmas about the function,
over every input or every run. Concurrency is a state machine whose runs are arbitrary sequences of
steps.

- **Wire language** (`Bounds`, `JsonGrammar`, `JsonScan`, `JsonScanner`, `JsonFrame`, `JsonLexemes`, `Utf8Text`,
  `JsonCompact`, `Frames`, `Decimals`, `Pages`): the JSON admission scanner against a declarative grammar and,
  for frames, a rule for the path of each node; the compactor, the frame buffer, exact decimal arithmetic, inventory pages.
- **Authority and protocol** (`Identities`, `History`, `Enrollment`, `Authority`, `Requests`, `Wire`, `Service`,
  `ServiceSafety`, `ClientServer`): the identity ledger over all restarts, the authority file, one
  connection cut at its waits, all connections with their permits, and a connection together with a client.
- **Queries** (`Queries`, `QueryCompiler`, `QueryReader`): what a canned query means, its compilation,
  and a reader that recovers the meaning from text and binds.
- **Logs** (`LogTail`, `LogSearch`, `LogCaches`): the chunked backward reader, the keyword index against
  a linear scan, two stacked caches.
- **Persistence** (`Durability`, `Maintenance`, `ResultCaps`): concurrent snapshot writes with crashes,
  manifest rows and the retention sweep, capped results.
- **Small machines and codecs** (`Base64`, `Watchdog`, `SchemaTokens`).
- `Wrappers`, `Sequences` and `Counting` hold shared types and facts about sequences.

## Findings

Five promises hold only under a condition, which is proved exactly.

- A tail of a valid UTF-8 log fails exactly when its last lines exceed a byte cap above zero and the first
  byte behind the cap continues a character (`LogTail.TailFailsOnlyInsideCharacter`, with the example
  `LogTail.CutCharacterFails`).
- A line cut inside a character is shown with a replacement character, up to two bytes over its cap, and a
  flagged line can even be shown whole (`LogTail.LineShown`, `LogTail.CappedIsFlagged`).
- Schema tokens collide with a name that a profile allows through exactly when that name is spelled as the
  token of another name (`SchemaTokens.CollisionNeedsAllowedToken`, with the example
  `SchemaTokens.AllowedTokenCollides`; without token-shaped allowed names there is none,
  `SchemaTokens.NoAllowedTokenNoCollision`).
- Warnings of the retention sweep can come within a day of each other: a failure to write the time of a warning
  is ignored, and an unreadable file counts as no warning (`Maintenance.WarnsAgainExactly`, with the example
  `Maintenance.UnwrittenWarningsRepeat`).
- A frame buffer refuses to finish when an empty chunk follows the completed frame
  (`Frames.FrameExact`); the server's read loop never pushes one (`Frames.ReadFrame`).

## Model

| member | source | states |
|---|---|---|
| `JsonScanner.ScanJson` | crates/gaze-lens-protocol/src/bounds.rs:106-119 | A text is accepted exactly when it is within the byte cap, valid UTF-8 and the text of a syntax tree that obeys the rules of the mode; `FrameScanExact` and `PlainScanExact` write these out. |
| `JsonScanner.PlainScan` | crates/gaze-lens-protocol/src/bounds.rs:96-105 | Outside frames: accepted exactly when the text is RFC 8259 JSON with only paired surrogates, distinct decoded keys in every object, depth at most 32, at most 16384 values and keys, and every decoded string, key, number and literal within its cap. |
| `JsonScan.ScanExact` | crates/gaze-lens-protocol/src/bounds.rs:200-299 | In both modes scanning succeeds if and only if some syntax tree, with its blanks, has exactly this text and obeys the rules of its mode. |
| `JsonScan.PlainScanExact` | crates/gaze-lens-protocol/src/bounds.rs:94-105 | The same with the rules split into independent conditions on a plain RFC 8259 tree: height, node count, distinct keys, caps. |
| `JsonScan.PlainLegal` | crates/gaze-lens-protocol/src/bounds.rs:200-299 | The depth-carrying rules of the recursive scan agree with the height, key and cap conditions of the whole tree. |
| `JsonFrame.FrameScanExact` | crates/gaze-lens-protocol/src/bounds.rs:200-299 | In frame mode a text is admitted exactly when it is RFC 8259 JSON with distinct decoded keys and at most 16384 values and keys, every node of which obeys the rule of its path: at most 31 steps deep; keys, numbers and literals up to 8192 bytes; the top-level `binding` an object whose members are strings of 32 lower-case hexadecimal digits; any other string under a key `base64` up to 16384 bytes and the rest up to 8192; the top-level `args` up to 65536 and `result` up to 131072 bytes. |
| `JsonFrame.LegalIsObeyed` | crates/gaze-lens-protocol/src/bounds.rs:246-271 | The flags and caps the scan hands down say the same as the path of each node. |
| `JsonFrame.FrameScan` | crates/gaze-lens-protocol/src/bounds.rs:99-119 | The scan of a frame accepts exactly the valid UTF-8 texts within the byte cap that are such frames. |
| `JsonLexemes.EncodedReadsBack` | crates/gaze-lens-protocol/src/bounds.rs:183-184 | The bytes of a code point that is no surrogate are one well-formed UTF-8 character that reads back as it. |
| `JsonLexemes.CodePointsAre` | crates/gaze-lens-protocol/src/bounds.rs:141-182 | Four digits denote a number in base sixteen, and a surrogate pair the code point it splits. |
| `JsonLexemes.ShortEscapesAre` | crates/gaze-lens-protocol/src/bounds.rs:173-173 | The eight short escapes and what they stand for. |
| `JsonLexemes.HexDigitsAre` | crates/gaze-lens-protocol/src/bounds.rs:146-152 | A hexadecimal digit of either case has its value. |
| `JsonScan.NumberExact` | crates/gaze-lens-protocol/src/bounds.rs:301-337 | The number recogniser accepts exactly the texts of the grammar in RFC 8259 section 6. |
| `JsonScanner.RecogniseNumber` | crates/gaze-lens-protocol/src/bounds.rs:301-337 | The index-moving recogniser answers yes exactly for the texts of numbers. |
| `JsonScanner.Scanner.Space` | crates/gaze-lens-protocol/src/bounds.rs:128-136 | Moves past exactly the leading blanks. |
| `JsonScanner.Scanner.HexQuad` | crates/gaze-lens-protocol/src/bounds.rs:141-155 | Reads four hexadecimal digits of either case and yields their value, or refuses. |
| `JsonScanner.Scanner.LowHalf` | crates/gaze-lens-protocol/src/bounds.rs:176-182 | After a high surrogate only an escaped low surrogate is accepted, and the pair gives its code point. |
| `JsonScanner.Scanner.String` | crates/gaze-lens-protocol/src/bounds.rs:158-199 | Accepts a string exactly when its decoded UTF-8 length is within the cap and, where asked, it decodes to 32 lower-case hexadecimal digits; yields the bytes it occupies; every error is the one of the specification. |
| `JsonScanner.Scanner.KeyString` | crates/gaze-lens-protocol/src/bounds.rs:231-240 | The key handed to the duplicate check is the decoded string, whether borrowed or decoded again; the second UTF-8 check cannot fail. |
| `JsonScanner.Scanner.Key` | crates/gaze-lens-protocol/src/bounds.rs:228-245 | A member name is counted, decoded, checked against the earlier names and followed by a colon. |
| `JsonScanner.Scanner.FieldValue` | crates/gaze-lens-protocol/src/bounds.rs:247-270 | The value after a name obeys the rules its name and place impose, which `FrameScanExact` writes out. |
| `JsonScanner.Scanner.FieldRest` | crates/gaze-lens-protocol/src/bounds.rs:264-275 | A field is read by reading its value under its cap, then checking the size of what was read, then passing the blanks. |
| `JsonScanner.Scanner.Container` | crates/gaze-lens-protocol/src/bounds.rs:213-284 | An array or object is consumed up to its own closing bracket, with the node count of all it holds. |
| `JsonScanner.Scanner.Value` | crates/gaze-lens-protocol/src/bounds.rs:200-298 | The scanner consumes exactly what the specification consumes, counts the same nodes and reports the same error; it always terminates. |
| `JsonCompact.CompactJson` | crates/gaze-lens-protocol/src/value.rs:23-44 | The two-flag loop computes the compacted text. |
| `JsonCompact.CompactExact` | crates/gaze-lens-protocol/src/value.rs:10-44 | Compacting admitted source JSON gives source JSON: a plain tree with the tokens of the original one, whose text is exactly those tokens in order with nothing between them; compacting again changes nothing. |
| `JsonCompact.StripKeepsTokens` | crates/gaze-lens-protocol/src/value.rs:23-44 | Removing blanks from a tree changes no token and its text is its tokens joined. |
| `JsonCompact.CompactKeepsUtf8` | crates/gaze-lens-protocol/src/value.rs:19-44 | Compacting any valid UTF-8 text, JSON or not, gives valid UTF-8. |
| `Frames.Create` | crates/gaze-lens-protocol/src/bounds.rs:348-356 | A buffer exists exactly for limits between one and the frame cap. |
| `Frames.FrameBuffer.Push` | crates/gaze-lens-protocol/src/bounds.rs:357-379 | A push succeeds exactly when nothing is finished or failed, the bytes fit and a newline is the last byte of the chunk; then the chunk is appended, and otherwise nothing is and the failure is latched with its error. |
| `Frames.FrameBuffer.Finish` | crates/gaze-lens-protocol/src/bounds.rs:380-384 | The bytes are released exactly when the frame is complete and nothing failed. |
| `Frames.FrameExact` | crates/gaze-lens-protocol/src/bounds.rs:341-384 | For every way of cutting a stream into chunks the buffer finishes with exactly the stream if and only if it is within the limit, its only newline is its last byte, and nothing, not even an empty chunk, follows completion. |
| `Frames.FailureLatches` | crates/gaze-lens-protocol/src/bounds.rs:357-379 | After an error no further push changes anything. |
| `Frames.CompletionIsFinal` | crates/gaze-lens-protocol/src/bounds.rs:357-384 | Anything pushed after completion makes the buffer unable to finish. |
| `Frames.ChunkingIrrelevant` | crates/gaze-lens-protocol/src/bounds.rs:341-384 | Two chunkings of one stream without empty chunks have the same outcome. |
| `Frames.ReadFrame` | crates/gaze-lens-server/src/service.rs:273-293 | The read loop succeeds exactly when some prefix of the reads, none empty, is one frame within the limit, and yields it. |
| `Decimals.EquivalentExact` | crates/gaze-lens-protocol/src/value.rs:377-401 | Two JSON numbers compare equivalent exactly when both sets of exponents fit in an i64, the sign flags agree and the denoted values are equal. |
| `Decimals.FormUnique` | crates/gaze-lens-protocol/src/value.rs:377-401 | A value has at most one form n times a power of ten with n not divisible by ten. |
| `Decimals.PartsExact` | crates/gaze-lens-protocol/src/value.rs:378-399 | Parsing a number succeeds exactly when its exponents fit, and gives its sign and a canonical form of its value. |
| `Decimals.MakeDecimal` | crates/gaze-lens-protocol/src/value.rs:231-280 | A decimal is built exactly when the coefficient is a canonical digit string with optional minus and its expansion is at most 255 digits wide; the text is that expansion and the stored precision and scale pass validation. |
| `Decimals.ExpansionExact` | crates/gaze-lens-protocol/src/value.rs:258-273 | The expansion has the sign, as many digits behind the dot as the scale asks for, and denotes exactly the coefficient divided by ten to the scale. |
| `Decimals.MetadataExact` | crates/gaze-lens-protocol/src/value.rs:281-294 | A text is refused as malformed exactly when it is not a JSON number without exponent; of any other the precision is the count of its digits without a zero in front, at least one, the scale the count behind the dot, and more than 255 digits are over the cap. |
| `QueryReader.CompiledQueryIsRecovered` | src/source/db/query.rs:63-166 | For every query, schema and dialect for which compilation succeeds, text and binds alone give back the normalised query: table, exactly the columns it names or else all the allowed ones in the order of the schema, every condition with operator and operands in order, combinator, ordering and limit. |
| `Queries.PlanSucceedsExactly` | src/source/db/query.rs:68-164 | Compilation succeeds exactly for the schema's own table, valid columns everywhere, conditions whose operand and column type suit the operator, and a limit within the cap. |
| `Queries.PlanClausesExact` | src/source/db/query.rs:168-251 | The conditions are compiled exactly when each is plannable, and each keeps its meaning and its place. |
| `Queries.SelectedExactly` | src/source/db/query.rs:75-83 | A query that names columns selects exactly those; any other selects the names of exactly the allowed columns of the schema, each at the place the allowed ones before it leave. |
| `Queries.RefusalIsTrue` | src/source/db/query.rs:68-164 | Every refusal names what is really wrong: the table, an unsafe, unknown or barred column that is asked for, a condition whose operator does not suit its operand or column, or a limit above the cap. |
| `Queries.ValidatedExactly` | src/source/db/query.rs:266-284 | A column is refused as unsafe, as unknown or as barred truly, and otherwise is the first of its name. |
| `Queries.UnsafeExactly` | src/source/db/query.rs:266-292 | The names no column may have: ten keywords in any case, and what contains a semicolon or two dashes. |
| `Queries.MatchesExactly` | src/source/db/query.rs:294-306 | `like` suits seven text types, in any case, and every other operator any type. |
| `QueryReader.RoundTrip` | src/source/db/query.rs:63-166 | A reader of the emitted statement recovers columns, table, conditions with operators and operands, combinator, ordering and limit from text and binds alone, for every dialect and whatever characters identifiers and values contain. |
| `QueryReader.CompilationInjective` | src/source/db/query.rs:63-166 | Two queries that compile to the same text and binds stand for the same select. |
| `QueryReader.ReadIdentExact` | src/source/db/query.rs:308-313 | A quoted identifier reads back as itself and ends where its quoting ends, even when it contains quotes. |
| `QueryReader.ReadValueExact` | src/source/db/query.rs:315-340 | A placeholder, numbered or positional, reads back as the bind of its position. |
| `Queries.PlannedIsPermitted` | src/source/db/query.rs:68-164 | A compiled query reads the schema's own table, names only columns that the schema lists and allows and that are neither keywords nor contain statement breaks, and binds one row past the cap exactly when no lower limit was asked for. |
| `QueryCompiler.CompileToSql` | src/source/db/query.rs:63-166 | The compiler that grows text, binds and placeholder numbers step by step returns the planned select's text with its binds, or the first error of planning. |
| `QueryCompiler.CompileClauses` | src/source/db/query.rs:109-124 | The conditions come out in order, their values bound in order, the placeholder numbers in step with the binds. |
| `QueryCompiler.CompileWhereClause` | src/source/db/query.rs:168-240 | One condition: its text, its values appended to the binds, or the error of its operator and operand. |
| `QueryCompiler.PlaceholderState.Next` | src/source/db/query.rs:328-340 | Each call yields the placeholder of the current number and moves on only where numbers are written. |
| `QueryCompiler.BindAll` | src/source/db/query.rs:209-211 | Every value of a list is bound in order; the first NULL is the error. |
| `QueryCompiler.CompileLimit` | src/source/db/query.rs:144-160 | The limit to bind probes one row past the cap when only the cap limits, and refuses a request above it. |
| `History.Ledger.Validate` | crates/gaze-lens-server/src/history.rs:77-96 | The pairwise loop accepts exactly the histories with version 1, within the cap, with unused generations and at most the latest entry of an id active, all of one kind. |
| `History.Ledger.EnrollOne` | crates/gaze-lens-server/src/history.rs:100-129 | One request keeps, replaces, appends or refuses as specified. |
| `History.Ledger.RetireUnrequested` | crates/gaze-lens-server/src/history.rs:131-136 | Exactly the active entries whose id is not requested are retired, and the flag says whether any was. |
| `History.Ledger.Enroll` | crates/gaze-lens-server/src/history.rs:97-141 | The whole new ledger, the error, and a result that is true exactly when the ledger changed. |
| `Enrollment.ValidatedExactly` | crates/gaze-lens-server/src/history.rs:77-96 | Validation written out over all pairs: version 1, at most 1024 well-formed entries, no generation twice, one kind for each id and all its entries but the last retired; and its error. |
| `Enrollment.RefusalIsTrue` | crates/gaze-lens-server/src/history.rs:97-141 | A refused enrolment says truly why: unsound history, an identity that clashes with it or another, or too many entries or bytes. |
| `Enrollment.EnrolledExact` | crates/gaze-lens-server/src/history.rs:77-141 | Enrolment succeeds exactly when the history is sound, every requested identity is already active or free, the new generations differ and the result fits; the result is the old entries, active only where requested, followed by the new ones. |
| `Enrollment.RequestExact` | crates/gaze-lens-server/src/history.rs:100-129 | When one identity may be enrolled, and what that does to the entries of its id. |
| `Enrollment.EnrollmentKeeps` | crates/gaze-lens-server/src/history.rs:97-141 | Enrolment only appends and retires, keeps validation holding, leaves exactly the requested identities active and revives no retired id. |
| `Enrollment.RepeatChangesNothing` | crates/gaze-lens-server/src/history.rs:97-141 | Enrolling the same identities again succeeds and changes nothing. |
| `Enrollment.RestartsLast` | crates/gaze-lens-server/src/history.rs:45-141 | Between any two moments, over any sequence of restarts, failed writes included: entries only appended, active flags only cleared, no generation reused, no retired id back, validation kept. |
| `Enrollment.ReportedRetirementLasts` | crates/gaze-lens-server/src/history.rs:45-141 | A retirement reported as done is never undone: after a start that answered Ok without requesting an active id, whatever starts follow, the id stays gone and every start that requests it is refused. |
| `Enrollment.AnsweredIsEnrolled` | crates/gaze-lens-server/src/history.rs:45-62 | When a start answers Ok the file is sound and holds what it asked for. |
| `Enrollment.LedgerFile.Open` | crates/gaze-lens-server/src/history.rs:45-62 | Opening leaves the file and answers as specified for every outcome of the write; when it answers Ok, exactly the requested identities are active in the file and every other id that was active is gone. |
| `Enrollment.LedgerFile.Check` | crates/gaze-lens-server/src/history.rs:63-66 | Checking succeeds or fails, with the same error, as enrolling would, without touching the file. |
| `Authority.CheckedIsWf` | crates/gaze-lens-server/src/auth.rs:67-111 | A file is accepted exactly when it is within the caps, its digests, ids, aliases and rights are unique, principals and resources share no id, and every grant names known ones. |
| `Authority.CheckedExactly` | crates/gaze-lens-server/src/auth.rs:67-111 | The same written out over all pairs of principals, resources and grants. |
| `Authority.CheckRefusedTruly` | crates/gaze-lens-server/src/auth.rs:67-111 | A refused file is over a cap, has a malformed alias or breaks a rule, as its error says. |
| `Authority.IdentitiesExactly` | crates/gaze-lens-server/src/auth.rs:112-134 | The list holds exactly the identity of each principal and resource, with its own kind, id, generation and digest. |
| `Authority.ListIdentities` | crates/gaze-lens-server/src/auth.rs:112-134 | The pushed and sorted list is the specified one. |
| `Authority.IdentitiesAreRequestable` | crates/gaze-lens-server/src/auth.rs:112-134 | An accepted file lists well-formed identities with distinct ids in order of id. |
| `Authority.IdentitiesCompareDefinitions` | crates/gaze-lens-server/src/history.rs:68-74 | The comparison a running server makes succeeds exactly when the same principals and resources are defined, in whatever order, given that no two of their digests collide. |
| `Authority.PreparedExactly` | crates/gaze-lens-server/src/auth.rs:136-168 | A request is pinned exactly to the one principal with its credential's digest and the one resource with its alias, when some grant of the file names both and the operation, is enabled and expires later; otherwise it is unauthorised. |
| `Authority.RevalidationOnlyChecksGrants` | crates/gaze-lens-server/src/auth.rs:169-191 | Behind the identity check, revalidation succeeds exactly when some enabled, unexpired grant of the file names the pinned right, and otherwise answers unauthorised, never that the binding changed. |
| `Authority.RevalidatedExactly` | crates/gaze-lens-server/src/auth.rs:169-191 | The answer of revalidation in every case, the grants written out. |
| `Wire.Sequence.Prepare` | crates/gaze-lens-protocol/src/wire.rs:958-967 | Accepted exactly as the first event with a valid request; anything else closes the sequence. |
| `Wire.Sequence.Prepared` | crates/gaze-lens-protocol/src/wire.rs:968-981 | Accepted exactly after Prepare, valid and with its id and operation; anything else closes the sequence. |
| `Requests.Validate` | crates/gaze-lens-protocol/src/query.rs:147-203 | The loops over columns, predicates and orders, with the names seen and the values counted, report the first failure of the specification. |
| `Requests.QueryDecided` | crates/gaze-lens-protocol/src/query.rs:147-203 | A query passes exactly when names are present, columns are distinct and every operator has the operand it takes, and every length and count is within its cap; a refusal for a malformed request or for a cap is true. |
| `Requests.PredicatesDecided` | crates/gaze-lens-protocol/src/query.rs:166-196 | Predicates pass exactly when each has its operand within the caps, and the values counted are all they bind. |
| `Wire.ArgsDecided` | crates/gaze-lens-protocol/src/wire.rs:219-262 | The arguments of every operation pass exactly when they are shaped and within the caps; a refusal says truly which they are not. |
| `Wire.CallDecided` | crates/gaze-lens-protocol/src/wire.rs:866-891 | A peer decodes exactly the calls that can be encoded, though the two check in different orders. |
| `Wire.Sequence.Call` | crates/gaze-lens-protocol/src/wire.rs:982-999 | Accepted exactly after Prepared with its id, operation and binding and for a valid call; anything else closes the sequence with the error of the first check that fails. |
| `Wire.Sequence.Success` | crates/gaze-lens-protocol/src/wire.rs:1000-1007 | Always closes; accepted only as an answer to the call. |
| `Wire.Sequence.Failure` | crates/gaze-lens-protocol/src/wire.rs:1009-1016 | Always closes; accepted only for the id in progress. |
| `Wire.IdExactly` | crates/gaze-lens-protocol/src/wire.rs:816-824 | The ids accepted, character by character. |
| `Wire.PrepareExactly` | crates/gaze-lens-protocol/src/wire.rs:843-849 | What a request must look like: id, alias, and 64 hexadecimal digits of either case. |
| `Wire.BindingExactly` | crates/gaze-lens-protocol/src/wire.rs:69-85 | All four fields of a binding are 32 lower-case hexadecimal digits. |
| `Wire.NothingAfterTheEnd` | crates/gaze-lens-protocol/src/wire.rs:935-1017 | In every run, after a refused event, a success or a failure nothing is accepted any more; so a success happens at most once. |
| `Wire.SuccessIsCorrelated` | crates/gaze-lens-protocol/src/wire.rs:892-1007 | An accepted success is the fourth event of the run Prepare, Prepared, Call, Success, with one id, one operation and one binding throughout. |
| `Service.PrincipalTable.Acquire` | crates/gaze-lens-server/src/service.rs:311-324 | A permit is taken below the cap and refused at it without changing the table. |
| `Service.PrincipalTable.Drop` | crates/gaze-lens-server/src/service.rs:326-336 | Giving a permit back lowers the count and removes it at zero. |
| `Service.Connection.OnPrepare` | crates/gaze-lens-server/src/service.rs:163-195 | The step from the first frame to the offer or the refusal, with the permit it takes. |
| `Service.Connection.OnWrite` | crates/gaze-lens-server/src/service.rs:187-220 | Writing the offer or the last frame; the end of the connection gives the permit back. |
| `Service.Connection.OnCall` | crates/gaze-lens-server/src/service.rs:230-256 | The checks between reading the call and the release, in order, with the code each reports. |
| `Service.Connection.OnRelease` | crates/gaze-lens-server/src/service.rs:257-260 | The last check decides between success and refusal. |
| `Service.PinPasses` | crates/gaze-lens-server/src/service.rs:163-166 | Pinning succeeds exactly when the file read at that moment is accepted, defines the enrolled identities and grants the request. |
| `Service.RecertifyPasses` | crates/gaze-lens-server/src/service.rs:236-258 | A later check passes exactly when the file read at that moment is accepted, defines the enrolled identities and still grants the pinned right. |
| `Service.UngrantedIsRefused` | crates/gaze-lens-server/src/auth.rs:169-191 | Where every grant of the right in the file is disabled or expired, the request is not pinned and every later check answers unauthorised. |
| `Service.AuthorityReadExactly` | crates/gaze-lens-server/src/service.rs:261-266 | Reading the authority: unauthorised without an accepted file, changed when it defines other identities, else the file. |
| `Service.RefusedCallIsWrong` | crates/gaze-lens-server/src/service.rs:230-256 | The code of a refused call is true: malformed or not the request's, over a cap, another binding or changed identities, no clock, no accepted file or no live grant. |
| `Service.WrongCallIsRefusedFirst` | crates/gaze-lens-server/src/service.rs:230-237 | A call for another id, operation or binding is refused as such whatever the authority says meanwhile. |
| `ServiceSafety.SuccessWasAuthorised` | crates/gaze-lens-server/src/service.rs:156-266 | With file, clock and table changing arbitrarily between steps, a success is sent at most once, last, after the offer, both naming the pinned principal and resource with their generations, and only if the run holds in this order the steps of a request, the written offer, a call that fits it, the last check and the written reply, where the file read at each of the three checks defined the enrolled identities and had an enabled, unexpired grant of the right pinned for the request. |
| `ServiceSafety.AuthorisedCallSucceeds` | crates/gaze-lens-server/src/service.rs:156-266 | Conversely, from any new connection, those steps under such an authority with a free permit at the start send exactly the offer and the success. |
| `ServiceSafety.RefusalHadCause` | crates/gaze-lens-server/src/service.rs:156-266 | In every run a refusal on the wire carries the id of the request and the code of the step that failed: an operation not served, two calls of the principal already active, or a failed check of the call or of the release. |
| `ServiceSafety.RevalidateNeverFindsChange` | crates/gaze-lens-server/src/auth.rs:169-191 | In every run the changed-binding branch of revalidation is unreachable behind the identity check, so at both later checks only a live grant can be missing. |
| `ServiceSafety.PermitsAreConserved` | crates/gaze-lens-server/src/service.rs:306-337 | Over all interleavings of all connections the table counts exactly the permits held, never more than two per principal, no empty entries; a finished connection holds none. |
| `ServiceSafety.PermitMoves` | crates/gaze-lens-server/src/service.rs:156-209 | Each step leaves permit and table alone, takes one permit, or gives the held one back. |
| `ClientServer.EveryFrameIsAccepted` | crates/gaze-lens-server/src/service.rs:156-260 | In every run with a client that sends only what its sequence accepts, the client accepts every frame it reads, and a success answers its own call. |
| `Durability.SnapshotOnlyGrows` | src/session/mod.rs:1473-1507 | In every interleaving of minting, locking, exporting and renaming no later write loses a token. |
| `Durability.FilesAreExports` | src/session/mod.rs:1546-1573 | Whatever the file holds, also after a crash at any step, is a complete export of some earlier moment. |
| `Durability.PersistedIsRestorable` | src/session/mod.rs:1473-1507 | Once persisting has returned, recorded or not, the snapshot restores every token minted before the call asked for it, from then on and after a crash at any later step. |
| `Durability.OkRowIsRecorded` | src/manifest/gaze_mcp_adapter.rs:62-97 | A row is ok only after, in this order, the call took the lock, exported the token map of that moment, staged it, renamed it into place, synced the directory so that this very export was durable, and recorded the row. |
| `Durability.WaitingCallCanRecord` | src/session/mod.rs:1473-1507 | No call waits for ever by itself: from every moment of every run before a crash, the own steps of whoever holds the lock, and then those of the waiting call, lead to its ok row. |
| `Durability.EndedCallHoldsNothing` | src/session/mod.rs:1473-1507 | A call that has persisted or failed does not hold the lock. |
| `Durability.UnsyncedCanBeLost` | src/session/mod.rs:1546-1573 | A crash between the rename and the sync can take the snapshot back to what was last synced. |
| `Durability.OkRowStays` | src/manifest/gaze_mcp_adapter.rs:62-118 | A row once ok stays ok. |
| `Durability.FailedRowCanBeMarked` | src/manifest/gaze_mcp_adapter.rs:99-118 | The row of a failed call is not ok and can be marked as failed. |
| `Maintenance.ManifestWriter.BeginCall` | src/session/manifest.rs:88-121 | A row is inserted once per call id. |
| `Maintenance.ManifestWriter.FinishCall` | src/session/manifest.rs:123-164 | A known row becomes finished with exactly the given summary and snapshot, the rest of it and all other rows unchanged; an unknown one is an error. |
| `Maintenance.FinishedRowStays` | src/session/manifest.rs:123-164 | Over any mixture of events the row keeps what finishing made of it until the next event of its call. |
| `Maintenance.ManifestWriter.FailCall` | src/session/manifest.rs:166-183 | A known row becomes failed and keeps its snapshot; an unknown one is no error. |
| `Maintenance.RowsAreARecord` | src/session/manifest.rs:87-184 | Over any mixture of calls and sweeps no row is deleted, what it first recorded stays, a tombstone stays, and a finished row that is not purged has a snapshot. |
| `Maintenance.CapIsLowerBound` | src/session/maintenance.rs:33-48 | Merging two modes gives their greatest lower bound: it can only become less destructive. |
| `Maintenance.ExpiredIsArithmetic` | src/session/maintenance.rs:178-240 | Within the integer widths the saturating age test is plain arithmetic. |
| `Maintenance.ManifestMaintenance.SweepExpiredSnapshots` | src/session/maintenance.rs:165-312 | The loop's whole effect on rows, files, report and the file of the last warning, for every mode and every failure of the surroundings, that file being unreadable or unwritable included. |
| `Maintenance.PurgeExact` | src/session/maintenance.rs:165-282 | A purge that returns Ok puts every eligible row into exactly one of purged and failed, once, tombstones exactly the purged rows and removes exactly their files. |
| `Maintenance.PurgeWrittenOut` | src/session/maintenance.rs:165-282 | The same with the age test, the tombstone and the removed files written out. |
| `Maintenance.PurgeStopsOnlyUnwritable` | src/session/maintenance.rs:165-282 | A purge stops exactly at a due row whose file can be removed but whose tombstone cannot be written. |
| `Maintenance.OnlyFailuresRemain` | src/session/maintenance.rs:165-282 | A second sweep at the same clock finds only the rows that had failed. |
| `Maintenance.NoRowDangles` | src/session/maintenance.rs:165-282 | Given one path per session, no finished row outside the failures still refers to a removed file. |
| `Maintenance.SweepIsCareful` | src/session/maintenance.rs:165-282 | Completed or interrupted, a sweep deletes no row, alters a row only by its tombstone and removes only files of eligible rows; outside purge mode it changes nothing. |
| `Maintenance.WarnForetellsPurge` | src/session/maintenance.rs:236-239 | A warning sweep lists exactly the rows a purge at that clock would purge or fail. |
| `Maintenance.WarningsAreADayApart` | src/session/maintenance.rs:286-341 | With a clock that does not run backwards two warnings are at least a day apart if the times of the first and of those between were written and the file can be read at the second. |
| `Maintenance.WarnsAgainExactly` | src/session/maintenance.rs:286-341 | After the latest warning a sweep warns again exactly when the file cannot be read, or the time it wrote is a day old, or that ignored write was lost and left no time or one a day old. |
| `Maintenance.FirstWarnsExactly` | src/session/maintenance.rs:286-341 | Before any warning a sweep warns exactly when the file cannot be read, holds no time or one a day old. |
| `Maintenance.UnwrittenWarningsRepeat` | src/session/maintenance.rs:310-341 | Where the file can never be written every sweep warns. |
| `LogTail.TailStartOffset` | src/source/log/local_log.rs:461-499 | For every non-empty file, every n of at least one and every chunk size, the backward scan finds the offset from which exactly the last n lines, or all of them, are left. |
| `LogTail.TailStartIsUnique` | src/source/log/local_log.rs:461-499 | There is only one such offset, so the chunk size does not matter. |
| `LogTail.TailStartIsLastLines` | src/source/log/local_log.rs:461-499 | From that offset the file is what dropping lines from the front until n are left gives. |
| `LogTail.ReadTailBytes` | src/source/log/local_log.rs:435-459 | The bytes read are the last lines, one byte past the cap at most. |
| `LogTail.Tail` | src/source/log/local_log.rs:413-433 | The lines, the flags and the size: `Bytes` exactly when the last lines exceed the cap, `LineBytes` exactly when a line was over its cap; `ShownExactly` says which lines. |
| `LogTail.ShownExactly` | src/source/log/ssh_log.rs:519-534 | The lines shown are exactly the non-empty pieces between newlines, in their order, each decoded after the cut at the cap; the flag is up exactly when some piece is longer than the cap. |
| `LogTail.LinesArePieces` | src/source/log/local_log.rs:461-499 | Lines are the pieces between newlines, without the empty one behind a final newline. |
| `LogTail.LastLinesExactly` | src/source/log/local_log.rs:461-499 | The last lines are the file from the start of some line on, with as many lines as exist but at most those asked for. |
| `LogTail.TailFailsOnlyInsideCharacter` | src/source/log/local_log.rs:413-433 | For a valid log the tail fails exactly when the last lines exceed a cap above zero and the first byte behind the cap continues a character. |
| `Utf8Text.BoundaryExact` | src/source/log/local_log.rs:417-421 | A valid text may be cut in front of every byte that does not continue a character, and nowhere else. |
| `Utf8Text.LossyExact` | src/source/log/ssh_log.rs:527-532 | Lossy decoding always gives valid text and changes exactly the texts that are not valid. |
| `Utf8Text.BadLengthExactly` | src/source/log/ssh_log.rs:527-532 | One replacement character stands for the longest part that begins a character, or one byte. |
| `LogTail.LineShown` | src/source/log/ssh_log.rs:527-532 | A line over its cap is shown as its longest whole-character prefix within the cap and one replacement character if a character was cut: up to two bytes over the cap. |
| `LogTail.CutCharacterFails` | src/source/log/local_log.rs:417-421 | Such a log exists. |
| `LogTail.SplitJoins` | src/source/log/ssh_log.rs:519-534 | The pieces between newlines, joined again, are the text. |
| `LogTail.CappedIsFlagged` | src/source/log/ssh_log.rs:519-534 | Without the flag every line of a valid text is shown whole; all are shown whole exactly when each one over its cap ends in a replacement character that the cap falls into. |
| `LogSearch.KeywordIndex.Build` | src/mcp/tools/log_grep.rs:186-194 | The built postings list, for every term, exactly the lines that have it, in order. |
| `LogSearch.KeywordIndex.MatchingLines` | src/mcp/tools/log_grep.rs:196-210 | For every non-empty term list: in increasing order and without repeats, exactly the lines that have every term. |
| `LogSearch.IntersectSorted` | src/mcp/tools/log_grep.rs:804-820 | Two increasing lists intersect to an increasing list of exactly their common elements. |
| `LogSearch.FilterIndexedWindow` | src/mcp/tools/log_grep.rs:353-400 | The indexed search gives the answer of a linear scan: a prefix of the matching lines at the level, their number, and `Rows` exactly when matches were cut. |
| `LogSearch.ScanExactly` | src/mcp/tools/log_grep.rs:353-400 | The answer written out: the number of hits; the first of them in order, up to the limit; all the reasons given before, and `Rows` exactly when it was among them or a hit is missing. |
| `LogSearch.LineTermsExactly` | src/mcp/tools/log_grep.rs:636-647 | The terms a line is found by are those of its words and the further ones. |
| `LogSearch.TrimmedExactly` | src/mcp/tools/log_grep.rs:798-800 | The punctuation trimmed from a term, listed. |
| `LogSearch.WordsFindTheirLine` | src/mcp/tools/log_grep.rs:629-647 | A query made of any words of a line finds that line. |
| `LogSearch.NormalizeExact` | src/mcp/tools/log_grep.rs:797-802 | A term is the lower-cased middle of its word, punctuation gone from both ends and nothing else; a word of punctuation alone has none. |
| `LogSearch.WordsOfSpaced` | src/mcp/tools/log_grep.rs:629-634 | Splitting at blanks undoes joining with them. |
| `LogSearch.FilterGrepOutput` | src/source/log/local_log.rs:325-376 | The pattern search gives the same kind of answer by counting and pushing. |
| `LogCaches.Lookups.Start` | src/mcp/tools/log_grep.rs:274-308 | The upper lookup answers at once exactly when no refresh is asked for and its entry is at most a time to live old; the answer is that entry, and recent. |
| `LogCaches.Lookups.LookUp` | src/source/log/local_log.rs:120-149 | The lower lookup is served exactly when no refresh is asked for and its entry is at most a time to live old; otherwise it fetches. |
| `LogCaches.Lookups.Finish` | src/source/log/local_log.rs:110-160 | A fetched window replaces the entry of its path and no other, minted now; a failed fetch leaves both caches as they were. |
| `LogCaches.Lookups.Index` | src/mcp/tools/log_grep.rs:293-315 | The index built of the window held replaces the entry of its key and no other, minted now, and is the answer, which is recent. |
| `LogCaches.AnswersAreRecent` | src/mcp/tools/log_grep.rs:274-315 | In every interleaving an answer's index belongs to its window; without refresh reading that window began at most two times to live ago, plus the time it took to read and to index, with refresh after the call began. |
| `LogCaches.BoundIsReached` | src/mcp/tools/log_grep.rs:274-315 | For every time to live and every window a run attains the bound. |
| `Base64.Base64Encode` | src/source/db/mysql.rs:357-378 | The loop over chunks computes the encoding. |
| `Base64.LettersAre` | src/source/db/mysql.rs:358-358 | The alphabet of RFC 4648 section 4. |
| `Base64.RoundTrip` | src/source/db/mysql.rs:357-378 | The encoding has length four times the rounded-up third, a strict RFC 4648 section 4 decoder recovers the bytes, and no other text decodes to them. |
| `Base64.ValidatedExactly` | crates/gaze-lens-protocol/src/value.rs:221-226 | A byte value validates exactly when its text is the encoding of that many bytes within the cap; so the encoder's output always does. |
| `Watchdog.Supervisor.AdmitFor` | src/source/remote/watchdog.rs:80-95 | An admission is given only when idle and starts its deadline. |
| `Watchdog.Supervisor.Complete` | src/source/remote/watchdog.rs:96-108 | Completing in time returns to idle; otherwise the process terminates. |
| `Watchdog.Supervisor.WorkerTurn` | src/source/remote/watchdog.rs:43-67 | At or after the deadline the worker terminates the process; before it, it sleeps no longer than until the deadline. |
| `Watchdog.RunningEndsInTime` | src/source/remote/watchdog.rs:43-108 | While the process lives a running deadline ends only by its own admission completing before it. |
| `Watchdog.TimelyCompletionIsIdle` | src/source/remote/watchdog.rs:96-108 | A completion before its deadline leaves the process alive and idle. |
| `Watchdog.TerminatedOnlyLate` | src/source/remote/watchdog.rs:43-108 | The process is terminated only by a completion or a turn of the worker at or after the running deadline. |
| `Watchdog.IdleAdmits` | src/source/remote/watchdog.rs:80-95 | In an idle, living process an admission is given, with its whole time ahead. |
| `Watchdog.OneAdmissionAtATime` | src/source/remote/watchdog.rs:80-95 | No admission is given while an earlier one, dropped or not, is unfinished. |
| `Watchdog.OverdueIsFatal` | src/source/remote/watchdog.rs:43-67 | An admission never completed is fatal at the worker's next turn at or after its deadline, whatever happened in between, and nothing changes after that. |
| `SchemaTokens.SchemaTokenizer.TokenFor` | src/source/db/schema.rs:62-79 | The token and the maps after each call. |
| `SchemaTokens.TokenSpelled` | src/source/db/schema.rs:76-76 | A token is its kind's own prefix and its number in at least three digits between angle brackets. |
| `SchemaTokens.PassesExactly` | src/source/db/schema.rs:63-65 | The names shown as they are: those allowed, those ending in "_at", and six more. |
| `SchemaTokens.TokensAreStableAndDistinct` | src/source/db/schema.rs:62-79 | Over any history of calls two tokenised names get the same token exactly when kind and name are the same. |
| `SchemaTokens.TokenIsNumbered` | src/source/db/schema.rs:62-79 | The number in a token is one more than the count of the distinct names of its kind tokenised before the first call for that name. |
| `SchemaTokens.CollisionNeedsAllowedToken` | src/source/db/schema.rs:62-79 | Two different names of a kind are shown alike exactly when one is allowed through and is spelled as the other's kind and number, which the calls alone determine. |
| `SchemaTokens.NoAllowedTokenNoCollision` | src/source/db/schema.rs:62-79 | A history that allows no token-shaped name through has no collision. |
| `SchemaTokens.AllowedTokenCollides` | src/source/db/schema.rs:62-79 | Such a collision exists. |
| `Pages.WalkCoversOnce` | crates/gaze-lens-protocol/src/wire.rs:784-813 | A complete walk over validated pages of an unchanged inventory shows every record on exactly one page and nothing else. |
| `Pages.WalkIsShort` | crates/gaze-lens-protocol/src/wire.rs:784-813 | Every page moves the offset on, so a walk has no more pages than records, or one empty page. |
| `Pages.ValidatedExactly` | crates/gaze-lens-protocol/src/wire.rs:784-813 | A page passes exactly when it answers the request, keeps the caps and is a slice of the inventory that names the next offset and a reason exactly when more is to come. |
| `ResultCaps.CapString` | src/session/mod.rs:1509-1518 | The longest prefix within the cap that ends at a character, flagged exactly when something was cut. |
| `ResultCaps.CapRows` | src/session/mod.rs:882-974 | The returned rows are the capped first rows, as many as fit; each flag is raised exactly for what was lost. |
| `ResultCaps.InsertCappedCell` | src/session/mod.rs:1259-1284 | A cell whose size is above the cap is replaced by the marker and flagged, earlier flags kept; any other is kept. |
| `ResultCaps.CappedRowIs` | src/session/mod.rs:1259-1284 | A returned row has the columns of its row, every cell over the cap replaced by the marker. |
| `ResultCaps.NoFlagNoLoss` | src/session/mod.rs:882-974 | Without a flag nothing is missing or replaced. |

## Left out

- Allocation failures (`try_reserve` and its error) are not modelled; every other error of the scanner, the compactor and the decimals is.
- JsonCompact.CompactJson: works on bytes where the source walks characters; bytes of longer characters are copied alike, and the result is shown to stay valid UTF-8.
- The second decoding of an escaped key by the JSON library is modelled as the decoding of RFC 8259 section 7.
- JSON codecs of typed messages: frames are typed values, so encoding and decoding are taken to be inverse on valid messages, and their byte caps beyond the scanner's are not modelled.
- Wire.Sequence.Success: the bodies of results other than readiness are opaque apart from the operation they belong to; those of package pages are modelled in `Pages`.
- Wire.Sequence.Call: the length of the serialised arguments is a part of the call; the limits of the scanner on the frame around them are not applied again.
- Digests: the digest of a credential and of a definition are parameters; where two definitions must not collide, the lemma says so for the files at hand.
- History.Ledger.Enroll: the serialised size of a ledger is a parameter, any function of its entries.
- Enrollment.LedgerFile.Open: the process lock, file permissions and the JSON of the file are not modelled; the outcomes of the write are its replacement and whether it was reported.
- Service.Connection.OnPrepare: TLS, sockets, time-outs and shutdown are failed reads, failed writes and an abort at any step; the limit on all connections together is not modelled.
- Service.Connection.OnCall: `request` and `checks` are ghost fields that record the admitted request and the moments of its passed checks.
- Durability.PersistedIsRestorable: redaction and export are foreign code; an export is the set of tokens it restores, and tokens are only ever added.
- Durability.FilesAreExports: temporary files left behind by a crash are not modelled.
- Maintenance.ManifestWriter.BeginCall: time stamps and the text of errors are left out of a row.
- Maintenance.ManifestMaintenance.SweepExpiredSnapshots: the order in which the database lists rows, the time inside a session id, the refusal to remove a file, the failure to write a tombstone and what becomes of the file of the last warning are parameters; a missing file counts as removed.
- LogTail.Tail: the file does not change while it is read.
- LogSearch.KeywordIndex.Build: which characters are blanks, lower-casing, and the key-value, token and segment terms of a line are parameters; the results hold for any of them.
- LogSearch.FilterIndexedWindow: the level test is any predicate on a line, since regular expressions are foreign code; rendering the answer as text is left out.
- LogCaches.AnswersAreRecent: a poisoned lock and a cached error are not modelled; the path of a profile is chosen with the call.
- Base64.Base64Encode: bit shifts are written as division and remainder.
- Watchdog.Supervisor.WorkerTurn: when the worker runs is up to the scheduler; the panic hook and poisoned locks terminate the process and are not modelled further.
- ResultCaps.CapRows: redaction of a row comes before its caps and is not modelled; sizes of cells and rows are any functions.
- Dates, times and UUIDs, the schema's allowed flags, the instructions patcher, the parser of time-out messages, the wizard, configuration, error texts and database drivers are not part of this model: they read off one branch each or are library behaviour.
