# Verified model of the MCP workspace bridge's core algorithms

A Dafny model of the parts of the repository that are algorithms or protocols rather than schemas and I/O: the
Windows command-line quoter, canonical JSON and the digests built on it, the one-shot confirmation registries, the
mutation-receipt store, the credential broker's wire format on both of its sides, accessibility-snapshot
projection, log rotation, the evaluation sanitiser, the policy merge with its path tests, and nested deadlines.
`dafny verify dfyconfig.toml` checks everything.

Strings are sequences of UTF-16 code units (`Texts`), bytes are integers below 256 (`Utf8`). State that the
original updates in place is a class (`Registry`, `InMemoryMutationReceiptStore`, `CredentialSecret`, `Pipe`,
`LogFiles`, `Sanitizer`) or an array; each of its methods is tied to a function of the old state, and the
theorems about whole runs are proved of that function.

## Main results

* **Command lines.** `BuildCommandLine` is inverted, for every list of arguments, by the argument rules of
  Microsoft's "Parsing C command-line arguments", under all three readings of a doubled quote.
* **Canonical JSON.** A reader gets a value's meaning back from its text, and two values print alike, and are hashed
  from the same bytes, if and only if they mean the same data. Fingerprints, idempotency keys and the arguments
  digest inherit exact laws about the bytes that are hashed.
* **Confirm and retry.** Over every run of a registry a consume succeeds if and only if an earlier, still standing
  and unexpired create with a matching binding granted it; no confirmation is used twice; a confirmation created
  for some arguments is accepted when they come back carrying confirmation ids, and for no others.
* **Exactly once.** Over every interleaving of calls on the receipt store, each key is granted, begun and finished
  at most once, in that order; what every call answers is decided by what was granted, begun and finished before;
  identity never changes; completed receipts are replayed for ever with the result that was handed in.
* **Credential wire.** The parser returns a secret if and only if the payload is byte for byte the broker's
  response; it zeroes the payload on every exit and returns copies, and what the copies hold afterwards is stated
  for every exit. In any chunking the client learns what `RunRead` found if and only if the first response is within
  the protocol's limits; beyond them, the catch-all block appends a second response and reading fails. The broker
  reads back what the client wrote exactly when the lengths are in its limits, and every refusal on either side is
  characterised by the bytes.
* **Snapshot projection.** On the rendering of any forest the line scan agrees with selecting, cutting and
  filtering the forest itself; the size cut is the longest fitting prefix, and its lines are lines of the snapshot in
  their order.
* **Log rotation.** After every file operation of every run, failures and torn writes included, the files hold the
  end of everything appended, no move overwrites a file, and no file exceeds the limit. An undisturbed line joins the
  current file while that stays within 4 MiB.
* **Sanitiser, merge, paths, deadlines.** The sanitiser succeeds exactly when every object is reached by one path
  only and the paths are few and short, refuses every reachable cycle, redacts every private name and keeps
  everything else; the merge computes a per-key specification, ids and catalog included, and grants write access
  only where an entry had it or under an enabled root; "under a root" is a segment prefix; by POSIX rules accepted
  Git paths stay below any root, and by Windows rules exactly those that do not begin with a drive; a chain of
  deadlines is the minimum of its members.

## Findings

* **An own `__proto__` field is lost.** `result[key] = value` makes no entry for `__proto__`
  (typed-confirmation.ts:129-156, mutation-receipts.ts:297-327). So "different arguments, different digest text"
  is false: `ProtoFieldIsLost` gives, for every object with such a field, a different one with the same text.
  `DigestTextIff` states exactly when two texts agree, and `DigestSeparates` proves the promised law for values
  without such fields. For the same reason `parsePublicResultValue` is idempotent exactly on `ProtoSafe` values
  (`ParseTwice`); what the store holds has been copied through JSON, so it always parses unchanged.
* **Bindings are compared as UTF-8 bytes**, in which every unpaired surrogate is written like U+FFFD. Two bindings
  match exactly when they are equal after that replacement (`SameTypedIff`, `SameBrowserIff`). A valid binding
  matches no other valid one if and only if its texts are well formed and free of U+FFFD
  (`TypedMatchesOnlyItselfIff`, `BrowserMatchesOnlyItselfIff`); `DifferentBindingsCanMatch` is an instance. The same
  holds of the invocation id in an idempotency key (`IdempotencyKeySeparates`).
* **A Git path may begin with a drive.** The test for a drive wants a slash after the colon, so `C:x` and `C:..` are
  accepted (`DriveRelativeIsAccepted`). By Windows rules an accepted path stays below every root if and only if its
  first segment does not begin with a drive letter and a colon (`AcceptedStaysBelowOnWindowsIff`).
* **Empty array slots print as nothing.** `map` skips them, so an array holding one empty slot prints like the empty
  array (`LoneSlot`), and the text is JSON exactly for values without other slots (`TextIsJsonIff`). `Meaning` takes
  both into account, so the law of `CanonicalTextIsMeaning` holds with slots too. Stored receipts hold null instead.
* **"Cyclic" also means shared.** The sanitiser refuses an object that is reached twice without any cycle
  (`SharedObjectIsRefused`); `SanitizableIff` is the exact condition.
* **A denied path can come back** when the base holds two entries for its key, one of them enabled, and explicit
  entries are always exposed; `DenyWins` gives the exact condition, which distinct keys rule out.
* **An absent input and a null input have different fingerprints**, although `undefined` and `null` print alike on
  their own (`FingerprintSeparates`).
* **Copies of a refused payload stay.** `parseBrokerPayload` zeroes the user name and password it copied out only
  when the payload is an exact response that names the expected version, process and nonce (`WhatIsLeft`).

`projectBrowserSnapshot` shows the anchor line at depth 0 as at depth 1 (`TreeView`); the input schema asks for a
depth of at least 1 (packages/mcp-core/src/browser-contracts.ts:401), so this is a remark on the function alone.

## Model

| member | source | states |
|---|---|---|
| CommandLine.QuoteWindowsArgument | tooling/windows-elevation-broker/McpElevationBroker.cs:518-556 | the quoted value is read back as exactly one argument, the value itself, under every quote rule |
| CommandLine.BuildCommandLine | tooling/windows-elevation-broker/McpElevationBroker.cs:504-516 | for every list of arguments, parsing the line by Microsoft's rules gives back exactly that list, under every quote rule |
| CommandLine.QuotedIsOneArgument | tooling/windows-elevation-broker/McpElevationBroker.cs:518-556 | a quoted value followed by a space or the end is one argument and does not disturb what follows |
| CommandLine.LineRoundTrip | tooling/windows-elevation-broker/McpElevationBroker.cs:504-516 | the round trip for a line followed by more text |
| CommandLine.QuotedIffNeeded | tooling/windows-elevation-broker/McpElevationBroker.cs:518-526 | a value is left alone exactly when it is not empty and has no white space and no quote; others are enclosed in quotes |
| CommandLine.ScanEscaped | tooling/windows-elevation-broker/McpElevationBroker.cs:526-555 | from any number of held-back backslashes, the doubled and escaped body with its closing quote is read as those backslashes and the value |
| CommandLine.ScanPlain | tooling/windows-elevation-broker/McpElevationBroker.cs:518-525 | a non-empty value without white space and quotes is read as it stands, backslashes included |
| CanonicalJson.CanonicalTextIsMeaning | packages/mcp-core/src/browser-idempotency.ts:6-32 | text exists exactly for printable values, is read as the value's meaning, and is equal for two values if and only if their meanings are; empty array slots included |
| CanonicalJson.ReadBack | packages/mcp-core/src/browser-idempotency.ts:6-32 | the reader gets the meaning back from the text and stops right after it, whatever follows |
| CanonicalJson.PrintableIffOk | packages/mcp-core/src/browser-idempotency.ts:6-32 | printing fails exactly when a non-finite number or a non-JSON value is inside, other than under a dropped key |
| CanonicalJson.SameMeaningSameText | packages/mcp-core/src/browser-idempotency.ts:18-31 | key order and undefined-valued keys leave no trace in the text |
| CanonicalJson.PrintedEntries | packages/mcp-core/src/browser-idempotency.ts:21-31 | the printed members are the defined entries, strictly sorted by code unit, with the meaning of the original ones |
| Texts.LessIff | packages/mcp-core/src/browser-idempotency.ts:25-27 | the order of keys is by the first code unit in which they differ, a proper beginning coming first |
| CanonicalJson.SortKeepsFields | packages/mcp-core/src/browser-idempotency.ts:21-31 | sorting gives strictly ascending keys and changes no field |
| CanonicalJson.ReadStringified | packages/mcp-core/src/browser-idempotency.ts:6-32 | every string, unpaired surrogates included, is read back from its escaped form |
| CanonicalJson.OrdinaryUnitsStay | packages/mcp-core/src/browser-idempotency.ts:10-13 | a unit stands for itself exactly when it is no quote, backslash, control character or unpaired surrogate |
| CanonicalJson.EscapesAreShortest | packages/mcp-core/src/browser-idempotency.ts:10-13 | other units are written in the shortest way that is read back, hexadecimal digits in lower case |
| CanonicalJson.TextIsJsonIff | packages/mcp-core/src/browser-idempotency.ts:18-22 | the text is JSON proper exactly for values without empty slots, apart from arrays holding a single one |
| CanonicalJson.LoneSlot | packages/mcp-core/src/browser-idempotency.ts:20-22 | an array holding one empty slot prints like the empty array |
| CanonicalJson.CanonicalIsWellFormed | packages/mcp-core/src/browser-idempotency.ts:6-32 | whatever strings the value holds, its text has no unpaired surrogate |
| CanonicalJson.CanonicalBytesAreMeaning | packages/mcp-core/src/browser-idempotency.ts:34-41 | two values give the same UTF-8 bytes to hash if and only if they mean the same |
| CanonicalJson.FingerprintSeparates | packages/mcp-core/src/browser-idempotency.ts:34-41 | the hashed texts, and their bytes, agree if and only if operation, input meaning and presence of the input agree |
| CanonicalJson.FingerprintReads | packages/mcp-core/src/browser-idempotency.ts:34-41 | the fingerprint text is read as an object of the operation and, if there is one, the input |
| CanonicalJson.KeyTextParts | packages/mcp-core/src/browser-idempotency.ts:43-50 | the key text is the version, the invocation and the fingerprint, separated by zeros |
| CanonicalJson.IdempotencyKeySeparates | packages/mcp-core/src/browser-idempotency.ts:43-50 | with fingerprints of one length, the hashed bytes agree if and only if invocation and fingerprint agree once unpaired surrogates are replaced |
| SensitiveKeys.SecretIff | packages/mcp-core/src/typed-confirmation.ts:158-173 | which names of lower-case letters and digits are secret, or the confirmation id |
| SensitiveKeys.NamesIgnoreCase | packages/mcp-core/src/typed-confirmation.ts:158-160 | names that differ in case are treated alike |
| SensitiveKeys.NamesIgnorePunctuation | packages/mcp-core/src/typed-confirmation.ts:158-160 | names that differ in anything but letters and digits are treated alike |
| SensitiveKeys.NamesLowerBeyondAscii | packages/mcp-core/src/typed-confirmation.ts:158-160 | the two letters beyond ASCII that lower to ASCII ones count as those |
| ArgumentsDigest.RemoveEphemeralAndRejectSensitive | packages/mcp-core/src/typed-confirmation.ts:129-156 | the recursive loop computes `Stripped`, whose meaning and acceptance the lemmas below state |
| ArgumentsDigest.StrippedMeaning | packages/mcp-core/src/typed-confirmation.ts:129-156 | what is digested means the original data with confirmation ids (and `__proto__` fields) pruned at every depth |
| ArgumentsDigest.StrippedIffAccepted | packages/mcp-core/src/typed-confirmation.ts:129-173 | arguments are refused exactly when, looking past confirmation ids, a credential-like name or an exotic object is inside |
| ArgumentsDigest.DigestTextIff | packages/mcp-core/src/typed-confirmation.ts:88-91 | two accepted arguments have the same digest text if and only if their pruned meanings are equal |
| ArgumentsDigest.DigestBytesIff | packages/mcp-core/src/typed-confirmation.ts:88-91 | the bytes that are hashed agree if and only if the pruned meanings do |
| ArgumentsDigest.DigestIgnoresConfirmationIds | packages/mcp-core/src/typed-confirmation.ts:129-156 | digest text, and whether there is one, are those of the value with confirmation ids removed at every depth |
| ArgumentsDigest.RetryKeepsDigest | packages/mcp-core/src/typed-confirmation.ts:88-156 | adding a confirmation id anywhere among the fields does not change the text |
| ArgumentsDigest.DigestSeparates | packages/mcp-core/src/typed-confirmation.ts:88-156 | without own `__proto__` fields, texts agree if and only if the values without confirmation ids mean the same |
| ArgumentsDigest.ProtoFieldIsLost | packages/mcp-core/src/typed-confirmation.ts:144-155 | every object with an own `__proto__` field has the digest text of the different object without it |
| Utf8.PairIs | packages/mcp-core/src/typed-confirmation.ts:119-123 | a surrogate pair stands for the code point that section 2.1 of RFC 2781 gives it |
| Utf8.AsciiIsItself | packages/mcp-core/src/typed-confirmation.ts:119-123 | ASCII text is written as it is |
| Utf8.SameBytesIff | packages/mcp-core/src/typed-confirmation.ts:119-123 | two texts have the same UTF-8 bytes if and only if they stand for the same code points |
| Utf8.SameBytesExactly | packages/mcp-core/src/typed-confirmation.ts:119-123 | on all texts, bytes agree if and only if the texts do once unpaired surrogates are replaced by U+FFFD |
| Utf8.BytesDetermineIff | packages/mcp-core/src/typed-confirmation.ts:119-123 | the bytes of a text are shared with no other text if and only if it is well formed and free of U+FFFD |
| Utf8.SameBytesSameText | packages/mcp-core/src/typed-confirmation.ts:119-123 | on well-formed text, comparing bytes is comparing texts |
| Utf8.UnpairedSurrogatesCollide | packages/mcp-core/src/typed-confirmation.ts:119-123 | different unpaired surrogates have the same bytes |
| Confirmations.Registry.constructor | packages/mcp-core/src/typed-confirmation.ts:28-46 | a new registry has its rules and nothing pending |
| Confirmations.Registry.PruneExpired | packages/mcp-core/src/typed-confirmation.ts:78-85 | the loop leaves exactly the confirmations that have not expired |
| Confirmations.Registry.Create | packages/mcp-core/src/typed-confirmation.ts:48-60 | the new state is one `Step`; an invalid binding changes nothing; the expiry is the clock plus the lifetime |
| Confirmations.Registry.Consume | packages/mcp-core/src/typed-confirmation.ts:62-76 | answers true exactly when `Succeeds`, and the new state is one `Step` |
| Confirmations.Registry.HasPendingMatching | packages/mcp-core/src/browser-confirmation.ts:48-54 | true exactly when an unexpired confirmation is in one of the tabs |
| Confirmations.Registry.DiscardMatching | packages/mcp-core/src/browser-confirmation.ts:56-61 | the loop removes exactly the confirmations of those tabs |
| Confirmations.Registry.ClearAll | packages/mcp-core/src/browser-confirmation.ts:44-46 | nothing is pending afterwards |
| Confirmations.UnexpiredIff | packages/mcp-core/src/typed-confirmation.ts:78-85 | pruning leaves exactly what expires later than now, unchanged |
| Confirmations.StepPrunes | packages/mcp-core/src/typed-confirmation.ts:48-76 | no accepted call leaves behind what had expired |
| Confirmations.PendingWasCreated | packages/mcp-core/src/typed-confirmation.ts:48-85 | over every run, whatever is pending was created with that binding and expiry and not taken away since |
| Confirmations.StandingIsPending | packages/mcp-core/src/typed-confirmation.ts:48-85 | over every run, what was created, not taken away and not expired is pending, whatever failed calls came between |
| Confirmations.ConsumeIff | packages/mcp-core/src/typed-confirmation.ts:62-85 | with fresh ids and a nondecreasing clock, a consume succeeds if and only if an earlier create granted it |
| Confirmations.HasPendingIff | packages/mcp-core/src/browser-confirmation.ts:48-54 | over every run, asking finds exactly what was created, still stands and has not expired |
| Confirmations.ConsumedOnce | packages/mcp-core/src/typed-confirmation.ts:62-76 | no id is consumed twice, so successful consumes go one-to-one with creates |
| ConfirmationBindings.NewTypedRegistry | packages/mcp-core/src/typed-confirmation.ts:33-46 | a registry exists exactly for lifetimes from 1 ms to 10 minutes, 10 minutes being the default |
| ConfirmationBindings.TypedConsumeIff | packages/mcp-core/src/typed-confirmation.ts:48-85 | over every run, a typed consume succeeds if and only if its binding is valid and an equal one, up to unpaired surrogates, was created under its id less than the lifetime ago and not consumed since |
| ConfirmationBindings.BrowserConsumeIff | packages/mcp-core/src/browser-confirmation.ts:36-87 | the same for the browser, with nothing discarded or cleared in between |
| ConfirmationBindings.DiscardedIsNeverConsumed | packages/mcp-core/src/browser-confirmation.ts:44-80 | after its tab is discarded or the registry cleared, a confirmation is never accepted |
| ConfirmationBindings.SurvivesDiscardIff | packages/mcp-core/src/browser-confirmation.ts:56-61 | a confirmation survives a discard exactly when its tab is not in the list |
| ConfirmationBindings.InTabsIff | packages/mcp-core/src/browser-confirmation.ts:48-61 | the bindings looked at are those whose tab is in the list |
| ConfirmationBindings.AcceptsTypedIff | packages/mcp-core/src/typed-confirmation.ts:93-105 | a typed binding is valid exactly when neither text is blank, the operation is one of eight, and the digest is 64 hexadecimal digits |
| ConfirmationBindings.SameTypedIff | packages/mcp-core/src/typed-confirmation.ts:107-123 | typed bindings match if and only if they are equal once unpaired surrogates are replaced by U+FFFD |
| ConfirmationBindings.SameBrowserIff | packages/mcp-core/src/browser-confirmation.ts:90-105 | browser bindings match if and only if they are equal once unpaired surrogates are replaced by U+FFFD |
| ConfirmationBindings.TypedMatchesOnlyItselfIff | packages/mcp-core/src/typed-confirmation.ts:93-123 | a valid binding matches no other valid one if and only if its texts are well formed and free of U+FFFD |
| ConfirmationBindings.BrowserMatchesOnlyItselfIff | packages/mcp-core/src/browser-confirmation.ts:90-105 | a browser binding matches no other if and only if its texts are well formed and free of U+FFFD |
| ConfirmationBindings.DifferentBindingsCanMatch | packages/mcp-core/src/typed-confirmation.ts:93-123 | valid bindings of different workspaces, named by unpaired surrogates, match |
| ConfirmationBindings.ConfirmAndRetry | packages/mcp-core/src/typed-confirmation.ts:48-91 | a standing, unexpired confirmation is accepted when its arguments come back with confirmation ids added, at any depth |
| ConfirmationBindings.ConsumedForSameArguments | packages/mcp-core/src/typed-confirmation.ts:62-91 | over every run, a successful consume was granted by a create for the same operation and arguments of the same pruned meaning, and for the same binding if its texts are unmistakable, unless the hash collides |
| PublicResults.ParsePublicResultValue | packages/mcp-core/src/mutation-receipts.ts:297-327 | the recursive loop computes `Parsed`, of which the lemmas below speak |
| PublicResults.SensitiveFieldIff | packages/mcp-core/src/mutation-receipts.ts:329-342 | which names of lower-case letters and digits are sensitive; only the normal form of others matters |
| PublicResults.ParsedExactly | packages/mcp-core/src/mutation-receipts.ts:297-342 | a result is accepted exactly when it is plain JSON data without a sensitive name, and everything in it is kept, in order, except own `__proto__` fields |
| PublicResults.ParsedIsPublic | packages/mcp-core/src/mutation-receipts.ts:297-342 | a stored result is JSON data without a sensitive name at any depth |
| PublicResults.PublicIsFixed | packages/mcp-core/src/mutation-receipts.ts:297-342 | public data is parsed and copied unchanged |
| PublicResults.ParseTwice | packages/mcp-core/src/mutation-receipts.ts:297-327 | parsing again changes nothing if the original had no object-valued `__proto__` field, and is refused otherwise |
| MutationReceipts.InMemoryMutationReceiptStore.constructor | packages/mcp-core/src/mutation-receipts.ts:80-82 | a new store is empty |
| MutationReceipts.InMemoryMutationReceiptStore.Reserve | packages/mcp-core/src/mutation-receipts.ts:83-93 | the new store and the answer of a reservation, refusals included |
| MutationReceipts.InMemoryMutationReceiptStore.MarkExecuting | packages/mcp-core/src/mutation-receipts.ts:95-103 | the new store and the answer |
| MutationReceipts.InMemoryMutationReceiptStore.MarkReconciliationRequired | packages/mcp-core/src/mutation-receipts.ts:105-115 | the new store and the answer |
| MutationReceipts.InMemoryMutationReceiptStore.MarkCompleted | packages/mcp-core/src/mutation-receipts.ts:117-129 | the new store and the answer, the result being parsed and copied |
| MutationReceipts.InMemoryMutationReceiptStore.Get | packages/mcp-core/src/mutation-receipts.ts:131-134 | a copy of the receipt, exactly when there is one |
| Texts.TrimIff | packages/mcp-core/src/mutation-receipts.ts:63-71 | trimming removes the white space around a text, all of it and nothing else |
| MutationReceipts.ParseIdentityIff | packages/mcp-core/src/mutation-receipts.ts:63-71 | an identity is parsed as itself without outer white space, exactly when that is in range |
| MutationReceipts.CleanIdentityIsKept | packages/mcp-core/src/mutation-receipts.ts:63-71 | an identity without outer white space is kept as it is or refused |
| MutationReceipts.ParseIdentityIdempotent | packages/mcp-core/src/mutation-receipts.ts:63-71 | parsing an identity twice is parsing it once, so keys are stable |
| MutationReceipts.ParseReceiptIff | packages/mcp-core/src/mutation-receipts.ts:217-245 | which receipts parse, for any receipt whatsoever, and what becomes of them |
| MutationReceipts.SoundReceiptParses | packages/mcp-core/src/mutation-receipts.ts:217-245 | a sound receipt parses and copies unchanged |
| MutationReceipts.CallMoves | packages/mcp-core/src/mutation-receipts.ts:137-215 | every call on a sound store keeps it sound and is one move of the receipt life cycle |
| MutationReceipts.AlwaysSound | packages/mcp-core/src/mutation-receipts.ts:80-135 | every run keeps the store sound |
| MutationReceipts.HeldReceiptsParse | packages/mcp-core/src/mutation-receipts.ts:217-245 | after every run each receipt parses unchanged, lies under its own key, and has a result exactly when completed |
| MutationReceipts.ExactlyOnce | packages/mcp-core/src/mutation-receipts.ts:83-215 | over every run, per key, "execute" is answered, execution begun and a result recorded exactly once if the receipt got that far and never otherwise |
| MutationReceipts.OnlyForward | packages/mcp-core/src/mutation-receipts.ts:166-215 | over every run, receipts keep their identity, never move back, and do not change once completed |
| MutationReceipts.CompletedIsReplayed | packages/mcp-core/src/mutation-receipts.ts:137-164 | after completion every later reserve replays the result, or is a conflict for another identity, and changes nothing |
| MutationReceipts.ReserveAnswers | packages/mcp-core/src/mutation-receipts.ts:137-164 | on a sound store: invalid argument for an identity that does not parse, execute for a new key, conflict for another identity, replay when completed, reconcile otherwise |
| MutationReceipts.MarksGoThrough | packages/mcp-core/src/mutation-receipts.ts:166-215 | on a sound store a mark goes through exactly when it is the owner's, the state is the one before it, and a result is publishable |
| MutationReceipts.HistoryDecides | packages/mcp-core/src/mutation-receipts.ts:83-215 | over every run, what a reserve or mark answers is decided by which grants, begins and finishes came before |
| MutationReceipts.IdentityWasGranted | packages/mcp-core/src/mutation-receipts.ts:83-93 | over every run, a receipt's identity is that of the reservation that was granted |
| MutationReceipts.ResultWasHandedIn | packages/mcp-core/src/mutation-receipts.ts:117-129 | over every run, a receipt's result is exactly what the completing call handed in, less own `__proto__` fields |
| MutationReceipts.KeysNeverMeet | packages/mcp-core/src/mutation-receipts.ts:83-93 | over every run, the first reservation for a key that differs from all others beyond outer white space is answered "execute" |
| MutationReceipts.MarkRefusals | packages/mcp-core/src/mutation-receipts.ts:166-285 | on a sound store, which mark is refused for which of the three reasons |
| MutationReceipts.AnswerIsStored | packages/mcp-core/src/mutation-receipts.ts:95-129 | a mark returns the receipt it stored |
| MutationReceipts.RefusedChangesNothing | packages/mcp-core/src/mutation-receipts.ts:83-134 | every refused call leaves the store as it was |
| CredentialWire.Int32RoundTrip | packages/mcp-core/src/windows-credential-broker.ts:527-530 | little-endian two's-complement 32-bit integers and four bytes are in one-to-one correspondence |
| CredentialWire.Encoded | tooling/windows-credential-broker/McpCredentialBroker.cs:259-292 | every response is 32 bytes plus its fields, at most 135,200 bytes |
| CredentialWire.FieldAtIff | packages/mcp-core/src/windows-credential-broker.ts:532-559 | a field is read if and only if exactly its length-prefixed bytes stand there and it is within the maximum |
| CredentialWire.FieldReadsBack | packages/mcp-core/src/windows-credential-broker.ts:532-559 | a written field is read back if the maximum allows it and refused otherwise |
| CredentialWire.ReadFrameIff | packages/mcp-core/src/windows-credential-broker.ts:467-525 | a payload frames to its very end if and only if it is the encoding of that frame, byte for byte |
| CredentialWire.FramingExactly | packages/mcp-core/src/windows-credential-broker.ts:467-492 | the three ways a payload can be read, in terms of its bytes |
| CredentialWire.ReadSucceedsIff | packages/mcp-core/src/windows-credential-broker.ts:467-525 | with a known process id, success with (u, p) if and only if the bytes are the response of status 0, that id, that nonce, u and p, both non-empty and in bounds |
| CredentialWire.VerdictsComeFromResponses | packages/mcp-core/src/windows-credential-broker.ts:467-525 | every verdict about the broker comes from a complete, exact response with that status |
| CredentialWire.RefusalsExactly | packages/mcp-core/src/windows-credential-broker.ts:421-559 | exactly which payloads make the parsers throw and which they call a mismatch |
| CredentialWire.WriteVerdictsComeFromResponses | packages/mcp-core/src/windows-credential-broker.ts:421-455 | a write is reported denied or failed only by an exact response with that status |
| CredentialWire.WriteSucceedsIff | packages/mcp-core/src/windows-credential-broker.ts:421-455 | a write counts as done if and only if the payload is an exact response with status 0 |
| CredentialWire.ReadBuffer | packages/mcp-core/src/windows-credential-broker.ts:532-550 | a fresh copy of the field, or failure exactly when there is none |
| CredentialWire.ReadParts | packages/mcp-core/src/windows-credential-broker.ts:467-497 | reads the frame into fresh, separate buffers, or fails as the framing says; names every copy made on the way |
| CredentialWire.ParseBrokerPayload | packages/mcp-core/src/windows-credential-broker.ts:467-525 | on every exit the payload is all zeros, a returned secret holds the original bytes in buffers of its own, and every copy holds exactly what `Left` says |
| CredentialWire.Conclude | packages/mcp-core/src/windows-credential-broker.ts:492-521 | the verdict after the fields have been copied, and which copies are zeroed |
| CredentialWire.CopiedExactly | packages/mcp-core/src/windows-credential-broker.ts:481-491 | exactly which fields are copied out of a payload |
| CredentialWire.WhatIsLeft | packages/mcp-core/src/windows-credential-broker.ts:467-525 | a verdict about the broker leaves no copy; a refused payload leaves user name and password unless it is an exact response with the expected version, process and nonce; the nonce's copy is zeroed exactly when version and process are the expected ones |
| CredentialWire.ParseBrokerStatusPayload | packages/mcp-core/src/windows-credential-broker.ts:421-455 | the write verdict of the original bytes, the payload all zeros on every exit, and every copy zeroed once the frame has been read |
| CredentialWire.ConcludeStatus | packages/mcp-core/src/windows-credential-broker.ts:438-451 | the write verdict after the fields have been copied, and all copies zeroed |
| CredentialWire.CredentialSecret.constructor | packages/mcp-core/src/windows-credential-broker.ts:45-52 | the secret holds the given buffers and is not disposed |
| CredentialWire.CredentialSecret.Dispose | packages/mcp-core/src/windows-credential-broker.ts:53-61 | the first disposal zeroes both buffers |
| CredentialWire.ReadSocketPayload | packages/mcp-core/src/windows-credential-broker.ts:378-419 | chunks are reassembled in order; failure exactly when their total exceeds 140,000 bytes |
| CredentialWire.ResponseArrives | packages/mcp-core/src/windows-credential-broker.ts:218-286 | every full response, in any chunking, is under the cap and understood, by the read and by the write parser, as the status sent |
| CredentialWire.Pipe.WriteBuffer | tooling/windows-credential-broker/McpCredentialBroker.cs:284-292 | appends the field, or refuses one over its maximum before writing any of it |
| CredentialWire.Pipe.WriteResponse | tooling/windows-credential-broker/McpCredentialBroker.cs:259-282 | writes the encoding whole, or exactly the parts before the first field over its maximum |
| CredentialWire.Pipe.AnswerRead | tooling/windows-credential-broker/McpCredentialBroker.cs:104-132 | everything `RunRead` leaves on the pipe, a second response after a broken-off one included, and its exit code, spelt out |
| CredentialWire.BrokenOffIsUnreadable | tooling/windows-credential-broker/McpCredentialBroker.cs:259-292 | a broken-off response cannot be read, whether or not another follows: the next magic is no valid length |
| CredentialWire.AnswerArrives | tooling/windows-credential-broker/McpCredentialBroker.cs:104-132 | in any chunking and always under the cap, the client learns what was found if and only if the first response is within the limits, and fails otherwise |
| CredentialWire.Pipe.ReadBuffer | tooling/windows-credential-broker/McpCredentialBroker.cs:294-308 | reads the field at the position and moves past it, or fails exactly when there is none in bounds |
| CredentialWire.Pipe.ReadWriteRequest | tooling/windows-credential-broker/McpCredentialBroker.cs:184-221 | the request decoded from the stream, with each refusal |
| CredentialWire.RequestExactly | tooling/windows-credential-broker/McpCredentialBroker.cs:184-221 | for every input: accepted exactly when it begins with a request within the limits, with the right nonce and no empty field; denied exactly when another nonce can be read; mismatch and internal error likewise |
| CredentialWire.WriteBuffer | packages/mcp-core/src/windows-credential-broker.ts:371-376 | writes the field in place and keeps all else, or fails exactly when the length is no 32-bit integer |
| CredentialWire.CreateWritePayload | packages/mcp-core/src/windows-credential-broker.ts:355-369 | the array is filled to its very end with the request; failure exactly when a length is no 32-bit integer |
| CredentialWire.RequestRoundTrip | packages/mcp-core/src/windows-credential-broker.ts:355-376 | the broker reads back exactly the user name and password if and only if both are non-empty and all lengths are within its limits, whatever follows on the pipe |
| SnapshotProjection.ProjectBrowserSnapshot | packages/mcp-core/src/browser-snapshot-projection.ts:15-90 | the loops compute `Projected`, of which the lemmas below speak |
| SnapshotProjection.NothingToProject | packages/mcp-core/src/browser-snapshot-projection.ts:20-25 | without options, or without content, the snapshot comes back as it is |
| SnapshotProjection.ErrorIff | packages/mcp-core/src/browser-snapshot-projection.ts:21-33 | an error exactly when the reference is not among the refs, or on no line of a snapshot that has content |
| SnapshotProjection.FindAnchor | packages/mcp-core/src/browser-snapshot-projection.ts:28-33 | the first line with the reference, or none |
| SnapshotProjection.ScanFromAnchor | packages/mcp-core/src/browser-snapshot-projection.ts:37-50 | the anchor line and the lines below it up to the next bullet that is not deeper, cut and filtered |
| SnapshotProjection.SelectedByLine | packages/mcp-core/src/browser-snapshot-projection.ts:51-65 | for any text, line by line, what is selected without a reference |
| SnapshotProjection.SelectedBelowAnchor | packages/mcp-core/src/browser-snapshot-projection.ts:36-50 | for any text, line by line, what is selected below the first line with the reference |
| SnapshotProjection.CutToSize | packages/mcp-core/src/browser-snapshot-projection.ts:66-79 | the greedy loop finds the longest fit |
| SnapshotProjection.LongestFit | packages/mcp-core/src/browser-snapshot-projection.ts:66-79 | the count fits and no larger one does |
| SnapshotProjection.CutIsLongestPrefix | packages/mcp-core/src/browser-snapshot-projection.ts:66-79 | at most the maximum; the longest whole-line prefix that fits, or the start of the first line when that alone is too long |
| SnapshotProjection.CapOnlyShortens | packages/mcp-core/src/browser-snapshot-projection.ts:66-89 | a cap gives a prefix of the uncapped view, raises `truncated` exactly when something was cut, and leaves the refs |
| SnapshotProjection.OnlyContentChanges | packages/mcp-core/src/browser-snapshot-projection.ts:82-89 | refs stay, the mark for a cut is set exactly when something was cut, and a full state carries the new text |
| SnapshotProjection.SelectedInOrder | packages/mcp-core/src/browser-snapshot-projection.ts:36-65 | whatever the options, the selected lines are a subsequence of the input lines |
| SnapshotProjection.OutputInOrder | packages/mcp-core/src/browser-snapshot-projection.ts:36-89 | everything selected is shown if it fits; when the first selected line fits, the lines of the output are the first selected lines and a subsequence of the snapshot's lines |
| SnapshotProjection.ChosenForest | packages/mcp-core/src/browser-snapshot-projection.ts:51-65 | filtering the lines of a rendered forest is cutting and filtering the forest |
| SnapshotProjection.BelowForest | packages/mcp-core/src/browser-snapshot-projection.ts:37-50 | the scan below an anchor shows the view of the subtrees below it and goes on |
| SnapshotProjection.Locate | packages/mcp-core/src/browser-snapshot-projection.ts:28-33 | where the first node with a reference stands among the lines, its subtree right after it |
| SnapshotProjection.SelectedIsTreeView | packages/mcp-core/src/browser-snapshot-projection.ts:24-65 | in all four branches the line selection of a rendered forest is the view of the forest |
| SnapshotProjection.ProjectionOfTree | packages/mcp-core/src/browser-snapshot-projection.ts:15-90 | projection commutes with the tree, for every non-empty set of options without a size cap |
| LogRotation.ShiftsAreLegal | tooling/windows-host-launcher/McpNodeHostLauncher.cs:727-747 | the descending loop never moves onto an existing file, frees number 1 and loses nothing |
| LogRotation.RotationIsLegal | tooling/windows-host-launcher/McpNodeHostLauncher.cs:727-747 | a rotation can always be carried out and loses the oldest archive and nothing else |
| LogRotation.PlanIsLegal | tooling/windows-host-launcher/McpNodeHostLauncher.cs:698-747 | after an undisturbed call the files hold what they held, less the oldest archive if rotated, and the new line |
| LogRotation.RotationRotates | tooling/windows-host-launcher/McpNodeHostLauncher.cs:727-747 | after a rotation every file has moved up by one, the third archive is gone, and there is no current file |
| LogRotation.UndisturbedAppend | tooling/windows-host-launcher/McpNodeHostLauncher.cs:698-747 | an undisturbed line joins the current file while that stays within 4 MiB, and otherwise starts a new one after a rotation |
| LogRotation.EveryMicroStep | tooling/windows-host-launcher/McpNodeHostLauncher.cs:698-747 | stopped after any operation, even with the line half written, the suffix and size invariants hold |
| LogRotation.LineIs | tooling/windows-host-launcher/McpNodeHostLauncher.cs:705-717 | the line spelt out: time stamp, space, at most 8192 characters with a mark if there were more, line end |
| LogRotation.LineIsSmall | tooling/windows-host-launcher/McpNodeHostLauncher.cs:698-725 | one truncated, stamped and encoded line is at most 24,813 bytes |
| LogRotation.RunsKeepInv | tooling/windows-host-launcher/McpNodeHostLauncher.cs:698-747 | the invariants hold over every run of calls, failing wherever they like |
| LogRotation.SmallRunsStayInOneFile | tooling/windows-host-launcher/McpNodeHostLauncher.cs:698-747 | over every run whose lines are within 4 MiB in all, the current file is the whole history |
| LogRotation.LogFiles.constructor | tooling/windows-host-launcher/McpNodeHostLauncher.cs:15-16 | an empty directory |
| LogRotation.LogFiles.ShiftArchives | tooling/windows-host-launcher/McpNodeHostLauncher.cs:738-745 | the loop carries out the planned moves, or a prefix of them when one fails |
| LogRotation.LogFiles.RotateLogIfNeeded | tooling/windows-host-launcher/McpNodeHostLauncher.cs:727-747 | carries out the rotation, or a prefix of it when an operation fails; if it succeeds the files are rotated exactly when the current one and the line exceed 4 MiB |
| LogRotation.LogFiles.AppendLine | tooling/windows-host-launcher/McpNodeHostLauncher.cs:698-725 | the files after the attempt; an empty value changes nothing; undisturbed, the line joins the current file within 4 MiB and starts a new one beyond |
| BrowserEvaluation.Sanitizer.constructor | packages/mcp-core/src/browser-evaluation.ts:6-9 | no visits counted and no object seen |
| BrowserEvaluation.Sanitizer.Visit | packages/mcp-core/src/browser-evaluation.ts:9-26 | terminates on every graph; succeeds exactly when the walk goes through, then with the counter, the seen set and the image |
| BrowserEvaluation.Sanitizer.VisitObject | packages/mcp-core/src/browser-evaluation.ts:18-25 | the part of a visit inside an object |
| BrowserEvaluation.GoesIff | packages/mcp-core/src/browser-evaluation.ts:9-26 | visits go through exactly when none is too deep or wide, they are at most 5000, and all objects are new |
| BrowserEvaluation.SanitizeBrowserEvaluation | packages/mcp-core/src/browser-evaluation.ts:6-33 | succeeds exactly when the graph is a small tree, in graph terms, and the result fits; the result then represents the value and is redacted |
| BrowserEvaluation.SanitizableIff | packages/mcp-core/src/browser-evaluation.ts:9-26 | the walk goes through if and only if every object has one path without private names, no path exceeds 12 levels, no object 1000 entries, and there are at most 5000 paths |
| BrowserEvaluation.CycleIsRefused | packages/mcp-core/src/browser-evaluation.ts:16-17 | every cycle that can be reached without a private name is refused |
| BrowserEvaluation.TrailTraces | packages/mcp-core/src/browser-evaluation.ts:9-26 | a walk that meets no limit visits the ends of all paths, each once |
| BrowserEvaluation.PrivateFieldIff | packages/mcp-core/src/browser-evaluation.ts:3 | which names are private, letter by letter |
| BrowserEvaluation.PrivateFieldsAreShort | packages/mcp-core/src/browser-evaluation.ts:3 | a private name is never the result of shortening a longer name |
| BrowserEvaluation.ImageIsRedacted | packages/mcp-core/src/browser-evaluation.ts:22-25 | in the result every private name, at every depth and after shortening, maps to the redaction mark |
| BrowserEvaluation.ImageRepresents | packages/mcp-core/src/browser-evaluation.ts:9-26 | nothing is lost or invented: scalars, redacted strings, all items in order, and under each shortened name the last property of that name |
| BrowserEvaluation.SharedObjectIsRefused | packages/mcp-core/src/browser-evaluation.ts:16-17 | an array holding one object twice is refused without being cyclic |
| PathKeys.SegmentsPrefixIff | packages/mcp-core/src/project-write-policy.ts:4-11 | equality or a prefix followed by a slash is a prefix test on segments |
| PathKeys.UnderIff | packages/mcp-core/src/project-write-policy.ts:4-11 | under a root if and only if the root's key segments are a prefix of the path's |
| PathKeys.UnderIsPartialOrder | packages/mcp-core/src/project-write-policy.ts:4-11 | reflexive, transitive, antisymmetric on keys |
| PathKeys.KeyIs | packages/mcp-core/src/policy-merge.ts:93-100 | trailing slashes and the direction of slashes do not matter for the key; nothing else is changed but case |
| PathKeys.KeyIdempotent | packages/mcp-core/src/policy-merge.ts:93-100 | the key of a key is itself |
| GitPaths.ValidateIff | packages/mcp-core/src/source-control-contracts.ts:49-73 | exactly which paths are accepted, and that the result has the kept segments |
| GitPaths.ValidateExactly | packages/mcp-core/src/source-control-contracts.ts:49-73 | acceptance in terms of the segments alone: none empty, `..`, `.git` or with control characters, and no drive before the first slash |
| GitPaths.DotsAreDropped | packages/mcp-core/src/source-control-contracts.ts:1134-1140 | a `.` segment can stand anywhere or be left out |
| GitPaths.GitDirectoryIff | packages/mcp-core/src/source-control-contracts.ts:66 | the Git directory is recognised in letters of either case |
| GitPaths.ValidateIdempotent | packages/mcp-core/src/source-control-contracts.ts:49-73 | an accepted result validates again, unchanged |
| GitPaths.AcceptedStaysBelow | packages/mcp-core/src/source-control-contracts.ts:49-73 | by POSIX rules, an accepted path resolves strictly below any root |
| GitPaths.AcceptedStaysBelowOnWindowsIff | packages/mcp-core/src/source-control-contracts.ts:49-73 | by Windows rules, an accepted path stays below every root if and only if its first segment does not begin with a drive letter and a colon |
| GitPaths.DriveRelativeIsAccepted | packages/mcp-core/src/source-control-contracts.ts:57-62 | a drive letter, a colon and any name are accepted, and leave roots on other drives, or with `..` on the same one |
| GitPaths.AcceptableIff | packages/mcp-core/src/source-control-contracts.ts:49-73 | on a normalised path, the text checks say that every segment is safe |
| GitPaths.ValidateList | packages/mcp-core/src/source-control-contracts.ts:75-92 | a list is accepted exactly when it has 1 to 200 accepted paths that stay distinct after normalisation |
| GitPaths.AllDistinct | packages/mcp-core/src/source-control-contracts.ts:75-92 | the loop over seen paths decides pairwise distinctness |
| PolicyMerge.ClampDiscoveredLimits | packages/mcp-core/src/policy-merge.ts:102-118 | every limit is the ceiling or a lower positive override; refused exactly when one is not an integer |
| PolicyMerge.ClampedIs | packages/mcp-core/src/policy-merge.ts:102-118 | a finite positive override counts up to the ceiling; without one the ceiling holds |
| PolicyMerge.AccessFollowsKey | packages/mcp-core/src/project-write-policy.ts:20-70 | write access depends on a path through its key only, is added exactly under an enabled root, and changes nothing but access and, for the project root itself, the kind |
| PolicyMerge.IndexBase | packages/mcp-core/src/policy-merge.ts:206-225 | the explicit entry of a key is its last one, a key is denied exactly when some entry for it is disabled, the used ids are those of the entries, and disabled entries have deny rows |
| PolicyMerge.OpenWorkspaces | packages/mcp-core/src/policy-merge.ts:229-280 | under every key, exactly what the discovered folders should put there, with its id, and one catalog row per counting candidate |
| PolicyMerge.OpenCandidate | packages/mcp-core/src/policy-merge.ts:230-279 | what one candidate adds: nothing, the explicit entry, or a workspace under the first free one of its two ids |
| PolicyMerge.ExposeExplicit | packages/mcp-core/src/policy-merge.ts:282-306 | adds the first enabled entry of every key that is not there yet, with its row |
| PolicyMerge.MergeWithLimits | packages/mcp-core/src/policy-merge.ts:206-314 | under every key exactly the expected policy; each listed once, sorted by id; the expected catalog; an error exactly when nothing is expected |
| PolicyMerge.MergeWorkspacePolicies | packages/mcp-core/src/policy-merge.ts:190-323 | the whole merge against the per-key specification, catalog and both errors included; a workspace is listed exactly under the keys that must be, and every listed one is warranted |
| PolicyMerge.Listed | packages/mcp-core/src/policy-merge.ts:308-314 | the policies under the keys, sorted, or the error exactly when there are none |
| PolicyMerge.ListedExactly | packages/mcp-core/src/policy-merge.ts:206-306 | what is listed under a key, by quantifiers over entries and candidates: open, the last entry or else the last candidate that opens it; not open but always exposed, the first enabled entry; nothing otherwise |
| PolicyMerge.IdIs | packages/mcp-core/src/policy-merge.ts:158-168 | when a discovered workspace has its first and when its other id |
| PolicyMerge.TakenIds | packages/mcp-core/src/policy-merge.ts:163-168 | which ids count as taken |
| PolicyMerge.ExpectedIsWarranted | packages/mcp-core/src/project-write-policy.ts:20-70 | a workspace is listed for an enabled entry or, without one, a trusted, untechnical candidate with the clamped limits; it has full access under an enabled root and elsewhere exactly what the entry had, or none |
| PolicyMerge.CatalogFollows | packages/mcp-core/src/policy-merge.ts:190-323 | the catalog has an enabled row for a key exactly when a workspace is listed under it, and one of them names it |
| PolicyMerge.CatalogRows | packages/mcp-core/src/policy-merge.ts:212-304 | a row for each disabled entry, and what every enabled row says |
| PolicyMerge.DenyWins | packages/mcp-core/src/policy-merge.ts:206-306 | a denied key stays out unless an enabled entry for it is always exposed; with distinct keys it stays out |
| PolicyMerge.SortIsSorted | packages/mcp-core/src/policy-merge.ts:308-310 | the list is in order of ids |
| PolicyMerge.ExplicitIsEnabled | packages/mcp-core/src/policy-merge.ts:206-225 | the explicit entry of a key that is not denied is enabled |
| Deadlines.ClampedIs | packages/mcp-core/src/timeout-policy.ts:92-95 | a whole request from one millisecond to a day is granted as it is, others are cut to that range |
| Deadlines.FractionsAreCut | packages/mcp-core/src/timeout-policy.ts:92-95 | a request with a fraction counts as its whole part |
| Deadlines.NestedIsMinimum | packages/mcp-core/src/timeout-policy.ts:87-110 | the deadline of a chain is the minimum of creation time plus clamped request; the reported request is the root's |
| Deadlines.RemainingIs | packages/mcp-core/src/timeout-policy.ts:111-118 | the time left is what is missing to the deadline, and none once it has passed |
| Deadlines.RemainingNeverGrows | packages/mcp-core/src/timeout-policy.ts:111-118 | remaining time never grows, however the chain goes on and the clock advances |

## Left out

- Error messages and error kinds, except the three kinds a receipt call can be refused with.
- SHA-256: a function parameter, so claims are about the hashed bytes, or hold unless the hash collides on the bytes at hand.
- Random confirmation ids and clocks: parameters; runs are assumed to have fresh ids and, where stated, a nondecreasing clock. Times are integers, not ISO text.
- Number text: a finite number is represented by the text JavaScript prints for it, -0 by that of 0; that different numbers print differently is taken as given.
- Cyclic values in `canonicalJson`, getters and proxies: values are finite trees there; the sanitiser is modelled on graphs, whose arrays have no empty slots.
- Regular expressions that classify snapshot lines and the set of interactive roles: functions in `Classifier`; a rendered forest is one whose lines they read as its nodes.
- String redaction and the 256 KiB limit of the sanitiser: functions `redact` and `fits`.
- UTF-8 decoding in C#: `getString`, assumed only to give back the nonce that was encoded.
- Receipts with unknown keys or that are not objects, and the durable file store for receipts.
- How the two ids of a candidate are made from slugs and hashes, and the technical-name test: functions in `Naming`. Ids need not be unique, since the second one is not checked.
- Lower-casing of path keys: a function with the assumptions of `PathKeys.Lowers`.
- Named pipes, sockets, processes, timers, the Windows Credential Manager (and so how long a stored user name or password can be) and job objects: only the bytes and the chunk accumulation are modelled.
- Windows file names: resolution is lexical, without trailing dots and spaces, short names or data streams.
- How `cmd.exe` reads text after `/c`, and the separate rule for the program name at the start of a command line.
- Two processes writing the same log at once; a failing file operation is assumed to change nothing, except an append, which may write part of its line.
- Non-integer lifetimes of a registry, NaN timeouts, and non-finite numbers in the sanitiser, which it passes through.
- Schemas, tool registration, text summaries and message parsers.
