# Verification of the agent-stop protocol and its surroundings

A device's agent can be stopped. The stop state is the parity of a TPM NV counter that anyone can
increment and nobody can decrement: odd is stopped, and an even value lets calls pass only while an
operator's release for exactly that value is on the device. The device proves its state with signed
receipts, and a verifier who holds only the attestation key (AK) and a reference build decides from two
receipts that a stop held between them. This project models both ends and proves what the protocol
promises, over every run of a device on which any process may use the TPM. Around it stand the wire
formats the protocol rests on, the check of agent envelopes (gates 1 and 3) with the reference sets of
release manifests, and the parts of the agent that must survive crashes.

Check it with `dafny verify dfyconfig.toml`.

## Modules

- `Bytes`, `Bits`, `Text`, `Sorting`: byte strings, big-endian integers, bit operations, UTF-8, sorted lists.
- `TpmWire`, `Envelope`, `StopCodec`, `AkPublic`: the formats. Each has a printer, a parser as a function,
  the parser as the source runs it (a cursor or reader that advances, a buffer that grows), and a lemma
  that parser and printer are exact inverses.
- `Release`, `StopVerify`: the operator's release, and the verifier's checks of a receipt and an interval.
- `StopRuns`, `StopSoundness`: the TPM and the device around it as a step system, and the theorems over
  its runs. Steps are increments by anyone, deletion and redefinition of the counter, other counters,
  PCR extends, resets of the debug and application PCRs, restarts, TPM resets, time, quotes, certifies of
  this or another index, AK signatures over other data, changes of either release file, and calls that read
  the counter and the record and are decided on the signature file.
- `StopDevice`, `StopCommands`, `StopService`: the service and the operator commands as methods on a chip
  that lets other processes take any steps before every call.
- `StopAnswers`: that what the soundness results speak of exists, from every state of a device.
- `Gate1`, `Rim`, `Gate3`, `PcrSpec`: agent envelopes, manifests, appraisal, the prover's PCR selection.
- `Http`, `HttpRequests`, `Gateway`: the request reader of the service, the requests it can yield, and one
  question from the connection to the answer.
- `Utc`: the registrar's time format.
- `Counters`, `AuditNames`, `Disk`, `Publish`, `Prune`, `AuditRuns`: the agent's counters, its audit
  directory, and both over any number of cycles, lives and power cuts.

## What is assumed, and where it stands

- SHA-256 is a function parameter. Nothing assumes it injective, which no hash is: results either name
  the two strings that collide, or take a finite set of strings on which it does not (`SoundOn`).
- A signature verifies under the AK only over what the AK signed in the run (`Unforgeable`). ECDSA, DER
  and curve checks are predicates passed in.
- A restricted AK signs data from outside only if it does not start with `TPM_GENERATED_VALUE`, and TPM
  structures carry their own type (`NeitherAttestation`).
- A counter defined again starts at or above the highest value any counter of the chip has held. The
  sources say both "the highest value" (crates/attest-tpm/src/lib.rs:430-432) and "above"
  (crates/attest-appraise/src/stop.rs:261-262); the weaker reading is used and is enough.
- An index certified under another public area does not collide with the stop counter's name
  (`NamesDistinct`).
- Calls into the TPM and the file system may fail at any time. Each failure that the state does not explain is
  counted (`faults` of `Chip`, `Nv` and `Directory`), so that contracts can say when a command may fail.
- Renames become durable in any order until the directory is synced, unsynced files hold anything after a
  power cut, and failed calls may have done part of their work (`MayBecome`).

## Where the code differs from its documentation

- crates/attest-stop/src/lib.rs:30-32 gives the request digest "so a refusal cannot be presented as being about
  another call". It can: `P /\0a` without a body and `P /` with the body `a\0` are both parsed and have one
  digest input (`HttpRequests.TwoRequestsOneInput`), and from every state of a device there is an accepted
  refusal that is about both (`Gateway.OneRefusalTwoRequests`). It happens, short of a SHA-256 collision,
  exactly when path and body of the request split in another way at one of their NULs
  (`Gateway.AboutAnotherIff`, `HttpRequests.SharedInputIff`).
- crates/attest-appraise/src/stop.rs:108-130 numbers the steps of the receipt check. The code runs step 9, the
  nonce, before the check for a certify and step 8, the certify itself. Acceptance is the same; the reason of a
  refusal is that of the first documented step that fails exactly when not both of them fail
  (`StopVerify.DocumentedOrderIff`, `StopVerify.NonceBeforeCertify`).
- crates/prover/src/main.rs:443-444 says an envelope with its tag has all four files. Pruning removes the message
  first and syncs nothing, so from then until the directory is next synced a cut can leave the tag without it
  (`AuditRuns.PruningLeavesATag`, reached in `AuditRuns.PruneNow`; `AuditRuns.WholeIfTaggedIff` for any state).
  It holds of every envelope that was not pruned (`AuditRuns.Agent`).
- crates/prover/src/main.rs:437-438 promises "the whole envelope or no file" after a power cut. While an
  envelope of a new stem is moved into place that holds exactly before the first rename and after the second
  directory sync (`Publish.WholeOrNothingAt`; `Publish.WholeOrNothingIff` for any state), and every publishing
  that succeeds passes a state where it does not (`Publish.PublishEnvelope`): the message can be left without
  the attestation, or the whole envelope without its tag. What holds throughout is that every file present is
  complete and the tag is present only beside the other three (`Publish.SafeForANewStem`).
- crates/attest-tpm/src/lib.rs:410-411 says two cycles "cannot share a counter value even if they race". Two
  that both increment before either reads do share one (`Counters.RacingCallersShareAValue`); two reads give
  one value exactly when no increment lies between them (`Counters.ReadsShareIff`). The counters of
  one agent at a time increase strictly, whatever else increments the index (`Counters.Lives`).
- crates/attest-tpm/src/lib.rs:562 says one set of PCRs has "one canonical spelling". Order and duplicates are
  checked, white space and leading zeros are not (`PcrSpec.OneSetTwoSpellings`); a text without them is the
  only one of its set (`PcrSpec.CanonicalIff`), and the bytes that go into the envelope are one per set
  always (`PcrSpec.SpecAgreesWithManifest`).

## Limits the proofs make exact

- The refusal of a long head is not final when a blank line is half received at the limit;
  `Http.HeadTooLongIsFinalIff` gives the exact condition. `Http.ChunkingReadsIff` says which chunkings of a
  request are read and `Http.EveryChunkingReadsIff` for which requests all are; for the others
  `HttpRequests.ChunkingMatters` gives one that is and one that is not, and `HttpRequests.LongestHead` such a
  request.
- The request digest names a request by method, path and body separated by NULs
  (crates/attest-stop/src/lib.rs:256-266). The parser keeps NULs out of the method only.
  `HttpRequests.ParsedIff` says which requests can be parsed and `HttpRequests.SharedInputIff` which of them
  share their digest input with another; `StopCodec.RequestInputIsUnambiguousIff` is the condition when any
  text may be a method or a path.
- An admission may outlive the read it rests on, as crates/stop/src/main.rs:41-42 says itself; interval
  soundness therefore speaks of calls that read the counter inside the interval. A call is let through inside
  it exactly when it read an even value before the first certified read and the release files it then read
  open that value (`StopSoundness.AllowedInsideIff`); none is, if no such call is in flight then
  (`StopSoundness.NothingInFlightNothingPasses`); and there are runs with one
  (`StopSoundness.AllowMayOutliveItsRead`).
- Equal composites at both ends of an interval tell of the time between only for PCRs that no process can
  reset (`StopSoundness.IntervalBuild`); with PCR 16 or 23 selected they do not
  (`StopSoundness.ResettableIsNotHeld`).
- The registrar's time text is that of RFC 3339 (section 5.6) up to the year 9999 (`Utc.TwentyCharactersIff`).

## Model

| member | source | states |
|---|---|---|
| `StopSoundness.IntervalSoundness` | crates/attest-appraise/src/stop.rs:274-326 | for every run of the device: two receipts the interval check accepts were certified at two steps of it, and at every state between them the counter was that odd value or undefined, nobody incremented it, the TPM did not reset or restart, no call that read the counter in between is ever let through; the reported milliseconds are exactly the clock difference |
| `StopSoundness.ReceiptSoundness` | crates/attest-appraise/src/stop.rs:100-229 | for every run: an accepted receipt means a quote step and a certify step of one boot, the certify made when the stop counter held the record's epoch, both with qualifying data over this record, nonce and message, whatever else the AK signed |
| `StopSoundness.IntervalBuild` | crates/attest-appraise/src/stop.rs:263-266 | under a collision-free SHA-256 on the strings of the run, for a selection of PCRs that only a boot resets: between the two quotes, whichever came first, the selected PCRs always held the reference and were never extended |
| `StopSoundness.CertifiedInOrder` | crates/attest-appraise/src/stop.rs:319-324 | wherever in a run the two certifies were made, equal odd values, equal boots and a later clock put them in this order with the stop held between |
| `StopSoundness.WhereCertified` | crates/attest-appraise/src/stop.rs:197-222 | a certify in an accepted receipt was signed at a step that certified the stop counter itself, not another index |
| `StopSoundness.WhereQuoted` | crates/attest-appraise/src/stop.rs:139-158 | a quote in an accepted receipt was made at a quote step over the PCRs as they were then |
| `StopSoundness.OtherIndexOtherName` | crates/attest-stop/src/lib.rs:561-583 | an index defined in any other way has another TPM name, short of a collision |
| `StopSoundness.BuildHeld` | crates/attest-appraise/src/stop.rs:263-266 | equal composites in one boot mean that no selected PCR was extended in between and the composite was that one throughout, for selections of PCRs that only a boot resets |
| `StopSoundness.ResettableIsNotHeld` | crates/attest-appraise/src/stop.rs:263-266 | for every selection with PCR 16 or 23 there is a run of one boot that extends and resets it between two states of one composite |
| `StopSoundness.ValueDeterminesHistory` | crates/attest-appraise/src/stop.rs:263-266 | a PCR value determines the sequence of digests it was extended with |
| `StopSoundness.ConcatDeterminesValues` | crates/attest-appraise/src/rim.rs:3-7 | the hashed concatenation of selected values determines each value |
| `StopSoundness.OddReadsDoNotPass` | crates/stop/src/core.rs:64-67 | a call that reads an odd counter is refused whenever it is decided, whatever release is there by then |
| `StopSoundness.AllowedIff` | crates/stop/src/core.rs:99-115 | a decided call is let through exactly when it read an even value, then the record and then the signature file, and the pair opens that value |
| `StopSoundness.AllowedInsideIff` | crates/stop/src/main.rs:41-42 | between two certified reads of a stop that held, a call is let through exactly when it read an even value before the first of them and the release files it read open that value |
| `StopSoundness.NothingInFlightNothingPasses` | crates/stop/src/main.rs:41-42 | if at the first certified read every call in flight is decided or read an odd value, none is let through up to the second |
| `StopSoundness.AllowMayOutliveItsRead` | crates/stop/src/main.rs:41-42 | such calls exist: from any device that runs under a release for 4 there is a run with two certified reads of 5, the stop held from one to the other with time passing, and a call let through between them |
| `StopSoundness.AllowedWasReleased` | crates/stop/src/core.rs:99-115 | a call let through read an even value c; the record file it then read was the canonical record of exactly this device and c, and the operator's signature over it, in the signature file when it was decided, verifies |
| `StopSoundness.OneReleaseOneStretch` | crates/stop/src/core.rs:62-75 | over any interleaving of increments, redefinitions and release swaps, the states one release opens form one stretch without an increment |
| `StopSoundness.SpentReleaseStaysShut` | crates/stop/src/core.rs:62-75 | once the counter passed c, the release for c never opens the gate again, not even for a redefined counter |
| `StopVerify.CheckStopReceipt` | crates/attest-appraise/src/stop.rs:131-229 | the check as it runs, parsers and loop and ordered refusals, is the specification function |
| `StopVerify.CheckSections` | crates/attest-appraise/src/stop.rs:179-229 | its second half, from the record to the finding |
| `StopVerify.RefusalIsFirstFailure` | crates/attest-appraise/src/stop.rs:131-229 | a receipt is refused for the first of 23 checks that fails, each stated on its own, and accepted when none does |
| `StopVerify.DocumentedOrderIff` | crates/attest-appraise/src/stop.rs:108-130 | the refusal is that of the first documented step that fails, unless the nonce (step 9) fails and the certify (steps 7 and 8) is missing or fails too |
| `StopVerify.NonceBeforeCertify` | crates/attest-appraise/src/stop.rs:185-201 | where the orders part: any accepted answer to a challenge, checked for another challenge and under a key that did not sign its certify, is refused for the nonce |
| `StopVerify.FillSlots` | crates/attest-appraise/src/stop.rs:163-178 | the loop over the sections fills each slot once and refuses unknown and repeated tags |
| `StopVerify.PlacedIff` | crates/attest-appraise/src/stop.rs:163-178 | the sections fill the three slots exactly when no tag is unknown and each slot is the body of the one section of its tag, or empty when there is none |
| `StopVerify.NotRefusedIff` | crates/attest-appraise/src/stop.rs:163-178 | a list of sections is not refused exactly when no tag is unknown and none comes twice |
| `StopVerify.AcceptedSections` | crates/attest-appraise/src/stop.rs:119-120 | an accepted receipt has exactly one stop record, exactly one certify, the nonce exactly when there is a challenge and then of 16 to 64 bytes, and no other section; what was checked are the bodies of these |
| `StopVerify.SectionsCheckIff` | crates/attest-appraise/src/stop.rs:162-179 | the check of the sections holds exactly for a list with a record, each known tag at most once, and nothing else |
| `StopVerify.NonceOfIff` | crates/attest-appraise/src/stop.rs:185-195 | the nonce bytes are the challenge exactly when the receipt carries it and it has a permitted length, and none exactly when neither side has one |
| `StopVerify.AcceptedIff` | crates/attest-appraise/src/stop.rs:131-229 | a receipt is accepted with a finding exactly when all listed conditions hold of its parts; none is skipped, no other is asked |
| `StopVerify.PassedIsAccepted` | crates/attest-appraise/src/stop.rs:131-229 | the direction from the conditions to acceptance |
| `StopVerify.PartsOf` | crates/attest-appraise/src/stop.rs:131-229 | the direction from acceptance to the conditions, with the parts as witnesses |
| `StopVerify.AcceptedAnswersItsChallenge` | crates/attest-appraise/src/stop.rs:185-195 | one receipt passes against one trust entry and nonce only, and is reported bound exactly when there was a nonce |
| `StopVerify.OneQuoteOneReceipt` | crates/attest-appraise/src/stop.rs:139-163 | receipts sharing a quote carry the same record, certify and nonce, or SHA-256 collides |
| `StopVerify.OneCertifyOneRecord` | crates/attest-appraise/src/stop.rs:197-215 | receipts sharing a certify carry the same record and nonce, or SHA-256 collides |
| `StopVerify.IntervalParts` | crates/attest-appraise/src/stop.rs:241-326 | an accepted interval has two different accepted receipts, one odd epoch, one boot, and an unsigned subtraction that does not wrap |
| `StopVerify.IntervalRefusalIsFirstFailure` | crates/attest-appraise/src/stop.rs:274-326 | an interval is refused for the first of ten conditions that fails, and accepted, with the value and clocks of its receipts, when none does |
| `StopRuns.OpenIff` | crates/stop/src/core.rs:62-75 | the gate is open exactly for an even value with the operator's signature over the canonical record of this device and this value |
| `StopRuns.ShutIff` | crates/stop/src/core.rs:64-67 | the gate is shut exactly at odd values, whatever the release |
| `StopRuns.NoGateIff` | crates/stop/src/core.rs:62-75 | there is no answer exactly for an even value with a release that cannot be read |
| `StopRuns.UnreleasedIff` | crates/stop/src/core.rs:68-75 | an even value is unreleased exactly when there is no release, or the one there is not the operator's signature over the canonical record of this device and value |
| `StopRuns.ReadPairIff` | crates/stop/src/port.rs:25-51 | having no release is no error: the pair is absent exactly when the record, or the signature beside a readable record, is missing; it is an error exactly when a file that matters cannot be read or is too long |
| `StopRuns.OneReleaseOneValue` | crates/stop/src/release.rs:111-127 | one release opens one counter value |
| `StopRuns.CounterNeverFallsBelow` | crates/attest-tpm/src/lib.rs:427-436 | no increment, deletion, redefinition or other counter brings the stop counter below a value it held |
| `StopRuns.CounterHeldBetween` | crates/attest-appraise/src/stop.rs:258-262 | equal values at two states mean that value or none in between, and no increment |
| `StopRuns.SameBootNoBootStep` | crates/attest-stop/src/lib.rs:460-466 | equal boot counts at two states mean no reset and no restart between them, and a clock that did not go back |
| `StopRuns.PcrsOnlyGrow` | crates/attest-appraise/src/stop.rs:263-266 | within one boot the history of a PCR that only a boot resets gets longer and nothing else |
| `StopRuns.AskedWasRead` | crates/stop/src/core.rs:101-104 | a call in flight read its value at an earlier step, and its record, if it has one, after that |
| `StopRuns.AskedStays` | crates/stop/src/core.rs:101-104 | what a call read is what it is decided on |
| `StopRuns.RecordStays` | crates/stop/src/port.rs:40-47 | the record a call read is the one its signature is checked against |
| `StopRuns.SignedIs` | crates/attest-envelope/src/tpm.rs:21-25 | what the AK signs tells which kind of step made it: data not starting with the TPM magic parses as no attestation |
| `StopRuns.QuoteCameFromTheTpm` | crates/attest-envelope/src/tpm.rs:158-204 | bytes that parse as a quote were signed only by a quote step and state the TPM's own PCR digest and clock |
| `StopRuns.CertifyCameFromTheTpm` | crates/attest-stop/src/lib.rs:491-520 | bytes that parse as an NV attestation were signed only by a certify step and state the index it read |
| `StopDevice.Chip.constructor` | crates/stop/src/port.rs:70-80 | a chip starts with an empty run |
| `StopDevice.Chip.Do` | crates/stop/src/port.rs:10-23 | one step of the run; the run stays valid |
| `StopDevice.Chip.ReadCounter` | crates/stop/src/port.rs:11-12 | the counter as it is after whatever others did; it fails only when undefined or as a counted fault |
| `StopDevice.Chip.Increment` | crates/stop/src/port.rs:13-14 | at most one increment of its own; a failure is a counted fault, before or after the TPM did it, unless the counter is undefined or at its end |
| `StopDevice.Chip.Certify` | crates/stop/src/port.rs:15-17 | a certify step over the 8 counter bytes, bound to the qualifying data, and its signature |
| `StopDevice.Chip.PcrRead` | crates/stop/src/port.rs:18-19 | the selected PCR values, concatenated |
| `StopDevice.Chip.Quote` | crates/stop/src/port.rs:20-22 | a quote step over the selection with the qualifying data, and its signature |
| `StopDevice.Chip.ReadRelease` | crates/stop/src/port.rs:40-71 | the record as it was at one state, the signature as it is at the last, with any change by others in between; or a failure |
| `StopDevice.Chip.GateNow` | crates/stop/src/core.rs:64-75 | the gate at a value, with the release read only when the value is even |
| `StopCommands.MoveTo` | crates/stop/src/core.rs:238-261 | at most one own increment, none when the parity read is the wanted one, Changed only when that increment was the only one between the two reads; it fails only when a call failed, the counter was undefined or at its end, or another writer moved it; alone, with no failing call, it succeeds, with one increment exactly when the parity was wrong |
| `StopCommands.Advance` | crates/stop/src/core.rs:244-261 | the increment and the read after it, with the same reasons to fail; a failure after the increment still reads the counter once more |
| `StopCommands.Trip` | crates/stop/src/core.rs:200-206 | the same for stopping; success means the counter was odd at a read; alone, with no failing call, a counter short of its end is odd afterwards |
| `StopCommands.Settle` | crates/stop/src/core.rs:232-236 | the same for the wanted state |
| `StopCommands.Recover` | crates/stop/src/core.rs:208-230 | no increment without a release that verified for the target computed from the first read; at most one own increment, none when the parity read is even, Changed only when it was the only one between the two reads; the checked release opens the value reached exactly when it is the target; it fails only when the gate at the target is not open or for the reasons of the others; alone, with no failing call, it succeeds exactly when the release opens the target, and the gate is then open |
| `StopCommands.SoleIncrement` | crates/stop/src/core.rs:247-260 | between a read of n and a read of n+1 there is room for exactly one increment |
| `StopService.Sign` | crates/stop/src/core.rs:145-182 | what sign returns is a receipt built from a certify and a later quote of this run, over this record and nonce; none is returned only when a call failed, the counter was not at the epoch, the index name is another, or what the AK signed does not fit |
| `StopService.CertifyAndBundle` | crates/stop/src/core.rs:159-170 | no bundle is built on a certify that does not state this record's epoch; none is built only for the same reasons |
| `StopService.ReadAndQuote` | crates/stop/src/core.rs:172-181 | the message is over the PCRs read then, the quote over the message |
| `StopService.BuiltIsAccepted` | crates/attest-appraise/src/stop.rs:131-229 | with no PCR and no boot step while it was made, the verifier that expects this device accepts what sign returned, with the same kind, state, epoch, policy and clock |
| `StopService.IntervalIsAccepted` | crates/attest-appraise/src/stop.rs:274-326 | two receipts sign made over one odd value on an undisturbed device, for different challenges, are accepted as an interval between their certifies |
| `StopService.PartsBuilt` | crates/attest-appraise/src/stop.rs:131-229 | each condition of the verifier holds of the parts sign put together |
| `StopService.BuiltCarriesItsRecord` | crates/stop/src/core.rs:133-143 | the record read back from a receipt is the one it was built for |
| `StopService.RecordOfIff` | crates/stop/src/core.rs:133-143 | a record is read from a receipt exactly when it parses and one section, and only one, is that record |
| `StopService.UndisturbedKeepsPcrs` | crates/attest-appraise/src/stop.rs:263-266 | without an extend or a boot the PCRs and the boot counts stay |
| `StopService.Status` | crates/stop/src/core.rs:117-131 | the counter is read first and then the release files; the signed answer is accepted and states the value read, and its basis is the gate the service saw at it: Counter for stopped, NoRelease for unreleased, Running for open; there is no answer only for a nonce that does not fit, a failed call, an undefined counter, an unreadable release at an even value, or the reasons of sign |
| `StopService.SignAndCheck` | crates/stop/src/core.rs:145-182 | whatever record is signed comes back from the receipt, and on an undisturbed device the verifier accepts it and finds that record |
| `StopService.Decide` | crates/stop/src/core.rs:99-104 | the steps of one call: its counter, its record, its decision on exactly these and the signature; no decision only after a failed call, an undefined counter or an unreadable release |
| `StopService.Admit` | crates/stop/src/core.rs:99-115 | a call is let through exactly when the record and then the signature, read after the counter, open the value it read; the verifier accepts the receipt of a refusal and finds in it the request digest handed in, the stop and its basis; any failure lets nothing through, and there is one only when a call failed, the counter was undefined, the release at an even value is unreadable, or for the reasons of sign |
| `StopAnswers.EveryStateCanBeProved` | crates/stop/src/core.rs:145-182 | over any hash function, from every state and for every record of its counter there is a run, in the setting of the soundness results, with a receipt the verifier accepts |
| `StopAnswers.EveryStopCanBeProved` | crates/attest-appraise/src/stop.rs:274-326 | over any hash function, from every state with an odd counter and for any two challenges there is such a run with an accepted interval |
| `Gateway.Handle` | crates/stop/src/main.rs:245-261 | from the bytes of a connection to the answer: 400 exactly when no request can be read, and the chip then is not asked; 200 only by an admission step with the gate open at the value read; 403 with a receipt over the digest of exactly the request received, which the verifier accepts; 503 only for the reasons of admit |
| `Gateway.OneDigestIff` | crates/attest-stop/src/lib.rs:256-266 | two parsed requests have one digest exactly when they are equal, or one splits the path and body of the other at one of its NULs, or SHA-256 collides |
| `Gateway.AboutAnotherIff` | crates/attest-stop/src/lib.rs:30-32 | an accepted refusal about one parsed request can be presented as being about another exactly when the request has such a split or SHA-256 collides |
| `Gateway.OneRefusalTwoRequests` | crates/attest-stop/src/lib.rs:30-32 | from every state of a device there is an accepted refusal that is about two requests, whatever the hash function |
| `Gate1.RejectIsFirstFailure` | crates/attest-appraise/src/gate1.rs:224-342 | the reject class is that of the first failing step in the documented order, and an envelope passes when none fails |
| `Gate1.BindingIsTheEntrys` | crates/attest-appraise/src/gate1.rs:224-342 | no downgrade: an AK accepts only with a quote, a legacy key only without; the result carries the message's own fields |
| `Gate1.V2RestsOnATpmQuote` | crates/attest-appraise/src/gate1.rs:224-342 | in every run: an accepted v2 envelope corresponds to a quote step over this message, with the single bank of the message and the digest the TPM computed |
| `Gate1.NoQuoteServesBoth` | crates/attest-stop/src/lib.rs:268-274 | a quote accepted in an agent envelope and in a stop receipt is a SHA-256 collision |
| `AkPublic.ParsePublic` | crates/attest-envelope/src/tpm.rs:228-260 | the TPM2B_PUBLIC parser over its cursor is the specification function |
| `AkPublic.ReadAlg` | crates/attest-envelope/src/tpm.rs:243-255 | parameters of a non-null algorithm are read over, none for the null algorithm |
| `AkPublic.PublicExact` | crates/attest-envelope/src/tpm.rs:228-260 | parser and printer are inverse up to the skipped parameters; nothing may follow |
| `AkPublic.MaskIsTheRule` | crates/attest-appraise/src/gate1.rs:126-148 | the two mask tests hold exactly when the five required bits are set and decrypt is not |
| `AkPublic.AkExact` | crates/attest-appraise/src/gate1.rs:133-171 | a key is accepted exactly when its bytes are the canonical public area of a restricted, TPM-bound, signing-only P-256 key with ECDSA/SHA-256 |
| `AkPublic.NameIsThePublicArea` | crates/attest-envelope/src/tpm.rs:262-273 | two accepted keys of one name are one public area, or SHA-256 collides |
| `TpmWire.ParseQuote` | crates/attest-envelope/src/tpm.rs:158-204 | the quote parser over its cursor is the specification function |
| `TpmWire.QuoteExact` | crates/attest-envelope/src/tpm.rs:151-204 | a byte string parses to a quote exactly when it is the marshalling of it |
| `TpmWire.ParseNvAttest` | crates/attest-stop/src/lib.rs:491-520 | the NV attestation parser over its cursor is the specification function |
| `TpmWire.NvAttestExact` | crates/attest-stop/src/lib.rs:491-520 | a byte string parses to an NV attestation exactly when it is its marshalling with some 8 firmware bytes |
| `TpmWire.NvAttestPut` | crates/attest-stop/src/lib.rs:491-520 | a marshalled NV attestation parses to its fields, whatever the firmware bytes |
| `TpmWire.NoBytesAreBoth` | crates/attest-stop/src/lib.rs:439-451 | no byte string is a quote and an NV attestation |
| `TpmWire.IterBanks` | crates/attest-envelope/src/tpm.rs:130-147 | the iterator yields exactly count entries in bounds, the ones the parse loop walked |
| `TpmWire.EntriesPrintTheBody` | crates/attest-envelope/src/tpm.rs:130-147 | those entries, printed, are the raw selection body |
| `TpmWire.Cursor.constructor` | crates/attest-envelope/src/tpm.rs:56-60 | a cursor starts at the first byte |
| `TpmWire.Cursor.Take` | crates/attest-envelope/src/tpm.rs:61-69 | n bytes off the front, or a refusal when fewer are left |
| `TpmWire.Cursor.U8` | crates/attest-envelope/src/tpm.rs:70-70 | one byte |
| `TpmWire.Cursor.U16` | crates/attest-envelope/src/tpm.rs:71-74 | two bytes, big-endian |
| `TpmWire.Cursor.U32` | crates/attest-envelope/src/tpm.rs:75-78 | four bytes, big-endian |
| `TpmWire.Cursor.U64` | crates/attest-envelope/src/tpm.rs:79-84 | eight bytes, big-endian |
| `TpmWire.Cursor.Tpm2b` | crates/attest-envelope/src/tpm.rs:85-88 | a length and that many bytes |
| `TpmWire.Cursor.ClockInfo` | crates/attest-envelope/src/tpm.rs:98-106 | the clock fields, a safe byte of 0 or 1 |
| `TpmWire.Cursor.AttestHead` | crates/attest-envelope/src/tpm.rs:158-180 | magic, type, signer, extra data and clock |
| `TpmWire.Cursor.SkipBanks` | crates/attest-envelope/src/tpm.rs:185-193 | the loop that walks the declared number of banks |
| `Envelope.MessageExact` | crates/attest-envelope/src/lib.rs:108-128 | 93 bytes parse to a message exactly when they print it |
| `Envelope.BuildCanonical` | crates/attest-envelope/src/lib.rs:189-212 | the five appends print the canonical message with both digests taken here |
| `Envelope.PadIdExact` | crates/attest-envelope/src/lib.rs:202-204 | the id's bytes as far as 16 hold them, then zeros; ids that fit and hold no NUL are told apart |
| `Envelope.Sections.constructor` | crates/attest-envelope/src/lib.rs:298-302 | an iterator starts at the bundle's first byte |
| `Envelope.Sections.Next` | crates/attest-envelope/src/lib.rs:304-346 | yields the next section, one error, and nothing ever after an error |
| `Envelope.ParseBundle` | crates/attest-envelope/src/lib.rs:348-355 | all sections or nothing |
| `Envelope.BuildBundle` | crates/attest-envelope/src/lib.rs:357-376 | succeeds exactly for permitted tags and lengths, and what it builds parses back |
| `Envelope.BundleExact` | crates/attest-envelope/src/lib.rs:290-376 | a byte string parses to a list of sections exactly when it is their bundle |
| `Envelope.BundleConcat` | crates/attest-envelope/src/lib.rs:348-355 | parsing distributes over concatenation after a valid bundle |
| `Envelope.UniformBuffersAreRefused` | crates/attest-envelope/src/lib.rs:274-280 | nonempty all-zero and all-ones buffers are refused at every length |
| `StopCodec.EncodeRecord` | crates/attest-stop/src/lib.rs:166-189 | encodes exactly the records that may exist |
| `StopCodec.RecordExact` | crates/attest-stop/src/lib.rs:166-242 | a body parses to a record exactly when it is its encoding |
| `StopCodec.EncodeCertify` | crates/attest-stop/src/lib.rs:304-318 | encodes when the parts fit their bounds |
| `StopCodec.ParseCertify` | crates/attest-stop/src/lib.rs:320-327 | the section parser over its reader is the specification function |
| `StopCodec.CertifyExact` | crates/attest-stop/src/lib.rs:304-327 | parse and encode are inverse |
| `StopCodec.EncodeReceipt` | crates/attest-stop/src/lib.rs:345-367 | encodes when the parts fit their bounds |
| `StopCodec.ParseReceipt` | crates/attest-stop/src/lib.rs:369-392 | the receipt parser over its reader is the specification function |
| `StopCodec.ReceiptExact` | crates/attest-stop/src/lib.rs:345-392 | parse and encode are inverse |
| `StopCodec.Reader.constructor` | crates/attest-stop/src/lib.rs:396-399 | a reader starts at the first byte |
| `StopCodec.Reader.TakeN` | crates/attest-stop/src/lib.rs:400-411 | n bytes, nonzero and within the bound |
| `StopCodec.Reader.Take16` | crates/attest-stop/src/lib.rs:412-420 | a 2-byte length and that many bytes |
| `StopCodec.Reader.Take32` | crates/attest-stop/src/lib.rs:421-429 | a 4-byte length and that many bytes |
| `StopCodec.CheckCounterCertify` | crates/attest-stop/src/lib.rs:522-553 | accepts exactly a certify of the named index, 8 bytes from 0, with this qualifying data and value |
| `StopCodec.DomainsAreDisjoint` | crates/attest-stop/src/lib.rs:256-283 | no request, quote or certify input is an input of another domain |
| `StopCodec.CertifyInputIsUnambiguous` | crates/attest-stop/src/lib.rs:276-283 | record body and nonce are determined by their unmarked concatenation, for all bodies that parse and nonces empty or of 16 to 64 bytes |
| `StopCodec.QuoteInputIsNoMessage` | crates/attest-stop/src/lib.rs:268-274 | no stop-quote input is a 93-byte agent message |
| `StopCodec.RequestInputIsUnambiguousIff` | crates/attest-stop/src/lib.rs:256-266 | among all methods and paths that are text, a request is the only one with its digest input exactly when its method and path hold no NUL and no NUL of its body has text before it |
| `StopCodec.SameInputIff` | crates/attest-stop/src/lib.rs:256-266 | two requests share a digest input exactly when they split the same bytes at two of their NULs |
| `StopCodec.RequestInputIsUnambiguous` | crates/attest-stop/src/lib.rs:256-266 | among requests with NUL-free method and path the digest input determines the request |
| `StopCodec.NvPublicInjective` | crates/attest-stop/src/lib.rs:561-583 | the hashed public area of an index determines its definition |
| `Release.ReleaseExact` | crates/stop/src/release.rs:74-107 | a record parses to (id, epoch) exactly when it is the two canonical lines of a valid id and an even epoch |
| `Release.ReleasesIff` | crates/stop/src/release.rs:111-127 | what lifts a stop is exactly the operator's signature over this device and this even epoch |
| `Release.ValidIdIff` | crates/stop/src/release.rs:90-94 | a device id is one to sixteen printable characters other than space, which a message holds whole |
| `Release.ParseU64Iff` | crates/stop/src/release.rs:95-100 | a number is read exactly from digits, at least one, perhaps after a plus sign, of a value that fits 64 bits |
| `Release.ParseDecimal` | crates/stop/src/release.rs:95-104 | the canonical decimal of a number parses to it |
| `Release.DecimalValue` | crates/stop/src/release.rs:95-104 | digits of a number have its value |
| `Http.ParseRequest` | crates/stop/src/http.rs:41-101 | the parse as it runs, header line by header line, is the specification function |
| `Http.ParseExact` | crates/stop/src/http.rs:41-101 | a request of n bytes is yielded exactly when the bytes start with it: a request line, header lines none of which is a transfer encoding and whose lengths, if any, are all that of the body, a blank line, and a body of exactly that length, empty when no line gives one |
| `Http.HeadersExact` | crates/stop/src/http.rs:65-92 | the running length after the header loop is the one every declaring header gives |
| `Http.HeaderLengthIff` | crates/stop/src/http.rs:66-88 | a header line in its own bytes: it is read exactly as name, colon and value with a nonempty printable name; it gives a length exactly when the name is content-length up to case and the value, blanks taken off, is one to eight digits of it; a transfer-encoding is never read |
| `Http.HeaderRefusalIff` | crates/stop/src/http.rs:66-88 | why a header line is refused, in its own bytes: no colon, a bad name, a transfer encoding, or a length that is no length |
| `Http.HeadersRefusal` | crates/stop/src/http.rs:65-92 | the header lines are refused for the first that is not read, or that gives another length than one before it |
| `Http.HeadRefusalIsFirstFailure` | crates/stop/src/http.rs:51-96 | a head is refused for the first of six checks that fails, in the order they run, and taken when none does |
| `Http.TrimmedReads` | crates/stop/src/http.rs:74-74 | taking blanks off both ends leaves exactly the digits that stand between them |
| `Http.AsksForMoreIff` | crates/stop/src/http.rs:41-101 | with the blank line in sight the parser asks for more exactly when more can still make a request of it; without it, exactly while a head may be so long; all else is refused |
| `Http.ParseIsStable` | crates/stop/src/http.rs:41-101 | a parsed request, and a refusal made with the blank line in sight, are the same for every extension |
| `Http.HeadTooLongIsFinalIff` | crates/stop/src/http.rs:42-50 | without a blank line the refusal of a long head is final exactly when no blank line is half received at an allowed place |
| `Http.FindExact` | crates/stop/src/http.rs:103-105 | the first occurrence, or none |
| `Http.FindIsStable` | crates/stop/src/http.rs:103-105 | appending bytes neither moves nor creates an earlier first occurrence |
| `Http.LinesJoin` | crates/stop/src/http.rs:52-53 | the lines of a head, joined again, are the head |
| `Http.SplitOnceExact` | crates/stop/src/http.rs:67-67 | a header splits exactly where no colon stands before |
| `HttpRequests.PrintedRequestParses` | crates/stop/src/http.rs:41-101 | every request within the limits is read back as itself from its shortest head, whatever follows |
| `HttpRequests.ParsedIff` | crates/stop/src/http.rs:41-101 | the requests the parser can yield are exactly these: a method of capitals, a path of text without space and line end, body and shortest head within the limits |
| `HttpRequests.ChunkingMatters` | crates/stop/src/http.rs:41-50 | every request whose head leaves less than three bytes of the limit is read in one chunking and refused in another, on a part that only needed the rest |
| `HttpRequests.LongestHead` | crates/stop/src/http.rs:28-28 | there are such requests: a path that fills the head to the limit |
| `Http.Stream.Next` | crates/stop/src/http.rs:122-130 | one wait on the connection |
| `Http.ReadRequest` | crates/stop/src/http.rs:107-136 | the reading loop is the specification function over what the connection delivers |
| `Http.ReadIsOneRequest` | crates/stop/src/http.rs:107-136 | for every chunking a request is returned only when the bytes received are exactly that one request |
| `Http.RefusalHasAReason` | crates/stop/src/http.rs:107-136 | reading that is refused stops at the first chunk after which it has a reason to: the parse, bytes behind the request, the deadline, a failed read, the end of the connection, or too many bytes |
| `Http.AnyChunkingReads` | crates/stop/src/http.rs:107-136 | one request delivered in any chunks is returned, if the head and three bytes of its blank line are within the head limit |
| `Http.ChunkingReadsIff` | crates/stop/src/http.rs:107-136 | a chunking of one request is read exactly when no chunk ends past the head limit and before the end of the blank line; otherwise it is refused |
| `Http.FullChunksRead` | crates/stop/src/http.rs:107-136 | every request there is comes through when each read fills the buffer |
| `Http.SomeChunkingIsRefused` | crates/stop/src/http.rs:107-136 | if they are not, some chunking is refused |
| `Http.EveryChunkingReadsIff` | crates/stop/src/http.rs:107-136 | so one request is returned for every chunking exactly when the head and three bytes of its blank line are within the head limit |
| `HttpRequests.ParsedMethodHasNoNul` | crates/stop/src/http.rs:62-64 | a parsed method has no NUL |
| `HttpRequests.SharedInputIff` | crates/attest-stop/src/lib.rs:256-266 | a parsed request shares its digest input with another parsed one exactly when its path and body, taken together, have a NUL other than the separator where they split into a path and a body the parser can yield |
| `HttpRequests.OneInputIff` | crates/attest-stop/src/lib.rs:256-266 | two parsed requests have one digest input exactly when they are equal or one is a split of the other |
| `HttpRequests.TwoRequestsOneInput` | crates/attest-stop/src/lib.rs:256-266 | two different requests that are both parsed and have one digest input |
| `HttpRequests.OneInputOneRequest` | crates/attest-stop/src/lib.rs:256-266 | parsed requests with NUL-free paths and one digest input are one request |
| `HttpRequests.SpaceBeforeNul` | crates/attest-stop/src/lib.rs:256-266 | a NUL-free path and a body whose every NUL comes after a space share it with no other |
| `HttpRequests.NulInAPathIsAmbiguous` | crates/stop/src/http.rs:54-64 | a NUL in a path is parsed, and the request that ends its path there is another one with the same digest input; it is parsed too exactly when body and head are within the limits |
| `Text.Utf8Splits` | crates/stop/src/http.rs:54-54 | around a space or line end, bytes are UTF-8 exactly when both sides are |
| `Text.Utf8Iff` | crates/stop/src/http.rs:54-54 | bytes are text exactly when they are the UTF-8 encoding of some Unicode scalar values (RFC 3629, section 3) |
| `Rim.ReferenceFromRim` | crates/attest-appraise/src/rim.rs:51-154 | succeeds exactly for well-formed manifests, with the reason of the first fault otherwise; the result has the selected bits and exactly the composites of devices booted from one slot, sorted and without duplicates |
| `Rim.ReadSelection` | crates/attest-appraise/src/rim.rs:63-72 | the selection, in range, sorted, without duplicates |
| `Rim.ReadValues` | crates/attest-appraise/src/rim.rs:87-118 | all entries fit, or the first one at fault |
| `Rim.ReadEntry` | crates/attest-appraise/src/rim.rs:89-117 | one entry: a nonempty list, or slots that agree with the other PCRs |
| `Rim.Columns` | crates/attest-appraise/src/rim.rs:127-134 | the candidate values of each PCR in one slot |
| `Rim.Product` | crates/attest-appraise/src/rim.rs:137-143 | the combinations are exactly the choices of one digest per column |
| `Rim.Extend` | crates/attest-appraise/src/rim.rs:138-142 | every combination so far with every digest of the next column, and no other |
| `Rim.ExpandSlot` | crates/attest-appraise/src/rim.rs:125-144 | the composites of one slot |
| `Rim.SlotExact` | crates/attest-appraise/src/rim.rs:10-13 | the choices from the columns are the PCR states of a device booted from the slot |
| `Rim.BuildMask` | crates/attest-appraise/src/rim.rs:149-152 | bit n%8 of byte n/8 is set exactly when PCR n is selected |
| `Rim.MaskExact` | crates/attest-appraise/src/rim.rs:149-152 | the same of the specification function |
| `Gate3.PresentedKinds` | crates/attest-appraise/src/appraisal.rs:101-117 | the kinds of a bundle that parses, each once in order of first appearance |
| `Gate3.KindsExact` | crates/attest-appraise/src/appraisal.rs:101-117 | a kind is presented exactly when a section has its tag, listed once, in order of first appearance; unknown tags are passed over |
| `Gate3.FirstMissingExact` | crates/attest-appraise/src/appraisal.rs:88-93 | the reported kind is the first of the profile that is not presented |
| `Gate3.AppraiseIff` | crates/attest-appraise/src/appraisal.rs:22-27 | each verdict with its exact condition: unreadable bundle, then state, then the first missing kind |
| `Gate3.AcceptedIffBootedFromOneSlot` | crates/attest-appraise/src/appraisal.rs:71-99 | with no further kinds required a device booted from one slot is accepted, and whatever is accepted was booted from one slot or collides with such a device under SHA-256 |
| `Gate3.AcceptedEnvelopeIsABootedDevice` | crates/attest-appraise/src/appraisal.rs:22-45 | end to end over runs: an accepted v2 envelope rests on a quote of a TPM whose selected PCRs then held the values of one slot, short of a collision |
| `Gate3.ConcatTellsValues` | crates/attest-appraise/src/rim.rs:3-7 | equal concatenations of one selection are equal value by value |
| `PcrSpec.ParsePcrSpec` | crates/attest-tpm/src/lib.rs:564-606 | the parse as it runs, bank and list and refusals, accepts exactly one bank of a known algorithm with indices below 24 in ascending order, and sets their bits |
| `PcrSpec.ReadList` | crates/attest-tpm/src/lib.rs:579-605 | the loop over the items and its bitmap |
| `PcrSpec.AlgOfIff` | crates/attest-tpm/src/lib.rs:573-578 | the banks known are sha1, sha256, sha384 and sha512, with their algorithm ids |
| `PcrSpec.TrimExact` | crates/attest-tpm/src/lib.rs:572-582 | trimming takes off both ends what is white space in Unicode, all of it and nothing else |
| `PcrSpec.PrintedSpecIsRead` | crates/attest-tpm/src/lib.rs:564-606 | every such selection has a text, and it is read back |
| `PcrSpec.OneSetTwoSpellings` | crates/attest-tpm/src/lib.rs:562-562 | one set has more than one spelling: 0 and 00 read the same |
| `PcrSpec.CanonicalIff` | crates/attest-tpm/src/lib.rs:562-562 | a text of a selection is its printed spelling, and so the only one, exactly when no white space stands around its parts and no zero in front of an index |
| `PcrSpec.SpecAgreesWithManifest` | crates/attest-tpm/src/lib.rs:550-563 | the selection the prover declares equals the manifest's exactly when both name the same PCRs |
| `Sorting.SortDedup` | crates/attest-appraise/src/rim.rs:68-69 | ascending, each member once |
| `Sorting.AscendingIsUnique` | crates/attest-appraise/src/rim.rs:68-69 | a sorted list without duplicates is determined by its members |
| `Counters.ComposeExact` | crates/prover/src/main.rs:77-88 | shift and or give epoch * 2^24 + seq below 2^64, exactly for a seq below 2^24 and an epoch below 2^40 |
| `Counters.LexicographicOrder` | crates/prover/src/main.rs:69-73 | counters are ordered by epoch, then seq, and different pairs are different counters |
| `Counters.Nv.Verify` | crates/attest-tpm/src/lib.rs:400-405 | the check that the index is there |
| `Counters.Nv.Increment` | crates/attest-tpm/src/lib.rs:414-414 | one count, reported failed before or after it happened; a failure short of the end is a counted fault |
| `Counters.Nv.Read` | crates/attest-tpm/src/lib.rs:415-425 | the value as it is then, or a failure |
| `Counters.Nv.IncrementAndRead` | crates/attest-tpm/src/lib.rs:412-425 | one own increment, and the value read is the one before, that increment and those others made before the read; it fails only at the end of the counter or when a call failed |
| `Counters.ReadsShareIff` | crates/attest-tpm/src/lib.rs:407-425 | two reads give one value exactly when no increment lies between them |
| `Counters.LaterIncrementLaterValue` | crates/attest-tpm/src/lib.rs:409-410 | a caller that increments after another's read gets a higher value |
| `Counters.RacingCallersShareAValue` | crates/attest-tpm/src/lib.rs:410-411 | two callers that both increment before either reads share one |
| `Counters.CounterAlloc.constructor` | crates/prover/src/main.rs:97-102 | a life starts without an epoch |
| `Counters.CounterAlloc.Next` | crates/prover/src/main.rs:104-117 | the counter handed out is the next of the epoch in hand, without touching the TPM, or the first of one newly taken, by one increment after a check of the index, which happens exactly without an epoch or after 2^24; it is above every counter any life handed out; an error hands out none, and there is one only when a call failed, the TPM counter is at its end, or the epoch is 2^40 or more |
| `Counters.Lives` | crates/prover/src/main.rs:90-118 | over any number of lives with crashes, TPM failures and other increments between calls, issued counters strictly increase; with no failing call every call hands one out |
| `Disk.Directory.Create` | crates/prover/src/main.rs:395-395 | a new or emptied file that a cut may or may not leave |
| `Disk.Directory.Append` | crates/prover/src/main.rs:396-397 | all of the data, or some leading part on failure; not durable yet |
| `Disk.Directory.SyncFile` | crates/prover/src/main.rs:398-407 | the content survives a cut |
| `Disk.Directory.Rename` | crates/prover/src/main.rs:477-482 | old and new name may each be as before or as after until the directory is synced |
| `Disk.Directory.Remove` | crates/prover/src/main.rs:428-429 | the name may be gone or not until the directory is synced |
| `Disk.Directory.SyncDir` | crates/prover/src/state.rs:125-129 | every name survives as it is |
| `Disk.Directory.Readable` | crates/prover/src/main.rs:413-414 | one entry is read, or that is a counted fault |
| `Disk.Directory.ReadableNames` | crates/prover/src/main.rs:146-150 | the names that can be read; each one passed over is a counted fault |
| `Disk.Directory.PowerCut` | crates/prover/src/main.rs:437-447 | each name meets one of its fates, and that is the directory from then on |
| `Publish.PublishEnvelope` | crates/prover/src/main.rs:437-484 | in every state passed through, a power cut leaves each of the envelope's names as it might have been before or with the complete new file, the new tag only beside the other three new files, and other names to fates they already had; success means the whole envelope survives any cut and no half-written file is left; it fails exactly when a call failed, and when that was before all was staged and cleaning up worked, nothing of the envelope is left; publishing a new stem always passes a state in which a cut leaves it neither whole nor absent |
| `Publish.WriteSynced` | crates/prover/src/main.rs:392-400 | on success the name, new or emptied, is a complete synced file |
| `Publish.SyncWritten` | crates/prover/src/main.rs:402-407 | a file another process wrote becomes durable |
| `Publish.StageFiles` | crates/prover/src/main.rs:465-471 | four complete files under .part names, left-over ones overwritten, only those names touched |
| `Publish.Cleanup` | crates/prover/src/main.rs:460-464 | only .part names are touched, whatever fails; none is left when nothing fails |
| `Publish.MoveIntoPlace` | crates/prover/src/main.rs:476-483 | three renames, a sync, the tag, a sync: sound at every step |
| `Publish.SoundIsSafe` | crates/prover/src/main.rs:440-447 | the step invariant implies safety against every outcome of a cut |
| `Publish.MovedIsSound` | crates/prover/src/main.rs:440-447 | the invariant holds with any number of files moved, the tag only after the directory was synced |
| `Publish.WholeOrNothingIff` | crates/prover/src/main.rs:437-438 | a cut leaves the whole envelope or no file exactly when none of its names may be left with a file, or none without |
| `Publish.WholeOrNothingAt` | crates/prover/src/main.rs:437-447 | while a new stem is moved into place that holds before the first rename and after the second directory sync, and at no state between |
| `Publish.SafeForANewStem` | crates/prover/src/main.rs:440-445 | for a new stem a file under an envelope name is always complete, and an envelope with its tag has all four |
| `Publish.RemovePartials` | crates/prover/src/main.rs:409-435 | removes exactly the half-written files and counts them; every other name and content stays, also when an entry stops it, which only a failed call does, and at every moment |
| `Publish.RemoveListed` | crates/prover/src/main.rs:414-434 | the loop over the listing: what it removed was half-written, and on success all of that is gone |
| `Publish.CutThenCleanUp` | crates/prover/src/main.rs:440-447 | after a cut and the next cycle no half-written file is left, and what is left is complete, whole if tagged |
| `AuditNames.EnvelopeNameExact` | crates/prover/src/main.rs:129-136 | an envelope name is exactly digits, a dot and one of four extensions |
| `AuditNames.PartialExact` | crates/prover/src/main.rs:419-427 | a half-written name is exactly such a name with .part behind it |
| `AuditNames.PartialIsNoEnvelope` | crates/prover/src/main.rs:388-390 | no name is both |
| `Prune.StemsToPrune` | crates/prover/src/main.rs:125-143 | returns exactly the max(0, n - keep) smallest of the n distinct stems by value and text, each below every stem that stays |
| `Prune.PruningKeepsTheNewest` | crates/prover/src/main.rs:120-124 | min(n, keep) stems stay |
| `Prune.PruningIsUnique` | crates/prover/src/main.rs:120-124 | no other list of stems meets that description |
| `Prune.CounterStem` | crates/prover/src/main.rs:371-372 | the agent's own stems count under their counters |
| `Prune.StemOfIff` | crates/prover/src/main.rs:130-140 | an entry counts under a number exactly when it is an envelope name whose digits have that value and it fits 64 bits |
| `Prune.PruneAudit` | crates/prover/src/main.rs:145-166 | on success the files of the excess stems the listing showed are gone and no others, and at most keep of the stems shown are left; entries that cannot be read are passed over, and without such and other failing calls the listing is complete and pruning succeeds; at every moment only those files can have been lost |
| `Prune.RemoveStem` | crates/prover/src/main.rs:156-163 | a file that is not there is no failure; the message is removed first |
| `Prune.OnlyEnvelopesGo` | crates/prover/src/main.rs:122-124 | nothing but envelope names is removed |
| `AuditRuns.Agent` | crates/prover/src/main.rs:604-626 | over any number of lives of any number of cycles, with failures and kills anywhere and power cuts between lives: in every state passed through, whatever a further cut leaves, every file under an envelope name is complete and a tag has all four unless its envelope was pruned; what was published and not pruned survives any cut; only the smallest stems beyond keep were pruned; with no failing call every cycle publishes an envelope |
| `AuditRuns.Cycle` | crates/prover/src/main.rs:324-385 | one cycle keeps this, and its counter is new: no file ever had its name; with no failing call it publishes and leaves at most keep stems |
| `AuditRuns.Clear` | crates/prover/src/main.rs:334-334 | so does clearing what a cut left, after which no half-written name is in the way |
| `AuditRuns.PublishNew` | crates/prover/src/main.rs:366-376 | so does publishing under a new counter |
| `AuditRuns.PruneNow` | crates/prover/src/main.rs:607-608 | so does pruning; and when it begins with a published envelope, it passes a state in which a cut leaves that tag without its message |
| `AuditRuns.CutKeepsOrder` | crates/prover/src/main.rs:440-447 | so does a power cut |
| `AuditRuns.WholeIfTaggedIff` | crates/prover/src/main.rs:442-444 | a tag is never left without the other three exactly when it may not be left at all or none of them may be lost |
| `AuditRuns.PruningLeavesATag` | crates/prover/src/main.rs:155-163 | from the first removal of a pruning on, and until the directory is next synced, a cut can leave the tag of a published envelope without its message |
| `Utc.CivilIsTheCalendar` | tools/registrar/src/main.rs:187-201 | for every day since 1970 the formulas give the date of the Gregorian calendar, counted a day at a time |
| `Utc.CivilIsADate` | tools/registrar/src/main.rs:187-201 | a valid date, and days-from-civil gives back the days |
| `Utc.DaysAreCivil` | tools/registrar/src/main.rs:187-201 | every date of the calendar from 1970 on is what the formulas give for its days |
| `Utc.NextDayIsOneLater` | tools/registrar/src/main.rs:187-201 | days-from-civil counts the calendar's next day as one more, across month ends, leap days and centuries |
| `Utc.YearHoldsDay` | tools/registrar/src/main.rs:192-195 | the year formula finds the year of the era that contains the day |
| `Utc.DayHasYear` | tools/registrar/src/main.rs:192-195 | and it is the only one |
| `Utc.FormatTellsInstants` | tools/registrar/src/main.rs:187-201 | two instants have one text only if they are one instant |
| `Utc.RecordPassesForItsTimesOnly` | tools/registrar/src/main.rs:406-415 | the text comparison of the CRL times passes exactly for the times written |
| `Utc.TwentyCharactersIff` | tools/registrar/src/main.rs:187-201 | the text has the 20 characters of RFC 3339 (section 5.6) exactly before the year 10000 |

## Left out

- Error texts: parsers refuse with one value, checks with one value per reason; `Gate1`, `StopVerify`,
  `Rim` and `Http` keep the order of the reasons.
- SHA-256, ECDSA, DER, PEM and curve arithmetic: library code, passed in as functions.
- X.509, CRL and CMS parsing, credential activation, enrolment records other than their time fields.
- JSON decoding of manifests: `Rim` starts from a decoded manifest whose value keys are canonical decimal
  indices, which the lookup at crates/attest-appraise/src/rim.rs:91 needs; format, bank and digest syntax are
  checked before it.
- tpm2-tools calls and their output: replaced by the steps of `StopRuns`; attribute checks of NV indices.
- Sockets, timeouts, locks, permissions, systemd, configuration files, command lines, printed messages,
  the text of HTTP responses, the boot log copy.
- TPM2_Clear, wrap-around of the reset and restart counts, and an owner who redefines the stop index with
  other attributes (another name, which the verifier refuses).
- Resets of PCRs 17 to 22 by a dynamic launch; a process can reset PCRs 16 and 23 only.
- Composites are modelled over the sha256 bank; a quote over another bank carries an arbitrary digest.
- StopCommands.Recover: at counter 2^64-1 the source's `from + 1` would overflow; the model returns an
  error there. The TPM refuses to count past it, so no run goes on from there.
- Http.ReadRequest: the deadline is an event of the connection, not a clock.
- Sorting.SortDedup: sorts by insertion into a duplicate-free list; the source calls the library's
  `sort_unstable` and `dedup`, whose result this is.
- Publish.PublishEnvelope: asks that a `.part` name left from before is no hard link to the file of another
  name; the agent makes no links.
- Gate1.V2RestsOnATpmQuote: `appraisal.rs` calls gate 1 with a single key through `check`; the model goes
  through `AuthenticateEnvelope` with a trust entry, of which that is the legacy case.
- AuditRuns.Cycle: what an envelope says is arbitrary; measuring, quoting and the checks before a counter is
  taken are calls that may fail. Other processes do not write in the directory.
