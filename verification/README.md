# Verified models of pipette-mgmt

Dafny models of the parts of pipette-mgmt whose answers other parts rely on, and
proofs of what they promise.

- **Eligibility** (`Matching`, `Unmatchable`, `RunAnswers`, `Narrowing`,
  `RosterStanding`, `Versions`): which client may run which job, from the clauses of
  an untyped JSON body, and the reports that must agree with that one decision.
- **Signing** (`Congruence`, `RingIdentities`, `Edwards`, `AbelianGroup`, `Bits`,
  `Ed25519`, `Decoding`, `AgentWire`): Ed25519 over plain integers, what its encodings
  can mean, and the ssh-agent wire format.
- **Queue bookkeeping** (`PlanLeases`, `Denials`, `ReasonKey`, `PreauthPrune`,
  `PreauthRuns`, `QueueKeys`): who holds a job, why everyone denied it, which spent markers a prune
  may delete, and the names objects are stored under.
- **Canonical forms and scanners** (`CanonicalJson`, `RustLexer`, `RustGrammar`,
  `RustFile`, `ProductionCode`): recursive key sorting, and the scanner that blanks a Rust file's
  comments, literals and test items.

`Text`, `Json`, `Sorting` and `Wrappers` are shared vocabulary.
Every induction is written out: automatic induction is off wherever it would apply.
`dafny verify dfyconfig.toml` checks the whole project.

What is taken as a parameter or a hypothesis: the hash behind a signature is any
function to 64 bytes; the group laws of the curve, and that Fermat's power inverts a
coordinate, are hypotheses of the lemmas that use them; how a reason is displayed and
which characters are whitespace or alphanumeric are function parameters (the scanner
lemmas ask that no punctuation mark is alphanumeric); a key's timestamp codec is any one that reads back what it writes, and the compact
fixed-width form is shown to be one. Flags and ids are strings, capabilities are
sets, times are integers. Error texts are enumerations.

The curve's constants are long, and few proofs need their digits: P is written
2^255 - 19, and D and the base point are sealed behind a recursive function, so the
digits enter only `PrimeDigits`, `ConstantDigits` and `BaseDigits`.

Where a promise holds only under a condition, the condition is exact, and a lemma
gives an input that it shuts out:

- The comment on `targets` in `preauth_prune.rs` calls listing records before markers
  the safe order. Of the marked keys that can still be loaded, a prune takes exactly
  the markers of those minted after it listed the records (`OrphanedIff`,
  `MarkerTakenIff`); so over any run a loadable key is unmarked after a grant exactly
  when such prunes took as many of its markers as it had grants
  (`SpentKeysStaySpent`). `WindowMintLosesMarker` is such a run.
- A single-use key can be granted, or granted again, from a state exactly when a
  consumer holds it loaded or its record can still be loaded (`GrantableIff`): its
  marker alone does not decide, as `RacedClaimGrantsTwice` shows.
- `unmatchable_reason` is documented as sound but incomplete. `IncompleteIff` says
  exactly when it misses, and `CompleteWithFreeFlags` and `CompleteWithoutGroups` give
  conditions a caller can read off a body.
- Repeated readings of the same leases give one report exactly when no two unequal
  leases tie at a job's latest deadline (`OrderNeverShowsIff`); ties below it never
  show. `TiedLeasesShowOrder` is the smallest tie.
- `admitted_client_versions` is empty for a client that matches exactly when none of
  its builds meets the positive clauses by itself (`MatchIsMissedIff`), and names builds
  for one that does not match exactly when the negative clauses exclude it with all its
  builds (`ListOverstatesIff`). `TwoGroupsAreMissed` and `BarredBuildIsOverstated` are
  one job of each kind; for jobs of the documented shape neither happens
  (`VersionsDecideTheMatch`).

## Model

| member | source | states |
|---|---|---|
| Matching.TagsAreAssigned | crates/pipette-core/src/matching.rs:73-83 | A job sees a `tag:` flag on a client exactly when an operator assigned that tag, whatever the client reports; every other flag passes through unchanged. |
| Matching.FlagKinds | crates/pipette-core/src/client.rs:87-121 | A flag is a tag, a version or reserved exactly when it starts with that namespace and a colon. |
| Matching.ParseMeans | crates/pipette-core/src/matching.rs:254-272 | Every body parses exactly when each clause is absent or an array of the right shape; then each flag clause holds the strings its field names, none when absent, and each group those of its array. |
| Matching.MatchesMeans | crates/pipette-core/src/matching.rs:85-110 | The decision for every body, id and flags, over the body's own fields: well shaped, named by no negative clause, and on the roster or holding all that is required and a flag of each group. |
| Matching.EffectiveRosterMembers | crates/pipette-core/src/matching.rs:296-307 | The effective roster holds exactly the listed ids that `exclude_clients` does not name, for well-formed and malformed rosters alike. |
| Matching.ClosedIff | crates/pipette-core/src/matching.rs:545-558 | A closed roster is returned exactly when the body is well shaped, requires nothing and lists a client it does not exclude. |
| Matching.ClosedRoster | crates/pipette-core/src/matching.rs:545-558 | When a closed roster is returned, any client ever admitted is on it, so denying all of it leaves nobody; and each member is admitted with no flags unless an empty `not_all_of` group shuts out everyone. |
| Matching.BodyParses | crates/pipette-core/src/matching.rs:352-367 | A synthetic body parses to exactly the clause lists it was built from, and its roster lists exactly their ids. |
| Unmatchable.ReasonIsSound | crates/pipette-core/src/matching.rs:627-653 | A reason means no id and no capability set is ever admitted. |
| Unmatchable.BranchReasonIsSound | crates/pipette-core/src/matching.rs:671-696 | Each rule that kills the capability path does: whatever meets the positive clauses is excluded. |
| Unmatchable.RosterFaultMeans | crates/pipette-core/src/matching.rs:655-669 | The roster is faulted for its shape exactly when it is there, is not the empty array and names no id. |
| Unmatchable.BranchFaultMeans | crates/pipette-core/src/matching.rs:671-696 | The fault given holds of the clauses and is the first that does; there is none exactly when none holds. |
| Unmatchable.PathOpenIffSatisfiable | crates/pipette-core/src/matching.rs:314-325 | The capability path admits someone exactly when one flag per `any_of` group can be picked that, with `requires`, no exclusion names: a client never needs a flag the positive clauses do not name. |
| Unmatchable.MatchableIff | crates/pipette-core/src/matching.rs:627-653 | Some client could match a well-formed body exactly when no `not_all_of` group is empty and its roster is live or its clauses are satisfiable. |
| Unmatchable.IncompleteIff | crates/pipette-core/src/matching.rs:632-653 | The static rules miss a dead job exactly when its roster is dead, no rule fires, and no joint choice of flags exists. |
| Unmatchable.CompleteWithFreeFlags | crates/pipette-core/src/matching.rs:640-696 | With no reason, and a flag in each `any_of` group that no exclusion or `not_all_of` group names, a matching client is constructible. |
| Unmatchable.CompleteWithoutGroups | crates/pipette-core/src/matching.rs:640-696 | For a well-formed body without `any_of` groups, or without `not_all_of` groups, there is no reason exactly when some client could match. |
| Unmatchable.StaticRulesAreIncomplete | crates/pipette-core/src/matching.rs:638-639 | A body with both kinds of group that nobody can match and no rule names. |
| Unmatchable.BodiesAreClassified | crates/pipette-core/src/matching.rs:545-653 | Every body is malformed, has requirements, is closed, or is provably dead; without requirements the static rules settle whether anyone can match. |
| RunAnswers.AnswerIsSound | crates/pipette-core/src/matching.rs:155-191 | If a run carries over, the client that made it, whatever it truly holds beyond the record, meets every measured positive clause of the edited body and violates no measured negative one. |
| RunAnswers.AnswersIff | crates/pipette-core/src/matching.rs:155-243 | For every pair of bodies and record, exactly when a run answers: the bodies measure alike and no roster could have made it, or no exclusion is new and every measured positive clause is known and shown. |
| RunAnswers.UnchangedIsAnswered | crates/pipette-core/src/matching.rs:170-175 | A run made under no roster answers every body that measures the same. |
| RunAnswers.UnknownFlagIsNoAnswer | crates/pipette-core/src/matching.rs:155-191 | A measured positive flag no record would show, and the old body does not vouch for, leaves no answer unless the bodies measure alike. |
| RunAnswers.AnsweredRunWouldMatch | crates/pipette-core/src/matching.rs:155-191 | Where no clause of the edited body only routes, a carried-over run is one the matcher itself would offer that client, if the body requires something and does not bar the id. |
| RunAnswers.AnswerGrowsWithRecord | crates/pipette-core/src/matching.rs:176-190 | A record that proves more never loses an answer. |
| RunAnswers.RoutingEditsAreInvisible | crates/pipette-core/src/matching.rs:201-232 | Adding or dropping unmarked routing flags, or groups made only of them, leaves the measured clauses equal. |
| RunAnswers.RoutingEditsKeepAnswers | crates/pipette-core/src/matching.rs:155-232 | A body edited only in flags that route is answered by the same runs. |
| Narrowing.NarrowFleet | crates/pipette-core/src/matching.rs:369-446 | No ladder without `requires`; otherwise one rung per clause the job has, in order, each counting the clients that pass every clause so far, taken one by one. |
| Narrowing.Widen | crates/pipette-core/src/matching.rs:392-446 | Adding a clause the job has to the prefix adds its rung and keeps the ladder; a clause it lacks changes nothing. |
| Narrowing.BodyAsksEachClause | crates/pipette-core/src/matching.rs:352-367 | The matcher, asked about a synthetic body, accepts a client exactly when each of its clauses alone does. |
| Narrowing.BodyCounts | crates/pipette-core/src/matching.rs:392-409 | A body built clause by clause in any order counts the clients all of its clauses pass. |
| Narrowing.LadderNeverIncreases | crates/pipette-core/src/matching.rs:369-376 | No rung counts more clients than one above it. |
| Narrowing.LastRungIsTheMatch | crates/pipette-core/src/matching.rs:369-446 | The last rung is the number of clients the matcher accepts for all clauses with the roster emptied, and any other order of the clauses ends on the same count. |
| RosterStanding.StandingNarrows | crates/pipette-core/src/matching.rs:448-503 | listed, registered, approved, working and eligible never increase. |
| RosterStanding.StandingCounts | crates/pipette-core/src/matching.rs:460-496 | Over a fleet of distinct ids, registered, approved and working count the clients that are listed, listed and approved, and these with the right to perform work; listed counts distinct roster ids. |
| RosterStanding.ByIdIsLast | crates/pipette-core/src/matching.rs:461-464 | Of several clients with one id, the last stands for it. |
| RosterStanding.RosterBodyAgrees | crates/pipette-core/src/matching.rs:448-503 | For a job without `requires`, the roster-only body admits exactly the clients the whole body does, all of them listed. |
| RosterStanding.EligibleIsTheMatch | crates/pipette-core/src/matching.rs:448-503 | For every job without `requires`, over a fleet of distinct ids, the eligible count is the number of approved, permitted clients the whole body admits. |
| Versions.VersionFlagReadsBack | crates/pipette-core/src/client.rs:116-121 | A flag names a version exactly when it is the `client_version:` flag of that version. |
| Versions.AdmittedVersionsExact | crates/pipette-core/src/matching.rs:112-139 | The list is strictly ascending and holds exactly the non-empty reported versions the job admits as the client's only one. |
| Versions.AdmittedAloneIff | crates/pipette-core/src/matching.rs:127-133 | A build is admitted alone exactly when the client reports it, no negative clause names it with the other flags, and the positive clauses ask for no other build. |
| Versions.ListedIff | crates/pipette-core/src/matching.rs:112-139 | For every body and client, some build is listed exactly when the other flags meet what is required of them and a reported build suffices and is spared. |
| Versions.MatchIsMissedIff | crates/pipette-core/src/matching.rs:112-139 | The list is empty for a client that matches exactly when no build of it suffices: required versions all equal to it, and it in each group the other flags miss, or the id listed. |
| Versions.ListOverstatesIff | crates/pipette-core/src/matching.rs:85-139 | The list names builds for a client that does not match exactly when the negative clauses exclude it with all the builds it reports. |
| Versions.ListDecidesIff | crates/pipette-core/src/matching.rs:85-139 | For every body and client, the exact condition under which the list is non-empty if and only if the job matches. |
| Versions.ListedIffMatchAndSuffices | crates/pipette-core/src/matching.rs:112-139 | Where `excludes` and `not_all_of` name no version, a build is listed exactly when the client matches and a build of it suffices. |
| Versions.AdmittedVersionMatches | crates/pipette-core/src/matching.rs:112-139 | For such jobs, a version admitted alone means the client matches with all it reports. |
| Versions.VersionsDecideTheMatch | crates/pipette-core/src/matching.rs:112-139 | For a job naming versions in one `any_of` group only, and a client reporting a version and no empty one, the list is non-empty exactly when the job matches the client. |
| Versions.TwoGroupsAreMissed | crates/pipette-core/src/matching.rs:127-133 | With two version groups a client can match while no build alone is admitted. |
| Versions.BarredBuildIsOverstated | crates/pipette-core/src/matching.rs:127-133 | Barred from one of its two builds, a client does not match, and the other build is listed. |
| Edwards.CurveConstant | tools/sign.py:38-40 | D is reduced and is the field quotient -121665/121666. |
| Edwards.PrimeDigits | tools/sign.py:38 | The digits of 2^255 - 19. |
| Edwards.BaseOnCurve | tools/sign.py:41-43 | The base point is an extended point of the curve. |
| Edwards.FactorsMean | tools/sign.py:46-52 | The reduced intermediates of an addition are congruent to the polynomials of section 5.1.4 of RFC 8032. |
| Edwards.AddExtended | tools/sign.py:46-52 | Every sum satisfies X*Y = Z*T modulo P, whatever its inputs. |
| Edwards.AddOnCurve | tools/sign.py:46-52 | The curve equation is closed under addition, with no invertibility asked of any coordinate. |
| Edwards.AddRepresentsSum | tools/sign.py:46-52 | A sum of representations of two affine points represents the point the affine Edwards law gives, denominators cleared. |
| Edwards.AddReadsResidues | tools/sign.py:46-52 | An addition depends on its inputs only modulo P. |
| Edwards.AddBounded | tools/sign.py:46-52 | Though products are left unreduced, every coordinate of a sum is below 4*P*P in magnitude. |
| Ed25519.Mul | tools/sign.py:55-62 | The double-and-add loop computes the multiplication the lemmas below are about. |
| Ed25519.MulFromIsTimes | tools/sign.py:55-62 | From any state of the loop, the result represents the accumulator plus the remaining scalar times the point, in every abelian group the points represent. |
| Ed25519.MulIsTimes | tools/sign.py:55-62 | Multiplying by s is s-fold addition, for every s. |
| Ed25519.CurveGroupIsRepresented | tools/sign.py:46-62 | The curve's own group of affine points is such a group, represented by extended coordinates. |
| Ed25519.MulFromStays | tools/sign.py:55-62 | From any loop state on the curve, the result is an extended point of the curve with bounded coordinates. |
| Ed25519.MulBaseStays | tools/sign.py:55-62 | Any multiple of the base point is an extended point of the curve with bounded coordinates, however many additions it took. |
| Ed25519.CompressIsCanonical | tools/sign.py:65-68 | Every representation of an affine point whose Z the power P-2 inverts encodes to the same bytes. |
| Ed25519.InverseMeans | tools/sign.py:66 | The inverse is the power P-2 reduced, and inverts wherever the power P-1 is 1. |
| Ed25519.EncodeReadsBack | tools/sign.py:65-68 | The 32 bytes hold y in 255 bits and the parity of x in the top one. |
| Ed25519.ClampShape | tools/sign.py:71-74 | The clamped scalar is a multiple of 8 in [2^254, 2^255) that keeps bits 3 to 253. |
| Ed25519.OrderDigits | tools/sign.py:39 | The order is 2^252 and its tail. |
| Ed25519.SignatureMeans | tools/sign.py:71-91 | Key and signature from the hash alone: the scalar is the clamped low half of the seed's digest, the nonce hashes the high half and the message, and the response is r + h*a modulo Q for the h of both encodings and the message. |
| Ed25519.SignatureEquation | tools/sign.py:90 | Reducing r + h*a modulo Q keeps its multiple of the base: [S]B = [r]B + [h][a]B. |
| Ed25519.SignatureVerifies | tools/sign.py:77-91 | For every seed, message and hash, in every abelian group where [Q]B is zero: S is below Q, reads back from the signature, and [S]B = R + [h]A for the points the signature and public key encode. |
| Ed25519.SignatureVerifiesOnCurve | tools/sign.py:77-91 | The same in the curve's own group of affine points. |
| Ed25519.SignatureDecodes | tools/sign.py:65-91 | Where the power P-2 inverts the Z of every multiple of the base, R and A are affine points whose encodings the signature and public key are: the check of section 5.1.7 of RFC 8032. |
| Decoding.EncodeIsInjective | tools/sign.py:65-68 | On the curve, where P has no zero divisors, an encoding stands for one point modulo P. |
| Decoding.EveryReadingVerifies | tools/sign.py:65-91 | Whatever points of the curve's group a signature and its key are read as, the check holds over them. |
| Bits.AndBits | tools/sign.py:73 | Bit by bit meaning of the masking operator. |
| Bits.OrBits | tools/sign.py:68-73 | Bit by bit meaning of the merging operator. |
| Bits.MaskAndSet | tools/sign.py:73 | Masking to bits j up to k and setting bit k gives a multiple of 2^j in [2^k, 2^(k+1)). |
| Bits.BytesAscend | tools/sign.py:68-91 | Byte i of a number is its quotient by 256^i, modulo 256. |
| Bits.BytesRoundTrip | tools/sign.py:68-91 | A number that fits reads back from its little-endian bytes. |
| AgentWire.Reader.constructor | tools/sign.py:273-274 | The cursor starts at the buffer's first byte. |
| AgentWire.Reader.Skip | tools/sign.py:276-277 | Moves the cursor by n, past the end if need be. |
| AgentWire.Reader.ReadByte | tools/sign.py:279-281 | The next byte, or an error past the end; the cursor moves by one either way. |
| AgentWire.Reader.ReadUint32 | tools/sign.py:283-285 | The next four bytes, most significant first, or an error when they are not all there; the cursor moves by four either way. |
| AgentWire.Reader.ReadString | tools/sign.py:287-290 | The next length-prefixed string, cut at the buffer's end, and the cursor past its full length. |
| AgentWire.Reader.ReadStrings | tools/sign.py:161-162 | A run of strings read in turn, stopping at the first error. |
| AgentWire.PackUint32 | tools/sign.py:293-294 | Four bytes that read back to the length. |
| AgentWire.PackDescends | tools/sign.py:293-294 | The most significant byte comes first. |
| AgentWire.StringReadsBack | tools/sign.py:287-294 | An encoded string reads back wherever it lies in a buffer. |
| AgentWire.FrameReadsBack | tools/sign.py:283-294 | Reading a concatenation of encoded strings, anywhere in a buffer, gives the list back and stops at its end. |
| AgentWire.Reassemble | tools/sign.py:297-307 | The reply is a function of the bytes delivered before the close, however they were split into chunks. |
| AgentWire.ReplySettled | tools/sign.py:302-307 | Once a reply is complete, later bytes do not change it. |
| AgentWire.ReplyReadsBack | tools/sign.py:293-307 | A payload written as a string is the payload reassembled, whatever follows it. |
| AgentWire.ShortReplyRefused | tools/sign.py:302-306 | A reply cut short anywhere is an error, never a shorter payload. |
| CanonicalJson.SortKeysCanonical | crates/pipette-core/src/canonical_json.rs:29-46 | Keys are sorted at every depth, each key still occurs once, and the value is the same unordered tree with array order intact. |
| CanonicalJson.SameTreeSortsAlike | crates/pipette-core/src/canonical_json.rs:29-46 | Values that differ only in key order, at any depth, have one result. |
| CanonicalJson.SortsAlikeSameTree | crates/pipette-core/src/canonical_json.rs:29-46 | Values with one result differ only in key order. |
| CanonicalJson.SortKeysIdempotent | crates/pipette-core/src/canonical_json.rs:29-46 | Sorting a sorted value changes nothing. |
| Text.LeMeans | crates/pipette-core/src/canonical_json.rs:29-46 | The order of keys: where two strings first differ decides, and a string comes after its prefixes. |
| PlanLeases.NewReport | crates/pipette-core/src/plan.rs:783-818 | Each list holds exactly the holders on its side of the deadline, one per job, by client then job; a job's holder is its lease with the latest deadline, the first listed of those. |
| PlanLeases.Collapse | crates/pipette-core/src/plan.rs:791-803 | The fold keeps, for each job listed, the lease that holds it. |
| PlanLeases.Partition | crates/pipette-core/src/plan.rs:804-806 | Every job's lease goes to exactly the list its deadline says. |
| PlanLeases.HolderIsUnique | crates/pipette-core/src/plan.rs:783-790 | A job has one holder. |
| PlanLeases.ReportPlacesJobs | crates/pipette-core/src/plan.rs:783-790 | A job is in one list, and not the other, exactly when some lease names it; it is live exactly when some lease on it is past the reading. |
| PlanLeases.EntryIsLatest | crates/pipette-core/src/plan.rs:783-803 | An entry is a listed lease, and no lease on its job has a later deadline. |
| PlanLeases.ReportIsOrdered | crates/pipette-core/src/plan.rs:807-811 | Each list is in the order of client ids, and one client's leases in that of their job ids. |
| PlanLeases.ReportForgetsOrder | crates/pipette-core/src/plan.rs:783-818 | Without a tie at a job's latest deadline, listings of the same leases in any order, with any repeats, give one report. |
| PlanLeases.TiedLatestShows | crates/pipette-core/src/plan.rs:796-802 | With such a tie in any listing, some listing of the same leases has another holder. |
| PlanLeases.OrderNeverShowsIff | crates/pipette-core/src/plan.rs:783-818 | Every permutation of a listing gives its report exactly when no two unequal leases tie at a job's latest deadline. |
| PlanLeases.TiedLeasesShowOrder | crates/pipette-core/src/plan.rs:796-802 | The smallest case: of two tied leases, whichever is listed first holds. |
| Denials.SummarizeDenials | crates/pipette-core/src/denial.rs:113-177 | The summary is that of the one grouping of the denials, taken in client order, by reason. |
| Denials.CollectGroups | crates/pipette-core/src/denial.rs:117-136 | The fold holds the group of every key met, and no other. |
| Denials.KeyMeans | crates/pipette-core/src/denial.rs:117-136 | A denial is unreadable exactly when it has no record, without a reason exactly when its record shows none, and otherwise keyed by what it shows; if it was not cut, by all of it. |
| Denials.EntriesOf | crates/pipette-core/src/denial.rs:138 | The list holds each group of the map once, whatever the order it is walked in. |
| Denials.GroupingCoversEveryone | crates/pipette-core/src/denial.rs:117-136 | The sizes of the groups add up to the denials. |
| Denials.GroupingIsUnique | crates/pipette-core/src/denial.rs:138-144 | Size and key order the groups in one way only. |
| Denials.SplitEntries | crates/pipette-core/src/denial.rs:152-159 | The counting pass shows every reasonless group and the first five with a reason. |
| Denials.SummaryConserves | crates/pipette-core/src/denial.rs:98-177 | Shown group sizes and the hidden count add up to the denials, and five reason groups show, or all if fewer. |
| Denials.SummaryShows | crates/pipette-core/src/denial.rs:98-177 | A reasonless group always shows, shown groups are whole, and no hidden group is larger than a shown reason group. |
| Denials.SummaryIsOrdered | crates/pipette-core/src/denial.rs:138-144 | Groups show largest first; of one size, reasons by key, then unreadable, then without a reason. |
| Denials.GroupListsMembers | crates/pipette-core/src/denial.rs:206-214 | A group lists its members' ids in client order. |
| Denials.SummaryShowsLatest | crates/pipette-core/src/denial.rs:197-214 | A reason group shows the reason of a member no member's time is after, of the smallest client id at that time. |
| Denials.SummaryForgetsOrder | crates/pipette-core/src/denial.rs:113-177 | Denials of distinct clients have one summary, in any order. |
| Denials.CutFragmentDropped | crates/pipette-core/src/denial.rs:277-288 | Wherever in its line a cut fell, what is kept starts on the next line. |
| Denials.CutWordDropped | crates/pipette-core/src/denial.rs:277-288 | Of a cut reason of one line the first word is dropped, and of one word nothing. |
| Denials.CutCopiesShareGroup | crates/pipette-core/src/denial.rs:267-288 | Two copies of one log cut at different places of one line fall in one group, if the log shows anything after that line. |
| ReasonKey.KeyNeverLengthens | crates/pipette-core/src/denial.rs:316-339 | A key is never longer than its reason. |
| ReasonKey.KeyIdempotent | crates/pipette-core/src/denial.rs:316-339 | A key is its own key. |
| ReasonKey.ShortRunKept | crates/pipette-core/src/denial.rs:316-339 | A run of one to three digits that starts no address is kept. |
| ReasonKey.LongRunReplaced | crates/pipette-core/src/denial.rs:316-339 | A run of four or more digits becomes a hash. |
| ReasonKey.AddressReplaced | crates/pipette-core/src/denial.rs:290-339 | A hex address, its x in either case, becomes one placeholder. |
| Text.DigitsAre | crates/pipette-core/src/denial.rs:290-293 | The digits, and the hex digits in both cases. |
| ReasonKey.KeySplitsAtBreak | crates/pipette-core/src/denial.rs:316-339 | The key of a text, cut where the scan passes between tokens, is the key of the part before followed by the key of the part after. |
| ReasonKey.DeviceValueReplaced | crates/pipette-core/src/denial.rs:290-339 | Wherever the scan meets a hex address or a run of four or more digits, another of its kind gives the same key. |
| PreauthPrune.TargetsExact | crates/pipette-core/src/preauth_prune.rs:24-51 | A record goes exactly when it has expired, a marker exactly when no listed record of its key is consumable. |
| PreauthPrune.RunKeepsInv | crates/pipette-core/src/preauth_prune.rs:24-51 | The invariant behind the promises holds after every run of mints, ticks, revocations, consumers and any number of prunes, interleaved step by step. |
| PreauthPrune.OrphanedIff | crates/pipette-core/src/preauth_prune.rs:24-51 | In every reachable state, of the marked keys that can still be loaded, a prune orphans exactly those minted after it listed the records. |
| PreauthPrune.MarkerTakenIff | crates/pipette-core/src/preauth_prune.rs:27-51 | The same over a run from the listing of the records to that of the markers: exactly the keys not yet minted at the first. |
| PreauthPrune.SpentKeysStaySpent | crates/pipette-core/src/preauth_prune.rs:27-30 | In every reachable state a granted, loadable key is unmarked exactly when prunes that listed records before it was minted took as many of its markers as it had grants; without such a prune it is marked. |
| PreauthPrune.SingleUseIsGrantedOnce | crates/pipette-store-fs/src/auth/client_store.rs:181-219 | In every reachable state grants are the markers taken plus the one there; no key is granted twice unless its marker was taken by such a prune, or while a consumer that had loaded it was yet to claim it. |
| PreauthRuns.GrantableIff | crates/pipette-store-fs/src/auth/client_store.rs:181-219 | From any reachable state some run grants a minted key, for the first time or again, exactly when a consumer holds it loaded or its record can be loaded. |
| PreauthRuns.ExpiredIsNeverLoaded | crates/pipette-core/src/client_preauth.rs:143-146 | A key whose expiry has passed is loaded by nobody, then or after any run. |
| PreauthRuns.UnexpiredIsLoadable | crates/pipette-core/src/client_preauth.rs:143-146 | One whose expiry has not passed can be. |
| PreauthRuns.MultiUseIsNeverSpent | crates/pipette-store-fs/src/auth/client_store.rs:201-216 | No run holds, grants or marks a multi-use key. |
| PreauthRuns.RecordsGoFirst | crates/pipette-mgmt/src/bin/pipette-mgmt.rs:5889-5903 | A prune takes a marker only once the key's record is gone, unless the key was minted after it listed the records. |
| PreauthRuns.SecondGrantHasCause | crates/pipette-store-fs/src/auth/preauth_layout.rs:71-88 | When a claim grants a key again, one of the two causes has happened to that key. |
| PreauthRuns.WindowMintLosesMarker | crates/pipette-core/src/preauth_prune.rs:27-30 | A run in which a key minted between the listings loses its marker. |
| PreauthRuns.RacedClaimGrantsTwice | crates/pipette-store-fs/src/auth/client_store.rs:189-213 | A run in which a late claim is granted again. |
| QueueKeys.ExpiryReadsBack | crates/pipette-plan-types/src/ids.rs:312-337 | A deadline reads back from its text, which holds no separator. |
| QueueKeys.IdAlphabets | crates/pipette-plan-types/src/ids.rs:244-260 | The characters queue ids and client ids are written in. |
| QueueKeys.AvailReadsBack | crates/pipette-core/src/todo_filename.rs:9-83 | Both layouts of an available job's name read back to the job and deadline. |
| QueueKeys.AvailOwnJob | crates/pipette-core/src/todo_filename.rs:9-15 | An available name starts with a job's id and a slash, or in the earlier layout a dot, exactly for its own job, and ends in `.json`. |
| QueueKeys.LayoutsAreDisjoint | crates/pipette-core/src/todo_filename.rs:45-83 | No name is accepted by both parsers, whatever the timestamp parser accepts. |
| QueueKeys.DeadlineMarkerReadsBack | crates/pipette-core/src/todo_filename.rs:85-130 | An eligible marker reads back to its job and deadline, and a job-plan marker, which has the same form and id alphabet, to its plan and deadline. |
| QueueKeys.MarkersOwnId | crates/pipette-core/src/todo_filename.rs:85-130 | Markers start with an id and a dot exactly for their own id. |
| QueueKeys.DeniedReadsBack | crates/pipette-core/src/todo_filename.rs:132-155 | A denied marker reads back, and starts with a job's prefix exactly when it is that job's. |
| QueueKeys.LeasedReadsBack | crates/pipette-core/src/todo_filename.rs:173-233 | A lease key reads back to all four fields. |
| QueueKeys.LeasedOwnClient | crates/pipette-core/src/todo_filename.rs:173-192 | A lease key starts with a client's segment exactly for its own client, and within it with a job's prefix exactly for its own job. |
| QueueKeys.LostLeaseReadsBack | crates/pipette-core/src/todo_filename.rs:235-253 | A lost-lease marker reads back. |
| QueueKeys.StampReadsBack | crates/pipette-plan-types/src/ids.rs:312-337 | The compact form of a valid instant reads back, and holds no separator. |
| QueueKeys.StampFields | crates/pipette-plan-types/src/ids.rs:312-320 | Which digits are the year, month, day, hour, minute and second. |
| QueueKeys.CompactIsLawful | crates/pipette-plan-types/src/ids.rs:312-337 | Whole-second instants of four-digit years read back from the compact form. |
| RustLexer.BlankCommentsAndLiterals | ci/checks/plan-types-layering.py:52-103 | The scan ends on every input, and blanks in place exactly the characters inside the comments and literals it recognises. |
| RustLexer.Blank | ci/checks/plan-types-layering.py:57-60 | A range is blanked in place up to the end of the text, newlines kept. |
| RustLexer.ScanBlock | ci/checks/plan-types-layering.py:79-87 | The depth-counting loop finds where a block comment closes. |
| RustLexer.ScanString | ci/checks/plan-types-layering.py:91-95 | The escape-skipping loop finds where a string closes. |
| RustLexer.Blanked | ci/checks/plan-types-layering.py:52-103 | Same length, newlines at the same offsets, and every other character unchanged, or a space inside a token. |
| RustLexer.NothingLeft | ci/checks/plan-types-layering.py:52-103 | No comment and no literal starts anywhere in the result. |
| RustLexer.BlankedIdempotent | ci/checks/plan-types-layering.py:52-103 | Blanking twice is blanking once. |
| RustGrammar.BlockCommentIsOneToken | ci/checks/plan-types-layering.py:79-87 | A block comment nested to any depth, anywhere in a file, is taken whole and no further. |
| RustGrammar.StringIsOneToken | ci/checks/plan-types-layering.py:91-95 | A string literal with any escapes is taken whole and no further. |
| RustGrammar.RawStringIsOneToken | ci/checks/plan-types-layering.py:36-37 | A raw string, byte or not, with any number of hashes, is taken whole and no further. |
| RustFile.CharIsOneToken | ci/checks/plan-types-layering.py:38-39 | A char or byte literal, plain or with any escape, is taken whole and no further. |
| RustFile.LineCommentIsOneToken | ci/checks/plan-types-layering.py:76-78 | A line comment is taken up to its newline or the end of the file. |
| RustFile.CodeStartsNothing | ci/checks/plan-types-layering.py:62-100 | A lone slash, a lifetime's quote, a prefix letter no literal follows or that continues a name, and every other character but a double quote start no token. |
| RustFile.FileIsBlankedExactly | ci/checks/plan-types-layering.py:52-103 | Of a whole file written as code, comments and literals, the scan blanks exactly the comments and literals, keeping newlines. |
| ProductionCode.ItemEnd | ci/checks/plan-types-layering.py:112-134 | The loop finds the end the lemmas below are about. |
| ProductionCode.BlockClose | ci/checks/plan-types-layering.py:125-132 | The depth-counting loop finds where an opening brace is closed. |
| ProductionCode.BlankGated | ci/checks/plan-types-layering.py:110-138 | Exactly the gated items are blanked, newlines kept, everything else unchanged. |
| ProductionCode.BodiedItemEnds | ci/checks/plan-types-layering.py:113-133 | An item with a body ends at the brace closing it, however its header and body nest. |
| ProductionCode.PlainItemEnds | ci/checks/plan-types-layering.py:113-124 | An item without a body ends at its semicolon, whatever its parentheses hold. |

## Left out

- Associativity of Edwards addition, that Z never vanishes, the order of the base point and the primality of P: hypotheses of the signing and decoding lemmas.
- SHA-512, base64, key files, sockets and request headers of `tools/sign.py`: I/O and library calls.
- Timestamp stripping, reason display, and the wording of the denial summary and of ladder labels: text detail; the summary is modelled as groups and counts, and labels as clause names.
- The in-place update of a denial group inside its map: `ReasonGroup` is a value with no other reference to it, so the map's entry is replaced.
- The order a `BTreeMap` is walked in: both lists and the group list are sorted afterwards by an order without ties, so it never shows.
- chrono's lenient reading of timestamps: the queue-key lemmas hold for any reader that accepts what is written.
- Listings that overlap other store calls: each listing is one step of the prune model.
- Files that end inside an unclosed comment or literal are outside `RustFile`'s grammar; the lemmas of `RustLexer` cover them.
- The storage backends beyond loading, claiming and deleting a pre-auth key, and multi-use keys, which are never marked spent.
- Finding `#[cfg(test)]` gates, and the import references read from the blanked text: regular expressions and lookups; gates are a parameter.
- Other records, campaigns, datasets, HTTP handlers and the UI: field checks and wiring that would add only easy members.
