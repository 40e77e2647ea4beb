# S3A coordinator and tile proofs: a Dafny model

This project models the stateful and the arithmetic core of the S3A repository and proves what it
is relied on for: the coordinator that reviews, budgets and claims agent work, the in-memory
filesystem the agents work on, the inclusion proofs over tile records, the signed envelopes, the
verb vocabulary that guards the provenance trace, and the tournament rehearsal engine.

## Layout

| file | what it models |
|---|---|
| `Prelude.dfy`, `Text.dfy` | shared types; trimming, case folding, substring search, split and join |
| `Hex.dfy`, `Envelopes.dfy` | hex coding; commit, approval and resolution envelopes, their decoders, and the array-writing code |
| `Merkle.dfy`, `RecordProofs.dfy` | RFC 6962 tree hash, audit path and the iterative verifier; `prove` and `verify` over the records of a tile |
| `Paths.dfy`, `FsTree.dfy`, `MemoryFS.dfy` | path normalisation; the filesystem operations on a store, its tree invariant and its abstract tree; the class that updates a keyed map in place |
| `Tasks.dfy`, `ChangeRequests.dfy`, `Ledger.dfy`, `Operations.dfy` | the four parts of the coordinator's store and the step each handler takes |
| `ReviewEffects.dfy` | what each review step does, on the fields of change requests and tasks |
| `Supervisors.dfy`, `Commits.dfy` | how keys and SHAs may be spelled, and what the handlers' comparisons make of it |
| `Coordinator.dfy`, `ReviewRuns.dfy` | all of it as one state machine, with theorems over every run |
| `RepoCoordinator.dfy` | the durable object: a class with storage keys as fields and a method per handler, each proved to perform its step |
| `Vocabulary.dfy` | resolver tables, actor classes, validator, append-only trace |
| `Tournament.dfy` | single-elimination fixtures, the first Swiss round, result recording, Buchholz scores, standings |

Code that updates state in place is a class or a method with loops, proved equal to a specification
function; the properties are lemmas about those functions and about runs of them.

## How to read the model

- Handlers are atomic steps on the store. The clock, the day number, generated ids and the outcome of
  admin authentication are parameters. Ed25519 verification is any predicate over a key, a message
  and a signature; the model builds the message and decodes key and signature.
- The hash is any function to 32 bytes. Such a function always has collisions, so the soundness
  results name the finite set of byte strings that building one tree and checking one proof hash,
  and require that the hash does not collide on those.
- Storage listings come in an arbitrary order; no result depends on it.
- Change requests arrive as `AgentTask.ts` builds them, pending and without approvals, and new
  tasks and operations bring ids not in use. These two assumptions are spelled out as
  `Coordinator.Orderly`. Theorems about supervisor keys assume that the configured keys are 64
  hexadecimal digits (`Supervisors.WellConfigured`), as those in the code are. Everything else, such as repeated claims, approvals of rejected change
  requests, or QA reports after a merge, may happen in any order.
- An empty text field of a claim or an update counts as a missing one, as in the code.
- Money is a real number of dollars.

## Where the code differs from what it seems to promise

Each item has a theorem saying exactly when the intended property holds.

- `MemoryFS` mutates before it checks. Writing over a non-empty directory, over the root, or below a
  file, making a directory below a file, and removing an empty root leave the map and the child lists in
  disagreement; every other call keeps them together (`FsTree.StepKeepsTreeIffSafe`,
  `FsTree.RunKeepsTreeIffSafe`). Writing over an empty directory is harmless.
- The daily reset never fires from an empty store: `ledger_last_reset_day` is written only inside the
  branch that needs it to exist (`RepoCoordinator.ts:305-313`; `Coordinator.NoDayResetsTheLedger`).
- With a repeated task id, the drain of the deferred queue reaches only the first of the tasks
  (`Ledger.DrainLeavesNoneDeferredIff`). With a reused operation id the operation indexes disagree
  (`Operations.SaveAgreesIff`, `Operations.ClaimAgreesIff`).
- A high-risk change request can be approved by one supervisor key. A key is allowed by its trimmed,
  lower-case form, but the second signature is compared untrimmed, and decoding drops a lone blank
  at the end: the first request sent again with a blank behind its key is the second approval, with
  the same signature (`Supervisors.OneKeySignsTwice`). Repetitions are always noticed exactly for keys
  of the two supervisors known by name (`Supervisors.RepeatsAreNoticedIff`). If requests give their keys
  without blanks, there are always two keys (`ReviewRuns.HighRiskNeedsTwoKeys`).
- Approving compares SHAs as they are written, the barrier trimmed and in lower case, and approving does
  not ask whether the barrier was passed: a commit approved as "ab" for one task can be merged as "AB" for
  another (`Commits.CapitalsAreMerged`). `Commits.ApprovalKeepsTrulyDifferentIff` says when that does not
  happen; with SHAs submitted trimmed and in lower case it never does
  (`ReviewRuns.ApprovedCommitsDifferOnPlainRuns`, `ReviewRuns.NoPlainCommitIsMergedTwice`).
- An operation that a later one has superseded can still be updated. If the update leaves it open, its
  task has two open operations; if it closes it, the open one is no longer in the task's index entry,
  and a later claim can open a second (`Operations.LateReport`). `Operations.UpdateKeepsOneOpenIff`,
  `Operations.ClaimKeepsOneOpenIff` and `Coordinator.RunKeepsOneOpenIff` say exactly when.
- An agent that claims without an idempotency key and without naming a task gets one task in this way and
  then, for ever, the same operation (`Operations.AnyTaskIsGivenOnce`, `Coordinator.AgentsGetOneUnnamedTask`).
  Naming tasks it can claim one after the other (`Coordinator.AgentsClaimTaskByTask`), unless agents have
  underscores in their ids: "x" of "y_z" repeats the claim of "x_y" of "z" (`Operations.SharedKeyRepeatsIff`).
- A proof document checked without an expected root vouches for nothing but itself
  (`RecordProofs.UnanchoredAcceptsAnything`, `RecordProofs.UnanchoredIff`).
- A submission is stored with the status and the approvals it brings along: one that calls itself
  approved and passes the barrier is approved (`ChangeRequests.SelfApprovedIsApproved`,
  `ChangeRequests.SubmitKeepsIff`).
- A submission may take over the id of a stored change request. If that was the last one to hold a merged
  commit, the commit can be merged for a second task (`Coordinator.ForgottenCommitIsMergedTwice`,
  `Coordinator.StepHoldsIff`).
- The first Swiss round cannot be drawn for an odd number of teams (`Tournament.GenerateSwissRoundOne`).
- A commit envelope does not check the length of hashes: an over-long one is overwritten by what
  follows, and a short one is filled up with what was left there or with zeros, so different hashes
  can share an envelope
  (`Envelopes.CommitEnvelopeKernel`, `Envelopes.ShortSealsAgreeIff`).
- An approval or resolution envelope whose id contains a zero byte is also the envelope of another id
  (`Envelopes.ApproveRoundTrip`, `Envelopes.ZeroByteIsAmbiguous`).
- Human and AI actors overlap although the comment above `isHumanActor` calls them disjoint
  (`Vocabulary.HumanAndAgentOverlap`, `Vocabulary.OverlapIff`). The validator is safe because it tests both.
- The labels "created" and "asked" do not come back from their IRIs, because "imported" and
  "requested-human-review" claim those first (`Vocabulary.CreatedDoesNotRoundTrip`,
  `Vocabulary.AskedDoesNotRoundTrip`, `Vocabulary.LabelRoundTripIff`).
- A single-elimination bracket has one match fewer than teams exactly for powers of two from two on;
  an odd number of teams draws the middle one against itself (`Tournament.BracketSizeIff`,
  `Tournament.SelfPairIff`).

## Model

| member | source | states |
|---|---|---|
| Hex.HexToBytesLoop | cloudflare/src/crypto.ts:6-15 | the two-character loop into a fixed array gives `parseInt` of every pair after an optional `0x`; a lone last character is lost |
| Hex.DecodeOfEncode | cloudflare/src/crypto.ts:6-21 | for any byte string the encoding is canonical lower-case hex, and the lenient and the strict decoder both give the bytes back |
| Hex.StrictAgreesWithLenient | cloudflare/src/crypto.ts:6-21 | where strict decoding succeeds the lenient decoder agrees, and encoding again only lowers the case |
| Hex.EncodeOfDecode | cloudflare/src/crypto.ts:6-21 | decoding then encoding gives a text back if and only if it is canonical |
| Hex.PrefixIsIgnored | cloudflare/src/crypto.ts:6-21 | the encoding of any bytes decodes to them with `0x` in front |
| Hex.LenientPair | cloudflare/src/crypto.ts:11-13 | what `parseInt` makes of two characters that are not both digits: one digit counts alone before something else and behind a blank or a plus, behind a minus it is taken from 256, and without a number there is a zero byte |
| Envelopes.CommitRoundTrip | cloudflare/src/crypto.ts:23-53 | every signed field can be read back from a commit envelope, for hashes of any length |
| Envelopes.CommitEnvelopeKernel | cloudflare/src/crypto.ts:23-53 | two commits have one envelope if and only if they agree on what is left of their hashes at the three 32-byte places, on parent count modulo 256, timestamp modulo 2^64 and the first 256 message bytes |
| Envelopes.ShortSealsAgreeIff | cloudflare/src/crypto.ts:36-45 | a seal hash of at most 32 bytes shares its place with a longer one if and only if that one only adds zero bytes |
| Envelopes.FittingCommitsAreInjective | cloudflare/src/crypto.ts:23-53 | for 32-byte hashes and values that fit their fields equal envelopes mean equal commits |
| Envelopes.MissingCountIsOne | cloudflare/src/crypto.ts:23-53 | a commit without a parent count has the envelope of one with count 1 |
| Envelopes.MissingParentIsZero | cloudflare/src/crypto.ts:27-32 | a missing or empty parent hash is 32 zero bytes, whatever stands before it |
| Envelopes.LowestByteFirst | cloudflare/src/crypto.ts:34-36 | the lowest byte of a timestamp comes first, and one below 256 is followed by zero bytes |
| Envelopes.EnvelopesStart | cloudflare/src/crypto.ts:24-52 | the three kinds start with S3ACOMMIT1, S3ACR_APPROVE1 and S3AVCS_RES1, and a resolution goes on with 1 for the target and 2 for the source |
| Envelopes.ComputeCommitEnvelope | cloudflare/src/crypto.ts:23-53 | the overlapping writes at fixed offsets fail exactly if a hash overruns the whole envelope, and otherwise give that layout |
| Envelopes.ComputeApproveEnvelope | cloudflare/src/do/RepoCoordinator.ts:2218-2233 | the approval code writes magic, little-endian time, id, zero byte, rationale, and fills its array exactly |
| Envelopes.ComputeResolveEnvelope | cloudflare/src/do/RepoCoordinator.ts:4434-4450 | the same for conflict resolutions, with the choice byte |
| Envelopes.ApproveRoundTrip | cloudflare/src/do/RepoCoordinator.ts:2218-2233 | an approval envelope reads back as what was approved if and only if the id has no zero byte |
| Envelopes.ResolveRoundTrip | cloudflare/src/do/RepoCoordinator.ts:4434-4450 | the same for resolution envelopes |
| Envelopes.ApproveInjective | cloudflare/src/do/RepoCoordinator.ts:2218-2233 | without zero bytes in ids one approval envelope stands for one id, rationale and time |
| Envelopes.ResolveInjective | cloudflare/src/do/RepoCoordinator.ts:4434-4450 | the same for resolutions, including which side was chosen |
| Envelopes.ZeroByteIsAmbiguous | cloudflare/src/do/RepoCoordinator.ts:2218-2233 | every id with a zero byte shares its envelope with the id cut there |
| Envelopes.KindsAreDisjoint | cloudflare/src/crypto.ts:23-53 | no byte string is an envelope of two of the three kinds |
| Merkle.Split | crates/s3a-edge/src/merkle.rs:35-41 | doubling finds the one power of two below the size and at least half of it |
| Merkle.RootMeans | crates/s3a-edge/src/merkle.rs:20-57 | in terms of the hash: of no record the hash of nothing, of one the hash of a zero byte and the record, and of more the hash of a one byte and the roots of the records up to and from the largest power of two below their number |
| Merkle.ReversePrefix | crates/s3a-edge/src/merkle.rs:78-107 | the in-place reversal at the end of the proof walk reverses the collected part and leaves the rest of the buffer alone |
| Merkle.InclusionProof | crates/s3a-edge/src/merkle.rs:78-107 | the walk from the top fills the buffer with PATH of section 2.1.1 of RFC 6962, and fails exactly on an index out of range or a buffer too short |
| Merkle.VerifyInclusion | crates/s3a-edge/src/merkle.rs:129-160 | the bit-shifting verifier accepts if and only if the proof has the length of the leaf's path and following the recursive tree with it gives the root |
| Merkle.ClimbLeft | crates/s3a-edge/src/merkle.rs:129-160 | in the left perfect subtree the shifting loop does the subtree's own steps and then meets the last sibling from the left |
| Merkle.ClimbRight | crates/s3a-edge/src/merkle.rs:129-160 | in the right subtree positions only lack the top bit, so the loop is the subtree's own, then the last sibling |
| Merkle.ClimbIsExact | crates/s3a-edge/src/merkle.rs:129-160 | the loop succeeds exactly on paths of the right length and computes the root the recursive definition gives |
| Merkle.PathLengthBound | crates/s3a-edge/src/merkle.rs:13-13 | in a tree of at most 2^c leaves no path is longer than c |
| Merkle.PathLeadsToRoot | crates/s3a-edge/src/merkle.rs:78-107 | the genuine audit path leads from every leaf to the tree hash |
| Merkle.SoundAndComplete | crates/s3a-edge/src/merkle.rs:129-160 | unless the hash collides among the inputs of this tree and this check, a proof is accepted against the genuine root and size if and only if the index is in range, the record is the one there and the path is the genuine one |
| Merkle.PathToRootIsGenuine | crates/s3a-edge/src/merkle.rs:44-57 | under that condition only the genuine record and path lead to the root |
| Merkle.MembershipSoundness | crates/s3a-edge/src/merkle.rs:20-33 | under that condition, whatever index and size are claimed, acceptance means the record is one of the leaves; this is what separating leaf and node hashing buys |
| RecordProofs.RootOfTile | crates/s3a-cli/src/proof_cli.rs:26-50 | a tile has a record root if and only if its payload splits into equal non-empty records, and it is the RFC 6962 root of those records |
| RecordProofs.LeavesMakePayload | crates/s3a-cli/src/proof_cli.rs:26-40 | the leaves of a tile are as many as its header says, of equal length, and make up its used payload one behind the other |
| RecordProofs.TileRefusals | crates/s3a-cli/src/proof_cli.rs:26-50 | which tiles have no root, and with which error |
| RecordProofs.DocumentCarriesRecord | crates/s3a-cli/src/proof_cli.rs:71-92 | the document for record i carries the i-th slice of the payload and the tile's root, in hex, and names scheme, tile, index and count |
| RecordProofs.Prove | crates/s3a-cli/src/proof_cli.rs:71-92 | which error comes first, and otherwise the genuine proof document; the 64-hash buffer always suffices |
| RecordProofs.Verify | crates/s3a-cli/src/proof_cli.rs:95-124 | format errors in the order of the checks, a foreign root as a refusal, and otherwise acceptance in the sense of RFC 6962 |
| RecordProofs.DocumentRefusals | crates/s3a-cli/src/proof_cli.rs:95-116 | scheme, record digits, root digits, root length, root other than the expected one, first bad path entry: each is the answer if everything before it is in order |
| RecordProofs.UnanchoredIff | crates/s3a-cli/src/proof_cli.rs:95-124 | acceptance without an expected root is acceptance against the tile's root if and only if the document names that root |
| RecordProofs.UnanchoredAcceptsAnything | crates/s3a-cli/src/proof_cli.rs:95-124 | for any bytes there is a document accepted without an expected root |
| RecordProofs.Completeness | crates/s3a-cli/src/proof_cli.rs:71-124 | for every tile that splits and every index, what `prove` makes verifies against the tile's own root, with at most ceil(log2 count) hashes |
| RecordProofs.TileSoundness | crates/s3a-cli/src/proof_cli.rs:95-124 | unless the hash collides among the inputs of this tile and this check, a document is accepted against the tile's root and size if and only if it is well formed and carries the record at an index in range, the tile's root and the genuine path |
| RecordProofs.TileMembership | crates/s3a-cli/src/proof_cli.rs:95-124 | under that condition acceptance, even with a false index or size, vouches only for the tile's own records |
| Paths.Normalize | cloudflare/src/memory-fs.ts:72-83 | the stack loop returns the canonical string of the names left after following the parts from left to right |
| Paths.Parent | cloudflare/src/memory-fs.ts:85-91 | the canonical string of all names but the last |
| Paths.Basename | cloudflare/src/memory-fs.ts:93-95 | the last name, empty for the root |
| Paths.CanonSplits | cloudflare/src/memory-fs.ts:72-83 | splitting a canonical string gives its names back, so canonical strings and paths correspond one to one |
| Paths.NormalizeIdempotent | cloudflare/src/memory-fs.ts:72-83 | normalising twice is normalising once |
| Paths.SegmentsArePaths | cloudflare/src/memory-fs.ts:72-83 | for every input only proper names are left: not empty, not dots, no slash |
| Paths.ParentAndBasename | cloudflare/src/memory-fs.ts:85-95 | parent and base name joined by a slash are the normalised path |
| Paths.SuffixIsFollowed | cloudflare/src/memory-fs.ts:72-83 | a suffix is followed from where the prefix leads |
| Paths.DotsAndNames | cloudflare/src/memory-fs.ts:72-83 | "." changes nothing, a name goes down one level, ".." undoes the name before it |
| Paths.SlashesAndRoot | cloudflare/src/memory-fs.ts:72-83 | a slash at the end and a doubled slash anywhere change nothing, and ".." at the root stays there |
| FsTree.RemoveIsExact | cloudflare/src/memory-fs.ts:164-182 | deleting a child name removes it and nothing else from a duplicate-free list |
| FsTree.MkdirSafety | cloudflare/src/memory-fs.ts:113-134 | `mkdir` keeps map and child lists one tree if and only if nothing it creates would hang from a file |
| FsTree.WriteSafety | cloudflare/src/memory-fs.ts:136-153 | `writeFile` keeps the tree if and only if the target is not the root, is below no file and is no directory with children; it then succeeds |
| FsTree.UnlinkSafety | cloudflare/src/memory-fs.ts:164-170 | `unlink` always keeps the tree, and succeeds exactly on files |
| FsTree.RmdirSafety | cloudflare/src/memory-fs.ts:176-182 | `rmdir` keeps the tree except on an empty root; otherwise it succeeds exactly on empty directories |
| FsTree.StepKeepsTreeIffSafe | cloudflare/src/memory-fs.ts:113-182 | the same, for every call on every path string |
| FsTree.RunKeepsTreeIffSafe | cloudflare/src/memory-fs.ts:113-182 | over any run every intermediate store is a tree if and only if every call is safe |
| FsTree.EmptyIsTree | cloudflare/src/memory-fs.ts:57-59 | the initial store is a tree |
| FsTree.StepRefines | cloudflare/src/memory-fs.ts:113-182 | on an abstract tree of folders and contents: `mkdir` adds exactly the missing ancestors, `writeFile` these and the contents, the removals one leaf |
| FsTree.WithFoldersExactly | cloudflare/src/memory-fs.ts:113-134 | in a tree, after a recursive `mkdir` exactly the old entries, the target and its ancestors are there; the old ones are unchanged and the new ones directories |
| FsTree.ReadAfterWrite | cloudflare/src/memory-fs.ts:136-162 | a read after a write returns the bytes written; every other path reads as before, new ancestor directories aside |
| FsTree.ReadDirMeans | cloudflare/src/memory-fs.ts:172-174 | in a tree, `readdir` answers ENOENT exactly if nothing is stored, ENOTDIR exactly on a file, and otherwise with the names, without duplicates, that have an entry below |
| FsTree.FailuresMean | cloudflare/src/memory-fs.ts:97-182 | every failure of every call, and that of `mkdir`, told apart by what is stored at the path |
| FsTree.NewNameComesLast | cloudflare/src/memory-fs.ts:113-153 | a new file or directory comes last in its parent's listing, behind the old names in their order |
| FsTree.GoneNameLeavesOrder | cloudflare/src/memory-fs.ts:164-182 | a removed one leaves the other names in their order |
| FsTree.WalkReachesEachEntryOnce | cloudflare/src/memory-fs.ts:172-174 | walking what `readdir` answers, from "/" on, reaches every stored entry exactly once |
| MemoryFS.MemoryFS.constructor | cloudflare/src/memory-fs.ts:57-59 | a new filesystem holds the root alone |
| MemoryFS.MemoryFS.MakeDirectory | cloudflare/src/memory-fs.ts:113-134 | outcome and new view are those of the specification, failing calls included; the recursion ends with the path |
| MemoryFS.MemoryFS.Write | cloudflare/src/memory-fs.ts:136-153 | the same for `writeFile` |
| MemoryFS.MemoryFS.Read | cloudflare/src/memory-fs.ts:155-162 | the same for `readFile` |
| MemoryFS.MemoryFS.Delete | cloudflare/src/memory-fs.ts:164-170 | the same for `unlink` |
| MemoryFS.MemoryFS.List | cloudflare/src/memory-fs.ts:172-174 | the same for `readdir` |
| MemoryFS.MemoryFS.RemoveDirectory | cloudflare/src/memory-fs.ts:176-182 | the same for `rmdir` |
| ChangeRequests.QualityMeans | cloudflare/src/do/RepoCoordinator.ts:1952-2006 | the barrier passes if and only if build, QA, commit and diff are in order and every other change request with the commit has the same task and is not older |
| ChangeRequests.FailedTestsNeverPass | cloudflare/src/do/RepoCoordinator.ts:1952-1972 | the barrier refuses on account of the build if and only if the build failed, the test report says not passed, or its test exit code, or exit code where that is missing, is not zero |
| ChangeRequests.IncompleteNeverPasses | cloudflare/src/do/RepoCoordinator.ts:1975-2005 | nothing passes with a failed QA status or report, an empty, blank or placeholder diff, or a commit that is missing, blank or "not run" |
| ChangeRequests.CompletePassesIff | cloudflare/src/do/RepoCoordinator.ts:1952-2006 | what has none of these is refused if and only if its commit, blanks and case aside, is that of a change request of another task or an older one, and then for that reason |
| ChangeRequests.QualityIgnoresReview | cloudflare/src/do/RepoCoordinator.ts:1952-2006 | the verdict does not depend on any review status or approval, so sweeping in place is safe |
| RepoCoordinator.VerifyCrQuality | cloudflare/src/do/RepoCoordinator.ts:1952-2006 | the early-exit loop, over any listing order, gives the verdict stated without order |
| ChangeRequests.SweepStep | cloudflare/src/do/RepoCoordinator.ts:2026-2064 | visiting one more change request completes the order-free sweep by just that one |
| RepoCoordinator.RepoCoordinator.SanitizeAndVerifyCrs | cloudflare/src/do/RepoCoordinator.ts:2008-2071 | the in-place loop has the same result for every listing order |
| ReviewEffects.SweepEffects | cloudflare/src/do/RepoCoordinator.ts:2008-2071 | exactly the change requests under review that fail the barrier are marked, and exactly the tasks in review for one of them, first of their id, are open again without claim and change request |
| ReviewEffects.LetGoCanBeClaimed | cloudflare/src/do/RepoCoordinator.ts:2008-2071 | a task let go can be claimed by a request with a new key, unless claiming is paused or it has a live operation |
| ChangeRequests.SweepIsIdempotent | cloudflare/src/do/RepoCoordinator.ts:2008-2071 | after a sweep everything still under review passes the barrier against the whole store, and a second sweep changes nothing |
| ChangeRequests.SurvivorsOwnTheirCommits | cloudflare/src/do/RepoCoordinator.ts:2008-2071 | all change requests with a survivor's commit, trimmed and in any case, have its task and are not older |
| RepoCoordinator.RepoCoordinator.HandleSubmitCr | cloudflare/src/do/RepoCoordinator.ts:2073-2174 | the handler performs the submit step |
| ReviewEffects.SubmitEffects | cloudflare/src/do/RepoCoordinator.ts:2073-2143 | a submission that fails the barrier is stored as failed and touches no task; one that passes takes over its task's tags, is of high risk if they ask for a design, and the first task of its id is in review for it |
| RepoCoordinator.RepoCoordinator.IsCommitTaken | cloudflare/src/do/RepoCoordinator.ts:2262-2279 | the search loop decides whether another task's change request has the commit |
| RepoCoordinator.RepoCoordinator.HandleApproveCr | cloudflare/src/do/RepoCoordinator.ts:2184-2446 | the handler performs the approve step: refusals in order, the block, the first and the second signature, the merge |
| ChangeRequests.HighRiskMeans | cloudflare/src/do/RepoCoordinator.ts:2310-2310 | high risk is: risk level high, the flag, a tag needs-page or needs-logic, or one of six words, in any case, in the title or a touched file, and nothing else |
| ReviewEffects.ApproveRefusals | cloudflare/src/do/RepoCoordinator.ts:2184-2260 | which request is turned away on which ground: key, admin, change request, signature; nothing changes then |
| ReviewEffects.ApproveBlocksIff | cloudflare/src/do/RepoCoordinator.ts:2262-2305 | one that is not is blocked if and only if the recorded test exit code, or else the exit code, is not zero or another task's change request has the very SHA; the change request is then failed |
| ReviewEffects.ApproveRecords | cloudflare/src/do/RepoCoordinator.ts:2309-2394 | at high risk the first approval is recorded and waited with, one taken for the same person's changes nothing, another one is recorded and merges; otherwise none is recorded |
| ReviewEffects.ApproveMerges | cloudflare/src/do/RepoCoordinator.ts:2387-2394 | merging approves the change request, marks the first task of its id as merged, and changes nothing else |
| ReviewEffects.OneRequestMerges | cloudflare/src/do/RepoCoordinator.ts:2184-2394 | one valid request merges a change request whose tests and commit are in order and that none of its fields calls sensitive |
| RepoCoordinator.RepoCoordinator.HandleRejectCr | cloudflare/src/do/RepoCoordinator.ts:2448-2515 | the handler performs the reject step |
| ReviewEffects.RejectEffects | cloudflare/src/do/RepoCoordinator.ts:2448-2515 | an admin's rejection opens the first task of the id, without its claim and with its change request, and changes no other |
| RepoCoordinator.RepoCoordinator.HandleRequestChangesCr | cloudflare/src/do/RepoCoordinator.ts:2551-2624 | the handler performs the request-changes step |
| ReviewEffects.RequestChangesEffects | cloudflare/src/do/RepoCoordinator.ts:2551-2624 | an admin's request for changes marks change request and first task of the id, and nothing else |
| RepoCoordinator.RepoCoordinator.HandleQaReport | cloudflare/src/do/RepoCoordinator.ts:2626-2710 | the handler performs the QA step, with its bug task |
| ReviewEffects.QaEffects | cloudflare/src/do/RepoCoordinator.ts:2626-2710 | once a report of failure is on record the change request never passes the barrier; such a report puts an open bug task in front |
| RepoCoordinator.RepoCoordinator.HandleCreateTask | cloudflare/src/do/RepoCoordinator.ts:2517-2549 | the handler puts an open task in front of the list |
| RepoCoordinator.RepoCoordinator.HandleResetTask | cloudflare/src/do/RepoCoordinator.ts:3399-3414 | the route opens the first task with the id and answers whether there was one |
| Coordinator.TaskSteps | cloudflare/src/do/RepoCoordinator.ts:2517-2549 | a created task is open and in front; a reset opens the first task of the id and changes no other |
| ChangeRequests.StepKeepsReviewInvariant | cloudflare/src/do/RepoCoordinator.ts:2073-2710 | after any review step approved change requests of different tasks have different SHA strings, and recorded approvals are by allowed keys, with signatures valid for this change request, not taken for one person's; approved high-risk ones carry two |
| ChangeRequests.StepOrigin | cloudflare/src/do/RepoCoordinator.ts:2073-2710 | other than a new submission under its id, no step changes id, task or commit of a stored change request, or adds an approval but the one the request gives |
| ChangeRequests.SubmitKeepsIff | cloudflare/src/do/RepoCoordinator.ts:2081-2143 | a submission keeps that invariant if and only if the approvals it brings along are genuine and, if it calls itself approved, passes the barrier and is of high risk, are two |
| ChangeRequests.SelfApprovedIsApproved | cloudflare/src/do/RepoCoordinator.ts:2081-2143 | one that calls itself approved, passes the barrier and is of high risk is stored as approved without any signature |
| RepoCoordinator.RepoCoordinator.CheckSignature | cloudflare/src/do/RepoCoordinator.ts:2213-2255 | the envelope and the decoded key and signature go into one verification; other lengths are refused |
| Supervisors.NameTells | cloudflare/src/crypto.ts:147-153 | for hexadecimal keys the name contains "ashley" or "ward" exactly if the key has one of their prefixes |
| Supervisors.SamePersonIff | cloudflare/src/do/RepoCoordinator.ts:2355-2366 | two approvals count as one person's if and only if the keys are equal up to case, or both are Ashley's or both Ward's |
| Supervisors.RepeatIsMissedIff | cloudflare/src/do/RepoCoordinator.ts:2355-2366 | a second approval under the same key is let through if and only if the key belongs to neither and is written with other blanks |
| Supervisors.RepeatsAreNoticedIff | cloudflare/src/do/RepoCoordinator.ts:2355-2366 | every spelling of a repeated key is noticed if and only if it is Ashley's or Ward's |
| Supervisors.OneKeySignsTwice | cloudflare/src/do/RepoCoordinator.ts:2184-2394 | for every other allowed key the first approval sent again with a blank behind the key approves and merges |
| Supervisors.TwoRequestsMerge | cloudflare/src/do/RepoCoordinator.ts:2309-2394 | two requests that pass every check and are not taken for one person's do merge a high-risk change request whose tests and commit are in order |
| Supervisors.TrimmedApprovalsHaveTwoKeys | cloudflare/src/do/RepoCoordinator.ts:2355-2366 | keys given without blanks, if not taken for one person's, are two allowed keys, in normal form and as bytes |
| Supervisors.SignatureServesOneChangeRequest | cloudflare/src/do/RepoCoordinator.ts:2218-2255 | a signature that verifies for one message only is never on record for two change requests, ids being free of zero bytes |
| Commits.ApprovalKeepsTrulyDifferentIff | cloudflare/src/do/RepoCoordinator.ts:2262-2305 | a merging approval keeps approved commits of different tasks different, as the barrier compares them, if and only if no approved one is the same commit in another spelling |
| Commits.CapitalsAreMerged | cloudflare/src/do/RepoCoordinator.ts:2262-2305 | with "ab" approved for one task, "AB" of another, already failed by the barrier, is approved and merged |
| Commits.PlainCommitsDifferTruly | cloudflare/src/do/RepoCoordinator.ts:1975-1996 | where SHAs are trimmed and in lower case both comparisons agree |
| ChangeRequests.MergedOnlyByApproval | cloudflare/src/do/RepoCoordinator.ts:2262-2394 | a task turns merged only in an approving step, for a change request of that task whose exit code is zero or absent and whose commit no other task has |
| Ledger.CheckPredictsRecord | cloudflare/src/do/RepoCoordinator.ts:355-434 | `checkSpend` allows exactly what `recordLedgerAction` would execute, and asking first changes nothing about recording |
| Ledger.Rates | cloudflare/src/do/RepoCoordinator.ts:290-298 | free actions cost nothing, a million tokens two dollars, a minute of sandbox 0.6 and of browser 1.2 cents, a thousand storage operations five cents; paid units cost in proportion |
| Ledger.ResetMeans | cloudflare/src/do/RepoCoordinator.ts:305-313 | the daily reset fires if and only if a non-zero, earlier day is stored |
| Ledger.RecordMeans | cloudflare/src/do/RepoCoordinator.ts:371-434 | without a reset day, an action is executed if and only if it is free or fits the cap, one dollar if none is set; executed, it is counted and entered, otherwise queued, and the first task of its id is deferred |
| Ledger.StepConserves | cloudflare/src/do/RepoCoordinator.ts:371-440 | the total stays the summed cost of paid actions executed since the last reset, and the stored entries the last 200 of the full history |
| Ledger.StepStaysWithinCapIff | cloudflare/src/do/RepoCoordinator.ts:300-434 | spending is within the cap after a step if what is carried over fits the cap then in force, and, with non-negative units in a recorded action, only if |
| Ledger.ReopenExactly | cloudflare/src/do/RepoCoordinator.ts:315-331 | a drain opens exactly the deferred tasks that are queued and first of their id, and changes no other |
| Ledger.DrainLeavesNoneDeferredIff | cloudflare/src/do/RepoCoordinator.ts:315-331 | after a drain no task is deferred if and only if every deferred task was queued and first of its id |
| Ledger.StepKeepsDeferredQueued | cloudflare/src/do/RepoCoordinator.ts:305-440 | with unique task ids every step keeps deferred tasks queued, and a reset empties the queue and leaves no task deferred |
| RepoCoordinator.RepoCoordinator.DrainDeferredQueue | cloudflare/src/do/RepoCoordinator.ts:315-331 | the loop over the queue performs the drain |
| RepoCoordinator.RepoCoordinator.CheckDailyReset | cloudflare/src/do/RepoCoordinator.ts:305-313 | the defaulted day and the comparison amount to resetting only after a stored, earlier, non-zero day |
| RepoCoordinator.RepoCoordinator.CheckSpend | cloudflare/src/do/RepoCoordinator.ts:355-369 | the method performs the check step |
| RepoCoordinator.RepoCoordinator.RecordLedgerAction | cloudflare/src/do/RepoCoordinator.ts:371-434 | the method performs the record step, deferral included |
| RepoCoordinator.RepoCoordinator.ResetBudgetToday | cloudflare/src/do/RepoCoordinator.ts:436-440 | the method performs the manual reset |
| RepoCoordinator.RepoCoordinator.HandleLedgerConfig | cloudflare/src/do/RepoCoordinator.ts:3514-3531 | an authorised call sets the cap if one is given and then runs the daily check; no other call changes anything |
| Operations.SaveAgreesIff | cloudflare/src/do/RepoCoordinator.ts:267-271 | saving under three keys keeps the indexes in agreement if and only if no entry of another key or task carries the id |
| Operations.StepKeepsAgreement | cloudflare/src/do/RepoCoordinator.ts:267-285 | with fresh claim ids every claim and update keeps the three indexes in agreement |
| Operations.ClaimAgreesIff | cloudflare/src/do/RepoCoordinator.ts:1793-1949 | without fresh ids a claim keeps the agreement if and only if its id is under no other key and no other task once a stale operation is expired |
| Operations.ClaimExactly | cloudflare/src/do/RepoCoordinator.ts:1793-1949 | a claim creates an operation if and only if its key is new, claiming is not paused and its target is open, has no review and no live operation in its index entry; otherwise no task changes and no operation is added |
| Operations.ClaimAnswers | cloudflare/src/do/RepoCoordinator.ts:1793-1949 | which of the six answers a claim gets, which task it is about, and the operation it stores |
| Operations.LiveMeans | cloudflare/src/do/RepoCoordinator.ts:273-285 | an operation is live while accepted or running and at most 300000 ms old; an older one a claim comes across is failed |
| Operations.UpdateMeans | cloudflare/src/do/RepoCoordinator.ts:3168-3197 | an update changes the status and agent it gives and nothing else, or stores a new operation with defaults |
| Operations.ExplicitKeyDecides | cloudflare/src/do/RepoCoordinator.ts:1807-1828 | a claim with a key is a repetition if and only if that key is stored |
| Operations.SameTaskIsRepeated | cloudflare/src/do/RepoCoordinator.ts:1807-1828 | the same task again, by the same agent and without a key, is a repetition |
| Operations.AnotherTaskCanBeClaimed | cloudflare/src/do/RepoCoordinator.ts:1807-1949 | after a claim of a named task without a key, the same agent's claim of another one that is open, free and not claimed so before goes through |
| Operations.AnyTaskIsGivenOnce | cloudflare/src/do/RepoCoordinator.ts:1807-1828 | claims that name neither task nor key all have one key per agent |
| Operations.DefaultKeysDiffer | cloudflare/src/do/RepoCoordinator.ts:1807-1807 | default keys of agents without an underscore are equal if and only if agent and task are |
| Operations.SharedKeyRepeatsIff | cloudflare/src/do/RepoCoordinator.ts:1807-1828 | a claim without a key after another one repeats it, unless known before, if and only if task and agent, joined by an underscore, spell the same |
| Operations.SaveKeepsOneOpenIff | cloudflare/src/do/RepoCoordinator.ts:267-271 | saving leaves two operations of a task open if and only if the saved one is open and another one is |
| Operations.ClaimKeepsOneOpenIff | cloudflare/src/do/RepoCoordinator.ts:1793-1949 | a claim with a fresh id does if and only if it goes through and the task has an open operation its index entry does not show |
| Operations.UpdateKeepsOneOpenIff | cloudflare/src/do/RepoCoordinator.ts:3168-3197 | an update does if and only if it leaves its own operation open and another one of the task is |
| Operations.SupersededUpdateIff | cloudflare/src/do/RepoCoordinator.ts:3168-3197 | while open operations are indexed, that is an update of a superseded operation that leaves it open |
| Operations.UpdateKeepsIndexedIff | cloudflare/src/do/RepoCoordinator.ts:3168-3197 | an update takes an open operation out of its task's index entry if and only if it is of one that this has superseded |
| Operations.LateReport | cloudflare/src/do/RepoCoordinator.ts:3168-3197 | from the empty store: two claims more than five minutes apart and a late report of the first leave two open operations if it says running, and one but hidden if it says done, so that a third claim opens a second |
| RepoCoordinator.RepoCoordinator.SaveOperation | cloudflare/src/do/RepoCoordinator.ts:267-271 | the three writes perform the save |
| RepoCoordinator.RepoCoordinator.FindOpenOperationForTask | cloudflare/src/do/RepoCoordinator.ts:273-285 | open operations are found, those older than five minutes failed instead |
| RepoCoordinator.RepoCoordinator.HandleClaimTask | cloudflare/src/do/RepoCoordinator.ts:1793-1949 | the handler performs the claim step |
| RepoCoordinator.RepoCoordinator.HandleUpdateOperation | cloudflare/src/do/RepoCoordinator.ts:3168-3197 | the handler performs the update step |
| Coordinator.StepKeepsInvariant | cloudflare/src/do/RepoCoordinator.ts:262-2710 | any step on the shared store keeps the review, signature, merge, queue, ledger and index invariants together |
| Coordinator.RunKeepsInvariant | cloudflare/src/do/RepoCoordinator.ts:262-2710 | so does every interleaving of any length |
| Coordinator.StartSatisfiesInvariant | cloudflare/src/do/RepoCoordinator.ts:262-440 | the empty store satisfies them |
| Coordinator.HighRiskNeedsTwoApprovals | cloudflare/src/do/RepoCoordinator.ts:2309-2387 | in every reachable state an approved change request that its risk level, flag, tags, title or files call sensitive carries two approvals under allowed keys that differ as written, up to case, both with a signature valid for this change request |
| ReviewRuns.HighRiskNeedsTwoKeys | cloudflare/src/do/RepoCoordinator.ts:2309-2387 | if allowed keys are 64 digits and requests give them without blanks, such a change request has two different keys, in normal form and as bytes |
| ReviewRuns.RepeatedKeyIsUnnamed | cloudflare/src/do/RepoCoordinator.ts:2309-2387 | without that, one key can only be on record twice if it is neither Ashley's nor Ward's and was written with different blanks |
| Coordinator.MergedTasksWereApproved | cloudflare/src/do/RepoCoordinator.ts:2262-2394 | in every reachable state a merged task has a merging approval behind it with exit code zero or absent, and approved change requests of different tasks have different SHA strings |
| Coordinator.StepHoldsIff | cloudflare/src/do/RepoCoordinator.ts:2073-2394 | every merged commit stays with some stored change request of its task, after any step, if and only if that step is no submission that replaces the last one to hold it |
| Coordinator.NoCommitIsMergedTwice | cloudflare/src/do/RepoCoordinator.ts:2262-2394 | over every run without such a submission the same non-empty SHA string is not merged for two tasks, whatever was reopened in between |
| Coordinator.ForgottenCommitIsMergedTwice | cloudflare/src/do/RepoCoordinator.ts:2073-2394 | after one such submission, of another task and not of high risk, an approval merges the commit for a second task |
| ReviewRuns.ApprovedCommitsDifferOnPlainRuns | cloudflare/src/do/RepoCoordinator.ts:2262-2305 | if SHAs are submitted trimmed and in lower case, approved commits of different tasks differ as the barrier compares them, in every reachable state |
| ReviewRuns.NoPlainCommitIsMergedTwice | cloudflare/src/do/RepoCoordinator.ts:2262-2394 | and no commit, so compared, is ever merged for two tasks |
| Coordinator.ResetReopensEveryDeferredTask | cloudflare/src/do/RepoCoordinator.ts:315-440 | in every reachable state a manual reset empties the queue, zeroes the total and leaves no task deferred |
| Coordinator.RunStaysWithinCap | cloudflare/src/do/RepoCoordinator.ts:355-434 | on every run that does not lower the cap spending stays within it |
| Coordinator.NoDayResetsTheLedger | cloudflare/src/do/RepoCoordinator.ts:305-313 | from a store without a reset day the total counts every paid action of every day until a manual reset |
| Coordinator.RepeatedClaimChangesNothing | cloudflare/src/do/RepoCoordinator.ts:1807-1913 | after a claim went through, and after any further run, a claim under the same key changes nothing at all |
| Coordinator.AgentsClaimTaskByTask | cloudflare/src/do/RepoCoordinator.ts:1793-1949 | in every reachable state an agent without keys that has claimed one named task can claim another open, free one |
| Coordinator.AgentsGetOneUnnamedTask | cloudflare/src/do/RepoCoordinator.ts:1807-1828 | after an agent got a task without naming task or key, every further such claim, after any run, repeats it |
| Coordinator.RunKeepsOneOpenIff | cloudflare/src/do/RepoCoordinator.ts:267-285 | over every orderly run, in all states on the way no task has two open operations if and only if no claim and no update of the run meets those conditions |
| Coordinator.NoTaskHasTwoOpenOperations | cloudflare/src/do/RepoCoordinator.ts:267-285 | with fresh ids and no update of a superseded operation no task has two open operations, in any reachable state, and its open one is indexed |
| Coordinator.LiveOperationsBlockClaims | cloudflare/src/do/RepoCoordinator.ts:1793-1949 | in every reachable state no claim creates an operation while the task's index entry shows a live one, and exactly the claims that meet the other conditions do |
| Tasks.FindLoop | cloudflare/src/do/RepoCoordinator.ts:322-323 | the first task with the id, or none |
| Vocabulary.BuildTables | cloudflare/src/vocab/resolver.ts:43-63 | the loops send each IRI to the label of the earliest concept listing it and each label to the id of the earliest concept with it, and put nothing else in the tables |
| Vocabulary.LabelMeans | cloudflare/src/vocab/resolver.ts:44-44 | a concept's label is its preferred one, or else what follows the last slash of its id |
| Vocabulary.TablesKnow | cloudflare/src/vocab/resolver.ts:43-63 | the IRIs known are the ids and the exact, broad and close matches of the concepts |
| Vocabulary.RegisterAliases | cloudflare/src/vocab/resolver.ts:52-62 | aliases already claimed keep their label, the others get this one |
| Vocabulary.LabelRoundTripIff | cloudflare/src/vocab/resolver.ts:69-95 | a label comes back from its IRI if and only if no earlier concept lists that IRI |
| Vocabulary.LookupsMean | cloudflare/src/vocab/resolver.ts:69-95 | both lookups know exactly the IRIs and labels of the profile; an IRI goes to the label of its first concept and a label to the id of its first, and each to itself the other way |
| Vocabulary.ShadowedLabel | cloudflare/src/vocab/resolver.ts:43-95 | a label whose IRI an earlier concept claims comes back as the label of the first that claims it |
| Vocabulary.CreatedDoesNotRoundTrip | cloudflare/src/vocab/raw.ts:139-268 | in every profile with these two entries in this order and nothing before them claiming the IRI or the label, "created" comes back as "imported" |
| Vocabulary.AskedDoesNotRoundTrip | cloudflare/src/vocab/raw.ts:91-302 | likewise "asked" as "requested-human-review" |
| Vocabulary.HumanAndAgentOverlap | cloudflare/src/vocab/resolver.ts:104-164 | an actor of type system in the supervisor role is both |
| Vocabulary.OverlapIff | cloudflare/src/vocab/resolver.ts:104-164 | and exactly which actors are both: no outright software marker, an agent word in kind or role, and a human word or a key |
| Vocabulary.ActorsMean | cloudflare/src/vocab/resolver.ts:104-164 | who is a human actor and who an agent, in terms of type, id and role |
| Vocabulary.AcceptedMeans | cloudflare/src/vocab/resolver.ts:228-303 | an entry is accepted if and only if its verb is known, judgments are by humans who are no agents, AI answers by no human, its role allows verb and patch, and in review tasks all but humans bring findings or reports without patches |
| Vocabulary.AiInRoleMayNotJudge | cloudflare/src/vocab/resolver.ts:228-246 | a human whose role contains the letters "ai", such as a maintainer, is refused every judgment as an agent |
| Vocabulary.TraceIsWellFormed | cloudflare/src/do/RepoCoordinator.ts:483-528 | after any run of appends steps are numbered 1 to n and every stored verb resolves in the profile |
| Vocabulary.StoredVerbMeans | cloudflare/src/do/RepoCoordinator.ts:496-496 | a label is stored as the id of its first concept, anything else as it is |
| Vocabulary.PatchesAreBuilders | cloudflare/src/do/RepoCoordinator.ts:444-529 | no trace has a patch by a known role other than builder, or in a review task by anyone but a human |
| Vocabulary.SafeTablesKeepJudgmentsHuman | cloudflare/src/vocab/resolver.ts:228-303 | with tables that keep judgment status no run stores a judgment by an actor `isAIAgent` accepts |
| Vocabulary.JudgmentsStayHumanIff | cloudflare/src/vocab/resolver.ts:228-303 | and with any other tables one append stores such a judgment |
| Vocabulary.EntriesDecideJudgment | cloudflare/src/vocab/resolver.ts:69-188 | tables keep judgment status if and only if no harmless label has an IRI that counts as a judgment, and judgment labels of mere IRIs count as judgments themselves |
| Vocabulary.TaskTrace.AppendTraceStep | cloudflare/src/do/RepoCoordinator.ts:444-529 | a refused entry leaves the trace as it was; an accepted one is stored last with the next index and the primary IRI of its verb |
| Tournament.GenerateSingleElimination | cloudflare/src/rehearsal/GenericTournamentEngine.ts:197-235 | for any number of teams the loops with a fractional match count produce the rounds obtained by halving and rounding up |
| Tournament.CeilLog2IsLogarithm | cloudflare/src/rehearsal/GenericTournamentEngine.ts:200-200 | the number of rounds used is the logarithm rounded up: it is the least exponent whose power of two reaches the number of teams |
| Tournament.FixturesAreNumbered | cloudflare/src/rehearsal/GenericTournamentEngine.ts:197-235 | match numbers run from 1 without gaps through all rounds |
| Tournament.RoundSizes | cloudflare/src/rehearsal/GenericTournamentEngine.ts:197-235 | round r has as many matches as teams left after it |
| Tournament.BracketSizeIff | cloudflare/src/rehearsal/GenericTournamentEngine.ts:197-235 | there are n-1 matches if and only if n is a power of two and at least two, and never fewer |
| Tournament.PowerOfTwoBracket | cloudflare/src/rehearsal/GenericTournamentEngine.ts:197-235 | for 2^k teams 2^k-1 matches, 2^(k-r) of them in round r |
| Tournament.RoundOnePairs | cloudflare/src/rehearsal/GenericTournamentEngine.ts:204-217 | first against last, second against last but one, and so on |
| Tournament.RoundOneUsesEachTeamOnceIff | cloudflare/src/rehearsal/GenericTournamentEngine.ts:204-217 | round one uses every team exactly once if and only if their number is even |
| Tournament.SelfPairIff | cloudflare/src/rehearsal/GenericTournamentEngine.ts:204-217 | a team is drawn against itself exactly in the middle match of an odd number of teams |
| Tournament.GenerateSwissRoundOne | cloudflare/src/rehearsal/GenericTournamentEngine.ts:334-350 | position i meets position i + n/2, and for an odd number of teams the branch fails |
| Tournament.SwissUsesEachTeamOnce | cloudflare/src/rehearsal/GenericTournamentEngine.ts:334-350 | for an even number the first half meets the second in order: every team is used exactly once, none against itself |
| Tournament.RecordResult | cloudflare/src/rehearsal/GenericTournamentEngine.ts:449-462 | both teams are updated in place when both are known, and otherwise nothing is |
| Tournament.PlayRoundOne | cloudflare/src/rehearsal/GenericTournamentEngine.ts:443-463 | the matches of round one are recorded in order, with the alternating score |
| Tournament.RoundOneIsPlayed | cloudflare/src/rehearsal/GenericTournamentEngine.ts:197-463 | of the generated fixtures exactly the drawn matches of round one are played, in the order of the draw |
| Tournament.RoundOneScores | cloudflare/src/rehearsal/GenericTournamentEngine.ts:443-463 | the first team of each match wins with the games required, and the loser takes one game fewer in every other match and none in the rest |
| Tournament.ResultsAreCounted | cloudflare/src/rehearsal/GenericTournamentEngine.ts:449-463 | after any results a team's wins, losses and games are what the results between known teams say |
| Tournament.OpponentsAreListed | cloudflare/src/rehearsal/GenericTournamentEngine.ts:449-463 | and its opponents are those of these results, in their order |
| Tournament.RecordKeepsSymmetry | cloudflare/src/rehearsal/GenericTournamentEngine.ts:452-462 | recording keeps the opponent lists symmetric, counting repetitions |
| Tournament.ComputeBuchholz | cloudflare/src/rehearsal/GenericTournamentEngine.ts:705-713 | each team gets the summed wins of its opponents, unaffected by scores written before |
| Tournament.BuchholzConservation | cloudflare/src/rehearsal/GenericTournamentEngine.ts:443-713 | for any number of teams and any sequence of results the Buchholz scores sum to match wins times matches played |
| Tournament.CompareIsConsistent | cloudflare/src/rehearsal/GenericTournamentEngine.ts:717-721 | the comparator is antisymmetric, and transitive also in its ties |
| Tournament.StandingsAreSorted | cloudflare/src/rehearsal/GenericTournamentEngine.ts:715-721 | the standings are a permutation of the teams in the order of the comparator, ties in the order of the list |
| Tournament.StandingsByResults | cloudflare/src/rehearsal/GenericTournamentEngine.ts:715-721 | an earlier team has no fewer wins, at equal wins no lower Buchholz score, at equal scores no smaller difference of games won and lost, and where all three are equal it comes first in the list |
| Tournament.StandingsAreUnique | cloudflare/src/rehearsal/GenericTournamentEngine.ts:715-721 | with unique ids any stable sort returns these standings |

## Left out

- GitHub, Artifacts, R2, browser, sandbox and model calls, and `openGitHubPR`, which rewrites commits and risk flags: the model follows the path without a token.
- HTTP routing, JSON bodies and rendered pages.
- Hard-coded repairs of named tasks and change requests and the deletion of demo numbers in `getOrInitTasks` and `sanitizeAndVerifyCRs`: one-off data fixes.
- Other ways a change request is stored or changed outside the handlers: the scheduler, a push, a format proposal, the routes that reopen named or failed ones.
- Ed25519 and SHA-256 internals: the first is any predicate, the second any function to 32 bytes. A key that cannot be imported counts as one that verifies nothing.
- Envelopes.ComputeCommitEnvelope: text fields are given as UTF-8 bytes; encoding them is a parameter.
- Characters outside ASCII in trimming and case folding.
- Timestamps other than those of approvals, stored rationales and the other display fields, and `toFixed` rounding; percentages in the budget status.
- Concurrency between the awaits of one handler: every handler is one atomic step.
- The traces handlers append, and failures of those appends: the trace is modelled on its own in `Vocabulary`.
- The agent registry, usage limits checked before a claim, and agent status updates.
- Alternative field names of an actor (`class`, `actor_id`, `agent_role`): an actor is its type, id and role, and a missing actor has them all empty.
- Tournament.GenerateSingleElimination: takes `Math.log2` as exact; the "Winner Mx" labels, names and seeds of a match are not kept.
- Tournament.RecordResult: the team objects are values in an array that is updated in place, not aliased objects; the score and status fields written into the match are not kept.
- The double-elimination and group fixtures and the later rounds of the 8-team and 16-team formats, which are fixed tables: BuchholzConservation covers them as a sequence of results. The library sort is modelled as what a stable sort returns.
- MemoryFS.MemoryFS.Write: modification times and the text encodings of `readFile` and `writeFile` are not kept.
- Coordinator.RunKeepsInvariant: nothing is claimed about rejected change requests staying rejected or reopened tasks being scheduled again; the code promises neither.
- Overflow of 64-bit sizes in the tree code: record counts are 32-bit, and sizes are unbounded otherwise.
- Storage engine, edge writer, vault, C ABI, gate command line and Python bindings.
