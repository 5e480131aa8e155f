# N-AALP reference algorithms, verified

N-AALP is a signed-object governance protocol. Its `tools/*_oracle.py` files hold from-scratch
reference algorithms that every implementation is graded against, on hand-picked vectors. This
project models those algorithms in Dafny (with the Go choke points that run them where the
reference file only lists expected verdicts) and proves what they are for, on all inputs.

`dafny verify dfyconfig.toml` checks everything.

## What is modelled

| module | models |
|---|---|
| `Octets` | octet strings, digests, bytewise order, what a collision is |
| `Pairing`, `Merkle` | the RFC 9162 Merkle log: tree hash, audit path, shifting verifier |
| `Cbor`, `CborCanonical`, `CborDecode` | deterministic CBOR: encoder, canonical form, strict decoder |
| `CborExact`, `Utf8`, `Vectors` | the same in plain terms: which values encode, to which octets, which fault is named; text; the repository's vectors |
| `Records`, `Payloads`, `Objects` | numbered bodies, reading them back, and content ids |
| `HashChain`, `Audit`, `Continuation` | hash chains: audit receipts, equivocation and fork proofs, flow continuations |
| `Graphs`, `CausalGraph`, `CausalAgreement` | the offline causal check, the topological order, and where it and the merge agree |
| `LedgerRecords`, `Ledger`, `ConsumeReceipts` | the single-use consume ledger, its log records, whole runs, and fork evidence |
| `Delegation` | the leaf-to-root grant walk |
| `Merge`, `MergeOrder` | the deterministic causal merge |
| `Identity` | rotation threads and revocation |
| `Multihash` | varints, multihashes, content-id validation |
| `SortedSets`, `SignerCounter` | counter-duplication detection |
| `Registry`, `Conformance` | the JSON Schema subset validator, where it is JSON Schema, and the duplicate-key pass |

SHA-384 is a parameter `h`: every theorem holds for any function from octet strings to 48 octets.
Because such a function always has collisions somewhere, no theorem says merely that one exists:
`Collision(h, inputs)` names the finite set of strings that the computations at hand hashed, and
says that two of those collide. Signature verification, key derivation and `re.search` are
parameters too.

## What the proofs found

- Under a wrong claimed size an inclusion proof can prove another leaf: for three leaves the third is
  accepted at index 1 of a claimed two (`Merkle.SizeMustBeTrusted`). Exactly: index m of a claimed n
  stands for the leaf j of an N-leaf tree with `Sides(j, N - 1) == Sides(m, n - 1)`, if there is one,
  and only its honest proof is accepted (`Merkle.AcceptedExactly`). So the index is bound exactly where
  the claim branches at m as the tree does (`Merkle.IndexBoundExactly`), which the true size
  guarantees and some others do (`Merkle.SizeCanBeWrong`).
- `reconcile` fails (its `ready[0]` is out of range) on a repeated id, on a present cause listed
  twice and on a cycle, and on nothing else. `causally_valid` differs from "every cause strictly
  first" exactly by accepting an object that names itself (`MergeOrder.StrictExactly`).
- `TopoOrder` fails exactly where `VerifyCausal` does, so its branch for an empty ready set is dead;
  the order it returns never lets positions decrease. For distinct ids its graph has a cycle exactly
  where the merge's has, so the two differ only on repeated causes and on positions
  (`CausalAgreement.MergeAgreesExactly`).
- In `verify_chain` the visited set and the zero-depth test never decide a verdict, and the
  realized-depth test decides only when the leaf declares a negative depth
  (`Delegation.NegativeLeafRefused`). The declared-depth test alone makes every walk terminate.
- `decode_uvarint` is documented as bounded by 64 bits. It accepts exactly where one of ten octets is
  below 128; every value it accepts is below 2^70, and below 2^64 exactly when one of the first nine
  octets is below 128 or the tenth is 0 or 1 (`Multihash.SixtyFourBitsExactly`). It also accepts padded
  forms, so `validate_naalp_content_id` accepts strings longer than the 50-octet framing.
- The encoder emits integers down to -2^64; the strict decoder accepts them only down to -2^63.
- Ledger replay checks links and positions, not reuse: a log that spends one id twice chains, and what
  is read back is a sound ledger exactly when no id is spent twice. It also reads records with absent
  fields; a record is the one its entry is written as exactly when it holds all four
  (`LedgerRecords.CompleteExactly`).
- The payload of a signed FlowCommit may hold fields beyond the two that are read
  (`Continuation.CommitPayloadReads`); it is the body of the commit read exactly when it holds no
  others (`Continuation.CommitPayloadExactly`).
- `hv_errors` departs from JSON Schema in the keywords named here, each with its exact condition and a
  witness in `Conformance`. For every instance, a `const` is compared as JSON Schema does exactly when
  it holds no boolean and no 0 or 1; an `enum` exactly when it lists, with each constant, every variant
  of it with booleans and 0 or 1 exchanged; `type` exactly unless it lists `integer` and nothing that
  admits a float; `minimum` and `maximum` exactly when neither is there. `if`/`then`/`else` is read as
  JSON Schema reads it under every schema exactly for instances that are objects. Where no departure is
  met, the two readings of a whole schema agree (`Conformance.ReadingsAgree`). The converse fails for
  whole schemas because another keyword can hide a departure (`Conformance.DepartureHidden`).

## Model

| member | source | states |
|---|---|---|
| Octets.LessMeaning | tools/cbor_oracle.py:85 | the order used for keys and ids is bytewise: the smaller octet at the first difference, or a proper prefix, comes first |
| Octets.ContentIdOctets | tools/cbor_oracle.py:103-109 | an id is 20 30 and the 48 octets of the digest |
| Pairing.LargestPow2Lt | tools/checkpoint_oracle.py:131-138 | the doubling loop returns a power of two k with k < n <= 2k, the only one there is |
| Pairing.SplitUnique | tools/checkpoint_oracle.py:131-138 | a power of two k with k < n <= 2k is the split point |
| Pairing.RootLevel | tools/checkpoint_oracle.py:141-150 | splitting at the largest power of two and pairing neighbours level by level give the same root |
| Pairing.PathLevel | tools/checkpoint_oracle.py:153-165 | an audit path is the sibling, if there is one, followed by the path one level up |
| Pairing.ReplayStutter | tools/checkpoint_oracle.py:185-190 | the extra shifts of step 4.b.ii let a node without a sibling wait without changing the run |
| Pairing.ReplayComplete | tools/checkpoint_oracle.py:168-192 | for any combining function the loop on the path of element m ends with sn = 0 and the root |
| Pairing.ReplaySound | tools/checkpoint_oracle.py:168-192 | where combining is injective between the pairs used, a run that reaches the root started from element m with its path |
| Pairing.ReplayIsFold | tools/checkpoint_oracle.py:176-192 | the counters matter to the loop only through the branches they select |
| Pairing.SidesTurn | tools/checkpoint_oracle.py:153-192 | the shifting loop branches as the recursive splits do: the value held is the right child exactly where the element lies in the right half |
| Merkle.RecomputeRoot | tools/checkpoint_oracle.py:168-192 | the nested shifting loops compute the specified replay, including both failure exits |
| Merkle.NodeInputOctets | tools/checkpoint_oracle.py:126-128 | what is hashed for a node, octet by octet: 0x01, the left child, the right child |
| Merkle.LeafInputOctets | tools/checkpoint_oracle.py:121-123 | what is hashed for a leaf, octet by octet: 0x00, the leaf |
| Merkle.SmallTrees | tools/checkpoint_oracle.py:141-165 | the tree hashes of up to three leaves and the paths into three, as nested hashes of plain octets |
| Merkle.NodeInputInjective | tools/checkpoint_oracle.py:126-128 | a 48-octet child makes the two children of a node input unambiguous |
| Merkle.TreeOverHashes | tools/checkpoint_oracle.py:121-150 | the tree hash over leaves is the root over leaf hashes |
| Merkle.InclusionComplete | tools/checkpoint_oracle.py:141-192 | for every size and index, PATH replays to (true, MTH): no mid-loop failure, sn = 0, same root |
| Merkle.AcceptedLength | tools/checkpoint_oracle.py:168-192 | a path is structurally accepted exactly when it has the length of PATH for that index and size |
| Merkle.InclusionSound | tools/checkpoint_oracle.py:121-192 | an accepted proof of x at m, with a path of arbitrary strings, has x = leaves[m] and the honest path, or two strings hashed by tree and verifier collide |
| Merkle.AcceptedExactly | tools/checkpoint_oracle.py:121-192 | without a collision among the strings hashed, a proof under any claimed index and size is accepted against the tree hash of a list of any length exactly when it is the honest proof of the leaf at which the tree branches as the claim does |
| Merkle.IndexBoundExactly | tools/checkpoint_oracle.py:121-192 | an accepted proof is the honest one of the claimed index exactly where the claim branches there as the tree does; otherwise it is another leaf's |
| Merkle.MembershipSound | tools/checkpoint_oracle.py:121-192 | the corollary that needs no branch sequence: what is accepted is one of the leaves, or two strings hashed collide |
| Merkle.SizeMustBeTrusted | tools/checkpoint_oracle.py:168-192 | for every hash the third of three leaves is accepted at index 1 under a claimed size of 2 |
| Merkle.SizeCanBeWrong | tools/checkpoint_oracle.py:168-192 | index 0 is judged alike under claimed sizes of five and six |
| Merkle.TreeHashBinding | tools/checkpoint_oracle.py:121-150 | leaf lists of any two lengths with one tree hash are equal, or two strings hashed by the two trees collide |
| Merkle.SameShape | tools/checkpoint_oracle.py:121-150 | the 0x00 and 0x01 prefixes keep empty, singleton and larger trees apart |
| Cbor.BigEndianRoundTrip | tools/cbor_oracle.py:34-39 | reading a fixed-width argument back gives the argument |
| Cbor.BigEndianDigit | tools/cbor_oracle.py:34-39 | octet i from the right is the i-th base-256 digit |
| Cbor.HeadUnique | tools/cbor_oracle.py:25-40 | heads are uniquely decodable: one octet string starts with at most one head |
| Cbor.EncodeValue | tools/cbor_oracle.py:50-90 | the recursive encoder with its accumulating loops computes the specified encoding or the first error in source order |
| Cbor.EncodeMap | tools/cbor_oracle.py:79-90 | the map case: pairs encoded in order, repeated keys refused, entries sorted and joined |
| Cbor.HasRepeatedKey | tools/cbor_oracle.py:82-84 | comparing set size with list length detects exactly the repeated keys |
| Cbor.SortAscending | tools/cbor_oracle.py:85 | sorting entries with distinct keys yields strictly ascending keys |
| Cbor.AscendingUnique | tools/cbor_oracle.py:85 | an ascending list of entries is determined by its elements |
| CborCanonical.EncodingCanonical | tools/cbor_oracle.py:50-90 | two values that encode have one encoding exactly when they agree up to the order of map pairs at every depth |
| CborCanonical.PrefixFree | tools/cbor_oracle.py:50-90 | no encoding is a proper prefix of another |
| CborCanonical.Unique | tools/cbor_oracle.py:50-90 | if two encodings start one octet string, values agree up to pair order and the remainders are equal |
| CborCanonical.SameEncoding | tools/cbor_oracle.py:79-90 | a value that agrees with an encodable one up to pair order encodes, to the same octets |
| CborCanonical.MapAscending | tools/cbor_oracle.py:79-90 | a map is emitted as its head and exactly its encoded pairs, keys strictly ascending |
| CborDecode.HeadShortest | tools/cbor_oracle.py:25-40 | no head of any width that carries n is shorter than the one emitted |
| CborDecode.DecodeValue | impl/go/cbor/cbor.go:225-331 | the recursive decoder, with its array and map loops, computes the specified parse or its fault |
| CborDecode.DecodeArray | impl/go/cbor/cbor.go:261-284 | the element loop computes the specified item list |
| CborDecode.DecodeMap | impl/go/cbor/cbor.go:285-321 | the pair loop, tracking the previous key's octets, computes the specified pair list |
| CborDecode.HeadStrict | impl/go/cbor/cbor.go:333-379 | an accepted head is the shortest head of the argument read |
| CborDecode.DecodeStrict | impl/go/cbor/cbor.go:197-223 | every accepted input is the canonical encoding of the value returned |
| CborDecode.DecodeComplete | impl/go/cbor/cbor.go:205-223 | an encoding is accepted exactly when it nests within the limit and holds no integer below -2^63, and then gives back the value up to pair order |
| CborExact.HeadOctets | tools/cbor_oracle.py:25-40 | the octets after the first are the argument, most significant first, in 0, 1, 2, 4 or 8 octets |
| CborExact.HeadFirst | tools/cbor_oracle.py:25-40 | the first octet holds the major type and the argument or the code of its length |
| CborExact.MajorTypes | tools/cbor_oracle.py:50-90 | the major type of each kind of value, and the content after the head of a string |
| CborExact.EncodesExactly | tools/cbor_oracle.py:50-90 | a value encodes exactly when it holds no boolean, no argument beyond 64 bits, no ill-formed text and no map with two keys that agree up to pair order |
| CborExact.EncodeFaults | tools/cbor_oracle.py:25-90 | the fault named for each kind of leaf |
| CborExact.FirstItemFaults | tools/cbor_oracle.py:63-67 | an array's fault is its first faulty item's |
| CborExact.FirstPairFaults | tools/cbor_oracle.py:79-81 | a map's fault is its first faulty pair's, before any repeated key |
| CborExact.PairFaults | tools/cbor_oracle.py:81 | within a pair the key's fault comes first |
| CborExact.RepeatedKeyFaults | tools/cbor_oracle.py:82-84 | a repeated key is the fault of a map whose pairs all encode |
| CborExact.TwoKeyMap | tools/cbor_oracle.py:79-90 | a map of two pairs, in either order, is A2 and the pair with the smaller encoded key first |
| CborExact.LimitOnlyRefuses | impl/go/cbor/cbor.go:205-231 | a depth limit changes a result only by refusing for depth, and a limit beyond the input's length never does |
| CborExact.RefusalNamed | impl/go/cbor/cbor.go:225-331 | an encoding nested too deep is refused as that, one with an integer below -2^63 as not canonical |
| Utf8.Utf8Exactly | tools/cbor_oracle.py:60-62 | text octets are well-formed exactly when they are the encoding of a list of Unicode scalar values |
| Vectors.Integers | tools/cbor_oracle.py:25-58 | heads at the edges of each width |
| Vectors.KeysInOrder | tools/cbor_oracle.py:79-90 | {1: 7, 2: 8} is A2 01 07 02 08, however it is written |
| Vectors.NestedBody | vectors/cbor/cases.json:48-140 | the nested body vector, octet for octet |
| Vectors.Refused | tools/cbor_oracle.py:198-206 | a long head, an indefinite length and a float are refused as not canonical |
| Vectors.RefusedMaps | tools/cbor_oracle.py:198-206 | keys out of order and repeated keys are refused as not canonical under every limit |
| Vectors.NegativeLimit | impl/go/cbor/cbor.go:240-244 | -2^63 is accepted by the strict decoder, -2^63 - 1 refused as not canonical |
| Records.RecordInjective | tools/cbor_oracle.py:79-90 | bodies {1: .., 2: .., n: ..} with equal octets have equally many and equal fields |
| Records.RecordBytes | tools/cbor_oracle.py:79-90 | every body of in-range fields encodes |
| Payloads.RecordDecodes | impl/go/cbor/cbor.go:197-223 | every body is decoded to a map with exactly its fields |
| LedgerRecords.ParseEntry | impl/go/approval/approval.go:589-634 | the field loop computes the specified reading: unknown keys and wrong kinds refused, absent fields empty |
| LedgerRecords.ParsesExactly | impl/go/approval/approval.go:589-634 | a record is read exactly when it decodes to a map whose keys are among 1 to 4 with values of the right kinds |
| LedgerRecords.PrefixParses | impl/go/approval/approval.go:589-634 | a record with the first n fields is read as the entry with the others empty |
| LedgerRecords.EntryRoundTrip | impl/go/approval/approval.go:163-170 | what is written is read back |
| LedgerRecords.EntryBodyCarries | tools/approval_oracle.py:54-60 | an entry is {1: seq, 2: prev, 3: approval_id, 4: consumer} and nothing more |
| LedgerRecords.CompleteExactly | impl/go/approval/approval.go:589-634 | a record read back is the encoding of its entry exactly when it holds four fields |
| Objects.ObjectIdBinds | tools/cbor_oracle.py:95-109 | objects with one content id agree in every field but the id, up to pair order, or their bodies collide; agreeing objects have one id |
| Objects.IdExcludesItself | tools/cbor_oracle.py:95-109 | whatever is stored in field 1, the content id is the same |
| Objects.BodyPairs | tools/cbor_oracle.py:95-101 | a body holds every field but the id, and the id when asked for, in ascending order of key |
| HashChain.ChainBinding | tools/audit_oracle.py:53-97 | two non-empty chains with one final head are equal link by link and have one start, or two bodies collide |
| HashChain.LinkedMeaning | tools/audit_oracle.py:76-97 | a chain is linked exactly when each link carries its position and the digest of the body before it, the first the start |
| HashChain.RearrangedIsPrefix | tools/audit_oracle.py:99-107 | links of a valid chain, dropped, repeated or reordered, form a valid chain only as a prefix, for any hash |
| Audit.VerifyChain | impl/go/audit/audit.go:96-111 | accepts exactly the chains linked from genesis with every signature valid; otherwise the first bad receipt decides, a bad link before a bad signature |
| Audit.ReceiptBodyCarries | tools/audit_oracle.py:53-54 | what is signed and hashed is the map {1: prev, 2: obj, 3: seq, 4: at} and nothing more |
| Audit.ReceiptBodyInjective | tools/audit_oracle.py:53-54 | a receipt body determines prev, object, position and time |
| Audit.ReceiptChainBinding | tools/audit_oracle.py:76-97 | two verified receipt chains with one head are the same chain, or two receipt bodies collide |
| Audit.Authority.Append | impl/go/audit/audit.go:81-90 | returns the next receipt of the chain with the signature over its body and keeps the chain linked from genesis; appends nothing where the signer fails |
| Audit.Auditor.Observe | impl/go/audit/audit.go:240-256 | rejects unsigned receipts; reports equivocation exactly against the first receipt accepted at that position, with a fork proof of both signed receipts, the accused and the current counter, which then advances; the proof verifies exactly when the accused is named |
| Audit.FirstAtMeaning | impl/go/audit/audit.go:244-254 | the receipt compared with is the first accepted one at that position |
| Audit.DetectionComplete | impl/go/audit/audit.go:240-256 | some observation is reported exactly when two of the receipts name different objects at one position, though only first receipts are kept |
| Audit.ChainNeverEquivocates | tools/audit_oracle.py:109-118 | receipts of one chain never contradict each other |
| Audit.ForkProofConvicts | impl/go/audit/audit.go:188-202 | a fork proof verifies exactly when it names the accused and holds two conflicting receipts signed under its key, and then no one chain holds both |
| CausalGraph.HasCycle | impl/go/audit/audit.go:291-308 | the three-colour search finds a cycle, or settles the node and everything it depends on and leaves the path as it was |
| CausalGraph.VerifyCausal | impl/go/audit/audit.go:270-314 | accepts exactly the sets with no cause at a later position and no cycle among present causes |
| CausalGraph.TopoOrder | impl/go/audit/audit.go:319-359 | succeeds exactly where the causal check does, with every node once, causes strictly first, each the ready one of least position, then index |
| CausalGraph.PositionsAscend | impl/go/audit/audit.go:316-346 | positions never decrease along the order returned |
| CausalGraph.TiesByIndex | impl/go/audit/audit.go:338-347 | objects without causes come by position, and by index where positions are equal |
| CausalGraph.IndexLast | impl/go/audit/audit.go:271-274 | an id refers to the last node that has it |
| CausalGraph.OrderUnique | impl/go/audit/audit.go:316-346 | at most one order meets that contract: the result is reproducible |
| CausalAgreement.CyclesAgree | impl/go/audit/audit.go:282-314 | for distinct ids the index graph searched and the merge's table of present causes have cycles together |
| CausalAgreement.MergeAgreesExactly | tools/federation_oracle.py:33-49 | objects with distinct ids are merged exactly when the searched graph has no cycle and no present cause repeats |
| Continuation.OpenBodyInjective | tools/continuation_oracle.py:58-60 | a FlowOpen body determines flow id, ceiling and every approval |
| Continuation.OpenIsNoLink | tools/continuation_oracle.py:58-67 | no octet string is both a FlowOpen body and a continuation body |
| Continuation.OpenBodyCarries | tools/continuation_oracle.py:58-60 | the FlowOpen body is {1: flow_id, 2: effect_ceiling, 3: approvals} and nothing more |
| Continuation.LinkBodyCarries | tools/continuation_oracle.py:63-67 | the continuation body is {1: flow_open_id, 2: seq, 3: effect, 4: payload_id, 5: prev} and nothing more |
| Continuation.CommitBodyCarries | tools/continuation_oracle.py:75-77 | the commit body is {1: flow_open_id, 2: final_head} and nothing more |
| Continuation.VerifyFlow | impl/go/continuation/continuation.go:194-240 | accepts exactly the flows whose links belong to the FlowOpen, stay at or below a legal ceiling and chain from its head; otherwise the fault is an illegal ceiling, or at the first faulty link the first of: effect out of range, wrong flow, wrong position, above the ceiling, broken link |
| Continuation.BuildFlow | tools/continuation_oracle.py:89-107 | threading prev yields a linked chain over the given steps, valid exactly when no step exceeds a legal ceiling |
| Continuation.VerifyCheckpoint | impl/go/continuation/continuation.go:280-302 | accepts exactly the whole prefix the checkpoint names; the largest 64-bit position is refused |
| Continuation.VerifyCommit | impl/go/continuation/continuation.go:346-376 | accepts exactly the signed payloads that read as a commit of the delivered flow with its FlowOpen id and recomputed head; a rejection is the signature, then the form, then the flow named, then the flow's own first fault, then the head |
| Continuation.CommitPayloadExactly | impl/go/continuation/continuation.go:354-362 | a payload is read exactly when it decodes to a map with byte strings under 1 and 2, and is the body of the commit read exactly when it holds nothing else |
| Continuation.CommitPayloadReads | impl/go/continuation/continuation.go:354-362 | a body whose first two fields are a commit's is read as the commit, whatever follows |
| Continuation.CommitRoundTrip | impl/go/continuation/continuation.go:313-319 | a commit's body is read back as the commit |
| Continuation.FlowBinding | tools/continuation_oracle.py:58-107 | one final head binds the FlowOpen and every link, for flows of any length including zero, or two bodies collide |
| Continuation.CommitBinding | tools/continuation_oracle.py:75-77 | commits with equal body octets bind one FlowOpen and one ordered sequence, or two bodies collide |
| Continuation.GapDetection | tools/continuation_oracle.py:129-138 | omission, repetition and reordering of links are detected for any hash: what still verifies is a prefix |
| Continuation.ReplayRefused | tools/continuation_oracle.py:262-275 | a valid flow does not verify under another FlowOpen unless the two FlowOpen bodies collide |
| Ledger.ApprovalIdBinds | tools/approval_oracle.py:33-51 | an approval id names one approval, or two approval bodies collide |
| Ledger.ApprovalBodyCarries | tools/approval_oracle.py:44-51 | an approval is {1: approves, 2: approver, 3: grant, 4: nonce, 5: not_after} and nothing more |
| Ledger.ConsumeLedger.Consume | impl/go/approval/approval.go:272-293 | the compare-and-set appends the next entry or refuses, leaving log, index, head and counter consistent |
| Ledger.ConsumeLedger.ConsumeApproval | impl/go/approval/approval.go:333-345 | the composed consume decides and records as specified and keeps the ledger sound |
| Ledger.ConsumeLedger.Replay | impl/go/approval/approval.go:233-266 | raw records are read back exactly when each parses and they chain from genesis, and then restore log, index, head and counter; the ledger is then sound exactly when no id is spent twice; otherwise nothing changes |
| Ledger.ReadLog | impl/go/approval/approval.go:233-266 | the replay loop, hashing each record as it stands, accepts exactly the chained logs and rebuilds the entries, index and head they determine |
| Ledger.ReopenRestores | impl/go/approval/approval.go:233-266 | the records of a sound ledger are read back as the same log |
| Ledger.AdmitSound | tools/approval_oracle.py:81-93 | one consume keeps the log linked with every id spent once |
| Ledger.RunSound | tools/approval_oracle.py:81-93 | after any sequence of attempts ids are pairwise distinct, positions, prev links and head are right, and the log is exactly the accepted entries in order |
| Ledger.FirstPassingWins | tools/approval_state_oracle.py:10-22 | every outcome of every run from its own attempt and the earlier ones: signature, then mismatch, then expiry, then effect, then single use; the first passing attempt consumes and later ones are AlreadyConsumed |
| Ledger.RefusalsLeaveNoTrace | tools/approval_state_oracle.py:138-149 | running only the successful attempts gives the same log and the same accepted outcomes |
| Ledger.HeldExactly | tools/approval_state_oracle.py:103-149 | the ids spent after a run are exactly those of the attempts that passed every check before the ledger |
| Ledger.LogBinding | tools/approval_oracle.py:38-60 | two sound logs with one head are the same records, or two records collide |
| Ledger.ReplayAdmitsReuse | impl/go/approval/approval.go:233-266 | for every id there is a chained log that spends it twice |
| Ledger.ReplayAdmitsIncomplete | impl/go/approval/approval.go:589-634 | a first record holding only position and link is read back, as spending the empty id |
| ConsumeReceipts.ForkMeansConflict | tools/consume_receipt_oracle.py:87-103 | the byte comparison means: same approval, and ledger or position differs |
| ConsumeReceipts.ReceiptBytesCarry | tools/consume_receipt_oracle.py:87-94 | a consume receipt is {1: ledger, 2: approval_id, 3: position} and nothing more |
| ConsumeReceipts.HonestLedgerNeverForks | tools/consume_receipt_oracle.py:201-206 | no two receipts of one ledger, after any run, are a fork |
| ConsumeReceipts.DoubleSpendProvable | tools/consume_receipt_oracle.py:208-232 | receipts of two runs for one approval are a fork exactly when the ledger or the assigned log position differs |
| Delegation.ScopeOrder | tools/delegation_oracle.py:104-116 | scope containment is a partial order with the empty scope on top |
| Delegation.ScopeBoundary | tools/delegation_oracle.py:104-116 | contained exactly when the parent is empty, or the child is the parent or continues it with a slash |
| Delegation.ScopeTable | tools/delegation_oracle.py:119-132 | the reference table, with a name that merely starts alike refused |
| Delegation.CandidatesMeaning | tools/delegation_oracle.py:137-143 | the filtered list is empty when no cause grants to the party, and one grant exactly when one position does |
| Delegation.VerifyChain | tools/delegation_oracle.py:146-204 | the loop computes the specified walk and terminates on every grant graph |
| Delegation.GuardsNeverFire | tools/delegation_oracle.py:162-204 | the verdict equals that of the walk with no visited set, no hop count and no zero-depth test, save for a leaf of negative depth without another fault |
| Delegation.NegativeLeafRefused | tools/delegation_oracle.py:183-200 | a root grant of negative depth to the actor is refused for its depth, and with depth 0 authorises |
| Delegation.AuthorizedIffChain | tools/delegation_oracle.py:146-204 | authorized exactly when a leaf-to-root chain exists: uniquely resolved, live, attenuating in effect and scope, depth strictly growing, rooted at an anchor |
| Delegation.ChainUnique | tools/delegation_oracle.py:146-204 | there is at most one such chain |
| Delegation.NoAmplification | tools/delegation_oracle.py:178-182 | no grant of a chain, and not the action, exceeds any ancestor in effect or scope |
| Delegation.ChainLength | tools/delegation_oracle.py:183-200 | a chain has at most root.max_depth + 1 grants |
| Delegation.AuthorityMonotone | tools/delegation_oracle.py:146-204 | lower effect, contained scope, more anchors and fewer revocations in force keep an action authorized |
| Delegation.VerdictExactly | tools/delegation_oracle.py:146-204 | every verdict exactly: none or two authorising causes, or a chain of sole authorising grants with nothing wrong below its last, which is in the state the verdict names, faults in the source's order |
| Merge.Reconcile | tools/federation_oracle.py:33-49 | Kahn's loop with its indegree counters computes the specified merge, failing where nothing is ready |
| Merge.RemainingZero | tools/federation_oracle.py:38-48 | a counter reaches zero exactly when its causes are listed once each and all emitted |
| Merge.ListedLast | tools/federation_oracle.py:33-37 | the causes listed for an id are those of the last node that has it |
| MergeOrder.CheckCausallyValid | tools/federation_oracle.py:52-59 | the nested scan decides that no object precedes a listed cause present in the order |
| MergeOrder.PositionsLast | tools/federation_oracle.py:52-54 | a repeated id counts where it comes last |
| MergeOrder.StrictExactly | tools/federation_oracle.py:52-59 | a list of all ids puts every present cause strictly first exactly when the check accepts it and no object lists itself |
| MergeOrder.MergeSucceedsExactly | tools/federation_oracle.py:33-49 | succeeds exactly when ids are distinct, no present cause repeats and present causes are acyclic |
| MergeOrder.MergeCorrect | tools/federation_oracle.py:33-59 | the result holds every id once and is causally valid |
| MergeOrder.MergeOrderIndependent | tools/federation_oracle.py:33-49 | any permutation of the input gives the same result, failures included |
| MergeOrder.SplitIndependent | tools/federation_oracle.py:7-12 | however the objects are split across authorities, reconciling the parts gives one result |
| MergeOrder.MergeIsLeast | tools/federation_oracle.py:42-43 | the result is lexicographically least among all causally valid orders of the ids |
| MergeOrder.VerifiedExactly | tools/reconcile_state_oracle.py:198-226 | where the merge succeeds the verify event accepts exactly the valid order that no valid order precedes; where it fails, none |
| MergeOrder.RepeatedCauseFails | tools/reconcile_state_oracle.py:96-113 | a concrete graph with a repeated cause has an accepted order but cannot be merged |
| MergeOrder.SelfCauseFails | tools/federation_oracle.py:33-59 | an object naming itself passes the causal check but cannot be merged |
| Identity.ResolveThread | tools/identity_records_oracle.py:399-424 | resolves exactly the non-empty, contiguous, fully co-signed evidence lists, to root, current id and chain |
| Identity.ThreadsCompose | tools/identity_records_oracle.py:399-424 | a + b resolves exactly when both do and a ends where b begins; the chains join |
| Identity.AdjacentCoSigned | tools/identity_records_oracle.py:406-422 | every adjacent pair of a resolved chain is a rotation whose two keys derive to the two ids and both signed the record |
| Identity.Attributable | tools/identity_records_oracle.py:448-456 | the ids in a thread are exactly those its links name |
| Identity.RevokedAt | tools/identity_records_oracle.py:150-154 | finds the first revocation of the key that the position is past, if there is one |
| Identity.LastGoodPosition | tools/identity_records_oracle.py:150-154 | a key is good at the last position its revocation allows, revoked at the next, and no other key is touched |
| Identity.RevocationPermanent | tools/identity_records_oracle.py:150-154 | a revoked key stays revoked at later positions and when revocations are added |
| Multihash.EncodeUvarint | tools/multihash_oracle.py:52-68 | the loop computes the specified base-128 form |
| Multihash.DecodeUvarint | tools/multihash_oracle.py:71-90 | the loop computes the specified value and new offset, or truncation, or too long |
| Multihash.EncodeDigits | tools/multihash_oracle.py:52-68 | octet i holds the i-th base-128 digit, with the high bit set on all but the last |
| Multihash.ReadDigits | tools/multihash_oracle.py:71-90 | whatever form is read, octet i gave the i-th base-128 digit of the value |
| Multihash.ThreeHundred | tools/multihash_oracle.py:20-24 | 300 is AC 02 |
| Multihash.VarintRoundTrip | tools/multihash_oracle.py:52-90 | at any offset and before any octets, decoding inverts encoding exactly below 2^70 and is refused from there on |
| Multihash.AcceptedExactly | tools/multihash_oracle.py:71-90 | a varint is accepted exactly when one of the ten octets at the offset is below 128, and ends at the first such |
| Multihash.SixtyFourBitsExactly | tools/multihash_oracle.py:71-90 | every accepted value is below 2^70, and below 2^64 exactly when one of the first nine octets is below 128 or the tenth is 0 or 1 |
| Multihash.SixtyFiveBitsAccepted | tools/multihash_oracle.py:71-90 | the ten octets of 2^64 are accepted |
| Multihash.CanonicalExactly | tools/multihash_oracle.py:71-90 | an accepted varint is the canonical one exactly when its first octet below 128 stands alone or is not zero |
| Multihash.PaddedZeroAccepted | tools/multihash_oracle.py:71-90 | the two-octet form of zero is accepted |
| Multihash.MultihashRoundTrip | tools/multihash_oracle.py:102-124 | decoding inverts encoding and refuses every proper extension |
| Multihash.MultihashPrefixRefused | tools/multihash_oracle.py:102-124 | every proper prefix of an encoding is refused as truncated |
| Multihash.MultihashExactly | tools/multihash_oracle.py:102-124 | accepted exactly where a varint, a varint and as many octets as it says make up the whole |
| Multihash.ContentIdValidates | tools/multihash_oracle.py:127-141 | every framed digest validates and gives back the digest |
| Multihash.ValidatesExactly | tools/multihash_oracle.py:127-141 | accepted exactly as a multihash of code 0x20 and 48 octets, and the fault otherwise: the form's, then the code's, then the length's |
| Multihash.ContentIdExactly | tools/multihash_oracle.py:127-141 | an accepted id is the two-octet framing and its digest exactly when it has 50 octets |
| Multihash.PaddedContentIdAccepted | tools/multihash_oracle.py:127-141 | a 51-octet string validates for every digest |
| SignerCounter.Detect | tools/signer_counter_oracle.py:242-259 | the grouping and sorting loops produce findings in order, one per counter bound to two or more ids, listing all of them in order |
| SignerCounter.ReportedExactly | tools/signer_counter_oracle.py:242-259 | a counter is reported exactly when two presented objects of the signer share it with different ids |
| SignerCounter.DetectionUnchanged | tools/signer_counter_oracle.py:242-259 | reordering or repeating presented objects gives the same list of findings |
| SignerCounter.DetectionMonotone | tools/signer_counter_oracle.py:242-259 | more objects never withdraw a finding nor drop an id from it |
| Registry.Validate | scripts/validate_registries.py:143-191 | no finding exactly when the instance satisfies the schema declaratively, whatever the path; and the findings are exactly the genuine ones, each at its place with the keyword failed there, a wrong type hiding all others |
| Registry.GenuineUnder | scripts/validate_registries.py:172-190 | findings lie at or below the path given |
| Registry.DecimalMeaning | scripts/validate_registries.py:174 | an element's place is its index in decimal |
| Registry.TypeMeaning | scripts/validate_registries.py:109-124 | each instance goes by its type names, and a name none goes by admits all |
| Registry.DeclaredMeaning | scripts/validate_registries.py:180-183 | a property is declared exactly when its name is among the schema's |
| Registry.TextBounds | scripts/validate_registries.py:156-162 | the length bounds are inclusive |
| Registry.CountMatches | scripts/validate_registries.py:168-171 | the count is that of the satisfied subschemas, and one exactly when one is satisfied |
| Registry.PyEqMeaning | scripts/validate_registries.py:152-155 | the equality used by const and enum is JSON equality after reading booleans as 0 and 1 |
| Conformance.ConstAgreesExactly | scripts/validate_registries.py:152-155 | a constant is compared with every instance as JSON Schema compares it exactly when it holds, at any depth, no boolean and no number equal to 0 or 1 |
| Conformance.EnumAgreesExactly | scripts/validate_registries.py:154-155 | a list of constants is compared with every instance as JSON Schema compares it exactly when every variant of a listed constant, with booleans and 0 or 1 exchanged, is listed too |
| Conformance.EnumOfBothAgrees | scripts/validate_registries.py:154-155 | the list of true and 1 is compared as JSON Schema compares it |
| Conformance.EqualityAgrees | scripts/validate_registries.py:152-155 | JSON equality implies the equality used; the converse holds where no boolean of one value can meet a 0 or 1 of the other |
| Conformance.TypesAgreeExactly | scripts/validate_registries.py:109-124 | the type test is JSON Schema's exactly when it is not an integral float against integers only |
| Conformance.TypesPortableExactly | scripts/validate_registries.py:109-124 | it is so for every instance exactly when the list does not admit integers without admitting floats |
| Conformance.RangeAgreesExactly | scripts/validate_registries.py:163-167 | the range test is JSON Schema's exactly when it is not a float outside the bounds |
| Conformance.RangePortableExactly | scripts/validate_registries.py:163-167 | it is so for every instance exactly when there are no bounds |
| Conformance.ConditionalAgreesExactly | scripts/validate_registries.py:175-190 | an instance meets if, then and else as in JSON Schema under every schema exactly when it is an object |
| Conformance.ReadingsAgree | scripts/validate_registries.py:143-191 | where none of these departures is met, an instance satisfies a schema exactly when it conforms to it in JSON Schema's sense |
| Conformance.TrueSatisfiesConstOne | scripts/validate_registries.py:152-153 | the boolean true passes a const of 1 and does not conform |
| Conformance.TrueSatisfiesEnumOfOne | scripts/validate_registries.py:154-155 | the boolean true passes an enum of 1 and does not conform |
| Conformance.FloatEscapesMaximum | scripts/validate_registries.py:163-167 | 5.0 passes a maximum of 4 and does not conform |
| Conformance.IntegralFloatRefused | scripts/validate_registries.py:112-113 | 1.0 is refused as an integer and conforms |
| Conformance.ConditionalSkipped | scripts/validate_registries.py:175-190 | an integer passes a then-branch that it does not conform to |
| Conformance.DepartureHidden | scripts/validate_registries.py:143-191 | the condition on a whole schema is not necessary: a type keyword hides a departure of const |
| Registry.FindDuplicateKeys | scripts/validate_registries.py:85-102 | reports each repeated row once, in order, with the first row of its key; rows minus distinct keys findings in all |
| Registry.KeyMeaning | scripts/validate_registries.py:94-97 | two rows have one key exactly when they agree in every key column, an absent cell being empty |

## Left out

- The internals of SHA-384, ML-DSA, base32 and regular expressions: parameters here.
- The `("raw", bytes)` escape of the encoder: it injects arbitrary octets to build inputs that must be rejected, so the canonical form does not hold of it by design.
- Python `str`: a text value carries its UTF-8 octets, and a lone surrogate shows as octets that are not well-formed UTF-8; the conversion itself is not modelled.
- In-place sorting of encoded pairs (`enc_pairs.sort`) and of detector keys (`sorted`): library calls, modelled as functions or methods on values.
- Write-ahead-log files, the four-octet length before each record, fsync and the ledger mutex: the log is a sequence of records and each consume is one step.
- The optional audience of an approval, and the 64-bit wrap of the Go position counter: a position past the 64-bit range is refused as unencodable, as the reference encoder does.
- Continuation.VerifyCommit: takes the payload and its signature; the signature envelope's own form and algorithm are not modelled. Parsing of FlowOpen, link and checkpoint payloads is as for the commit's, and `VerifyFlow` starts after the FlowOpen's signature.
- `fork_proof_preimage`, checkpoint, witness and inclusion-proof bodies and the other body constructors: instances of `Records.RecordInjective`.
- The add-chain and linearize rows of the reconcile table beyond chain verification and equivocation: its reference file only lists verdicts.
- Identity.ResolveThread: the record octets of a link are taken as presented, as the reference model does; that they encode the two ids is not checked there.
- `verify_revocation_model` and attested-controls records: one-step decisions.
- Registry.Validate: boolean schemas, NaN and infinities do not occur in the instances modelled; the text of messages is reduced to a kind.
- CSV and JSON reading and writing, vector fixtures, the finite effect, transport, delivery, stream and hazard tables: output plumbing or easy members.
