# Verified model of dominion-core

Dafny models of the hardest logic in `dominion-core`, with proofs that hold for every input,
every run or every reachable state. `dafny verify dfyconfig.toml` checks the whole project.

What is modelled, by module:

- **Consensus** (`BftTypes`, `BftCodec`, `Validator`, `BftSafety`, `BftSplit`, `BftBlame`, `BftLog`,
  `BftProgress`; signer in `Lamport`, `Merkle`). The validator's handlers are functions on its state, and a class runs them in place and
  is proved equal to them. A run interleaves deliveries of arbitrary votes, proposals and view-change
  requests at honest validators; Byzantine validators may sign anything. The one assumption on the
  network is unforgeability: a vote that verifies under an honest root was signed by that validator.
- **ChaCha20-Poly1305** (`Poly1305`, `Poly1305Tag`, `Poly1305Mac`, `Aead`). The five-limb arithmetic
  against the integer definition of RFC 8439, the streaming object, and the AEAD composition. The
  ChaCha20 block function is a parameter.
- **Matrix multiply** (`Matmul`). Packing, micro-kernel, blocking and two-dimensional tiling with
  uninterpreted scalar operations.
- **Confidential transactions** (`ModGroup`, `Ctx`, `CtxSound`). Completeness of build and verify, and
  soundness of range and balance proofs by extraction. The group parameters are assumed to satisfy
  p = m q + 1 with both generators of order dividing q; soundness also needs inverses modulo q and
  commitments in the subgroup.
- **Fenced replicated store** (`Fence`, `GossipCodec`, `Replica`). The merge as a join, the gossip
  format, convergence, and the fence invariants over runs.
- **Compute graph** (`Dcg`, `DcgInterp`). Lowering, the memoised evaluation, and the graph against strict
  evaluation and against the tree-walking interpreter.
- **Deadline test** (`Edf`), **selector matching** (`Css`).
- **Stores and ledgers** (`ColdTier`, `Airlock`, `Capability`, `CapShim`).

Shared vocabulary is in `Arith`, `Bits`, `Bytes`, `Lex`, `MapSum` and `Ordered`. SHA-256 is a
parameter (`HashFn`). No hash into 32 bytes is injective, so nothing assumes that it is: a result
either names the strings that must not collide, or ends in a collision between strings that it names.
Machine integers wrap explicitly wherever a wrap can be reached. A few definitions are written in
two or three mutually recursive steps; this only controls where the solver unfolds them.

Where code and comments disagree the model follows the code:

- `datatypes.rs:328-332` says the bits never depend on the block sizes. They depend on the depth
  block KC, since each block is summed from zero and then added, exactly unless addition is
  associative (`Matmul.BlocksNeverShowIff`, `Matmul.BlockSizeMatters`); they do not depend on the worker
  count or on the other block sizes.
- `consistency.rs:16-22` promises that a rolled-back write can never return. A wrap of
  the 32-bit logical counter breaks this (`Replica.WrapResurrects`); `Replica.StepKeeps` and
  `Replica.QuarantineHoldsIff` have the exact conditions.
- `audio.rs:180-181` promises an if-and-only-if; a wrap of the 64-bit clock breaks one direction.
- `dcg.rs:27` says the graph yields what the interpreter would. It does not in five ways: a
  division by zero that one of them does not reach (`Dcg.DeadDivision`, `DcgInterp.ShortCircuitParts`), a
  boolean used as an integer, an integer compared with a boolean, an affine name, a trailing binding.
  `DcgInterp.InterpretsExactly` has the condition, `DcgInterp.PlainAgreesExactly` the part of it that can
  be read off a function before any call.
- `coldcomp.rs:76-80` describes object counts that `evict` does not maintain, and `coldcomp.rs:425-457` takes the
  bytes of an entry that displaces itself off the hot count twice (`ColdTier.PutCounts`, `ColdTier.CountFallsShort`).
- `bft.rs:213` documents n = 3f+1 and the code does not enforce it; for every other n there is a run
  in which honest validators disagree (`BftSplit.SplitRun`).

## Model

| member | source | states |
|---|---|---|
| `BftSafety.RunsAgree` | dominion-core/src/bft.rs:453-603 | In every state of every run with n = 3f+1 and at most f Byzantine signers, honest validators that committed a slot, in whatever views, hold the same value; two different values would be a hash collision |
| `BftSafety.RunsAgreeAcrossTime` | dominion-core/src/bft.rs:453-603 | The same for commits at different points of a run |
| `BftSafety.CommittedForEver` | dominion-core/src/bft.rs:527-545 | A committed value is never withdrawn or replaced |
| `BftSafety.CertificatesSound` | dominion-core/src/bft.rs:496-525 | In every reachable state each held lock carries a certificate that verifies, and Prepare quorums for one view and slot name one value |
| `BftSafety.RunKeepsInv` | dominion-core/src/bft.rs:453-603 | The inductive invariant holds along every run: votes on record, one vote per view and slot, locks at or above every committed view, a Prepare quorum blocks earlier conflicting commits |
| `BftSafety.NextKeepsInv` | dominion-core/src/bft.rs:439-603 | One delivery, proposal or suspicion keeps that invariant |
| `BftSafety.QuorumBlocks` | dominion-core/src/bft.rs:478-495 | A Prepare quorum leaves f+1 honest validators that left each earlier view without committing another value |
| `BftSafety.CommitQuorumsAgree` | dominion-core/src/bft.rs:527-545 | Commit quorums for one slot in any two views name one digest |
| `BftSafety.InvImpliesAgreement` | dominion-core/src/bft.rs:527-545 | The invariant implies agreement |
| `BftSafety.QuorumsMeet` | dominion-core/src/bft.rs:227-234 | Two quorums of 2f+1 share an honest backer |
| `BftSafety.TallyIsQuorum` | dominion-core/src/bft.rs:496-510 | A tally of 2f+1 distinct verified signers is a quorum even when f of them lie |
| `BftSafety.SplitExactlyUnless3fPlus1` | dominion-core/src/bft.rs:213-234 | On sets of ids: f faults can be the whole intersection of two quorums of 2f+1 if and only if n is not 3f+1 |
| `BftSplit.AgreementIff3fPlus1` | dominion-core/src/bft.rs:213-234 | For validators with fresh keys and any two values of different digests, every run with at most f faults keeps agreement if and only if n = 3f+1; the code computes f and 2f+1 for every n |
| `BftSplit.SplitRun` | dominion-core/src/bft.rs:439-545 | For every n other than 3f+1, two and three validators without any fault included, a run of proposals and deliveries after which honest validators have committed different values |
| `BftBlame.BlameIsDeserved` | dominion-core/src/bft.rs:326-331 | Every equivocation proof emitted in a run verifies, and accuses a Byzantine validator or an honest leader that proposed twice for the slot in that view |
| `BftBlame.RunKeepsBlame` | dominion-core/src/bft.rs:453-476 | What has been seen stays verified and attributed along every run |
| `BftBlame.TwoBallotsTwoProposals` | dominion-core/src/bft.rs:439-450 | Two conflicting honest PrePrepares come from two separate calls of propose |
| `BftLog.RunKeepsLog` | dominion-core/src/bft.rs:535-544 | In every run the log digest is the hash chain of the validator's commits, which list each committed slot once with the digest of its value |
| `BftLog.EqualLogsEqualHistories` | dominion-core/src/bft.rs:535-544 | Honest validators with equal log digests have the same commit history, or the hash collides on two strings, one hashed into the chain of each |
| `BftLog.LogBinds` | dominion-core/src/bft.rs:535-544 | The chain binds the whole history, length included: equal digests give equal histories, or the hash collides on a string hashed into the one chain and a string hashed into the other |
| `BftLog.LogInputLayout` | dominion-core/src/bft.rs:538-543 | Previous digest, slot, value digest, in that order |
| `BftProgress.NewLeaderProposes` | dominion-core/src/bft.rs:439-450 | After requests of a quorum of signers for its view, their certified locks in the payloads, the leader proposes for every slot the value of a lock at least as high as its own and as each certified one among them, whatever it is asked to propose |
| `BftProgress.LockTravels` | dominion-core/src/bft.rs:550-603 | A lock sent in start_view_change is, at whoever ingests it, the lock of the slot unless one at least as high is held, and its value is what that validator proposes when it leads |
| `BftProgress.ViewChangeCompletes` | dominion-core/src/bft.rs:572-603 | Requests of different signers up to a quorum are all counted and merged, and the view is entered exactly when the quorum is complete |
| `BftProgress.MergeAdopts` | dominion-core/src/bft.rs:583-592 | For every slot the highest of the old lock and the certified carried ones, the old one where it is as high; a slot without a lock takes any certified one |
| `BftProgress.ViewChangeTaken` | dominion-core/src/bft.rs:572-603 | Exactly what one request does: merge, count, enter the view at a quorum, drop records of earlier views |
| `BftProgress.RequestSent` | dominion-core/src/bft.rs:550-570 | One verifying request per next view while keys last, whose payload decodes to exactly the locks held |
| `BftProgress.ProposalSent` | dominion-core/src/bft.rs:439-450 | Exactly the leader proposes: the locked value of the slot, else the given one, in a vote that verifies |
| `BftProgress.PrepareSent` | dominion-core/src/bft.rs:478-494 | A Prepare for the proposed value is sent if and only if the proposal is of this view and its leader, no lock speaks for another value and none was sent |
| `BftProgress.CommitSent` | dominion-core/src/bft.rs:496-525 | The Prepare that completes a quorum, and no other, locks its value with every retained vote and sends one Commit |
| `BftProgress.SlotCommitted` | dominion-core/src/bft.rs:527-545 | The Commit that completes a quorum for a slot not committed, and no other, commits its value |
| `BftProgress.EquivocationReported` | dominion-core/src/bft.rs:453-466 | Equivocation is reported if and only if a verifying vote conflicts with the one on record, with that pair, and then nothing else happens |
| `Validator.Validator.Receive` | dominion-core/src/bft.rs:453-476 | The in-place ingest: new state and outputs are those of the specification function for every state and vote |
| `Validator.Validator.ProposeValue` | dominion-core/src/bft.rs:439-450 | propose re-proposes the locked value of a slot, else the given one |
| `Validator.Validator.ReceivePrePrepare` | dominion-core/src/bft.rs:478-494 | Refusal off-view, from a non-leader, or against the lock; one Prepare per view and slot |
| `Validator.Validator.ReceivePrepare` | dominion-core/src/bft.rs:496-525 | Retain, tally, and at a quorum lock with the certificate and send Commit once |
| `Validator.Validator.ReceiveCommit` | dominion-core/src/bft.rs:527-545 | Commit once per slot at a quorum and extend the log digest |
| `Validator.Validator.ReceiveViewChange` | dominion-core/src/bft.rs:572-603 | Adopt certified higher locks, count the target view, move at a quorum |
| `Validator.Validator.VerifyPreparedCert` | dominion-core/src/bft.rs:608-623 | True if and only if every vote is a verifying Prepare for that view, slot and value and the signers are a quorum |
| `Validator.Validator.VerifyVote` | dominion-core/src/bft.rs:299-309 | True if and only if the digest matches, the signer exists and the signature verifies |
| `Validator.Validator.RequestViewChange` | dominion-core/src/bft.rs:550-570 | One request per target view, carrying the encoded locks; the target wraps at 32 bits |
| `Validator.Validator.SignVote` | dominion-core/src/bft.rs:425-436 | A vote under the next one-time key, or nothing once exhausted |
| `Validator.Validator.AdoptLocks` | dominion-core/src/bft.rs:583-592 | The merge of carried locks, in order |
| `Validator.CertMembers` | dominion-core/src/bft.rs:513-519 | A certificate contains exactly the retained votes |
| `BftTypes.SignedBytesInjective` | dominion-core/src/bft.rs:289-296 | The signed bytes determine view, slot, phase and digest |
| `BftTypes.SignedBytesLayout` | dominion-core/src/bft.rs:289-296 | View, slot, phase tag and digest, in that order |
| `BftTypes.SetSizes` | dominion-core/src/bft.rs:220-241 | f is the largest number with 3f+1 at most n, and the lead goes round the validators |
| `BftCodec.VoteRoundTrip` | dominion-core/src/bft.rs:704-747 | decode of encode is the vote if and only if its lengths and index fit in 32 bits |
| `BftCodec.DecodedVoteFits` | dominion-core/src/bft.rs:724-747 | Whatever decodes fits in 32 bits |
| `BftCodec.VoteRead` | dominion-core/src/bft.rs:724-747 | Whatever decodes is the encoding of what it decodes to, with perhaps more behind it |
| `BftCodec.VoteLayout` | dominion-core/src/bft.rs:704-722 | The fields of a vote on the wire, in order; FieldStands has their positions |
| `BftCodec.LockLayout` | dominion-core/src/bft.rs:625-643 | The fields of a lock on the wire, in order |
| `BftCodec.LocksRoundTrip` | dominion-core/src/bft.rs:625-700 | A view-change payload decodes to exactly the locks, nested certificates included, in slot order |
| `BftCodec.EntriesComplete` | dominion-core/src/bft.rs:625-643 | The entries are exactly the locks, once each, in ascending slot order |
| `BftCodec.WriteVote` | dominion-core/src/bft.rs:704-722 | The byte-appending encoder computes the encoding |
| `BftCodec.ReadVote` | dominion-core/src/bft.rs:724-747 | The cursor decoder computes the decoding, None on every truncation |
| `BftCodec.WriteLocks` | dominion-core/src/bft.rs:625-643 | The loop over locks and certificates computes the encoding |
| `BftCodec.ReadLocks` | dominion-core/src/bft.rs:645-700 | The decoder loop, which keeps what precedes a malformed entry |
| `Merkle.PathReachesRoot` | dominion-core/src/bft.rs:174-194 | Folding the path of any index over any non-empty leaf list yields the root |
| `Merkle.RootOfHalves` | dominion-core/src/bft.rs:37-58 | The root over two halves of one power-of-two size is the hash of the left root and then the right |
| `Merkle.LoneLeaf` | dominion-core/src/bft.rs:44-58 | A node without a neighbour is hashed with itself |
| `Merkle.PathBindsLeaf` | dominion-core/src/bft.rs:174-208 | For an index in range, a path as long as the tree is high that reaches the root is the authentication path of the indexed leaf, or the hash collides on a pair of its climb and a pair of the climb of that leaf |
| `Merkle.RootBindsKeys` | dominion-core/src/bft.rs:196-208 | With any index and a path of any length, a key whose digest folds to the root is one of the keys at the leaves, or the hash collides on bytes that were shown (the key, a pair on the climb) and bytes hashed to build the tree |
| `Merkle.OnlyOwnSignatures` | dominion-core/src/bft.rs:196-208 | Whatever verify_sig accepts under a signer's root, index and path unchecked, is the signature that signer makes of that message with one of its own one-time keys, or the hash collides on bytes of the signature and bytes the signer hashed |
| `Merkle.SlotBindsMessage` | dominion-core/src/bft.rs:139-149 | What a slot signed verifies for no message of another digest, unless two secret values of one pair, or what they are hashed from, collide |
| `Merkle.SecretsAllDiffer` | dominion-core/src/bft.rs:107-112 | No two secret values of a signer, of one slot or of two, are hashed from the same bytes |
| `Merkle.SignatureVerifies` | dominion-core/src/bft.rs:139-149 | Every signature made under a slot verifies under the published root |
| `Merkle.SlotsUsedOnce` | dominion-core/src/bft.rs:154-172 | Call k of any run of sign_next uses slot next+k and verifies; once the slots are used up it returns None for ever |
| `Merkle.MerkleRoot` | dominion-core/src/bft.rs:44-58 | The level-by-level loop computes the root |
| `Merkle.ComputeAuthPath` | dominion-core/src/bft.rs:174-194 | The loop computes the authentication path |
| `Merkle.VerifySig` | dominion-core/src/bft.rs:196-208 | True if and only if the one-time signature verifies and the path folds to the root |
| `Merkle.Signer.constructor` | dominion-core/src/bft.rs:95-105 | 2^height leaves, each the digest of its one-time key, under their root |
| `Merkle.Signer.SignWithNext` | dominion-core/src/bft.rs:154-172 | Consumes the next slot or refuses |
| `Lamport.SignVerifies` | dominion-core/src/crypto.rs:67-105 | What sign produces verify accepts under the matching key |
| `Lamport.OnlySecretOpens` | dominion-core/src/crypto.rs:90-105 | And nothing else: a signature accepted under a public key is the one sign produces, or one of its 32-byte values collides with the secret value of that bit |
| `Lamport.SignatureBindsMessage` | dominion-core/src/crypto.rs:57-105 | A signature of one message verifies for another only if their digests are equal, or two secret values of one pair collide |
| `Lamport.MsgBitIsBit` | dominion-core/src/crypto.rs:57-59 | Bit i of a digest is bit i of the little-endian number it is |
| `Lamport.BitsAreDigest` | dominion-core/src/crypto.rs:57-59 | The 256 bits determine the digest |
| `Lamport.VerifyMessage` | dominion-core/src/crypto.rs:90-105 | True if and only if both lengths are right and every revealed value hashes to the entry its message bit selects |
| `Lamport.Keygen` | dominion-core/src/crypto.rs:67-78 | The double loop builds the 512 digests of the secret values |
| `Lamport.SignMessage` | dominion-core/src/crypto.rs:80-88 | The loop reveals one secret value per message bit |
| `Poly1305Mac.OneShot` | dominion-core/src/chacha.rs:240-244 | For every key and message the tag is the one of section 2.5 of RFC 8439 |
| `Poly1305Tag.TagIsPolynomial` | dominion-core/src/chacha.rs:94-236 | That tag is the sum of blocks times powers of the clamped r modulo 2^130-5, plus s, modulo 2^128 |
| `Poly1305Tag.AccumulateIsPolynomial` | dominion-core/src/chacha.rs:125-157 | The running accumulator is the polynomial modulo p |
| `Poly1305.AbsorbExact` | dominion-core/src/chacha.rs:125-157 | One block: limbs stay reduced and stand for (acc + block) r modulo p, with no 32-bit or 64-bit step wrapping |
| `Poly1305.PiecesExact` | dominion-core/src/chacha.rs:129-138 | The five pieces of a block are its little-endian value plus the high bit |
| `Poly1305.Low26IsMask` | dominion-core/src/chacha.rs:134-138 | Masking with 0x3ffffff keeps the low 26 bits, the remainder the limbs are stated with |
| `Poly1305.ProductsFit` | dominion-core/src/chacha.rs:140-145 | The column sums fit in 64 bits |
| `Poly1305.ProductsExact` | dominion-core/src/chacha.rs:140-145 | The columns equal the product up to a multiple of p |
| `Poly1305.CarryExact` | dominion-core/src/chacha.rs:147-154 | The carry chain truncates nothing, keeps the limbs reduced and subtracts a multiple of p |
| `Poly1305Tag.KeyLimbsExact` | dominion-core/src/chacha.rs:95-101 | The limbs of the key are the r of the standard, clamped |
| `Poly1305Tag.FullCarryExact` | dominion-core/src/chacha.rs:194-199 | The final carry leaves 26-bit limbs: if every carry fires, limb 1 has room for the last |
| `Poly1305Tag.FreezeExact` | dominion-core/src/chacha.rs:201-217 | The masked selection leaves the least residue |
| `Poly1305Tag.RepackExact` | dominion-core/src/chacha.rs:219-223 | Repacking joins fields that do not overlap and drops only what is beyond bit 128 |
| `Poly1305Tag.TagAdd` | dominion-core/src/chacha.rs:225-229 | Word-wise addition of the pad is addition modulo 2^128 |
| `Poly1305Tag.FinishTag` | dominion-core/src/chacha.rs:191-236 | finalize after the last block yields the sealed tag |
| `Poly1305Mac.AbsorbedExact` | dominion-core/src/chacha.rs:159-181 | After any whole number of blocks the limbs stand for the accumulator of the standard |
| `Poly1305Mac.Mac.constructor` | dominion-core/src/chacha.rs:95-120 | A fresh authenticator has absorbed nothing under the clamped key |
| `Poly1305Mac.Mac.Update` | dominion-core/src/chacha.rs:159-181 | The message grows by exactly the data and the state is the function of the whole message: chunking is invisible |
| `Poly1305Mac.Mac.Finalize` | dominion-core/src/chacha.rs:183-236 | The tag of everything fed, a partial block padded |
| `Aead.RoundTrip` | dominion-core/src/chacha.rs:278-324 | Decrypting an encryption returns the plaintext, for every plaintext; the block counter wraps, as it does in a release build |
| `Aead.AcceptsOnlyEncryptions` | dominion-core/src/chacha.rs:304-324 | Decryption accepts a pair if and only if it is the encryption of some plaintext, and then returns that one |
| `Aead.KeyBlockIsNotKeystream` | dominion-core/src/chacha.rs:278-299 | Block functions that differ in block 0 only encrypt alike: the key of the authenticator is never keystream |
| `Aead.TagDependsOnKeyBlock` | dominion-core/src/chacha.rs:278-324 | Tags and acceptance depend on the first half of block 0 and on no other block |
| `Aead.CipherByte` | dominion-core/src/chacha.rs:288-295 | Byte i of the ciphertext is byte i of the plaintext under byte i % 64 of block 1 + i / 64 |
| `Aead.MacDataInjective` | dominion-core/src/chacha.rs:266-274 | Padding and length block make the authenticated data unambiguous |
| `Aead.MacDataLayout` | dominion-core/src/chacha.rs:266-274 | Where both texts, the zeros and the two lengths stand |
| `Aead.AeadEncrypt` | dominion-core/src/chacha.rs:278-299 | The fused pass that feeds 64-byte chunks computes the encryption of the standard; its counter 1 + i wraps, where a debug build would stop |
| `Aead.AeadDecrypt` | dominion-core/src/chacha.rs:304-324 | The one-piece pass computes the decryption; None if and only if the tag differs |
| `Aead.Chacha20Xor` | dominion-core/src/chacha.rs:68-77 | The chunked in-place loop is the keystream with a wrapping block counter |
| `Aead.EqualTags` | dominion-core/src/chacha.rs:256-262 | The or-of-differences loop decides equality |
| `Matmul.MatmulWith` | dominion-core/src/datatypes.rs:230-310 | Some if and only if the shapes are compatible, and then every entry is one fixed fold over its row and column, for every worker count; the operations are uninterpreted |
| `Matmul.WorkerCountIrrelevant` | dominion-core/src/datatypes.rs:222-229 | There is one such tensor, so any two worker counts agree bit for bit |
| `Matmul.EntryIsSum` | dominion-core/src/datatypes.rs:486-501 | Over exact reals each entry is the sum of A[i,p] B[p,j] |
| `Matmul.TwoBlocks` | dominion-core/src/datatypes.rs:478-501 | Between depth 257 and 512 an entry is the run over the first 256 positions, then the run over the rest, each from zero |
| `Matmul.TwoTerms` | dominion-core/src/datatypes.rs:429-442 | A run takes positions in ascending order, the entry of A before that of B |
| `Matmul.BlocksVanish` | dominion-core/src/datatypes.rs:328-332 | For operations that are exact every block size gives the same straight fold |
| `Matmul.BlocksNeverShowIff` | dominion-core/src/datatypes.rs:328-332 | For a multiply followed by a commutative addition with a neutral zero, as the default madd is, and every depth block from 2 up: the block changes no entry of any product if and only if addition is associative |
| `Matmul.SingleBlocksVanish` | dominion-core/src/datatypes.rs:328-332 | Blocks of one never change an entry, whether or not addition is associative |
| `Matmul.BlockSizeMatters` | dominion-core/src/datatypes.rs:328-332 | With an addition that keeps two significant digits, for every block kc from 2 up, a row of length kc+2 sums to 110 in blocks of kc and to 100 in one block: the comment that the bits never depend on the block sizes is false of the depth block |
| `Matmul.MatmulRect` | dominion-core/src/datatypes.rs:451-508 | Every cell of any sub-rectangle is the entry of the full product |
| `Matmul.PackA` | dominion-core/src/datatypes.rs:349-359 | The panel holds the slab in stream order, zero past the band |
| `Matmul.PackB` | dominion-core/src/datatypes.rs:363-379 | The block holds every panel in stream order, zero past the columns |
| `Matmul.Microkernel` | dominion-core/src/datatypes.rs:429-442 | Each accumulator has run over the block in ascending order |
| `Matmul.AddTile` | dominion-core/src/datatypes.rs:491-500 | The micro-tile is added to exactly its cells |
| `Matmul.FillStrip` | dominion-core/src/datatypes.rs:478-504 | A strip of columns advances block by block; everything else is unchanged |
| `Matmul.RunTasks` | dominion-core/src/datatypes.rs:281-290 | Tile t is the rectangle at row t / n_tiles and column t % n_tiles |
| `Matmul.CeilCovers` | dominion-core/src/datatypes.rs:274-279 | The bands cover the range and none starts past it |
| `Matmul.PlaceTile` | dominion-core/src/datatypes.rs:294-308 | Assembly writes each tile to exactly its cells |
| `Ctx.Build` | dominion-core/src/ctx.rs:360-413 | Succeeds if and only if inputs equal outputs plus fee and every amount fits the bits; the result is accepted by verify, carries the fee, and each commitment is to its amount under the blinding drawn from its own seed |
| `Ctx.VerifyTx` | dominion-core/src/ctx.rs:418-429 | True if and only if every range proof and the balance proof verify |
| `Ctx.BitComplete` | dominion-core/src/ctx.rs:176-224 | Both branches of the OR-proof are accepted |
| `Ctx.BitChallengeBinds` | dominion-core/src/ctx.rs:141-151 | The challenge is 16 bytes of the digest of a transcript that determines the commitment and both announcements |
| `Ctx.RangeWidths` | dominion-core/src/ctx.rs:248-250 | Exactly widths 1 to 63 are accepted |
| `Ctx.ProveRange` | dominion-core/src/ctx.rs:242-275 | Succeeds if and only if the amount fits in 1..63 bits, with a proof that verifies and a commitment to it under the weighted sum of the draws |
| `Ctx.VerifyRange` | dominion-core/src/ctx.rs:279-295 | True if and only if lengths, every bit proof and the recomposition hold |
| `Ctx.RecomposeStep` | dominion-core/src/ctx.rs:262-266 | One more bit commitment adds its weight to both exponents |
| `Ctx.LowAll` | dominion-core/src/ctx.rs:258-259 | The weighted bits of an amount that fits sum to it |
| `Ctx.BalanceComplete` | dominion-core/src/ctx.rs:317-332 | The Schnorr balance proof is accepted for a pure power of h |
| `Ctx.BalanceExactly` | dominion-core/src/ctx.rs:317-332 | An honest answer to an unbalanced residual is accepted if and only if the challenge annihilates the net amount |
| `CtxSound.TxSound` | dominion-core/src/ctx.rs:418-444 | Transactions are sound: two accepted runs with different challenges determine an opening of every output in range, and with any openings of the inputs the amounts balance modulo q, or g is the power of h whose exponent the openings determine |
| `CtxSound.BalanceSound` | dominion-core/src/ctx.rs:328-332 | Two accepted balance proofs with different challenges determine the exponent of h that the residual is |
| `CtxSound.RangeSound` | dominion-core/src/ctx.rs:279-295 | Range proofs are sound: two accepted proofs over the same bit commitments, answering different challenges, determine bits and blindings whose weighted sums open the commitment, to an amount below 2^bits |
| `CtxSound.BitSound` | dominion-core/src/ctx.rs:211-224 | The one-of-two proof is sound: the bit is the branch whose challenge share differs, its blinding solves r (e - f) = s - t modulo q, and the two open the commitment |
| `CtxSound.BranchSound` | dominion-core/src/ctx.rs:217-223 | On one branch, answers s and t to different challenges e and f determine the exponent of h: r (e - f) = s - t modulo q |
| `Ctx.ResidualBalances` | dominion-core/src/ctx.rs:433-444 | When the amounts balance the residual is h to the net blinding |
| `Ctx.ComputeResidual` | dominion-core/src/ctx.rs:433-444 | The loops compute the residual |
| `Ctx.SchnorrHolds` | dominion-core/src/ctx.rs:186-196 | The real branch satisfies its equation |
| `Ctx.SimulationHolds` | dominion-core/src/ctx.rs:186-196 | The simulated branch satisfies its equation for any element of the subgroup |
| `Ctx.ElemMul` | dominion-core/src/ctx.rs:125-127 | Commitments multiply by adding amounts and blindings |
| `Ctx.ElemInv` | dominion-core/src/ctx.rs:117-119 | Raising to p-2 inverts on the subgroup, whether or not p is prime |
| `ModGroup.ModPow` | dominion-core/src/ctx.rs:52-63 | Square and multiply computes the power, for every modulus of at most 64 bits |
| `ModGroup.Mulmod` | dominion-core/src/ctx.rs:48-50 | The product modulo m whenever the 128-bit product of the residues does not wrap, so for every m of at most 64 bits |
| `Replica.Converge` | dominion-core/src/consistency.rs:172-253 | Replicas that started from or absorbed the same set of states, in any order and with repeats, hold identical cells |
| `Replica.GossipConverges` | dominion-core/src/consistency.rs:152-253 | Replicas fed sequences of encoded messages through merge_encoded, whose own states and heard states form the same set, in any order and with repeats, agree on every key that neither has pinned |
| `Replica.HearIsAbsorb` | dominion-core/src/consistency.rs:152-253 | A sequence of encoded messages has the effect of absorbing the states in that order, pinned keys aside |
| `Fence.MergeCommutes` | dominion-core/src/consistency.rs:220-253 | merge_one on unpinned honest cells is commutative |
| `Fence.MergeAssociates` | dominion-core/src/consistency.rs:220-253 | and associative, rollbacks included |
| `Fence.MergeIdempotent` | dominion-core/src/consistency.rs:220-253 | and idempotent |
| `Fence.MergeSound` | dominion-core/src/consistency.rs:220-253 | Whatever comes in, the merged fence is the maximum and a live stamp is above it |
| `Fence.LaterWins` | dominion-core/src/consistency.rs:220-253 | Of two writes above the merged fence the later wins, and at one time the one with the greater digest, as numbers; with none the key is empty at the fence |
| `Replica.GossipIsJoin` | dominion-core/src/consistency.rs:172-253 | Absorbing the listed cells of another replica is the key-wise join on every key not pinned here; pinned keys keep their fence |
| `Replica.NoResurrection` | dominion-core/src/consistency.rs:89-142 | In every run of put, rollback, quarantine, pin and arbitrary gossip, no write at or below a learned fence is live again, unless a rollback or quarantine of that key ran the 32-bit counter over |
| `Replica.RolledBackForNow` | dominion-core/src/consistency.rs:114-126 | In every run, after a rollback of a key its good value is read until the key is put, rolled back or quarantined again or gossip brings a later write or fence; unless the counter wraps |
| `Replica.PutForNow` | dominion-core/src/consistency.rs:89-97 | And so is a value put above the fence |
| `Replica.RollbackRestores` | dominion-core/src/consistency.rs:114-126 | Exactly when a rollback is accepted; then the good value with its digest is live, the fence is the later of stamp and fence, and no other key changes |
| `Replica.RollbackWins` | dominion-core/src/consistency.rs:114-126 | Merging the restored cell with the one it replaced, on either side, gives the restored one, unless the counter wraps |
| `Replica.PutStores` | dominion-core/src/consistency.rs:89-97 | Exactly when a put is accepted; then its value is live whatever stood there, and no other key changes |
| `Replica.QuarantineEmpties` | dominion-core/src/consistency.rs:130-142 | Exactly when a quarantine is accepted; then nothing is read and no other key changes |
| `Replica.RunFencesRise` | dominion-core/src/consistency.rs:89-142 | The fence of a key never falls along a run, with the same exception |
| `Replica.RunKeeps` | dominion-core/src/consistency.rs:220-253 | In every run the live stamp of a key is strictly above its fence, unless a rollback of that key ran the counter over |
| `Replica.StepKeeps` | dominion-core/src/consistency.rs:89-253 | From a sound cell, malformed inbound cells included, an operation leaves a sound cell if and only if it is not a wrapping rollback of the key, and lowers the fence if and only if it is a quarantine that wraps within the wall tick of the fence |
| `Replica.RunHonest` | dominion-core/src/consistency.rs:89-253 | Cells of replicas that hear only honest cells stay honest, unless a rollback of the key ran the counter over |
| `Replica.RollbackSoundIff` | dominion-core/src/consistency.rs:114-126 | The restored value stands above the new fence if and only if the 32-bit logical counter does not wrap |
| `Replica.QuarantineHoldsIff` | dominion-core/src/consistency.rs:130-142 | The quarantined write stays out on gossip if and only if the counter does not wrap |
| `Replica.QuarantineLowersIff` | dominion-core/src/consistency.rs:130-142 | Exactly when a quarantine lowers a fence |
| `Replica.WrapResurrects` | dominion-core/src/consistency.rs:89-253 | A run from the empty replica, for every key, value and wall time: put at the last logical tick, quarantine in that wall tick, gossip of the same entry; the value is live again |
| `Replica.PutMovesUpIff` | dominion-core/src/consistency.rs:89-97 | An accepted local write moves up the lattice if and only if it is not older than the live one |
| `Replica.FencedReplica.PutValue` | dominion-core/src/consistency.rs:89-97 | put in place; refused at or below the fence |
| `Replica.FencedReplica.RollbackKey` | dominion-core/src/consistency.rs:114-126 | rollback_key in place, with its refusals |
| `Replica.FencedReplica.QuarantineKey` | dominion-core/src/consistency.rs:130-142 | quarantine_key in place, with its refusals |
| `Replica.FencedReplica.MergeEntry` | dominion-core/src/consistency.rs:220-253 | merge_one in place, pinned keys keeping their fence |
| `Replica.FencedReplica.MergeBytes` | dominion-core/src/consistency.rs:172-216 | merge_encoded in place: the entries before the first fault are merged, and false is returned exactly on a fault |
| `Replica.GossipDelivers` | dominion-core/src/consistency.rs:152-253 | From encode to the last merge_one, one message joins the sender store into the receiver, pinned keys aside, which keep their fence |
| `GossipCodec.StoreRoundTrip` | dominion-core/src/consistency.rs:152-216 | Decoding gossip gives back exactly the cells, in key order, when lengths fit in 32 bits |
| `GossipCodec.WriteStore` | dominion-core/src/consistency.rs:152-166 | The walk over the ordered map computes the encoding |
| `GossipCodec.ListingExact` | dominion-core/src/consistency.rs:155-164 | The walk names every key once, with its cell |
| `GossipCodec.EntryRead` | dominion-core/src/consistency.rs:172-216 | Whatever is read as an entry is its encoding, but for the flag byte, and its key is text |
| `GossipCodec.CellLayout` | dominion-core/src/consistency.rs:152-166 | The fields of a cell on the wire, in order |
| `GossipCodec.MessageLayout` | dominion-core/src/consistency.rs:152-166 | The number of entries, then the entries in ascending key order |
| `Dcg.CompileRefines` | dominion-core/src/dcg.rs:81-157 | For every compiled function and all arguments, what strict evaluation on codes yields the graph yields |
| `DcgInterp.InterpretsExactly` | dominion-core/src/lang/interp.rs:271-594 | For every compiled function and all arguments: if the interpreter reaches something it refuses, the graph needs a zero divisor, or the function ends in a binding, the two agree exactly when both of the first two hold; otherwise they agree, unless the interpreter compared an integer with a boolean of the same code or a let stayed hidden behind an affine name |
| `DcgInterp.PlainAgreesExactly` | dominion-core/src/lang/interp.rs:271-594 | For well-typed functions without affine names or a division in the right operand of a short-circuit operator, and all arguments: the interpreter is strict evaluation, and the graph agrees with it if and only if no division the root does not need has a zero divisor, or one it needs has |
| `DcgInterp.BodyFault` | dominion-core/src/lang/interp.rs:271-594 | The interpreter fails if and only if it reaches a zero divisor, a boolean where an integer must be, a spent or unbound name |
| `DcgInterp.GraphFailsExactly` | dominion-core/src/dcg.rs:133-157 | The graph fails if and only if a division in the cone of its root has a zero divisor |
| `DcgInterp.BodySimulates` | dominion-core/src/lang/interp.rs:271-594 | Where the interpreter and the graph both have a value, it is the same up to the code of booleans |
| `DcgInterp.ShortCircuitParts` | dominion-core/src/lang/interp.rs:574-589 | The disjunction of 1 and 1 / 0 is true to the interpreter and fails in the graph |
| `DcgInterp.MixedEqualityParts` | dominion-core/src/lang/interp.rs:2736-2741 | (1 < 2) == 1 is false to the interpreter and 1 in the graph |
| `DcgInterp.MixedEqualityMayAgree` | dominion-core/src/lang/interp.rs:2736-2741 | ((1 < 2) == 1) && false mixes them too, and the two agree: that a comparison is mixed does not decide |
| `DcgInterp.NegatedBooleanParts` | dominion-core/src/lang/interp.rs:562-569 | -(1 < 2) is refused by the interpreter and -1 in the graph |
| `DcgInterp.AffineParts` | dominion-core/src/lang/interp.rs:2630-2642 | linear x = 1; return x + x fails in the interpreter and is 2 in the graph |
| `DcgInterp.TrailingBindingParts` | dominion-core/src/lang/interp.rs:271-289 | 1; let x = 2; is the unit value to the interpreter and 1 in the graph |
| `Dcg.DifferExactly` | dominion-core/src/dcg.rs:81-157 | Graph and strict evaluation on codes agree if and only if no division the root does not need has a zero divisor, or one it needs has |
| `Dcg.NoDeadDivisionAgrees` | dominion-core/src/dcg.rs:81-157 | If every division node lies in the cone of the root, graph and strict evaluation agree for all arguments |
| `Dcg.StrictIsTotal` | dominion-core/src/dcg.rs:93-128 | Strict evaluation yields what the graph yields if every node of the graph has a value, and nothing otherwise |
| `Dcg.FailureIsZero` | dominion-core/src/dcg.rs:141-231 | A node without a value has a division with a zero divisor in its cone |
| `Dcg.ZeroFails` | dominion-core/src/dcg.rs:141-231 | And a zero divisor in the cone leaves the node without a value |
| `Dcg.DeadDivision` | dominion-core/src/dcg.rs:93-121 | A dead division by zero fails strictly and not in the graph |
| `Dcg.CompiledMeans` | dominion-core/src/dcg.rs:81-157 | The graph computes exactly evaluation on demand |
| `Dcg.CompilesExactly` | dominion-core/src/dcg.rs:81-128 | What compiles is exactly straight-line code over integers, booleans, bound names, negation and binary operators with a value, for callers entitled to it |
| `Dcg.ArithmeticExact` | dominion-core/src/dcg.rs:214-219 | Sums, differences, products and negations agree with the exact ones modulo 2^64, and exactly where those fit |
| `Dcg.SubtractionUndone` | dominion-core/src/dcg.rs:214-219 | Adding what was subtracted gives back the number |
| `DcgInterp.SameArithmetic` | dominion-core/src/lang/interp.rs:2404-2432 | The interpreter's own arithmetic, defined by remainders and magnitudes, is the graph's |
| `Dcg.CompiledOrdered` | dominion-core/src/dcg.rs:185-210 | Operand ids precede their node and the root exists |
| `Dcg.LowerMeans` | dominion-core/src/dcg.rs:190-210 | A lowered expression extends the nodes and its node has its value |
| `Dcg.WrapExact` | dominion-core/src/dcg.rs:214-219 | Wrapping results differ from the exact ones by a multiple of 2^64 and keep what fits |
| `Dcg.QuotTruncates` | dominion-core/src/dcg.rs:220-231 | Division truncates toward zero; the remainder is smaller than the divisor and has the sign of the dividend |
| `Dcg.DivisionWraps` | dominion-core/src/dcg.rs:220-231 | Division is the truncated quotient for every pair but the least integer over -1, which gives the least integer; remainders never wrap |
| `Dcg.EvalNode` | dominion-core/src/dcg.rs:141-157 | Memoised evaluation terminates and equals evaluation afresh |
| `Dcg.Eval` | dominion-core/src/dcg.rs:133-139 | eval, None on an argument count mismatch |
| `Dcg.CompileFn` | dominion-core/src/dcg.rs:81-128 | The statement loop with its early exits computes the compilation |
| `Dcg.Builder.LowerExpr` | dominion-core/src/dcg.rs:190-210 | lower in place computes the lowering |
| `Edf.EdfScheduler.MeetsAllDeadlines` | dominion-core/src/audio.rs:182-193 | Some order of the tasks meets every deadline if and only if the test returns true and the clock cannot wrap |
| `Edf.FeasibleExactly` | dominion-core/src/audio.rs:182-193 | The same on task lists |
| `Edf.SortedIsOptimal` | dominion-core/src/audio.rs:174-178 | If any order is in time the deadline order is |
| `Edf.EarliestFirst` | dominion-core/src/audio.rs:174-178 | By deadline, and by id among equal deadlines |
| `Edf.WrapAdmits` | dominion-core/src/audio.rs:182-193 | A wrapping clock passes, in deadline order, a task set no order can meet |
| `Edf.EdfScheduler.Order` | dominion-core/src/audio.rs:174-178 | The ids of a stable sort by deadline and id |
| `Edf.RunInOrder` | dominion-core/src/audio.rs:185-192 | The loop decides whether every clock reading is within its deadline |
| `Css.Matches` | dominion-core/src/css.rs:149-176 | True if and only if the subject matches and some strictly nested choice of ancestors matches the other compounds in order |
| `Css.CompoundMeans` | dominion-core/src/css.rs:179-201 | A compound matches exactly the nodes that satisfy each simple selector it is made of |
| `Css.TakeNearest` | dominion-core/src/css.rs:164-170 | Taking the nearest matching ancestor loses no match |
| `Css.PassOver` | dominion-core/src/css.rs:164-170 | Passing over one that does not match loses none |
| `ColdTier.ColdTierManager.Get` | dominion-core/src/coldcomp.rs:461-481 | Exactly the latest bytes put, whichever tier holds them, or None, unless the codec turns those bytes into others with the hash in the id; None for an id that was put only if the codec does not recover the bytes or the id is not their hash |
| `ColdTier.ColdTierManager.Put` | dominion-core/src/coldcomp.rs:425-457 | For every id and codec the plain map gains exactly this entry; one victim may move to the cold tier |
| `ColdTier.PutExactly` | dominion-core/src/coldcomp.rs:425-457 | The data is hot, and exactly when it does not fit beside the rest the entry with the first key has gone cold |
| `ColdTier.PutCounts` | dominion-core/src/coldcomp.rs:425-457 | hot_used_bytes stays the bytes in the hot tier if and only if the id put is not itself the displaced entry, with bytes of its own and others beside it |
| `ColdTier.CountFallsShort` | dominion-core/src/coldcomp.rs:425-457 | Three puts after which hot_used_bytes is one byte short |
| `ColdTier.GetExactly` | dominion-core/src/coldcomp.rs:461-481 | A cold entry that can be read moves up exactly when there is room |
| `ColdTier.PolicyHonoured` | dominion-core/src/coldcomp.rs:136-211 | Compressed exactly without pressure and under Always, or under Opportunistic if it does not grow; the entry keeps id and original length |
| `ColdTier.ColdRead` | dominion-core/src/coldcomp.rs:58-69 | A cold read yields the admitted bytes or nothing if and only if the entry is raw, the codec recovers the bytes or the id gives the change away |
| `ColdTier.TrustedUnlessCollision` | dominion-core/src/coldcomp.rs:58-69 | Under a content hash a read can be trusted if and only if the codec has not produced a hash collision |
| `ColdTier.ColdMemoryCompressor.AdmitCold` | dominion-core/src/coldcomp.rs:118-211 | Re-admission replaces; bytes_in and bytes_stored stay the sums over the entries, with nothing saturating |
| `ColdTier.ColdMemoryCompressor.Evict` | dominion-core/src/coldcomp.rs:232-243 | The sums shrink by the entry; the object counts are left and so exceed the entries by exactly the evictions |
| `ColdTier.TakeBack` | dominion-core/src/coldcomp.rs:123-133 | Taking back an entry leaves the sums over the rest |
| `ColdTier.HoldsDemote` | dominion-core/src/coldcomp.rs:443-451 | Demotion keeps the tiers faithful to the plain map |
| `ColdTier.HoldsPromote` | dominion-core/src/coldcomp.rs:471-477 | So does promotion |
| `Airlock.SnapshotBinds` | dominion-core/src/airlock.rs:121-123 | Intact ledgers with equal snapshots are the same sequence, length included, or the hash collides on two strings, one hashed into the chain of each |
| `Airlock.AppendKeepsIntact` | dominion-core/src/airlock.rs:125-162 | Appending keeps the chain intact |
| `Airlock.ChainInputInjective` | dominion-core/src/airlock.rs:135-151 | The hashed bytes determine every field and the previous digest |
| `Airlock.TransferExactly` | dominion-core/src/airlock.rs:225-248 | Exactly when a transfer succeeds; it never exceeds the source or the policy and expires as the policy says |
| `Airlock.TransferSays` | dominion-core/src/airlock.rs:225-248 | Each refusal with its reason, and exactly the rights that both sides hold |
| `Airlock.FirstPolicy` | dominion-core/src/airlock.rs:94-96 | The policy for a crossing is the first one added for it |
| `Airlock.RecordSays` | dominion-core/src/airlock.rs:125-162 | A record names its position, the crossing, the rights granted, the expiry and the provenance |
| `Airlock.ChainInputLayout` | dominion-core/src/airlock.rs:135-151 | Where each field stands in the hashed bytes |
| `Airlock.Lock.LedgerIntact` | dominion-core/src/airlock.rs:195-218 | The loop accepts if and only if every record links |
| `Airlock.Lock.TransferLogged` | dominion-core/src/airlock.rs:167-187 | Refused while contained, logged exactly on success, chain intact |
| `Airlock.Lock.Contain` | dominion-core/src/airlock.rs:109-112 | Contains and logs, chain intact |
| `Airlock.Lock.Append` | dominion-core/src/airlock.rs:125-162 | append_record in place |
| `CapShim.RunKeeps` | dominion-core/src/capshim.rs:274-371 | In every run from launch fs_used is the total file length modulo 2^64 and within the grant, every offset is inside its file, mapped regions are disjoint and inside the memory grant, and without the WRITE right no file exists |
| `CapShim.StepKeeps` | dominion-core/src/capshim.rs:274-371 | Every operation keeps all of that |
| `CapShim.RunConserves` | dominion-core/src/capshim.rs:301-329 | Under any grant, in every run fs_used is exactly the total file length, so the files stay within the grant, unless an accepted write has wrapped the 64-bit charge |
| `CapShim.SmallGrantConserves` | dominion-core/src/capshim.rs:301-329 | Under a grant of at most 2^63 bytes no write ever wraps it |
| `CapShim.WriteConserves` | dominion-core/src/capshim.rs:301-329 | A write keeps the books modulo 2^64; an accepted one keeps them exact if and only if the 64-bit charge does not wrap |
| `CapShim.WriteReadsBack` | dominion-core/src/capshim.rs:301-349 | What one descriptor writes another at the same place reads back |
| `CapShim.Overwrite` | dominion-core/src/capshim.rs:322-326 | The bytes written, the bytes before and after them, and the new length |
| `CapShim.MmapKeeps` | dominion-core/src/capshim.rs:360-371 | A mapping lies behind all earlier ones and inside the grant |
| `CapShim.RevokedIsInert` | dominion-core/src/capshim.rs:240-242 | After revocation only close changes anything |
| `CapShim.LaunchExactly` | dominion-core/src/capshim.rs:168-228 | What a process starts with, and what its cache holds of the grant |
| `CapShim.OpenExactly` | dominion-core/src/capshim.rs:274-297 | Exactly when open succeeds, what the descriptor is, and that files that exist are left alone |
| `CapShim.WriteExactly` | dominion-core/src/capshim.rs:301-329 | Exactly when write succeeds; what it does to its file, its offset and the charge, and each refusal |
| `CapShim.ReadExactly` | dominion-core/src/capshim.rs:332-349 | Exactly when read succeeds and which bytes it yields |
| `CapShim.ReadsJoin` | dominion-core/src/capshim.rs:332-349 | Reading m and then n bytes is reading m + n |
| `CapShim.CloseExactly` | dominion-core/src/capshim.rs:352-354 | Only the descriptor goes |
| `CapShim.MmapExactly` | dominion-core/src/capshim.rs:360-371 | The next bytes of the grant, readable and writable, exactly if they are there |
| `CapShim.RevokeExactly` | dominion-core/src/capshim.rs:240-242 | Both grants are dead and nothing else changes |
| `CapShim.Process.OpenPath` | dominion-core/src/capshim.rs:274-297 | open in place |
| `CapShim.Process.WriteFd` | dominion-core/src/capshim.rs:301-329 | write in place: charge, grow, overwrite, advance |
| `CapShim.Process.ReadFd` | dominion-core/src/capshim.rs:332-349 | read in place |
| `CapShim.Process.CloseFd` | dominion-core/src/capshim.rs:352-354 | close in place |
| `CapShim.Process.Map` | dominion-core/src/capshim.rs:360-371 | mmap in place |
| `CapShim.Process.RevokeAll` | dominion-core/src/capshim.rs:240-242 | revoke in place |
| `Capability.DeriveAttenuates` | dominion-core/src/capability.rs:186-213 | Every access a derived capability admits, its parent admits |
| `Capability.DeriveExactly` | dominion-core/src/capability.rs:186-213 | Exactly when a child is derived, what it is, and each refusal |
| `Capability.CheckExactly` | dominion-core/src/capability.rs:223-236 | Exactly when an access is admitted, and each refusal |
| `Capability.ProvenanceBinds` | dominion-core/src/capability.rs:201-205 | A provenance binds the provenance of the parent and the bounds and rights of the child, or the hash collides on what went into the two |
| `Capability.RightsAreSets` | dominion-core/src/capability.rs:50-66 | Containment, inclusion and intersection of rights, bit by bit |
| `Capability.IntersectNarrows` | dominion-core/src/capability.rs:58-66 | An intersection of rights is within both |

## Left out

- Consensus liveness, the simulation driver and the test helper that equivocates: only safety is decided by this code.
- ChaCha20's quarter rounds and block function: a parameter of `Aead`, since nothing proved there depends on them.
- Hiding of the confidential transactions and the hardness behind binding: the group is illustrative-sized, and these are not about this code's logic. Soundness of range proofs is stated for two answers to one first message.
- CtxSound.RangeSound: needs the bit commitments in the subgroup and shares that add up within 128 bits; verify tests neither, and prove always produces both.
- Text validity of keys (UTF-8) is a parameter of `GossipCodec`.
- Convergence on pinned keys: a replica that pinned a key ignores inbound fences by design.
- The interpreter outside the functions `Dcg::compile` accepts, and calls made where an affine binding is already in scope; the proof token.
- DcgInterp.InterpretsExactly: says nothing where both succeed after a mixed comparison or a hidden let; there the results may or may not agree, as `MixedEqualityParts` and `MixedEqualityMayAgree` show.
- Dcg.DifferExactly: is about strict evaluation on codes, in which booleans are 0 and 1 and both operands of && and || are evaluated; `DcgInterp` has the interpreter.
- The hot quota as a bound: put demotes one victim and inserts regardless, so the hot tier may exceed it.
- Path projection, sockets, clock and the system call table in `capshim.rs`; bundle derivation and the policy table in `airlock.rs` beyond first match: single-branch facts.
- `spawn.run`: modelled as running the tasks in order; result t is that of task t.
- The stable library sort in `audio.rs` is modelled as insertion; the result depends only on its being a sorted permutation.
- The parent links of the document tree are an inductive value, so weak references and mutation of the tree are not captured.
- `Poly1305::block` and the last half of `finalize` are straight-line arithmetic and are functions on values; the object's own updates are in place.
- `ModGroup.Mul`, `Poly1305.ModP`, `Matmul.Flat` and `Ctx.Red` are defined by repeated addition or subtraction; `MulExact`, `ModPExact`, `FlatExact` and `RedExact` give the product and remainder they stand for.
- Floating-point formats in `Matmul`: operations are uninterpreted for the order result and real for the sum; the condition for blocks to vanish takes a neutral zero, which negative zero and NaN are outside of.
- User interface, drawing, boot code, benchmarks, and the simple gates and tables of the crate: easy members only.
