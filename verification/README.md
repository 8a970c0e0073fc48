# Bounded30 SLH-DSA: a verified model

This project models the bounded30 SLH-DSA signature engine and its C interface in Dafny and
proves what the pieces are there for: that signing and verification fit together for all hash
functions, that the fast forms (eight-lane TreeHash, eight-lane SHA-256, threaded FORS, cached
midstates) compute what the simple definitions say, and that the session around a signature
leaves neither state nor memory behind.

`dafny verify dfyconfig.toml` checks the whole project.

## How the model is laid out

- `Bits`, `Address`, `AddressRuns`, `Sides`, `Places`: integers, big-endian bytes and hash
  addresses. Addresses are modelled twice: as fields, which the engine uses, and as the bytes the
  setters write in place; any history of the second is proved to refine the first.
- `Engine`, `Spec`, `Merkle`: parameters, the hash functions as arbitrary total functions of
  (seed, address, input), and the recursive definitions of FIPS 205 sections 5 to 8. Parameters
  are symbolic; `BOUNDED30` instantiates them.
- `LeafGen`, `LeafGenX8`, `ChainLanes`, `Alignment`, `TreeHashX1`, `TreeHashX8`, `TreeHash`,
  `MerkleSign`: the leaf generators and the three TreeHash machines. The `gen_leaf` function pointer becomes
  the value `Gen` together with the `info` object it travels with.
- `Wots`, `Fors`, `ForsParallel`, `Hypertree`, `Grind`, `Sign`: WOTS+C, FORS+C, the threads, and
  key generation, signing and verification.
- `Binding`, `Accepted`: what an accepted signature is, from the public root down.
- `Sha2`, `HashSha2`, `Sha256Rounds`, `Sha256Blocks`, `Sha256x8`, `Sha2Engine`: SHA-2 over an
  arbitrary compression function, the scalar and eight-lane compression over arbitrary logical
  functions and constants, and the engine they make.
- `Stats`, `RandomSource`, `Session`, `Blocks`, `Api`, `Runs`: thread-local state, the signing
  session, the public interface with its allocator, and runs of public calls.
- `Reachable`: a witness that signing can succeed, so that the theorems are not empty, and one of
  the inputs below.

A buffer of n-byte blocks is an array with one cell per block; `Blocks` relates it to plain
bytes. C pointers that may be null are nullable references or `Option`. Whether `malloc` or
thread creation fails is a parameter or an action of the environment. The thread-local
variables of a thread are one object, `Thread`.

## What came out false, and exactly when

- `treehashx1` takes any leaf number and writes no path for one outside the tree. `treehashx8`
  does not share this: for 2^height <= leaf < 2^(height+2) it copies a lane that does not exist.
  `TreeHashX8.LeafArgExact` gives the exact condition; no caller violates it.
- The classic `treehash`, which has no caller, copies one block past the path for
  2^height <= leaf < 2^(height+1): `TreeHash.TopCopy`.
- `wots_gen_leafx8` saves the requested key pair only in groups that start at a multiple of
  eight. From key pair 1 on, a request for pair 3 writes the signature of pair 4
  (`Alignment.GroupAtOne`); `Alignment.AlignedExact` gives the exact condition. Callers start at
  multiples of eight; leaves, root and path are right from every start.
- The range of the verifier's WOTS+C search is that of the signer while a stats session is open
  on the thread, so a valid signature can be rejected there (`Reachable.SessionRejects`).
  `Api.SessionMatters` says for which signatures the answer differs; with the cap as it ships
  there are none, and between public calls no session is open (`Runs.Client.Valid`).
- The counter-wrap exit of the grind, the failed-seed exit of the session and the self-check
  failure of `bitcoin_pqc_sign` are unreachable.

## Model

| member | source | states |
|---|---|---|
| `Sign.SignedMessagesVerify` | sphincsplus/ref/sign.c:151-366 | for all hash functions, keys the validator accepts, messages, randomness and signing caps: whenever signing succeeds, what it wrote is accepted under the matching public key by every verifier whose counter range is at least that cap |
| `Sign.Completeness` | sphincsplus/ref/sign.c:235-366 | the same for any salt whose compressed index is zero: FORS part, all layers and the final root comparison fit together |
| `Accepted.AcceptedMeans` | sphincsplus/ref/sign.c:279-366 | for every verifier range and every accepted signature under the public key of a good key: it is the honest signature for its own randomizer, or there are, explicitly, two inputs of one thash at one address, two inputs of one truncated SHA-256, a WOTS chain value before the one the key holder reveals, or a place the key holder cannot sign |
| `Accepted.AcceptedIs` | sphincsplus/ref/sign.c:279-366 | the same before forgeries are taken apart: honest, or a collision of thash, or a WOTS key pair of the key that signs something else than the tree or FORS key below it |
| `Accepted.HonestIsAccepted` | sphincsplus/ref/sign.c:279-366 | the other direction: the honest signature of a good salt is accepted |
| `Accepted.OnePublicKey` | sphincsplus/ref/sign.c:360-363 | for one digest a signature is accepted under at most one root |
| `Accepted.NonzeroIndexRejected` | sphincsplus/ref/sign.c:313-318 | a digest whose compressed index is not zero is rejected |
| `Accepted.HtBinds` | sphincsplus/ref/sign.c:329-358 | layer by layer from the top: an upper part that verifies to the honest top root is honest, collides, or certifies another tree |
| `Accepted.ForgeryMeans` | sphincsplus/ref/wots.c:76-132 | a key pair that signs another message than its own gives a SHA-256 collision or an earlier chain value |
| `Binding.LayerBinds` | sphincsplus/ref/sign.c:342-352 | a layer that verifies to the honest subtree root has the honest WOTS key, leaf, path and chain values, or a collision |
| `Binding.ClimbBinds` | sphincsplus/ref/utils.c:50-95 | a path that climbs to an honest node is the honest path from the honest leaf, or a collision |
| `Binding.KeyBinds` | sphincsplus/ref/wots.c:325-343 | chain values that complete to the honest WOTS key are the honest ones at their lengths, or a collision |
| `Binding.ForsBinds` | sphincsplus/ref/fors.c:377-416 | a FORS signature that verifies to the honest key opens the honest values at its indices, or a collision |
| `Sign.KeyLayout` | sphincsplus/ref/sign.c:156-170 | the four parts of a secret key are used as it is laid out |
| `Sign.SignSignature` | sphincsplus/ref/sign.c:151-274 | from the installed random source: result code exactly by success of grind and searches, whole signature buffer, siglen, the whole session record of success and of failure, and the failing random source |
| `Sign.SignWith` | sphincsplus/ref/sign.c:193-274 | the signer once optrand is drawn: return code if and only if, whole buffer on success, and the whole record, successful or not |
| `Sign.SignLayers` | sphincsplus/ref/sign.c:244-262 | the signing loop writes exactly the hypertree signature, fails exactly when a layer cannot be signed, and leaves exactly the record of the searches up to there, the failing one and its flag included |
| `Sign.VerifyLayers` | sphincsplus/ref/sign.c:330-358 | the verification loop, with its own address buffers, computes the recursion over layers under the cap that the stats pointer selects, or rejects, and records every search |
| `Sign.VerifyLayer` | sphincsplus/ref/sign.c:331-353 | one layer: search under the cap in force, WOTS key, leaf and climb, from whatever the previous layer left in the address buffers |
| `Sign.Verify` | sphincsplus/ref/sign.c:279-366 | returns 0 exactly for the signatures accepted by the recursive definition under the cap that the stats pointer selects; wrong length, non-zero compressed index, failed search and wrong root are rejected; what an open session records |
| `Sign.CappedVerifier` | sphincsplus/ref/wots.c:134-145 | the capped verifier accepts exactly what the full-range verifier accepts with no counter above the cap |
| `Sign.VerifiersAgree` | sphincsplus/ref/wots.c:134-145 | on a signature the two agree if and only if it is invalid or needs no counter above the cap; always, when the cap is the full range |
| `Reachable.SessionRejects` | sphincsplus/ref/wots.c:134-145 | one input: a signature that verifies outside a stats session and is rejected inside one with a small cap |
| `Sign.SeedKeypair` | sphincsplus/ref/sign.c:68-100 | layout of both keys, and the root is the recursive root of the top tree, on either backend |
| `Sign.LayerAddresses` | sphincsplus/ref/sign.c:244-249 | from any history of the reused buffers, the addresses of a layer are those of its logical position; signer and verifier share this |
| `Sign.AssembleSig` | sphincsplus/ref/sign.c:235-257 | the three writes at advancing offsets make up the whole signature with no gap and no overlap |
| `Reachable.EveryMessageSigns` | sphincsplus/ref/sign.c:151-274 | the success path exists: there are hash functions of the shipped parameters under which any three seeds extend to a key that signs every message |
| `Blocks.SignatureSized` | sphincsplus/ref/params/params-sphincs-sha2-128s-bounded30.h:73-80 | every block of every signature has n bytes and the whole has SPX_BYTES |
| `Blocks.SplitOfFlat` | sphincsplus/ref/sign.c:235-257 | cutting the written bytes into blocks gives the blocks back |
| `Blocks.FlatAt` | sphincsplus/ref/sign.c:235-257 | block i lies at offset i times n |
| `Blocks.FlatOfSplit` | sphincsplus/ref/sign.c:320-353 | any byte string of signature size is the concatenation of the blocks the verifier reads |
| `Engine.Bounded30Sizes` | sphincsplus/ref/params/params-sphincs-sha2-128s-bounded30.h:6-80 | the shipped parameters meet the constraints; 3680 signature bytes, 20 digest bytes, checksum target 2040 |
| `Merkle.ClimbRecoversNode` | sphincsplus/ref/utils.c:50-95 | climbing an honest path passes through the ancestor node at every height, for every tree, leaf and offset |
| `Merkle.AuthPathReachesRoot` | sphincsplus/ref/utils.c:50-95 | for every leaf in range the honest path leads to the root |
| `TreeHashX1.ComputeRoot` | sphincsplus/ref/utils.c:50-95 | the in-place fold equals the recursive climb, with the addresses of every level |
| `TreeHashX1.TreeHashX1` | sphincsplus/ref/utilsx1.c:23-100 | the stack machine returns the recursive root, independent of the leaf argument, writes exactly the sibling nodes of an in-range leaf, the requested WOTS signature and nothing else; out-of-range leaves write no path |
| `TreeHashX1.Combine` | sphincsplus/ref/utilsx1.c:48-94 | one leaf is carried up as far as its trailing one bits; the path entries completed on the way are exactly those written |
| `TreeHashX1.Carry` | sphincsplus/ref/utilsx1.c:96-98 | storing the carried node restores the stack and path invariants for the next leaf |
| `TreeHashX1.Finish` | sphincsplus/ref/utilsx1.c:54-69 | after the last leaf the path is complete for a leaf of the tree and untouched otherwise |
| `TreeHashX8.TreeHashX8` | sphincsplus/sha2-avx2/utilsx8.c:38-148 | eight-wide TreeHash at every height from 3, every offset and every leaf argument in bounds: the root and the path of treehashx1, and its whole buffer unless a WOTS signature is asked of a tree whose offset is no multiple of eight; then the signature of the key pair off mod 8 places further on |
| `TreeHashX8.SameOut` | sphincsplus/sha2-avx2/utilsx8.c:38-148 | without a request, for FORS trees and at offsets that are multiples of eight both machines leave the same buffer |
| `Alignment.AlignedExact` | sphincsplus/ref/wotsx1.c:175-183 | for all hash functions, requests and buffers the eight-lane generator writes the requested signature if and only if its first key pair is a multiple of eight |
| `Alignment.GroupAtOne` | sphincsplus/ref/wotsx1.c:175-183 | one input: the group at key pair 1, asked for pair 3, writes the signature of pair 4 |
| `TreeHashX8.Combine` | sphincsplus/sha2-avx2/utilsx8.c:64-142 | the inner loop over logical nodes, including the three top levels with left adjustment |
| `TreeHashX8.TopStep` | sphincsplus/sha2-avx2/utilsx8.c:70-141 | in the top levels the meaningful lanes halve and move right, and lanes computed from stale rows or wrapped indices never enter them |
| `TreeHashX8.RowStep` | sphincsplus/sha2-avx2/utilsx8.c:111-141 | below the top levels two logical nodes make exactly the next eight nodes |
| `TreeHashX8.LaneIsSibling` | sphincsplus/sha2-avx2/utilsx8.c:91-99 | the lane copied into the path is the sibling node |
| `TreeHashX8.LeafArgExact` | sphincsplus/sha2-avx2/utilsx8.c:91-99 | over the logical nodes and levels the loops visit, all lanes read exist if and only if the leaf argument is below 2^height or at least 2^(height+2) |
| `TreeHashX8.LaneNine` | sphincsplus/sha2-avx2/utilsx8.c:91-99 | one input: leaf 8 of a tree of height 3 would read lane 9 |
| `TreeHash.TreeHash` | sphincsplus/ref/utils.c:105-154 | the classic stack with heights computes the same root and path |
| `TreeHash.AddLeaf` | sphincsplus/ref/utils.c:119-151 | one leaf pushed and reduced: the stack holds the complete nodes of the set bits of the leaf count, highest first |
| `TreeHash.TopCopy` | sphincsplus/ref/utils.c:146-150 | the copy at the root level, one block past the path, would happen exactly for leaf numbers in [2^height, 2^(height+1)) |
| `TreeHash.CopyPastPath` | sphincsplus/ref/utils.c:146-150 | one input: leaf 2 of a tree of height 1 |
| `MerkleSign.TreeScalar` | sphincsplus/ref/merkle.c:42-55 | the scalar layer signature is WOTS signature and path in one piece, and the subtree root |
| `MerkleSign.TreeVector` | sphincsplus/ref/merkle.c:82-99 | the eight-lane layer signature is the same bytes and the same root |
| `MerkleSign.MerkleSign` | sphincsplus/ref/merkle.c:20-120 | signing one layer: fails exactly when the counter search does, else whole buffer, root and record |
| `MerkleSign.MerkleGenRoot` | sphincsplus/ref/merkle.c:123-138 | key generation computes the recursive root of the top tree and never fails |
| `MerkleSign.NoSignIsOutside` | sphincsplus/ref/merkle.c:123-138 | SPX_NO_SIGN_LEAF lies outside every tree and every lane |
| `LeafGen.WotsGenLeafX1` | sphincsplus/ref/wotsx1.c:25-77 | leaf value, and the chain values at the requested positions are written for the signing leaf only |
| `LeafGen.WalkChain` | sphincsplus/ref/wotsx1.c:45-72 | one chain walked to its top, saving position wots_steps[i] on the way |
| `ChainLanes.WotsGenLeafX1Avx2` | sphincsplus/ref/wotsx1.c:80-159 | eight chains of one leaf side by side, with a ragged last group: the contract of the scalar generator |
| `ChainLanes.WalkGroup` | sphincsplus/ref/wotsx1.c:104-155 | one group of chains: tops and saved values per chain, unused lanes without effect |
| `LeafGenX8.WotsGenLeafX8` | sphincsplus/ref/wotsx1.c:161-265 | eight scalar leaves from any key pair on, and exactly the chain values of the lane the code selects |
| `LeafGenX8.WalkChainX8` | sphincsplus/ref/wotsx1.c:193-245 | one chain of eight key pairs side by side |
| `LeafGen.ForsGenLeafX1` | sphincsplus/ref/fors.c:44-59 | FORS leaf at its position |
| `LeafGenX8.ForsGenLeafX8` | sphincsplus/ref/fors.c:104-148 | eight consecutive FORS leaves |
| `Wots.BaseW` | sphincsplus/ref/wots.c:50-69 | the digit loop computes the base-w digits of the input |
| `Wots.HashCounter` | sphincsplus/ref/wots.c:76-102 | compressed message and checksum of a counter |
| `Wots.CompressHashes` | sphincsplus/ref/wots.c:87-92 | the candidate message is the truncated hash of message and two-byte big-endian counter |
| `Wots.CompressBinds` | sphincsplus/ref/wots.c:87-92 | equal candidates of different messages or counters are an explicit pair of inputs with one truncated hash |
| `Wots.DigitsReadBack` | sphincsplus/ref/wots.c:50-69 | the input can be read back from its digits, most significant first |
| `Wots.CompressBounded` | sphincsplus/ref/wots.c:104-132 | the least counter that hits the target, exact attempt count, and the capped outcome |
| `Wots.ChainLengths` | sphincsplus/ref/wots.c:134-145 | chain lengths under the cap that the presence of a stats session selects |
| `Wots.SearchMonotone` | sphincsplus/ref/wots.c:104-145 | raising the cap never changes a search that succeeded |
| `Wots.SignerAndVerifierAgree` | sphincsplus/ref/wots.c:278-289 | whenever the signer succeeds under a cap, every larger range finds the same counter and the same lengths |
| `Wots.NoDomination` | sphincsplus/ref/wots.c:94-125 | of two different accepted length vectors each is strictly larger in some chain |
| `Wots.GenChain` | sphincsplus/ref/wots.c:29-43 | iterating the hash from a position, cut off at w, for every start and number of steps |
| `Wots.WotsRoundTrip` | sphincsplus/ref/wots.c:325-343 | completing a signature gives the public key it came from, for every length vector |
| `Wots.WotsPkFromSig` | sphincsplus/ref/wots.c:325-343 | fails exactly when no counter in the range in force hits, else completes every chain; what an open session records |
| `Fors.CompressedIndex` | sphincsplus/ref/sign.c:133-145 | the bit-accumulating loop reads the index of the compressed tree, least significant bit first |
| `Fors.MessageToIndices` | sphincsplus/ref/fors.c:156-168 | the indices of all signed trees |
| `Fors.ForsIndexIs` | sphincsplus/ref/fors.c:156-168 | for every tree height, index i is digit i of the digest read as one little-endian integer |
| `Fors.ShippedIndex` | sphincsplus/ref/fors.c:156-168 | in the shipped profile index i is digest byte 2i plus 256 times byte 2i+1 |
| `Fors.LeavesDistinct` | sphincsplus/ref/fors.c:179-185 | different trees and leaves of a key pair have different leaf numbers, all within range |
| `Fors.NodesDistinct` | sphincsplus/ref/fors.c:179-195 | and different nodes at every height |
| `Fors.BitsReadBack` | sphincsplus/ref/fors.c:156-168 | every digest bit can be read back from its index |
| `Fors.IndicesDetermineDigest` | sphincsplus/ref/fors.c:156-168 | indices and compressed index together determine the digest when they use every bit |
| `Fors.ForsSignTree` | sphincsplus/ref/fors.c:172-225 | one tree: secret value and path, scalar and eight-lane alike, and the root |
| `Fors.ForsSign` | sphincsplus/ref/fors.c:284-368 | the sequential loop writes every share at its place and compresses the roots |
| `Fors.ForsPkFromSig` | sphincsplus/ref/fors.c:377-416 | the verifier loop computes the key the recursive definition derives from any signature |
| `Fors.ForsRoundTrip` | sphincsplus/ref/fors.c:377-416 | from an honest signature that key is the signer's key, for every index vector |
| `ForsParallel.NextInv` | sphincsplus/ref/fors.c:239-362 | every action of every thread keeps: tasks tile the started trees disjointly and exactly what they passed is stored |
| `ForsParallel.EveryScheduleSigns` | sphincsplus/ref/fors.c:310-362 | every schedule, worker count and failing thread creation ends with every block stored with its sequential value |
| `ForsParallel.ThreadsEqualSequential` | sphincsplus/ref/fors.c:310-362 | the finished memory is byte for byte the sequential signature and roots |
| `ForsParallel.StoresAreDisjoint` | sphincsplus/ref/fors.c:244-248 | no block is ever stored twice, by the same or by different threads |
| `ForsParallel.PlacesInjective` | sphincsplus/ref/fors.c:244-247 | different blocks have different offsets in sig or entries of roots, all inside the buffers |
| `ForsParallel.StoresGoToNewPlaces` | sphincsplus/ref/fors.c:244-248 | so no store of any schedule goes to bytes already written or outside the buffers |
| `ForsParallel.FinishedBuffers` | sphincsplus/ref/fors.c:364-368 | the finished sig and roots are the sequential ones and the last thash over them is the FORS public key |
| `ForsParallel.NoFailureNoFallback` | sphincsplus/ref/fors.c:323-353 | if every thread starts, the ceiling shares cover all trees and the fallback loop is not entered |
| `ForsParallel.Progress` | sphincsplus/ref/fors.c:310-362 | no deadlock: until the end some thread can act |
| `ForsParallel.RunsAreBounded` | sphincsplus/ref/fors.c:310-362 | every schedule is finite, with a bound fixed at the start |
| `ForsParallel.ShareFits` | sphincsplus/ref/fors.c:323-327 | the ceiling share never overruns and the last worker takes all that is left |
| `Hypertree.LayerComplete` | sphincsplus/ref/sign.c:330-353 | one layer: every verifier with at least the signer's range reaches the root of the subtree the signer used |
| `Hypertree.HtCapped` | sphincsplus/ref/wots.c:134-145 | layer by layer, the capped computation is the full-range one up to the largest counter needed, and a rejection beyond it |
| `Hypertree.HtComplete` | sphincsplus/ref/sign.c:244-262 | signer and verifier stay in lock step through all layers, whatever is signed |
| `Hypertree.WalkSplits` | sphincsplus/ref/sign.c:259-261 | tree above and leaf in it are quotient and remainder of the tree number |
| `Hypertree.CertifiesOne` | sphincsplus/ref/sign.c:259-261 | no WOTS key pair of one layer certifies two trees of the layer below |
| `Hypertree.TreeAtIs` | sphincsplus/ref/sign.c:259-261 | layer i uses the bits of the tree index from i times h up, and its key pair the h bits below |
| `Hypertree.TopIsPublicRoot` | sphincsplus/ref/sign.c:259-261 | a tree index within its bits is tree 0 at the top layer, whose root is the public root |
| `Grind.GrindSalt` | sphincsplus/ref/sign.c:196-231 | the grind stops at the first good salt or the cap, reports exactly that attempt, and never reaches the counter-wrap exit for any 32-bit cap |
| `Grind.SaltInjective` | sphincsplus/ref/sign.c:225-229 | salts are equal if and only if their counters are |
| `Grind.SaltReadsBack` | sphincsplus/ref/sign.c:225-229 | what is xored into the randomizer is the counter, least significant byte first |
| `Grind.DigestSplits` | sphincsplus/ref/hash_sha2.c:234-250 | for every FORS message, tree and leaf within their bits the digest laid out big-endian splits into exactly those three |
| `Grind.HashMessage` | sphincsplus/ref/hash_sha2.c:234-250 | split of the digest into FORS message, tree and leaf index, masked to their bits |
| `Address.SetLayerAddr` | sphincsplus/ref/address.c:11-14 | writes the layer byte in place: the decoded fields change in the layer only, other bytes of the buffer not at all |
| `Address.SetTreeAddr` | sphincsplus/ref/address.c:19-25 | writes the eight tree bytes in place: only the tree field changes, reduced to 64 bits |
| `Address.SetType` | sphincsplus/ref/address.c:33-36 | writes the type byte in place: only the type field changes and, unlike in FIPS 205, the fields behind it keep their values |
| `Address.CopySubtreeAddr` | sphincsplus/ref/address.c:42-45 | partial copy: layer and tree are taken over, type, key pair and the rest stay as they were |
| `Address.SetKeypairAddr` | sphincsplus/ref/address.c:53-56 | writes the four key pair bytes in place: only that field changes, reduced to 32 bits |
| `Address.CopyKeypairAddr` | sphincsplus/ref/address.c:62-66 | partial copy: layer, tree and key pair are taken over, type and the rest stay as they were |
| `Address.SetChainAddr` | sphincsplus/ref/address.c:72-75 | writes the chain byte in place: only the byte shared by chain number and tree height changes |
| `Address.SetHashAddr` | sphincsplus/ref/address.c:81-84 | writes only the last byte of the index word: a stale index shows through its upper three bytes |
| `Address.SetTreeHeight` | sphincsplus/ref/address.c:92-95 | writes the height in place of the chain number and changes nothing else |
| `Address.SetTreeIndex` | sphincsplus/ref/address.c:101-104 | writes the whole index word, hash number included, and changes nothing else |
| `Address.HashedIsEnc` | sphincsplus/ref/address.c:11-104 | a clear address hashes the encoding of its fields |
| `AddressRuns.Apply` | sphincsplus/ref/address.c:11-104 | one call of any of the ten functions on a memory of address variables is the field operation on that variable and leaves the others |
| `AddressRuns.Run` | sphincsplus/ref/address.c:11-104 | after any history of setters and partial copies on variables that started clear, the 22 bytes hashed for every variable are the encoding of the same history on fields |
| `AddressRuns.SameBytes` | sphincsplus/ref/address.c:11-104 | two variables with different histories hash the same bytes if and only if their fields came out the same |
| `Sides.BothSides` | sphincsplus/ref/sign.c:244-351 | from any earlier contents of their variables, signer and verifier address every chain value, WOTS key and tree node of a layer alike |
| `Sides.BothSidesHash` | sphincsplus/ref/sign.c:244-351 | so the bytes both programs hash for a chain value and the WOTS key are equal |
| `Address.FieldsOfEnc` | sphincsplus/ref/address.c:11-104 | the 22 bytes determine the fields |
| `Address.EncOfFields` | sphincsplus/ref/address.c:11-104 | and the fields determine the 22 bytes |
| `Places.PlacesDistinct` | sphincsplus/ref/address.c:11-104 | two positions of any valid profile are hashed under the same 22 bytes if and only if they are the same position |
| `Places.HashedInPlace` | sphincsplus/ref/wotsx1.c:45-76 | every chain, WOTS key and FORS hash of the reference definitions is made at its own position |
| `Places.NodesInPlace` | sphincsplus/ref/utilsx1.c:84-93 | so is every tree node |
| `Address.UllToBytes` | sphincsplus/ref/utils.c:12-22 | big-endian store of any width |
| `Address.U32ToBytes` | sphincsplus/ref/utils.c:24-30 | big-endian store of four bytes |
| `Address.BytesToUll` | sphincsplus/ref/utils.c:35-44 | big-endian load |
| `Sha2.AbsorbSplit` | sphincsplus/ref/sha2.c:827-843 | absorbing at any whole-block split equals absorbing at once |
| `Sha2.FinalBlocksIsPadding` | sphincsplus/ref/sha2.c:854-885 | the one or two final blocks are the rest of the message padded as in FIPS 180-4 sections 5.1.1 and 5.1.2 |
| `Sha2.PaddingWhole` | sphincsplus/ref/sha2.c:854-885 | the padded message is a whole number of blocks with the least padding |
| `Sha2.BitLengthIs` | sphincsplus/ref/sha2.c:863-870 | the shifted bytes are the big-endian bit length |
| `Sha2.IncInit` | sphincsplus/ref/sha2.c:809-825 | initial chaining value and zero count |
| `Sha2.IncBlocks` | sphincsplus/ref/sha2.c:827-843 | state after prefix and more whole blocks, 64-bit count included |
| `Sha2.PadTail` | sphincsplus/ref/sha2.c:854-885 | the padded buffer, byte by byte |
| `Sha2.StoreBitLength` | sphincsplus/ref/sha2.c:863-870 | the shifted bytes written one by one are the big-endian bit length |
| `Sha2.IncFinalize` | sphincsplus/ref/sha2.c:845-943 | the output is the hash of everything absorbed, for every whole-block prefix and every tail (SHA-512 below 2^64 bytes) |
| `Sha2.Sha` | sphincsplus/ref/sha2.c:945-959 | one-shot hash |
| `Sha256Rounds.ScalarCompress` | sphincsplus/ref/sha2.c:146-349 | shifted registers with a 16-word schedule rewritten in place compute the compression of FIPS 180-4 section 6.2.2 |
| `Sha256Rounds.WindowStep` | sphincsplus/ref/sha2.c:141-162 | each in-place update is the next schedule word |
| `Sha256Blocks.HashBlocksRef` | sphincsplus/ref/sha2.c:206-361 | words loaded once, every whole block compressed, stored once: the block fold of the hash |
| `Sha256Blocks.Sha256Of` | sphincsplus/ref/sha2.c:779-798 | every choice of logical functions, constants and initial value is such a hash function |
| `Sha256Blocks.RegsOfBytes` | sphincsplus/ref/sha2.c:40-60 | store then load of a chaining value |
| `Sha256Blocks.BytesOfRegs` | sphincsplus/ref/sha2.c:40-60 | load then store of a chaining value |
| `Sha256x8.RoundLane` | sphincsplus/sha2-avx2/sha256avx.h:61-65 | a round on rotated registers is a round on shifted registers in every lane |
| `Sha256x8.TransposeIs` | sphincsplus/sha2-avx2/sha256avx.c:13-43 | the shuffle network is a matrix transpose |
| `Sha256x8.ExpandLane` | sphincsplus/sha2-avx2/sha256avx.c:189-284 | each of the 48 computed schedule vectors holds the schedule words of its lanes |
| `Sha256x8.Transform8x` | sphincsplus/sha2-avx2/sha256avx.c:131-298 | every lane is the scalar compression of its own block |
| `Sha256x8.Final8x` | sphincsplus/sha2-avx2/sha256avx.c:59-129 | padding, length and output of every lane are the scalar final blocks and chaining value, for every tail length |
| `Sha256x8.Sha256x8Run` | sphincsplus/sha2-avx2/sha256x8.c:17-63 | every lane is the hash of the prefix already absorbed and its own input, for every length |
| `Sha256x8.Sha256x8Seeded` | sphincsplus/sha2-avx2/sha256x8.c:65-99 | from a seeded chaining value every lane is what the scalar finalize gives |
| `HashSha2.GenMessageRandom` | sphincsplus/ref/hash_sha2.c:80-134 | HMAC of section 2 of RFC 2104, truncated, on both sides of the block boundary |
| `HashSha2.Mgf1Cached` | sphincsplus/ref/hash_sha2.c:140-171 | MGF1 of appendix B.2.1 of RFC 8017 for every input and output length, from the cached midstate |
| `HashSha2.HashMessageBytes` | sphincsplus/ref/hash_sha2.c:178-236 | H_msg of FIPS 205 section 11.2.1 for every message length |
| `HashSha2.SeedState` | sphincsplus/ref/sha2.c:1022-1040 | the seeded state has absorbed the padded public seed |
| `HashSha2.SeededHash` | sphincsplus/ref/thash_sha2_simple.c:18-40 | hash of seed block, the 22 leading bytes of the address buffer and input, truncated |
| `Sha2Engine.Thash` | sphincsplus/ref/thash_sha2_simple.c:18-40 | hashes the 22 bytes of an address buffer; for a clear one that is the engine's thash at its fields |
| `Sha2Engine.ThashAfter` | sphincsplus/ref/thash_sha2_simple.c:18-40 | after any history of address calls, it is the engine's thash at the fields of that history |
| `Sha2Engine.PrfAddr` | sphincsplus/ref/hash_sha2.c:47-70 | hashes the 22 bytes of an address buffer; for a clear one that is the engine's prf at its fields |
| `Sha2Engine.PrfMsg` | sphincsplus/ref/hash_sha2.c:80-134 | and its message randomizer |
| `Sha2Engine.HashMsg` | sphincsplus/ref/hash_sha2.c:178-236 | and its message hash |
| `Sha2Engine.ThashX8` | sphincsplus/sha2-avx2/thash_sha2_simplex8.c:41-128 | eight addresses in one buffer, eight inputs: eight scalar thash calls of that engine |
| `Sha2Engine.PrfAddrX8` | sphincsplus/sha2-avx2/hash_sha2x8.c:24-88 | eight addresses in one buffer: eight scalar prf calls of that engine |
| `Sha2Engine.DerandomizeBytes` | src/slh_dsa/utils.c:110-123 | the incremental hash of key block and message, chained once more |
| `Stats.RecordAllExact` | sphincsplus/ref/sign_stats.c:54-71 | after a run of recordings: count, per-layer attempts and maximum, no cap flag |
| `RandomSource.Thread.RandomBytes` | src/slh_dsa/utils.c:67-97 | cyclic reading from the installed buffer across its end, in place; failure flag for a null output, failure flag and zero bytes without a source |
| `RandomSource.Thread.InitSource` | src/slh_dsa/utils.c:51-56 | installs buffer, offset zero, clears the failure flag |
| `RandomSource.Thread.RestoreSource` | src/slh_dsa/utils.c:61-65 | removes it, keeping the failure flag for the caller |
| `RandomSource.Thread.BeginStats` | sphincsplus/ref/sign_stats.c:17-26 | fresh record, pointer installed |
| `RandomSource.Thread.EndStats` | sphincsplus/ref/sign_stats.c:28-31 | pointer removed |
| `Session.BytesEqual` | src/slh_dsa/validate.c:17-26 | the accumulated difference is zero exactly for equal buffers |
| `Session.ValidateKey` | src/slh_dsa/validate.c:30-59 | accepts exactly the keys whose root is that of their seeds, whatever SK_PRF |
| `Session.Derandomize` | src/slh_dsa/utils.c:101-128 | seed from key and message, in place; a null argument marks the source failed and clears the output |
| `Session.SeedHashes` | src/slh_dsa/utils.c:116-123 | first half the hash of key and message, second half that of the first half and a one |
| `Session.SignWithStats` | src/slh_dsa/sign.c:53-122 | from any thread state: exact return code, signature and record, of success and of limit, as functions of key and message alone; every failure clears sig and siglen; a rejected call leaves thread and record as they were, every other leaves the thread idle |
| `Session.SuccessRecord` | sphincsplus/ref/sign_stats.c:17-79 | a success records exactly D layers, each within the cap, the correct maximum, the grind attempts and no cap flag |
| `Session.LimitRecord` | sphincsplus/ref/sign_stats.c:38-79 | a limit says which cap: all salts tried and no layer started, or the last of the recorded searches is at its cap and the maximum |
| `Session.Run` | src/slh_dsa/sign.c:53-122 | over every run of signing calls the thread is idle between calls and each reply is what the call would get alone |
| `Api.Keygen` | src/bitcoinpqc.c:35-84 | exact error code; on success consistent keys and ownership of two live buffers, on failure nothing leaked and the structure untouched |
| `Api.SlhKeygen` | src/slh_dsa/keygen.c:38-91 | domain-separated seed derivation, its errors, and its buffer freed again |
| `Api.KeygenHashes` | src/slh_dsa/keygen.c:43-62 | the seed is the truncated SHA-512 of any byte string laid out as domain, zero, little-endian size and entropy |
| `Api.KeygenInputsDiffer` | src/slh_dsa/keygen.c:43-58 | different entropy, of any lengths, is hashed from different inputs |
| `Api.SecretKeyValidate` | src/bitcoinpqc.c:86-99 | error code of validation |
| `Api.KeypairFree` | src/bitcoinpqc.c:101-120 | as many bytes wiped as the recorded sizes say, both buffers freed once, the structure empty, any partial ownership |
| `Api.Sign` | src/bitcoinpqc.c:122-187 | exact error code: with usable arguments and a valid key only OK, SIGNING_LIMIT or OUT_OF_MEMORY, never BAD_SIGNATURE; ownership and leak freedom on every path |
| `Api.SelfCheckPasses` | src/bitcoinpqc.c:174-178 | the signature of a session passes the check that follows it and every check with at least the signing cap |
| `Api.SignatureFree` | src/bitcoinpqc.c:224-236 | as many bytes wiped as the recorded size says, buffer freed once, the structure empty |
| `Api.SlhVerify` | src/slh_dsa/verify.c:5-20 | accepts exactly the byte strings whose blocks verify under the cap that the stats pointer selects, and what an open session records |
| `Api.Verify` | src/bitcoinpqc.c:238-268 | exact error code for every combination of null, size, content and stats pointer |
| `Api.SessionMatters` | src/bitcoinpqc.c:238-268 | an open session changes the answer exactly for a valid signature that needs a counter above the signing cap |
| `Runs.Client.Step` | src/bitcoinpqc.c:35-268 | every public call keeps: thread idle, live buffers exactly those owned, sizes those of the buffers, keys consistent; and the exact code of each call |
| `Runs.Client.Run` | src/bitcoinpqc.c:35-268 | so does every run of calls with any refusals, and freeing both structures leaves nothing live |
| `Runs.RoundTrip` | src/bitcoinpqc.c:35-268 | generate, sign, verify: whenever the first two succeed so does the third, on any mix of backends |

## Left out

- Numeric SHA-2 round constants, the logical functions and known answers: they stay arbitrary parameters.
- The word-level SHA-512 rounds: SHA-512 is modelled over an arbitrary compression function only.
- SHA-NI, ARMv8 and CommonCrypto backends, backend selection, CPU detection and environment knobs: platform code; a backend is one block function and a Boolean.
- Vector loads: LOAD followed by BYTESWAP is one big-endian load of eight words; vectors are eight words.
- `mgf1_256`, `mgf1_512`, `mgf1x8` and the unseeded `sha256x8`: the standard's MGF1 is the reference and these have no caller in the engine.
- `wots_checksum` and the SPX_SHA512 `thash`: not compiled in this profile.
- `crypto_sign_keypair`, `crypto_sign` and `crypto_sign_open`: thin wrappers.
- Stack burning and wiping of stack copies: not functional; only the wiping of buffers that callers can see is modelled.
- Cryptographic strength and the probability of running into a cap: not decided by the code. `Accepted.AcceptedMeans` is the reduction; how hard its events are to produce is not stated.
- `src/lib.rs`, bindings, test helpers, fuzz targets and scripts: wrappers and tooling.
- The eight-lane code of `LeafGenX8`, `TreeHashX8` and `Fors` works on address fields; that its setters on one 256-byte buffer refine them is `AddressRuns`, and that eight hashes over that buffer are the engine's is `Sha2Engine`.
- ForsParallel.NextInv: a thread stores one block per step and memory is sequentially consistent; joining is the only synchronisation the source uses.
- Api.Sign: null pointers to the inner functions are covered by `Session.SignWithStats`; the public function never passes them.
- Sha2.IncFinalize: SHA-512 totals of 2^64 bytes and more, where the source's count wraps, are excluded.
