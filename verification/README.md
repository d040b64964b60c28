# Kernel crypto layer: a verified model

This project models the hard parts of the Linux crypto code in `c-server6/kernel-crypto` and proves
what each part promises.  Block ciphers, hashes, S-boxes and AES rounds are unknown functions;
buffers are byte arrays or byte sequences; concurrent code is a system of atomic steps in which any
interleaving may happen.

| file | what it models |
|---|---|
| `Camellia.dfy`, `CamelliaF.dfy` | the key absorption of Camellia and the two block functions; F, FL and FLINV against RFC 3713 |
| `Queue.dfy`, `Cryptd.dfy`, `Engine.dfy` | the request queue with its backlog cursor, the crypto daemon with the callbacks it swaps, and the crypto engine |
| `SpawnWalk.dfy`, `SpawnForest.dfy`, `SpawnDag.dfy`, `Spawns.dfy` | removal of the dependants of an algorithm by moving spawns between lists |
| `AlgSocket.dfy`, `TxQueue.dfy` | the counters between an AF_ALG parent and its children, and the transmit scatterlist |
| `Cbc.dfy`, `Cts.dfy`, `Ctr.dfy` | CBC, ciphertext stealing, counter mode with crypto_inc |
| `Cmac.dfy`, `CmacKeys.dfy`, `HashWalk.dfy` | CMAC, its key setting, and the hash walk that feeds it |
| `CbcMac.dfy`, `CcmFormat.dfy`, `Ccm.dfy` | CCM: MAC, formatting, and the AEAD |
| `Aegis.dfy`, `AegisNeon.dfy`, `AegisAead.dfy` | AEGIS-128, generic and NEON |
| `Adiantum.dfy` | Adiantum |
| `DrbgSpec.dfy`, `Drbg.dfy`, `AddBuf.dfy` | CTR_DRBG against SP 800-90A, and the big-number addition of the hash DRBG |
| `Cprng.dfy` | the X9.31 generator |
| `Dh.dfy` | private keys for the safe-prime groups |
| `Algboss.dfy` | the parser of template names |
| `Bytes.dfy`, `Numbers.dfy`, `Arith.dfy` | byte strings, their numbers, division |
| `Option.dfy` | a value that may be missing |

A recursive or step-by-step definition gives the meaning of each operation; methods written like the
C functions are proved to compute it, and the laws are lemmas about it.

## What the proofs found

- A scatterlist entry of length zero ends a hash walk early: the hash covers less than was asked,
  and shash_ahash_finup may not write a digest at all (`HashWalk.WalkedIsPrefix`, `HashWalk.ShashAhashFinup`).
- A requeue at the head of the engine's queue can push a request that was answered -EINPROGRESS into
  the backlog, and it is then told -EINPROGRESS again (`Engine.RequeueCanNotifyTwice`).
- Without retry support, an engine whose driver fails a request never takes another one
  (`Engine.FailureSticks`, `Engine.StuckForGood`).  With retry support, one whose driver fails the last request
  it was given goes to sleep as busy, and no new request wakes it (`Engine.FailureSleeps`, `Engine.AsleepForGood`).
- CCM accepts a message of exactly 2^(8L) bytes for L below 4 and writes its length as zero; the blocks
  of the empty message are then a prefix of its blocks (`CcmFormat.FieldExact`, `CcmFormat.NotPrefixFree`).
- Text after the closing parenthesis of a template name is ignored (`Algboss.ParseUndoesPrint`).
- crypto_remove_spawns keeps its promise on a graph without a cycle if and only if no instance below the new
  algorithm depends on the algorithm twice; otherwise such an instance is removed although the new
  algorithm is built on it (`Spawns.PromiseIffUnshared`, `Spawns.SharedInstanceIsRemoved`).
- cryptd leaves its own callback in a request that it answers -ENOSPC.  A user that submits the request again
  without setting the callback is never called; with CRYPTO_TFM_REQ_MAY_BACKLOG this cannot happen
  (`Cryptd.OwnCallsIff`, `Cryptd.BacklogSuffices`, `Cryptd.ResubmissionCanBeLost`).
- That a key is frozen under a keyed AF_ALG child depends on the order in which the two counters are read,
  which the source leaves to the compiler (`AlgSocket.KeyFrozen`, `AlgSocket.OtherOrderPasses`).

## Assumptions

Helpers in headers that are not part of this model have their plain meaning: crypto_xor and
crypto_xor_cpy XOR byte by byte, crypto_get_backlog reads the cursor, crypto_hash_walk_last says that
nothing follows, scatterwalk_* and sg_* give the bytes of a list in order, skcipher_walk offers all bytes
that are left or at least one stride, the byte-order helpers convert exactly.  CRYPTO_MAX_ATTRS is 32 and
CRYPTO_MAX_ALG_NAME 128, and isalnum() may be any classification that excludes parentheses, commas and NUL.

`AlgSocket.KeyFrozen` takes it that the comparison at af_alg.c:366 reads refcnt before nokey_refcnt, in the
order in which they are written; C does not fix the order of the two operands.

`Spawns.RemovalOnAcyclic` takes it that an instance whose template can be held has its users list
initialised (tmpl implies ready): inst->tmpl is set at algapi.c:657, after the registration that
initialises the list at algapi.c:303.  Ranks that fall from an algorithm to its users say that there is no
cycle; an instance is only built over algorithms that exist before it.

A user of cryptd sets the callback of a request, or submits it, only while the request is not in flight.

## Model

| member | source | states |
|---|---|---|
| Camellia.SetupTail | c-server6/kernel-crypto/camellia_generic.c:357-535 | The in-place key absorption turns any raw subkey array, for 24 and 32 rounds, into the table that `IsTail` defines: each entry is the raw keys XORed with what `FLDiff` makes of the whitening keys on their way. |
| Camellia.AbsorptionKeepsMeaning | c-server6/kernel-crypto/camellia_generic.c:357-535 | For every raw subkey array, round count and block, the fast cipher on an absorbed table equals plain Camellia: kw1 to kw4, FL and FLINV written out, and keys XORed in before F.  That this F, FL and FLINV are those of RFC 3713 is stated in the rows of CamelliaF. |
| Camellia.GroupsShift | c-server6/kernel-crypto/camellia_generic.c:357-535 | Between the two ciphers the halves differ, at every group boundary, by exactly the absorbed keys; the two runs stay related to the end. |
| Camellia.FLDifference | c-server6/kernel-crypto/camellia_generic.c:811-823 | FL turns the transformed difference back into the difference, whatever the input: what makes moving keys through the FL layer right. |
| Camellia.FLInvDifference | c-server6/kernel-crypto/camellia_generic.c:811-823 | FLINV turns an input difference into `FLDiff` of it, independently of the input. |
| Camellia.FIsGOfXor | c-server6/kernel-crypto/camellia_generic.c:826-841 | XORing the key after the S-boxes, as the round macro does, equals F of the key XORed in first. |
| Camellia.FlsLayer | c-server6/kernel-crypto/camellia_generic.c:811-823 | The statement macro computes FL on one half and FLINV on the other. |
| Camellia.RoundSm | c-server6/kernel-crypto/camellia_generic.c:826-841 | The eight table lookups of the statement macro add, besides the round key, what F gives for the half that io[x] stands for, whatever key has been absorbed into it. |
| Camellia.DoEncrypt | c-server6/kernel-crypto/camellia_generic.c:843-896 | The unrolled rounds on io[] compute the fast cipher for both round counts. |
| Camellia.DoDecrypt | c-server6/kernel-crypto/camellia_generic.c:898-950 | The decryption rounds compute the reference that runs the table backwards. |
| Camellia.DecryptUndoesEncrypt | c-server6/kernel-crypto/camellia_generic.c:843-950 | Decryption undoes encryption for any subkey table at all, absorbed or not. |
| CamelliaF.FIsRfc | c-server6/kernel-crypto/camellia_generic.c:335-352 | For any four S-boxes, with the tables sp1110, sp0222, sp3033 and sp4404 made from them, the eight bytes of F are P(S(x xor k)) of section 2.4.1 of RFC 3713, with P's eight byte equations and the order of the S-boxes written out. |
| CamelliaF.RolIsValue | c-server6/kernel-crypto/camellia_generic.c:811-823 | The one-bit rotation by value: 2x, less 2^32 - 1 when that does not fit. |
| CamelliaF.FLIsRfc | c-server6/kernel-crypto/camellia_generic.c:811-823 | FL on halves as in section 2.4.2 of RFC 3713, the rotation by value. |
| CamelliaF.FLInvIsRfc | c-server6/kernel-crypto/camellia_generic.c:811-823 | FLINV as in section 2.4.3, its steps in the other order. |
| Queue.CryptoQueue.constructor | c-server6/kernel-crypto/algapi.c:902-908 | An empty queue with the cursor on the list head, for any bound. |
| Queue.CryptoQueue.Enqueue | c-server6/kernel-crypto/algapi.c:911-931 | Answer and new list for every fill state and flag; the backlog cursor stays at index min(qlen, max_qlen). |
| Queue.CryptoQueue.EnqueueHead | c-server6/kernel-crypto/algapi.c:934-942 | Insertion in front, moving the cursor back by one link when full; the invariant is kept exactly if the bound is not 0. |
| Queue.CryptoQueue.Dequeue | c-server6/kernel-crypto/algapi.c:945-961 | Removal of the first entry, moving the cursor on by one link unless it is the head; same invariant. |
| Queue.CryptoQueue.GetBacklog | c-server6/kernel-crypto/algapi.c:902-961 | The cursor is the request at index max_qlen, or the head if the queue is shorter. |
| Queue.Links | c-server6/kernel-crypto/algapi.c:934-956 | Following a link from index i of the circular list gets to the neighbouring index, through the head. |
| Cryptd.StepKeepsInv | c-server6/kernel-crypto/cryptd.c:130-185 | Each atomic step of every worker and user, interleaved in any way, keeps the invariant on queues, cursor, pending notifications, the callbacks in request objects, and references. |
| Cryptd.RunKeepsInv | c-server6/kernel-crypto/cryptd.c:130-185 | So does every run, from any state that satisfies it. |
| Cryptd.ExactlyOnce | c-server6/kernel-crypto/cryptd.c:240-327 | In every run, if its callback was set after the last -ENOSPC of the request object, a submission answered -EBUSY gets exactly one -EINPROGRESS before its final call, one answered -EINPROGRESS none; each final call happens once, and every call reaches the user's own complete and data. |
| Cryptd.EnqueueOrder | c-server6/kernel-crypto/cryptd.c:130-185 | In every run and for every CPU, the submissions accepted there, in the order in which they were accepted, are those its worker has taken, in the order taken, followed by those in its queue; both lists are read off the run. |
| Cryptd.EnqueueRequest | c-server6/kernel-crypto/cryptd.c:130-160 | What a cryptd enqueue does to the crypto_queue of this CPU is what the Submit step does to its queue and records, with the same answer. |
| Cryptd.TakeRequest | c-server6/kernel-crypto/cryptd.c:162-178 | What get_backlog and dequeue leave and hand out is what the Fetch step says. |
| Cryptd.StaleIsLost | c-server6/kernel-crypto/cryptd.c:240-327 | If it was not set since then, no run ever calls the user nor finishes the submission. |
| Cryptd.OwnCallsIff | c-server6/kernel-crypto/cryptd.c:312-327 | So the calls of a submission are its user's own if and only if the callback was set after the last -ENOSPC of that object; the ciphers, the hashes (483-530) and the AEADs (737-825) alike. |
| Cryptd.RefusedMeans | c-server6/kernel-crypto/cryptd.c:130-150 | The mark on a request object that makes its next submission one of the lost kind is set exactly if some step of the run got it -ENOSPC and no later step set its callback. |
| Cryptd.BacklogSuffices | c-server6/kernel-crypto/cryptd.c:312-327 | A request that may be backlogged always has its user's callback when it is with its user, and its submissions are never of the lost kind. |
| Cryptd.SettingAgainHelps | c-server6/kernel-crypto/cryptd.c:312-327 | The callback of a request that is with its user can always be set again, and the next submission is then not of the lost kind, or is refused with nothing but the request object changed. |
| Cryptd.ResubmissionCanBeLost | c-server6/kernel-crypto/cryptd.c:240-327 | A concrete run: refused at a full queue, submitted again without setting the callback, the request enters cryptd's function twice and then calls NULL (ciphers, AEADs) or itself for ever (hashes). |
| Cryptd.Conservation | c-server6/kernel-crypto/cryptd.c:130-160 | A managed transform's count is one for the owner's handle plus its accepted, unfinished submissions; it is freed exactly once, when that reaches zero. |
| Cryptd.DropFrees | c-server6/kernel-crypto/cryptd.c:992-998 | In every run the owner of a managed transform can drop it; it is freed at once if no accepted submission is unfinished, and otherwise its count is the number of those. |
| Cryptd.WorkNotLost | c-server6/kernel-crypto/cryptd.c:162-185 | A non-empty queue always has its work pending or its worker still before the qlen check, and a busy worker can always take its next step, unless a submission of the lost kind has made it call NULL. |
| Cryptd.WorkerFinishes | c-server6/kernel-crypto/cryptd.c:162-185 | From every state of a run, a CPU on which no submission is of the lost kind comes to rest when its worker is let run: with no new submission its queue empties and everything on it is done. |
| Cryptd.QuiescentMeansDone | c-server6/kernel-crypto/cryptd.c:162-185 | When all queues are empty and all workers idle, every accepted submission has had all its calls, and they were its user's own. |
| Engine.StepKeepsInv | c-server6/kernel-crypto/crypto_engine.c:73-219 | Each step of pump, users and hardware keeps order, exclusiveness and the notification history. |
| Engine.RunKeepsInv | c-server6/kernel-crypto/crypto_engine.c:73-219 | So does every run. |
| Engine.EnqueueOrder | c-server6/kernel-crypto/crypto_engine.c:120-203 | In every run the requests are handled exactly in the order of acceptance, nothing lost or doubled, whatever the hardware refuses and the pump puts back at the head. |
| Engine.WorkNotLost | c-server6/kernel-crypto/crypto_engine.c:73-219 | In every run a non-empty queue has the pump's work pending, the pump on its way, or a request with the hardware, unless a failing driver has put the engine into one of the two states it never leaves; without failures it is in neither. |
| Engine.EveryRunDrains | c-server6/kernel-crypto/crypto_engine.c:73-219 | Every run in which the driver fails no request, whatever else users, hardware and retries have done, can be gone on with until all that was accepted is handled. |
| Engine.CanDrain | c-server6/kernel-crypto/crypto_engine.c:73-219 | The same from any state that satisfies the invariants, by the pump's own next step each time. |
| Engine.StoppedIsDrained | c-server6/kernel-crypto/crypto_engine.c:437-466 | In every run, an engine that is not running has handled every request it had accepted. |
| Engine.CanStop | c-server6/kernel-crypto/crypto_engine.c:437-466 | Every run without failures can be gone on with until the engine is stopped, with all that was accepted handled. |
| Engine.StartUndoesStop | c-server6/kernel-crypto/crypto_engine.c:407-466 | In every run stopping is refused exactly while something is queued or the engine is busy, and then changes nothing; starting again undoes it and wakes the pump. |
| Engine.TransferRequest | c-server6/kernel-crypto/crypto_engine.c:235-259 | On the crypto_queue, transfer leaves the queue, the pending work and the record of the Transfer step, and answers -ESHUTDOWN exactly when the engine is stopped. |
| Engine.StartRequest | c-server6/kernel-crypto/crypto_engine.c:120-145 | Taking the cursor and the first request leaves queue and program counter of the model's start_request. |
| Engine.RequeueRequest | c-server6/kernel-crypto/crypto_engine.c:178-190 | Putting a refused request back leaves queue and pending work of the Ask step for full hardware. |
| Engine.AtMostOne | c-server6/kernel-crypto/crypto_engine.c:84-118 | Without retry support at most one request is with the hardware. |
| Engine.NotifiedOnce | c-server6/kernel-crypto/crypto_engine.c:120-203 | A handled request was told -EINPROGRESS once if it had been answered -EBUSY or pushed past the bound by a requeue, and otherwise never. |
| Engine.RequeueCanNotifyTwice | c-server6/kernel-crypto/crypto_engine.c:178-190 | A concrete run in which a request already answered -EINPROGRESS is told -EINPROGRESS again, because the requeue pushed it into the backlog. |
| Engine.StuckForGood | c-server6/kernel-crypto/crypto_engine.c:84-118 | From a state in which cur_req names a request the hardware does not have, no run takes a request from the queue any more. |
| Engine.FailureSticks | c-server6/kernel-crypto/crypto_engine.c:147-203 | Without retry support, exactly a request that the driver fails leads into such a state. |
| Engine.AsleepForGood | c-server6/kernel-crypto/crypto_engine.c:84-118 | With retry support, from a state in which the pump rests without work pending and nothing is with the hardware although the engine counts as busy, no run takes a request any more. |
| Engine.FailureSleeps | c-server6/kernel-crypto/crypto_engine.c:147-203 | A concrete run into that state: the driver fails the only request. |
| AlgSocket.StepKeepsInv | c-server6/kernel-crypto/af_alg.c:132-205 | Each atomic operation of accept, check_key, setkey, bind and the lockless release keeps the counter invariant. |
| AlgSocket.RunKeepsInv | c-server6/kernel-crypto/af_alg.c:132-205 | So does every interleaving. |
| AlgSocket.KeyFrozen | c-server6/kernel-crypto/af_alg.c:357-408 | In every run in which setsockopt reads refcnt before nokey_refcnt, a live keyed child still has the transform it was accepted on and the key it got, and no setting of key or authsize is past its checks. |
| AlgSocket.OtherOrderPasses | c-server6/kernel-crypto/af_alg.c:366-367 | A concrete run in which the same comparison passes under a live keyed child when nokey_refcnt is read first and an unkeyed child is released between the two reads. |
| AlgSocket.NoBindUnderChild | c-server6/kernel-crypto/af_alg.c:148-205 | bind replaces the transform only when no child is counted. |
| AlgSocket.CountersExact | c-server6/kernel-crypto/af_alg.c:410-469 | Outside accept, check_key and release, refcnt is the number of children, nokey_refcnt that of unkeyed ones, and the extra parent reference is held if and only if there are children. |
| AlgSocket.CountersNonNegative | c-server6/kernel-crypto/algif_skcipher.c:265-298 | No interleaving takes a counter below zero, and there are never more unkeyed than counted children. |
| AlgSocket.NoUseWithoutKey | c-server6/kernel-crypto/algif_skcipher.c:265-298 | In every run, while the transform needs a key no child can use it. |
| AlgSocket.CheckKeyIff | c-server6/kernel-crypto/algif_skcipher.c:265-298 | The first use of an unkeyed child changes nothing if a key is needed, and otherwise takes the child off nokey_refcnt and makes it usable; the AEAD and hash sockets make the same test (algif_aead.c:396, algif_hash.c:317). |
| AlgSocket.UnusableUntilKey | c-server6/kernel-crypto/af_alg.c:357-408 | From any reachable state in which a key is needed, children stay unusable over every run in which no key is accepted and no transform is bound that needs none. |
| AlgSocket.KeyMakesUsable | c-server6/kernel-crypto/algif_skcipher.c:265-298 | While all children are unkeyed a key can be set, and after it each of them comes to use the new key. |
| AlgSocket.AcceptIff | c-server6/kernel-crypto/af_alg.c:410-469 | An accept taken to its end gives a child that can use the transform at once if and only if no key is needed, counts it in the right counters, and takes the extra reference exactly for the first child. |
| AlgSocket.GatesIff | c-server6/kernel-crypto/af_alg.c:148-205 | In every run, with no release in progress, bind gets through if and only if there is no child, and setsockopt (357-408) if and only if no child is keyed. |
| AlgSocket.BindThenAccept | c-server6/kernel-crypto/af_alg.c:148-205 | A parent without children can be bound to any transform, and a child accepted then can use it at once if and only if it needs no key. |
| AlgSocket.BoundIff | c-server6/kernel-crypto/af_alg.c:148-205 | There is a transform to accept children on exactly if a bind of the run has got through. |
| AlgSocket.LockGivenBack | c-server6/kernel-crypto/af_alg.c:357-469 | From any reachable state the holder of the parent's lock can go on to release it in at most three operations, and accept and check_key take no child, transform or key away on the way. |
| TxQueue.TxQueue.CountTsgl | c-server6/kernel-crypto/af_alg.c:646-686 | The nested loops count the entries that `Count` defines over the flattened list. |
| TxQueue.TxQueue.PullTsgl | c-server6/kernel-crypto/af_alg.c:702-763 | dst gets entries that hold exactly bytes offset to bytes of the queue; exactly the first `bytes` bytes leave it, `used` stays the sum of what is left, and the flags change as they should when it runs empty. |
| TxQueue.PulledContent | c-server6/kernel-crypto/af_alg.c:702-763 | The entries handed over hold the slice offset..n of the queue's content, for every split into entries, pages already gone included. |
| TxQueue.CountBounds | c-server6/kernel-crypto/af_alg.c:646-763 | A dst sized by the count is always large enough, and exactly so at offset 0. |
| Cbc.EncryptSegment | c-server6/kernel-crypto/cbc.cs:15-28 | The do loop leaves CBC of the whole blocks in dst and the last block in the IV. |
| Cbc.EncryptInplace | c-server6/kernel-crypto/cbc.cs:30-51 | The in-place loop, whose chaining pointer moves into the buffer, leaves the same bytes and IV. |
| Cbc.DecryptSegment | c-server6/kernel-crypto/cbc.cs:69-92 | The decryption loop leaves plain CBC decryption and the last ciphertext block as IV. |
| Cbc.DecryptInplace | c-server6/kernel-crypto/cbc.cs:94-120 | The backward in-place loop leaves the same bytes and IV as the forward one. |
| Cbc.Encrypt | c-server6/kernel-crypto/cbc.cs:53-67 | Result, bytes, IV and error code for every length, in place or not. |
| Cbc.Decrypt | c-server6/kernel-crypto/cbc.cs:122-136 | The same for decryption. |
| Cbc.RoundTrip | c-server6/kernel-crypto/cbc.cs:15-136 | Decryption undoes encryption of whole blocks for every invertible cipher. |
| Cbc.EncryptedConcat | c-server6/kernel-crypto/cbc.cs:15-67 | Encrypting in two calls through the chaining IV equals one call. |
| Cbc.DecryptedConcat | c-server6/kernel-crypto/cbc.cs:69-136 | The same for decryption. |
| Cts.CtsEncrypt | c-server6/kernel-crypto/cts.c:98-177 | The two-part C code, with its scratch buffer and overwritten destination, computes the padded, block-swapped and cut CBC of section 8 of RFC 2040 (and RFC 3962), or -EINVAL below one block. |
| Cts.CtsDecrypt | c-server6/kernel-crypto/cts.c:179-281 | The C code computes the reference that puts the stolen bytes back, undoes the exchange and decrypts with CBC. |
| Cts.StolenRoundTrip | c-server6/kernel-crypto/cts.c:98-281 | Decryption after encryption is the identity for every length of at least a block. |
| Cts.StolenOfWholeBlocks | c-server6/kernel-crypto/cts.c:98-126 | On whole blocks CTS is CBC with its last two blocks exchanged. |
| Cts.SaveSpace | c-server6/kernel-crypto/cts.c:237-281 | What is saved before decryption is the chaining value for the last two blocks, even when the buffer is overwritten. |
| Cmac.CmacDesc.Update | c-server6/kernel-crypto/cmac.c:115-159 | For every split of the message the descriptor holds the CBC-MAC state of all blocks but the last, which is always withheld. |
| Cmac.CmacDesc.Final | c-server6/kernel-crypto/cmac.c:161-192 | The digest is one-shot CMAC (section 2.4 of RFC 4493) of the concatenation of all updates. |
| Cmac.UpdateFits | c-server6/kernel-crypto/cmac.c:115-135 | New bytes that still fit the withheld block only extend it. |
| Cmac.UpdateFills | c-server6/kernel-crypto/cmac.c:136-158 | New bytes that overfill it push exactly one block through the cipher, and the block boundary stays where the reference has it. |
| CmacKeys.OneShotIsLastCbcBlock | c-server6/kernel-crypto/cmac.c:161-192 | One-shot CMAC is the last block of the CBC encryption, with a zero IV, of the message whose last block is XORed with k1 if whole, and else padded with 0x80 and zeros and XORed with k2. |
| CmacKeys.Consts128 | c-server6/kernel-crypto/cmac.c:72-88 | The 16-byte branch turns the encrypted zero block, as bytes in memory, into the doubled block followed by the twice doubled one (steps 2 and 3 of section 2.3 of RFC 4493). |
| CmacKeys.Consts64 | c-server6/kernel-crypto/cmac.c:89-101 | The same for the 8-byte branch with its constant 0x1B. |
| CmacKeys.DoubledWords | c-server6/kernel-crypto/cmac.c:78-87 | Shifting two big-endian words with carry and mask is shifting the 16 bytes by one bit and XORing the constant into the last byte if a bit was lost. |
| CmacKeys.DoubledIsTimesU | c-server6/kernel-crypto/cmac.c:77-87 | That is multiplication by u in GF(2^128) of the number that the bytes are. |
| CmacKeys.SetKey | c-server6/kernel-crypto/cmac.c:51-105 | Setting a key leaves the two subkeys of Generate_Subkey of RFC 4493 for the cipher, for both block sizes. |
| CmacKeys.Digest | c-server6/kernel-crypto/cmac.c:51-193 | Setting a key, feeding any pieces and finishing gives AES-CMAC of section 2.4 of RFC 4493 of their concatenation, subkey generation included. |
| CmacKeys.Double128 | c-server6/kernel-crypto/cmac.c:64-82 | Shifting two 64-bit words with carry and mask is multiplication by u modulo u^128 + u^7 + u^2 + u + 1. |
| CmacKeys.Double64 | c-server6/kernel-crypto/cmac.c:83-95 | The same for 64 bits, modulo u^64 + u^4 + u^3 + u + 1. |
| HashWalk.Walk.First | c-server6/kernel-crypto/ahash.c:194-208 | Starting the walk gives the first piece of what `Walked` says will be handed out. |
| HashWalk.Walk.NewEntry | c-server6/kernel-crypto/ahash.c:152-167 | Entering a scatterlist entry gives its first piece. |
| HashWalk.Walk.Next | c-server6/kernel-crypto/ahash.c:140-150 | The next piece reaches to the end of the page or of the entry, whichever comes first. |
| HashWalk.Walk.Done | c-server6/kernel-crypto/ahash.c:169-192 | Moving on hands out exactly what was still ahead, across pages and entries, and stops when nothing is. |
| HashWalk.WalkedIsPrefix | c-server6/kernel-crypto/ahash.c:140-208 | The walk covers the first n bytes of the list if and only if no entry without bytes comes before them; with one, it ends early. |
| HashWalk.ShashAhashUpdate | c-server6/kernel-crypto/ahash.c:48-59 | The hash is fed what the walk hands out, whatever the pages and entries. |
| HashWalk.ShashAhashFinup | c-server6/kernel-crypto/ahash.c:61-80 | The digest is the one-shot digest if and only if there is no such entry; otherwise it is that of an earlier prefix or is not written at all, exactly as stated. |
| Dh.AddU64ToBe | c-server6/kernel-crypto/dh.c:335-348 | Exact addition with carry out on big-endian words, for every length, and nothing outside them changes. |
| Dh.GenPrivkey | c-server6/kernel-crypto/dh.c:401-448 | For every n and every random (n+1)-word K the key is (K mod (2^(64n) - 1)) + 1, hence in [1, 2^(64n) - 1], and the second fold never carries out (section 5.6.1.1.3 of SP 800-56A rev 3). |
| Dh.CarryTurn | c-server6/kernel-crypto/dh.c:335-348 | One turn of the carry loop keeps the value of the words plus the carry at its weight. |
| Dh.Folded | c-server6/kernel-crypto/dh.c:401-430 | Adding the top word back in twice is reduction modulo 2^(64n) - 1, up to the one value that stands for zero. |
| Adiantum.ExactMod128 | c-server6/kernel-crypto/adiantum.c:186-205 | le128_add and le128_sub on two words with carry and borrow are exact modulo 2^128. |
| Adiantum.UnionRoundTrip | c-server6/kernel-crypto/adiantum.c:77-98 | Reading the 16 bytes of rbuf as a le128 and back loses nothing, both ways. |
| Adiantum.BignumIsLe | c-server6/kernel-crypto/adiantum.c:77-98 | Those 16 bytes are the number, little endian. |
| Adiantum.MiddleIs | c-server6/kernel-crypto/adiantum.c:355-385 | The first hash step is addition, modulo 2^128, of the two hashes to the little-endian number that the last block is; encryption enciphers the sum. |
| Adiantum.LastIs | c-server6/kernel-crypto/adiantum.c:278-326 | The second is subtraction modulo 2^128 of the hashes of the new bulk, after decryption has deciphered the block. |
| Adiantum.SubUndoesAdd | c-server6/kernel-crypto/adiantum.c:278-326 | The two subtractions of the second hash step undo the two additions of the first, in the order of the code. |
| Adiantum.RoundedUp | c-server6/kernel-crypto/adiantum.c:376-398 | Rounding the stream step up over the last 16 bytes leaves the same bulk, and the same result once the second hash step has written them. |
| Adiantum.AdiantumCrypt | c-server6/kernel-crypto/adiantum.c:278-415 | For every length, tweak and direction, in place or not, the code computes the two-hash-step mode, or -EINVAL below 16 bytes. |
| Adiantum.RoundTrip | c-server6/kernel-crypto/adiantum.c:278-415 | Decryption undoes encryption for every length of at least 16 bytes and every tweak, for any hashes, any invertible block cipher and any prefix-consistent keystream. |
| Aegis.UpdateInPlace | c-server6/kernel-crypto/aegis128-core.c:61-84 | The downward loop over the five blocks computes every block from the old state. |
| Aegis.UpdateNeon | c-server6/kernel-crypto/aegis128-neon-inner.c:107-118 | The NEON update, which mixes the message in first, is the same function. |
| Aegis.EncryptChunk | c-server6/kernel-crypto/aegis128-core.c:153-212 | For every size and state, in place or not: the recursive encryption, and the state that absorbed the plaintext. |
| Aegis.DecryptChunk | c-server6/kernel-crypto/aegis128-core.c:214-274 | For every size and state: the recursive decryption, and the state that absorbed the recovered plaintext. |
| Aegis.RoundTrip | c-server6/kernel-crypto/aegis128-core.c:153-274 | Decryption recovers the plaintext for every length, partial tails included; with DecryptChunk, it ends in the state encryption ended in. |
| Aegis.EncryptedConcat | c-server6/kernel-crypto/aegis128-core.c:322-343 | Cutting the text at a block boundary changes nothing. |
| Aegis.DecryptedConcat | c-server6/kernel-crypto/aegis128-core.c:322-343 | The same for decryption, through the state of the recovered text. |
| Aegis.AbsorbConcat | c-server6/kernel-crypto/aegis128-core.c:123-145 | Absorbing at a block boundary in two parts equals absorbing at once. |
| Aegis.KeyBlockBytes | c-server6/kernel-crypto/aegis128-core.c:160-172 | Every byte of key stream is S1 xor S4 xor (S2 and S3) of the bytes at that place. |
| AegisNeon.EncryptChunkNeon | c-server6/kernel-crypto/aegis128-neon-inner.c:222-269 | The NEON code gives the bytes and state of the generic function for every size and buffer, despite right-aligned loads and stores of the tail, the scratch buffer for short inputs and the rewriting of the previous block. |
| AegisNeon.DecryptChunkNeon | c-server6/kernel-crypto/aegis128-neon-inner.c:271-315 | The same for decryption, where the table lookup pads the tail with key stream. |
| AegisNeon.LeftAligned | c-server6/kernel-crypto/aegis128-neon-inner.c:216-269 | The permute table moves the last bytes to the front and clears the rest, whatever preceded them. |
| AegisNeon.LeftAlignedInto | c-server6/kernel-crypto/aegis128-neon-inner.c:271-315 | With tbx the other bytes keep the key stream. |
| AegisNeon.RightAligned | c-server6/kernel-crypto/aegis128-neon-inner.c:216-269 | The table moves the first n bytes to the end. |
| AegisNeon.StoredTwice | c-server6/kernel-crypto/aegis128-neon-inner.c:256-268 | The right-aligned store damages the block before the tail; storing that block again leaves exactly the tail written. |
| AegisAead.Init | c-server6/kernel-crypto/aegis128-core.c:98-121 | Generic and NEON initialisation give the same state. |
| AegisAead.ConstantsAreFibonacci | c-server6/kernel-crypto/aegis128-core.c:41-50 | The two constants are the first 32 Fibonacci numbers modulo 256. |
| AegisAead.ProcessAd | c-server6/kernel-crypto/aegis128-core.c:276-320 | The state after the associated data depends on their concatenation only, not on the segments, and is the padded absorption of it. |
| AegisAead.ProcessCrypt | c-server6/kernel-crypto/aegis128-core.c:322-343 | However the walk cuts the text, bytes and state are those of one chunk. |
| AegisAead.Final | c-server6/kernel-crypto/aegis128-core.c:345-365 | The tag is XORed into what tag_xor held. |
| AegisAead.FinalNeon | c-server6/kernel-crypto/aegis128-neon-inner.c:317-345 | With authsize 0 the tag is written; otherwise the result is non-zero if and only if one of the first authsize bytes differs. |
| AegisAead.LengthsAreBits | c-server6/kernel-crypto/aegis128-core.c:345-356 | The block that goes into the tag is two 64-bit little-endian numbers, the bit counts of data and text. |
| AegisAead.CheckMeaning | c-server6/kernel-crypto/aegis128-neon-inner.c:335-341 | The compare, table lookup and signed minimum give 0 exactly when the first n bytes agree, and -1 otherwise. |
| AegisAead.Encrypt | c-server6/kernel-crypto/aegis128-core.c:389-409 | Generic and NEON encryption produce the same sealed message for every segmentation. |
| AegisAead.Decrypt | c-server6/kernel-crypto/aegis128-core.c:411-448 | Both forms accept exactly when the received tag is the right one, and wipe the text otherwise. |
| AegisAead.OpenUndoesSeal | c-server6/kernel-crypto/aegis128-core.c:389-448 | Every sealed message is accepted and opens to its text. |
| AegisAead.OnlySealedOpens | c-server6/kernel-crypto/aegis128-core.c:411-448 | What is accepted is the sealed form of what it opens to. |
| Ctr.IncModulo | c-server6/kernel-crypto/algapi.c:964-992 | Increment from the last byte is addition of one modulo 256^n. |
| Ctr.CryptoInc | c-server6/kernel-crypto/algapi.c:964-992 | crypto_inc, by words and then by bytes or by bytes alone, computes that increment for every size. |
| Ctr.IncSplit | c-server6/kernel-crypto/algapi.c:977-992 | A word at the end takes the carry, or becomes zero and passes it on. |
| Ctr.CtrCrypt | c-server6/kernel-crypto/ctr.c:28-125 | Segment, in-place and final form together give the text under one keystream, and the counter moved on by the blocks begun, for every walk. |
| Ctr.StreamConcat | c-server6/kernel-crypto/ctr.c:99-125 | The keystream of two requests, the first of whole blocks, is that of one. |
| Ctr.StreamPrefix | c-server6/kernel-crypto/ctr.c:28-44 | A shorter keystream is a prefix of a longer one. |
| Ctr.StreamAt | c-server6/kernel-crypto/ctr.c:28-125 | Byte j of block i of the keystream is byte j of the encrypted counter whose number is that of the IV plus i, modulo 256^size. |
| Ctr.NextIvIs | c-server6/kernel-crypto/ctr.c:99-125 | After n bytes the counter's number has grown by the number of blocks begun, modulo 256^size. |
| CbcMac.CbcMacDesc.Update | c-server6/kernel-crypto/ccm.c:795-819 | For every split, whole blocks are absorbed and the rest is XORed into the digest. |
| CbcMac.CbcMacDesc.Final | c-server6/kernel-crypto/ccm.c:821-834 | The result is CBC-MAC of everything fed, padded with zeros to whole blocks. |
| CbcMac.AbsorbedIsLastBlock | c-server6/kernel-crypto/ccm.c:795-834 | On whole blocks, that is the last block of the CBC encryption with a zero IV. |
| CcmFormat.SetMsgLen | c-server6/kernel-crypto/ccm.c:70-86 | The field holds the csize low bytes of the length, big endian; -EOVERFLOW exactly for lengths above 256^csize when csize is below 4, with the field cleared. |
| CcmFormat.FieldExact | c-server6/kernel-crypto/ccm.c:70-86 | The field tells the length if and only if the length is not 256^csize, which is accepted and written as zero. |
| CcmFormat.FlagsAreSum | c-server6/kernel-crypto/ccm.c:128-148 | The ORed flags are 64 * Adata + 8 * M' + L'. |
| CcmFormat.FormatInput | c-server6/kernel-crypto/ccm.c:128-148 | The 16 bytes are B_0 of section 2.2 of RFC 3610 for every accepted IV. |
| CcmFormat.FormatAdata | c-server6/kernel-crypto/ccm.c:150-167 | The length of the associated data in 2 or 6 bytes. |
| CcmFormat.AdFieldSays | c-server6/kernel-crypto/ccm.c:150-167 | Below 0xff00 the field is the length itself; from there on the bytes ff fe and the length in four bytes. |
| CcmFormat.PrefixFree | c-server6/kernel-crypto/ccm.c:70-226 | For one tag size no accepted input's blocks start another's, unless the shorter message is empty and the longer has exactly 256^L bytes. |
| CcmFormat.Injective | c-server6/kernel-crypto/ccm.c:70-226 | Equal blocks come from equal L, nonce, associated data and message, for every accepted input. |
| CcmFormat.NotPrefixFree | c-server6/kernel-crypto/ccm.c:70-86 | The excepted case occurs, for every IV with L below 4. |
| Ccm.Auth | c-server6/kernel-crypto/ccm.c:169-226 | Whatever the scatterlist split, the tag is CBC-MAC of those blocks, or -EOVERFLOW. |
| Ccm.InitCrypt | c-server6/kernel-crypto/ccm.c:242-284 | -EINVAL unless L' is 1 to 7; otherwise the counter bytes are cleared and nothing else. |
| Ccm.Encrypt | c-server6/kernel-crypto/ccm.c:286-322 | Text and truncated tag under one keystream, the tag under its first block; error codes and untouched output otherwise. |
| Ccm.Decrypt | c-server6/kernel-crypto/ccm.c:345-391 | Text and verdict: -EBADMSG exactly when the received bytes are not the encrypted tag of the decrypted text. |
| Ccm.OpenUndoesSeal | c-server6/kernel-crypto/ccm.c:286-391 | Decryption restores and accepts every output of encryption. |
| DrbgSpec.OneAhead | c-server6/kernel-crypto/drbg.c:520-608 | Counter mode that increments after the cipher call gives, from a V one ahead, the output of the loops of SP 800-90A and leaves V one ahead. |
| DrbgSpec.AheadMeaning | c-server6/kernel-crypto/drbg.c:520-563 | One ahead is spec V + 1 modulo 2^128. |
| DrbgSpec.DfKeyIs | c-server6/kernel-crypto/drbg.c:402-407 | Byte i of the key of the derivation function is i. |
| Drbg.DrbgCtrBcc | c-server6/kernel-crypto/drbg.c:308-343 | The byte-wise loop over a list is BCC of section 10.4.3 on its concatenation. |
| Drbg.DrbgCtrDf | c-server6/kernel-crypto/drbg.c:386-504 | The derived bytes are Block_Cipher_df of section 10.4.2 for all three key lengths, -EINVAL above 64 bytes; the scratch parts are left clear. |
| Drbg.UpdateAhead | c-server6/kernel-crypto/drbg.c:545-563 | One counter-mode call over the data is the loop and the XOR of CTR_DRBG_Update. |
| Drbg.DrbgState.DrbgCtrUpdate | c-server6/kernel-crypto/drbg.c:520-575 | For reseed 0 to 3: CTR_DRBG_Update (section 10.2.1.2) on the state stood for, with V one ahead afterwards; df_data is kept for reseed 2 and cleared otherwise. |
| Drbg.DrbgState.SymCtrZeros | c-server6/kernel-crypto/drbg.c:1821-1862 | Output in scratchpad chunks of 256 bytes is one keystream of any length. |
| Drbg.DrbgState.DrbgCtrGenerate | c-server6/kernel-crypto/drbg.c:583-608 | CTR_DRBG_Generate (section 10.2.1.5.2) for every length an unsigned int holds, with and without additional input, whose derived form goes from the first update to the second; above INT_MAX all bytes are generated and the returned length is negative. |
| AddBuf.DrbgAddBuf | c-server6/kernel-crypto/drbg.c:764-788 | The two loops leave the sum that `Added` defines, for a shorter number and, as in the hash DRBG (lines 997-998), one of the same length. |
| AddBuf.AddedModulo | c-server6/kernel-crypto/drbg.c:764-788 | Big-endian addition of a number that is not longer, modulo 256^dstlen. |
| Cprng.PrngContext.GetMorePrngBytes | c-server6/kernel-crypto/ansi_cprng.c:81-178 | The three stages and the counter give the next block and state of the X9.31 recurrence; on a repeated block the machine panics if the continuous test is on, and otherwise the flag is set and nothing else of the generator's state changes. |
| Cprng.NextUndone | c-server6/kernel-crypto/ansi_cprng.c:81-178 | For an invertible cipher, deciphering the block and the next V gives I xor V and R xor I with one I, the encrypted counter, and the counter moves on by one modulo 2^128. |
| Cprng.PrngContext.GetPrngBytes | c-server6/kernel-crypto/ansi_cprng.c:181-269 | For every fill state, size and PRNG_FIXED_SIZE, the jumps hand out what `AnswerOf` says, refuse when a reset is due, and when a block repeats panic exactly if asked to and else zero the whole buffer. |
| Cprng.PrngContext.ResetPrngContext | c-server6/kernel-crypto/ansi_cprng.c:276-318 | Reset installs the seed, empties the buffer and clears the flag if the key was accepted. |
| Cprng.ProducedIsStream | c-server6/kernel-crypto/ansi_cprng.c:81-269 | The bytes given out are successive bytes of the block stream, none lost or repeated; a request fails if and only if a block it needs repeats the one before. |
| Cprng.ProducedConcat | c-server6/kernel-crypto/ansi_cprng.c:181-269 | Two requests in a row take what one of both sizes takes. |
| Cprng.SizesDoNotMatter | c-server6/kernel-crypto/ansi_cprng.c:181-269 | Over any run of calls that succeed, output and state are those of one call for the sum of the sizes. |
| Cprng.StoppedForGood | c-server6/kernel-crypto/ansi_cprng.c:192-195 | After a call that tripped, every later call is refused, whatever comes between but a reset. |
| Algboss.ParseName | c-server6/kernel-crypto/algboss.c:91-141 | The loops compute the parser function on every string, never reading past the NUL nor writing past the arrays. |
| Algboss.ParseUndoesPrint | c-server6/kernel-crypto/algboss.c:91-141 | The parser finds head and arguments if and only if the name starts with their printed form, head and arguments well formed; whatever follows the closing parenthesis is not looked at. |
| Algboss.TermRoundTrip | c-server6/kernel-crypto/algboss.c:91-141 | Of any nested template name with 1 to CRYPTO_MAX_ATTRS - 1 arguments, exactly the head and the printed top-level arguments are recovered. |
| Algboss.PrintDepth | c-server6/kernel-crypto/algapi.c:887-900 | A printed nested name is balanced. |
| Algboss.CryptoInstance.CryptoInstSetname | c-server6/kernel-crypto/algapi.c:887-900 | It succeeds exactly if both names fit with their NUL, and otherwise answers -ENAMETOOLONG, before or after the first is written, each array holding its name or as much as fits; after success the manager's parser reads cra_name and cra_driver_name back as template and algorithm, exactly if these are well formed. |
| SpawnWalk.Terminates | c-server6/kernel-crypto/algapi.c:172-221 | On any graph, cyclic ones included, the walk stops, by a measure of spawns not yet on the stack or on secondary_spawns. |
| SpawnWalk.StepDecreases | c-server6/kernel-crypto/algapi.c:107-129 | Every list move keeps each spawn on one list and brings the end nearer. |
| SpawnWalk.OneEnd | c-server6/kernel-crypto/algapi.c:172-221 | The walk has one outcome. |
| SpawnForest.Visit | c-server6/kernel-crypto/algapi.c:172-221 | Through every depth-first forest of the users lists, the walk comes back to where it started after finishing every spawn in it once; the marks say below whom the new algorithm was found. |
| SpawnDag.Grow | c-server6/kernel-crypto/algapi.c:172-221 | A users graph without a cycle has such a forest, whatever instances share users. |
| SpawnDag.InIffReached | c-server6/kernel-crypto/algapi.c:172-221 | A spawn is in it if and only if it depends on the algorithm, by a path in the graph. |
| SpawnDag.OneOfTwoDies | c-server6/kernel-crypto/algapi.c:182-218 | Of two spawns of one instance in it, one stays dead, since the first visit takes the users away. |
| SpawnDag.LifeGoesUp | c-server6/kernel-crypto/algapi.c:123-128 | A live user makes the spawn below it live, if that is the only spawn of its instance. |
| SpawnDag.FinishedInOrder | c-server6/kernel-crypto/algapi.c:107-129 | On secondary_spawns the users of an instance come after all its spawns. |
| Spawns.NoBug | c-server6/kernel-crypto/algapi.c:131-149 | With that order, an instance is removed before any of its users could come back, so the BUG_ON of crypto_remove_instance cannot fire. |
| Spawns.RemovalOnAcyclic | c-server6/kernel-crypto/algapi.c:157-234 | On every graph without a cycle below the algorithm: the visited spawns are those that depend on it; afterwards each spawn is on the list it was on, unless it was visited and is dead; a live one is needed by the new algorithm; the instances of registered dead ones are marked; the caller's list gets, in front of what it held, exactly those newly marked whose template is held, each once; no BUG_ON fires. |
| Spawns.AllListed | c-server6/kernel-crypto/algapi.c:131-149 | The list of instances to destroy: an instance is added if and only if it belongs to a registered spawn left dead, was not marked before and its template can be held; each once, in front. |
| Spawns.PromiseIffUnshared | c-server6/kernel-crypto/algapi.c:157-163 | On every such graph, what the new algorithm needs stays and nothing else does, if and only if no instance below the new algorithm depends on the algorithm through two registered spawns; and exactly otherwise an instance the new algorithm is built on is marked dead. |
| Spawns.SharedInstanceIsRemoved | c-server6/kernel-crypto/algapi.c:157-234 | A concrete graph on which that happens. |
| Spawns.AlgRegistry.Descend | c-server6/kernel-crypto/algapi.c:182-218 | The inner loop makes the moves of the walk down to a leaf. |
| Spawns.AlgRegistry.Finish | c-server6/kernel-crypto/algapi.c:223-233 | The last loop puts live spawns back and removes dead instances: lists, marks, BUG_ON and the list of instances to destroy are those of the walk's outcome. |
| Spawns.AlgRegistry.CryptoRemoveSpawns | c-server6/kernel-crypto/algapi.c:157-234 | The whole function terminates with the outcome of the walk; without a cycle that is the one of RemovalOnAcyclic, and the promise is kept exactly if nothing is shared. |

## Left out

- The echo servers and clients in C, Java and C#: sockets, forking and printing.
- Concrete S-boxes and tables (AES, Anubis, Camellia, CAST, Blowfish), and the software AES round of the NEON code: unknown functions here.
- Plain Feistel ciphers (CAST5, CAST6, Blowfish): with unknown round functions nothing is left but that a Feistel network is invertible, which Camellia shows already. Thin wrappers (842, deflate, arc4, des, crc, curve25519, ecdh, chacha_generic, akcipher, acompress): they pass their arguments on to library code that is not in this directory.
- Raw subkey generation (setup128, setup192, setup256) and the big-endian loads around the Camellia block functions: the proof is for every raw subkey array.
- The two 32-bit arrays subL and subR of Camellia are one array of pairs.
- Memory allocation, kmap, page reference counts, locking primitives and module registration: locked regions are atomic steps, allocation does not fail.
- Unmanaged cryptd transforms: that their owner outlives their requests is left to the owner.
- A cryptd or engine whose queue has bound 0: Cryptd and Engine take a bound of at least 1; with 0 the request that is told -EINPROGRESS is the one being dequeued.
- The time that stopping an engine waits for it to run empty, its sleep and wake-up calls, and batching: order and exclusiveness do not depend on them; what happens after a hardware error is among the findings above.
- ALG_SET_AEAD_AUTHSIZE passes the same two reads as ALG_SET_KEY and is the same step of AlgSocket; the accept of a hash socket uses the same counters and has no step of its own; the tag slicing in the AEAD socket's receive path is not modelled.
- Errors reported to crypto_hash_walk_done and errors of inner cipher or hash calls: only calls that succeed are modelled, except where an error code is named.
- The aligned and unaligned loops of the generic AEGIS code have the same content and are one loop here.
- Asynchronous completion in Adiantum, CCM and CTS: the second half runs when the first has completed, as in the synchronous path; key setting is modelled for CMAC only.
- The DRBG's scratchpad is one buffer in C; its parts are separate arrays here, so that they do not overlap is assumed. Hash and HMAC DRBG, seeding, reseed intervals, health tests and drbg_generate_long are not modelled.
- Cprng.PrngContext.GetPrngBytes: takes sizes from 1 to 2^32 - 1, what an unsigned int dlen can ask for besides nothing; for a size of 0 the source's byte counter would wrap.
- Drbg.DrbgState.DrbgCtrGenerate: does not model failing cipher calls, whose error code the source returns.
- Spawns.AlgRegistry.CryptoRemoveSpawns: takes the test of a spawn's mask against the new type as a given predicate, and goes on after a BUG_ON in the last loop, where the kernel stops, to say that it fired.
- Users graphs with a cycle: only termination is proved for them; registration cannot build one.
- Cryptographic strength, randomness quality and timing.
