# ZeroTier core: a verified model

A Dafny model of the parts of the ZeroTier core that carry algebra, state over whole runs, or codecs, with proofs for
all inputs and all reachable states. `dafny verify dfyconfig.toml` checks everything.

**AES-GMAC-SIV, software path.** `WideMul`, `Gf2Poly`, `Gf128` and `GfMul` show that the bit-sliced multiplier is the
block multiplication of NIST SP 800-38D. Words and polynomials over GF(2) are both finite sets of exponents or bit
positions; integers appear where the code multiplies integers with holes. `AesTables`, `AesCipher` and `AesKey` prove the
table-driven cipher and its key expansion against FIPS 197 for any substitution box given with its inverse. `Gmac` and
`Ctr` are the streaming objects with their partial blocks, `Siv` the two-pass encryptor and one-pass decryptor with a
round trip for every cutting of the input, in place or not. `GmacNi` is the register code with four-block aggregation.
The standards are cited by section in the files.

**Hash table.** `Hashtable` keeps the real structure: an array of linked nodes, changed in place, with ghost fields that
tie it to a finite map. The hash function is arbitrary. Every operation is proved to refine the map, and the iterator to
return every entry once even when the caller erases the entry just returned.

**Membership.** `Credentials` states what a membership record remembers and how each message changes it, with theorems
over all runs; `Membership` is the class on top of four hash tables, each method proved to follow those transitions.

**Bonds.** `BondPaths` (eligibility, selection, nomination), `BondStripe` (round-robin fairness), `BondFlows` (flow
counters), `BondSteps` (the bond as a state machine, and theorems over its runs) and `Bond` (the class with its slot array,
index map and flow table, whose operations follow those steps) cover balance-rr and balance-xor. `BondHealth` says in plain times
and address types which paths stay in the bond, and `BondWitnesses` has runs from construction on.

**Codecs.** `DictionaryText` and `Dictionary` are the key=value store; `Buffers`, `Rules`, `Capabilities`,
`CredentialCodecs` the binary encodings; `CustodyChain` signing and verifying; `CredentialPush` packing credentials into
packets and parsing them back. An operation that the source leaves by throwing returns a failure here.

Where code and documentation disagree the model follows the code:

- A hash table assigned to itself is documented nowhere, and ends empty, because assignment clears first.
- `Dictionary::add` that fails can leave the last byte of the array nonzero; the text stays terminated all the same.
- The comment on the CTR class says counter overflow is not supported; the software path wraps modulo 2^32 and so agrees
  with inc32 even then.
- A new tag, capability or ownership revocation overwrites the membership threshold, so that threshold can drop; the
  exact condition is proved.
- `createFlow` would evict a flow from a full table, but a table with sixteen-bit keys is never full when a new key
  arrives; this is proved.
- A round-robin stripe is one send longer than the configured number, and with more than 65535 packets per link the
  striper never switches; fairness is proved with these numbers, exactly when it holds.
- Vacating a slot zeroes its flow counter but leaves the flows on it, and flows on an empty slot are never moved, so an
  active flow can stay there with nothing to send on; when the counters are right after a run is proved exactly, and
  `BondWitnesses` shows a run in which both happen.
- A signature in a custody chain does not cover the recipient, so the last recipient can be replaced without breaking
  verification; which replacements verify is proved exactly.
- A certificate of ownership may count more than sixteen things when it is read, though only sixteen are stored; it then
  no longer meets what serializing it requires, and exactly then.
- The comment in the SIV encryptor says that masking the counter allows 2^31 bytes before it loops; it allows 2^31 blocks,
  which is proved.

## Model

| member | source | states |
|---|---|---|
| WideMul.BMul32IsMul | ZeroTierOne/node/AES.cpp:30-46 | the four masked integer products, masked and combined, are exactly the 64-bit carry-less product of two 32-bit words: no sum of at most eight terms carries into a bit that is kept |
| GfMul.Karatsuba | ZeroTierOne/node/AES.cpp:61-98 | the identity that lets three products replace four, over polynomials of any size |
| GfMul.GroupIsMul | ZeroTierOne/node/AES.cpp:61-71 | three 32-bit products give the exact 64-bit product of two words of halves |
| GfMul.UnreducedIsMul | ZeroTierOne/node/AES.cpp:48-92 | the nine small products, recombined, are the 256-bit carry-less product of the two 128-bit operands |
| GfMul.ReduceIsEv | ZeroTierOne/node/AES.cpp:93-104 | shifting left and folding twice reduces the mirrored 256-bit product modulo x^128 + x^7 + x^2 + x + 1 |
| GfMul.FoldPolyIsEv | ZeroTierOne/node/AES.cpp:96-104 | folding the high half, and its overflow once more, does not change the residue |
| Gf128.GMulIsReduced | ZeroTierOne/node/AES.cpp:48-105 | the bit-serial block multiplication of section 6.3 of NIST SP 800-38D is polynomial multiplication followed by reduction |
| Gf128.GMulComm | ZeroTierOne/node/AES.cpp:48-105 | the block multiplication commutes |
| Gf128.GMulAssoc | ZeroTierOne/node/AES_aesni.cpp:233-274 | the block multiplication is associative, which is what precomputed powers of the hash key rely on |
| Gf128.GMulAddLeft | ZeroTierOne/node/AES_aesni.cpp:233-274 | the block multiplication distributes over exclusive or |
| GfMul.WordsMultiply | ZeroTierOne/node/AES.cpp:48-105 | the word code on the big-endian words of two blocks equals the block multiplication of section 6.3 of NIST SP 800-38D, for all 128-bit operands |
| Blocks.SGfMul | ZeroTierOne/node/AES.cpp:48-105 | s_gfmul on memory images: the result is the product of the two blocks in GF(2^128) |
| Gmac.GhashAppend | ZeroTierOne/node/AES.cpp:109-164 | GHASH of one more block is one more multiply-and-add step |
| Gmac.Gmac.Init | ZeroTierOne/node/AES.hpp:184-211 | a new stream has absorbed nothing, its hash has no bit set, and its counter block is the 96-bit IV followed by 1 |
| Gmac.Gmac.Update | ZeroTierOne/node/AES.cpp:109-164 | whatever the pieces, the state stands for the hash of the complete blocks of everything absorbed, with the rest buffered; the length field counts modulo 2^32 |
| Gmac.Gmac.Finish | ZeroTierOne/node/AES.cpp:166-210 | the tag is that of section 7.1 of NIST SP 800-38D, with an empty plaintext, of the concatenated data when it is shorter than 2^32 bytes; otherwise the same tag with the wrapped length; without data it is the encrypted counter block |
| Gmac.TagOfNothing | ZeroTierOne/node/AES.cpp:166-210 | without data the tag is the encrypted counter block alone |
| Gmac.TagFromNothing | ZeroTierOne/node/AES.hpp:184-211 | hash key and starting hash of a tag come from the one block without a bit |
| Gmac.GhashLinear | ZeroTierOne/node/AES.cpp:109-164 | from that block GHASH is linear: the hash of a sum of equally long data is the sum of their hashes |
| AesTables.XIsConditional | ZeroTierOne/node/AES.cpp:454-486 | multiplication by x in GF(2^8): shift, and add 0x1b if a bit falls off |
| AesTables.InvMixColumnUndoes | ZeroTierOne/node/AES.cpp:649-720 | InvMixColumns undoes MixColumns on every column |
| AesTables.MixColumnUndoes | ZeroTierOne/node/AES.cpp:573-647 | MixColumns undoes InvMixColumns on every column |
| AesTables.MixColumnIsTables | ZeroTierOne/node/AES.cpp:573-647 | four rotated entries of the encryption table add up to a mixed column |
| AesTables.InvMixColumnIsTables | ZeroTierOne/node/AES.cpp:649-720 | four rotated entries of the decryption table add up to an inversely mixed column |
| AesCipher.EncryptIsCipher | ZeroTierOne/node/AES.cpp:573-647 | the table-driven encryption is Cipher of section 5.1 of FIPS 197, for every schedule and block |
| AesCipher.DecryptIsInvCipher | ZeroTierOne/node/AES.cpp:649-720 | the table-driven decryption with the transformed schedule is InvCipher of section 5.3 of FIPS 197 |
| AesCipher.DecryptUndoesEncrypt | ZeroTierOne/node/AES.cpp:573-720 | for every schedule pair and block, p_decryptSW undoes p_encryptSW |
| AesCipher.EncryptUndoesDecrypt | ZeroTierOne/node/AES.cpp:573-720 | and p_encryptSW undoes p_decryptSW, so both are permutations |
| AesKey.ExpandKey | ZeroTierOne/node/AES.cpp:512-539 | the expansion loop produces exactly the 60 words of section 5.2 of FIPS 197 |
| AesKey.TdOfTeIsInvMix | ZeroTierOne/node/AES.cpp:564-570 | the decryption table applied to substituted bytes is InvMixColumns of the word |
| AesKey.ReverseGroups | ZeroTierOne/node/AES.cpp:550-563 | the swapping loop reverses the order of the fifteen round keys |
| AesKey.InvMixInner | ZeroTierOne/node/AES.cpp:564-570 | the last loop applies InvMixColumns to round keys 1 to 13 and to no other |
| AesKey.Aes.InitSW | ZeroTierOne/node/AES.cpp:512-571 | after keying, the encryption schedule, the decryption schedule of section 5.3.5 of FIPS 197 and the hash key belong to the same key; the hash key words are those of the encryption of the block without a bit |
| BigEndians.BigEndianRoundTrip | ZeroTierOne/node/AES.cpp:230-246 | the big-endian bytes of the integer in a byte string are that byte string |
| BigEndians.FromBigEndianRoundTrip | ZeroTierOne/node/AES.cpp:230-246 | the integer in the k big-endian bytes of n is n modulo 256^k |
| Ctr.CounterStep | ZeroTierOne/node/AES.cpp:244-246 | incrementing the host-order counter and storing it is inc32 of section 6.2 of NIST SP 800-38D, wrap-around included |
| Ctr.CounterCountsUp | ZeroTierOne/node/AES.hpp:410-416 | a counter that starts below 2^31 counts up for 2^31 blocks without wrapping, and the first twelve bytes stay |
| Ctr.BulkIsEncrypt | ZeroTierOne/node/AES.cpp:260-436 | the key stream from the loop-invariant whitened words is the encryption of the whole counter block |
| Ctr.GctrAppend | ZeroTierOne/node/AES.cpp:214-438 | the key stream of a long input continues with the counter after its complete blocks |
| Ctr.GctrInvolution | ZeroTierOne/node/AES.cpp:214-450 | applying the key stream twice gives the input back |
| Ctr.Ctr.Init | ZeroTierOne/node/AES.hpp:263-268 | a new stream starts at the given counter block and output |
| Ctr.Ctr.Crypt | ZeroTierOne/node/AES.cpp:214-438 | whatever the pieces, the output holds the encryption of the complete blocks of all input, then the rest in the clear, and nothing after it is touched; the input may lie in the output at the same place |
| Ctr.Ctr.Finish | ZeroTierOne/node/AES.cpp:440-450 | the output is GCTR (section 6.5 of NIST SP 800-38D) of everything given since init |
| Siv.OpenUndoesSeal | ZeroTierOne/node/AES.hpp:346-534 | opening a sealed message with the same AAD gives the plaintext and accepts, for every key pair, IV, AAD and plaintext |
| Siv.AcceptsExactlySealed | ZeroTierOne/node/AES.hpp:469-534 | the decryptor accepts a tag and ciphertext if and only if they are the sealing of some plaintext under some IV |
| Siv.GmacSivEncryptor.Init | ZeroTierOne/node/AES.hpp:346-356 | starts the first pass with the 64-bit IV padded to 96 bits |
| Siv.GmacSivEncryptor.Aad | ZeroTierOne/node/AES.hpp:369-380 | the authenticated prefix is the AAD padded to a multiple of sixteen bytes |
| Siv.GmacSivEncryptor.Update1 | ZeroTierOne/node/AES.hpp:388-391 | the first pass absorbs the concatenated plaintext |
| Siv.GmacSivEncryptor.Finish1 | ZeroTierOne/node/AES.hpp:396-424 | the tag is the encryption of the IV and the folded GMAC, and the second pass starts at the tag with its last word taken modulo 2^31 |
| Siv.IcbIs | ZeroTierOne/node/AES.hpp:410-418 | the starting counter keeps the first twelve bytes of the tag, and its last word is that of the tag modulo 2^31 |
| Siv.GmacSivEncryptor.Update2 | ZeroTierOne/node/AES.hpp:435-438 | the second pass crypts the concatenated plaintext, independently of how it is cut |
| Siv.GmacSivEncryptor.Finish2 | ZeroTierOne/node/AES.hpp:443-447 | if both passes saw the same plaintext, tag and output are the sealed message |
| Siv.GmacSivDecryptor.Init | ZeroTierOne/node/AES.hpp:469-490 | recovers IV and MAC from the tag and starts both streams, the counter at the tag with its last word taken modulo 2^31 |
| Siv.GmacSivDecryptor.Aad | ZeroTierOne/node/AES.hpp:492-499 | the decryptor's AAD is padded like the encryptor's |
| Siv.GmacSivDecryptor.Update | ZeroTierOne/node/AES.hpp:509-513 | the ciphertext received so far is the concatenation of the pieces |
| Siv.GmacSivDecryptor.Finish | ZeroTierOne/node/AES.hpp:520-528 | plaintext and verdict are those of opening the whole message |
| Siv.Exchange | ZeroTierOne/node/AES.hpp:346-534 | encryptor then decryptor in place, each with arbitrary cuts, returns true and the original plaintext |
| GmacNi.PclMulIsBlockMul | ZeroTierOne/node/AES_aesni.cpp:27-46 | the register multiplication equals the block multiplication, and so s_gfmul |
| GmacNi.ReducedIsEv | ZeroTierOne/node/AES_aesni.cpp:38-45 | the lane shifts and folds reduce the doubled 256-bit product modulo the field polynomial |
| GmacNi.InitPowers | ZeroTierOne/node/AES_aesni.cpp:608-620 | the stored registers are H, H^2, H^3, H^4 and their folded halves |
| GmacNi.WideIsSum | ZeroTierOne/node/AES_aesni.cpp:247-268 | the body of the wide loop, with one reduction, is the sum of four products in GF(2^128) |
| GmacNi.HornerIsSum | ZeroTierOne/node/AES_aesni.cpp:247-268 | four steps of Horner's rule are one sum with the powers of the hash key |
| GmacNi.WideStepIsFourSteps | ZeroTierOne/node/AES_aesni.cpp:247-268 | the aggregated step equals four sequential one-block steps |
| GmacNi.NiGmac.Update | ZeroTierOne/node/AES_aesni.cpp:214-283 | for every input, the wide update leaves the state that hashing block by block would |
| GmacNi.StateIsDetermined | ZeroTierOne/node/AES_aesni.cpp:214-283 | hash and buffered tail are determined by the data, so the wide and the simple update agree |
| Hashtable.Table.constructor | ZeroTierOne/node/Hashtable.hpp:97-105 | a new table is the empty map |
| Hashtable.Table.Copy | ZeroTierOne/node/Hashtable.hpp:107-124 | the copy stands for the same map, with nodes of its own |
| Hashtable.Table.Assign | ZeroTierOne/node/Hashtable.hpp:132-145 | the target becomes the source's map and shares nothing with it; assigned to itself, a table ends empty |
| Hashtable.Table.Clear | ZeroTierOne/node/Hashtable.hpp:150-164 | the table becomes the empty map |
| Hashtable.Table.Find | ZeroTierOne/node/Hashtable.hpp:227-237 | the walk along a bucket finds a node exactly if the map has the key, and it carries the map's value |
| Hashtable.Table.Get | ZeroTierOne/node/Hashtable.hpp:248-259 | the value of the key in the map, or none |
| Hashtable.Table.Contains | ZeroTierOne/node/Hashtable.hpp:265-275 | whether the map has the key |
| Hashtable.Table.Size | ZeroTierOne/node/Hashtable.hpp:367-370 | the number of entries of the map |
| Hashtable.Table.Erase | ZeroTierOne/node/Hashtable.hpp:281-302 | removes exactly the key, reports whether it was there, and unlinks exactly its node |
| Hashtable.Table.Set | ZeroTierOne/node/Hashtable.hpp:309-333 | updates exactly the key, rehashing or not |
| Hashtable.Table.Index | ZeroTierOne/node/Hashtable.hpp:339-363 | operator[] returns the node of the key, created with the default if it was missing |
| Hashtable.Table.Write | ZeroTierOne/node/Hashtable.hpp:339-363 | writing through the returned reference updates exactly that key |
| Hashtable.Table.Grow | ZeroTierOne/node/Hashtable.hpp:402-424 | rehashing in place keeps every node and the map, whether or not memory is available |
| Hashtable.MoveNode | ZeroTierOne/node/Hashtable.hpp:411-418 | one move of a node keeps the moved and the unmoved part of the table intact |
| Hashtable.RehashEnd | ZeroTierOne/node/Hashtable.hpp:402-424 | when all buckets are walked, every node is in its bucket of the new array |
| Hashtable.Table.EntriesAreModel | ZeroTierOne/node/Hashtable.hpp:207-221 | a walk over all buckets meets each key of the map exactly once, with its value |
| Hashtable.Iterator.constructor | ZeroTierOne/node/Hashtable.hpp:61-63 | a new iterator has all entries before it |
| Hashtable.Iterator.Next | ZeroTierOne/node/Hashtable.hpp:70-85 | returns the entries one by one, each exactly once, and none at the end |
| Hashtable.Iterator.EraseLast | ZeroTierOne/node/Hashtable.hpp:49-91 | erasing the key just returned leaves the entries still to come unchanged |
| Credentials.ComTimestamp | ZeroTierOne/node/CertificateOfMembership.hpp:143-151 | the value of the first timestamp qualifier, or zero |
| Credentials.KeysDiffer | ZeroTierOne/node/Membership.hpp:169-172 | keys for different types or identifiers never collide |
| Credentials.RevocationIsPermanent | ZeroTierOne/node/Membership.hpp:220-228 | after a verified revocation, in no later state of any run does a credential of that type and id at or below the threshold count as valid, under any configuration |
| Credentials.RevokedTagNeverServed | ZeroTierOne/node/Membership.hpp:128-132 | after a verified tag revocation the record never again serves a tag under that identifier at or below the threshold |
| Credentials.RevokedNeverAccepted | ZeroTierOne/node/Membership.cpp:131-163 | nor is such a credential ever accepted as new again |
| Credentials.RevokedForever | ZeroTierOne/node/Membership.cpp:178-212 | a stored revocation threshold never decreases over any run |
| Credentials.ComNeverOlder | ZeroTierOne/node/Membership.cpp:99-127 | the timestamp of the stored membership certificate never decreases over any run |
| Credentials.ThresholdDropsExactly | ZeroTierOne/node/Membership.cpp:178-212 | the membership threshold decreases exactly at a verified tag, capability or ownership revocation that raises its own entry but lies below the threshold |
| Credentials.ThresholdCanDrop | ZeroTierOne/node/Membership.cpp:200 | a run in which a revoked membership certificate is accepted again because of that overwrite |
| Credentials.ThresholdAfterRun | ZeroTierOne/node/Membership.cpp:178-212 | after any run the membership threshold is the one that was stored last, or the one at the start if none was |
| Credentials.ReadmittedExactly | ZeroTierOne/node/Membership.cpp:99-127 | after a verified revocation of memberships and any later run, a certificate it covers is accepted again exactly if the threshold stored last since then is below the certificate and no newer certificate is held |
| Credentials.ReadmissionNeedsDrop | ZeroTierOne/node/Membership.cpp:178-212 | and that takes a verified tag, capability or ownership revocation with a threshold below the certificate |
| Credentials.AcceptedExactly | ZeroTierOne/node/Membership.cpp:131-163 | a credential is newly accepted exactly if it checks out, nothing newer and not the same is held, and it is not revoked; then it is stored, and otherwise nothing changes |
| Credentials.AcceptedComExactly | ZeroTierOne/node/Membership.cpp:99-127 | a membership certificate is newly accepted exactly if it checks out, differs from the stored one, is newer than the threshold and not older than the stored one |
| Credentials.HeldWereVerified | ZeroTierOne/node/Membership.cpp:131-163 | after any run a stored credential was there at the start or came in a message that checked out |
| Credentials.ComWasVerified | ZeroTierOne/node/Membership.cpp:99-127 | and so did the stored membership certificate |
| Credentials.RevocationsWereVerified | ZeroTierOne/node/Membership.cpp:178-212 | every stored threshold is that of the start, zero, or that of a revocation that checked out |
| Credentials.HeldNeverOlder | ZeroTierOne/node/Membership.cpp:131-163 | while nothing is cleaned up, a credential is only replaced by one that is not older |
| Credentials.CleanKeepsExactly | ZeroTierOne/node/Membership.hpp:220-240 | cleaning keeps exactly what is at most the maximum difference away from the network's timestamp and newer than its threshold |
| Membership.AddCredImpl | ZeroTierOne/node/Membership.cpp:131-163 | the template follows the transition on the credential map, with every rejection |
| Membership.Membership.AddCom | ZeroTierOne/node/Membership.cpp:99-127 | follows the transition for membership certificates |
| Membership.Membership.AddTag | ZeroTierOne/node/Membership.cpp:165-168 | follows the transition for tags |
| Membership.Membership.AddCapability | ZeroTierOne/node/Membership.cpp:169-172 | follows the transition for capabilities |
| Membership.Membership.AddCoo | ZeroTierOne/node/Membership.cpp:173-176 | follows the transition for certificates of ownership |
| Membership.Membership.AddRevocation | ZeroTierOne/node/Membership.cpp:178-212 | follows the transition for revocations, the entry created by operator[] included |
| Membership.CleanCredImpl | ZeroTierOne/node/Membership.hpp:230-240 | iterating and erasing leaves exactly the credentials with a valid date, values unchanged |
| Membership.Membership.Clean | ZeroTierOne/node/Membership.cpp:214-219 | cleans all three tables and nothing else |
| Membership.IsTimestampValid | ZeroTierOne/node/Membership.hpp:220-228 | near the network's timestamp and newer than the revocation threshold |
| Membership.Membership.GetTag | ZeroTierOne/node/Membership.hpp:128-132 | the stored tag exactly if it is valid now |
| Membership.Membership.Replay | ZeroTierOne/node/Membership.cpp:99-219 | any run of credential messages and cleanings on the hash tables reaches exactly the state that the transitions give, from every valid record, so the theorems over runs hold of the record |
| Membership.Membership.IsAllowedOnNetwork | ZeroTierOne/node/Membership.hpp:90-93 | public, or a certificate newer than the threshold that agrees |
| Credentials.GateOpensExactly | ZeroTierOne/node/Membership.hpp:74-81 | over any run of attempts the gate opens exactly when a whole announce period has passed since every earlier opening |
| Membership.CapabilityIterator.Next | ZeroTierOne/node/Membership.hpp:269-277 | the next valid capability; those passed over are all invalid |
| Membership.ValidCapabilities | ZeroTierOne/node/Membership.hpp:263-277 | walking with the iterator to its end gives exactly the stored capabilities that are valid now, each once |
| Bond.Bond.constructor | ZeroTierOne/node/Bond.cpp:1855-1906 | a new bond has the given policy and limit, only vacant slots, no flows and nothing bonded |
| Bond.Bond.RefreshAll | ZeroTierOne/node/Bond.cpp:986-1069 | every slot takes its refreshed state, and a rebuild is asked for exactly when some slot triggers it |
| BondPaths.RefreshInPlainTimes | ZeroTierOne/node/Bond.cpp:986-1069 | with no time in the future: when a path leaves its slot, when it is alive, when it is eligible, and when it leaves the bond, each exactly, in plain differences of times |
| BondHealth.HealthyStaysBonded | ZeroTierOne/node/Bond.cpp:1021-1069 | over any run a bonded path is never dropped if at each curation it is admitted, heard, measured and past its up-delay, or in its trial, and no other path is preferred to it |
| BondHealth.SilentLeavesBond | ZeroTierOne/node/Bond.cpp:1021-1069 | after the next background task of a run a path past its trial that was silent or unmeasured for too long is on no bonded and no eligible slot |
| BondHealth.TrialIsEligible | ZeroTierOne/node/Bond.cpp:992-1039 | in its trial a path is eligible exactly if its type is admitted, whatever was heard or measured |
| BondHealth.FitIsEligible | ZeroTierOne/node/Bond.cpp:1021-1069 | a path that becomes fit again is bonded by that curation if no other path is preferred to it |
| BondHealth.BondedStayEligible | ZeroTierOne/node/Bond.cpp:1045-1069 | in every state of a run bonded slots are occupied and eligible |
| BondHealth.RebuildsExactly | ZeroTierOne/node/Bond.cpp:1045-1104 | the bond is formed anew exactly on request, while nothing is bonded, when a path gains or a bonded one loses eligibility, or when no bonded path is alive |
| BondWitnesses.HealthyAfterTrial | ZeroTierOne/node/Bond.cpp:986-1069 | a run from a new bond to long after the trial, in which a healthy path is still bonded |
| Bond.Bond.Rebuild | ZeroTierOne/node/Bond.cpp:1105-1205 | the rebuilt map lists exactly the selected slots, each once, with no write outside the array |
| Bond.Bond.BondLink | ZeroTierOne/node/Bond.cpp:1125-1203 | one link contributes exactly its selected paths |
| BondSteps.AfterRebuild | ZeroTierOne/node/Bond.cpp:1084-1205 | bonded slots are listed without repetition, occupied and eligible; the rest is the sentinel; spares only without a usable bonded path; a non-preferred path on a 46/64 link only if that link has no eligible preferred one |
| BondHealth.BondedByPreference | ZeroTierOne/node/Bond.cpp:1125-1203 | which paths a rebuild bonds, by address type: all eligible ones without preference, one type on a 4 or 6 link, on a 46 or 64 link the first type and the other exactly if there is none of it |
| BondHealth.SparesBonded | ZeroTierOne/node/Bond.cpp:1136-1147 | a spare path is bonded exactly if eligible and admitted and no usable bonded path was found |
| Bond.Bond.CurateBond | ZeroTierOne/node/Bond.cpp:976-1221 | exactly when it rebuilds, and what slots, map, count and striper are if it does and if it does not |
| Bond.StillMapped | ZeroTierOne/node/Bond.cpp:1058-1069 | without a rebuild, mapped slots stay eligible: a bonded path that loses eligibility always triggers one |
| Bond.Bond.NominatePath | ZeroTierOne/node/Bond.cpp:290-354 | a new path takes the first free slot, if there is one, and the bond is rebuilt; a path that is not allowed changes nothing |
| BondHealth.NominatedPath | ZeroTierOne/node/Bond.cpp:318-349 | a new path has its link's preference, is eligible at once if its type is admitted, and is marked the only path exactly if no other is on its link |
| BondSteps.NextKeepsDistinct | ZeroTierOne/node/Bond.cpp:290-354 | after every event distinct slots hold distinct paths, if they did before |
| BondWitnesses.Nominating | ZeroTierOne/node/Bond.cpp:290-354 | paths over links of their own are all bonded as they are nominated, up to the last slot |
| Bond.Bond.SeatPath | ZeroTierOne/node/Bond.cpp:318-349 | the first free slot takes the path; other slots on its link lose their only-path mark |
| Bond.Bond.AddPathToBond | ZeroTierOne/node/Bond.cpp:356-362 | extends map and bonded flags together |
| Bond.Bond.RebuiltIsUsable | ZeroTierOne/node/Bond.cpp:1105-1205 | after a rebuild every bonded path is usable, which is what fairness starts from |
| Bond.Bond.PathRR | ZeroTierOne/node/Bond.cpp:382-418 | the path sent on, and how index and counter move, for every limit; a negative one switches with every send |
| Bond.Bond.NextStripe | ZeroTierOne/node/Bond.cpp:404-413 | the nearest usable index after the current one, or the current one if there is none |
| BondStripe.WindowIsFair | ZeroTierOne/node/Bond.cpp:393-417 | with all paths usable, every window of n(P+1) sends uses each path exactly P+1 times, wherever it starts |
| Bond.Bond.SendMany | ZeroTierOne/node/Bond.cpp:382-418 | any number of sends over usable paths uses each bonded path as often as the pure striper says |
| Bond.Bond.SendWindow | ZeroTierOne/node/Bond.cpp:382-418 | a window of n(P+1) sends on the bond itself returns each bonded path exactly P+1 times; for a negative limit each path once in n sends |
| BondWitnesses.FairFromTheStart | ZeroTierOne/node/Bond.cpp:290-418 | a bond constructed for balance-rr and given two paths meets what fairness asks for, and sends on both equally often |
| BondStripe.FairExactly | ZeroTierOne/node/Bond.cpp:393-417 | windows are fair exactly if the packets per link fit the sixteen-bit counter or there is one path |
| BondStripe.NeverSwitches | ZeroTierOne/node/Bond.hpp:1475-1482 | with a limit that the sixteen-bit counter cannot reach no send ever switches paths |
| BondStripe.IndexInRange | ZeroTierOne/node/Bond.cpp:393-413 | the striper's index stays below the number of bonded paths over any run of sends |
| Bond.Bond.AssignFlow | ZeroTierOne/node/Bond.cpp:605-616 | the flow goes to the bonded path its identifier hashes to, that slot's counter goes up, and the slot is not dead |
| BondFlows.HashReaches | ZeroTierOne/node/Bond.cpp:612 | of as many consecutive flow identifiers as there are bonded paths one goes to each path |
| BondFlows.HashSpreads | ZeroTierOne/node/Bond.cpp:612 | and no two go to the same |
| BondFlows.KeysAlike | ZeroTierOne/node/Bond.cpp:694-695 | flows share an entry exactly if their identifiers agree in the low sixteen bits |
| Bond.Bond.CreateFlow | ZeroTierOne/node/Bond.cpp:684-714 | a new flow gets the given slot or the hashed one, and no counter comes to differ from its flows |
| BondFlows.NeverFull | ZeroTierOne/node/Bond.cpp:690-693 | keys have sixteen bits, so a new flow never finds the table full and the eviction of the oldest flow cannot run |
| Bond.Bond.ForgetByAge | ZeroTierOne/node/Bond.cpp:716-732 | exactly the flows older than the limit are removed, and no counter comes to differ from its flows |
| BondSteps.ForgottenExactly | ZeroTierOne/node/Bond.cpp:1418-1431 | a background task forgets a flow exactly if the bond is not empty, the last check and the flow's last activity are both more than 243 seconds ago |
| Bond.Bond.MoveDeadFlows | ZeroTierOne/node/Bond.cpp:1432-1449 | flows on an occupied ineligible slot go where they hash to, the others stay where they were |
| Bond.Bond.ProcessBalanceTasks | ZeroTierOne/node/Bond.cpp:1413-1449 | old flows are forgotten when a check is due, and with a non-empty bond no flow is left on an occupied ineligible slot |
| Bond.Bond.Tick | ZeroTierOne/node/Bond.cpp:907-965 | curating and then looking after the flows is one step of the state machine, and clears dead slots |
| Bond.Run | ZeroTierOne/node/Bond.cpp:290-1449 | over any run of background tasks, sends, received packets and measurements, and nominations, every state follows from the one before by the step of its event; the flow counters are right at the end exactly if no slot held flows (modulo 65536) when it was last vacated; distinct slots hold distinct paths; a background task leaves no flow on a dead path of a non-empty bond |
| BondSteps.StepDrift | ZeroTierOne/node/Bond.cpp:998-1010 | only vacating a slot makes its counter differ, by the flows that were on it; no other event changes any difference |
| BondSteps.DriftOverRun | ZeroTierOne/node/Bond.cpp:998-1010 | after a run a counter differs by the flows on its slot when it was last vacated, or by what it did at the start |
| BondSteps.CountersRightExactly | ZeroTierOne/node/Bond.cpp:998-1010 | the counters are right after a run exactly if no slot held flows when it was last vacated |
| BondSteps.StrandedStays | ZeroTierOne/node/Bond.cpp:1437 | a flow on an empty slot is moved by no background task: it stays until it is forgotten for its age or a new path takes the slot |
| BondSteps.StrandedOverRun | ZeroTierOne/node/Bond.cpp:428-441 | over any run without nominations such a flow stays on its empty slot for as long as it is remembered |
| BondSteps.StrandedSendsNothing | ZeroTierOne/node/Bond.cpp:428-433 | and no path is returned for it |
| BondWitnesses.FlowLeftBehind | ZeroTierOne/node/Bond.cpp:998-1010 | a run from a new bond in which all this happens: the link of one of two paths goes away, and the bond, not empty, has a flow on an empty slot, no path for it, and a wrong counter |
| Bond.Bond.PathXor | ZeroTierOne/node/Bond.cpp:422-442 | the path of the slot that carries the flow, so there is one exactly if the bond is not empty and that slot is occupied; and what becomes of the flows |
| Bond.Bond.LearnFlow | ZeroTierOne/node/Bond.cpp:525-541 | an unknown incoming flow is put on the slot it came in on, under every balance policy modelled |
| BondSteps.RepliesGoBack | ZeroTierOne/node/Bond.cpp:422-541 | until the bond is curated, packets of a flow learned on a path go out on that path |
| BondSteps.FlowKeepsPath | ZeroTierOne/node/Bond.cpp:422-442 | and all packets of a flow go out on the path of the first one |
| Bond.Bond.RecordIncomingPacket | ZeroTierOne/node/Bond.cpp:487-541 | a packet on a nominated path notes when a dead path came alive, and its flow is learned; one on another path changes nothing |
| BondHealth.UpDelayStarts | ZeroTierOne/node/Bond.cpp:497-499 | a packet on a dead path starts its up-delay, one on a live path does not |
| Bond.Bond.ReceivedQoS | ZeroTierOne/node/Bond.cpp:548-557 | notes the time on the slot of the path, if it has one |
| BondHealth.MeasuredNow | ZeroTierOne/node/Bond.cpp:548-557 | with distinct paths, exactly the slot of the path notes the time |
| BondFlows.CountedKept | ZeroTierOne/node/Bond.cpp:684-748 | what changes no difference between counters and flows keeps right counters right, and wrong ones wrong |
| BondFlows.DriftMove | ZeroTierOne/node/Bond.cpp:1437-1444 | incrementing the new slot and decrementing the old changes no difference between counters and flows, also when both are the same |
| BondFlows.CountsExact | ZeroTierOne/node/Bond.hpp:1351 | with fewer than 65536 flows every counter is the exact number of flows on its slot |
| BondFlows.CountedAfterRefresh | ZeroTierOne/node/Bond.cpp:998-1010 | after a refresh the counters are right exactly if no vacated slot held flows, counted modulo 65536 |
| DictionaryText.ScanEscape | ZeroTierOne/node/Dictionary.hpp:358-392 | scanning an escaped value gives the value back, for all byte values |
| DictionaryText.EscapeClean | ZeroTierOne/node/Dictionary.hpp:358-392 | an escaped value has no byte that could end a value or be taken for a separator |
| DictionaryText.EscapedAs | ZeroTierOne/node/Dictionary.hpp:362-400 | which bytes are escaped, and as what, byte by byte |
| DictionaryText.TextFormat | ZeroTierOne/node/Dictionary.hpp:332-360 | line ends, line feed between entries, and the sign between key and value |
| DictionaryText.LookupAdded | ZeroTierOne/node/Dictionary.hpp:317-331 | after an append a fresh key has its value, and every other lookup, also that of a key already there, is unchanged |
| DictionaryText.LookupAppend | ZeroTierOne/node/Dictionary.hpp:317-331 | appended text is searched only if the key was not found before it |
| Dictionary.Dictionary.SizeBytes | ZeroTierOne/node/Dictionary.hpp:122-130 | the length of the text before the first zero |
| Dictionary.Dictionary.Load | ZeroTierOne/node/Dictionary.hpp:92-109 | the text becomes the string, cut to the capacity if too long, and the result says which |
| Dictionary.Dictionary.Reload | ZeroTierOne/node/Dictionary.hpp:92-109 | loading a dictionary's own text into another of the same capacity reproduces it |
| Dictionary.Dictionary.Add | ZeroTierOne/node/Dictionary.hpp:332-410 | succeeds exactly if the new text fits; a failed append leaves the text as it was |
| Dictionary.Dictionary.Get | ZeroTierOne/node/Dictionary.hpp:154-247 | delivers min(length of value, destlen - 1) exact bytes and a terminator, or -1; never reaches the end of the array and writes nothing beyond destlen |
| Buffers.Buffer.AppendInt | ZeroTierOne/node/Buffer.hpp:235-251 | appends the big-endian bytes, or fails exactly if they do not fit and changes nothing |
| Buffers.Buffer.Append | ZeroTierOne/node/Buffer.hpp:290-297 | appends the bytes, or fails exactly if they do not fit |
| Buffers.Buffer.AddSize | ZeroTierOne/node/Buffer.hpp:357-363 | extends the size and keeps what was there |
| Buffers.Buffer.SetAt | ZeroTierOne/node/Buffer.hpp:186-200 | overwrites exactly the bytes of the integer |
| Buffers.Buffer.At | ZeroTierOne/node/Buffer.hpp:209-226 | the big-endian integer at the position, or failure exactly if it is not all there |
| Buffers.Buffer.Field | ZeroTierOne/node/Buffer.hpp:164-177 | the bytes at the position, or failure |
| Buffers.Buffer.Erase | ZeroTierOne/node/Buffer.hpp:405-413 | closes the gap and keeps the rest in order |
| Buffers.Buffer.Behead | ZeroTierOne/node/Buffer.hpp:387-396 | drops exactly the front |
| Rules.FieldRoundTrip | ZeroTierOne/node/Capability.hpp:181-383 | every rule type's field reads back: addresses cut to 40 bits, nothing for types without a field, integer ranges through their wrapped end |
| Rules.ItemsRoundTrip | ZeroTierOne/node/Capability.hpp:295-388 | a stream of rules, with unknown types of any field length among them, reads back aligned |
| Rules.RulesRoundTrip | ZeroTierOne/node/Capability.hpp:181-388 | rule lists read back from any offset with the exact byte count |
| Rules.SurvivesByType | ZeroTierOne/node/Capability.hpp:181-388 | for each type number which payload survives the wire |
| Rules.SerializeRules | ZeroTierOne/node/Capability.hpp:181-293 | appends exactly the encoding, or fails exactly if it does not fit |
| Rules.DeserializeRules | ZeroTierOne/node/Capability.hpp:295-388 | the loop reads what the grammar says, early end of the buffer included |
| Capabilities.CapabilityRoundTrip | ZeroTierOne/node/Capability.hpp:390-485 | a capability reads back from any offset with the exact byte count, and is refused exactly if its maximum chain length is out of range |
| Capabilities.ChainRoundTrip | ZeroTierOne/node/Capability.hpp:408-475 | the custody chain reads back up to its terminator |
| Capabilities.SignedBytesExcludeChain | ZeroTierOne/node/Capability.hpp:390-427 | the bytes that are signed do not depend on the chain |
| Capabilities.SignedBytesMarked | ZeroTierOne/node/Capability.hpp:390-427 | what is signed is the serialized head and two zero bytes between two marks of eight bytes |
| Capabilities.CapabilitySize | ZeroTierOne/node/Capability.hpp:390-427 | the largest serialized capability |
| Capabilities.Serialize | ZeroTierOne/node/Capability.hpp:390-427 | appends exactly the encoding, or the bytes to sign, or fails exactly if it does not fit |
| Capabilities.Deserialize | ZeroTierOne/node/Capability.hpp:429-485 | reads what the grammar says and reports the number of bytes |
| CustodyChain.Verify | ZeroTierOne/node/Capability.cpp:20-64 | good exactly for an unbroken chain of verified links from the network's controller, whose address is the first five bytes of the network identifier; unknown exactly if everything before the first unknown signer is in order |
| CustodyChain.SignedCapability.Sign | ZeroTierOne/node/Capability.hpp:154-171 | fills the first free entry within the maximum, or fails and changes nothing |
| CustodyChain.IssuedTo | ZeroTierOne/node/Capability.hpp:127-138 | the recipient of the last link before the first empty one |
| CustodyChain.VerifiedReachesHolder | ZeroTierOne/node/Capability.cpp:20-64 | a verified chain leads unbroken from the holder of the first five bytes of the network identifier to issuedTo, each link signed by its giver |
| CustodyChain.FirstGiverIsPrefix | ZeroTierOne/node/Capability.cpp:33 | the first giver's address bytes are the first five bytes of the network identifier, which also start the serialized capability |
| CustodyChain.SigningOnKeepsVerified | ZeroTierOne/node/Capability.hpp:140-171 | if the current holder signs to a recipient with room left, the chain still verifies and issuedTo is the recipient |
| CustodyChain.SigningToNobody | ZeroTierOne/node/Capability.hpp:154-171 | signing to the zero address leaves chain and holder as they were |
| CustodyChain.SigningKeepsTidy | ZeroTierOne/node/Capability.hpp:154-171 | whoever signs to whomever, no holder comes to stand after the end of the chain |
| CustodyChain.RecipientBoundExactly | ZeroTierOne/node/Capability.cpp:20-64 | signed bytes leave recipients out: with one link handed to someone else a verified chain still verifies exactly if that link is the last one |
| CustodyChain.SignedBytesBindHead | ZeroTierOne/node/Capability.hpp:388-427 | equal signed bytes mean equal network, timestamp, identifier, maximum chain length and rules as the wire carries them |
| CustodyChain.DecodedIsTidy | ZeroTierOne/node/Capability.hpp:429-485 | every decoded capability has the sizes of its arrays and no holder after the end of its chain |
| CredentialCodecs.ComRoundTrip | ZeroTierOne/node/CertificateOfMembership.hpp:228-286 | a certificate reads back, exactly if its qualifier identifiers do not decrease |
| CredentialCodecs.SerializeCom | ZeroTierOne/node/CertificateOfMembership.hpp:228-241 | appends exactly the encoding, or fails exactly if it does not fit |
| CredentialCodecs.DeserializeCom | ZeroTierOne/node/CertificateOfMembership.hpp:243-286 | the loop reads what the grammar says, both refusals included |
| CredentialCodecs.CooRoundTrip | ZeroTierOne/node/CertificateOfOwnership.hpp:161-241 | a certificate of ownership reads back with the exact byte count |
| CredentialCodecs.DecodedCoo | ZeroTierOne/node/CertificateOfOwnership.hpp:192-241 | a certificate of ownership that was read holds everything it counts exactly if its count, which is not checked, is at most sixteen |
| CredentialCodecs.CountsAreReadBack | ZeroTierOne/node/CertificateOfOwnership.hpp:206-214 | and every larger count is read back from some bytes |
| CredentialCodecs.DecodedCom | ZeroTierOne/node/CertificateOfMembership.hpp:243-286 | a certificate of membership that was read holds at most eight qualifiers, in order, and could be sent again |
| CredentialCodecs.SerializeCoo | ZeroTierOne/node/CertificateOfOwnership.hpp:161-190 | appends exactly the encoding, or fails exactly if it does not fit |
| CredentialCodecs.TagRoundTrip | ZeroTierOne/node/Tag.hpp:121-185 | a tag reads back with the exact byte count |
| CredentialCodecs.SerializeTag | ZeroTierOne/node/Tag.hpp:121-145 | appends exactly the encoding, or fails exactly if it does not fit |
| CredentialPush.PutCaps | ZeroTierOne/node/Membership.cpp:59-66 | packs capabilities while they fit, fills in their number and never overruns; makes progress when there is room |
| CredentialPush.PushPacket | ZeroTierOne/node/Membership.cpp:52-92 | one packet: header, certificate, groups; within bounds, and with something sent |
| CredentialPush.PayloadRoundTrip | ZeroTierOne/node/IncomingPacket.cpp:1086-1203 | a packet's payload parses to exactly what was packed |
| CredentialPush.PushCredentials | ZeroTierOne/node/Membership.cpp:28-97 | ends for every configuration; no packet is too long; what a receiver collects from the packets is the certificate, capabilities, tags and certificates of ownership, each exactly once and in order, in their wire form |
| CredentialPush.WireJoin | ZeroTierOne/node/IncomingPacket.cpp:1086-1203 | collecting packet by packet loses and reorders nothing |
| CredentialPush.ReceiveCredentials | ZeroTierOne/node/IncomingPacket.cpp:1086-1203 | the receiving loops follow the grammar |
| CredentialPush.ReceivedAreFit | ZeroTierOne/node/IncomingPacket.cpp:1086-1203 | everything received meets what verifying and serializing it require; a certificate of ownership exactly if it counts at most sixteen things |

## Left out

- The concrete AES substitution box: the proofs hold for every byte permutation given with its inverse, and the lookup tables are defined from it.
- AES-NI block encryption and key expansion, the AES-NI counter mode with its 64-bit counter, the finishing step of the register GMAC, VAES and ARM variants: they repeat the same claims through intrinsics.
- Alignment cases of the CTR bulk loop: the two loops are textually equal and modelled once.
- Total lengths beyond 32 bits for one output buffer: the caller's buffer and the source's length field both end there.
- Gmac.Gmac.Finish: for data of 2^32 bytes or more the source's length field wraps; the tag is stated with the wrapped length and equals the standard's tag only below that.
- Hashing functions, `keys`, `appendKeys` and `entries` of the hash table, and freeing memory: only easy members. The table's size is not limited to machine words.
- Checking signatures inside the membership record: the verdict is a parameter of each operation. The signature scheme of custody chains is any scheme whose signatures verify under their signer.
- Overflow of 64-bit time differences in credential dating, which the source leaves undefined.
- `hasCertificateOfOwnershipFor`, emulated IPv6 addresses, `agreesWith`: agreement of two certificates is a parameter.
- Bond.Bond.CurateBond: the balance policies only; active-backup counting, the refractory period and link status counters do not influence what is stated.
- Bond.Bond.CreateFlow: where balance-aware puts an outgoing flow is not modelled, because its search can loop without progress; incoming flows are learned the same way under every policy.
- Bond.Bond.LearnFlow: covers balance-rr and balance-xor; under balance-aware the code is the same, but the rest of that policy is left out.
- Bond quality estimation, balance-aware assignment, active-backup selection, path negotiation, the contents of QoS and ACK packets: floating point, entropy or input and output.
- Byte counters of flows, packet counters and logging of bonds.
- The order in which a rebuild visits links follows pointer values in the source; here any order is allowed and the result is stated for all of them.
- Integer, boolean and address overloads of the dictionary, and its constructor from a bounded buffer.
- Indices into buffers that wrap at 32 bits.
- Timestamps of capabilities are kept as 64-bit patterns; their sign plays no role on the wire.
- Revocation encoding: its fields are not part of this model, and the packet parser takes its reader as a parameter; pushed packets never hold revocations.
- Packet headers, compression and encryption: each packet starts with a header of a fixed size, and the parser sees what was packed.
- What the receiver does with each parsed credential, and its early return while a signer is looked up: the handlers are those of the membership record.
- In-memory sizes of objects: any sizes that bound the serialized ones and leave room for the largest object in a fresh packet.
- Mutexes and reference counts: each public operation is atomic.
