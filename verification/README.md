# A verified model of the wallet recovery tools

This project models six parts of the repository in Dafny and proves what they are for.

* **The aezeed decoder** (`AezTinySpec`, `AezTiny`, `AezTinyTrace`, `Gf2Poly`, `Gf128`, `Aez`, `Crc32c`,
  `AezeedMnemonic`): the short-message cipher of AEZ as a network of nibbles and as the
  byte-shuffling code that computes it, the field arithmetic behind its keys, the table-driven
  CRC32C, and the packing and checking of the 24 words. The AES rounds are an arbitrary function.
* **The address table** (`ProbeTable`, `AddressSet`) and its feeder (`XorKey`, `BlockWalk`,
  `Serialization`, `StandardOutputs`, `AddressFeed`, `BlockFile`): linear probing over one flat
  bytearray that keeps only part of each key, the walk over the transactions of a block, and the
  obfuscated file of blocks that is fed.
* **The seed recovery enumerators** (`Itertools`, `Arrangements`, `UniquePermutations`, `Trials`,
  `ProductOrder`, `WordOrder`, `WordOrderSearch`, `WordOrderCap`, `Levenshtein`, `Bip39`,
  `MissingWords`, `MissingWordsSearch`, `MissingWordsRecovery`).
* **Token lists and brute force** (`FirstSeen`, `Tokenlist`, `TokenlistGenerator`, `BruteForce`).
* **The batch protocol** (`Text`, `BatchLog`, `Batch`, `BatchRuns`, `BatchCoverage`): workers that
  share an append-only log, as a step relation over all interleavings with crashes and restarts.
* **Base58** (`Digits`, `Base58`).

Code that changes buffers, tables or counters in place is modelled by classes, arrays and loops
proved against functions; what the code promises is then proved about those functions.
`dafny verify dfyconfig.toml` checks everything.

## Where code and description part

The model follows the code. Where it does not do what it is described to do, the exact condition is
proved.

* `_aez_decrypt` with tau = 0 compares the whole plaintext with zero, because `x[-0:]` is all of `x`
  (`Aez.DecryptNoExpansion`). The decoder always passes tau = 4.
* The block walk tests the script length only for P2PKH. A script that only begins like one of the
  other three templates, or that is too short and is completed by the bytes behind it, is added too;
  `StandardOutputs.BlockAdded` says exactly when the added hashes are those of the standard outputs.
* A slice cut short by that, such as the four bytes in `StandardOutputs.CutShortBlock`, is no 20-byte
  address, and storing it takes bytes out of the table. `AddressSet.Add` keeps the table if and only
  if the address is long enough or nothing is written; in `AddressFeed.LosesMember` such a block
  makes a table lose a 20-byte address.
* `min_tokens` is not kept as soon as one token line is required, unless it is not positive or
  nothing is tried (`Tokenlist.MinimumKeptIff`, `Tokenlist.MinimumBroken`).
* The brute-force cap is tested after a candidate is appended, so a cap of zero or less yields one
  candidate (`BruteForce.CountIff`); the token list yields none.
* `recover_word_order` finishes the task in which it reaches 100 candidates and can return more:
  `WordOrderCap.CapKept` and `WordOrderCap.CapBroken` say exactly for which pools,
  `WordOrderCap.CapBound` how many, and `WordOrderCap.ChecksumOver` gives inputs under the BIP-39
  checksum.
* A worker can begin a seed after another has logged a match, because it reads the log earlier
  (`BatchRuns.LateBegin`): exactly when it has looked at an own seed line that it does not skip
  (`BatchRuns.BeginsAfterMatchIff`), and at most one (`BatchRuns.AtMostOneAfterMatch`).
* A seed that contains a tab is not recognised as completed by its own record, which marks the text
  before the tab instead (`BatchLog.OwnRecordIff`). With skipping, a line whose seed is that text can
  be missed altogether; `BatchCoverage.AllHandled` and `BatchCoverage.NeverHandled` say exactly when.
* Reversing the batch file in some workers only changes who owns what, except in the cases that
  `BatchRuns.ReverseAgreesIff` gives.

## Model

| member | source | states |
|---|---|---|
| `AezTinySpec.DecipherEncipher` | btcrecover/btcrecover/aezeed.py:515-595 | for every message of 1 to 31 bytes, every delta, every involutive round and every block function for the top bit, deciphering undoes enciphering, odd lengths and the flip below 16 bytes included |
| `AezTinySpec.EncipherDecipher` | btcrecover/btcrecover/aezeed.py:515-595 | the other direction: enciphering what was deciphered gives the ciphertext back |
| `AezTinySpec.RoundsUndone` | btcrecover/btcrecover/aezeed.py:548-579 | running the rounds with the numbers counted down, on swapped halves, restores both halves, for any round that cancels itself |
| `AezTinySpec.NetworkUndone` | btcrecover/btcrecover/aezeed.py:536-589 | split, rounds and merge with the two numberings are inverse to each other at byte level |
| `AezTinySpec.FlipFlip` | btcrecover/btcrecover/aezeed.py:549-555 | the block that decides the top-bit flip does not depend on that bit, so flipping twice is the identity |
| `AezTinySpec.OnlyTopBit` | btcrecover/btcrecover/aezeed.py:590-595 | the flip touches nothing but the top bit of the first byte |
| `AezTinySpec.RoundOfInvolutive` | btcrecover/btcrecover/aezeed.py:563-570 | a round of the code, an exclusive-or with a block computed from the other half, is its own inverse on the nibbles in use, whatever the garbage nibble holds |
| `AezTiny.Tiny` | btcrecover/btcrecover/aezeed.py:515-595 | the byte-level body with shifted halves, garbage nibbles and both directions computes Encipher or Decipher of the nibble-level network, and leaves the bytes past the message alone |
| `AezTiny.RunRounds` | btcrecover/btcrecover/aezeed.py:562-579 | the two-round loop over in-place buffers is the round sequence, numbered upward or downward |
| `AezTiny.PrepareRound` | btcrecover/btcrecover/aezeed.py:563-568 | the buffer of a round holds the half in use, the 1-bit pad at byte or nibble place, delta and the round number, and no garbage nibble |
| `AezTiny.LoadHalves` | btcrecover/btcrecover/aezeed.py:538-546 | the halves loaded from the message, the right one shifted by a nibble in place for odd lengths, are the two halves of its nibbles |
| `AezTiny.StoreHalves` | btcrecover/btcrecover/aezeed.py:581-587 | the swapped halves are written back with the left one moved down a nibble for odd lengths |
| `AezTiny.TopBit` | btcrecover/btcrecover/aezeed.py:549-554 | the bit that deciphering flips is the one computed from the message padded to a block with its top bit set |
| `AezTinyTrace.EncipherTrace` | btcrecover/btcrecover/aezeed.py:515-595 | written out byte by byte for every message, delta and block function: 24, 16, 10 or 8 blocks for 1, 2, 3 to 15 or 16 to 31 bytes, each the half in use with its pad, masked with delta and in the last byte with the round number, 0 upward, taken from the right and the left half in turn; the results mask the other half, and short messages have their top bit masked |
| `AezTinyTrace.DecipherTrace` | btcrecover/btcrecover/aezeed.py:548-595 | the same blocks for deciphering, numbered down to 0, after the top bit was masked |
| `Aez.State.Init` | btcrecover/btcrecover/aezeed.py:399-413 | afterwards L[k] = k times L[1] for k in 1..7, J[1] and J[2] are 2 and 4 times J[0], I[1] is twice I[0]; L[0] is not touched |
| `Aez.State.Encipher` | btcrecover/btcrecover/aezeed.py:499-505 | the short branch enciphers in place of dst and does nothing for the empty message |
| `Aez.State.Decipher` | btcrecover/btcrecover/aezeed.py:507-513 | the short branch deciphers and does nothing for the empty message |
| `Aez.State.DecryptWith` | btcrecover/btcrecover/aezeed.py:773-783 | the three ways out of decryption after key setup: tag compared, trailing bytes not zero, plaintext cut off |
| `Aez.Decrypt` | btcrecover/btcrecover/aezeed.py:767-783 | the whole function, with the block function, key extraction, hash and tag as parameters |
| `Aez.DecryptExact` | btcrecover/btcrecover/aezeed.py:767-783 | for 0 < tau < length <= 31, p comes back if and only if the ciphertext is the enciphering of p followed by tau zero bytes |
| `Aez.DecryptShort` | btcrecover/btcrecover/aezeed.py:773-783 | a ciphertext of tau bytes is accepted only if it is the tag, a shorter one only if it enciphers zeros, with the exact number of bytes returned |
| `Aez.DecryptNoExpansion` | btcrecover/btcrecover/aezeed.py:780-783 | with tau = 0 the slice of the last tau bytes is everything, so p comes back if and only if the ciphertext enciphers p and p is all zero |
| `Aez.NoExpansionLosesOne` | btcrecover/btcrecover/aezeed.py:780-783 | a plaintext that tau = 0 loses under every round function |
| `Aez.SmallMultiples` | btcrecover/btcrecover/aezeed.py:406-412 | doublings and exclusive-ors give the multiples 1 to 7 of a block |
| `Gf128.PolyOfDouble` | btcrecover/btcrecover/aezeed.py:137-141 | _double_block multiplies by x and folds x^128 back with x^7 + x^2 + x + 1 exactly when the top bit was set |
| `Gf128.MultIsProduct` | btcrecover/btcrecover/aezeed.py:125-134 | a block is the result of _mult_block if and only if it is congruent to the carry-less product modulo x^128 + x^7 + x^2 + x + 1 |
| `Gf128.MultXor` | btcrecover/btcrecover/aezeed.py:125-134 | linear in the block |
| `Gf128.MultAdd` | btcrecover/btcrecover/aezeed.py:125-134 | additive under exclusive-or of the multipliers |
| `Gf128.MultMult` | btcrecover/btcrecover/aezeed.py:125-134 | multiplying twice is multiplying by the carry-less product of the multipliers |
| `Gf128.DoubleBlock` | btcrecover/btcrecover/aezeed.py:137-141 | the in-place byte shift is the doubling |
| `Gf128.MultBlock` | btcrecover/btcrecover/aezeed.py:125-134 | the double-and-add loop is the multiplication |
| `Gf2Poly.ReducedUnique` | btcrecover/btcrecover/aezeed.py:125-141 | two polynomials of degree below 128 in one residue class are equal, so the product is determined |
| `Crc32c.MakeTable` | btcrecover/btcrecover/aezeed.py:52-62 | entry b is eight shifts of the reflected register from b |
| `Crc32c.Compute` | btcrecover/btcrecover/aezeed.py:68-72 | the table-driven loop is the bit-at-a-time CRC32C of section 12.1 of RFC 3720, for every byte sequence |
| `Crc32c.TableStep` | btcrecover/btcrecover/aezeed.py:71 | one table lookup does what eight single-bit steps do |
| `Crc32c.FeedByteInjective` | btcrecover/btcrecover/aezeed.py:70-71 | a byte step never merges two states of the register |
| `Crc32c.BurstDetected` | btcrecover/btcrecover/aezeed.py:68-72 | messages of one length that differ only inside a window of four bytes have different checksums |
| `Crc32c.LastBitFlipped` | btcrecover/btcrecover/aezeed.py:68-72 | flipping the lowest bit of the last byte changes the checksum by 0xF26B8303 |
| `Crc32c.Residue` | btcrecover/btcrecover/aezeed.py:68-72 | feeding any message and then its checksum, lowest byte first, leaves the fixed register 0xB798B438 |
| `Crc32c.ResidueIff` | btcrecover/btcrecover/aezeed.py:68-72 | no other four bytes behind the message leave that register |
| `Crc32c.CheckValue` | btcrecover/btcrecover/aezeed.py:68-72 | the ASCII digits 1 to 9 have the checksum 0xE3069283 |
| `AezeedMnemonic.MnemonicToBytes` | btcrecover/btcrecover/aezeed.py:786-805 | writes the 33 bytes whose bits are the 24 word indices of 11 bits in order, never outside the buffer; otherwise the error is a wrong count or the first unknown word |
| `AezeedMnemonic.AddWord` | btcrecover/btcrecover/aezeed.py:798-804 | one round of the packer appends eleven bits and leaves fewer than eight pending |
| `AezeedMnemonic.CipherNumber` | btcrecover/btcrecover/aezeed.py:786-805 | the bytes read big-endian are the base-2048 number of the word indices |
| `AezeedMnemonic.CipherInjective` | btcrecover/btcrecover/aezeed.py:786-805 | different index lists give different bytes |
| `AezeedMnemonic.ValidateMnemonic` | btcrecover/btcrecover/aezeed.py:808-817 | true exactly for 24 known words whose first byte is the version and whose last four bytes are the CRC of the rest |
| `AezeedMnemonic.AcceptedIff` | btcrecover/btcrecover/aezeed.py:812-817 | a mnemonic is accepted if and only if its 33 bytes begin with zero and the first 29, followed by the last four in reverse order, leave the residue of CRC32C |
| `AezeedMnemonic.EncodedAccepted` | btcrecover/btcrecover/aezeed.py:784-817 | every 28 bytes of salt and ciphertext are those of exactly one accepted mnemonic |
| `AezeedMnemonic.AdjacentDetected` | btcrecover/btcrecover/aezeed.py:808-817 | two accepted mnemonics cannot differ only within two adjacent words of the first 21 |
| `AezeedMnemonic.StraddlingDetected` | btcrecover/btcrecover/aezeed.py:808-817 | nor only in word 21, which has one bit in the payload and ten in the checksum |
| `AezeedMnemonic.OneWordDetermined` | btcrecover/btcrecover/aezeed.py:808-817 | nor in any single word: given 23 words, at most one choice for the remaining one is accepted, at every position |
| `AezeedMnemonic.OneWordOnly` | btcrecover/btcrecover/aezeed.py:808-817 | the same on words, for a word list without double numbers |
| `AddressSet.AddressSet.Create` | btcrecover/btcrecover/addressset.py:68-97 | the constructor fails exactly on its documented argument errors, else the set is empty and valid |
| `AddressSet.AddressSet.Find` | btcrecover/btcrecover/addressset.py:174-191 | for any address, ends on every valid table; True exactly when what is sought lies in the cyclic occupied run from the home, otherwise the first free slot of that run |
| `AddressSet.AddressSet.HomeIsLowBits` | btcrecover/btcrecover/addressset.py:180 | the home slot is the whole address, read as one big-endian number, modulo the number of slots: its low bits |
| `AddressSet.AddressSet.TailStands` | btcrecover/btcrecover/addressset.py:152 | the part stored of an address of full length stands right in front of its hash bytes |
| `AddressSet.AddressSet.Add` | btcrecover/btcrecover/addressset.py:127-165 | for any address the four outcomes with the exact new bytes; the table keeps its length, and with it every member, if and only if the address is at least as long as the stored and hashed bytes together or nothing is written |
| `AddressSet.AddressSet.Store` | btcrecover/btcrecover/addressset.py:164-165 | the assignment of a full tail at the free slot keeps the table valid and makes the address a member |
| `AddressSet.AddressSet.StoreShort` | btcrecover/btcrecover/addressset.py:164-165 | the same assignment for a shorter address takes bytes out of the table |
| `AddressSet.AddressSet.AddAll` | btcrecover/btcrecover/addressset.py:127-165 | over any run of adds the table stays valid if and only if no short address was stored, and then every accepted address stays a member; the run stops early only at a full table |
| `AddressSet.AddressSet.ContainsAddress` | btcrecover/btcrecover/addressset.py:124-125 | membership as the probe decides it |
| `AddressSet.AddressSet.AddedAreMembers` | btcrecover/btcrecover/addressset.py:124-191 | no false negatives: every address ever added is a member, though its home is not stored |
| `AddressSet.AddressSet.MemberSharesTail` | btcrecover/btcrecover/addressset.py:174-191 | exact up to the stored tail: what is sought for a member is the tail of some address that was added |
| `AddressSet.AddressSet.Iterate` | btcrecover/btcrecover/addressset.py:193-201 | the stored tails in table order, as many as the length says |
| `AddressSet.AddressSet.Reversed` | btcrecover/btcrecover/addressset.py:203-209 | the same tails in the opposite order |
| `ProbeTable.FillKeeps` | btcrecover/btcrecover/addressset.py:164-191 | filling an empty slot keeps everything reachable that was reachable |
| `ProbeTable.FillFinds` | btcrecover/btcrecover/addressset.py:164-191 | what is put in the first free slot from a home is reachable from that home |
| `ProbeTable.FreeExists` | btcrecover/btcrecover/addressset.py:174-191 | a table that is not full has a free slot ahead of every home, so probing ends |
| `ProbeTable.FirstFreeIff` | btcrecover/btcrecover/addressset.py:181-191 | the slot found is the empty one with no empty slot on the way forward from the home, around the end if need be |
| `ProbeTable.InRunIff` | btcrecover/btcrecover/addressset.py:181-191 | a tail is found if and only if some slot holds it and no slot on the way forward to it is empty |
| `AddressSet.LoadBelowOne` | btcrecover/btcrecover/addressset.py:91 | the limit on entries is below the number of slots |
| `AddressSet.NoHashBytes` | btcrecover/btcrecover/addressset.py:92 | the hash takes no bytes only with one slot, whose limit is zero entries |
| `AddressFeed.FeedBlock` | btcrecover/btcrecover/addressset.py:607-672 | one block fed to the table: the table stays valid if and only if no slice that was stored is too short |
| `AddressFeed.FeedWellFormed` | btcrecover/btcrecover/addressset.py:607-672 | after a well-formed block without lookalikes, or with slices that are all long enough, a table with room holds the hash of every standard output whose tail is not zero, and every earlier member |
| `AddressFeed.FeedCutShort` | btcrecover/btcrecover/addressset.py:653-654 | a complete block with one two-byte script shortens the table when more than four bytes are stored and hashed |
| `AddressFeed.LosesMember` | btcrecover/btcrecover/addressset.py:151-191 | on a table of four slots a stored 20-byte address is no longer found after the block of CutShortBlock with locktime zero was fed |
| `BlockWalk.WalkBlock` | btcrecover/btcrecover/addressset.py:607-672 | the nested loops over the offset compute the recursive reading of a block, errors included; outside the date window nothing but the count is read |
| `BlockWalk.WalkTransaction` | btcrecover/btcrecover/addressset.py:638-672 | one transaction, with the BIP-144 marker and the IndexError that is caught inside a witness |
| `BlockWalk.WalkOutputs` | btcrecover/btcrecover/addressset.py:647-660 | the output loop: which slices are added, and where the offset goes |
| `BlockWalk.WalkWitnesses` | btcrecover/btcrecover/addressset.py:661-670 | the witness loops; after a caught error the next input goes on from the offset reached |
| `Serialization.ReadVarint` | btcrecover/btcrecover/addressset.py:370-380 | a CompactSize number reads back as its value, the offset right behind it |
| `Serialization.LittleBytesAt` | btcrecover/btcrecover/addressset.py:374-379 | byte k of a multi-byte length has the place value 256 to the k |
| `Serialization.ReadTx` | btcrecover/btcrecover/addressset.py:638-672 | a serialised legacy or BIP-144 transaction is walked to its last byte |
| `Serialization.ReadBlock` | btcrecover/btcrecover/addressset.py:607-672 | for every sequence of well-formed transactions the walk ends exactly at the last byte of the block |
| `StandardOutputs.BlockAdded` | btcrecover/btcrecover/addressset.py:650-658 | the hashes of the P2PKH, P2SH, P2WPKH and P2TR outputs are added in order, and nothing else exactly when no other script looks like one to the prefix tests |
| `StandardOutputs.StandardIff` | btcrecover/btcrecover/addressset.py:389-394 | an output is standard with hash h if and only if its script is one of the four templates, in literal opcodes, around h |
| `StandardOutputs.TemplatesAdded` | btcrecover/btcrecover/addressset.py:649-658 | the hashes that outputs of a well-formed block pay to by these templates are added, in their order |
| `StandardOutputs.TemplateAdded` | btcrecover/btcrecover/addressset.py:649-658 | whatever output of a well-formed block pays to h by one of these templates, h is added |
| `StandardOutputs.LookalikeAdded` | btcrecover/btcrecover/addressset.py:653-658 | what is added for a lookalike: the 20 or 32 bytes behind its prefix, inside the script or not |
| `StandardOutputs.PlainScript` | btcrecover/btcrecover/addressset.py:650-658 | a script of at least two bytes without a standard prefix is never a lookalike |
| `StandardOutputs.ShortScriptAdded` | btcrecover/btcrecover/addressset.py:653-654 | a two-byte script that is no P2SH output is added with the bytes behind it, because its length is not tested |
| `StandardOutputs.CutShortBlock` | btcrecover/btcrecover/addressset.py:607-672 | a well-formed block without standard outputs for which the walk adds the four bytes of the locktime |
| `BlockFile.FeedFile` | btcrecover/btcrecover/addressset.py:540-683 | a block file read piece by piece, each piece de-obfuscated at its own offset: the table gets what the walks of the frames of the de-obfuscated file add, in order, up to the exact cause of the end: last frame, end date, unknown magic, walk error, full table or an add that shortened it |
| `BlockFile.FeedWritten` | btcrecover/btcrecover/addressset.py:540-683 | a file of well-formed blocks, obfuscated with the key and followed by reserved zero bytes, is fed whole to a table with room: every standard hash with a non-zero tail from a block inside the dates is a member, and every earlier member stays one |
| `BlockFile.ReadFrames` | btcrecover/btcrecover/addressset.py:584-603 | written frames are read back, with any number of zero bytes behind them |
| `BlockFile.KeyBytes` | btcrecover/btcrecover/addressset.py:540-549 | an xor.dat of fewer than eight bytes changes nothing, otherwise its first eight are repeated over the file |
| `BlockFile.ChainsRead` | btcrecover/btcrecover/addressset.py:33-44 | blocks of Bitcoin are read and those of Dogecoin are not, without the option |
| `XorKey.XorPiece` | btcrecover/btcrecover/addressset.py:583-605 | a piece read from anywhere in the file and de-obfuscated at its offset is that piece of the de-obfuscated file |
| `XorKey.XorTwice` | btcrecover/btcrecover/addressset.py:383-387 | de-obfuscating is its own inverse at one offset |
| `XorKey.XorPieces` | btcrecover/btcrecover/addressset.py:383-387 | pieces de-obfuscated at their own offsets are the pieces of the de-obfuscated file |
| `UniquePermutations.UniquePermutations` | recovery_utils.py:448-467 | ends, and yields every distinct arrangement of the multiset once, in strictly increasing order, each the immediate successor of the last |
| `UniquePermutations.NextPermutation` | recovery_utils.py:454-466 | the in-place pass gives the immediate successor, or stops at the last arrangement |
| `UniquePermutations.FindPivot` | recovery_utils.py:455-463 | the two searches find the pivot and its exchange partner, or that the whole list falls |
| `UniquePermutations.NextIsSuccessor` | recovery_utils.py:465-466 | nothing with the same elements lies strictly between an arrangement and the swap-and-reverse of its pivot |
| `UniquePermutations.ChainEnumerates` | recovery_utils.py:448-467 | a chain of successors from the rising to the falling arrangement is a complete enumeration |
| `Arrangements.ArrangementCount` | recovery_utils.py:919-923 | the number of distinct arrangements times the factorials of the multiplicities is n! |
| `WordOrder.DivisionsExact` | recovery_utils.py:921-923 | every floor division of the running total is exact, and the last total is the number of arrangements |
| `WordOrder.CountPermutations` | recovery_utils.py:919-923 | the loop of divisions gives that number |
| `WordOrder.PermutationsListing` | recovery_utils.py:498 | for distinct words the itertools orderings are the arrangements, each once |
| `WordOrderSearch.OrderWorker` | recovery_utils.py:470-515 | a task tries every arrangement behind its first word once and collects exactly those that pass |
| `Trials.PassedCount` | recovery_utils.py:470-515 | the count of passed phrases is that of the phrases which pass the checksum test alone |
| `WordOrderSearch.RunTasks` | recovery_utils.py:946-958 | the task loop: totals add up over disjoint tasks, and it stops only after a task that reached 100 candidates, without cutting that task |
| `WordOrderSearch.RecoverWordOrder` | recovery_utils.py:894-970 | the errors exactly when due; when not truncated every distinct filling was tried once, so checked is the search space, the multinomial number |
| `WordOrderSearch.FullSearchExact` | recovery_utils.py:919-970 | an untruncated search returns, without repetition, exactly the fillings that pass both tests |
| `WordOrderCap.CapBound` | recovery_utils.py:946-958 | a search returns at most 99 candidates more than its last task has phrases, and no more than were tried |
| `WordOrderCap.CapKept` | recovery_utils.py:946-958 | with at most 100 phrases in the search space, or 100 copies of a word tried before one other word, no tests yield more than 100 candidates |
| `WordOrderCap.CapBroken` | recovery_utils.py:946-958 | in every other case there are tests with which every run returns more than 100 |
| `WordOrderCap.SixWordsOver` | recovery_utils.py:946-958 | six different words of which every order passes both tests: 120 candidates |
| `WordOrderCap.ChecksumOver` | recovery_utils.py:946-958 | twelve words, six of them in unknown order, checked with the BIP-39 checksum for a hash with constant first byte that suits the last word: 120 candidates |
| `Levenshtein.Levenshtein` | recovery_utils.py:126-156 | the two-row loop returns the least length of any insert, delete and substitute script |
| `Levenshtein.NextRow` | recovery_utils.py:143-155 | the inner loop turns row i - 1 of the distance table into row i |
| `Levenshtein.DistanceIsEditDistance` | recovery_utils.py:126-156 | the recurrence is met by some script and no script is shorter |
| `Levenshtein.DistanceIsMetric` | recovery_utils.py:126-156 | zero only on equal strings, symmetric, triangle inequality |
| `Bip39.ChecksumValid` | recovery_utils.py:88-109 | the shifting loop decides whether the checksum bits of the base-2048 number are the top bits of the hash of its entropy bytes |
| `Bip39.ValidIffEncoded` | recovery_utils.py:88-109 | word numbers are valid if and only if in base 2048 they are some entropy of 4 * (n / 3) bytes followed by the first n / 3 bits of its hash |
| `Bip39.EntropyEncoded` | recovery_utils.py:88-109 | every entropy of that size is encoded by exactly one list of word numbers, and that list is valid |
| `Bip39.EntropyFits` | recovery_utils.py:101-107 | for the five lengths the entropy is a whole number of bytes and fits them |
| `Bip39.LastWordCount` | recovery_utils.py:88-109 | for every prefix and every hash, exactly 2^(11 - n/3) last words pass |
| `MissingWordsSearch.ExpandPattern` | recovery_utils.py:250-277 | the words of the list that match the token, lower-cased and stripped first, in list order |
| `MissingWords.MatchesMeans` | recovery_utils.py:265-275 | the unknown token matches every word, a pattern with one or more wildcards those that begin and end with the text around them, any other token itself |
| `Text.Stripped` | recovery_utils.py:264 | strip removes the space on both sides and nothing else |
| `Text.LetterLowered` | recovery_utils.py:264 | lower turns the 26 capital letters into the small ones |
| `MissingWords.BeforeIsPrefix` | recovery_utils.py:272 | the required prefix is the text before the first wildcard |
| `MissingWords.AfterIsSuffix` | recovery_utils.py:275-276 | the required suffix is the text after the last wildcard |
| `MissingWordsSearch.PutWords` | recovery_utils.py:436-438 | patching the trial words and the index array together keeps the indices those of the words |
| `MissingWordsSearch.RecoverChunk` | recovery_utils.py:386-445 | a chunk tries every choice of the other words behind each first word, judged by an index array that always matches the trial words |
| `MissingWordsRecovery.MergeCapped` | recovery_utils.py:710-715 | the merge keeps all candidates up to the cap and reports whether the cap was reached |
| `MissingWordsRecovery.RunChunks` | recovery_utils.py:701-721 | the chunk loop returns the hits cut at the cap; truncated exactly when there are at least that many |
| `MissingWordsRecovery.RecoverMissingWords` | recovery_utils.py:600-732 | each error exactly when due and with its witness; otherwise the hits cut to the first max_returned when positive, and checked equals search_space when not truncated |
| `MissingWords.HitsIff` | recovery_utils.py:386-445 | a phrase is a hit if and only if it fits every token and passes checksum and address test |
| `MissingWords.HitsIncreasing` | recovery_utils.py:661-721 | the hits come in strictly increasing alphabetical order |
| `ProductOrder.ProductIncreasing` | recovery_utils.py:431-439 | the product of lists in rank order is in lexicographic order |
| `Itertools.ProductIff` | recovery_utils.py:435 | product yields exactly the choices of one element from each list |
| `Itertools.ProductSize` | recovery_utils.py:674-676 | their number is the product of the lengths |
| `TokenlistGenerator.GenerateTokenlist` | tokenlist_utils.py:180-220 | the result is the first max_results distinct guesses in visit order, none for a cap of zero or less |
| `TokenlistGenerator.JoinConcat` | tokenlist_utils.py:216 | one separator stands between any two neighbouring tokens and nowhere else |
| `TokenlistGenerator.EstimateTokenlist` | tokenlist_utils.py:223-259 | the estimate is the number of combinations visited without a cap, unless it stops early above ten million, and then it is a lower bound |
| `TokenlistGenerator.EstimateBounds` | tokenlist_utils.py:155-259 | an estimate within that limit is exact and bounds the length of the result |
| `TokenlistGenerator.ResultExact` | tokenlist_utils.py:180-220 | a result that was not cut holds each joined guess once, and nothing else |
| `Tokenlist.AllVisitsIff` | tokenlist_utils.py:190-218 | what is visited: one token from each required and each chosen optional line, begin-anchored first, end-anchored last, the free ones in any order |
| `Tokenlist.AnchoredPlaces` | tokenlist_utils.py:202-215 | in a guess the tokens of begin-anchored lines come first and those of lines anchored at the end alone last, each in line order, and every line has its token |
| `Tokenlist.VisitsSize` | tokenlist_utils.py:245-255 | for every selection of lines the product of the option counts and the factorial of the free lines is the number of visits |
| `Tokenlist.OneSelectionEach` | tokenlist_utils.py:190-196 | no subset of the optional lines is visited twice, and the selections are one for each visited subset, so the sum of sizes counts every one once |
| `Tokenlist.VisitedSubsetsIff` | tokenlist_utils.py:190-196 | the subsets visited are exactly the ascending index lists of the admissible sizes |
| `Tokenlist.MinimumKeptIff` | tokenlist_utils.py:191-192 | every selection visited has at least min_tokens optional lines if and only if no line is required, or min_tokens is not positive, or max_tokens is negative |
| `Tokenlist.MinimumBroken` | tokenlist_utils.py:191-192 | a required and an optional line with which min_tokens = 1 does not keep the required token from being visited alone |
| `FirstSeen.KeepFirsts` | tokenlist_utils.py:185-190 | the capped dict ends up with the first cap distinct values |
| `Itertools.CombinationsIff` | tokenlist_utils.py:194 | combinations yields exactly the ascending index lists of one length |
| `ProductOrder.CombinationsIncreasing` | tokenlist_utils.py:192 | combinations yields in lexicographic order |
| `ProductOrder.PermutationsIncreasing` | tokenlist_utils.py:214 | permutations of an increasing sequence yields in lexicographic order |
| `ProductOrder.PermutationsByPosition` | tokenlist_utils.py:214 | permutations goes by position, whatever the elements are |
| `Itertools.PermutationsIff` | tokenlist_utils.py:215 | permutations yields exactly the sequences with the same elements, repetitions counted |
| `Itertools.PermutationsSize` | tokenlist_utils.py:253 | and there are n! of them |
| `BruteForce.GenerateBruteForce` | tokenlist_utils.py:276-302 | all strings of the lengths asked for, wrapped, cut at the cap, where a cap below one still lets one through; an error for a negative first length |
| `BruteForce.AllStringsIff` | tokenlist_utils.py:297-301 | the strings are those over the charset with a length in the range |
| `BruteForce.CharsIff` | tokenlist_utils.py:266-271 | the characters are those of the named sets: small letters, capital letters, digits, and the symbols listed |
| `BruteForce.CharsConcat` | tokenlist_utils.py:290-292 | the sets come in the order of their names |
| `BruteForce.GeneratedIff` | tokenlist_utils.py:276-302 | without a cap the candidates are the prefix, a string of an admissible length over the named sets, and the suffix |
| `BruteForce.AllInOrder` | tokenlist_utils.py:297-301 | length by length and alphabetical by charset order within a length |
| `BruteForce.CandidatesDistinct` | tokenlist_utils.py:276-302 | the candidates are pairwise distinct |
| `BruteForce.EstimateBruteForce` | tokenlist_utils.py:305-323 | the number of strings, unless it stops early above a thousand million and is then a lower bound; a float sum of powers exactly when the generator fails on a negative length |
| `BruteForce.PowerSumCounts` | tokenlist_utils.py:318-319 | for lengths from zero on the sum of the powers is the number of strings |
| `BruteForce.CountIff` | tokenlist_utils.py:276-323 | the number of candidates is the smaller of estimate and cap if and only if the cap is positive and the estimate exact or no smaller than the cap, or the cap is zero with nothing to generate |
| `BruteForce.CharsetSize` | tokenlist_utils.py:290-292 | the charset of the generator is as long as the set that the estimate counts |
| `BatchLog.LoadCompletedSeeds` | btcrecover/seedrecover_batch.py:122-159 | returns exactly the non-empty tab-free texts that stand after MATCHED or CHECKED at the start of some line |
| `BatchLog.OrderIrrelevant` | btcrecover/seedrecover_batch.py:122-159 | the order of the lines and the ERROR lines among them make no difference |
| `BatchLog.ProgressContainsMatch` | btcrecover/seedrecover_batch.py:162-179 | true exactly when some line starts with MATCHED and a tab |
| `BatchLog.RecordCompletes` | btcrecover/seedrecover_batch.py:201-212 | a record completes the seed up to its first tab, and an ERROR record nothing, whatever further fields follow |
| `BatchLog.LinesMean` | btcrecover/seedrecover_batch.py:205-212 | the lines as they stand in the file: CHECKED and MATCHED complete a seed without tabs, ERROR does not |
| `BatchLog.OwnRecordIff` | btcrecover/seedrecover_batch.py:122-212 | the record of a seed marks that seed as completed if and only if the seed has no tab |
| `BatchCoverage.TabMarksAnother` | btcrecover/seedrecover_batch.py:122-212 | a seed whose record marks another seed and not itself |
| `BatchLog.SeedNotEmpty` | btcrecover/seedrecover_batch.py:262-266 | a line that is neither blank nor a comment has a non-empty seed |
| `BatchLog.SeedOfMeans` | btcrecover/seedrecover_batch.py:262-266 | the seed of a line is the text before a comment, without the space around it |
| `BatchLog.BeginsWithSeed` | btcrecover/seedrecover_batch.py:262-264 | a line is a seed line if and only if its first character that is no space is no comment sign |
| `BatchLog.BlankLine` | btcrecover/seedrecover_batch.py:262-264 | a line of nothing but space is no seed line |
| `Batch.OwnsIff` | btcrecover/seedrecover_batch.py:273-278 | a worker owns the lines whose number among the seed lines, counted from zero, has one of its residues |
| `BatchRuns.RunInv` | btcrecover/seedrecover_batch.py:249-377 | the invariant of log, trials and workers holds in every state of every interleaving, crashes and restarts included |
| `Batch.LookKeeps` | btcrecover/seedrecover_batch.py:253-257 | reading the log at the top of the loop keeps it |
| `Batch.DecideKeeps` | btcrecover/seedrecover_batch.py:262-279 | so does the rest of the loop top: the index counts every seed line, skipped or not |
| `Batch.AppendKeeps` | btcrecover/seedrecover_batch.py:283-373 | so does recording an outcome, while other workers may have appended |
| `Batch.StartKeeps` | btcrecover/seedrecover_batch.py:245-251 | so does a start or restart that reads the log |
| `BatchRuns.OnlyOwnerTries` | btcrecover/seedrecover_batch.py:249-377 | over whole runs a line is only ever tried by its owner, with or without skipping and restarts |
| `BatchRuns.NotRunAgain` | btcrecover/seedrecover_batch.py:268-271 | a seed completed when the worker started is not run again by it |
| `BatchRuns.AtMostOneAfterMatch` | btcrecover/seedrecover_batch.py:253-288 | after a match is logged each worker begins at most one more seed, and only if it had read the log for its current line before the match |
| `BatchRuns.BeginsAfterMatchIff` | btcrecover/seedrecover_batch.py:253-288 | once a match is logged, some run has a worker begin a seed if and only if it has looked at the log for a seed line of its own that it does not skip |
| `BatchRuns.LateBegin` | btcrecover/seedrecover_batch.py:253-288 | a run of two workers in which one does begin a seed after the other has logged a match |
| `BatchCoverage.AllHandled` | btcrecover/seedrecover_batch.py:249-377 | if all workers have ended and no match is in the log, every seed line was tried or its seed was completed; with skipping, every line that is not shadowed by a seed with a tab on an earlier line or of another worker |
| `BatchCoverage.NeverHandled` | btcrecover/seedrecover_batch.py:249-377 | the condition is exact: for every shadowed line there is a run from an empty log that ends without trying the line or its seed |
| `BatchCoverage.ShadowExample` | btcrecover/seedrecover_batch.py:249-377 | a two-line file whose second line is shadowed |
| `BatchRuns.ReverseKeepsLinesIff` | btcrecover/seedrecover_batch.py:242-276 | a worker that alone reverses the file keeps its seed lines if and only if it takes the residues of k and n - 1 - k or neither, for every k below the number n of seed lines |
| `BatchRuns.ReverseAgreesIff` | btcrecover/seedrecover_batch.py:242-276 | the owners in the file and the reversed file agree on every seed line if and only if k and n - 1 - k fall to the same worker for every k below n |
| `BatchRuns.ReverseOneEachIff` | btcrecover/seedrecover_batch.py:242-276 | with one id for each worker that is: at most one seed line, one residue, or two residues and an odd number of seed lines |
| `BatchRuns.WorkerLoop` | btcrecover/seedrecover_batch.py:249-373 | the main loop, run alone, goes through steps of the protocol and ends finished or stopped at a match |
| `Base58.EncodeBase58` | hash_utils.py:76-94 | the divmod loop with leading zeros gives the base-58 digits of the bytes |
| `Base58.AlphabetIff` | hash_utils.py:74 | the alphabet has exactly the digits and letters without 0, I, O and l |
| `Base58.EncodeMeans` | hash_utils.py:76-94 | read in base 58 the encoding is the number that the bytes are in base 256, with as many leading ones as there are leading zero bytes |
| `Base58.DecodeBase58` | hash_utils.py:96-119 | the multiply-add loop gives the bytes, or the first character outside the alphabet |
| `Base58.DecodeEncode` | hash_utils.py:76-119 | decoding the encoding of any bytes gives them back, all-zero and empty included |
| `Base58.EncodeDecode` | hash_utils.py:76-119 | encoding the decoding of any string over the alphabet gives it back |

## Left out

- The long-message cipher of AEZ (`aez_core` and its passes): messages of 32 bytes or more are not modelled; the cipherseed has 23.
- Aez.Decrypt: ciphertexts of 32 bytes or more take that branch and are excluded.
- Aez.State.DecryptWith: the same.
- Aez.State.Encipher: the same.
- Aez.State.Decipher: the same.
- AES rounds, BLAKE2b, `aez_hash`, `aez_prf`, scrypt, SHA-256 and key derivation: they are parameters, and every statement holds for all of them.
- `decode_mnemonic`: a straight sequence of the parts that are modelled.
- AddressSet.AddressSet.Add: what later calls do to a table that has lost bytes is not modelled, only that it is no longer valid; text output of addresses is left out.
- AddressSet.AddressSet.AddAll: for the same reason the run is followed up to the first add that shortens the table.
- AddressSet.AddressSet.Create: `max_load` is a real number, so the rounding of the product with the table length is not modelled; printing is left out.
- AddressSet.AddressSet.Find: the mask with a power of two minus one is written as a remainder.
- `AddressSet` headers, files, memory maps, pickling and `close`: platform input and output.
- BlockWalk.WalkBlock: the comparison of the block date with the two dates is a parameter; the other header fields are left out.
- BlockFile.FeedFile: one file at a time, followed up to the first add that shortens the table; the numbering of files, progress output and the address count are left out.
- WordOrderSearch.RecoverWordOrder: words are their ranks in the sorted word list, so normalisation and the checks against the word list come before; progress callbacks and timing are left out.
- MissingWordsRecovery.RecoverMissingWords: the phrase is given as its normalised tokens and a candidate is the sequence of its words, not the joined text; phrase lengths with variable tokens are the five of BIP-39, as the checksum function requires; the count of candidates per position, callbacks and timing are left out.
- MissingWordsSearch.ExpandPattern: lower-casing is that of the letters A to Z.
- Bip39.ChecksumValid: lengths other than the five of BIP-39, for which the function has no meaning, are excluded.
- UniquePermutations.UniquePermutations: elements are integers, and the generator is the sequence of its yields.
- TokenlistGenerator.GenerateTokenlist: token lines are given parsed; wildcard expansion and line parsing are left out, because they would add only easy members.
- BruteForce.EstimateBruteForce: the float that a negative length leads to is a real number, without rounding.
- BatchLog.LoadCompletedSeeds: a log is the sequence of its lines; further fields that contain line breaks, and read errors, are left out.
- Batch.AppendKeeps: an append is one atomic step that succeeds; failed appends, exit codes, beeps, dialogs and child processes are left out.
- BatchRuns.WorkerLoop: runs while no other worker acts; the interleavings are in the step relation.
- Base58.DecodeBase58: the text of the error message is left out.
- Wallet files, BIP-38, brain wallets, SLIP-39, Electrum, typo suggestions by keyboard and sound, exports, audits, the user interface and the launchers: library calls, heuristics and platform code.
