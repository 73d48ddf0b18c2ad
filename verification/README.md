# A verified model of the game-server backend

The backend behind a set of card and slot games: a proxy and several game servers, scheduled tasks
that settle commissions and dividends, and a shared library of ciphers, codecs and random choice.
This project states in Dafny what its self-contained algorithms compute, and proves it for all
inputs. `dafny verify dfyconfig.toml` checks the whole project.

Each part has a reference definition (a standard, or what the code's own rules add up to), the code
in its own form — classes with fields, arrays changed in place, loops — proved against that
definition, and lemmas that say what the definition is good for.

**Ciphers, digests, codecs.** `GF256`, `AesTables`, `Fips197`, `AesMessages`, `AesCipher`: AES-128
as the standard defines it, and the class whose encryptor works on a row-major copy of the block
while its decryptor works in place with the other index order. Decryption undoes encryption for
every key, block and message. `Rfc1321`, `Md5Stream`: the streaming digest, independent of how the
message is cut. `Rfc4648`, `Base64`, `Hex`: two independent Base64 codecs that agree and round-trip,
and the hexadecimal pair. `UrlCodec`, `UrlLayers`: two percent-encoders, of which one keeps its
promise and the other does so under an exact condition, and a decoder for any number of layers.
`Bytes`, `Division` and `FiniteSets` hold what several modules share.

**Money.** `SetSums` holds sums over sets. `BettingCount`, `NewUserCount`, `ProfitShares` and
`CommissionRun` model the daily commission over std::maps, one of which grows while it is walked;
`ReferralForest`, `CommissionBound` and `CommissionDay` prove the telescoping bound on the payout.
`DividendShares` and `DividendRun` model the weekly dividend and prove that it stays within its pool.

**Random choice.** `Generator` (on `Powers`) proves the full period of the congruential generator, and
`Period` how often each value and each index comes in it. `Weights` and `StdWeight` prove that shuffling
never changes how many draws an index gets, and that the Fisher-Yates loop reaches every order by
exactly one choice of draws.

**Framing.** `Framing` and `Reassembly`: packets, checksums, and frames that do not depend on how the
bytes arrive.

**Pools and search.** `ConnectionPool` lets any number of threads take turns step by step;
`Lists`, `UserManager`, `AndroidManager`, `TableManager` and `GameReplay` keep items in use and items
to be used again; `IpFinder` and `IpText` search the address index and print and parse addresses.

## What the proofs brought to light

- `url_encode` (public/urlcodec.cpp:191-218) writes `c >> 4 + 55`: the sum is taken first and the
  high digit is lost, so only bytes below 16 come back from an escape. `UrlRoundTripExactly` gives
  the condition, `SlashIsLost` an input.
- ScheduledTasks/algorithmlogic.cpp:415 stores the bettor's id as the superior of the superior.
  `StoredUpById` says exactly when the stored superior is right: the user bet, and has a smaller id than
  every bettor below. The payout bound holds all the same, as the wrong one never has a higher rate:
  the commission is lost (`CommissionLost`), not invented.
- Framework/GameServer/ServerUserManager.cpp:82 cuts the 64-bit id to an `int`, so a wide id still
  leads to an item that was given back (`WideIdRecycled`); `RecycledExactly` says which ids do in a
  run. The entry erased may also be another player's, who is then not found: `AlwaysFoundExactly`
  says when every player in use is, `HiddenPlayers` shows two who are not.
- Framework/GameServer/ConnectionPool.cpp:139 tests the size outside the mutex. The size can exceed
  the maximum by one less than the number of threads, and `BoundReached` shows that it does.
- With a weight sum of one no draw is made and the first index is answered, whichever has the weight
  (`ExactShares`).
- `sendData` returns true also when there is no connection (Framework/GameServer/GameServer.cpp:1492-1522),
  and leaves the inner header's checksum as it was although it changes the length.
- The comments at GameServer.cpp:1310 and Globals.h:74 give 4 for the length of the prefix and 60 for
  that of the inner header; the code's values are 2 and 70.
- `FindNormalSuitTable` may hand out a free table other than the one asked for, even the excepted one;
  its last two clauses say exactly when, `AskedForZero` and `AnyButZero` are runs. The callers at
  Framework/GameServer/GameServer.cpp:388 and 1874 except no table, so the second case arises only at
  the interface.
- `IsRightIpString` accepts texts that are no addresses. `AcceptedIsAddressWhen` says exactly which are,
  `NoAddressAccepted` and `NoPlainByteAccepted` give others.
- `hasUrlEncoded` overlooks an escape behind a wrong one (`HasEscapeExactly`, `EscapeMissed`).
- With `use_cbc`, `encrypt` chains on the plaintext and after encrypting, `decrypt` on the ciphertext
  (public/AES_Cipher.cpp:217-224 and 266-273). `ChainedRoundTripExactly` says for which keys and
  messages the pair still gives the message back, `ChainedTextExactly` when the padding comes back as
  well, and `EveryKeyFails` finds for every key a message that is lost.
- `encrypt` checks that the destination is no shorter than the message, but writes more (`RoomExactly`).

## Model

| member | source | states |
|---|---|---|
| GF256.XTimeIsProduct | public/AES_Cipher.cpp:77-80 | xtime is multiplication by x in GF(2^8), polynomial product and remainder written out |
| GF256.MultiplyIsProductBelow32 | public/AES_Cipher.cpp:82-89 | Multiply is the field product for every first argument exactly when the second is below 32, as it looks at five bits |
| GF256.UnmixByteInverts | public/AES_Cipher.cpp:407-410 | the InvMixColumns row undoes the MixColumns rows, for every column |
| GF256.MixStepsAreRows | public/AES_Cipher.cpp:294-299 | the four assignments that share one column sum are the four matrix rows of section 5.1.3 of FIPS 197 |
| GF256.UnmixStepIsRow | public/AES_Cipher.cpp:407 | an InvMixColumns expression is a row of the inverse matrix of section 5.3.3 |
| AesTables.InvSBoxInverts | public/AES_Cipher.cpp:6-42 | scRsbox undoes scSbox on all 256 values |
| AesTables.SBoxIsAffineOfInverse | public/AES_Cipher.cpp:6-23 | every scSbox entry is the affine image of a field inverse (section 5.1.1), so the table is the standard's |
| Fips197.MixColumnsUndone | public/AES_Cipher.cpp:288-301 | InvMixColumns undoes MixColumns on every block |
| Fips197.StatesMeet | public/AES_Cipher.cpp:342-365 | before each decryption round the state is the one encryption had after that round |
| Fips197.DecryptInvertsEncrypt | public/AES_Cipher.cpp:454-470 | the inverse cipher of section 5.3 undoes the cipher of section 5.1 for every key and block |
| Fips197.EncryptInvertsDecrypt | public/AES_Cipher.cpp:342-365 | and the cipher undoes the inverse cipher: both are onto, as the blocks are finitely many |
| AesCipher.RconIsRoundConstant | public/AES_Cipher.cpp:44-45 | the round constants used are the successive doublings of one |
| AesCipher.AesEcbCipher.AddRoundKey | public/AES_Cipher.cpp:91-101 | on the row-major copy, adding the round key is the standard's AddRoundKey seen through the transpose |
| AesCipher.AesEcbCipher.SubBytes | public/AES_Cipher.cpp:303-313 | SubBytes in place on the transposed copy |
| AesCipher.AesEcbCipher.ShiftRows | public/AES_Cipher.cpp:315-340 | the assignments with one temporary rotate the rows as ShiftRows does |
| AesCipher.AesEcbCipher.MixColumns | public/AES_Cipher.cpp:288-301 | MixColumns in place, with the column sum computed once and the first byte saved |
| AesCipher.AesEcbCipher.NextTemp | public/AES_Cipher.cpp:115-181 | rotation, substitution and round constant for every fourth word only |
| AesCipher.AesEcbCipher.ExpandWord | public/AES_Cipher.cpp:115-181 | one pass of the expansion extends the schedule by the standard's next word |
| AesCipher.AesEcbCipher.KeyExpansion | public/AES_Cipher.cpp:115-181 | mRoundKey holds the whole key schedule of section 5.2 of FIPS 197 |
| AesCipher.AesEcbCipher.Cipher | public/AES_Cipher.cpp:342-365 | the rounds on the transposed copy encrypt the block as the standard does |
| AesCipher.AesEcbCipher.EncryptBlock | public/AES_Cipher.cpp:367-394 | AES128_ECB_encrypt writes the standard's encryption of the input and nothing else |
| AesCipher.AesEcbCipher.InvAddRoundKey | public/AES_Cipher.cpp:103-113 | the same key addition with the index order of the in-place state |
| AesCipher.AesEcbCipher.InvSubBytes | public/AES_Cipher.cpp:414-424 | InvSubBytes in place |
| AesCipher.AesEcbCipher.InvShiftRows | public/AES_Cipher.cpp:426-452 | InvShiftRows in place, read column by column |
| AesCipher.AesEcbCipher.InvMixColumns | public/AES_Cipher.cpp:396-412 | InvMixColumns in place |
| AesCipher.AesEcbCipher.InvCipher | public/AES_Cipher.cpp:454-470 | the inverse rounds in place decrypt the block as the standard does |
| AesCipher.AesEcbCipher.DecryptBlock | public/AES_Cipher.cpp:472-479 | AES128_ECB_decrypt writes the standard's decryption of the input and nothing else |
| AesMessages.UnpadPad | public/AES_Cipher.cpp:203-210 | removing the padding of section 6.3 of RFC 5652 gives the message back |
| AesMessages.MessageRoundTrip | public/AES_Cipher.cpp:183-286 | for every key and message, decrypting block by block and unpadding undoes padding and encrypting |
| AesMessages.CbcRoundTrip | public/AES_Cipher.cpp:266-273 | decrypt with use_cbc undoes CBC encryption of section 6.2 of SP 800-38A with the key as initial vector |
| AesMessages.DecryptsToExactly | public/AES_Cipher.cpp:261-274 | with use_cbc only the standard's ciphertext is decrypted to a given text |
| AesMessages.ChainedTextExactly | public/AES_Cipher.cpp:183-286 | with use_cbc the padded text comes back exactly when what encrypt wrote is the standard's ciphertext |
| AesMessages.ChainedRoundTripExactly | public/AES_Cipher.cpp:183-286 | with use_cbc a message comes back exactly when each of its whole blocks is written as if it had been chained before the encryption, with the ciphertext, and of the last block the message's bytes and the last byte come back |
| AesMessages.ChainedRoundTripFails | public/AES_Cipher.cpp:183-286 | two-block messages, the second zero, that do not come back, told by one byte |
| AesMessages.EveryKeyFails | public/AES_Cipher.cpp:183-286 | every key has a message that does not come back with use_cbc |
| AesCipher.AesEcbCipher.PaddedCopy | public/AES_Cipher.cpp:198-210 | the encode buffer holds the padded message |
| AesCipher.AesEcbCipher.ChainBlock | public/AES_Cipher.cpp:217-224 | one block is combined with the key or the block before it |
| AesCipher.AesEcbCipher.EncryptBuffer | public/AES_Cipher.cpp:212-225 | the block loop writes every block's encryption, chained as the code chains |
| AesCipher.AesEcbCipher.Encrypt | public/AES_Cipher.cpp:183-235 | all results and error returns of encrypt, and the bytes written |
| AesCipher.RoomExactly | public/AES_Cipher.cpp:183-235 | a capacity that encrypt accepts has room for what it writes exactly when it exceeds 16 * (length / 16) + 16; a message of 16 bytes makes 33 |
| AesCipher.AesEcbCipher.DecryptBuffer | public/AES_Cipher.cpp:261-274 | the block loop writes every block's decryption |
| AesCipher.AesEcbCipher.Decrypt | public/AES_Cipher.cpp:237-286 | all results and error returns of decrypt: the message and a zero behind it, or the padded text and the length computed modulo 2^32 where the padding is refused |
| AesCipher.ThereAndBack | public/AES_Cipher.cpp:183-286 | encrypt, then decrypt, on arrays: every message of up to 1023 bytes comes back with its exact length |
| Rfc1321.DigestedConcat | public/mymd5.cpp:36-37 | complete blocks may be digested in two goes, cut at any multiple of 64 |
| Rfc1321.PaddingLengthIsLeast | public/mymd5.cpp:52 | the padding length is the least positive one that leaves 56 modulo 64 (section 3.1 of RFC 1321) |
| Md5Stream.Md5Context.MD5Init | public/mymd5.cpp:12-20 | a fresh context stands for the empty message |
| Md5Stream.Md5Context.MD5Transform | public/mymd5.cpp:87-170 | the 64 written-out steps are the compression function of section 3.4 of RFC 1321 |
| Md5Stream.Decode | public/mymd5.cpp:73-85 | sixteen words, low-order byte first |
| Md5Stream.Encode | public/mymd5.cpp:59-71 | the bytes of the words, low-order byte first |
| Md5Stream.CountAdds | public/mymd5.cpp:27-30 | the two 32-bit counters with carry add 8 times the length modulo 2^64 |
| Md5Stream.NoWrap | public/mymd5.cpp:36 | in the block loop i + 64 never wraps as long as the input length stays under the stated bound |
| Md5Stream.Md5Context.MD5Update | public/mymd5.cpp:22-45 | for any earlier input, the context afterwards stands for the earlier input followed by this one: digested blocks, buffered rest and bit count |
| Md5Stream.Md5Context.MD5Final | public/mymd5.cpp:47-57 | the digest is that of the padded message, whatever was fed before |
| Md5Stream.DigestInPieces | public/mymd5.cpp:22-57 | however a message is cut into updates, the digest is the MD5 of the whole message |
| Rfc4648.EncodedLength | public/base64.cpp:13-53 | the encoding has 4 * ceil(n / 3) characters |
| Rfc4648.EncodingRoundTrip | public/base64.cpp:55-94 | decoding an encoding gives every byte string back (section 4 of RFC 4648) |
| Base64.Base64Encode | public/base64.cpp:13-53 | base64_encode computes the standard's encoding |
| Base64.Base64Decode | public/base64.cpp:55-94 | base64_decode computes the decoding of the longest prefix of letters, for every text |
| Base64.CryptoEncode | public/crypto.cpp:33-69 | Crypto::Base64Encode writes the same encoding, zero-terminated |
| Base64.CryptoDecode | public/crypto.cpp:71-114 | Crypto::Base64Decode decodes group by group up to a zero where a group begins or to a padding sign, for all memory in which one of these comes before the end; nothing else is written |
| Base64.GroupsRoundTrip | public/crypto.cpp:71-114 | the second decoder undoes the common encoding too, whatever lies behind the final zero, so either decoder reads either encoder |
| Hex.BufferToHexString | public/crypto.cpp:643-652 | two upper-case digits for every byte |
| Hex.HexStringToBuffer | public/crypto.cpp:654-677 | the bytes written for any text, an odd last character and non-digits included |
| Hex.BufferRoundTrip | public/crypto.cpp:643-677 | every buffer comes back from its hexadecimal text |
| Hex.TextRoundTrip | public/crypto.cpp:643-677 | every even text of hexadecimal digits comes back in upper case |
| UrlCodec.UrlEncode | public/urlcodec.cpp:191-218 | url_encode as written: the high digit is shifted by 4 + 55 or 4 + 48, as + binds tighter than >> |
| UrlCodec.UrlDecode | public/urlcodec.cpp:220-252 | url_decode for every text |
| UrlCodec.RoundTripWhen | public/urlcodec.cpp:191-252 | for any rendering of the high digit the pair returns a string exactly when every byte survives |
| UrlCodec.UrlRoundTripExactly | public/urlcodec.cpp:191-252 | url_decode(url_encode(s)) is s exactly when every byte is left plain, a space, or below 16 |
| UrlCodec.SlashIsLost | public/urlcodec.cpp:191-252 | the input '/' comes back as the byte 15 |
| UrlCodec.GlobalUrlEncode | public/GlobalFunc.cpp:267-296 | GlobalFunc::UrlEncode for every string |
| UrlCodec.GlobalUrlDecode | public/GlobalFunc.cpp:298-315 | GlobalFunc::UrlDecode for every string, with FromHex's unset value as a parameter |
| UrlCodec.GlobalRoundTrip | public/GlobalFunc.cpp:267-315 | this pair gives every byte string back |
| UrlLayers.PassShortens | public/urlcodec.cpp:143-189 | a Decode that returns 1 shortens the text by at least four, and none lengthens it |
| UrlLayers.Decode | public/urlcodec.cpp:143-189 | Decode computes one two-layer pass and says whether another percent sign came out |
| UrlLayers.HasUrlEncoded | public/urlcodec.cpp:37-67 | the scan, with the two characters a wrong escape takes along |
| UrlLayers.HasEscapeExactly | public/urlcodec.cpp:37-67 | it is true exactly when some percent sign has two hexadecimal digits behind it and is not one of the two characters that a wrong escape before it takes along |
| UrlLayers.NoneMissed | public/urlcodec.cpp:37-67 | it misses no escape where none begins within two places of a wrong one |
| UrlLayers.EscapeMissed | public/urlcodec.cpp:37-67 | %%41 holds an escape that is missed, and MultipleDecode returns it as it is |
| UrlLayers.MultipleDecode | public/urlcodec.cpp:123-140 | terminates, and its result is the passes repeated while one asks for another |
| UrlLayers.AllLayersRoundTrip | public/urlcodec.cpp:123-140 | text without percent signs and spaces, encoded any number of times by UrlEncode, is recovered by one MultipleDecode |
| UrlLayers.AllLayersRoundTripExactly | public/urlcodec.cpp:123-140 | it is recovered from every number of layers exactly when it has neither a percent sign nor a space |
| Generator.LowBitsPeriod | public/Random.h:74-77 | from any seed the low k bits return after exactly the multiples of 2^k steps, for every k up to 32 |
| Generator.FullPeriod | public/Random.h:74-77 | the seed returns after exactly the multiples of 2^32 steps |
| Generator.SeedsDiffer | public/Random.h:74-77 | within one period no seed repeats |
| Generator.EverySeedReached | public/Random.h:74-77 | every 32-bit value is reached from every seed |
| Generator.CRandom.constructor | public/Random.h:15-21 | the seed is the time in milliseconds modulo 2^32, read again if zero |
| Generator.CRandom.RandomSeed | public/Random.h:36-47 | a zero seed asks for the time |
| Generator.CRandom.GetNextSeed | public/Random.h:74-77 | one step of the recurrence |
| Generator.CRandom.RandomInt | public/Random.h:49-53 | the draw lies between min and max and comes from the stepped seed |
| Period.EveryWordOnce | public/Random.h:49-53 | in a period from any seed every 32-bit word is mixed exactly once |
| Period.EveryValueShared | public/Random.h:49-53 | and every value of a range of n is drawn 2^32 / n times, the first 2^32 % n of them once more |
| Weights.GetResultByWeight | public/weights.cpp:27-46 | the position at which the running total reaches the draw; zero and no draw for a sum of at most one; the loop always returns |
| Weights.PickIs | public/weights.cpp:38-45 | position i answers exactly the draws after the weights before it, as many as its weight |
| Weights.ExactShares | public/weights.cpp:90-95 | for every arrangement of the weights, each index gets exactly its weight in draws — unless the sum is one and the only weight does not come first |
| Weights.ShuffleArranged | public/weights.cpp:74-87 | any number of exchanges keeps every weight with its index, each once, and the sum |
| Weights.SharesSurviveShuffling | public/weights.cpp:27-95 | after any number of exchanges exactly weight[j] of the draws 1..sum answer index j |
| Period.IndexShared | public/weights.cpp:27-46 | in a period an index is answered 2^32 / sum times for each unit of its weight, and once more for each unit among the first 2^32 % sum |
| Period.ShuffledShared | public/weights.cpp:27-95 | after any number of exchanges too: at most once more for each unit, and never where the sum divides 2^32 |
| Weights.CWeight.constructor | public/weights.cpp:49-53 | an empty pool, all entries zero |
| Weights.CWeight.Init | public/weights.cpp:60-71 | more than ten weights change nothing; otherwise the weights with their own indices |
| Weights.CWeight.ShuffleSeq | public/weights.cpp:74-87 | five to ten sweeps; weights and indices undergo the same exchanges, drawn from the successive seeds |
| Weights.CWeight.GetResult | public/weights.cpp:90-95 | the index chosen for the draw, by the arrangement the pool has |
| StdWeight.EveryOrderOnce | public/StdRandom.h:136-143 | every reordering is dealt by one choice of draws and no other, so uniform draws shuffle uniformly |
| StdWeight.Weight.Init | public/StdRandom.h:103-118 | weights, indices and sum |
| StdWeight.Weight.Shuffle | public/StdRandom.h:136-143 | the Fisher-Yates loop deals both lists alike and keeps the stored sum the sum |
| StdWeight.Weight.GetResult | public/StdRandom.h:129-149 | the index chosen for the draw; the loop always returns |
| BettingCount.TeamBetsAddUp | ScheduledTasks/algorithmlogic.cpp:401-430 | over all users, team bets add up to every score once for each listed superior |
| BettingCount.OrderDoesNotMatter | ScheduledTasks/algorithmlogic.cpp:364-436 | own bets, team bets and the set of users do not depend on the order of the bettors |
| BettingCount.OwnBet | ScheduledTasks/algorithmlogic.cpp:367-376 | a bettor's own bet is its score |
| CommissionRun.AlgorithmLogic.CountBets | ScheduledTasks/algorithmlogic.cpp:361-436 | the betting loop leaves, through whichever branches, each user's own and team bets, its rate on file and what the first bettor to touch it stored |
| CommissionRun.AlgorithmLogic.SetRates | ScheduledTasks/algorithmlogic.cpp:440-456 | the first matching tier's brokerage, else the rate on file, and the own profit with division toward zero |
| CommissionRun.AlgorithmLogic.RateOne | ScheduledTasks/algorithmlogic.cpp:442-455 | the same for one entry, with the loop that stops at the first tier |
| CommissionRun.AlgorithmLogic.ShareProfits | ScheduledTasks/algorithmlogic.cpp:457-475 | the profit loop over a map that grows while it is walked: each team profit and contribution afterwards |
| CommissionRun.AlgorithmLogic.Visit | ScheduledTasks/algorithmlogic.cpp:459-474 | the loop's body for one entry, the entry made by a lookup included |
| CommissionRun.AlgorithmLogic.HaveAddNewRegisteredUser | ScheduledTasks/algorithmlogic.cpp:194-237 | the registrations counted for the direct superior and everybody above, through either branch |
| CommissionRun.AlgorithmLogic.AddGrowth | ScheduledTasks/algorithmlogic.cpp:479-496 | the counts joined to the incomes, or put in entries of their own |
| CommissionRun.AlgorithmLogic.CalculatAllBenefitsUser | ScheduledTasks/algorithmlogic.cpp:361-510 | the whole calculation as the composition of these steps |
| NewUserCount.GrowthAddsUp | ScheduledTasks/algorithmlogic.cpp:194-237 | direct additions add up to the users with a superior, team additions to the superiors they have |
| ProfitShares.TeamProfitOfChildren | ScheduledTasks/algorithmlogic.cpp:464-474 | a superior's team profit is the sum of the commissions of its direct children that qualify |
| ProfitShares.CommissionConserved | ScheduledTasks/algorithmlogic.cpp:457-475 | team profits and contributions have the same total, entries made while walking included |
| ReferralForest.TeamIsChildren | ScheduledTasks/algorithmlogic.cpp:401-442 | in a forest with true lists, team bets are the totals of the direct children |
| ReferralForest.RootsGetAll | ScheduledTasks/algorithmlogic.cpp:401-442 | the roots' totals are all the bets |
| ReferralForest.TotalsGrow | ScheduledTasks/algorithmlogic.cpp:442 | totals never fall on the way up |
| ReferralForest.StoredUpIsSuperior | ScheduledTasks/algorithmlogic.cpp:388-415 | the stored superior is the one on file exactly when the user bet and is read before every bettor below |
| ReferralForest.StoredUpById | ScheduledTasks/algorithmlogic.cpp:388-415 | read from a map in ascending ids: exactly when the user bet and every bettor below has a larger id |
| CommissionBound.RatesGrow | ScheduledTasks/algorithmlogic.cpp:445-453 | with contiguous ascending tiers a larger total never gets a lower rate |
| CommissionBound.Telescopes | ScheduledTasks/algorithmlogic.cpp:455-475 | own earnings and rate differences together are exactly the roots' rates on the roots' totals |
| CommissionBound.CommissionWithinDifference | ScheduledTasks/algorithmlogic.cpp:464-474 | no entry pays more than the true difference to its superior on file |
| CommissionBound.CommissionLost | ScheduledTasks/algorithmlogic.cpp:464-474 | where line 415 stored a bettor below, no commission is paid on the entry |
| CommissionBound.PayoutBounded | ScheduledTasks/algorithmlogic.cpp:440-475 | the day's payout is at most the roots' rates on the roots' totals, and at most the top rate on all bets, for the superiors the code really stores |
| CommissionDay.SettleDay | ScheduledTasks/algorithmlogic.cpp:194-510 | registrations counted and the day settled, for the map as the code leaves it: all pay together is at most the top rate on all bets |
| CommissionBound.StoredBelow | ScheduledTasks/algorithmlogic.cpp:415 | two bettors by whose ids the superior above them is stored in no entry and earns nothing on its team, whatever the rates; with the ids exchanged it is stored |
| DividendRun.SortByLevel | ScheduledTasks/algorithmlogic.cpp:1179-1194 | the exchange sort leaves the same conditions in ascending level |
| DividendRun.AlgorithmLogic.CountWeek | ScheduledTasks/algorithmlogic.cpp:1349-1407 | the week's bets by user and team, and the agents' profits as what their players lost |
| DividendRun.AlgorithmLogic.ListBelow | ScheduledTasks/algorithmlogic.cpp:1412-1425 | the users below are appended to each entry |
| DividendRun.AlgorithmLogic.SetLevels | ScheduledTasks/algorithmlogic.cpp:1426-1469 | team shares by level for every entry that meets the agent's conditions |
| DividendRun.AlgorithmLogic.LevelUser | ScheduledTasks/algorithmlogic.cpp:1428-1468 | the last matching level wins, the last level being open above |
| DividendRun.AlgorithmLogic.NetShares | ScheduledTasks/algorithmlogic.cpp:1471-1481 | own shares are the team's less those of the listed teams below |
| DividendRun.AlgorithmLogic.CountShares | ScheduledTasks/algorithmlogic.cpp:1482-1498 | shares clipped at the conditions, and every agent's total exactly the sum over its users |
| DividendRun.AlgorithmLogic.PriceShares | ScheduledTasks/algorithmlogic.cpp:1500-1510 | the pool, and the price in hundredths cut off toward zero |
| DividendRun.AlgorithmLogic.PayShares | ScheduledTasks/algorithmlogic.cpp:1513-1532 | what each qualifying user is paid |
| DividendRun.AlgorithmLogic.WeekCalculate | ScheduledTasks/algorithmlogic.cpp:1347-1532 | after the whole calculation, for every agent: the payout is within the pool, has its sign, and leaves less than a unit a user and a hundredth a share |
| DividendRun.PayoutWithinPool | ScheduledTasks/algorithmlogic.cpp:1482-1532 | the count loop and the pay loop agree on the shares, so the payout stays within the pool |
| DividendShares.PoolShared | ScheduledTasks/algorithmlogic.cpp:1502-1530 | the arithmetic of both truncations, from above and from below |
| DividendRun.NetSharesTelescope | ScheduledTasks/algorithmlogic.cpp:1471-1481 | own shares over everybody are the team shares of those with no listed superior |
| Framing.GetCheckSum | public/GlobalFunc.cpp:113-122 | the wrapped sum of 16-bit words, a last odd byte by itself |
| Framing.OneByteFound | public/GlobalFunc.cpp:113-122 | a single changed byte always changes the checksum |
| Framing.SetCheckSum | public/GlobalFunc.cpp:124-131 | the header carries the sum of its other words |
| Framing.CheckCheckSum | public/GlobalFunc.cpp:165-172 | true exactly when it does |
| Framing.SealBroken | public/GlobalFunc.cpp:124-172 | a header that passes fails after any single byte is changed |
| Framing.SendData | Framework/GameServer/GameServer.cpp:1488-1523 | the bytes sent: both headers, the fields that depend on the size, the checksum last; true is returned even without a connection |
| Framing.PacketAccepted | Framework/GameServer/GameServer.cpp:1488-1509 | a packet of up to 65535 bytes passes processRequest's test exactly when its version and sign are right |
| Framing.PacketCarries | Framework/GameServer/GameServer.cpp:1497-1506 | body, inner header and command fields arrive as given |
| Framing.SealOnlyForThisLength | Framework/GameServer/GameServer.cpp:1498-1499 | a sealed inner header stays sealed exactly when it already had the length written into it |
| Framing.DamageRejected | Framework/GameServer/GameServer.cpp:1356-1357 | an accepted frame with one byte after the inner header changed is rejected |
| Framing.CheckRequest | Framework/GameServer/GameServer.cpp:1341-1357 | processRequest's test |
| Reassembly.FramesAndRest | Framework/GameServer/GameServer.cpp:1310-1334 | frames and rest are the stream, nothing lost, and the rest holds no frame |
| Reassembly.FramesOfConcat | Framework/GameServer/GameServer.cpp:1310-1334 | bytes that arrive later are read on from what was left |
| Reassembly.NothingAfterBroken | Framework/GameServer/GameServer.cpp:1314-1320 | after the first invalid length nothing is delivered, whatever follows |
| Reassembly.Connection.OnMessage | Framework/GameServer/GameServer.cpp:1306-1335 | after every chunk the delivered frames and the buffer are those of all bytes received |
| Reassembly.Receive | Framework/GameServer/GameServer.cpp:1306-1335 | however the stream is cut, the frames are those of the whole stream |
| Reassembly.PacketRead | Framework/GameServer/GameServer.cpp:1313-1329 | a packet is read whole exactly when it is at most PACKET_SIZE; a longer one stops the reading for good |
| Reassembly.AllPacketsArrive | Framework/GameServer/GameServer.cpp:1306-1509 | all packets sent in a row arrive as built, and are accepted if their version and sign are right |
| ConnectionPool.StartKeeps | Framework/GameServer/ConnectionPool.cpp:25-82 | what initPool leaves, also when a creation failed |
| ConnectionPool.StepExclusive | Framework/GameServer/ConnectionPool.cpp:104-179 | one thread at a time holds the mutex |
| ConnectionPool.StepAccounted | Framework/GameServer/ConnectionPool.cpp:104-179 | the size is the idle, the checked out and the pending connections, after every step |
| ConnectionPool.StepBounded | Framework/GameServer/ConnectionPool.cpp:136-149 | size and threads past the test stay within maxSize + T - 1, after every step |
| ConnectionPool.RunKeeps | Framework/GameServer/ConnectionPool.cpp:104-179 | all of this, and that no connection is in two places, over every interleaving |
| ConnectionPool.SizeBound | Framework/GameServer/ConnectionPool.cpp:25-179 | from initPool on, size is at most maxSize + T - 1, so at most maxSize with one thread, and exact at rest |
| ConnectionPool.NoDeadlock | Framework/GameServer/ConnectionPool.cpp:104-179 | while a call is in progress some thread can go on |
| ConnectionPool.BoundReached | Framework/GameServer/ConnectionPool.cpp:136-149 | the bound is reached for every number of threads and every maximum but zero |
| ConnectionPool.NothingAtZero | Framework/GameServer/ConnectionPool.cpp:136-149 | with a maximum of zero the size never rises |
| UserManager.CServerUserManager.GetUserItem | Framework/GameServer/ServerUserManager.cpp:28-57 | an item not in use, from the back of the free list or new, listed and mapped |
| UserManager.CServerUserManager.FindUserItem | Framework/GameServer/ServerUserManager.cpp:59-73 | the mapped item; in use and carrying the id when the map is settled |
| UserManager.CServerUserManager.DeleteUserItem | Framework/GameServer/ServerUserManager.cpp:75-105 | moves the item to the free list and erases its id cut to 32 bits; a settled map stays settled |
| UserManager.CServerUserManager.GetAgentPlayersMap | Framework/GameServer/ServerUserManager.cpp:107-125 | one more for its agent for every mapped item |
| UserManager.CServerUserManager.EnterRoom | Framework/GameServer/GameServer.cpp:1803-1870 | fetching an item and storing the id keeps the map settled if the id fits 32 bits, also when it was fetched before |
| UserManager.RunRoom | Framework/GameServer/ServerUserManager.cpp:28-105 | after any run, whatever the ids: what an id leads to, null where the ledger has nothing, the item in use of its fetch, or a recycled one; an id that fits 32 bits never leads to a recycled item |
| UserManager.LastIs | Framework/GameServer/ServerUserManager.cpp:28-101 | an id leads to a fetch exactly when it was made for the id and nothing has touched the id since |
| UserManager.RecycledExactly | Framework/GameServer/ServerUserManager.cpp:28-101 | an id leads to a recycled item exactly when it does not fit 32 bits and the item last fetched for it was given back |
| UserManager.FoundExactly | Framework/GameServer/ServerUserManager.cpp:28-101 | an item in use is found by its id exactly when no later fetch for the id and no return of an id that is cut to it has followed |
| UserManager.AlwaysFoundExactly | Framework/GameServer/ServerUserManager.cpp:28-101 | all through a run every item in use is found exactly when nobody enters under an id in use and no wide id is given back while what it is cut to is in use |
| UserManager.HiddenPlayers | Framework/GameServer/ServerUserManager.cpp:28-101 | a run of each kind after which a player in use is not found |
| UserManager.WideIdRecycled | Framework/GameServer/ServerUserManager.cpp:82-101 | with any wider id, the id of an item given back still leads to it |
| AndroidManager.CAndroidUserManager.AddAndroid | Framework/GameServer/AndroidUserManager.cpp:277-305 | a new robot joins all robots and the free ones |
| AndroidManager.CAndroidUserManager.GetFreeAndroidUserItem | Framework/GameServer/AndroidUserManager.cpp:307-322 | the robot free the longest moves to those in use; null exactly when none is free |
| AndroidManager.CAndroidUserManager.DeleteAndroidUserItem | Framework/GameServer/AndroidUserManager.cpp:324-363 | the first robot in use with the id becomes free; false exactly when there is none |
| TableManager.CGameTableManager.InitAllTable | Framework/GameServer/GameTableManager.cpp:20-69 | from any state: the tables are added and free, numbered from zero up to the first failure; the room stays numbered exactly when there were none before or none is added |
| TableManager.CGameTableManager.GetTable | Framework/GameServer/GameTableManager.cpp:157-168 | the table at the position: in a numbered room the table with the id, and null exactly when there is none |
| TableManager.CGameTableManager.FindNormalSuitTable | Framework/GameServer/GameTableManager.cpp:193-272 | the first suitable table in use, else the free one asked for, else the first free one, moved to the end of those in use; null exactly when none is suitable and none free. The answer is the table asked for exactly when one in use suits or a free one has the id, and is not the excepted one under a like condition |
| TableManager.AskedForZero | Framework/GameServer/GameTableManager.cpp:193-272 | a run in which table 0 is asked for and table 1 handed out |
| TableManager.AnyButZero | Framework/GameServer/GameTableManager.cpp:193-272 | a run in which the excepted table is handed out |
| TableManager.OpenTables | Framework/GameServer/GameServer.cpp:386-389 | asking for every id in turn puts every table of a new room in use, in order |
| TableManager.CGameTableManager.FreeNormalTable | Framework/GameServer/GameTableManager.cpp:275-287 | from any state the first table in use with the id goes out of use and the given one becomes free; in a numbered room it is the same table, and a free one stays where it is |
| IpFinder.CIpFinder.constructor | public/IPFinder.cpp:28-39 | the index bounds are the first two numbers of the file |
| IpFinder.CIpFinder.GetValue3 | public/IPFinder.cpp:164-188 | the little-endian number in three bytes, 255 for bytes past the end |
| IpFinder.CIpFinder.GetValue4 | public/IPFinder.cpp:193-217 | the same for four bytes |
| IpFinder.CIpFinder.SearchIp | public/IPFinder.cpp:104-146 | terminates on a record of the range, cut to whole records; it covers the address exactly when the range does, with the record answered otherwise |
| IpFinder.OneRecord | public/IPFinder.cpp:127-145 | in a sorted index no two records cover one address |
| IpText.IsRightIpString | public/IPFinder.cpp:483-520 | the neighbour tests come to: at least seven characters, digits and dots, no two dots together |
| IpText.IpString2IpValue | public/IPFinder.cpp:51-75 | the fields between the dots to base 256, each cut to an int by atoi, wrapped to 64 bits; zero for a refused text |
| IpText.IpValue2IpString | public/IPFinder.cpp:80-98 | the four decimal bytes, cut off at the buffer's end |
| IpText.AddressRoundTrip | public/IPFinder.cpp:51-98 | every printed address is accepted and reads back as its low 32 bits |
| IpText.PrintAndRead | public/IPFinder.cpp:51-98 | the same through the two functions |
| IpText.AddressExactly | public/IPFinder.cpp:80-98 | a text is printed for some address exactly when it is four fields, each a byte of one to three digits without a leading zero; the test accepts all of these |
| IpText.AcceptedIsAddressWhen | public/IPFinder.cpp:51-98 | a text the test accepts comes back from its value exactly when it is such a text |
| IpText.NoAddressAccepted | public/IPFinder.cpp:483-520 | seven digits, and dots at both ends: accepted and printed for no address |
| IpText.NoPlainByteAccepted | public/IPFinder.cpp:483-520 | whatever last field of digits is no plain byte is accepted all the same |
| GameReplay.AddTo | public/gameDefine.h:445-475 | the first free slot is filled, else one is added: the record grows by one at its end, the slots only when all are in use |
| GameReplay.TagGameReplay.ClearAll | public/gameDefine.h:424-442 | nothing recorded, no slot given up |
| GameReplay.TagGameReplay.AddResult | public/gameDefine.h:445-475 | one more result |
| GameReplay.TagGameReplay.AddPlayer | public/gameDefine.h:477-503 | one more player |
| GameReplay.TagGameReplay.AddStep | public/gameDefine.h:505-535 | one more step |
| GameReplay.TagGameReplay.AddDetail | public/gameDefine.h:537-562 | one more detail |

## Left out

- MongoDB, Redis, MySQL, the network library, protobuf and logging: query results, clock readings and
  library draws are parameters, and arbitrary.
- AesCipher.AesEcbCipher.Encrypt: where it does not return an error it requires at most 1023 bytes and
  room for the padded text and one byte more, as the 1024-byte buffer and the final zero do;
  `RoomExactly` says what its own test leaves open.
- AesCipher.AesEcbCipher.KeyExpansion: the branch for keys longer than 24 bytes is dead in the code
  and absent; of scRcon only the first eleven entries are used and present.
- Md5Stream.Md5Context.MD5Update: requires an input short enough that i + 64 does not wrap around
  2^32; beyond that the code reads from the start again.
- `MD5Encode32` and the printing of digests.
- Base64.CryptoDecode: requires that the loop stops before the end of what can be read, as the code
  tests nothing else, and room for what it writes.
- UrlCodec.UrlEncode: a shift count past the width of int is undefined in C++; it is taken modulo 32,
  as the usual hardware does.
- UrlLayers.Decode: bytes past the end read as zero.
- URL::Encode and the HTML codec, which lose information by design.
- public/cryptopublic.cpp, which repeats public/crypto.cpp, and the wrappers around OpenSSL.
- Weights.GetResultByWeight: requires non-negative weights whose sum fits an int.
- Generator.CRandom.RandomInt: requires min <= max and a range that fits an int. Random_Float is absent.
- StdWeight.Weight.Shuffle: the standard library's engines are not modelled; the draws are parameters in
  their ranges.
- Commission and dividend amounts are unbounded integers; 64-bit overflow is not modelled.
- DividendShares.PoolShared: scales and prices are exact reals; rounding of doubles is not modelled.
  Shares are integers in the code's doubles, and exact up to 2^53.
- CommissionRun.AlgorithmLogic.CountBets: requires a rate on file for every superior on file; without
  one the database library throws and the calculation ends.
- CommissionBound.PayoutBounded: assumes one agent, non-negative bets and rates, and tiers that
  ascend and cover every total. Where a superior's rate is below a child's, the pair is skipped and the sum does not
  telescope.
- Reading the tables and writing the result rows; the nickname and superior columns of the dividend rows.
- Framing.CheckRequest: the code takes the checksum before it compares the length, over as many bytes as
  the header says; the answer does not depend on it, and the bytes past the frame are not modelled.
- Framing.SendData: requires a buffer that holds both headers and has at most 65535 bytes, the most its
  16-bit length field can say.
- The dispatch by mainId and subId after the test, and the byte order of peekInt16, taken as written.
- ConnectionPool.SizeBound: connections are only given back by callers that hold them; DestoryConnPool
  runs in the destructor and is absent, as are exceptions of setSchema.
- UserManager.CServerUserManager.GetUserItem: calls do not interleave; the size test outside the lock is
  not modelled, nor is failed allocation.
- TableManager.CGameTableManager.FindNormalSuitTable: CanJoinTable is the set of tables that would let the
  player in; seating, scoring and the counting of players are absent.
- TableManager.OpenTables: for rooms of at most 65535 tables, since the id 0xFFFF asks for any table.
- IpFinder.CIpFinder.SearchIp: requires bounds in order, as their unsigned difference wraps otherwise; a
  missing file answers zero in the code and is absent here.
- IpText.IpString2IpValue: atoi is undefined for numbers that fit no int; the GNU C library's result on
  64 bits is taken. Null arguments are absent.
- Reading of country and location names, locale conversion and export in IPFinder.cpp.
- The cache in public/TaskService.cpp, and the INI, path and database helpers, and duplicate headers.
