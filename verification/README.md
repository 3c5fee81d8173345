# Limb arithmetic, dispatcher, cipher modes and byte formats

This project models four parts of the library in Dafny and proves what they promise.

- **Numbers in limbs.** A number is a vector of limbs below a base b = 2^biL, and means the sum of
  limb i times b^i (`LimbVectors.Val`). The routines of `bignum_core.c` are methods over arrays that
  are overwritten in place, each proved against that meaning: multiply-accumulate, Montgomery
  multiplication and exponentiation with a window, and the constant-time binary GCD with its fixed
  number of iterations. `bignum.c` adds sums and differences with signs, long division, the modular
  inverse for odd and even moduli, and radix strings.
- **The task dispatcher.** `DispatcherModel` is a state machine with one atomic step for every region
  that the code runs under its lock; `DispatcherInvariants` and `DispatcherProofs` hold what every
  step keeps, `DispatcherTheorems` what holds after every run, `DispatcherAnswers` which answer each
  request gets, and `DispatcherEffects` what each event does to slots, signals and senders.
  `Dispatcher.NanoDispatcher` is the code over a slot array and a linked queue, each of whose handlers
  is proved to take the step of the state machine. `AioFreeList` does the same for the free-list
  handshake of `aio.c`.
- **Cipher modes** over any permutation of 16-byte blocks: CBC with padding in a streaming context,
  XTS with ciphertext stealing, CCM in a streaming context. What comes out is told block by block and
  byte by byte, with nothing but the cipher, its inverse and exclusive or; `CcmFormat` describes the
  string that CCM authenticates by what it decodes to.
- **Byte formats** written and read through moving positions: DER and Base64. `DerForms` and
  `Base64Text` describe the accepted bytes and texts without reading them.

Times, the network, allocation and the calls into R and NNG are parameters or left out, as listed
below. The constant-time selections of the library are ordinary conditionals.

A method named beside a function or predicate is proved equal to it; the lemmas about that function
say what it promises. Statements about a run of the dispatcher are about `After(Init(host), run)` for
every legal `run`.

## Model

| member | source | states |
|---|---|---|
| MulAddStep.MulAddDouble | src/mbedtls/library/bn_mul.h:944-958 | One multiply-accumulate step on a double limb loses nothing: c' b + d' = s m + c + d, with both results below b |
| MulAddStep.MulAddHalf | src/mbedtls/library/bn_mul.h:962-984 | The form with half limbs keeps the same equation, carries between the halves included |
| BignumCore.AddIf | src/mbedtls/library/bignum_core.c:365-384 | X + carry b^n is the old X plus A if the condition holds, and the old X if not; limbs outside stay |
| BignumCore.Sub | src/mbedtls/library/bignum_core.c:386-401 | A + borrow b^n = B + X |
| BignumCore.Mla | src/mbedtls/library/bignum_core.c:403-435 | D + carry b^dlen is the old D plus S m for any two lengths, with a carry that runs on past the end of S |
| BignumCore.LtCt | src/mbedtls/library/bignum_core.c:118-135 | The scan from the top answers whether A < B as numbers |
| Montgomery.MontmulInit | src/mbedtls/library/bignum_core.c:448-459 | The Newton iteration ends with mm N[0] = -1 modulo b for every odd N[0] and every word size that is a power of two and at least 8 |
| Montgomery.Montmul | src/mbedtls/library/bignum_core.c:461-491 | For odd N and B at most N the interleaved loop leaves X < N with X b^n = A B modulo N; no carry is lost and the last selection subtracts N exactly when it must |
| ExpMod.AreasFit | src/mbedtls/library/bignum_core.c:589-599 | Table, selected entry and scratch area fit into the working limbs, whatever bit the scan starts from |
| ExpMod.PrecomputeWindow | src/mbedtls/library/bignum_core.c:601-628 | Table entry w represents the base to the power w, for every w below the window size |
| ExpMod.CalcFirstBit | src/mbedtls/library/bignum_core.c:631-663 | On both paths all bits from the starting position up are zero, so that none is skipped |
| ExpMod.ExpModOptionallySafe | src/mbedtls/library/bignum_core.c:690-754 | X ends below N and represents a^E modulo N, for exponents of every length, every window size, and on the public and the secret path |
| ExpMod.SameLimbs | src/mbedtls/library/bignum_core.c:631-754 | Two vectors of limbs that both meet that postcondition are equal: the public scan, which skips leading zero bits, and the secret one leave the same X |
| MpiExpMod.ExpModMpi | src/mbedtls/library/bignum.c:1320-1400 | For a base that is not negative the result is A^E mod N; errors exactly for an even modulus or sizes above the limit |
| ShiftRight.ShiftR | src/mbedtls/library/bignum_core.c:284-316 | Shifting limbs and then bits in place divides by 2^count, rounding down |
| BitLength.CoreBitlen | src/mbedtls/library/bignum_core.c:54-67 | The scan from the top limb gives the number of bits of the number |
| BinaryGcd.StepKeepsGcd | src/mbedtls/library/bignum_core.c:903-926 | A step keeps u <= v, an odd one among them, and exactly the common divisors of A and N |
| BinaryGcd.StepShrinks | src/mbedtls/library/bignum_core.c:903-926 | Until u = 0, each step makes the measure smaller: the bits of the smaller of u and v - u, plus those of their gap for odd v and of the larger one for even v |
| BinaryGcd.MeasureBound | src/mbedtls/library/bignum_core.c:896-903 | The measure starts at no more than bits(A) + bits(N), so that the fixed iteration count reaches u = 0 |
| BinaryGcd.StepKeepsCoefficients | src/mbedtls/library/bignum_core.c:903-926 | The step keeps r A = u and q A = v modulo N with r, q < N |
| GcdModinv.SubModLimbs | src/mbedtls/library/bignum_core.c:843-852 | The limbs of X - Y modulo N for X, Y < N |
| GcdModinv.Div2ModOdd | src/mbedtls/library/bignum_core.c:854-863 | Adding N where X is odd, shifting, and restoring the carry gives the half of X modulo N |
| GcdModinv.GcdModinvOdd | src/mbedtls/library/bignum_core.c:865-945 | For every odd N and A <= N the loop with its fixed count ends with G = gcd(A, N), and, for N > 1, I < N with I A = gcd(A, N) modulo N |
| MpiSum.Copy | src/mbedtls/library/bignum.c:218-255 | The copy has the value of the original, whatever lengths both had |
| MpiSum.AddAbs | src/mbedtls/library/bignum.c:808-855 | On limbs that are grown and overwritten in place the absolute values are added; the carry may make X longer; X may be A, B or both |
| MpiSum.SubAbs | src/mbedtls/library/bignum.c:857-898 | The difference of the absolute values, or the error exactly when it is negative; X may be A, B or both |
| MpiSum.CmpAbs | src/mbedtls/library/bignum.c:714-747 | The comparison of limbs, leading zeros skipped, is the one of the numbers |
| MpiSum.AddSub | src/mbedtls/library/bignum.c:900-926 | A + B or A - B as signed numbers, with X any of the operands |
| WordDivision.IntDivInt | src/mbedtls/library/bignum.c:1038-1122 | The division by half limbs gives quotient and remainder of (u1 b + u0) / d whenever u1 < d, and all ones otherwise |
| MpiDivision.EstimateDigit | src/mbedtls/library/bignum.c:1180-1200 | After the correction with two limbs the estimated digit is the true digit or one more |
| MpiDivision.NextDigit | src/mbedtls/library/bignum.c:1180-1212 | So the single add-back leaves the true digit, and a remainder below the shifted divisor |
| MpiDivision.DivMpi | src/mbedtls/library/bignum.c:1124-1236 | For B other than 0: A = Q B + R, R smaller than B in absolute value, and R zero or of the sign of A; the error for B = 0 |
| MpiDivision.DividedUnique | src/mbedtls/library/bignum.c:1124-1236 | Those three conditions leave no other Q and R |
| MpiDivision.ModMpi | src/mbedtls/library/bignum.c:1253-1274 | The remainder in 0 to B - 1, and the errors for B < 0 and B = 0 |
| MpiInverse.GcdModinvOddMpi | src/mbedtls/library/bignum.c:1416-1477 | The wrapper refuses exactly A < 0, A > N, even N, and N = 1 with an inverse wanted |
| MpiInverse.GcdOfOddParts | src/mbedtls/library/bignum.c:1479-1520 | The odd parts' gcd times the common power of two is the gcd |
| MpiInverse.GcdMpi | src/mbedtls/library/bignum.c:1479-1520 | G is the gcd of any two numbers, zero and negative ones included |
| MpiInverse.InvModOdd | src/mbedtls/library/bignum.c:1561-1585 | For odd N > 1 an inverse exactly when gcd(A, N) = 1 |
| MpiInverse.InvModEven | src/mbedtls/library/bignum.c:1587-1642 | The route through the inverse of N modulo A gives the inverse of A for an even modulus |
| MpiInverse.InvMod | src/mbedtls/library/bignum.c:1644-1659 | For N > 1 it succeeds exactly when gcd(A, N) = 1, with X in 0 to N - 1 and A X = 1 modulo N |
| MpiInverse.InverseUnique | src/mbedtls/library/bignum.c:1644-1659 | There is only one such X |
| RadixStrings.ReadString | src/mbedtls/library/bignum.c:376-456 | The value and sign of a string of digits, and the errors for a wrong radix and a wrong character |
| RadixStrings.DigitsAre | src/mbedtls/library/bignum.c:376-395 | The digits of a radix are the first so many of 0 to 9 and A to F or a to f, each with its place as value, and no other character is one |
| RadixStrings.WriteString | src/mbedtls/library/bignum.c:458-564 | With the length that it asks for, the digits, sign and final zero are written and the inner too-small error cannot happen; with less, the error and the length |
| RadixStrings.BodyFits | src/mbedtls/library/bignum.c:491-540 | The length asked for covers every value in every radix from 2 to 16 |
| RadixStrings.ReadWritten | src/mbedtls/library/bignum.c:397-564 | What is written for a value reads back as that value with its sign |
| RadixStrings.RoundTrip | src/mbedtls/library/bignum.c:397-564 | Asking for the length, writing and reading, with the text that is in the buffer in between |
| DispatcherProofs.ApplyKeeps | src/dispatcher.c:624-985 | Every locked step keeps the whole invariant: counters, conservation, arrival order, barrier, replies, senders, work conservation |
| DispatcherTheorems.AssignedInArrivalOrder | src/dispatcher.c:226-247 | If a request was assigned, every request accepted before it and not cancelled was assigned earlier |
| DispatcherTheorems.WaitingMeansNoneEligible | src/dispatcher.c:801-841 | While tasks wait, a daemon is idle only if it was served in the current sync generation; this is the exact form of work conservation, paired with the next row |
| DispatcherTheorems.IdleBehindBarrier | src/dispatcher.c:801-812 | The stronger claim, that no daemon is idle while a task waits, is false: a run of five events ends with one idle daemon and one ordinary task waiting |
| DispatcherTheorems.CancelledNeverAssigned | src/dispatcher.c:772-799 | A request cancelled in the queue is never assigned |
| DispatcherTheorems.EveryContextInOnePlace | src/dispatcher.c:673-799 | Every accepted context is at all times in exactly one of: the queue, a busy slot, a reply holder, closed, or in hand between the two regions of a disconnect |
| DispatcherTheorems.NoContextClosedTwice | src/dispatcher.c:386-424 | No context is closed twice |
| DispatcherTheorems.CountersAgree | src/dispatcher.c:179-247 | Queue length, queued bytes, executing tasks and connected daemons are what they count |
| DispatcherTheorems.ReplyReachesItsRequest | src/dispatcher.c:736-768 | A reply goes to the context that the daemon was last assigned before the reply, although draining may have filled the slot again |
| DispatcherTheorems.StoppedAssignsNothing | src/dispatcher.c:704-841 | Once stopped, no step accepts or assigns a request |
| DispatcherTheorems.SyncBarrier | src/dispatcher.c:307-323 | Between a sync task for a pipe and that pipe's next task, an ordinary task for another pipe has closed the generation |
| DispatcherTheorems.OneSyncPerGeneration | src/dispatcher.c:801-812 | A slot gets at most one sync task in a sync generation |
| DispatcherTheorems.NoSyncNoServed | src/dispatcher.c:194-194 | With no sync on, every slot's generation is older than the current one |
| DispatcherTheorems.ShutdownClosesAll | src/dispatcher.c:845-923 | After shutdown every context that was ever open is closed exactly once, and every sender that was made is freed exactly once |
| DispatcherAnswers.ClosedHadItsAnswer | src/dispatcher.c:386-447 | In every run a closed context was sent a reply or a connection reset, or was cancelled in the queue, or was taken in hand after the stop, and only one of these |
| DispatcherAnswers.AnsweredOnce | src/dispatcher.c:386-447 | No context is answered twice, and none counts as late while the dispatcher runs |
| DispatcherAnswers.NoRequestForgotten | src/dispatcher.c:673-799 | While it runs, every accepted request waits, is worked on, was cancelled, was answered, or is about to be sent the reset |
| DispatcherAnswers.ResetIsSent | src/dispatcher.c:693-698 | A context taken in hand before the stop is sent the reset and held for it, and is not closed |
| DispatcherAnswers.LateIsClosed | src/dispatcher.c:693-698 | One taken in hand after the stop is closed with nothing sent |
| DispatcherAnswers.HarvestSparesBusy | src/dispatcher.c:386-404 | Sending an answer closes exactly the holders whose sends are done; the busy ones stay held |
| DispatcherEffects.SlotsComeAndGo | src/dispatcher.c:624-768 | A pipe gets a slot exactly by connecting to a running dispatcher and loses it exactly by disconnecting or by a last reply |
| DispatcherEffects.OthersStay | src/dispatcher.c:201-210 | When a pipe leaves, the slots of all others stay as they were |
| DispatcherEffects.InitMakesLive | src/dispatcher.c:261-284 | A daemon whose initialization succeeds is past it and counted as connected |
| DispatcherEffects.DisconnectTakesContext | src/dispatcher.c:673-691 | A disconnect takes the context of a busy daemon in hand with the value of `stopped` read under the lock |
| DispatcherEffects.CancelSignals | src/dispatcher.c:960-985 | A cancellation signals the first busy daemon that works on that id, unless stopped, and touches nothing else |
| DispatcherEffects.CancelTakesOldest | src/dispatcher.c:772-799 | With no such daemon the oldest queued task of that id is dropped and its context closed, and nobody is signalled |
| DispatcherEffects.LastReplySignals | src/dispatcher.c:736-768 | A last reply signals the daemon that sent it; any other reply signals nobody |
| DispatcherEffects.SignalDoneSendsNext | src/dispatcher.c:358-379 | When a signal is out the next waiting one is sent, in the order in which they were asked for |
| DispatcherEffects.OthersSignalNobody | src/dispatcher.c:326-356 | No other event signals a daemon |
| DispatcherEffects.HandedOnAsAsked | src/dispatcher.c:226-323 | In every run a busy daemon works under the id that its request came with, and sync tasks are assigned as sync tasks and others as others |
| DispatcherEffects.RequestAccepted | src/dispatcher.c:704-734 | A running dispatcher accepts every request under the context that waited for it |
| DispatcherEffects.PeakIsLargest | src/dispatcher.c:226-247 | The peak is the largest number of queued bytes that any event has left behind |
| DispatcherEffects.ReapFreesFinished | src/dispatcher.c:463-487 | A pass over the retired senders frees exactly those with nothing in flight |
| DispatcherEffects.OnlyReapFrees | src/dispatcher.c:444-487 | Apart from that pass and a connection after the stop, nothing frees a sender |
| TaskQueue.Inq.Cancel | src/dispatcher.c:772-799 | The walk through the linked list unlinks the first task with that id and leaves the others in order |
| Dispatcher.NanoDispatcher.RemoveDaemon | src/dispatcher.c:201-210 | The last slot moves into the gap of the array, and the counters follow |
| Dispatcher.NanoDispatcher.Drain | src/dispatcher.c:816-841 | The loop hands tasks to eligible daemons as the state machine's step does |
| Dispatcher.NanoDispatcher.ReplySend | src/dispatcher.c:386-424 | Finished holders are closed and the new reply is held |
| Dispatcher.NanoDispatcher.UnlinkRetired | src/dispatcher.c:463-487 | The retired senders that have nothing in flight are freed, the others stay in order |
| Dispatcher.NanoDispatcher.HandleConnect | src/dispatcher.c:624-671 | A connection takes exactly the step of the state machine |
| Dispatcher.NanoDispatcher.HandleInit | src/dispatcher.c:261-284 | So does the end of an initialization, with success or without |
| Dispatcher.NanoDispatcher.HandleHostRecv | src/dispatcher.c:704-734 | So does a request of the host, assigned at once or queued |
| Dispatcher.NanoDispatcher.HandleDaemonRecv | src/dispatcher.c:736-768 | So does a daemon's reply, which drains the queue before the reply is sent |
| Dispatcher.NanoDispatcher.HandleDisconnectTake | src/dispatcher.c:673-702 | The first region of a disconnect removes the slot and takes its context in hand |
| Dispatcher.NanoDispatcher.HandleDisconnectReply | src/dispatcher.c:673-702 | The second region takes the step of the state machine; the rows on `DispatcherAnswers` say what that does to the context |
| Dispatcher.NanoDispatcher.Cancel | src/dispatcher.c:960-985 | A cancellation signals the daemon that works on the task, or else drops it from the queue |
| Dispatcher.NanoDispatcher.Shutdown | src/dispatcher.c:845-923 | The loops over slots, holders, queue and senders do what `DispatcherTheorems.Shutdown` says |
| AioFreeList.FreedOnceAfterBoth | src/aio.c:22-76 | Over every run an aio is freed at most once, and only after its completion and its finalizer |
| AioFreeList.CompletionFreesNothing | src/aio.c:22-76 | No aio is freed inside a completion |
| AioFreeList.ShutdownFreesAll | src/aio.c:22-76 | After a shutdown every completed and finalized aio has been freed exactly once |
| AioFreeList.FinalizerEmptiesList | src/aio.c:22-76 | A finalizer frees all that wait on the list |
| AioFreeList.FreeList.Complete | src/aio.c:22-76 | The mode flags and the linked list take the step of that state machine |
| Cbc.CryptCbc | src/mbedtls/library/aes.c:950-1010 | The block loop writes the chained blocks into the buffer and leaves the next chaining value in the iv |
| Cbc.ChainBlock | src/mbedtls/library/aes.c:950-1010 | Block j of the output is E(in(j) ^ out(j - 1)) when encrypting and D(in(j)) ^ in(j - 1) when decrypting, with the iv before the first |
| Cbc.DecryptUndoes | src/mbedtls/library/aes.c:950-1010 | Chained decryption undoes chained encryption over any permutation, and both leave the same chaining value |
| Padding.GetPadding | src/mbedtls/library/cipher.c:793-949 | In the three modes that mark their length a bad padding is reported exactly when the block is padded for no data length, and otherwise the block is padded for the length found; with zeros the length found ends at the last byte that is not zero |
| Padding.PaddedIs | src/mbedtls/library/cipher.c:780-949 | What a padded block is in each mode, byte by byte |
| Padding.WrittenIsRead | src/mbedtls/library/cipher.c:780-949 | A written padding is read back: always for the three modes that mark their length, and for zeros exactly when the data does not end in a zero byte |
| CipherStream.CipherContext.Update | src/mbedtls/library/cipher.c:616-685 | What is out is the chaining of what was fed, up to the last incomplete block, or when decrypting with padding up to the last block, which is held back even if complete |
| CipherStream.CryptAll | src/mbedtls/library/cipher.c:548-1050 | However the input is cut, the outputs of update and finish are the one-shot result; a decryption fails exactly for an input that is not whole blocks, an empty one with a padding mode, and a last block that is padded for no length |
| CipherStream.Encrypts | src/mbedtls/library/cipher.c:952-1050 | Encryption chains the message followed by a padding of 1 to 16 bytes that fills its last block; without a padding it fails exactly for a length that is not whole blocks |
| CipherStream.DecryptFails | src/mbedtls/library/cipher.c:952-1050 | The one-shot decryption fails exactly in the cases named for CryptAll |
| CipherStream.Decrypts | src/mbedtls/library/cipher.c:952-1050 | What decrypts is the chained decryption without the padding of its last block |
| CipherStream.OneShotUndone | src/mbedtls/library/cipher.c:952-1050 | Decrypting gives the message back: always for PKCS7, one-and-zeros and zeros-and-length; with zero padding exactly when the last incomplete block does not end in a zero byte |
| CipherStream.PiecesUndone | src/mbedtls/library/cipher.c:548-1050 | Encrypting in any pieces and decrypting in any other pieces gives the message back |
| XtsTweak.NextTweakIsTimesX | src/mbedtls/library/aes.c:1020-1033 | The shift of the two words is multiplication by x in the field of 2^128 elements |
| XtsTweak.NextTweakBytes | src/mbedtls/library/aes.c:1020-1033 | Byte by byte, the first byte being the lowest: each moves up by one bit and takes the top bit of the byte below, and the bit that leaves comes back as 0x87 |
| Xts.CryptXts | src/mbedtls/library/aes.c:1038-1116 | Every full block of the output is E(in ^ T(j)) ^ T(j), or with D, where T(0) is the encrypted unit number; of the last two blocks encryption uses the tweaks in order and decryption the later one first; errors exactly for lengths below 16 bytes and above 2^20 blocks, with nothing written |
| Xts.UnitFullBlocks | src/mbedtls/library/aes.c:1062-1087 | Each full block that gives up no bytes, in both directions, with any succession of tweaks |
| Xts.UnitLastTwo | src/mbedtls/library/aes.c:1066-1113 | The two blocks of the stealing, and which tweak each takes in either direction |
| Xts.DataUnitUndone | src/mbedtls/library/aes.c:1038-1116 | Decryption undoes encryption for every length from one block on, over any permutation and any succession of tweaks |
| Ccm.CcmContext.SetLengths | src/mbedtls/library/ccm.c:210-231 | Lengths before or after the nonce: the code starts when both are there, with the errors of the standard's limits |
| Ccm.CcmContext.UpdateAd | src/mbedtls/library/ccm.c:233-299 | A piece of associated data enters the code, and is refused exactly when it is more than was announced |
| Ccm.CcmContext.Update | src/mbedtls/library/ccm.c:301-405 | A piece of the message comes out under the key stream at its place and enters the code, and is refused exactly when it is more than was announced or does not fit |
| Ccm.CcmContext.Finish | src/mbedtls/library/ccm.c:407-439 | Exactly when all that was announced is in, a tag and a cleared context: byte i of the tag is L[i] ^ E(A0)[i], where L ends the CBC encryption of the formatted string from zeros and A0 is counter block zero |
| Ccm.CcmContext.AuthCrypt | src/mbedtls/library/ccm.c:441-472 | Ciphertext byte i is the plaintext byte under the encrypted counter block 1 + i / 16, and the tag is described as for Finish, without the functions that compute it; the error exactly for parameters out of range |
| Ccm.CcmContext.AuthDecrypt | src/mbedtls/library/ccm.c:508-529 | The message exactly when the tag is the one so described for it; otherwise an error and an output of zeros |
| Ccm.OpenedSealed | src/mbedtls/library/ccm.c:441-529 | Opening what was sealed gives the message back, with every tag length and without a tag |
| Ccm.ParametersAre | src/mbedtls/library/ccm.c:136-231 | Accepted are nonces of 7 to 13 bytes, associated data below 0xFF00 bytes, tags of 4, 6, ... 16 bytes with a message length that fits into 15 - |nonce| bytes, and empty tags in the star modes |
| CcmFormat.TagIs | src/mbedtls/library/ccm.c:150-433 | The computed tag is the described one, with the formatted string described by what it decodes to |
| CcmFormat.FormatsUnique | src/mbedtls/library/ccm.c:150-299 | Two inputs with the same formatted string are equal: nonce, tag length, associated data and message |
| CcmFormat.FormatsOnce | src/mbedtls/library/ccm.c:150-299 | An input has one formatted string only |
| CcmFormat.NeverCounter | src/mbedtls/library/ccm.c:150-203 | No formatted string begins with a counter block of any nonce and number |
| CcmFormat.StreamIs | src/mbedtls/library/ccm.c:380-394 | Byte i of the stream is the input byte under byte i % 16 of the encrypted counter block 1 + i / 16 |
| CcmFormat.CounterIs | src/mbedtls/library/ccm.c:196-204 | A counter block is the flags q - 1, the nonce, and the number in q bytes, big end first |
| Ccm.CryptPieces | src/mbedtls/library/ccm.c:233-439 | Ciphertext and tag do not depend on how associated data and message are cut |
| CcmSpec.CountValue | src/mbedtls/library/ccm.c:388-394 | The counter bytes count up, so that no two blocks of a message share a counter |
| Base64.Encode | src/mbedtls/library/base64.c:53-115 | The characters of the bytes with padding and a final zero, or the error and the length that is needed |
| Base64Text.AlphabetIs | src/mbedtls/library/base64.c:27-38 | The character of a value is the one at that place in the alphabet of RFC 4648, section 4; the padding is an equals sign |
| Base64Text.ValuesAre | src/mbedtls/library/base64.c:40-51 | A character has a value exactly if it is in the alphabet, and then its place |
| Base64Text.EncodedAs | src/mbedtls/library/base64.c:81-109 | Each four characters are the same number as their three bytes, with zeros after the end of the bytes; characters without a byte are padding |
| Base64.Decode | src/mbedtls/library/base64.c:117-215 | Accepts exactly the texts of `Base64Text.TextForm` whose digits and padding fill up groups of four with no digit alone in one, and writes the bytes of those digits, as many as were counted before; the error for a short buffer |
| Base64Text.AcceptedTexts | src/mbedtls/library/base64.c:117-177 | Reading accepts exactly the texts told character by character: white space only where it may be, at most two padding characters and no digit after one |
| Base64Text.GroupedAs | src/mbedtls/library/base64.c:186-208 | Each three bytes are the same number as their four digits |
| Base64Text.GroupedRest | src/mbedtls/library/base64.c:186-208 | Of a rest of two or three digits the lowest four or two bits are left out |
| Base64Spec.DecodingUndoesEncoding | src/mbedtls/library/base64.c:53-215 | The encoding of any bytes, with line breaks put in anywhere, decodes to those bytes |
| Base64.RoundTrip | src/mbedtls/library/base64.c:53-215 | Encode and Decode one after the other, with the text that is in the buffer in between |
| Der.LengthReads | src/mbedtls/library/asn1parse.c:25-56 | A length below 2^32 in its written form reads back, using up exactly the written bytes |
| Der.LengthShortest | src/mbedtls/library/asn1write.c:24-54 | No accepted form of a length is shorter than the written one |
| DerForms.LengthWritten | src/mbedtls/library/asn1write.c:24-54 | The written length is a form of the length as told without parsing, and no form of it is shorter |
| DerForms.NumFront | src/mbedtls/library/asn1parse.c:43-48 | The first byte of a number is the most significant |
| Der.IntReads | src/mbedtls/library/asn1parse.c:98-136 | The content of an integer of at most 31 bits reads back |
| DerForms.IntRead | src/mbedtls/library/asn1parse.c:109-136 | Any number of leading zeros, four significant bytes and a clear top bit amount to a number of at most 2^31 - 1 |
| DerForms.IntWritten | src/mbedtls/library/asn1write.c:194-216 | The written content has a clear top bit and stands for the number, and no such content is shorter |
| Der.MpiReads | src/mbedtls/library/asn1parse.c:153-169 | The content of a non-negative number of any size reads back |
| Der.ContentBits | src/mbedtls/library/asn1write.c:299-324 | The bits of the content are the given ones, and the unused bits are zero |
| DerForms.UnusedBits | src/mbedtls/library/asn1write.c:299-324 | The first byte says how many of the bits after it are not used |
| Der.BitsRead | src/mbedtls/library/asn1parse.c:172-200 | A bit string reads back with its number of unused bits |
| Der.ElementsRead | src/mbedtls/library/asn1parse.c:202-247 | A sequence of elements splits into those elements |
| DerForms.ElementsAre | src/mbedtls/library/asn1parse.c:202-247 | Elements are read exactly from the strings that are forms of them one after the other |
| DerWrite.WriteLen | src/mbedtls/library/asn1write.c:24-54 | The shortest form of the length in front of what is there, or the error with nothing written |
| DerWrite.AnswerIs | src/mbedtls/library/asn1write.c:24-100 | A value is written exactly when its length has a form and tag, length and content fit into the room, and the answer is how much they take |
| DerWrite.WriteTaggedInt | src/mbedtls/library/asn1write.c:194-216 | The encoding of the integer in front of what is there, written backwards and never before the start; the error exactly when it does not fit |
| DerWrite.WriteMpi | src/mbedtls/library/asn1write.c:101-132 | The same for a non-negative number of any size |
| DerWrite.SizeIsBytes | src/mbedtls/library/bignum.c:371-374 | The size from the bit length is the number of bytes of the shortest form |
| DerWrite.WriteBitstring | src/mbedtls/library/asn1write.c:299-324 | The same for a bit string, its unused bits cleared |
| DerWrite.WriteNamedBitstring | src/mbedtls/library/asn1write.c:260-297 | The same after dropping exactly the trailing zero bits |
| DerParse.GetLen | src/mbedtls/library/asn1parse.c:25-56 | The cursor reads exactly the forms of a length whose content fits before the end, and answers which error else |
| DerParse.GetTaggedInt | src/mbedtls/library/asn1parse.c:98-136 | Behind a tag and a length with content c it succeeds exactly when c is not empty, its top bit is clear and its number is at most 2^31 - 1; the value is then that number and the cursor stands at the end of c |
| DerParse.GetMpi | src/mbedtls/library/asn1parse.c:153-169 | Behind a tag and a length the content is read as an unsigned number of any size |
| DerParse.GetBitstring | src/mbedtls/library/asn1parse.c:172-200 | Behind a tag and a length it reads the number of unused bits, at most 7, and the bytes, which must end at the end; each other case has its error |
| DerParse.TraverseSequenceOf | src/mbedtls/library/asn1parse.c:202-247 | It finishes exactly when a sequence header covers the rest and the content is the forms of elements that all pass; the callback then got the selected ones, in order |
| DerParse.FinishesExactly | src/mbedtls/library/asn1parse.c:202-247 | It ends without an error exactly when the bytes are elements whose tags pass and which the callback takes, and the callback gets exactly the selected ones, in order |
| DerParse.FinishesOnForms | src/mbedtls/library/asn1parse.c:202-247 | The same told by the forms of the elements, without reading |
| DerParse.SelectedAre | src/mbedtls/library/asn1parse.c:228-236 | Selected is every element that passes the second test, as often as it occurs, and no other |
| DerParse.WrittenVisited | src/mbedtls/library/asn1parse.c:202-247 | The written form of elements that pass is visited as those elements |

## Left out

- Word sizes: biL is a power of two and at least 8; b is 2^biL throughout.
- `core_exp_mod` and `gcd_modinv_odd` get one buffer T that they cut into areas; here the areas are separate arrays, and `ExpMod.AreasFit` shows that they fit into T.
- Aliasing in `bignum_core.c`: the arrays written are different from those read, where the library also allows some of them to be the same. `MpiSum` does allow it.
- MpiDivision.DivMpi: holds the dividend and the divisor as values and only the quotient as limbs, so the shifts, products and differences on their limbs are not part of it; sums and differences on limbs are in `MpiSum`, shifts in `ShiftRight`, products in `BignumCore.Mla`.
- MpiInverse.InvMod: calls the limb-level GCD on limbs made from values and does the additions and products around it on values.
- MpiExpMod.ExpModMpi: a negative base and a negative exponent are not modelled; the result for N = 1 with an empty exponent is the 1 that the code answers.
- RadixStrings.WriteString: divides a value by the radix, where the library divides limbs; `mod_int` and `div_int` are not modelled on limbs.
- RadixStrings.ReadString: multiplies and adds values, and for radix 16 places nibbles by value.
- The double-limb branch of `mbedtls_int_div_int`: one machine division; the branch with half limbs is modelled.
- The limits on the number of limbs and failures of memory allocation.
- The eightfold unrolled loop of `core_mla`, assembly, and the table-free timing of selections.
- `fill_random`, prime generation and everything probabilistic.
- Dispatcher: the bytes of tasks, replies and signals, the random streams of initialization, the wait of the host for room in the queue, and `nng_ctx_open` failing. It is assumed that a pipe connects once and is removed after that, and that closing the socket waits for the pipe callbacks.
- Dispatcher.NanoDispatcher.Shutdown: is called, as in the library, only when no disconnect is between its two regions.
- `src/aio.c` outside `nano_list_do`.
- CipherStream.CipherContext.Update: the check that input and output do not overlap, the other modes of operation, and block sizes other than 16.
- Xts.CryptXts: overlapping input and output buffers.
- Ccm.CcmContext.Update: an error of the block cipher, and the calls in an order that the context refuses, apart from nonce and lengths in either order.
- Cipher keys, key schedules and the block ciphers themselves: any pair of functions of which one undoes the other.
- DerWrite.WriteTaggedInt: negative integers, which the library writes without a sign extension.
- DerWrite.WriteMpi: negative numbers, and the step from limbs to bytes, which works on the value.
- DerWrite.WriteLenAndTag: the conversion of the length written to `int`.
- DerParse.TraverseSequenceOf: the masks are any two tests on tags, and the callback any function of the element.
- Base64.Decode: the case of a null destination, which asks for the length only.
- Timing and side channels.
