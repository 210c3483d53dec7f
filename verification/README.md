# A model of otpd's core, with proofs

otpd answers one question: is this one-time passcode the one this user's token shows now? To
answer it safely it keeps state for each user, under a lock, on disk or at a remote state
manager, and it must never lose an update of that state or accept one event of a token twice.
This project models the parts that make that work and proves what they promise.

| files | what they model |
|---|---|
| Words, HelixBlock, HelixKey, HelixCipher | the Helix cipher as functions: block, key mixing, stream, MAC, the plain key schedule of the paper and the optimized one of the code |
| Helix | helix.c itself: contexts and buffers updated in place, proved against those functions |
| HelixPath, HelixVector | a published test vector, computed block by block |
| Bytes, HexText, TokenState, HotpCounter, HotpCard | octets, the hexadecimal converters, the token state, the 64-bit event counter and the HOTP card |
| Verify, Outcomes, VerifyRuns, BackOff, Recovery, Replay | one call to verify as a function and as the method it is, and exactly when it succeeds and counts; whole runs of calls |
| StateText, StateLocal | the state line, its in-place parser and printer, the state file, get and put in local mode |
| Sequences, LockSpec, Lock, LockTable, Uhash | the lock table: what it means, one chain of linked nodes, the 64 chains |
| WorkThreads, LockOrder, TableThreads | any interleaving of threads on any users, on the map of locks and on the chains, and the order of locks in which the chains can follow |
| Nonce, GsmReply, GsmdClient, Protocol | sequence numbers, the checks on a reply, the request loop, and all clients with the network |
| Failover, Ping, SecondPing | the failover thread as a timed machine and as its loops; the message it sends |
| Resync | the two-passcode search of resynctool |
| GsmdIndex | the state managers by name, and the walk over them |

Code that changes things in place is modelled by classes, arrays and loops, and each such method
is proved against a specification function or states its result outright. The HOTP value of
RFC 4226 is an arbitrary function of the counter for each user. Clocks, passcodes, the outcome
of reads, writes, sends and polls, and the datagrams that arrive are parameters: the theorems
hold for all of them.

Where the code and its documentation disagree, the model follows the code, and a lemma says
exactly when the documented behaviour holds:

- lock.c keeps each chain a list whose first nodes are the held locks. lock_put follows
  last->next without a check, and it does not update first. Lock.Chain.Put says exactly when it
  follows a null pointer and when the chain stays a chain; Lock.ReleaseEarly and
  Lock.ReleaseFirst get there from lock_init. TableThreads.Carry says which runs the table
  carries out: those in which each release is of the last lock of its chain, or not of the first
  while a node is free. It is enough that no two threads, of one user or of two, are between get
  and put in one bucket at once (LockOrder.NeverSharedIsSmooth).
- cardops/hotp.c says "just increment +1". The low word is assembled in a signed int, so a set
  bit 31 fills the upper word with ones first. The lemmas of HotpCounter say when a step is plus
  one, when it goes up, and when a window does either throughout.
- helix.c computes bits 31..62 of i + 8 from a biased counter. That is right if and only if
  i + 8 < 2^32.
- resynctool looks for two consecutive passcodes but skips the counter after each hit of the
  first. It sees a pair if and only if an even number of hits comes just before. Up to the last
  counter it need not end (Resync.EndlessSearch).
- failover_thread.c sets up its request once and encrypts it in place, so from the second round
  on it can send something else. Ping has the exact condition, and SecondPing a key for which it
  does. A comment there says that the backup is kept for the timeout and a second; after
  a fatal send or poll error and a late signal it can be the failover timeout instead. Failover.ConfigurationKeepsPromise says which configurations
  keep every request safe from that.
- otpd.conf counts consecutive failures. A passcode of the wrong length fails before the state is
  read and is not counted. Outcomes.CountsExactly has the exact condition for a call to count,
  and Outcomes.FailcountIsFailures lifts it to runs.

The assumptions on runs are those the code makes silently: hold a lock for less than 24 s, have no
two threads in one bucket between get and put at once, draw fewer than 2^31 numbers, keep the clock
below 2^31, keep windows from passing an all-ones low word. A lemma shows what happens without each:
WorkThreads.OverdueHolderReplays, TableThreads.SharedBucketFaults, Nonce.NumbersDifferExactly,
Outcomes.LateClockExactly, Replay.PasscodeIsReplayed.

## Model

| member | source | states |
|---|---|---|
| HelixBlock.BlockBijective | helix.c:103-125 | For fixed key words and plaintext the 20-step update of the five state words has a two-sided inverse: undoing it gives the old state back, and every state is reached |
| HelixBlock.BlockInjectiveInPlaintext | helix.c:103-125 | For a fixed state and key words, different plaintext words lead to different states |
| Helix.Rounds | helix.c:103-125 | The 20 assignments on five registers, in place, compute exactly the block function that the bijection is about |
| Helix.NextBlock | helix.c:45-138 | One call returns the old z[0], moves z and the counter as one step of the key schedule does, and changes nothing else |
| Helix.MixKey | helix.c:192-208 | The in-place mixing of k[40] leaves in k[0..7] the eight-round Feistel of k[32..39]; x0 and x1 are zero in every round because x1[i] = -i cancels the counter |
| Helix.SetKey | helix.c:140-220 | No context for a key over 32 octets; otherwise a context, the caller's or a new one, that holds the working key and its length |
| HelixKey.UnmixUndoesMix | helix.c:196-208 | Any number of mixing rounds can be undone |
| HelixKey.MixUndoesUnmix | helix.c:196-208 | Every word list is the mix of some word list, so the rounds are onto as well |
| HelixKey.WorkingKeyInjective | helix.c:153-211 | For a fixed key length up to 32 no two keys share a working key |
| HelixKey.WorkingKeySurjective | helix.c:153-211 | Every eight words are the working key of some 32-octet key |
| Helix.ExtendNonce | helix.c:229-240 | The nonce as four little-endian words and their complements i - n[i] |
| Helix.SetX1 | helix.c:242-247 | The precomputed second key words, biased by -2^31, with 4l in the positions 1 mod 4 |
| Helix.SetNonce | helix.c:222-264 | After the call the contexts realize the optimized schedule of this key and nonce and the stream stands before the first message word |
| Helix.GenerateMac | helix.c:314-321 | Eight mixing blocks and four keystream words make the 16-octet MAC, for a message of any length mod 4 |
| Helix.CryptMessage | helix.c:292-312 | Whole words and a partial last word, in either direction and also when input and output are one region: output and state are those of the functional cipher on the old input |
| Helix.Encrypt | helix.c:280-324 | Status, ciphertext, MAC, final state and the octets left alone, for in-place and for separate buffers; -1 and no change without a key |
| Helix.Decrypt | helix.c:331-375 | The same for decryption, whose block update needs the plaintext it has just recovered |
| Helix.RoundTrip | helix.c:266-375 | helix_nonce and helix_encrypt, then helix_nonce and helix_decrypt, in one buffer with two contexts of one key: plaintext, MAC, final z and counter all come back, for every length |
| Helix.RoundTripUnderKey | helix.c:140-375 | The same from helix_setkey on: for every key of up to 32 octets and every nonce, the buffer ends as it began and both sides have one MAC |
| Helix.SealUnderKey | helix.c:140-324 | helix_setkey, helix_nonce and helix_encrypt on new contexts: the ciphertext and the MAC are those of sealing the message under the working key of these octets |
| HelixVector.SealVector | helix.c:45-324 | For the key Helix, the nonce 0123456789abcdef and the message Hello, world! they are the 13 and 16 octets of the published test vector, so constants, rotations, word order, magic number and block counts are those of the cipher |
| HelixVector.KnownAnswer | helix.c:45-324 | The same of the functional cipher with the optimized schedule, from key and nonce octets on; HelixVector.PlainVector has it with the plain one |
| HelixCipher.TagShowsMagic | helix.c:314-321 | With a block function that does nothing the tag is four times the first state word xored with 0x912d94f1 |
| HelixCipher.TagShowsLength | helix.c:314-321 | With one that copies its plaintext the tag is four times the message length mod 4 |
| HelixCipher.DecryptUndoesEncrypt | helix.c:292-312 | Decrypting a ciphertext from the same stream position yields the plaintext and the same final stream, partial last words included |
| HelixCipher.OpenUndoesSeal | helix.c:280-375 | Open of Seal is the plaintext with the same MAC and final stream, for every message length, key and nonce |
| HelixCipher.EncryptIsKeystreamXor | helix.c:292-312 | The ciphertext is the plaintext xored with the keystream of the plaintext's words, the last one zero-extended |
| HelixCipher.KeyWordsAgree | helix.c:49-97 | For i + 8 < 2^32 the biased counter and biased x1 give the key words of section 3.3 of the Helix paper |
| HelixCipher.SealAgrees | helix.c:280-324 | Over whole encryptions with i + 8 < 2^32 the optimized cipher has the ciphertext, MAC and final words of the paper's cipher, which carries an explicit block index |
| HelixCipher.OpenAgrees | helix.c:331-375 | The same for whole decryptions of whatever octets arrive |
| HelixCipher.CryptAgrees | helix.c:292-312 | In either direction and from any position: at biased counters one pass over a message has the same output and the same state words |
| HelixCipher.HighHalfExact | helix.c:65-97 | The high half of the biased counter is the paper's bits 31..62 of i + 8 if and only if i + 8 < 2^32 |
| HelixCipher.SecondKeyWordExact | helix.c:65-97 | Beyond that bound: the second key word of a block is the paper's if and only if i mod 4 is not 3 or i + 8 < 2^32 |
| HelixCipher.RunInjectiveInState | helix.c:314-321 | Different states stay different through any run of blocks with the same plaintext |
| HelixCipher.OneWordChangesFinalState | helix.c:292-321 | Two messages of one length that differ in exactly one word have different states before the MAC and after all twelve MAC blocks |
| HotpCard.NextChallenge | cardops/hotp.c:102-135 | The next challenge in place: octets assembled in a signed int, sign-extended, incremented and stored again, as one function of the 64-bit counter |
| HotpCounter.NextIsSuccessor | cardops/hotp.c:109-121 | That function is plus one if and only if bit 31 is clear or the upper word is all ones |
| HotpCounter.NextGoesUp | cardops/hotp.c:109-121 | It goes up if and only if the low word is not all ones, by one in the low word, with the upper word filled with ones once bit 31 is set; from there it wraps to zero |
| HotpCounter.AheadWraps | cardops/hotp.c:109-121 | Where a walk of n challenges past an all-ones low word ends: below its start |
| HotpCounter.WindowAscends | otp.c:485-487 | All positions of a window lie above its base if and only if the low word cannot reach all ones inside it |
| HotpCounter.WindowIsPlus | otp.c:485-487 | Position e is base + 1 + e throughout a window if and only if a condition on the base and the last position holds |
| HotpCard.ConsecutiveAfter | cardops/hotp.c:154-195 | The text recorded for one position is recognized at the next position and at no other |
| Verify.FirstMatchIsFirst | otp.c:484-547 | The search reports a position if and only if it matches and none before it does |
| Verify.FindMatch | otp.c:473-547 | The window loop, stepping one challenge buffer in place, finds that position, or fails if the card cannot compute responses |
| Verify.AuthDone | otp.c:630-662 | A success stores the matched challenge and zeroes the count; a failure counts up without wrapping and marks a null state by a negative time |
| Verify.PutOrFail | otp.c:680-686 | An answer stands only if the state manager acknowledged its state; without that the state may be stored (the acknowledgement was lost) or not, and the call is a service error |
| Verify.Verify | otp.c:251-693 | The whole call, with every early exit, is the function Decide on the stored record: same answer, same record stored or left alone |
| Outcomes.SuccessExactly | otp.c:251-693 | A call succeeds if and only if it counts, hard fail is not reached, and the passcode, the HOTP value with the PIN before or after it, first matches at a position of the user's window (or else the configured one, or the event window) that follows a recorded one in a later second or lies in the event window outside delay mode |
| Outcomes.AnswerExactly | otp.c:540-693 | When each answer is given: too many tries exactly for a right passcode in hard fail, next passcode exactly for a right one that is not let in otherwise, a user error for a wrong one, a service error for a call that is not stored for certain |
| Outcomes.StoredExactly | otp.c:251-693 | The whole stored record after any call: unchanged if it does not count; challenge, rd, count and time after a success; rd, count and time, negative if it was, after a failure; csd and mincardtime always kept |
| Outcomes.AcceptedPasscode | otp.c:261-547 | What was accepted is PIN and HOTP value, in the configured order, of the counter that the store then holds |
| Outcomes.MarkedUntilSuccess | otp.c:287-291 | Over any run a state marked by a negative time keeps the mark, with the time of its last stored attempt, until a success |
| Outcomes.FirstSuccessIsConsecutive | otp.c:308-311 | With soft fail on, the first success of a marked state is for a second consecutive passcode |
| Outcomes.CountsExactly | otp.c:251-302 | A call leaves a trace in the store if and only if the passcode has the right length, the state is there, got in time and put back, acknowledged or not, and responses can be computed where they are tried; all other calls leave the record alone |
| Outcomes.FailcountIsFailures | otp.c:630-662 | After any run the stored count is the number of counted failures since the last success, up to the value at which it stops |
| Outcomes.LateClockExactly | otp.c:289-338 | With soft fail on, the call after a success is in delay mode if and only if the clock has passed 2^31, whose times read like those of a null state; its passcode is then refused, whatever it is |
| Outcomes.WrongLengthIsFree | otp.c:249-259 | Passcodes of the wrong length, however many, leave the record as it was |
| VerifyRuns.DecideIsLawful | otp.c:251-693 | The laws of one call that the run theorems use: what success, counted failure and a lost update each do to the record |
| VerifyRuns.RunIsUnique | otp.c:251-693 | A list of attempts has exactly one run from a state, so the run theorems speak of all runs |
| VerifyRuns.AcceptedCountersIncrease | otp.c:454-693 | Over any run, with any updates and acknowledgements lost, a success is for a higher counter than an earlier one if no window since that one passes an all-ones low word on its way |
| VerifyRuns.IncreasingExactly | otp.c:454-693 | Over any run the accepted counters strictly increase, so no counter is accepted twice, if and only if no success after the first passes an all-ones low word |
| Replay.PasscodeIsReplayed | cardops/hotp.c:109-121 | Without that: a run of three calls, with a resync window of 2^31 - 1 positions, that accepts one passcode twice for one counter |
| VerifyRuns.AcceptedAboveBaseExactly | cardops/hotp.c:109-121 | An accepted counter is above the stored one if and only if the window did not pass an all-ones low word; otherwise it is below it |
| VerifyRuns.AcceptedInWindow | otp.c:457-487 | In a plain window an accepted counter lies in base + 1 .. base + 1 + eend |
| VerifyRuns.RdHoldsCandidate | otp.c:547-620 | In every reachable state rd is the text of the latest recorded match since the last success, which is computed from the history alone |
| VerifyRuns.CandidateWasRecorded | otp.c:547-620 | Names the attempt that recorded it; the stored challenge has not changed since |
| VerifyRuns.ResyncNeedsTwoConsecutive | otp.c:557-606 | A success in soft fail or beyond the event window at e follows a recorded match at e - 1 on the same challenge, nothing recorded in between, in a strictly later second than the last recorded attempt |
| BackOff.BackOffBound | otp.c:305-339 | In any failing run from count 0, m attempts past softfail that were stored and evaluated outside delay mode take at least the sum of the first m delays 64, 128, .. 2048 s |
| BackOff.EvaluatedWaited | otp.c:312-338 | A stored attempt past softfail that is not in delay mode came at least the doubling delay after the last one |
| BackOff.TotalDelayIs | otp.c:312-338 | The sum of the first m delays is 64 (2^m - 1) seconds up to the sixth and 2048 more for each one after |
| BackOff.BackOffBoundIsAttained | otp.c:305-339 | For every softfail and m a run spans exactly that sum, so the bound is the best one |
| BackOff.FastestRunExists | otp.c:305-339 | That run exists from every state with count 0 and a positive time |
| Recovery.TwoPasscodeRecovery | otp.c:454-620 | Passcodes first matching at e and then e + 1 in strictly later seconds end in success if and only if the first was accepted, or hard fail is off or not reached by counting the first |
| HexText.A2nx | xfunc.c:59-108 | Octets from hexadecimal text, in place, or -1 at the first bad digit, with the rest of the array untouched |
| HexText.X2a | xfunc.c:116-136 | Hexadecimal text and its NUL at the front of the array, nothing else changed |
| HexText.EncodeAt | xfunc.c:116-136 | Octet i is written as two digits of 0123456789abcdef, the upper four bits first |
| HexText.DecodeEncode | xfunc.c:52-136 | Reading what was written gives the octets back |
| HexText.EncodeDecode | xfunc.c:52-136 | Text is readable if and only if all its characters are hexadecimal digits, and writing it again gives it in lower case |
| HexText.ScanPrint | state.c:573-577 | What %x prints of a 32-bit value %x reads back as that value |
| HexText.PrintOfOctet | state.c:610-630 | A number below 256 is written with the digits of an octet, without a leading zero |
| HexText.ScanNegated | state.c:573-577 | A minus in front negates modulo 2^32 |
| HexText.ScanPrefixed | state.c:573-577 | A 0x in front of the digits is skipped |
| StateText.ParseUnparse | state.c:472-630 | state_parse of state_unparse's text restores every field, for every clen in 0..16 and every csd and rd within limits and free of ':' and NUL |
| StateText.ParseOfFields | state.c:472-608 | A line of version 5 for the user with six further fields is accepted if and only if the challenge is at most 16 octets in hexadecimal, csd and rd have at most 63 and 31 characters, and the last three are hexadecimal numbers; and then it is read as these fields in this order |
| StateText.ParsedHasFields | state.c:472-608 | No other line is accepted |
| StateText.UnparseIsLine | state.c:610-630 | What is printed is such a line with the record's fields in this order |
| StateText.NullExactly | state.c:484-492 | A state is null if and only if its file is missing or empty; a file over 892 characters is no state |
| StateText.ReparseIsStable | state.c:472-630 | Printing any accepted text and parsing it again gives the same state, so re-printing is stable |
| StateText.UnparseLength | state.c:610-630 | The line is longer than its header and never over 190 characters, far inside GSM_MAX_STATE_LEN |
| StateText.FileRoundTrip | state.c:632-767 | The round trip through the file, with the newline that is added on write and stripped on read |
| StateText.StateParse | state.c:472-608 | The parser that writes NULs into its buffer accepts exactly the texts of the functional parser and fills in exactly its record |
| StateText.StateUnparse | state.c:610-630 | The printer's buffer holds that line and its NUL |
| StateLocal.Directory.Read | state.c:632-705 | state_read: the file, its last newline turned into NUL or a NUL appended; -1 for an unreadable or oversized file |
| StateLocal.Directory.Write | state.c:707-789 | state_write: the new text replaces the file, or the old file stays |
| StateLocal.StateGetLocal | state.c:78-112 | Success if and only if the lock is granted and the file is readable and well formed; the lock is kept only then |
| StateLocal.StatePutLocal | state.c:214-235 | The record is in the file afterwards, readable, or the file is unchanged and the status says so; the lock is given back either way |
| StateLocal.PutThenGet | state.c:78-235 | A get that follows a successful put hands out exactly what was put, however much later |
| Lock.Chain.FindLock | lock.c:62-84 | The walk ends, finds a user if and only if the user is in the map the chain stands for, and otherwise gives the node to use next |
| Lock.Chain.Get | lock.c:86-139 | The chain stays a chain; the lock is granted if and only if it is free or 24 s old; the map is updated at that user alone; a node is made only when all are held |
| Lock.Chain.Put | lock.c:141-174 | A null pointer is followed if and only if the lock is not last and last has no successor, that is when all nodes are held; otherwise the map loses that user alone, and the chain stays a chain if and only if the lock was last or had a predecessor; if not, no list of nodes is a chain from first |
| Lock.ReleaseFirst | lock.c:158-169 | From lock_init, any three users of a chain and two releases lead to a first node from which no list of nodes is a chain |
| Lock.ReleaseEarly | lock.c:165-168 | From lock_init, any two users of a chain lock and the first to lock releases first: lock_put follows a null pointer |
| LockSpec.MapOfRemove | lock.c:141-174 | Dropping one entry of a list with distinct users drops that user from the map it stands for |
| LockSpec.HeldFor | lock.c:86-139 | After a grant the lock is refused until it is given back or 24 s have passed, and no other user's lock is affected |
| LockTable.Table.constructor | lock.c:176-192 | 64 chains, each with one free node and no held lock, no node in two chains |
| LockTable.Table.Get | lock.c:86-139 | On the whole table lock_get is Get on one map from user to grant time; every other chain is unchanged |
| LockTable.Table.Put | lock.c:141-174 | On the whole table: when lock_put faults, when it keeps the table a table, and that it removes one user from the map and leaves all other chains alone |
| LockTable.GetInBucket | lock.c:98-103 | Changing the map of one bucket is changing the map of the whole table at that user |
| Uhash.Uhash | uhash.c:47-60 | The loop computes the bucket of a name, which is below 64 |
| Uhash.BucketsOfOne | uhash.c:32-60 | The one-character names have the buckets 0 to 61 in the order of their characters, 0-9, A-Z, a-z; any other character is like 0 |
| Uhash.BucketOfTwo | uhash.c:56-57 | The bucket of two names one after the other is the exclusive or of theirs, so the order of characters does not matter |
| WorkThreads.AlwaysExclusive | lock.c:91-139 | On the map that the lock table stands for, with a clock that does not go back and locks given back within 24 s: in every reachable state of any interleaving at most one thread is between get and put of a user, locks are exactly those threads', and what a thread read is still in the file |
| WorkThreads.Serializable | state.c:78-235 | No lost update, under the same assumptions: the calls of each user, in the order they finish, are a sequential run of verify, each on what the one before stored, and the file holds what the last stored |
| TableThreads.Carry | lock.c:62-174 | Any run with no two threads at one user, on the lock table itself: it is carried out to its end, with the locks that the map grants and refuses and every chain a chain, if and only if each release is of the last user in the order of its chain, or not of the first while a node is free. At the first other release lock_put follows a null pointer, exactly when all nodes are held by then, or leaves no chain |
| LockOrder.NeverSharedIsSmooth | lock.c:141-174 | Runs in which no two threads, of one user or of two, are between get and put in one bucket are of that kind |
| TableThreads.SharedBucketFaults | lock.c:165-168 | Without that: on a table as lock_init leaves it any two users of one bucket lock, the first gives back first, and lock_put follows a null pointer |
| WorkThreads.ThreadsDoNotReplay | otp.c:665-686 | Two successes of one user on any threads are for different counters, the later for the higher, where no window of a later success passes an all-ones low word |
| WorkThreads.OverdueHolderReplays | lock.c:106-112 | The 24 s are needed: for every acceptable passcode there is an execution in which an overdue holder and its successor both accept it for the same counter |
| Nonce.Counter.Nonce32 | nonce.c:50-62 | Call i returns 2i mod 2^32 |
| Nonce.DrawnAgain | nonce.c:50-62 | Two calls return the same number if and only if a multiple of 2^31 calls lies between |
| Nonce.NumbersDiffer | state.c:315-319 | Gets and pings have even numbers, puts odd ones, and any two of the first 2^31 draws have different numbers |
| Nonce.NumbersDifferExactly | nonce.c:91-92 | All numbers of n draws and their puts differ if and only if n is at most 2^31 |
| GsmdClient.NextSeq | state.c:315-319 | A get draws a number, a put adds one to its get's |
| GsmdClient.GetThenPut | state.c:315-319 | A get and the put after it have the numbers that the protocol gives to one draw |
| GsmReply.ClassifyExactly | state.c:372-462 | A datagram counts as acknowledgement or NAK if and only if it is a whole, genuine reply with that letter to this user's request of this number; it is passed over if and only if it is a genuine one of another number; all else ends the call |
| GsmReply.ReplyArrives | state.c:372-462 | A reply as a manager writes it, a letter, a space, the name, and maybe a space and more text, arrives as what its letter says |
| GsmdClient.Gsmd | state.c:325-470 | Success if and only if, in time and before anything fatal, an acknowledgement of this very number comes; the failover thread is signalled if and only if a primary with a backup ran out the time or refused the connection and sent no NAK |
| GsmdClient.GsmdAfter | state.c:325-470 | Told by what comes in: turns without an answer, NAKs and late replies to other requests go by as long as 250 ms are left; then an acknowledgement is returned, lack of time or a refused connection fails and signals if there was no NAK, and anything else fails without a signal |
| GsmdClient.EndsHere | state.c:332-462 | The turn that ends the loop is determined by what happened, and an answer can only come there |
| GsmdClient.EndsInTime | state.c:332-462 | With turns of at most 250 ms the call does not overrun its time limit |
| Protocol.NumbersAreUnique | state.c:308-319 | Under any interleaving with at most 2^31 draws no two distinct requests share a number |
| Protocol.AckIsForThisRequest | state.c:407-442 | A datagram that passes all checks of gsmd() carries an acknowledgement given to the request just sent |
| Protocol.PutIsNotConfused | state.c:315-319 | With a network that drops, repeats, delays and reorders, a put its client believes acknowledged was acknowledged itself; no late reply to its get or to any other request can be taken for its answer |
| Protocol.ReceiveExactly | state.c:372-462 | What each datagram does to the client that receives it: accepted, waiting on, or giving up, told by its octets |
| Protocol.GetIsAccepted | state.c:308-442 | From any state, a resting client's get that is served and whose reply arrives is accepted, with the number 2n of its draw n |
| Protocol.PutIsAccepted | state.c:308-442 | And so is its put, with the number 2n + 1 |
| Failover.FailoverThread | failover_thread.c:61-386 | The nested loops and gotos take active through exactly the states of the machine, for any events; a single manager is left alone |
| Failover.PollOnce | failover_thread.c:172-353 | One turn: what sends the thread back to sleep, what restarts the failback timer, what does neither |
| Failover.FailoverNeedsSilence | failover_thread.c:169-369 | active goes from 0 to 1 only if since a signal at least fo_timeout ago no valid acknowledgement of the current number came |
| Failover.FailoverExactly | failover_thread.c:169-369 | active goes from 0 to 1 in a turn if and only if it is the first after the deadline of a signal since which no turn brought an acknowledgement of the ping or a failed send or poll |
| Failover.FailbackNeedsQuiet | failover_thread.c:169-377 | active goes from 1 to 0 only when the last timer has run out: fb_timeout after the failover or the last trouble, or fo_timeout after a wake-up that found the backup active, which needs an earlier fatal error |
| Failover.FailbackExactly | failover_thread.c:169-377 | active goes from 1 to 0 in a turn if and only if it is the first after the timer set by a failover, by trouble or by a late signal, with nothing since but interrupted sends and polls and acknowledgements; a timeout, an error or any other reply is trouble |
| Failover.BackupLastsExactly | failover_thread.c:119-384 | In every execution the backup is kept for fb_timeout if and only if fo_timeout is not shorter |
| Failover.BackupLasts | failover_thread.c:119-384 | In any execution the backup is kept for fb_timeout or for fo_timeout, and for fb_timeout if no fatal error came |
| Failover.RequestsEndBeforeFailback | config.y:1736-1736 | With fb_timeout = timeout + 1 s and no fatal error or an fo_timeout that is not shorter, every request begun on the primary before the failover and lasting at most timeout is over before failback |
| Failover.RequestsEndExactly | config.y:1736-1736 | In all executions every such request is over by failback if and only if fo_timeout is at least timeout |
| Failover.ConfiguredExactly | config.y:1691-1736 | Which timeouts are refused, and the failover and failback timeouts of the others, the default of 30 s included |
| Failover.ConfigurationKeepsPromise | config.y:1691-1736 | As a test on the configuration: if and only if the state timeout is at least twice the request timeout, as the default is |
| Failover.FatalErrorHurriesFailback | failover_thread.c:180-198 | With the shorter fo_timeout an execution goes back to the primary just that long after leaving it |
| Ping.LaterPingIsRequestExactly | failover_thread.c:101-167 | The ping is encrypted where it lies, so the primary reads the request in a later round if and only if the keystream words of all earlier rounds cancel; in the first round it always does |
| SecondPing.SecondPingIsNotRequest | failover_thread.c:101-167 | They do not always: a 32-octet key for which the first ping of stream (1, 0) is followed by something else than the request |
| Resync.CounterToChallenge | resynctool.c:145-156 | Eight shifts store the counter in network order |
| Resync.Search | resynctool.c:220-248 | The loop, which also advances its counter inside, ends with a pair if and only if it sees one, and it is the first it sees; it sees a pair if and only if an even number of hits comes just before it. With the last counter as final it can start again from zero, and it never ends if and only if it would do so twice |
| Resync.SkippedPair | resynctool.c:231-233 | A pair the loop passes over, for any two different passcodes |
| Resync.PairAfterMissIsSeen | resynctool.c:220-233 | A pair at the start or after a counter without a hit is never passed over |
| Resync.SamePasscodeIsSeen | resynctool.c:220-233 | With equal passcodes some pair is seen whenever there is one |
| Resync.Resynchronize | resynctool.c:199-252 | A line comes out if and only if both passcodes have six characters and a pair is seen; it is the state line of the first counter c with HOTP(c - 1) and HOTP(c) as entered that is seen. When it goes on for ever is exact too |
| Resync.ResynchronizeBelow | resynctool.c:199-252 | Where no counter wraps: the range searched is up to the final counter, or 65536 counters when none is given, and the line is that of the first pair in it with an even number of hits just before |
| Resync.HitsBeforeIs | resynctool.c:220-233 | Those hits are the counters, one after the other, that give the first passcode just before the pair |
| Resync.EndlessSearch | resynctool.c:220-248 | From any start, and any two passcodes, a token for which the search up to the last counter never ends |
| Resync.LineIsReadBack | resynctool.c:237-238 | state_parse accepts the line and yields that state |
| Resync.FirstPositionIsNext | cardops/hotp.c:109-121 | Position 0 of that state is counter c + 1 mod 2^64 if and only if bit 31 of c is clear or its upper word is all ones |
| Resync.NextPasscodeIsAccepted | otp.c:484-608 | The passcode of c + 1 is then accepted, and the stored challenge moves to c + 1 mod 2^64 |
| GsmdIndex.Index.GsmdHash | gsmd.c:31-43 | Pushing an entry on its chain adds it to the list of hashed entries and keeps every chain right |
| GsmdIndex.Index.GsmdGet | gsmd.c:45-57 | The entry of that name hashed last, or NULL |
| GsmdIndex.BucketHasLatest | gsmd.c:45-57 | Looking in one bucket, newest first, is looking through the whole history |
| GsmdIndex.Index.GsmdNext | gsmd.c:59-83 | From NULL the walk starts again, from an entry it goes to the one after it, across buckets |
| GsmdIndex.Index.Walk | gsmd.c:59-83 | A walk from NULL to NULL meets every hashed entry exactly once |
| GsmdIndex.FromIsPermutation | gsmd.c:59-83 | The buckets one after the other are a permutation of the hashed entries |

## Left out

- Other cards (x99, cryptocard, totp, c200), asynchronous challenges and CHAP: their responses
  rest on DES or ignore the stored challenge. The model is the HOTP card with PAP.
- Static passwords, PIN and key encryption modes, the user lookup and its timeout: plain branches
  before the state is read. A null state always ends in a service error for HOTP, as the code has
  it. A user's featuremask is that of an HOTP card: event-synchronous, with a window the user or
  the configuration sets.
- hotp_mac and the digits of a response: the HOTP value is any function of the counter.
- Verify.Verify: a stored challenge is assumed to be 8 octets long. hotp_challenge sets clen to 8
  on the first step, and a stored challenge of another length would be padded from the stack.
- Verify.SetFc: 1 << fcount with a negative fcount, which takes 2^31 failures, is undefined in C;
  its value is a parameter that no theorem depends on.
- Verify.Verify: time enters only as whether enough is left after state_get; too little left before
  it ends the call as a failed state_get does.
- Log messages, among them the reason text gsmd() logs, which points into the receive buffer.
- The octet order variants of bitmanip.h: the macros have their one common meaning.
- Helix.Encrypt: the nonce buffer of the datagram and the padding of a request are not modelled;
  the theorems hold for any message length.
- HexText.ScanPrint: sscanf is the plain %x of the C standard; "0x" without a digit reads as a
  failure, and a sign negates the value.
- Lock.Chain.Get: user names are values, so a caller's name that changes while it holds a lock is
  not modelled. Mutexes make each call one step.
- Lock.Chain.Put: after the null pointer is followed the process is gone; what it had relinked by
  then is not described. What later calls do on a chain that is no chain any more is not either.
- StateLocal.StateGetLocal: it uses the lock table through the map it stands for. LockTable.Table
  keeps that map in its chains, but for the two ways lock_put goes wrong.
- WorkThreads.AlwaysExclusive: releases are steps on the map; TableThreads.Carry has the exact
  condition under which the chains follow. Reading and writing a file are one step each.
- WorkThreads.Serializable: the same.
- Directory paths and the name of the temporary file; Directory.Write takes the rename as one step.
- Protocol.PutIsNotConfused: that managers echo the number of the request they answer, and that
  only their replies pass the integrity check, are assumptions; gsmd itself is not part of this
  model.
- GsmReply: a datagram shorter than nonce and MAC, which the failover thread decrypts without a
  length check, counts as one that fails the integrity check.
- nonce32 without atomic operations reads seq again after it unlocks; the model is the atomic
  form.
- Resync.Resynchronize: options, the key and the debug output.
- Failover.FailoverThread: the events are a finite list, as long as one likes; the surplus
  signals that are drained before sleeping can at worst come as signals later, which the machine
  allows.
- Configuration, daemon start-up, LDAP and plugin code.
