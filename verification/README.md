# Xend: verified model of the wallet's cores

Xend is a Solana wallet made of a Rust backend, a Dart SDK and a Swift vault. This project
models the parts of it whose correctness is arithmetic, a protocol or an order of writes,
and proves what the code and its documents promise of them, over every input, every run and
every interleaving.

| file | models |
|---|---|
| `Transactions.dfy` | the ledger table: each SQL statement as one atomic change of the rows, with both UNIQUE constraints |
| `Submit.dfy` | idempotent submission as a state machine: any number of handlers, crashes between any two steps, lost acknowledgements of statements and broadcasts, a network that executes at any later moment |
| `SubmitSafety.dfy` | what every run of that machine guarantees, and exactly when it never double-sends |
| `SubmitHandler.dfy` | the handler as written, proved to be a behaviour of the state machine |
| `Base58.dfy` | the in-place division and its carry-propagating inverse, their bijection and length bounds |
| `Mnemonic.dfy`, `Pbkdf2.dfy`, `Seed.dfy` | BIP-39 phrases both ways; the PBKDF2 loops against section 5.2 of RFC 8018; the seed |
| `RateLimiter.dfy` | the fixed-window limiter and its bounds over whole histories |
| `Units.dfy` | decimal amounts printed and parsed |
| `Amount.dfy` | one amount followed from the SDK to the instruction bytes |
| `Wire.dfy` | the signed-transaction format against a strict reader |
| `History.dfy` | cursor paging over the ledger |
| `Watch.dfy` | the status polling loop |
| `Vault.dfy`, `VaultSafety.dfy` | the order of the vault's writes, and crash safety over runs of many devices |
| `Numerals.dfy`, `Wrappers.dfy` | positional numerals; `Option` and `Result` |

Imperative code is modelled by methods proved against specification functions; the promises
are then lemmas about those functions. Hashes, key derivation, signatures and the chain's
signature check are function-valued parameters, so the results hold for any such functions
with the stated output lengths.

## Where the code and its documents differ

* The documents say a repeated key cannot send twice (`docs/00-PRD.md:46`,
  `backend/src/handlers/tx.rs:109-110`) and that the key makes the whole
  build-sign-submit round trip safe to retry (`packages/xend/lib/src/xend_wallet.dart:230-231`).
  That holds in every run if and only if requests that share a key and verify also share a
  signature (`SubmitSafety.NeverTwiceIffAgree`), which is what
  `backend/src/store/transactions.rs:34-35` takes for granted. `SubmitSafety.ClashRuns` is a
  race that sends two transactions under one key; no race is needed, because a retry that
  rebuilds the message after a lost broadcast can execute a second time exactly when its
  signature differs (`SubmitSafety.RetrySafeIffSameSignature`).
* `packages/xend/ios/Classes/Mnemonic.swift:143` says the PBKDF2 loop is correct for any
  length. The 32-bit block counter is incremented once more after the last block it can
  number, so lengths that need block 2^32 - 1, which RFC 8018 allows, trap.
  `Pbkdf2.TrapsOnLastBlockOnly` shows these are the only permitted lengths that do. The
  shipped code cannot reach them: the function is private and its one caller asks for 64
  bytes (`Pbkdf2.SeedIsFirstBlock`).
* The limiter's documentation promises at most `max` calls per window
  (`backend/src/gateway/rate_limit.rs:15`). From one start of a caller's window to the next
  that holds (`RateLimiter.BetweenStarts`). For arbitrary intervals of the window's length it
  holds if and only if `max` is at most 1 (`RateLimiter.AnyWindowIffAtMostOne`): k windows
  admit up to (k+1)*max - 1 calls, and for k >= 1 that many can be reached.
* Timestamp cursors show the whole history if and only if no group of equal timestamps
  straddles a multiple of the page size (`History.CompleteIffUnbroken`).
  `History.EqualTimestampsMissARow` is a reachable ledger on which every client misses a row.
* `packages/xend/example/lib/main.dart:984-985` describes decimal formatting without exception. A
  negative amount below one unit is printed with a misplaced sign, "0.-5" for -5 and "-.5" for -50
  at two decimals (`Units.SignKeptExactly`).
* `entropy(from:)` ignores repeated spaces, the seed does not. An accepted spelling hashes the
  canonical phrase's text if and only if it normalises to single-spaced text
  (`Mnemonic.CanonicalSeedTextIff`); doubling any space of a phrase keeps the entropy and
  changes the text (`Mnemonic.DoubledSpaceChangesSeedText`).

## Model

| member | source | states |
|---|---|---|
| Transactions.Table.FindByIdempotency | backend/src/store/transactions.rs:20-30 | The lookup returns the signature and status of the key's row, or nothing, and changes nothing. |
| Transactions.Table.InsertPending | backend/src/store/transactions.rs:36-58 | A claim creates a pending row without signature, filed under the given wallet, if the key is new and otherwise changes nothing; it may commit and still be reported as failed. |
| Transactions.Table.MarkSubmitted | backend/src/store/transactions.rs:117-132 | Recording sets signature and status on the key's row only; it is refused without effect when another row holds the signature, and does nothing when the key has no row. |
| Submit.StepExtends | backend/src/store/transactions.rs:36-58 | No step removes a row, changes a claimed recipient, amount, mint, wallet or time, or makes a set signature null again; requests, relayed and executed transactions only accumulate. |
| Submit.RowStep | backend/src/store/transactions.rs:36-58 | One step leaves a row as it was; or is an insertion that adds exactly its wallet, its time and its request's recipient, amount and mint, pending and unsigned; or is its own handler's recording, which no other row's signature contradicts. |
| Submit.StepKeepsInv | backend/src/handlers/tx.rs:111-154 | Every step of every handler keeps the invariant: each row carries a request's recipient, amount and mint under its key, signature set iff submitted, signatures unique across rows, handlers at or past the broadcast own a row, each recorded or answered signature comes from relayed bytes of a request with that key, only verified bytes are relayed, one execution per signature. |
| Submit.RunKeepsInv | backend/src/handlers/tx.rs:111-154 | The invariant and the monotonicity of the ledger hold over runs of any length and interleaving. |
| SubmitSafety.LedgerGrows | backend/src/store/transactions.rs:32-58 | From any reachable state on, rows never vanish, claimed fields never change and a set signature stays set. |
| SubmitSafety.LedgerInvariants | backend/src/store/transactions.rs:116-132 | In every reachable state a row carries the recipient, amount and mint of a request for its key and has a signature iff its status is submitted, no two rows share one, and a handler that will broadcast or record finds its row. |
| SubmitSafety.RowOrigin | backend/src/store/transactions.rs:36-58 | Every row a run adds has the wallet and time of the insertion event that added it and the recipient, amount and mint of that event's request for the key. |
| SubmitSafety.ErrorsMean | backend/src/handlers/tx.rs:115-147 | A bad-request answer means bytes that are not base64 or do not verify; a network answer means verified bytes and a claimed key. |
| SubmitSafety.LateRequestNeverBroadcasts | backend/src/handlers/tx.rs:109-127 | Once a key's signature is recorded, a request for it that looks up afterwards never broadcasts, in any continuation. |
| SubmitSafety.AgreeMakesAtMostOnce | docs/00-PRD.md:46 | When verified requests of one key share a signature, at most one transaction per key ever executes. |
| SubmitSafety.AgreeMakesAnswersAgree | backend/src/handlers/tx.rs:119-153 | Under the same hypothesis every successful answer for a key names the recorded signature and the executed transaction. |
| SubmitSafety.ClashRuns | backend/src/handlers/tx.rs:119-153 | Two verified requests with one key and different signatures have a run in which both execute, both are answered with success and the stored signature is overwritten. |
| SubmitSafety.NeverTwiceIffAgree | backend/src/store/transactions.rs:32-35 | A set of requests is safe in every reachable state if and only if its verified requests agree on the signature per key; otherwise some run violates both halves of safety. |
| SubmitSafety.AttemptRuns | backend/src/handlers/tx.rs:119-153 | The whole state an uninterrupted attempt leaves from any state: the stored signature and no change, or the claim, the relayed bytes and either its own recording or, when another row holds the signature, a refusal and an unsigned row. |
| SubmitSafety.AttemptFiles | backend/src/handlers/tx.rs:128-153 | An uninterrupted attempt on a new key adds one row with the sender's wallet, that time and the request's fields, signed and submitted unless another row holds the signature, and changes no other row. |
| SubmitSafety.UnverifiedAttemptClaims | backend/src/handlers/tx.rs:128-145 | Bytes that do not verify are refused and not relayed, but their request has by then claimed the key with its recipient, amount and mint. |
| SubmitSafety.RetryRecovers | docs/00-PRD.md:46 | From every reachable state, wherever earlier attempts stopped, one uninterrupted retry ends with the row submitted and its signature returned, if keys agree on signatures and do not share them. |
| SubmitSafety.RetryExecutesTwice | packages/xend/lib/src/xend_wallet.dart:228-242 | After an attempt whose broadcast was relayed but not acknowledged, an uninterrupted retry with other bytes is answered with success and both transactions execute. |
| SubmitSafety.RetrySafeIffSameSignature | packages/xend/lib/src/xend_wallet.dart:228-242 | After such an attempt, some continuation with the retry executes twice under the key if and only if the two signatures differ. |
| SubmitHandler.Node.Broadcast | backend/src/chain/solana.rs:166-196 | The bytes may be relayed whether or not an answer arrives; an acknowledgement carries the transaction's signature. |
| SubmitHandler.Relay | backend/src/handlers/tx.rs:144-153 | Validation, broadcast and recording, with their failures, leave exactly the state and answer of the corresponding run of the state machine. |
| SubmitHandler.SubmitTransaction | backend/src/handlers/tx.rs:111-154 | A call of the handler, under any failures, is a run of the state machine ending in its table, its network and its reply. |
| Base58.BuildMap | packages/xend/ios/Classes/Base58.swift:9-13 | The inverse table holds each character's position in the alphabet and -1 for all other ASCII codes. |
| Base58.RankDecidesMembership | packages/xend/ios/Classes/Base58.swift:6-13 | A character has a position exactly when it is one of the 58 alphabet characters. |
| Base58.AlphabetAscends | packages/xend/ios/Classes/Base58.swift:6-7 | The alphabet is the ASCII digits and letters without 0, O, I and l, in ascending order of their codes. |
| Base58.DivideBy58 | packages/xend/ios/Classes/Base58.swift:24-31 | One in-place round divides the remaining number by 58 exactly, every quotient digit fits a byte, the remainder is below 58, and at most one leading digit becomes zero. |
| Base58.LongDivision | packages/xend/ios/Classes/Base58.swift:20-34 | The rounds terminate and produce the number's base-58 digits, least significant first, without a spurious leading digit. |
| Base58.PadAndReverse | packages/xend/ios/Classes/Base58.swift:35-36 | One '1' per leading zero byte is added and the order turned round. |
| Base58.Encode | packages/xend/ios/Classes/Base58.swift:15-37 | The result has the input's leading zeros and, as a base-58 numeral, the input's base-256 value. |
| Base58.Spill | packages/xend/ios/Classes/Base58.swift:53 | The final carry is appended as the remaining base-256 digits, least significant first. |
| Base58.MultiplyAndAdd | packages/xend/ios/Classes/Base58.swift:47-53 | One character's pass over the accumulator, with the carry running over its end. |
| Base58.MulAddValue | packages/xend/ios/Classes/Base58.swift:47-53 | That pass turns the canonical little-endian bytes of n into those of 58n plus the digit, so the top byte is never zero. |
| Base58.Accumulate | packages/xend/ios/Classes/Base58.swift:44-54 | The accumulator ends as the string's base-58 value in bytes, or decoding stops at a character outside the alphabet. |
| Base58.Decode | packages/xend/ios/Classes/Base58.swift:39-57 | The result has the string's leading ones as zero bytes and the string's base-58 value, or is nil. |
| Base58.ConvertInverse | packages/xend/ios/Classes/Base58.swift:15-57 | Changing the radix of a numeral and back, keeping leading zeros, is the identity, for any two radices. |
| Base58.Bijection | packages/xend/ios/Classes/Base58.swift:15-57 | A byte string encodes to s exactly when s decodes to it, and decoding is nil exactly when some character is outside the alphabet. |
| Base58.DraftVector | packages/xend/ios/Classes/Base58.swift:15-37 | Two zero bytes and 0x287fb4cd encode to "11233QC4", a test vector of draft-msporny-base58. |
| Base58.EncodingLength | packages/xend/ios/Classes/Base58.swift:20-36 | Lower and upper bounds on the encoded length from any rational bound on the ratio of the radices' logarithms. |
| Base58.AddressLength | packages/xend/ios/Classes/Base58.swift:20-36 | An encoding is no shorter than its input, 5 times its length is at most 7 times the input's plus 4, and 32-byte keys give 32 to 44 characters. |
| Mnemonic.BitString | packages/xend/ios/Classes/Mnemonic.swift:166-172 | Padding each byte's binary digits to eight gives the fixed-width bit expansion. |
| Mnemonic.BuildWordIndex | packages/xend/ios/Classes/Mnemonic.swift:17-23 | The index knows exactly the table's words and maps each to its last position. |
| Mnemonic.GroupUngroup | packages/xend/ios/Classes/Mnemonic.swift:36-82 | Regrouping the bit expansion of numbers of any width recovers the numbers. |
| Mnemonic.UngroupGroup | packages/xend/ios/Classes/Mnemonic.swift:36-82 | Expanding the groups of a bit string of whole groups recovers the bits. |
| Mnemonic.Encode | packages/xend/ios/Classes/Mnemonic.swift:36-49 | The phrase is the words of the 11-bit groups of entropy and checksum, joined by single spaces, for every entropy on which the code does not trap. |
| Mnemonic.CollectBits | packages/xend/ios/Classes/Mnemonic.swift:64-69 | The bits are the indices of the words at 11 bits each, or the first unknown word is reported. |
| Mnemonic.PackBytes | packages/xend/ios/Classes/Mnemonic.swift:76-82 | The entropy bytes are the values of the 8-bit groups. |
| Mnemonic.CheckBits | packages/xend/ios/Classes/Mnemonic.swift:71-86 | The entropy is returned exactly when the last bits are its checksum. |
| Mnemonic.EntropyFrom | packages/xend/ios/Classes/Mnemonic.swift:58-87 | Word count, unknown word and checksum are judged in that order, and otherwise the entropy is returned. |
| Mnemonic.SplitJoin | packages/xend/ios/Classes/Mnemonic.swift:48-59 | Joining words by spaces and splitting again gives the words back. |
| Mnemonic.SplitEquations | packages/xend/ios/Classes/Mnemonic.swift:59 | Splitting distributes over a space, drops empty pieces and keeps a text without spaces whole, which fixes the words of every text. |
| Mnemonic.EntropyOfPhrase | packages/xend/ios/Classes/Mnemonic.swift:36-87 | Every entropy of 16, 20, 24, 28 or 32 bytes is recovered from its phrase, for any hash. |
| Mnemonic.PhraseOfEntropy | packages/xend/ios/Classes/Mnemonic.swift:36-87 | The entropy of an accepted phrase has a standard size and encodes to that phrase's words. |
| Mnemonic.AcceptedIffEncoded | packages/xend/ios/Classes/Mnemonic.swift:52-87 | A phrase is accepted if and only if its words are the encoding of some standard-size entropy. |
| Mnemonic.PhraseSpelledOut | packages/xend/ios/Classes/Mnemonic.swift:36-49 | Word k of a phrase is the table entry at the position whose eleven bits are bits 11k to 11k + 10 of the entropy followed by the leading bits of its hash, every byte most significant bit first. |
| Mnemonic.AcceptedSpelledOut | packages/xend/ios/Classes/Mnemonic.swift:58-87 | The words of every accepted phrase spell the recovered entropy and the leading bits of its hash in that way. |
| Mnemonic.StandardSizes | packages/xend/ios/Classes/Mnemonic.swift:60 | Accepted phrases have 12 to 24 words in steps of three, for 16 to 32 bytes in steps of four. |
| Mnemonic.RefusedExactly | packages/xend/ios/Classes/Mnemonic.swift:58-86 | A phrase is refused for its number of words; else for its first word outside the table; else, as a bad checksum, exactly when its words encode no standard-size entropy. |
| Mnemonic.CanonicalSeedTextIff | packages/xend/ios/Classes/Mnemonic.swift:59-100 | An accepted phrase derives its seed from the same text as its canonical spelling if and only if its normal form has no space at either end and no two in a row. |
| Mnemonic.DoubledSpaceChangesSeedText | packages/xend/ios/Classes/Mnemonic.swift:59-100 | Doubling any space of an encoded phrase leaves it accepted with the same entropy and changes the text the seed is derived from. |
| Mnemonic.SpellingChangesSeedText | packages/xend/ios/Classes/Mnemonic.swift:59-100 | Every standard-size entropy has an accepted spelling with another seed text. |
| Pbkdf2.XorInto | packages/xend/ios/Classes/Mnemonic.swift:157 | The in-place loop XORs every octet once. |
| Pbkdf2.Int | packages/xend/ios/Classes/Mnemonic.swift:151 | The block index is appended as four octets that read, most significant first, as the index. |
| Pbkdf2.IntOctets | packages/xend/ios/Classes/Mnemonic.swift:151 | Those octets are the index divided by 2^24, 2^16, 2^8 and 1, each modulo 256. |
| Pbkdf2.XorBit | packages/xend/ios/Classes/Mnemonic.swift:157 | Each bit of an XOR is the sum of the two bits modulo two. |
| Pbkdf2.DeriveBlock | packages/xend/ios/Classes/Mnemonic.swift:150-158 | The iteration loop computes F(P, S, c, i) of RFC 8018 for every count of at least one. |
| Pbkdf2.Pbkdf2 | packages/xend/ios/Classes/Mnemonic.swift:144-163 | The block loop returns the derived key of RFC 8018, and traps exactly on negative lengths, on fewer than one iteration, and past block 2^32 - 2. |
| Pbkdf2.ShorterIsPrefix | packages/xend/ios/Classes/Mnemonic.swift:142-163 | A shorter key is a prefix of a longer one. |
| Pbkdf2.BlockAt | packages/xend/ios/Classes/Mnemonic.swift:149-162 | Octets 64(i-1) to 64i of a key are F(P, S, c, i). |
| Pbkdf2.BlockIsXorOfChain | packages/xend/ios/Classes/Mnemonic.swift:153-158 | Each octet of a block is the XOR of that octet over U_1 to U_c, stated over the chain as a list. |
| Pbkdf2.DerivedBit | packages/xend/ios/Classes/Mnemonic.swift:144-163 | Bit k of octet p of block i of a key of any permitted length is the parity of that bit over the c codes that start from the salt and the index's four octets and continue each from the one before. |
| Pbkdf2.TrapsOnLastBlockOnly | packages/xend/ios/Classes/Mnemonic.swift:147-161 | Among the lengths RFC 8018 allows, the code traps exactly on those that need block 2^32 - 1. |
| Pbkdf2.LastBlockExample | packages/xend/ios/Classes/Mnemonic.swift:160 | The first such length traps and the one before it does not. |
| Pbkdf2.SeedIsFirstBlock | packages/xend/ios/Classes/Mnemonic.swift:99-103 | The wallet's seed never traps and is F(P, S, 2048, 1). |
| Seed.SeedFrom | packages/xend/ios/Classes/Mnemonic.swift:99-103 | The seed has 64 octets, and each of its bits is the parity of that bit over the 2048 codes keyed by the normalised phrase that start from "mnemonic", the normalised passphrase and the octets 0, 0, 0, 1. |
| Seed.SeedChainExists | packages/xend/ios/Classes/Mnemonic.swift:99-103 | Such a chain of 2048 codes exists for every phrase and passphrase. |
| RateLimiter.Limiter.Record | backend/src/gateway/rate_limit.rs:38-56 | A call starts or restarts the caller's window when due, is refused with the advised wait when the window is full and counted otherwise, and touches no other caller. |
| RateLimiter.CallersIndependent | backend/src/gateway/rate_limit.rs:41-47 | A caller's window and admissions are the same as if the other callers had not called. |
| RateLimiter.Pressure | backend/src/gateway/rate_limit.rs:45-54 | Counting back from the current window, each full window adds at most `max` admissions. |
| RateLimiter.IntervalBound | backend/src/gateway/rate_limit.rs:38-56 | Any half-open interval of k windows admits at most (k+1)*max - 1 calls of a caller, and none when max is zero. |
| RateLimiter.BudgetAttained | backend/src/gateway/rate_limit.rs:38-56 | For every k >= 1 and max >= 1 some history reaches that bound. |
| RateLimiter.AnyWindowIffAtMostOne | backend/src/gateway/rate_limit.rs:15 | Every interval of one window's length stays within `max` in every history if and only if `max` is at most 1. |
| RateLimiter.CountSinceStart | backend/src/gateway/rate_limit.rs:45-54 | The current window's count is the number of admissions since it started, is at most `max`, and no call of the caller came after the window's end. |
| RateLimiter.BetweenStarts | backend/src/gateway/rate_limit.rs:15 | From one start of a caller's window to the next, at most `max` calls are admitted. |
| RateLimiter.AdmittedExactly | backend/src/gateway/rate_limit.rs:41-54 | A call that finds no window, or one that is over, starts a window at its own time and is admitted when max is positive; any other call keeps the window's start and is admitted exactly when fewer than max calls were admitted since. |
| RateLimiter.AdviceWithinSecond | backend/src/gateway/rate_limit.rs:49-52 | For any limits the time advised to a refused caller is after the reset by at most a second. |
| RateLimiter.RefusalsChangeNothing | backend/src/gateway/rate_limit.rs:49-52 | Any number of refused calls leaves the caller's window, and so its reset time, as it was. |
| RateLimiter.RetryAdvice | backend/src/gateway/rate_limit.rs:45-54 | The advised time is after the reset by at most one second; with no admission in between a later call is admitted exactly from the reset on, so waiting as advised suffices. |
| Units.TrimExact | packages/xend/example/lib/main.dart:999 | Trimming gives a text exactly when the input is that text between runs of spaces and it has no space at either end. |
| Units.ParsesExactly | packages/xend/example/lib/main.dart:998-1014 | Parsing gives n exactly when the input is spaces, then digits with an optional point, either side possibly empty, at most `decimals` digits after it, then spaces, and n is its value times 10^decimals. |
| Units.ParseOfFormat | packages/xend/example/lib/main.dart:986-1014 | Parsing what was printed returns every non-negative amount and rejects every negative one. |
| Units.SignKeptExactly | packages/xend/example/lib/main.dart:986-994 | A negative amount prints as a minus sign and its magnitude exactly when the magnitude is at least one whole unit; below that the sign stands where the whole digit belongs or after the zero padding. |
| Units.FormatOfParse | packages/xend/example/lib/main.dart:986-1014 | The printed texts are exactly the canonical ones, and printing the parse of a canonical text gives it back. |
| Units.FormatNormalises | packages/xend/example/lib/main.dart:986-1014 | Printing any parsed value gives a canonical text of the same value. |
| Units.DecimalNumber | packages/xend/lib/src/backend_client.dart:50 | Decimal text consists of digits, is never empty and reads back as the number. |
| Amount.SystemTransfer | backend/src/chain/solana.rs:445-456 | Twelve bytes: discriminant 2 and the amount, little-endian; refused above 2^64 - 1. |
| Amount.TokenTransferChecked | backend/src/chain/solana.rs:495-517 | Instruction 12, the amount little-endian in eight bytes, the mint's decimals. |
| Amount.LeByteAt | backend/src/chain/solana.rs:450 | Byte i of a little-endian integer is its digit of weight 256^i. |
| Amount.Build | backend/src/chain/solana.rs:104-121 | The instruction data for an amount given as text, with both refusals, for native and token transfers. |
| Amount.BuildExact | backend/src/handlers/tx.rs:50-53 | A build succeeds exactly on texts of a 64-bit number, and the bytes read back as that number. |
| Amount.ParsesU128Exactly | backend/src/handlers/tx.rs:50-53 | An amount text is accepted as n exactly when it is one or more digits reading n, perhaps after a plus sign, and n is below 2^128. |
| Amount.InstructionBytes | backend/src/chain/solana.rs:445-517 | Every byte of the built data: 2, 0, 0, 0 and the amount's eight little-endian bytes, or 12, those bytes and the decimals. |
| Amount.ParseOfText | backend/src/handlers/tx.rs:50-53 | The backend reads the SDK's decimal text as the same number, or refuses it from 2^128 on. |
| Amount.AmountConserved | packages/xend/lib/src/xend_wallet.dart:195-197 | Every positive amount sent arrives in the instruction unchanged or is refused, and is refused exactly above 2^64 - 1. |
| Wire.EncodeShortVecLength | packages/xend/lib/src/wire.dart:24-37 | The loop ends and gives seven bits per byte, least significant first, with continuation marks. |
| Wire.ShortVecExact | packages/xend/lib/src/wire.dart:22-37 | A strict reader yields length n and the rest exactly on n's encoding followed by the rest. |
| Wire.ShortVecSpelledOut | packages/xend/lib/src/wire.dart:24-37 | The one, two or three bytes of a count, written out. |
| Wire.PrefixFree | packages/xend/lib/src/wire.dart:22-37 | No encoding of a length is a prefix of another's. |
| Wire.Shortest | packages/xend/lib/src/wire.dart:22-37 | No terminated byte group of the same payload is shorter than the encoding. |
| Wire.AssembleSignedTransaction | packages/xend/lib/src/wire.dart:9-20 | The result is the count, the signatures in signer order, and the message. |
| Wire.TransactionExact | packages/xend/lib/src/wire.dart:5-20 | A reader takes bytes apart into signatures and message exactly when they are the assembly of 64-byte signatures and that message. |
| Wire.AssemblyInjective | packages/xend/lib/src/wire.dart:9-20 | Equal assemblies have equal signatures and equal messages. |
| Wire.SentTransactionReads | packages/xend/lib/src/xend_wallet.dart:232-237 | What `send` assembles reads back with the fee payer's signature, if any, first and the sender's last, and the message unchanged. |
| Wire.DevClientAgrees | backend/src/bin/gasless_client.rs:78-83 | The single count byte of the development client gives the same bytes if and only if there are fewer than 128 signatures. |
| History.ClampLimit | backend/src/handlers/wallet.rs:104 | The page size is between 1 and 100, the nearest such number to the one asked for, and 20 when none is. |
| History.PageExists | backend/src/store/transactions.rs:86-99 | The query always has an answer. |
| History.PagesDescend | backend/src/store/transactions.rs:70-99 | Every row of an earlier page is strictly newer than every row of a later page. |
| History.NoneRepeated | backend/src/store/transactions.rs:70-99 | No row is served twice and only the wallet's broadcast rows are served. |
| History.PageInOrder | backend/src/store/transactions.rs:86-99 | A page has at most `limit` rows, all of the wallet and signed, none twice, newest first. |
| History.PagingTerminates | backend/src/store/transactions.rs:70-99 | A client reaches the empty page after at most as many pages as there are rows, plus one. |
| History.MissedExactlyWhenCut | backend/src/store/transactions.rs:86-94 | A finished client misses a given row if and only if some page ends inside that row's timestamp without it. |
| History.CompleteIffUnbroken | backend/src/store/transactions.rs:70-94 | A finished client has the whole history if and only if, in the ledger, no group of equal timestamps straddles a multiple of the page size. |
| History.ClientFinishes | backend/src/store/transactions.rs:70-99 | Whatever was served so far, a client can go on until a page is empty. |
| History.EqualTimestampsMissARow | backend/src/store/transactions.rs:70-94 | Two transactions submitted in one instant make a reachable ledger on which every client reading one row a page misses one, and such a client exists. |
| History.WholeHistory | backend/src/handlers/wallet.rs:98-134 | With distinct timestamps the pages are the wallet's whole broadcast history, each row once, for every requested limit. |
| History.ServedExactly | backend/src/store/transactions.rs:86-99 | With distinct timestamps a row is served exactly when it is in the ledger under this wallet with a signature. |
| History.SignaturesServedOnce | backend/migrations/0002_transactions.sql:16 | In any reachable ledger no signature appears on two pages. |
| Watch.FromBackend | packages/xend/lib/src/mappings.dart:42-74 | A status has no commitment exactly when it failed, and each state goes with its own commitment; answers outside the three other names are pending with the processed commitment. |
| Watch.ReportReadsBack | backend/src/handlers/tx.rs:172-177 | Every commitment the backend reports is read back as itself by the SDK, and no other text counts as progress or failure. |
| Watch.Watch | packages/xend/lib/src/xend_wallet.dart:322-348 | The loop emits the observed statuses up to the first terminal one, error or deadline with repeats of a commitment removed, and polls exactly that often. |
| Watch.EachPollEmits | packages/xend/lib/src/xend_wallet.dart:333-342 | Every answered poll emits its own status unless the latest emission carries the same commitment; a failed poll emits nothing. |
| Watch.LatestEmissionIsCurrent | packages/xend/lib/src/xend_wallet.dart:336-342 | The latest emission always carries the latest observed commitment. |
| Watch.NoRepeats | packages/xend/lib/src/xend_wallet.dart:336-342 | Neighbouring emissions differ in commitment. |
| Watch.ChangesAdvance | packages/xend/lib/src/xend_wallet.dart:336-342 | If observations never regress, emissions strictly advance. |
| Watch.AtMostThreeEmissions | packages/xend/lib/src/xend_wallet.dart:322-348 | If observations never regress, a listener sees at most three, each further on. |
| Watch.PollBound | packages/xend/lib/src/xend_wallet.dart:344-346 | With a positive interval between answers there are at most timeout/interval + 2 polls. |
| Watch.PollBoundReached | packages/xend/lib/src/xend_wallet.dart:344-346 | A backend that never goes past processed reaches that number. |
| Vault.SecureSigner.Establish | packages/xend/ios/Classes/SecureSigner.swift:135-154 | Stopped after any number of writes, the items are those of that prefix of the write order; an address is returned only when all were made. |
| Vault.EstablishEffect | packages/xend/ios/Classes/SecureSigner.swift:135-154 | Which items are old, gone or new after each of the eight writes. |
| Vault.SecureSigner.StoreRecoverySeed | packages/xend/ios/Classes/SecureSigner.swift:280-288 | The synchronised seed is replaced, or else the local copy is; stopping or refusal never fails the caller. |
| Vault.SecureSigner.Provision | packages/xend/ios/Classes/SecureSigner.swift:83-108 | Establishing comes before storing the seed, stopped anywhere. |
| Vault.SecureSigner.LoadOrRecover | packages/xend/ios/Classes/SecureSigner.swift:118-131 | A stored address is returned and nothing written; otherwise the wallet is rebuilt from the synchronised seed, or else the local copy; without either nothing changes. |
| Vault.SecureSigner.DeleteWallet | packages/xend/ios/Classes/SecureSigner.swift:252-270 | Completed deletion leaves nothing on the device and no synchronised seed. |
| VaultSafety.DeletionEffect | packages/xend/ios/Classes/SecureSigner.swift:252-270 | Which items are left after each of the five deletions. |
| VaultSafety.EstablishKeeps | packages/xend/ios/Classes/SecureSigner.swift:135-154 | With no address stored, establishing leaves a consistent vault wherever it stops and does not touch the seeds. |
| VaultSafety.ProvisionKeeps | packages/xend/ios/Classes/SecureSigner.swift:83-108 | So does provisioning; each seed is afterwards gone, as it was, or the new phrase, and no seed is touched before the phrase's own address can be read. |
| VaultSafety.SeedsStored | packages/xend/ios/Classes/SecureSigner.swift:280-320 | The device and the synchronised seed after each write of the seed's storage, for both outcomes of both writes. |
| VaultSafety.ProvisionStoresSeed | packages/xend/ios/Classes/SecureSigner.swift:83-108 | A completed provisioning leaves the phrase's address readable and the phrase stored: synchronised, with the local copy left alone, or else as the local copy, or else nowhere. |
| VaultSafety.StepKeepsInv | packages/xend/ios/Classes/SecureSigner.swift:83-270 | Every operation of every device keeps every device consistent. |
| VaultSafety.RunKeepsInv | packages/xend/ios/Classes/SecureSigner.swift:83-270 | Consistency holds over runs of any length on any number of devices. |
| VaultSafety.ReadableAddressIsUsable | packages/xend/ios/Classes/SecureSigner.swift:83-154 | In every run a readable address comes with an enclave key, a key and a phrase that decrypt under it, the phrase derives that key and that address, and the address decodes to that key's public key. |
| VaultSafety.StepSeeds | packages/xend/ios/Classes/SecureSigner.swift:83-300 | A step keeps seeds, removes them, or stores the phrase it provisions, whose address it then leaves readable. |
| VaultSafety.SeedsOriginate | packages/xend/ios/Classes/SecureSigner.swift:83-300 | In every run every stored seed, synchronised or local, is the phrase of an earlier provisioning after which that phrase's address could be read. |
| VaultSafety.RecoveredAddressIsOriginal | packages/xend/ios/Classes/SecureSigner.swift:118-131 | A completed recovery makes readable exactly the address that an earlier event of the run, the provisioning of its seed, had left readable, with the key that belongs to it. |
| VaultSafety.RecoveryRestores | packages/xend/ios/Classes/SecureSigner.swift:118-131 | Recovery does nothing where an address is stored or there is no seed; otherwise it makes readable the address of the synchronised seed, or else of the local one, and keeps the seeds. |
| VaultSafety.ProvisionedRecoversElsewhere | packages/xend/ios/Classes/SecureSigner.swift:272-288 | After a completed, synchronised provisioning, and until the next provisioning or deletion, every device without an address that completes a recovery gets that same wallet's address. |
| VaultSafety.ReprovisionExactly | packages/xend/ios/Classes/SecureSigner.swift:135-154 | Re-provisioning over a stored address and stopping is safe if and only if no write was made, the old address is already gone, or the same wallet's key and phrase are both rewritten. |
| VaultSafety.DeletionExactly | packages/xend/ios/Classes/SecureSigner.swift:252-270 | Deletion stopped early is safe if and only if nothing was deleted or the address was. |

## Left out

- RPC, HTTP routing, authentication, JSON, base64 and error mapping: plumbing; a payload that is not base64 is a request without bytes.
- The Solana library (message serialization, bincode, program-derived addresses, the signature check) and SNS names: not part of this model; bytes verify or not, and have a signature, by two arbitrary functions.
- Cryptography (SHA-256, HMAC-SHA512, Ed25519, ECIES, the enclave, biometrics, zeroing of buffers) and SLIP-0010 derivation: function parameters; a ciphertext is opened by the enclave key that made it and by no other.
- The 2048 concrete words and Unicode normalization: any table of distinct words without spaces, and any normalization that leaves phrases of them alone.
- Mnemonic.DoubledSpaceChangesSeedText: assumes ASCII words and a normalization that leaves ASCII text alone, as for the English table; it is about the text hashed, since different texts could in principle hash alike.
- Mnemonic.Encode: excludes the entropy sizes whose bits do not divide into 11-bit groups, on which the source traps.
- SubmitHandler.Node.Broadcast: the source returns whatever string the node answers; the model takes a node that answers with the signature of the bytes it was given.
- SubmitSafety.RetryRecovers: assumes that other keys' verified requests carry other signatures, since the UNIQUE signature constraint refuses the recording otherwise (`SubmitSafety.AttemptRuns` says exactly when).
- Submit.StepKeepsInv: the wallet lookup between claim and insertion is part of the insertion step, which may fail without effect; statuses other than pending and submitted are never written by these statements; row identifiers are not modelled.
- RateLimiter.IntervalBound: assumes clock readings that do not go back in lock order; the source reads the clock before it takes the lock. Instants and windows are whole nanoseconds, and a poisoned lock is not modelled.
- RateLimiter.BetweenStarts: needs a window of at least one nanosecond; with an empty one every call starts a window.
- RateLimiter.BudgetAttained: needs a window of at least two nanoseconds, to place a call before the interval.
- Watch.Watch: one subscription over a finite log of answers; cancellation by the listener and the waiting itself are not modelled.
- Watch.AtMostThreeEmissions: assumes observations that do not regress, because a missing record is reported as processed (`backend/src/chain/solana.rs:219-225`).
- SubmitSafety.RetrySafeIffSameSignature: the first attempt starts from the empty ledger; other requests are covered by `SubmitSafety.NeverTwiceIffAgree`.
- History.NoneRepeated: pages of one unchanging ledger; rows added between two pages are not modelled.
- VaultSafety.ReadableAddressIsUsable: provisioning starts only where no address is stored and deletion completes (the two exact lemmas cover the other runs); keychain reads answer truthfully, deletions succeed, and synchronisation between devices is immediate; one wallet identifier, since items of different wallets never meet.
- Vault.SecureSigner.Provision: generating the phrase and validating it happen before any write and are not part of the method; which enclave configuration succeeds is left open.
- Units.ParseOfFormat: a negative number of decimals, which makes the library's padding and powers fail, is not modelled.
- Flutter widgets, platform channels, configuration, SQL connections and migrations: not part of this model.
