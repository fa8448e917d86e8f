# 17. mai party games — a Dafny model of the game engines

17MayFun is a browser app with party games for Norway's Constitution Day.
There is music bingo, a drinking board game and password-protected quizzes.
This project models the logic behind those games and proves what it
promises:

- **Bingo** (`bingo_utils.dfy`, `bingo_board.dfy`):
  - the 25-song list and the board sizes (3×3, 4×4 and 5×5);
  - the seeded shuffle, built on a 32-bit string hash and a linear
    congruential generator;
  - `checkForBingo` over rows, columns and both diagonals;
  - the board component's `toggleSquare`, which recomputes the bingo flag
    after every click.
- **Board game** (`board_game_utils.dfy`, `board_game_page.dfy`):
  - the 16-space board:
    - a fixed pattern of space types;
    - red/white/blue colours;
    - trivia references, chance outcomes and sip counts drawn at random;
  - the snake layout of `calculatePosition`;
  - player creation with the first free colour, and movement modulo the
    board size;
  - turn rotation and trivia lookup;
  - the board-game page as a class: add, remove, start, roll and reset, with
    the exact landing messages.
- **Quizzes** (`quiz_utils.dfy`, `quiz_page.dfy`):
  - the answer cipher: XOR with the salt `NorwegianQuiz2025`, then Base64;
  - the 32-bit password hash printed in hex;
  - the password check, including its `17mai` fallback;
  - the attempt log in local storage, with "latest attempt wins";
  - the shipped two-quiz catalogue;
  - the quiz page as a class: route load, select, answer, next, previous,
    complete and restart.
- **JavaScript semantics** (`js_core.dfy`, `base64.dfy`):
  - `| 0` and `<<` on 32-bit integers;
  - `%` truncating toward zero;
  - `^` on code units;
  - `Number.prototype.toString(radix)`;
  - UTF-16 code units;
  - `btoa`/`atob`.

Randomness becomes a parameter: the draws of `Math.random`, the ids from
`crypto.randomUUID`, the clock, the dice result and the shuffle order.
Every property below holds for every value of those parameters.

The model follows the code as written, including three behaviours of the
code that a reader might not expect:

1. `getUserAnswersForQuiz` keeps the **earliest** of several attempts that
   share the newest timestamp. It sorts by timestamp, newest first, and
   `Array.prototype.sort` is stable, so ties keep the log's order.
2. `calculatePosition` is not injective on the 16-space board. Spaces 9 and
   13 both land on (0, 3).
3. `getTriviaQuestionById` searches the whole catalogue. So a Norway-quiz
   trivia space, whose question ids are `1`–`5`, shows the mixed quiz's
   question with that id.

## Model

| member | source | states |
|---|---|---|
| JsCore.ToInt32 | src/utils/bingoUtils.ts:56 | `x \| 0` lies in the signed 32-bit range and is congruent to x modulo 2^32 |
| JsCore.ToInt32Congruent | src/utils/bingoUtils.ts:56 | ToInt32 depends only on its argument modulo 2^32 |
| JsCore.ToInt32OfInt32 | src/utils/quizUtils.ts:40 | `hash & hash` (a 32-bit truncation) leaves a value already in 32-bit range unchanged |
| JsCore.ShiftLeft5 | src/utils/bingoUtils.ts:56 | `x << 5` is a 32-bit value congruent to 32·x modulo 2^32 |
| JsCore.JsRem | src/utils/boardGameUtils.ts:207 | JavaScript `%`: the remainder takes the sign of the dividend, is smaller than the divisor in magnitude, and differs from the dividend by a multiple of the divisor, which fixes its value |
| JsCore.XorZero | src/utils/quizUtils.ts:9 | XOR with 0 is the identity |
| JsCore.XorSelfInverse | src/utils/quizUtils.ts:22-25 | XOR-ing twice with the same key gives back the original code unit, which is why decryption undoes encryption |
| JsCore.XorBelow | src/utils/quizUtils.ts:9 | XOR of two values below 2^k stays below 2^k, so XOR-ing Latin-1 code units yields Latin-1 code units |
| JsCore.DigitValueOfChar | src/utils/quizUtils.ts:42 | each hex digit character reads back as its digit value |
| JsCore.NatDigits | src/utils/quizUtils.ts:42 | the digit string of a natural number is never empty |
| JsCore.NumberToString | src/utils/quizUtils.ts:42 | `toString(radix)` never yields the empty string |
| JsCore.NatDigitsRoundTrip | src/utils/quizUtils.ts:42 | parsing the digits of n in the same radix gives n back |
| JsCore.NumberToStringRoundTrip | src/utils/quizUtils.ts:42 | parsing `n.toString(radix)` gives n back, sign included |
| JsCore.NumberToStringInjective | src/utils/quizUtils.ts:42 | distinct numbers print as distinct strings in any radix |
| JsCore.CharUnits | src/utils/quizUtils.ts:9 | a character is one or two UTF-16 code units, and `charCodeAt(0)` is the first |
| JsCore.Utf16 | src/utils/quizUtils.ts:36-38 | a string has at least as many UTF-16 code units as characters |
| JsCore.Utf16OfLatin1 | src/utils/quizUtils.ts:36-38 | for a Latin-1 string the code units are exactly the character codes, one per character |
| JsCore.HashStep | src/utils/quizUtils.ts:39-40 | one step of the string hash lands in the signed 32-bit range |
| JsCore.HashStepIsTimes31 | src/utils/bingoUtils.ts:56 | `((h << 5) - h) + c \| 0` equals 31·h + c truncated to 32 bits |
| JsCore.StringHash | src/utils/quizUtils.ts:34-41 | the hash loop's result is a signed 32-bit integer |
| JsCore.StringHashIsPolynomial | src/utils/bingoUtils.ts:55-57 | the step-by-step truncated hash equals the polynomial Σ 31^(n-1-i)·u[i] truncated once to 32 bits |
| Base64.DecodeEncodeDigit | src/utils/quizUtils.ts:13 | each Base64 digit decodes to the sextet it encodes |
| Base64.EncodeGroup | src/utils/quizUtils.ts:13 | three bytes become four sextets |
| Base64.DecodeGroup | src/utils/quizUtils.ts:19 | four sextets become three bytes |
| Base64.GroupRoundTrip | src/utils/quizUtils.ts:13 | decoding the four sextets of three bytes gives the three bytes back |
| Base64.Sextets | src/utils/quizUtils.ts:13 | n bytes become 4·⌊n/3⌋ sextets plus 0, 2 or 3 for the remainder |
| Base64.DigitChars | src/utils/quizUtils.ts:13 | one character per sextet; each character decodes back to its sextet and none is the `=` padding |
| Base64.DecodeEncodeDigits | src/utils/quizUtils.ts:13 | every sextet of a list decodes back from its Base64 digit |
| Base64.Encode | src/utils/quizUtils.ts:13 | padded Base64 text has a length divisible by 4 |
| Base64.Btoa | src/utils/quizUtils.ts:13 | `btoa` succeeds exactly when every code unit is Latin-1 (it throws otherwise) |
| Base64.StripWhitespace | src/utils/quizUtils.ts:19 | `atob` drops ASCII whitespace before decoding |
| Base64.StripWhitespaceNoop | src/utils/quizUtils.ts:19 | stripping text without whitespace leaves it unchanged |
| Base64.DigitsOf | src/utils/quizUtils.ts:19 | a decoded digit string has one sextet per character |
| Base64.DigitsOfDigitChars | src/utils/quizUtils.ts:19 | reading back the digits of an encoding gives the sextets back |
| Base64.DecodeSextets | src/utils/quizUtils.ts:19 | decoding sextets yields bytes |
| Base64.Atob | src/utils/quizUtils.ts:19 | a successful `atob` yields Latin-1 code units |
| Base64.SextetsLength | src/utils/quizUtils.ts:13 | an encoding never has a digit count of 1 modulo 4 (which `atob` rejects) |
| Base64.DecodeSextetsOfSextets | src/utils/quizUtils.ts:13-19 | decoding the sextets of any byte string gives that byte string back |
| Base64.RemovePaddingOfEncode | src/utils/quizUtils.ts:19 | removing the `=` padding of an encoding leaves exactly its digits |
| Base64.AtobBtoa | src/utils/quizUtils.ts:13-19 | `atob(btoa(u)) == u` for every Latin-1 code-unit string |
| QuizUtils.XorWithSalt | src/utils/quizUtils.ts:7-10 | the salted XOR keeps the length of the text |
| QuizUtils.CodePointUnits | src/utils/quizUtils.ts:7-9 | `Array.from` gives one code unit per code point |
| QuizUtils.SplitCodePoints | src/utils/quizUtils.ts:22-24 | `Array.from` on a string: one part per character, a high surrogate followed by a low one making one two-unit part, every other unit a part of its own |
| QuizUtils.SplitLatin1 | src/utils/quizUtils.ts:22-24 | on Latin-1 code units every part is a single unit, so taking the first unit of each part gives the string back |
| QuizUtils.SplitSurrogatePair | src/utils/quizUtils.ts:22-24 | a surrogate pair is one character, whose first unit is the high surrogate |
| QuizUtils.CodeUnitsAsCodePoints | src/utils/quizUtils.ts:22-24 | the first code unit of each character `Array.from` yields: never longer than the input, and the input itself for Latin-1 text |
| QuizUtils.XorWithSaltTwice | src/utils/quizUtils.ts:5-25 | XOR with the salt twice is the identity |
| QuizUtils.XorWithSaltLatin1 | src/utils/quizUtils.ts:7-10 | a Latin-1 text XOR a Latin-1 salt is Latin-1, so `btoa` accepts it |
| QuizUtils.DecryptEncrypt | src/utils/quizUtils.ts:5-30 | when `encryptAnswer` succeeds, `decryptAnswer` recovers the code units of the answer |
| QuizUtils.EncryptLatin1 | src/utils/quizUtils.ts:5-14 | encryption of a Latin-1 answer with a non-empty Latin-1 salt never throws |
| QuizUtils.CipherRoundTrip | src/utils/quizUtils.ts:5-30 | decrypt(encrypt(answer)) == answer for every Latin-1 answer and valid salt |
| QuizUtils.DecryptRejected | src/utils/quizUtils.ts:26-29 | text with a non-Base64 character such as `!` decrypts to the fallback `Dekrypteringsfeil` |
| QuizUtils.BangSurvivesStripping | src/utils/quizUtils.ts:19 | `atob` rejects any text containing `!` |
| QuizUtils.StripKeeps | src/utils/quizUtils.ts:19 | whitespace stripping keeps every `!` |
| QuizUtils.DigitsOfRejects | src/utils/quizUtils.ts:19 | reading digits fails on any `!` |
| QuizUtils.PasswordHash | src/utils/quizUtils.ts:34-43 | the password hash is a non-empty string |
| QuizUtils.HashPassword | src/utils/quizUtils.ts:34-43 | the hashing loop computes the 32-bit string hash printed in hex |
| QuizUtils.PasswordHashReadsBack | src/utils/quizUtils.ts:42 | the hex text parses back to the 32-bit hash |
| QuizUtils.EmptyPasswordHash | src/utils/quizUtils.ts:34-43 | the empty password hashes to `"0"` |
| QuizUtils.PasswordHashesEqual | src/utils/quizUtils.ts:34-43 | two hash strings are equal exactly when the 32-bit hashes are equal |
| QuizUtils.PasswordRule | src/utils/quizUtils.ts:64-73 | for a quiz with a hash, a password is accepted iff its hash equals the secret's hash, so the secret is accepted |
| QuizUtils.PasswordFallback | src/utils/quizUtils.ts:64-77 | without a quiz or without a hash, only `17mai` is accepted |
| QuizUtils.CataloguePasswords | src/utils/quizUtils.ts:126-246 | the mixed quiz accepts exactly the passwords hashing like `allmenn`, the Norway quiz exactly those hashing like `norge` |
| QuizUtils.LatestAttempt | src/utils/quizUtils.ts:91-98 | the chosen attempt is for the quiz, none has a later timestamp, and earlier ones are strictly older (first maximum); none iff no attempt for the quiz |
| QuizUtils.LatestAttemptUnique | src/utils/quizUtils.ts:91-98 | the first attempt with the newest timestamp is the one selected |
| QuizUtils.SaveNewestThenLoad | src/utils/quizUtils.ts:80-98 | after saving an attempt newer than all for its quiz, loading returns its answers |
| QuizUtils.SaveNotNewerThenLoad | src/utils/quizUtils.ts:80-98 | saving an attempt not newer than an existing one does not change what loads |
| QuizUtils.SaveOtherQuiz | src/utils/quizUtils.ts:80-98 | saving for one quiz never changes what loads for another |
| QuizUtils.QuizStore.constructor | src/utils/quizUtils.ts:86-89 | the store starts from the saved attempt list |
| QuizUtils.QuizStore.SaveQuizAttempt | src/utils/quizUtils.ts:80-84 | the attempt is appended and the earlier ones are kept in order |
| QuizUtils.Cipher | src/utils/quizUtils.ts:126-246 | a shipped answer is stored as its `encryptAnswer` text |
| QuizUtils.Enciphered | src/utils/quizUtils.ts:126-246 | enciphering a question list keeps each id, question and option list, and for Latin-1 answers and a valid salt each stored answer deciphers to the plain answer |
| QuizUtils.CipherAnswersRoundTrip | src/utils/quizUtils.ts:126-246 | every answer of a Latin-1 question list deciphers back after encryption with a valid salt |
| QuizUtils.EncipheredRoundTrip | src/utils/quizUtils.ts:126-246 | each stored answer decrypts to the plain answer |
| QuizUtils.QuestionCounts | src/utils/quizUtils.ts:126-246 | the mixed quiz has 10 questions, the Norway quiz 5 |
| QuizUtils.QuestionIds | src/utils/quizUtils.ts:126-246 | the mixed quiz's ids are distinct, and the Norway quiz reuses the mixed quiz's ids `1`–`5` |
| QuizUtils.FindQuizIndex | src/utils/quizUtils.ts:249-251 | the first quiz with the id is found; none iff no quiz has it |
| QuizUtils.FindQuizOfPair | src/utils/quizUtils.ts:249-251 | lookup in a two-quiz catalogue, case by case |
| QuizUtils.MixedQuizLookup | src/utils/quizUtils.ts:249-251 | `mixed-quiz` finds the mixed quiz |
| QuizUtils.NorwayQuizLookup | src/utils/quizUtils.ts:249-251 | `norway-quiz` finds the Norway quiz |
| QuizUtils.UnknownQuizLookup | src/utils/quizUtils.ts:249-251 | any other id finds nothing |
| QuizUtils.GetQuizByIdCases | src/utils/quizUtils.ts:249-251 | `getQuizById` on the shipped catalogue, for each id |
| QuizUtils.CatalogueSizes | src/utils/quizUtils.ts:126-246 | two quizzes, with 10 and 5 questions |
| QuizUtils.SaltIsValid | src/utils/quizUtils.ts:61 | the salt is non-empty Latin-1 |
| QuizUtils.CatalogueQuestionIds | src/utils/quizUtils.ts:126-246 | the shipped quizzes keep the plain question ids |
| QuizUtils.EncipheredIds | src/utils/quizUtils.ts:126-246 | encryption keeps every question id |
| QuizUtils.CatalogueAnswersLatin1 | src/utils/quizUtils.ts:126-246 | every plain answer (æ, ø, å included) is Latin-1, so module-load encryption never throws |
| QuizUtils.MixedAnswersLatin1 | src/utils/quizUtils.ts:126-205 | the mixed quiz's answers are Latin-1 |
| QuizUtils.NorwayAnswersLatin1 | src/utils/quizUtils.ts:206-245 | the Norway quiz's answers are Latin-1 |
| QuizUtils.ShippedAnswersDecrypt | src/utils/quizUtils.ts:126-246 | every shipped answer decrypts with the salt to its plain answer |
| QuizUtils.ShippedCatalogue | src/utils/quizUtils.ts:126-246 | the shipped catalogue has two quizzes, each with at least one question |
| BingoUtils.BingoSongsDistinct | src/utils/bingoUtils.ts:4-30 | 25 song titles, all distinct |
| BingoUtils.GetBoardDimensions | src/utils/bingoUtils.ts:33-44 | boards are square, 3 to 5 wide, and never need more than 25 songs |
| BingoUtils.BoardDimensionsTable | src/utils/bingoUtils.ts:33-44 | `4x4` and `5x5` give their sizes; anything else gives 3×3 |
| BingoUtils.SeedHash | src/utils/bingoUtils.ts:55-57 | the seed hash is a signed 32-bit integer |
| BingoUtils.InitialState | src/utils/bingoUtils.ts:60 | `Math.abs` of the hash is at most 2^31 |
| BingoUtils.LcgNext | src/utils/bingoUtils.ts:61-64 | the generator state stays below the modulus 233280 |
| BingoUtils.LcgIterate | src/utils/bingoUtils.ts:61-64 | after at least one step the state is below the modulus |
| BingoUtils.LcgStepExact | src/utils/bingoUtils.ts:62 | the product stays below 2^53, so double arithmetic computes it exactly |
| BingoUtils.ComparatorSign | src/utils/bingoUtils.ts:63-70 | a random value lies in [0, 1); the comparator is positive above state 116640 and zero exactly at it |
| BingoUtils.SeededRandom.constructor | src/utils/bingoUtils.ts:60 | the generator starts at `Math.abs(hash)` |
| BingoUtils.SeededRandom.Next | src/utils/bingoUtils.ts:61-64 | one LCG step; the value returned is state/233280, in [0, 1) |
| BingoUtils.ComparatorValues | src/utils/bingoUtils.ts:61-70 | the k-th comparator call returns the (k+1)-th LCG value minus 0.5, in [-0.5, 0.5) |
| BingoUtils.Shuffled | src/utils/bingoUtils.ts:70 | the shuffled copy has the catalogue's length and holds at each position the catalogue song the order names |
| BingoUtils.PermutedCopy | src/utils/bingoUtils.ts:70 | reading a duplicate-free list through an order that names each position once gives a permutation of it |
| BingoUtils.ShuffledIsPermutation | src/utils/bingoUtils.ts:70 | the shuffled copy is a permutation of the catalogue: every song, each exactly once |
| BingoUtils.NumberedSquares | src/utils/bingoUtils.ts:76-80 | one square per title |
| BingoUtils.GenerateBingoBoard | src/utils/bingoUtils.ts:47-81 | the board has rows × cols squares |
| BingoUtils.NumberedSquaresShape | src/utils/bingoUtils.ts:76-80 | square i carries title i, id `String(i)` (which parses back to i), and starts unmarked |
| BingoUtils.BoardTitles | src/utils/bingoUtils.ts:70-80 | no song appears twice on a board |
| BingoUtils.BoardIds | src/utils/bingoUtils.ts:76-80 | square ids are distinct |
| BingoUtils.CellIndex | src/utils/bingoUtils.ts:88-139 | the cell index r·cols + c lies inside the board |
| BingoUtils.CheckForBingo | src/utils/bingoUtils.ts:84-143 | the loops report bingo iff some row, column, diagonal or anti-diagonal is fully marked |
| BingoUtils.AllMarkedHasBingo | src/utils/bingoUtils.ts:84-143 | a fully marked board has bingo |
| BingoUtils.NoneMarkedNoBingo | src/utils/bingoUtils.ts:84-143 | a board with no marks has no bingo |
| BingoUtils.FreshBoardNoBingo | src/utils/bingoUtils.ts:47-143 | a freshly generated board has no bingo |
| BingoBoardComponent.Toggle | src/components/bingo/BingoBoard.tsx:27-29 | exactly the squares with the id flip their mark; all else is unchanged |
| BingoBoardComponent.ToggleTwice | src/components/bingo/BingoBoard.tsx:25-33 | clicking a square twice restores the board |
| BingoBoardComponent.ToggleAbsent | src/components/bingo/BingoBoard.tsx:25-33 | an unknown id changes nothing |
| BingoBoardComponent.ToggleGenerated | src/components/bingo/BingoBoard.tsx:25-33 | on a generated board, toggling square k's id flips square k alone |
| BingoBoardComponent.BingoBoard.constructor | src/components/bingo/BingoBoard.tsx:36-39 | the board is generated from the size and the shuffle, without bingo |
| BingoBoardComponent.BingoBoard.ToggleSquare | src/components/bingo/BingoBoard.tsx:25-39 | the board becomes the toggled board, the size is kept, and the bingo flag is recomputed for it |
| BingoBoardComponent.BingoBoard.ChangeSize | src/components/bingo/BingoBoard.tsx:16-39 | a new size switches to the board stored under that size's key, or a fresh one without bingo, and the flag is recomputed for the new size |
| BoardGameUtils.LabelsDistinct | src/utils/boardGameUtils.ts:46-71 | each space type has its own label |
| BoardGameUtils.IconsDistinct | src/utils/boardGameUtils.ts:18-43 | icons are distinct, except that start and finish share one |
| BoardGameUtils.CeilQuarter | src/utils/boardGameUtils.ts:80 | `Math.ceil(n / 4)` is the least r with 4r ≥ n |
| BoardGameUtils.CalculatePosition | src/utils/boardGameUtils.ts:74-96 | the first four spaces form the top row; x always lies in 0..3 |
| BoardGameUtils.LayoutOfSixteen | src/utils/boardGameUtils.ts:74-96 | on the 16-space board, spaces 0–3 run along the top, 4–6 down the right, and spaces 9 and 13 share (0, 3) |
| BoardGameUtils.FloorIndex | src/utils/boardGameUtils.ts:194 | `Math.floor(r·n)` for r in [0, 1) is a valid index |
| BoardGameUtils.RollDice | src/utils/boardGameUtils.ts:249-251 | a die roll is 1 to 6 |
| BoardGameUtils.BuildSpace | src/utils/boardGameUtils.ts:120-177 | one loop iteration builds the space described by the type pattern, the colour rule and the draws |
| BoardGameUtils.GenerateGameSpaces | src/utils/boardGameUtils.ts:99-180 | 16 spaces; space i is the one the type pattern, colour rule and draw i determine |
| BoardGameUtils.StartOnlyAtZero | src/utils/boardGameUtils.ts:104-114 | only space 0 is the start; no space is the finish |
| BoardGameUtils.SpaceColor | src/utils/boardGameUtils.ts:117-132 | the colour is `checkered` exactly on start and finish spaces; every other space i gets red, white or blue by i mod 3 |
| BoardGameUtils.SpaceIdentity | src/utils/boardGameUtils.ts:121-142 | a space's id `i.toString()` reads back as i, its type is pattern entry i mod 16, and its icon and label are those of its type |
| BoardGameUtils.SpaceExtras | src/utils/boardGameUtils.ts:145-174 | exactly trivia spaces carry a question from a quiz, chance spaces an outcome from the list, sip spaces 1–3 sips |
| BoardGameUtils.UsedColors | src/utils/boardGameUtils.ts:188 | one colour per player |
| BoardGameUtils.AvailableColors | src/utils/boardGameUtils.ts:189 | exactly the palette colours nobody uses |
| BoardGameUtils.CreatePlayer | src/utils/boardGameUtils.ts:183-202 | a new player has the given id and name, stands on space 0 and has a palette colour |
| BoardGameUtils.AvailableHead | src/utils/boardGameUtils.ts:189-193 | the first available colour is the first unused palette entry |
| BoardGameUtils.CreatePlayerFirstFree | src/utils/boardGameUtils.ts:189-194 | a new player gets the first palette colour not in use |
| BoardGameUtils.SetOfSeqSize | src/utils/boardGameUtils.ts:188 | a list of n colours covers at most n distinct colours |
| BoardGameUtils.CreatePlayerFreshColor | src/utils/boardGameUtils.ts:183-202 | with fewer than eight players, the new player's colour is unused |
| BoardGameUtils.MovePlayer | src/utils/boardGameUtils.ts:205-213 | moving keeps id, name and colour; a non-negative target wraps onto the board |
| BoardGameUtils.MoveIsModular | src/utils/boardGameUtils.ts:205-213 | the new position is (position + steps) mod n, and two moves equal one move by the sum |
| BoardGameUtils.InitializeGameState | src/utils/boardGameUtils.ts:216-225 | a fresh board, no players, index 0, not started |
| BoardGameUtils.ShippedQuizzesDrawable | src/utils/boardGameUtils.ts:148-153 | every shipped quiz has a question to draw |
| BoardGameUtils.NextPlayerIndex | src/utils/boardGameUtils.ts:254-256 | the next index stays among the players |
| BoardGameUtils.NextPlayerIndexRotates | src/utils/boardGameUtils.ts:254-256 | turns advance by one and wrap from the last player to the first |
| BoardGameUtils.RandomWheelType | src/utils/boardGameUtils.ts:270-273 | the draw's third of [0, 1) picks price, punishment or rules |
| BoardGameUtils.FindQuestionIndex | src/utils/boardGameUtils.ts:261 | the first question with the id; none iff no question has it |
| BoardGameUtils.FirstQuestionWithIdSpec | src/utils/boardGameUtils.ts:259-267 | the lookup fails iff no quiz has the id, and finds a question with that id otherwise |
| BoardGameUtils.FirstQuizWins | src/utils/boardGameUtils.ts:259-267 | a match in the first quiz wins over any later quiz |
| BoardGameUtils.FirstMatchingQuiz | src/utils/boardGameUtils.ts:259-267 | the lookup answers from the first quiz holding the id, whatever quiz that is |
| BoardGameUtils.GetTriviaQuestionById | src/utils/boardGameUtils.ts:259-267 | the loop over quizzes returns the first match of the whole catalogue |
| BoardGameUtils.TriviaIdsResolveToMixedQuiz | src/utils/boardGameUtils.ts:148-153 | a Norway-quiz trivia id resolves to the mixed quiz's question in the same position |
| BoardGamePage.RemoveById | src/pages/BoardGamePage.tsx:50 | the kept players are exactly those with another id |
| BoardGamePage.RemoveByIdAppend | src/pages/BoardGamePage.tsx:50 | filtering distributes over concatenation |
| BoardGamePage.RemoveAbsent | src/pages/BoardGamePage.tsx:50 | removing an absent id changes nothing |
| BoardGamePage.ReplaceById | src/pages/BoardGamePage.tsx:75-77 | with distinct ids, the player with the id is replaced by the moved player in its slot and nothing else changes; an id no player has changes nothing |
| BoardGamePage.ReplaceOnlyCurrent | src/pages/BoardGamePage.tsx:75-77 | with distinct ids, only the current player changes |
| BoardGamePage.LandingMessage | src/pages/BoardGamePage.tsx:80-117 | a position on the board gives that space's message; off the board there is none |
| BoardGamePage.StartFinishMessage | src/pages/BoardGamePage.tsx:110-112 | `Start/Finish space!` is shown exactly on start and finish spaces |
| BoardGamePage.MessageByType | src/pages/BoardGamePage.tsx:83-117 | apart from chance and sips, the message depends only on the type |
| BoardGamePage.MessageOfExtras | src/pages/BoardGamePage.tsx:89-109 | a chance message names one of the outcomes; a sips message names 1, 2 or 3 |
| BoardGamePage.SipsTextSmall | src/pages/BoardGamePage.tsx:104-109 | one to three sips print as a single digit |
| BoardGamePage.GeneratedMessage | src/pages/BoardGamePage.tsx:83-117 | on a generated board, chance messages name a listed outcome and sip messages a count of 1–3 |
| BoardGamePage.SmallNumberText | src/pages/BoardGamePage.tsx:104-109 | 1, 2 and 3 print as their digit |
| BoardGamePage.BoardGame.constructor | src/pages/BoardGamePage.tsx:18 | the page starts from a fresh game state |
| BoardGamePage.BoardGame.AddPlayer | src/pages/BoardGamePage.tsx:35-42 | before the start the player is appended, after it nothing changes; distinct ids and on-board positions are kept |
| BoardGamePage.BoardGame.RemovePlayer | src/pages/BoardGamePage.tsx:45-52 | before the start the player's id is filtered out, after it nothing changes |
| BoardGamePage.BoardGame.StartGame | src/pages/BoardGamePage.tsx:55-62 | the game starts only with at least two players |
| BoardGamePage.BoardGame.RollDice | src/pages/BoardGamePage.tsx:65-131 | without a current player nothing happens; otherwise the current player moves modulo the board, the turn passes on, and the landing message is returned |
| BoardGamePage.BoardGame.ResetGame | src/pages/BoardGamePage.tsx:134-140 | a confirmed reset gives a fresh board with no players; otherwise nothing changes |
| BoardGamePage.RollMovesOnlyCurrent | src/pages/BoardGamePage.tsx:72-77 | a roll moves the current player alone and keeps the ids distinct |
| BoardGamePage.AddThenRemove | src/pages/BoardGamePage.tsx:35-52 | removing a just-added player restores the list |
| QuizPage.FindAnswerIndex | src/pages/QuizPage.tsx:76 | the first answer for the question; none iff there is none |
| QuizPage.UpsertAnswer | src/pages/QuizPage.tsx:69-94 | an existing answer is overwritten in place; otherwise the answer is appended |
| QuizPage.UpsertThenFind | src/pages/QuizPage.tsx:69-94 | after answering, the question's answer is the new one |
| QuizPage.UpsertKeepsOthers | src/pages/QuizPage.tsx:69-94 | answering one question leaves other questions' answers alone |
| QuizPage.UpsertKeepsDistinct | src/pages/QuizPage.tsx:69-94 | at most one answer per question is kept |
| QuizPage.UpsertOverwrites | src/pages/QuizPage.tsx:69-94 | answering twice is answering once with the second answer |
| QuizPage.QuizPage.constructor | src/pages/QuizPage.tsx:19-24 | the page starts loading, with nothing selected |
| QuizPage.QuizPage.LoadRoute | src/pages/QuizPage.tsx:27-55 | a known route id selects its quiz and restores the saved answers when there are any; loading ends |
| QuizPage.QuizPage.SelectQuiz | src/pages/QuizPage.tsx:58-66 | selecting a quiz starts it at question 0 with no answers |
| QuizPage.QuizPage.HandleAnswer | src/pages/QuizPage.tsx:69-94 | the current question's answer becomes the given one, and one answer per question is kept |
| QuizPage.QuizPage.CurrentUserAnswer | src/pages/QuizPage.tsx:139-144 | the stored answer for the current question, or none |
| QuizPage.QuizPage.NextQuestion | src/pages/QuizPage.tsx:97-106 | advance, or complete the quiz and log the attempt on the last question |
| QuizPage.QuizPage.CompleteQuiz | src/pages/QuizPage.tsx:116-127 | the attempt with the answers and the time is saved and the quiz is marked completed |
| QuizPage.QuizPage.PrevQuestion | src/pages/QuizPage.tsx:109-113 | go back one question, never below 0 |
| QuizPage.QuizPage.Restart | src/pages/QuizPage.tsx:130-136 | back to question 0 with no answers |
| QuizPage.CompleteThenReload | src/pages/QuizPage.tsx:116-127 | after completing a quiz, reloading its route restores exactly those answers |

## Left out

- Persistence: `localStorage` and JSON are not modelled. The attempt log is the `QuizStore` object. The board-game save and load helpers and the page effects that call them (`boardGameUtils.ts` 228-246, `BoardGamePage.tsx` 22-32) are left out; the page keeps its state in memory.
- Timers: the 3-second `setTimeout` that commits a roll is left out, so a roll is one atomic step that returns its message. Clearing that message is left out too, and so is the dice animation in `PlayerControls.tsx` (line 46), a `setInterval` of ten 100 ms draws: the roll takes its final steps as a parameter.
- Randomness and identity:
  - `Math.random` becomes draws in [0, 1) passed as parameters;
  - `crypto.randomUUID` becomes an id parameter, and `Date.now` a `now` parameter.
  - Floating-point rounding is not modelled: `r * n` before `Math.floor` and the generator's `state / 233280` (BingoUtils.RandomValue) are exact.
- BingoUtils.CheckForBingo: requires at least rows × cols squares. On a shorter board the code reads `.marked` of a missing square (`bingoUtils.ts` 93) and throws a `TypeError`, unless an earlier line is already complete; that exception is not modelled.
- BingoBoardComponent.BingoBoard.ChangeSize: the storage hook is not part of this model. It takes the board the hook yields for the new size's key as a parameter and requires that board to have the new size's number of squares.
- BingoUtils.Shuffled: does not model the engine's `Array.prototype.sort` algorithm. The order the sort produces from the comparator values is a permutation parameter, so board contents hold for every order.
- Rendering, routing, the theme context, the wheel pages (`wheelUtils`), `quizCategories` and the quiz results screen are left out. They only display state, and so does the case-insensitive comparison on the results screen.
- BoardGamePage.BoardGame.ResetGame: `window.confirm` becomes the `confirmed` parameter.
- BoardGamePage.LandingMessage: has no `Landed on …` default branch. The space type is a closed datatype, so that branch cannot be reached.
- QuizUtils.Cipher: yields "" where `encryptAnswer` would throw at module load. This only happens for a non-Latin-1 answer, and CatalogueAnswersLatin1 proves that no shipped answer is one.
- QuizUtils.QuizStore: `getQuizAttempts` reading back a corrupt store is not modelled.
- QUIZ_PASSWORD_HASH (`quizUtils.ts` 58) is not used by the password check, and the debug `window.hashPassword` hook is not modelled.
- BoardGameUtils.MovePlayer: requires a non-zero board size. In JavaScript, `% 0` gives `NaN`; the board always has 16 spaces.
- BoardGameUtils.NextPlayerIndex: requires at least one player, because `% 0` gives `NaN`. The roll handler only calls it when there is a current player.
- The board-game and quiz pages take the quiz catalogue as a constructor parameter. The shipped catalogue is `QuizUtils.Quizzes`, which ShippedQuizzesDrawable and GetQuizByIdCases describe.
- QuizPage.QuizPage.HandleAnswer: requires the index to name a question of the selected quiz. The source would throw reading the id of a missing question.
- QuizPage.QuizPage.CurrentUserAnswer: has the same precondition as HandleAnswer, for the same reason.
- QuizPage.QuizPage.LoadRoute: only the final state is modelled. The `try`/`catch` around the route load is left out, because nothing in the model can throw.
- JsCore.NumberToString: covers integer arguments in radix 2–16 only. That includes the radices the code uses: 10 for square ids and sip counts, 16 for hashes.
