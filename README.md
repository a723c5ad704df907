# A verified model of the N-move rock-paper-scissors game

The program is a console game of rock-paper-scissors generalised to any odd
number N >= 3 of moves named on the command line. Before the user moves, the
program commits to its own move. It publishes the HMAC-SHA256 of the move,
keyed by 32 secret random bytes. After the user moves, it reveals the key in
hex, so that the user can recompute the HMAC and check that the computer did
not change its move.

This project models the logic of that program in Dafny, in five modules:

- `WinRule` (win_rule.dfy) models `GetWinMessage` exactly as written, with
  C#'s 32-bit `int`: the wrap-around of `+=` and `+`, and `/ 2` truncating
  toward zero. Beside it stands the cyclic rule the game means to follow:
  each move beats the next (N-1)/2 moves around the circle. Lemmas say where
  the code follows that rule and where it does not (see "## Findings").
- `HexCodec` (hex_codec.dfy) models `ToHexFromUTF8` as the chain
  `BitConverter.ToString` -> `Replace("-", "")` -> `ToLower`. It proves that
  the chain is lowercase base16. `HexDecode` is a method over a byte array
  that is proved against the function `Decoded`. The round trip
  `Decoded(ToHexFromUtf8(b)) == Some(b)` is proved.
- `ArgsCheck` (args_check.dfy) models `CheckIfArgsCorrect` as a method with
  the source's single pass over the sorted entries. The method is proved to
  return exactly `ArgsValid`: the list is present, has an odd length of at
  least 3, has no null or blank entry, and has no two entries equal ignoring
  case.
- `Round` (round.dfy) models the decision `Main` takes on the user's line.
  It also models the key and HMAC of one round, and proves that the revealed
  key lets anyone recompute the published HMAC.
- `Ascii` (ascii.dfy) and `Wrappers` (wrappers.dfy) are shared helpers: ASCII
  lower-casing and `Option`.

Where the code differs from what the game evidently intends, the model follows
the code. Two
cases matter. First, a line that does not parse, or is out of range, does not
simply re-prompt. The `continue` at Intra/Program.cs:46 and :51 starts a new
round, with a new computer move and a new key (`Round.Classify` returns
`Restart`). Second, the win rule is not the cyclic rule when the computer's
index is below the user's.

## Model

| member | source | states |
|---|---|---|
| `WinRule.Message` | Intra/Program.cs:151-167 | the three lines "Draw", "Computer win" and "You win" stand for the three outcomes one to one, so the printed line tells the outcome |
| `WinRule.GetWinMessage` | Intra/Program.cs:149-169 | the printed line is "Draw" exactly on equal indices, "Computer win" exactly when the as-written verdict is a computer win, and "You win" exactly when it is a user win |
| `WinRule.WinMessage` | Intra/Program.cs:149-169 | the result is "Draw" exactly when the two move indices are equal; otherwise it is one of "Computer win" and "You win" |
| `WinRule.Wrap32` | Intra/Program.cs:159 | C# unchecked `int` addition: the sum is congruent to the true sum modulo 2^32 and equals it when it fits in 32 bits |
| `WinRule.Half` | Intra/Program.cs:162 | C# `amountOfMoves / 2` truncates toward zero: for n >= 0 it lies between (n-1)/2 and n/2, for n < 0 between n/2 and (n+1)/2 |
| `WinRule.AboveComparesDistance` | Intra/Program.cs:157-166 | when the computer's index is above the user's, the computer wins iff `c - u <= N / 2` |
| `WinRule.BelowIgnoresUserMove` | Intra/Program.cs:157-164 | when the computer's index is below the user's, the code adds the user's index (not N), so the computer wins iff `c <= N / 2`, whatever the user played |
| `WinRule.AgreesWhenComputerNotBelow` | Intra/Program.cs:157-166 | for odd N and `u <= c`, the code's verdict equals the cyclic rule's |
| `WinRule.AgreesExactlyWhen` | Intra/Program.cs:157-166 | for odd N, the code and the cyclic rule agree iff `u <= c` or (`c <= N / 2` iff `u - c > N / 2`) |
| `WinRule.PaperAgainstRockCounterexample` | Intra/Program.cs:157-164 | N = 3, user paper (1), computer rock (0): the code says "Computer win", the cyclic rule says the user wins |
| `WinRule.CyclicOutcome` | Intra/Program.cs:149-169 | the corrected, cyclic rule: a draw exactly on equal indices |
| `WinRule.CyclicIsBalanced` | Intra/Program.cs:149-169 | under the cyclic rule, for odd N >= 3 every move beats exactly (N-1)/2 moves, loses to exactly (N-1)/2 and draws only with itself |
| `WinRule.AsWrittenIsUnbalanced` | Intra/Program.cs:149-169 | under the code, with N = 3 the user's paper loses to two of the three computer moves and beats none |
| `HexCodec.LowerHex` | Intra/Program.cs:75-80 | lowercase base16 has two characters per byte, all from `0-9a-f`, with no separators |
| `HexCodec.ToHexFromUtf8` | Intra/Program.cs:75-80 | the chain `BitConverter.ToString`, then removing every '-', then lower-casing, gives exactly lowercase base16 (`LowerHex`) |
| `HexCodec.ChainIsLowerHex` | Intra/Program.cs:77 | the same fact, by induction over the bytes: dash-separated upper-case pairs, with the dashes removed and lower-cased, are the lowercase pairs |
| `HexCodec.ParseHexByte` | Intra/Program.cs:87 | `byte.Parse(pair, NumberStyles.HexNumber)`: two hex digits of either case parse to 16 * high + low |
| `HexCodec.ParseRejectsBlank` | Intra/Program.cs:87 | a string of white space only, the empty string included, makes `byte.Parse` throw |
| `HexCodec.ParseRejectsStrayChar` | Intra/Program.cs:87 | a character that is neither white space nor a hex digit, anywhere in the string, makes `byte.Parse` throw |
| `HexCodec.Decoded` | Intra/Program.cs:82-91 | a successful decode has `hex.Length / 2` bytes and byte i is what `byte.Parse` gives pair i; a failed decode has some pair that does not parse |
| `HexCodec.HexDecode` | Intra/Program.cs:82-91 | the array filled pair by pair, or the exception of the first pair that does not parse, is exactly `Decoded(hex)` |
| `HexCodec.DecodedFailsOnBadPair` | Intra/Program.cs:87 | one pair that `byte.Parse` rejects makes the whole decode fail |
| `HexCodec.DecodedIgnoresOddTail` | Intra/Program.cs:84-87 | a trailing odd character is silently ignored |
| `HexCodec.WhiteSpaceInPairIsAccepted` | Intra/Program.cs:87 | the hex number style allows white space around the digits: a pair of one white-space character and one hex digit, in either order, parses to the value of that digit |
| `HexCodec.ParseLowerPair` | Intra/Program.cs:87 | `byte.Parse` of the two lowercase digits of a byte gives that byte |
| `HexCodec.HexRoundTrip` | Intra/Program.cs:75-91 | decoding what `ToHexFromUTF8` prints gives the original bytes back |
| `HexCodec.ToHexFromUtf8Injective` | Intra/Program.cs:75-80 | different byte strings print as different hex strings |
| `ArgsCheck.SortArgs` | Intra/Program.cs:105 | the sort returns a permutation of the entries, ordered with null first and then by lowered text |
| `ArgsCheck.NeighboursSuffice` | Intra/Program.cs:105-116 | in the sorted list, if no two neighbours are equal ignoring case, then no two entries are |
| `ArgsCheck.BlankFound` | Intra/Program.cs:110-113 | a null or white-space-only entry met in the walk makes the list invalid |
| `ArgsCheck.PairFound` | Intra/Program.cs:110-113 | two neighbours equal ignoring case in the walk are two entries of the list equal ignoring case |
| `ArgsCheck.CleanWalk` | Intra/Program.cs:107-118 | a walk that finishes without rejecting, after the count checks, proves the list valid |
| `ArgsCheck.CheckIfArgsCorrect` | Intra/Program.cs:93-119 | returns true iff the list is non-null, has an odd count of at least 3, has no null or blank entry, and has no two entries equal ignoring case |
| `Round.Classify` | Intra/Program.cs:43-57 | restart iff the line does not parse or is outside [0, N]; exit iff it is 0; otherwise play move k-1 with 0 <= k-1 < N, so `args[intUserInput - 1]` is in bounds |
| `Round.EveryMoveSelectable` | Intra/Program.cs:35-59 | typing the menu number i+1 plays move i, and only that number does |
| `Round.PlayRound` | Intra/Program.cs:42-61 | a line that restarts (`continue`) gives a new round and only it does; the exit line (`break`) quits and only it does; a round finishes exactly when the line plays a move; the move is in range, is a draw iff it equals the computer's move, and gets `GetWinMessage`'s verdict and printed line |
| `Round.AsciiBytes` | Intra/Program.cs:143 | `Encoding.ASCII` keeps one byte per character: a character below 128 is its own code, any other becomes '?' |
| `Round.AsciiMergesNonAscii` | Intra/Program.cs:143 | two different non-ASCII move names ("é", "è") encode to the same bytes, so they get the same HMAC |
| `Round.SecureRandom` | Intra/Program.cs:129-137 | the key string is the lowercase base16 encoding of the 32 random bytes, 64 characters long |
| `Round.GetHmac` | Intra/Program.cs:139-147 | for a key string that is the lowercase base16 encoding of bytes k, the HMAC is the MAC keyed by k over the input's ASCII bytes; a key string that does not decode throws |
| `Round.SecretKeyShape` | Intra/Program.cs:129-137 | the printed key decodes to exactly the 32 random bytes |
| `Round.CommitmentVerifiable` | Intra/Program.cs:27-63 | the published HMAC is keyed by the 32 random bytes, and anyone who reads the revealed key as base16 bytes k and recomputes the MAC of the computer's move with k obtains the published HMAC |
| `Round.PublishedHexBinds` | Intra/Program.cs:30-31 | two HMACs print as the same hex string iff they are the same bytes |

## Left out

- HMAC-SHA256 (Intra/Program.cs:141-145) is a library call. It is the parameter `mac` of `Round.GetHmac`, a function of key bytes and message bytes.
- `RNGCryptoServiceProvider` and `System.Random` (Intra/Program.cs:121-134) are nondeterministic. Their outputs are parameters: 32 bytes, and a move index below the count.
- Console output, `Console.ReadKey` and the `while (true)` loop of `Main` are I/O. Only the decision on the user's line and one round's values are modelled.
- `int.TryParse` is not modelled: its result is the `Option<int>` given to `Round.Classify`.
- `ArgsCheck.SortArgs`: the culture-aware `OrderBy` is replaced by an order on ASCII-lowered text. The check relies on one property of the order: entries equal ignoring case end up next to each other. This is proved for the model's order and assumed of .NET's collation.
- `ArgsCheck.SameIgnoringCase` folds ASCII letters only. `InvariantCultureIgnoreCase` also folds non-ASCII letters and ignores some characters; that is not modelled.
- `HexCodec.ToHexFromUtf8` lower-cases ASCII only. The culture-aware `ToLower` only ever sees hex digits here, so this changes nothing.
- `Round.AsciiBytes` maps every non-ASCII character to '?'. So the HMAC does not bind non-ASCII move names: two names of the same length that differ only in non-ASCII characters commit to the same value (`Round.AsciiMergesNonAscii`). The program tells the user to re-check the HMAC with an external web page that takes the move as text. Whether that page encodes the text the same way is outside this model.
- `HexCodec.Decoded`, `HexCodec.HexDecode` and `HexCodec.DecodedIgnoresOddTail` model strings as sequences of Unicode scalar values, while .NET's `Length` and `Substring` count UTF-16 code units. For a string holding a character above U+FFFF the two lengths differ, so pairs and the odd tail fall differently ("00" followed by U+1F600 decodes to one byte here, while .NET parses a surrogate pair and throws). The program only decodes its own 64-character ASCII key, where the two agree. `Round.AsciiBytes` writes one '?' per such character, as .NET's replacement fallback does.
- `HexCodec.ParseHexByte` does not accept trailing NUL characters, which .NET's number parser also skips.
- `WinRule.AboveComparesDistance`, `WinRule.BelowIgnoresUserMove`, `WinRule.AgreesWhenComputerNotBelow` and `WinRule.AgreesExactlyWhen` assume N < 2^30, so that no sum wraps around. `WinRule.WinMessage` itself models the wrap-around.

## Findings

| source | as written | input that shows it | evidently intended | confidence | as-written member | corrected member |
|---|---|---|---|---|---|---|
| Intra/Program.cs:157-164 | when `computerMove < userMove`, it adds `userMove` to `computerMove` | N = 3, user paper (1), computer rock (0): "Computer win" | add `amountOfMoves`, which gives the cyclic rule: the computer wins iff `(c - u) mod N` is in 1..(N-1)/2, and every move beats exactly (N-1)/2 others | high (proved; not executed) | `WinRule.PaperAgainstRockCounterexample` | `WinRule.CyclicIsBalanced` |

`Round.PlayRound` keeps the code's verdict, because the model reproduces the
program. `WinRule.CyclicOutcome` is the corrected rule. `WinRule.AgreesExactlyWhen`
says on which inputs the two differ.
