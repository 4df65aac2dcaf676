# Enigma machine simulator — a Dafny model

This project models the core of a Java Enigma simulator:

- **Alphabets.** `CharacterRange` gives a range of characters or an explicit string of symbols.
- **Permutations.** A `Permutation` is built from cycle notation such as `"(AELTPHQXRU) (BKNW)"`. It holds a forward and a backward map over the alphabet, plus index forms that read their argument modulo the alphabet size.
- **Rotors.** Moving rotors have notches. Fixed rotors and reflectors never move.
- **The machine.**
  - `insertRotors`, `setRotors` and `setPlugboard` configure it.
  - `advance` applies the stepping rule with the double step.
  - `convert(int)` sends one index through the plugboard, right to left through the rotors, off the reflector, back left to right, and through the plugboard again.
  - `convert(String)` removes spaces, upper-cases the text and converts it symbol by symbol.
- **Driver helpers.** These come from `Main`:
  - the first-line check of `process`;
  - the count checks and the rotor-type dispatch of the configuration reader;
  - `hasDuplicates`;
  - `printMessageLine`, which prints blocks of five.

Where the model stands for the Java:

- Java `char` is modelled as `Char16`, an integer in `0..0xFFFF`, and strings as sequences of `Char16`.
- A thrown `EnigmaException` becomes a `Failure` of a `Result`.
- A failing `HashMap.get` unboxing, a division by zero in `wrap`, and a `charAt` out of range are also failures, each with its own error value.
- Mutation is replaced by functions that return the new machine.

Modules, one file each:

| module | file | what it models |
|---|---|---|
| `Errors` | `errors.dfy` | `Result` and `Outcome` |
| `Text` | `text.dfy` | characters, `trim`/`replaceAll`/`toUpperCase` |
| `Alphabets` | `alphabet.dfy` | `CharacterRange` |
| `CycleNotation` | `cycles.dfy` | the cycle-string parsing in the `Permutation` constructor |
| `Permutations` | `permutation.dfy` | `Permutation` |
| `Rotors` | `rotor.dfy` | `MovingRotor` and the rotor interface it relies on |
| `Machines` | `machine.dfy` | `Machine` |
| `Driver` | `driver.dfy` | the helpers of `Main` |
| `Vectors` | `vectors.dfy` | the concrete expectations of the unit tests, proved about the model |

Main results:

- **Permutations.**
  - Well-formed cycles give a bijection that follows the cycles.
  - A symbol is moved exactly when it lies in a cycle of two or more symbols.
  - The index forms agree with the character forms, and invert each other.
- **Rotors.** At any setting, `convertBackward` undoes `convertForward`.
- **Stepping.**
  - The `advance` loop computes a step in which every decision is taken on the state before the step.
  - The rightmost rotor always moves.
  - The double step happens.
- **Conversion.**
  - With a self-inverse plugboard and reflector, `convert(int)` is an involution at equal settings.
  - As a result, encrypting a ciphertext from the same settings gives back the cleaned plaintext.
- **Printing.** Removing the spaces from the printed five-letter blocks gives back the message.

## Model

| member | source | states |
|---|---|---|
| Alphabets.FromRange | enigma/CharacterRange.java:13-19 | A symbol is in the range alphabet exactly when it lies between `first` and `last`, and the symbols are in strictly increasing order. |
| Alphabets.DropReserved | enigma/CharacterRange.java:28-29 | The filtered string keeps only non-reserved characters, and a string with no reserved character is kept as it is. |
| Alphabets.Contains | enigma/CharacterRange.java:41-43 | `contains(c)` is true exactly when `c` is a symbol of the alphabet. |
| Alphabets.DropReservedShorter | enigma/CharacterRange.java:28-31 | Filtering out the reserved characters shortens the string exactly when one of them occurs in it. This is why the length comparison detects bad characters. |
| Alphabets.FromString | enigma/CharacterRange.java:24-33 | The explicit-string alphabet is built exactly when the string is non-empty and has no reserved character. Its symbols are then the string. An empty string fails with the empty-alphabet error. A string with a reserved character fails with the bad-characters error. |
| Alphabets.IndexOf | enigma/CharacterRange.java:41-43 | The first position of a symbol, or -1 exactly when the symbol is absent. |
| Alphabets.ToChar | enigma/CharacterRange.java:46-51 | Succeeds exactly for indices in `[0, size)` and returns the symbol there. Otherwise it fails with index-out-of-range. |
| Alphabets.ToInt | enigma/CharacterRange.java:54-59 | Succeeds exactly for symbols of the alphabet and returns their first position. Otherwise it fails with not-in-alphabet. |
| Alphabets.ContainsIffToInt | enigma/CharacterRange.java:41-43 | `contains` accepts exactly the symbols `toInt` accepts. |
| Alphabets.RangeAlphabet | enigma/CharacterRange.java:13-19 | A range alphabet has `last - first + 1` distinct symbols (none when `last < first`). Symbol `i` is `first + i`, and `toInt(c)` is `c - first` inside the range. |
| Alphabets.ToCharOfToInt | enigma/CharacterRange.java:46-59 | `toChar(toInt(c)) == c` for every symbol of the alphabet. |
| Alphabets.ToIntOfToChar | enigma/CharacterRange.java:46-59 | `toInt(toChar(i)) == i` for every in-range index when no symbol repeats. |
| Alphabets.RepeatedSymbolBreaksRoundTrip | enigma/CharacterRange.java:24-33 | The explicit-string constructor accepts `"AA"`, and then `toInt(toChar(1))` is 0. The no-repeat proviso is needed. |
| CycleNotation.ParensToSpaces | enigma/Permutation.java:23 | Same length; parentheses become spaces and every other character is kept. |
| CycleNotation.Trim | enigma/Permutation.java:24 | The result is a slice `s[lo..hi]` of the input with only characters at or below U+0020 outside it. It starts and ends with a character above U+0020 (or is empty), and an all-blank input gives the empty string. |
| CycleNotation.Tokens | enigma/Permutation.java:25 | Every token is non-empty and holds no whitespace. There is no token exactly when the input is all whitespace. |
| CycleNotation.TokensInSource | enigma/Permutation.java:25 | Every character of every token is a character of the input. |
| CycleNotation.TokensSplit | enigma/Permutation.java:25 | Splitting at a whitespace character: the tokens of `a + [w] + b` are the tokens of `a` followed by those of `b`. |
| CycleNotation.TokensOfRun | enigma/Permutation.java:25 | A non-empty string without whitespace is a single token. |
| CycleNotation.SplitOnSpace | enigma/Permutation.java:25 | `split("\\s+")`: a string without whitespace splits into itself (the empty string into the one empty string); an all-blank non-empty string gives no part; leading whitespace gives one empty first part; every part holds no whitespace and only characters of the input. |
| CycleNotation.TrimKeepsTokens | enigma/Permutation.java:24-25 | When every character at or below U+0020 is whitespace, trimming first does not change the tokens. |
| CycleNotation.Cycles | enigma/Permutation.java:23-25 | The cycles handed to `addCycle` hold no parenthesis and only characters of the input. Either all are non-empty or the list is the single empty string. |
| CycleNotation.CyclesOfNotation | enigma/Permutation.java:23-25 | Cycles written in parentheses, separated by any whitespace or none, read back as exactly those cycles. No cycles read back as the one empty cycle. |
| CycleNotation.OnlySeparators | enigma/Permutation.java:23-25 | A cycle string of only whitespace and parentheses (such as `""` or `"()"`) splits into the single empty cycle. |
| Permutations.Identity | enigma/Permutation.java:27-31 | Both maps send every alphabet symbol to itself. |
| Permutations.Wrap | enigma/Permutation.java:61-67 | The result lies in `[0, n)` and is the argument itself when the argument is already in range. |
| Permutations.JavaRem | enigma/Permutation.java:62 | Java's remainder lies strictly between `-n` and `n`, has the sign of the dividend, and is the dividend itself when that is already in `[0, n)`. |
| Permutations.JavaRemTruncates | enigma/Permutation.java:62 | The remainder is the truncating one Java defines: the Euclidean remainder of `|x|`, negated for a negative `x`. |
| Permutations.WrapIsModulo | enigma/Permutation.java:61-67 | `wrap` equals the mathematical (Euclidean) residue for negative arguments too. |
| Permutations.WrapAdd | enigma/Permutation.java:61-67 | Wrapping an intermediate sum changes nothing: `wrap(wrap(x) + y) == wrap(x + y)`. |
| Permutations.WrapOneTurn | enigma/Permutation.java:61-67 | `wrap(x + n) == x` for `x` in range. |
| Permutations.PermuteChar | enigma/Permutation.java:90-92 | Succeeds exactly when the symbol is a key of the forward map, and returns its image. |
| Permutations.InvertChar | enigma/Permutation.java:95-97 | Succeeds exactly when the symbol is a key of the backward map, and returns its image. |
| Permutations.PermuteIndex | enigma/Permutation.java:76-79 | A successful result is an index of the alphabet. An empty alphabet fails with division by zero. |
| Permutations.InvertIndex | enigma/Permutation.java:83-86 | A successful result is an index of the alphabet. An empty alphabet fails with division by zero. |
| Permutations.LinkChainForward | enigma/Permutation.java:49-54 | From position `i` of a repetition-free cycle, the loop sends each symbol to its successor. It leaves every other forward key as it was. |
| Permutations.LinkChainBackward | enigma/Permutation.java:49-54 | From position `i` of a repetition-free cycle, the loop sends each later symbol back to its predecessor. It leaves every other backward key as it was. |
| Permutations.AddCycleSpec | enigma/Permutation.java:41-58 | Adding a repetition-free cycle sends each of its symbols to the next one, the last to the first, and back in the backward map. No symbol outside the cycle changes. |
| Permutations.AddCyclesSpec | enigma/Permutation.java:33-35 | Adding pairwise disjoint cycles in order gives every cycle's links. Symbols in no cycle keep their old entries. |
| Permutations.AddCyclesCovers | enigma/Permutation.java:33-35 | Whatever the cycles, the alphabet is kept and every alphabet symbol stays a key of both maps. |
| Permutations.AddCycle | enigma/Permutation.java:41-58 | The alphabet is kept, no existing key is lost, and a non-empty cycle's last symbol is sent to its first (and back in the backward map). |
| Permutations.FromCycles | enigma/Permutation.java:18-37 | The constructed permutation is over the given alphabet, and every alphabet symbol is a key of both maps. |
| Permutations.FromCyclesFollowsCycles | enigma/Permutation.java:13-18 | For well-formed cycles, `permute` sends each cycle symbol to its successor, and `invert` undoes that. A symbol in no cycle maps to itself, as the class documentation promises. |
| Permutations.FromCyclesIsBijection | enigma/Permutation.java:13-37 | For well-formed cycles, both maps send the alphabet into itself and invert each other on it. |
| Permutations.SingletonCycleIsNoOp | enigma/Permutation.java:44-47 | A one-symbol cycle adds nothing to a permutation that already fixes that symbol. |
| Permutations.IndexPeriodic | enigma/Permutation.java:74-86 | `permute(int)` and `invert(int)` read their argument modulo the size. |
| Permutations.IndexRoundTrip | enigma/Permutation.java:74-86 | On a bijection over an alphabet without repeats, `invert(permute(i))` and `permute(invert(i))` are both `wrap(i)`. |
| Permutations.IndexMatchesChar | enigma/Permutation.java:74-97 | The index forms agree with the character forms: the symbol at `permute(i)` is the forward image of the symbol at `i`, and likewise for `invert`. |
| Permutations.SelfInverseIndex | enigma/Permutation.java:76-79 | For a self-inverse wiring (plugboard, reflector), `permute(permute(i)) == i`. |
| Permutations.Derangement | enigma/Permutation.java:106-114 | The loop as written returns true exactly when every symbol is fixed by both maps (see Findings). |
| Permutations.IsDerangement | enigma/Permutation.java:104-105 | The test the documentation describes returns true exactly when no symbol is fixed by either map. |
| Permutations.DerangementCounterexample | enigma/Permutation.java:104-114 | On the cycle `(c c+1)` over the two-symbol alphabet `c..c+1`, the as-written test answers false and the documented test answers true. |
| Permutations.MovedIffInLongCycle | enigma/Permutation.java:13-37 | For well-formed cycles, an alphabet symbol is moved by both maps exactly when it lies in a cycle of two or more symbols. Otherwise both maps fix it. |
| Permutations.PairCyclesSelfInverse | enigma/Permutation.java:18-58 | Well-formed cycles of at most two symbols (plugboard pairs, reflector pairs) build a permutation equal to its own inverse. |
| Permutations.NoFixedPointIffCovered | enigma/Permutation.java:104-105 | For well-formed cycles, the permutation is a derangement exactly when the cycles of length two or more cover the alphabet. |
| Rotors.Rotates | enigma/MovingRotor.java:29-31 | Exactly the moving rotors rotate; fixed rotors and reflectors do not. |
| Rotors.AtNotch | enigma/MovingRotor.java:34-36 | Only a rotating rotor with a non-empty notch set can be at a notch. |
| Rotors.NotchSet | enigma/MovingRotor.java:21-25 | The notch set holds exactly the characters of the notch string. |
| Rotors.NewMoving | enigma/MovingRotor.java:17-26 | A new moving rotor keeps its name and wiring and starts at setting 0. Its notches are exactly the notch string's characters. |
| Rotors.Advance | enigma/MovingRotor.java:39-41 | Kind, wiring and name are kept. A rotating rotor at setting `s` goes to `s + 1`, and from the last position back to 0, staying in range. A non-rotating rotor is unchanged. |
| Rotors.SetTo | enigma/Machine.java:85 | Setting a rotor to a symbol succeeds exactly when the symbol is in the rotor's alphabet. The setting then becomes that symbol's first index and nothing else changes. |
| Rotors.ConvertForward | enigma/Machine.java:104 | A successful result is a position of the rotor's alphabet. |
| Rotors.ConvertBackward | enigma/Machine.java:108 | A successful result is a position of the rotor's alphabet. |
| Rotors.ConvertRoundTrip | enigma/Machine.java:102-109 | For a bijective wiring over an alphabet without repeats, `convertBackward` undoes `convertForward` at any setting, and vice versa, up to `wrap`. |
| Rotors.ForwardInvolution | enigma/Machine.java:102-105 | A reflector with a self-inverse wiring converts as an involution at any setting. |
| Rotors.AdvanceTimesSetting | enigma/MovingRotor.java:39-41 | A moving rotor advanced `k` times from setting `s` is at `wrap(s + k)`. |
| Rotors.AdvanceFullTurn | enigma/MovingRotor.java:39-41 | Advancing a moving rotor `size` times returns it exactly to where it was. |
| Rotors.NoNotchesNeverAtNotch | enigma/MovingRotor.java:34-36 | A moving rotor built with an empty notch string is never at a notch. |
| Rotors.NonMovingInert | enigma/Machine.java:128-136 | Fixed rotors and reflectors do not rotate and are never at a notch, and advancing them changes nothing. |
| Machines.EmptyPlugboardIsIdentity | enigma/Machine.java:28 | The initial plugboard `new Permutation("", alpha)` fixes every symbol. |
| Machines.NewMachine | enigma/Machine.java:16-29 | A new machine keeps alphabet, counts and available rotors, has no rotor in a slot, and has an identity plugboard over its alphabet. |
| Machines.FindRotor | enigma/Machine.java:50-62 | Gives the first available rotor whose name equals the requested one after upper-casing, or -1 exactly when none matches. |
| Machines.FirstBadSlot | enigma/Machine.java:47-67 | Every slot before the result resolves to a rotor allowed in it, and the slot at the result does not. |
| Machines.SelectFrom | enigma/Machine.java:47-67 | The slot loop succeeds exactly when every slot resolves. It otherwise fails with the first bad slot's error: bad name, or reflector in the wrong place. On success slot `j` holds the first rotor matching name `j`. |
| Machines.InsertRotors | enigma/Machine.java:44-71 | Fails with the first bad slot's error. Otherwise it fails with the wrong-moving-count error exactly when the number of rotating rotors differs from the pawl count. On success the slots hold the named rotors, nothing else changes, and the reflector sits in slot 0 only. |
| Machines.SetSlots | enigma/Machine.java:80-86 | The settings loop succeeds exactly when each setting symbol is in the machine's alphabet and its rotor's alphabet. Slot `k` is then set to symbol `k - 1`. |
| Machines.SetRotors | enigma/Machine.java:76-88 | A settings string of the wrong length fails with bad-settings. Otherwise it succeeds exactly when every symbol is in the alphabet. The reflector slot and the rest of the machine are untouched, and every other slot is set to its symbol. |
| Machines.SetPlugboard | enigma/Machine.java:90-93 | The plugboard is replaced and every other part of the machine is kept. A plugboard over the machine's alphabet keeps a consistent machine consistent. |
| Machines.NewMachineValid | enigma/Machine.java:16-29 | A machine built from rotors over its alphabet is consistent. |
| Machines.ConfigurationKeepsValid | enigma/Machine.java:44-93 | `insertRotors`, `setRotors` and `setPlugboard` (with a plugboard over the machine's alphabet) keep the machine consistent. |
| Machines.StepAll | enigma/Machine.java:124-139 | A step keeps every rotor's kind, wiring and name, and every setting in range. |
| Machines.Step | enigma/Machine.java:124-139 | The left-to-right loop, in which slot `i` reads slot `i - 1` after that slot has already moved, computes the step in which every decision is taken on the state before the step. |
| Machines.StepEnds | enigma/Machine.java:128-129 | The rightmost slot advances at every step and the reflector slot never changes. |
| Machines.DoubleStep | enigma/Machine.java:133-135 | A rotor at its notch with a rotating left neighbour advances, and so does that neighbour (the double step). |
| Machines.NoNotchOnlyRightmost | enigma/Machine.java:124-139 | With no rotor at a notch, a step moves only the rightmost slot. |
| Machines.StepLeavesFixedRotors | enigma/Machine.java:124-139 | A rotor that does not rotate never changes in a step. |
| Machines.ForwardPass | enigma/Machine.java:102-105 | A loop over no slots returns its input. A successful loop over slots `lo .. k-1` lands on a position of slot `lo`'s alphabet. |
| Machines.BackwardPass | enigma/Machine.java:106-109 | A loop over no slot past the reflector returns its input. A successful loop lands on a position of slot `k - 1`'s alphabet. |
| Machines.Path | enigma/Machine.java:101-111 | A successful path lands on a position of the plugboard's alphabet. An empty plugboard alphabet fails with division by zero. The involution is Machines.PathInvolution. |
| Machines.ForwardThenBackwardStack | enigma/Machine.java:102-109 | For bijective rotors, the backward loop over slots 1 .. k-1 undoes the forward loop over the same slots. |
| Machines.BackwardThenForwardStack | enigma/Machine.java:102-109 | For bijective rotors, the forward loop over slots 1 .. k-1 undoes the backward loop over the same slots. |
| Machines.ForwardSplit | enigma/Machine.java:102-105 | The forward loop over all slots is the loop over slots 1 .. k-1 followed by the reflector. |
| Machines.PathInvolution | enigma/Machine.java:101-111 | With a self-inverse plugboard and reflector and bijective rotors, the signal path is an involution on the alphabet. |
| Machines.ConvertIndex | enigma/Machine.java:98-112 | A successful `convert(int)` leaves the machine as it was except for one step of the rotors. The machine stays consistent and the result is a position of the alphabet. |
| Machines.StepKeepsWired | enigma/Machine.java:124-139 | Stepping changes settings only, so the wiring conditions of the machine are kept. |
| Machines.ConvertIndexInvolution | enigma/Machine.java:98-112 | From the same state, converting the output index gives back the input index and the same stepped machine. |
| Machines.StepTimes | enigma/Machine.java:124-139 | Repeated stepping keeps the number of slots and every setting in range. |
| Machines.ConvertSymbols | enigma/Machine.java:157-162 | The symbol loop returns one output symbol per input symbol. Input and output symbols are all in the alphabet, and the machine stays consistent. |
| Machines.ConvertSymbolsSteps | enigma/Machine.java:157-162 | A converted message of length `k` leaves the machine as it was, except that the rotors have taken `k` steps. |
| Machines.ConvertString | enigma/Machine.java:153-164 | The output is as long as the message without spaces. The empty message gives the empty output and changes nothing. A symbol outside the alphabet, after upper-casing, makes it fail. The exact condition and error are in Machines.ConvertStringAccepts. |
| Machines.ConvertSymbolsAccepts | enigma/Machine.java:157-162 | On a wired machine, the symbol loop succeeds exactly when every symbol is in the alphabet, and otherwise fails with not-in-alphabet. |
| Machines.ConvertStringAccepts | enigma/Machine.java:153-164 | On a wired machine, `convert(String)` succeeds exactly when every symbol of the upper-cased message without spaces is in the alphabet, and otherwise fails with not-in-alphabet. |
| Machines.SymbolStep | enigma/Machine.java:98-112 | One symbol's conversion undoes itself and lands on an alphabet position whose symbol reads back to it. |
| Machines.ConsRoundTrip | enigma/Machine.java:157-162 | If the first symbol's conversion undoes itself and the tail's conversion does too, then the whole message's conversion undoes itself. |
| Machines.SymbolsRoundTrip | enigma/Machine.java:157-162 | From the same state, converting the ciphertext gives back the plaintext and the same final machine. |
| Machines.CleanInAlphabet | enigma/Machine.java:154-155 | Removing spaces and upper-casing leave a ciphertext unchanged when the alphabet has no spaces and no lower-case letters. |
| Machines.StringRoundTrip | enigma/UnitTest.java:64-72 | Over such an alphabet, `convert(convert(msg))` from the same settings is `msg` with spaces removed and letters upper-cased. This is the property the machine test checks on one message. |
| Driver.HasDuplicates | enigma/Main.java:261-269 | Passes exactly when all names are distinct. Otherwise it fails with the duplicate-rotors error. |
| Driver.DuplicateCheckIsCaseSensitive | enigma/Main.java:261-269 | Any two names equal after upper-casing select the same rotors, yet the duplicate check compares exactly, so `I` and `i` pass it. |
| Driver.Group | enigma/Main.java:271-286 | The printed line is never shorter than the message. Its exact layout is Driver.GroupLayout. |
| Driver.GroupLayout | enigma/Main.java:271-286 | The printed line has `n + (n - 1) / 5` characters for a message of `n > 0` symbols. Symbol `i` is at position `i + i / 5`, and every sixth position is a space. |
| Driver.GroupSeparators | enigma/Main.java:271-286 | For a message without spaces, the spaces of the printed line are exactly the separators between blocks. The line starts with the first symbol and ends with the last. |
| Driver.RemoveSpacesAppend | enigma/Machine.java:154 | Removing spaces distributes over concatenation. |
| Driver.GroupRemoveSpaces | enigma/Main.java:271-286 | Removing the separators from the printed line gives the message back. |
| Driver.GroupSnoc | enigma/Main.java:275-284 | Each further symbol is appended alone, or after one space when the current block is full. |
| Driver.PrintMessageLine | enigma/Main.java:273-286 | The counter loop prints exactly the grouped form of the message. |
| Driver.MakeRotor | enigma/Main.java:186-205 | The rotor-type dispatch succeeds exactly for `M` with a non-empty notch string inside the alphabet, `N`, or `R`. Each other case gets its own error. A moving rotor's notches are the type string's tail. |
| Driver.MadeRotorUsable | enigma/Main.java:186-205 | A rotor built over the machine's alphabet is a consistent rotor of that machine, with a notch set inside the alphabet. |
| Driver.CheckCounts | enigma/Main.java:125-138 | Passes exactly when there is at least one slot and the pawl count lies in `[0, numRotors)`, with the specific error otherwise. |
| Driver.MovingCountBound | enigma/Machine.java:46-67 | At most every slot holds a rotating rotor, and one fewer when slot 0 does not rotate. |
| Driver.CountsCheckNecessary | enigma/Main.java:125-138 | Any machine whose slots `insertRotors` can fill passes the count checks. |
| Driver.ClassifyLine | enigma/Main.java:90-99 | A later input line is echoed exactly when it is empty, and is a settings line exactly when it starts with `*`. Otherwise it is encoded after upper-casing. |
| Driver.Classify | enigma/Main.java:79-100 | The input is accepted exactly when its first line starts with `*`. Otherwise it fails with first-line-not-setting. Every later line is classified on its own. |
| Driver.RemoveSpacesUpperCase | enigma/Machine.java:154-155 | Removing spaces commutes with upper-casing. |
| Driver.EncodeUpperCaseRedundant | enigma/Main.java:97 | The driver's own upper-casing before `convert` changes nothing, since `convert` upper-cases again. |
| Vectors.CycleStringVector | enigma/PermutationTest.java:64-65 | The test's cycle string `(ABC) (DEF)(GHI)` reads as the three cycles ABC, DEF and GHI. |
| Vectors.PermutationVector | enigma/PermutationTest.java:64-67 | Over `A-J`, those cycles send ABCDEFGHIJ to BCAEFDHIGJ, and `invert` sends each image back. |
| Vectors.RangeAToJ | enigma/PermutationTest.java:65 | The test's alphabet `new CharacterRange('A', 'J')` holds the letters A to J. |
| Vectors.Slots | enigma/UnitTest.java:38-51 | The machine test's five slots (B, Beta, III, IV, I) have every setting in range. |
| Vectors.StepVectors | enigma/UnitTest.java:78-98 | Stepping takes AXLE to AXLF, AVJQ to BWKR (double step at III's notch), and AVAQ to BWBR. |
| Vectors.ConvertVectors | enigma/MovingRotorTest.java:74-93 | Rotor I converts forward and backward to the ten values the test lists, at settings 15, 25 and 0. |
| Vectors.RotorIConvert | enigma/MovingRotorTest.java:74-93 | A 26-symbol rotor whose wiring sends entry `e = wrap(p + k)` to `f` and back to `b` converts `p` to `wrap(f - k)` and `wrap(b - k)`. |
| Vectors.NotchVectors | enigma/MovingRotorTest.java:112-124 | With notches `ABC`, settings 0, 1 and 2 are at a notch and setting 3 is not. |
| Vectors.AdvanceVectors | enigma/MovingRotorTest.java:95-110 | A new rotor is at 0. One advance gives 1, two more give 3, and 25 wraps to 0. |

## Left out

- The configuration and input readers are left out because they are `Scanner` tokenising with regular expressions, and their I/O is not modelled. These are `readConfig`, `readRotor`, `checkGoToNextLine` and the settings-line parsing of `setUp` (`enigma/Main.java:102-256`). What is modelled of them:
  - the count checks (`Driver.CheckCounts`);
  - the rotor-type dispatch (`Driver.MakeRotor`);
  - the duplicate check `setUp` calls (`Driver.HasDuplicates`).
- `setUp` calls `error("Bad settings line")` without `throw` (`enigma/Main.java:216-217`), so a malformed settings line is silently skipped. The model has no settings-line grammar, so this behaviour is noted but not modelled.
- Output is left out. `printMessageLine` appends to a stream and ends with `println`. The model gives the characters of the line without the line terminator.
- `Rotor`, `FixedRotor`, `Reflector`, `Alphabet`, `EnigmaException` and the test helpers are not part of this model. Rotors.Entry, Rotors.Exit, Rotors.ConvertForward and Rotors.ConvertBackward assume the usual base-class behaviour:
  - `convertForward(p)` is `wrap(permute(wrap(p + setting)) - setting)`;
  - `convertBackward` is the same through `invert`;
  - `set(char)` takes the symbol's index in the rotor's alphabet;
  - a fixed rotor or reflector starts at setting 0, does not rotate, is never at a notch, and ignores `advance`.
- Vectors.RotorIWiring assumes the historical rotor I wiring (`EKMFLGDQVZNTOWYHXUSPAIBRCJ`), because the tests take it from a helper table that is not part of this model.
- The tests' end-to-end message vectors are not restated. The wirings of B, Beta, III and IV come from that same missing table. The message-level round trip those tests check is proved in general instead (Machines.StringRoundTrip).
- Machines.InsertRotors: does not model two slots sharing one rotor object. `insertRotors` puts the same `Rotor` object in every slot whose name matches it up to case (`enigma/Machine.java:51`, `enigma/Machine.java:59`), while the duplicate check compares names exactly (`enigma/Main.java:264`). So `B Beta III IV iv` with 3 pawls is accepted. `setRotors("AXLE")` then sets that one object to L and then to E (`enigma/Machine.java:85`), and `advance` can step it from both slots (`enigma/Machine.java:129`, `enigma/Machine.java:135`). The model keeps an independent copy per slot, so its ciphertext differs from Java's for such a configuration.
- Machines.ConvertString: does not model the steps taken before a failure. When a later symbol is not in the alphabet, Java has already stepped the rotors for the earlier symbols (`enigma/Machine.java:157-161`). The model returns only the error and no machine.
- Aliasing is not modelled. In Java the machine and the caller share rotor objects, and `setRotors` mutates the rotors it set before failing at a later symbol. The model returns a new machine on success and reports only the error on failure.
- `getSettings`, `getRotors`, `getAlphabet`, `numRotors`, `numPawls`, `alphabet()` and `set(int)` are plain accessors or setters and are used implicitly.
- Machines.ConvertIndex, Machines.ConvertSymbols and Machines.ConvertString require a consistent machine (Machines.Valid). This means the plugboard and all rotors are over the machine's alphabet and the settings are in range. Every configuration operation keeps that, but a machine whose rotors use a different alphabet object is outside the model.
- Text.UpperChar upper-cases the ASCII letters only. Java's `toUpperCase` also maps other Unicode letters.
- Integer overflow is not modelled. Java `int` arithmetic in `wrap(p + setting)` and in the loop counters could overflow only past 2^31 symbols or steps, so unbounded integers are used.
- Machines.NewMachine does not check `1 < numRotors`. The constructor's documentation asks for it, but the code does not check it, and the configuration reader accepts a single slot (`enigma/Main.java:125-127`). The model follows the code.

## Findings

| source | as written | input that shows it | evidently intended | confidence | as-written member | corrected member |
|---|---|---|---|---|---|---|
| enigma/Permutation.java:104-114 | `derangement()` returns false as soon as some symbol is moved, so it answers true only when every symbol is fixed (the identity) | the cycle `(AB)` over the alphabet `A-B`: no symbol is fixed, yet the method answers false | true exactly when no symbol maps to itself, as its documentation says | medium, not executed; the repository's own derangement test (`enigma/PermutationTest.java:94-105`) asserts the as-written behaviour | Permutations.DerangementCounterexample | Permutations.IsDerangement |
