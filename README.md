# GamesBot trivia bot — a Dafny model

This project models the core of the GamesBot chat extension
(`gamesbot-bot/extension.py`). The extension listens to the chat messages of
one hub. It reads only those sent by the game host `•GamesBot•` and
recognises four kinds of message with anchored regular expressions:

- `numbers`: an arithmetic question. The bot answers with the result.
- `anagrams`: an anagram question. The bot answers with every stored word
  whose sorted letters equal the sorted letters of the question.
- `no_one`: nobody solved the question and the host reveals the word. The bot
  learns the word and says "New word learnt.".
- `other_user`: a player solved it. The bot learns the word and thanks the
  player, unless the player is the bot itself.

The knowledge index (`word_anagrams`) maps a signature (the word's letters in
sorted order) to the words stored under it, in the order they were learnt.

Modules:

- `Text`: character classes, "literal at a position" (`At`), and the greedy
  run length (`Span`) the recognizers are built from.
- `Decimal`: Python's `int()` on digit strings and `str()` on integers, with
  the round trip between them.
- `Signature`: `"".join(sorted(word))` as `Sig`, sorted and a permutation, and
  the fact that two words share a signature exactly when they are anagrams.
- `AnagramIndex`: the index, `update_dict`'s change to it (`Learn`), and the
  lookup of an anagram question.
- `Solver`: `solve_numbers`.
- `Recognizers`: the four patterns, hand-written as matchers with Python
  `re.match` semantics (anchored, greedy, backtracking where the pattern
  needs it, text after the match ignored). Each matcher is proved sound and
  complete against a rendering of the message it accepts. The dispatch tries
  them in dictionary order and takes the first match.
- `GamesBot`: one pass of the listen loop as a pure `Step`, the loop over a
  stream of frames as `Run`, and the `Bot` class. The class keeps the index,
  the words file and the texts sent as fields that its methods update in
  place. Each method is proved against `Step` and `Run`.

The model follows the code in three places where a reader might expect
otherwise:

- The signature is the plain sorted word. The code does no case folding.
- A `numbers` question that divides by zero raises `ZeroDivisionError`
  inside the loop. Nothing catches it, so the listen loop ends. `Step` returns
  `Failure(ZeroDivision)` and `Bot.React` clears `running`.
- `update_dict` runs before the own-nick check, so the bot learns a word it
  revealed itself even though it sends no thanks.

## Model

| member | source | states |
|---|---|---|
| Decimal.ParseNat | gamesbot-bot/extension.py:128-129 | `int()` of an operand of n digits is below 10^n; `ParseNatToString` and `SolveNumbersLeadingZero` state what it reads |
| Decimal.NatToString | gamesbot-bot/extension.py:132-138 | `str()` of a natural number is a non-empty digit text with no leading zero |
| Decimal.IntToString | gamesbot-bot/extension.py:132-138 | `str()` of any integer is an optional minus sign before such a text, never `-0`; `ParseIntToString` and `IntToStringInjective` state what it writes |
| Decimal.ParseNatToString | gamesbot-bot/extension.py:128-132 | `int()` reads back the value `str()` wrote, for every natural number |
| Decimal.ParseIntToString | gamesbot-bot/extension.py:131-138 | `int(str(i)) == i` for every integer, negative results included |
| Decimal.IntToStringInjective | gamesbot-bot/extension.py:131-138 | different answers are written as different texts |
| Signature.InsertChar | gamesbot-bot/extension.py:118 | inserting a letter into a sorted string keeps it sorted and adds exactly that letter |
| Signature.Sig | gamesbot-bot/extension.py:118 | the signature is sorted and is a permutation of the word |
| Signature.SortedUnique | gamesbot-bot/extension.py:118 | two sorted permutations of the same letters are equal, so the signature is unique |
| Signature.SigOfPermutation | gamesbot-bot/extension.py:181 | permuting the letters does not change the signature |
| Signature.SigEqualIffAnagrams | gamesbot-bot/extension.py:181 | two words share a signature if and only if they are anagrams |
| Signature.SigIdempotent | gamesbot-bot/extension.py:118 | sorting a signature again gives the same signature |
| AnagramIndex.Learn | gamesbot-bot/extension.py:117-122 | learning appends the word under its signature, or creates a one-word entry, and leaves every other entry as it was |
| AnagramIndex.LearnConsistent | gamesbot-bot/extension.py:117-122 | if every stored word sits under its own signature, learning keeps that so |
| AnagramIndex.LearnNeverForgets | gamesbot-bot/extension.py:119-122 | learning keeps every key, and each old entry is a prefix of the new one |
| AnagramIndex.LearnAddsOneCopy | gamesbot-bot/extension.py:119-120 | learning adds exactly one copy of the word to its entry |
| AnagramIndex.LearnTwiceStoresTwice | gamesbot-bot/extension.py:119-122 | learning a word twice leaves its entry as the old entry (empty if there was none) followed by two copies of the word, because the list is appended without a duplicate check |
| AnagramIndex.Lookup | gamesbot-bot/extension.py:181 | the lookup raises `KeyError` exactly when no entry has the letters' signature; `LookupSound` and `LookupComplete` state what it returns |
| AnagramIndex.LookupOfPermutation | gamesbot-bot/extension.py:179-181 | the lookup depends only on the multiset of the letters |
| AnagramIndex.LookupSound | gamesbot-bot/extension.py:181 | in a consistent index, every word the lookup returns is an anagram of the letters |
| AnagramIndex.LookupComplete | gamesbot-bot/extension.py:181 | in a consistent index, every stored anagram of the letters is returned |
| AnagramIndex.LookupAfterLearn | gamesbot-bot/extension.py:117-122 | after learning a word, a lookup of its anagram returns the old entry plus that word |
| AnagramIndex.LookupUnaffectedByLearn | gamesbot-bot/extension.py:117-122 | learning a word does not change the lookup of letters that are not its anagram |
| Solver.Apply | gamesbot-bot/extension.py:131-138 | the operation fails exactly when it divides by zero |
| Solver.ApplyMeaning | gamesbot-bot/extension.py:131-138 | `-` gives the difference, `+` the sum, `/` the largest `q` with `q * b <= a`, and any other operator the product |
| Solver.TruncatedQuotient | gamesbot-bot/extension.py:136 | `int(a / b)` on non-negative operands is the floor quotient |
| Solver.SolveNumbers | gamesbot-bot/extension.py:127-139 | the answer fails exactly on a zero divisor, and otherwise is an integer in decimal text |
| Solver.SolveNumbersCorrect | gamesbot-bot/extension.py:127-139 | the answer text reads back as the value of the operation on the operands' values |
| Solver.SolveNumbersLeadingZero | gamesbot-bot/extension.py:128-129 | leading zeros in an operand do not change the answer |
| Solver.ExampleAddition | gamesbot-bot/extension.py:133-134 | `7 + 5` is answered `12` |
| Solver.ExampleSubtraction | gamesbot-bot/extension.py:131-132 | `9 - 14` is answered `-5` |
| Solver.ExampleDivision | gamesbot-bot/extension.py:135-136 | `8 / 2` is answered `4` |
| Solver.ExampleDivisionTruncates | gamesbot-bot/extension.py:135-136 | `7 / 2` is answered `3` |
| Solver.ExampleMultiplication | gamesbot-bot/extension.py:137-138 | `6 x 7` is answered `42` |
| Solver.ExampleDivisionByZero | gamesbot-bot/extension.py:135-136 | `8 / 0` raises |
| Recognizers.MatchQuestion | gamesbot-bot/extension.py:55 | the position after a recognised header lies within the text; `QuestionComplete` and `QuestionSound` state what it recognises |
| Recognizers.QuestionComplete | gamesbot-bot/extension.py:55 | every text that starts with a valid header is recognised, up to the end of the header |
| Recognizers.QuestionSound | gamesbot-bot/extension.py:55 | every recognised header has valid parts and starts the text |
| Recognizers.ExpressionComplete | gamesbot-bot/extension.py:56 | a valid expression is recognised with its operands and operator |
| Recognizers.ExpressionSound | gamesbot-bot/extension.py:56 | a recognised expression has valid operands and operator, and occurs where it was found |
| Recognizers.MatchNumbers | gamesbot-bot/extension.py:54-56 | a match captures two operands and an operator; `NumbersComplete` and `NumbersSound` state what it recognises |
| Recognizers.NumbersComplete | gamesbot-bot/extension.py:54-56 | every text that starts with a `numbers` question is recognised with its captures |
| Recognizers.NumbersSound | gamesbot-bot/extension.py:54-56 | every `numbers` match comes from a text that starts with such a question |
| Recognizers.GroupsAreRun | gamesbot-bot/extension.py:59 | the greedy `( [A-Z]){0,10}` takes a run of space-letter pairs, stopping only at ten pairs or where no pair follows |
| Recognizers.GroupsOfRun | gamesbot-bot/extension.py:59 | a run of at most ten pairs, not followed by another pair unless it has ten, is exactly what the greedy repetition takes |
| Recognizers.LettersComplete | gamesbot-bot/extension.py:59 | valid letters not followed by a further pair are captured whole |
| Recognizers.LettersSound | gamesbot-bot/extension.py:59 | the captured letters are valid, occur at the position, and no further pair follows |
| Recognizers.MatchAnagrams | gamesbot-bot/extension.py:57-59 | a match captures letters; `AnagramsComplete` and `AnagramsSound` state what it recognises |
| Recognizers.AnagramsComplete | gamesbot-bot/extension.py:57-59 | every text that starts with an `anagrams` question is recognised with its letters |
| Recognizers.AnagramsSound | gamesbot-bot/extension.py:57-59 | every `anagrams` match comes from a text that starts with such a question |
| Recognizers.QuotedWordComplete | gamesbot-bot/extension.py:62 | a valid word followed by its quote is captured |
| Recognizers.QuotedWordSound | gamesbot-bot/extension.py:62 | a captured word is valid and followed by its quote |
| Recognizers.MatchNoOne | gamesbot-bot/extension.py:60-62 | a match captures a word; `NoOneComplete` and `NoOneSound` state what it recognises |
| Recognizers.NoOneComplete | gamesbot-bot/extension.py:60-62 | every `no_one` reveal is recognised with its word |
| Recognizers.NoOneSound | gamesbot-bot/extension.py:60-62 | every `no_one` match comes from a reveal of that word |
| Recognizers.SecondsComplete | gamesbot-bot/extension.py:65 | ` in [0-9]{1,3} seconds` is recognised for every valid count |
| Recognizers.SecondsSound | gamesbot-bot/extension.py:65 | a recognised seconds tail has a valid count |
| Recognizers.RevealComplete | gamesbot-bot/extension.py:64-65 | the fixed tail with a valid word and count is recognised with that word |
| Recognizers.RevealSound | gamesbot-bot/extension.py:64-65 | a recognised tail comes from a valid word and count |
| Recognizers.LongestNick | gamesbot-bot/extension.py:64 | the nick is the longest run of 2 to 50 nick characters after which the tail matches; there is none exactly when no such length exists |
| Recognizers.MatchOtherUser | gamesbot-bot/extension.py:63-65 | a match captures a nick and a word; `OtherUserComplete`, `OtherUserExact` and `OtherUserSound` state what it recognises |
| Recognizers.OtherUserComplete | gamesbot-bot/extension.py:63-65 | every `other_user` reveal is recognised |
| Recognizers.OtherUserExact | gamesbot-bot/extension.py:63-65 | a reveal is recognised with exactly its nick and word, because the tail cannot start again inside itself |
| Recognizers.OtherUserSound | gamesbot-bot/extension.py:63-65 | every `other_user` match comes from a reveal with that nick and word, and no longer nick fits |
| Recognizers.Recognize | gamesbot-bot/extension.py:170 | each pattern captures only its own kind of message |
| Recognizers.FirstMatch | gamesbot-bot/extension.py:169-174 | the loop finds nothing exactly when no pattern matches, and otherwise the first pattern that matches |
| Recognizers.AllPatternsListed | gamesbot-bot/extension.py:53-66 | the pattern list is exactly `numbers`, `anagrams`, `no_one`, `other_user`, the order of the dictionary's keys, so every pattern is tried |
| Recognizers.Dispatch | gamesbot-bot/extension.py:169-174 | no match exactly when every pattern fails; a match is of the first pattern that matches, and every earlier pattern fails |
| Recognizers.RecognizeValid | gamesbot-bot/extension.py:53-66 | every capture satisfies its group's pattern |
| Recognizers.DispatchValid | gamesbot-bot/extension.py:169-174 | the dispatched capture satisfies its group's pattern |
| Recognizers.NotAQuestion | gamesbot-bot/extension.py:55-58 | a text that does not start with `Question ` is neither a `numbers` nor an `anagrams` question |
| Recognizers.AnagramsNotNumbers | gamesbot-bot/extension.py:54-59 | an `anagrams` question never matches the `numbers` pattern |
| Recognizers.DispatchNumbers | gamesbot-bot/extension.py:169-176 | a `numbers` question is dispatched as `numbers` with its captures |
| Recognizers.DispatchAnagrams | gamesbot-bot/extension.py:169-178 | an `anagrams` question is dispatched as `anagrams` with its letters |
| Recognizers.DispatchNoOne | gamesbot-bot/extension.py:169-185 | a `no_one` reveal is dispatched as `no_one` with its word |
| Recognizers.DispatchOtherUser | gamesbot-bot/extension.py:169-185 | an `other_user` reveal is dispatched as `other_user` with its nick and word |
| GamesBot.RemoveSpaces | gamesbot-bot/extension.py:179 | the result has no spaces and keeps every other letter |
| GamesBot.Respond | gamesbot-bot/extension.py:175-197 | a handler fails exactly on division by zero, and changes the index only by learning one valid word |
| GamesBot.Step | gamesbot-bot/extension.py:165-197 | one message fails exactly when it is a host question dividing by zero, and changes the index only by learning one valid word |
| GamesBot.StepIgnores | gamesbot-bot/extension.py:165-174 | messages from other senders and unrecognised texts change nothing and send nothing |
| GamesBot.StepNumbers | gamesbot-bot/extension.py:175-176 | a `numbers` question sends exactly one text, which reads back as the operation's value |
| GamesBot.StepAnagrams | gamesbot-bot/extension.py:178-183 | an `anagrams` question sends the stored entry of the letters' signature, or nothing; in a consistent index exactly the stored anagrams |
| GamesBot.StepNoOne | gamesbot-bot/extension.py:185-194 | a `no_one` reveal learns the word and sends "New word learnt." |
| GamesBot.StepOtherUser | gamesbot-bot/extension.py:185-194 | an `other_user` reveal learns the word and thanks the player, except itself |
| GamesBot.StepKeepsIndex | gamesbot-bot/extension.py:185-187 | no message breaks consistency or makes the bot forget a word |
| GamesBot.ExampleMathematics | gamesbot-bot/extension.py:175-176 | `14 + 28` is answered `42` and nothing else |
| GamesBot.PlanetSignature | gamesbot-bot/extension.py:118 | the signature of `PLANET` is `AELNPT` |
| GamesBot.ExampleNoOneGotThat | gamesbot-bot/extension.py:185-194 | a revealed unknown word is stored under its signature and acknowledged |
| GamesBot.ExampleNoSelfThanks | gamesbot-bot/extension.py:189-192 | the bot learns a word it revealed itself but sends nothing |
| GamesBot.Run | gamesbot-bot/extension.py:156-197 | the listen loop keeps the index consistent |
| GamesBot.RunFirst | gamesbot-bot/extension.py:156-197 | the loop handles the first frame, then the rest, and stops at a fault |
| GamesBot.RunIgnoresOthers | gamesbot-bot/extension.py:165-166 | a stream with no host messages changes nothing and sends nothing |
| GamesBot.Bot.constructor | gamesbot-bot/extension.py:200 | the bot starts with the words file's index and nothing sent |
| GamesBot.Bot.UpdateDict | gamesbot-bot/extension.py:117-124 | the index becomes `Learn` of the old index, and the words file holds it |
| GamesBot.Bot.SendMessage | gamesbot-bot/extension.py:97-108 | one text is appended to the texts sent |
| GamesBot.Bot.SendAll | gamesbot-bot/extension.py:196-197 | the texts are sent in order, and nothing else changes |
| GamesBot.Bot.Recognise | gamesbot-bot/extension.py:169-174 | the pattern loop finds exactly the dispatch's capture |
| GamesBot.Bot.React | gamesbot-bot/extension.py:175-197 | the handler leaves the index, the texts sent and the running flag as `Respond` says |
| GamesBot.Bot.Handle | gamesbot-bot/extension.py:159-197 | one pass leaves the index, the texts sent and the running flag as `Step` says |
| GamesBot.Bot.Serve | gamesbot-bot/extension.py:156-197 | the loop over a stream of frames leaves the index, the texts sent and the running flag as `Run` says |

## Left out

- The websocket connection, the authorisation and hub handshake (lines 143-154), and the listener registration. They are I/O. The stream of inbound frames is a parameter of `Bot.Serve`.
- JSON decoding of frames. A frame is either a chat message with sender and text, or `Malformed` (the `KeyError` on `data` or `text`, which the loop skips). A frame whose `from` or `nick` key is missing raises outside the `try` and would end the loop. The model does not capture this.
- `send_message`'s acknowledgement read (line 109). `await websocket.recv()` takes the next frame from the same socket the listen loop reads at line 157. If a host message arrives before the acknowledgement, that read consumes it, and the message is never dispatched. The model does not capture this: `Bot.SendMessage` only appends the text to `outbox`, and the frames given to `Run` and `Bot.Serve` are the frames the loop's own read at line 157 receives, not every frame on the socket. The error reporting on the acknowledgement (lines 110-114) only logs.
- `eprint` and the HTTP event posts. They are logging only.
- Reading the configuration, the command-line arguments and the words file at start-up. The constructor takes the loaded index and `own_nick` as parameters.
- The words-file rewrite in `update_dict` (lines 123-124) is a ghost field `persisted`, kept equal to the index. File I/O is not modelled.
- Bot.Serve: the real loop never returns while the connection lives. The model runs until the frames run out or a fault stops it.
- Solver.Apply: `int(num1 / num2)` divides in floating point. The model uses exact integer division. Both operands are at most 9999, so the float quotient is exact enough that truncation gives the same integer.
- Solver.ApplyMeaning: a multiplication is stated as `a * b` rather than by an independent definition.
- Recognizers.DispatchOtherUser: stated only for nicks that start with neither `Q` nor `N`. Such a nick cannot begin a question or a `no_one` reveal, so the earlier patterns fail. Other nicks route the same way whenever the earlier patterns fail, which `Dispatch` states in general.
- The `auto-block` extension is not part of this model.
