# Dice notation parser of rpg_dices_bot, in Dafny

The bot reads tabletop dice expressions such as `2d6+1` or `3d8-2`. Its parser,
`parse` in `dices.py`, works in three steps:

1. It deletes every space character (U+0020) from the text.
2. It matches the rest with `re.match` against `^(\d+)[dD](\d+)([+-]\d+)?$`.
3. On a match it returns the tuple `(count, faces, modifier)` read with `int`.
   An absent modifier gives 0. On a mismatch it returns `None`.

This project models that function as pure Dafny functions and proves what it accepts,
what it rejects and what it returns.

- `wrappers.dfy` (module `Wrappers`): the `Option` type. It stands for Python's `X or None`.
- `numerals.dfy` (module `Numerals`): ASCII digits and `int` on unsigned and signed
  numerals (`Value`, `SignedValue`). It also holds the canonical spellings `Decimal` and
  `SignedDecimal` that the round-trip lemmas use.
- `dices.dfy` (module `Dices`): `RemoveSpaces`, a scanner `Match` for the regular expression,
  and `Parse`.
  - `Match` takes each digit run greedily.
  - It is proved sound and complete against a declarative description of the pattern.
    `Groups` holds the three groups and the dice letter, `WellFormed` says what each part
    accepts, and `Spelling` is the text the groups came from.
  - The file ends with lemmas for the unit tests embedded in `dices.py`, some of which share a
    lemma, and for the edge cases of the code. `test_ignore_spaces` (`dices.py:69-73`) has no
    lemma on its literal; the general lemma `ParseIgnoresSpaces` states its property for every text.

Modelling decisions:

- **Digits.** `\d` is taken to be `'0'..'9'`. Python's `\d` on `str` also matches other
  Unicode decimal digits.
- **`$` anchor.** Python's `$` (without MULTILINE) matches at the end of the text and also
  just before one final `'\n'`. The model does the same: `"2d4+6\n"` is accepted, and
  `"2d4+6\n\n"` is rejected.
- **What is removed.** Only `' '` is removed. Tabs and carriage returns stay, so they make
  the match fail.
- **No range checks.** Count and faces are unbounded `nat`s. `"0d4+6"` gives `(0, 4, 6)` and
  `"2d0"` gives `(2, 0, 0)`. `int` is taken to have no digit limit; see "Left out" for
  the 4300-digit limit of recent CPython releases.
- **The code wins over an old test.** `tests/dices-tests.py:48-52` expects a zero count or
  zero faces to be rejected. The `dices.py` modelled here does not reject them, and the model
  follows the code.
- **Two gaps in the embedded tests.** `test_success_with_D` (`dices.py:81-85`) actually
  passes a lower-case `d`. `test_fail_for_negative_faces` (`dices.py:66-67`) repeats
  `'2d+4+6'` where `'2d-4+6'` was meant. The model proves both intended cases:
  `AcceptsEitherLetter` and `RejectsNegativeFaces`.

## Model

| member | source | states |
|---|---|---|
| Dices.RemoveSpaces | dices.py:8 | the result has no space, and a text without spaces is returned unchanged |
| Dices.RemoveSpacesKeepsOthers | dices.py:8 | every character other than `' '` occurs in the result exactly as often as in the input |
| Dices.RemoveSpacesAppend | dices.py:8 | removing spaces distributes over concatenation, so the kept characters stay in order |
| Dices.RemoveSpacesIdempotent | dices.py:8 | removing spaces twice gives the same text as removing them once |
| Dices.DigitRun | dices.py:7 | greedy `\d+`: the returned prefix is all digits, and the next character, if there is one, is not a digit |
| Dices.MatchTail | dices.py:7 | `([+-]\d+)?$`, soundness: a returned modifier is a sign followed by one or more digits, and it is followed only by nothing or by one newline; completeness is `Dices.MatchTailComplete` |
| Dices.MatchTailComplete | dices.py:7 | every optional signed numeral followed by nothing or one newline is scanned back to exactly that modifier |
| Dices.Match | dices.py:7-8 | soundness: a returned match is well formed, and the text is exactly its spelling, or its spelling and one `'\n'` |
| Dices.MatchComplete | dices.py:7-8 | completeness and uniqueness: every well-formed group set, spelled out and followed by nothing or one newline, is matched to exactly those groups |
| Dices.MatchIff | dices.py:7-11 | the scanner succeeds if and only if the text is described by the pattern |
| Dices.Parse | dices.py:6-21 | a result is the value of a match of the space-stripped text |
| Dices.ParseAcceptsExactly | dices.py:7-11 | `parse` is not `None` if and only if the stripped text is digits, `d` or `D`, digits, an optional signed numeral, and at most one final newline |
| Dices.ParseOfSpelling | dices.py:13-21 | every text the pattern describes parses to `int` of its count, `int` of its faces and its modifier (0 when absent) |
| Dices.ParseIgnoresSpaces | dices.py:8 | `parse(s) == parse(s without spaces)`; this is the property `test_ignore_spaces` checks at dices.py:69-73 |
| Dices.ParseIgnoresSpace | dices.py:8 | inserting one space anywhere does not change the result |
| Dices.ParseRoundTrip | dices.py:7-21 | for every count, faces, signed modifier and either dice letter, parsing their decimal spelling gives them back, with no range check |
| Dices.ParseRoundTripBeforeEnd | dices.py:7 | the same round trip holds with one final newline |
| Dices.ParseWithoutModifier | dices.py:21 | with no modifier written, the modifier is 0 |
| Dices.ParseFinalNewline | dices.py:7-8 | appending one newline to a text whose space-stripped form does not already end in a newline does not change the result |
| Dices.ParseRejectsTwoNewlines | dices.py:7 | two final newlines always give `None` |
| Dices.CountIsMandatory | dices.py:7 | a stripped text that is empty or does not start with a digit gives `None`: no count, `+2`, `-2` |
| Dices.FacesAreMandatory | dices.py:7 | a count and a dice letter not followed by a digit give `None`: no faces, signed faces |
| Dices.LetterIsMandatory | dices.py:7 | digits alone give `None` |
| Dices.SpellingAlphabet | dices.py:7 | every character of a matched text is a digit, `d`, `D`, `+`, `-` or the final newline |
| Dices.ParseRejectsForeignCharacter | dices.py:7-8 | any other character anywhere in the stripped text (a letter such as `x`, a tab) gives `None` |
| Dices.CountLeadingZero | dices.py:8-21 | for a text whose space-stripped form starts with a digit, a leading zero on the count is accepted and does not change the result |
| Dices.ZeroBeforeCount | dices.py:7-21 | on a text that starts with a digit, a prefixed `'0'` matches exactly when the text does, and gives the same count, faces and modifier |
| Numerals.Value | dices.py:21 | `int` of an n-digit numeral is below 10^n |
| Numerals.SignedValue | dices.py:21 | `int` of a signed modifier keeps its written sign, and its magnitude is below 10^n for n digits; `SignedValueOfSignedDecimal` and `SignedZero` give its value |
| Dices.ModifierValue | dices.py:21 | `int(modifier) if modifier else 0`; it has no ensures, and `ParseWithoutModifier` (absent modifier gives 0) and `ParseOfSpelling` state its meaning |
| Dices.Evaluate | dices.py:21 | the returned tuple `(int(count), int(faces), modifier)`; it has no ensures, and `ParseOfSpelling` and `ParseRoundTrip` state its meaning |
| Numerals.ValueOfDecimal | dices.py:21 | `int` of the decimal spelling of n is n |
| Numerals.SignedValueOfSignedDecimal | dices.py:21 | a signed spelling is a signed numeral, and `int` of it gives back the number with its sign |
| Numerals.ValueLeadingZero | dices.py:21 | `int('0' + s) == int(s)` |
| Numerals.SignedZero | dices.py:21 | `+0` and `-0` are both modifiers of value 0 |
| Dices.RejectsEmptyText | dices.py:29-30 | `parse('')` is `None` |
| Dices.RejectsMissingCount | dices.py:32-33 | `parse('d2')` is `None` |
| Dices.RejectsNonNumericCount | dices.py:35-36 | `parse('x')` is `None` |
| Dices.RejectsNonNumericAfterCount | dices.py:37 | `parse('2x')` is `None` |
| Dices.RejectsMissingLetter | dices.py:39-40 | `parse('2')` is `None` |
| Dices.RejectsMissingFaces | dices.py:42-43 | `parse('2d')` is `None` |
| Dices.RejectsNonNumericFaces | dices.py:45-46 | `parse('2dx')` is `None` |
| Dices.RejectsUnsignedModifier | dices.py:48-49 | `parse('2d4x')` is `None` |
| Dices.RejectsNonNumericModifier | dices.py:51-52 | `parse('2d4+x')` is `None` |
| Dices.RejectsTail | dices.py:54-55 | `parse('2d4+6x')` is `None` |
| Dices.RejectsPlusSignedCount | dices.py:57-58 | `parse('+2d4+6')` is `None` |
| Dices.RejectsNegativeCount | dices.py:60-61 | `parse('-2d4+6')` is `None` |
| Dices.RejectsSignedFaces | dices.py:63-64 | `parse('2d+4+6')` is `None` |
| Dices.RejectsNegativeFaces | dices.py:66-67 | `parse('2d-4+6')` is `None` |
| Dices.RejectsTrailingTab | dices.py:8 | a tab is not removed, so `parse('2d4\t')` is `None` |
| Dices.RejectsInnerTab | dices.py:8 | `parse('2\td4')` is `None` |
| Dices.RejectsSecondNewline | dices.py:7 | `parse('2d4+6\n\n')` is `None` |
| Dices.AcceptsEitherLetter | dices.py:75-85 | `'2d4+6'` and `'2D4+6'` both give `(2, 4, 6)` |
| Dices.AcceptsEachModifierForm | dices.py:87-103 | `'2d4-6'` gives `(2, 4, -6)` and `'2d4'` gives `(2, 4, 0)` |
| Dices.AcceptsSignedZero | dices.py:21 | `'2d4+0'` and `'2d4-0'` both give `(2, 4, 0)` |
| Dices.AcceptsZeroCountAndFaces | dices.py:21 | `'0d4+6'` gives `(0, 4, 6)` and `'2d0'` gives `(2, 0, 0)`: there are no range checks |
| Dices.AcceptsLeadingZeros | dices.py:21 | `'007d4'` gives `(7, 4, 0)` |
| Dices.AcceptsFinalNewline | dices.py:7 | `'2d4+6\n'` gives `(2, 4, 6)` |

## Left out

- `main.py` is not part of this model. It is Telegram bot wiring: it reads a token from the
  environment, polls the network and sends replies. All of that is I/O.
- The `calculate` function (random rolls through `numpy.random.randint`), `parse_all`, the
  exceptions `InvalidFormat`, `InvalidDicesCount` and `InvalidFacesCount`, and the bound
  constants are left out. The test files import them, but the `dices.py` modelled here does
  not define them.
- The later API that `test/dices/test_parse.py`, `test/dices/test_parse_all.py` and
  `test/dices/test_calculate.py` describe is left out: an optional count, bounds, typed
  errors, and a `calculate` tested through a mocked `numpy.random.randint`. Its implementation
  is not part of this model.
- Unicode digits are left out. `\d` and `int` also accept non-ASCII decimal digits; the
  model accepts only `'0'..'9'`.
- Python's `re` engine in general is left out. `Match` is a scanner for this one pattern,
  proved equal to the pattern's description. It is not a model of regular expressions.
- The unittest harness under `if __name__ == '__main__'` (`dices.py:24-106`) is not modelled
  as code. Its cases appear as the `Rejects…` and `Accepts…` lemmas.
- `test_ignore_spaces` (`dices.py:69-73`) has no lemma on its literal `' 2 d 4 + 6 '`. It is
  covered by `ParseIgnoresSpaces` (stripping the spaces gives `'2d4+6'`) together with
  `AcceptsEitherLetter`.
- Parse: follows an `int` with no digit limit. CPython 3.11, and the 3.7.14, 3.8.14, 3.9.14 and
  3.10.7 security releases, refuse by default to convert a numeral of more than 4300 digits, so
  there `parse` raises `ValueError` at `dices.py:21` for such a count, faces or modifier, while
  `Parse` returns a dice. The interpreter's configurable limit is not modelled.
- ParseRoundTrip: holds for every count, faces and modifier only under that unlimited `int`; on
  an interpreter with the default digit limit it fails for values whose magnitude is 10^4300 or more.
  `ParseRoundTripBeforeEnd`, `ParseOfSpelling` and `Numerals.Value` rest on the same assumption.
