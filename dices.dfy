/**
 * The dice-notation parser `parse` of dices.py: the text loses every space,
 * is matched against ^(\d+)[dD](\d+)([+-]\d+)?$ and, on a match, the three
 * groups are read as integers, an absent modifier giving 0.
 */
module Dices {
  import opened Wrappers
  import opened Numerals

  /** What `parse` returns on success: (count, faces, modifier). */
  datatype Dice = Dice(count: nat, faces: nat, modifier: int)

  // ---------------------------------------------------------------------------
  // string.replace(' ', '')
  // ---------------------------------------------------------------------------

  predicate NoSpaces(s: string) {
    forall i :: 0 <= i < |s| ==> s[i] != ' '
  }

  /** Deletes every U+0020 and nothing else; tabs and newlines stay. */
  function RemoveSpaces(s: string): (r: string)
    ensures NoSpaces(r)
    ensures NoSpaces(s) ==> r == s
  {
    if s == [] then []
    else
      var rest := RemoveSpaces(s[1..]);
      if s[0] == ' ' then rest else [s[0]] + rest
  }

  /** Every other character is kept, as often as it occurs. */
  lemma {:induction false} RemoveSpacesKeepsOthers(s: string, c: char)
    requires c != ' '
    ensures multiset(RemoveSpaces(s))[c] == multiset(s)[c]
  {
    if s != [] {
      assert s == [s[0]] + s[1..];
      RemoveSpacesKeepsOthers(s[1..], c);
    }
  }

  /** The characters that are kept stay in their order. */
  lemma {:induction false} RemoveSpacesAppend(a: string, b: string)
    ensures RemoveSpaces(a + b) == RemoveSpaces(a) + RemoveSpaces(b)
  {
    if a != [] {
      assert (a + b)[1..] == a[1..] + b;
      RemoveSpacesAppend(a[1..], b);
    } else {
      assert a + b == b;
    }
  }

  lemma RemoveSpacesIdempotent(s: string)
    ensures RemoveSpaces(RemoveSpaces(s)) == RemoveSpaces(s)
  {
  }

  // ---------------------------------------------------------------------------
  // The regular expression ^(\d+)[dD](\d+)([+-]\d+)?$ under re.match
  // ---------------------------------------------------------------------------

  /** A successful match: the three groups, and the dice letter between the first two. */
  datatype Groups = Groups(count: string, letter: char, faces: string, modifier: Option<string>)

  /** What each part of the pattern accepts. */
  predicate WellFormed(g: Groups) {
    IsNumeral(g.count) && (g.letter == 'd' || g.letter == 'D') && IsNumeral(g.faces) &&
    (g.modifier.Some? ==> IsSignedNumeral(g.modifier.value))
  }

  /** The text the groups were taken from. */
  function Spelling(g: Groups): string {
    g.count + [g.letter] + g.faces + ModifierText(g.modifier)
  }

  /** Python's `$` without MULTILINE: the end of the text, or just before one final newline. */
  predicate AtEnd(u: string) {
    u == "" || u == "\n"
  }

  /** The pattern matches `t`, giving groups `g`. */
  predicate MatchesAs(t: string, g: Groups) {
    WellFormed(g) && (t == Spelling(g) || t == Spelling(g) + "\n")
  }

  ghost predicate IsDiceText(t: string) {
    exists g :: MatchesAs(t, g)
  }

  /** The length of the longest run of digits at the front of `s` (greedy `\d+`). */
  function DigitRun(s: string): (n: nat)
    ensures n <= |s|
    ensures forall i :: 0 <= i < n ==> IsDigit(s[i])
    ensures n < |s| ==> !IsDigit(s[n])
  {
    if s != [] && IsDigit(s[0]) then 1 + DigitRun(s[1..]) else 0
  }

  /** The text of the optional modifier group: empty when it did not take part. */
  function ModifierText(modifier: Option<string>): string {
    if modifier.Some? then modifier.value else ""
  }

  /** `([+-]\d+)?$` on what follows the faces: the modifier group, if the rest matches. */
  function MatchTail(u: string): (r: Option<Option<string>>)
    ensures r.Some? ==> r.value.Some? ==> IsSignedNumeral(r.value.value)
    ensures r.Some? ==> u == ModifierText(r.value) || u == ModifierText(r.value) + "\n"
  {
    if AtEnd(u) then Some(None)
    else if u[0] == '+' || u[0] == '-' then
      var k := DigitRun(u[1..]);
      if k > 0 && AtEnd(u[1 + k..]) then
        assert u == u[..1 + k] + u[1 + k..];
        assert u[..1 + k][1..] == u[1..][..k];
        Some(Some(u[..1 + k]))
      else None
    else None
  }

  /** `re.match` of the pattern against `t`, taking each digit run greedily. */
  function Match(t: string): (r: Option<Groups>)
    ensures r.Some? ==> MatchesAs(t, r.value)
  {
    var n := DigitRun(t);
    if n == 0 || n == |t| || !(t[n] == 'd' || t[n] == 'D') then None
    else
      var rest := t[n + 1..];
      var m := DigitRun(rest);
      if m == 0 then None
      else
        match MatchTail(rest[m..])
        case None => None
        case Some(modifier) =>
          ScannedGroups(t, n, m, modifier);
          Some(Groups(t[..n], t[n], rest[..m], modifier))
  }

  lemma SplitAround(t: string, n: nat, m: nat)
    requires n < |t| && m <= |t| - n - 1
    ensures t == (t[..n] + [t[n]] + t[n + 1..][..m]) + t[n + 1..][m..]
  {
    var rest := t[n + 1..];
    assert t == t[..n] + [t[n]] + rest;
    assert rest == rest[..m] + rest[m..];
  }

  /** What the three scans of `Match` establish about the groups they cut out. */
  lemma ScannedGroups(t: string, n: nat, m: nat, modifier: Option<string>)
    requires 0 < n < |t| && AllDigits(t[..n]) && (t[n] == 'd' || t[n] == 'D')
    requires 0 < m <= |t| - n - 1 && AllDigits(t[n + 1..][..m])
    requires modifier.Some? ==> IsSignedNumeral(modifier.value)
    requires t[n + 1..][m..] == ModifierText(modifier) || t[n + 1..][m..] == ModifierText(modifier) + "\n"
    ensures MatchesAs(t, Groups(t[..n], t[n], t[n + 1..][..m], modifier))
  {
    var g := Groups(t[..n], t[n], t[n + 1..][..m], modifier);
    var head := t[..n] + [t[n]] + t[n + 1..][..m];
    SplitAround(t, n, m);
    assert Spelling(g) == head + ModifierText(modifier);
    if t[n + 1..][m..] != ModifierText(modifier) {
      assert t == (head + ModifierText(modifier)) + "\n";
    }
  }

  lemma {:induction false} DigitRunOf(a: string, b: string)
    requires AllDigits(a)
    requires b == [] || !IsDigit(b[0])
    ensures DigitRun(a + b) == |a|
  {
    if a != [] {
      assert (a + b)[1..] == a[1..] + b;
      DigitRunOf(a[1..], b);
    } else {
      assert a + b == b;
    }
  }

  lemma MatchTailComplete(modifier: Option<string>, end: string)
    requires modifier.Some? ==> IsSignedNumeral(modifier.value)
    requires AtEnd(end)
    ensures MatchTail(ModifierText(modifier) + end) == Some(modifier)
  {
    if modifier.Some? {
      var m := modifier.value;
      var u := m + end;
      assert u[1..] == m[1..] + end;
      DigitRunOf(m[1..], end);
      assert u[..|m|] == m;
      assert u[|m|..] == end;
    } else {
      assert ModifierText(modifier) + end == end;
    }
  }

  /** How `Match` reads `t` once its three scans are known. */
  lemma MatchOfParts(t: string, n: nat, m: nat, modifier: Option<string>)
    requires 0 < n < |t| && DigitRun(t) == n && (t[n] == 'd' || t[n] == 'D')
    requires 0 < m && DigitRun(t[n + 1..]) == m
    requires MatchTail(t[n + 1..][m..]) == Some(modifier)
    ensures Match(t) == Some(Groups(t[..n], t[n], t[n + 1..][..m], modifier))
  {
  }

  /** `Match` on a count, a letter, a faces value and what follows them. */
  lemma MatchOfPieces(count: string, letter: char, faces: string, tail: string, modifier: Option<string>)
    requires IsNumeral(count) && (letter == 'd' || letter == 'D') && IsNumeral(faces)
    requires tail == [] || !IsDigit(tail[0])
    requires MatchTail(tail) == Some(modifier)
    ensures Match(count + ([letter] + (faces + tail))) == Some(Groups(count, letter, faces, modifier))
  {
    var after := faces + tail;
    var t := count + ([letter] + after);
    var n := |count|;
    assert DigitRun(t) == n by {
      DigitRunOf(count, [letter] + after);
    }
    assert t[..n] == count && t[n] == letter && t[n + 1..] == after;
    assert DigitRun(after) == |faces| by {
      DigitRunOf(faces, tail);
    }
    assert after[..|faces|] == faces && after[|faces|..] == tail;
    MatchOfParts(t, n, |faces|, modifier);
  }

  /** The match is complete and unambiguous: every text the pattern describes yields exactly its groups. */
  lemma MatchComplete(g: Groups, end: string)
    requires WellFormed(g) && AtEnd(end)
    ensures Match(Spelling(g) + end) == Some(g)
  {
    var tail := ModifierText(g.modifier) + end;
    assert Spelling(g) + end == g.count + ([g.letter] + (g.faces + tail));
    MatchTailComplete(g.modifier, end);
    MatchOfPieces(g.count, g.letter, g.faces, tail, g.modifier);
  }

  /** The pattern matches exactly the texts it describes. */
  lemma MatchIff(t: string)
    ensures Match(t).Some? <==> IsDiceText(t)
  {
    if Match(t).Some? {
      assert MatchesAs(t, Match(t).value);
    }
    if IsDiceText(t) {
      var g :| MatchesAs(t, g);
      if t == Spelling(g) {
        MatchComplete(g, "");
        assert Spelling(g) + "" == t;
      } else {
        MatchComplete(g, "\n");
      }
    }
  }

  // ---------------------------------------------------------------------------
  // parse
  // ---------------------------------------------------------------------------

  /** `int(modifier) if modifier else 0`. */
  function ModifierValue(modifier: Option<string>): int
    requires modifier.Some? ==> IsSignedNumeral(modifier.value)
  {
    match modifier
    case None => 0
    case Some(m) => SignedValue(m)
  }

  /** The values `parse` reads from a match. */
  function Evaluate(g: Groups): Dice
    requires WellFormed(g)
  {
    Dice(Value(g.count), Value(g.faces), ModifierValue(g.modifier))
  }

  /** `parse(string)`: None when the space-stripped text does not match. */
  function Parse(s: string): (r: Option<Dice>)
    ensures r.Some? ==> exists g :: MatchesAs(RemoveSpaces(s), g) && r.value == Evaluate(g)
  {
    match Match(RemoveSpaces(s))
    case None => None
    case Some(g) => Some(Evaluate(g))
  }

  /** `parse` succeeds exactly when the stripped text is digits, d or D, digits, an optional signed numeral, and at most one final newline. */
  lemma ParseAcceptsExactly(s: string)
    ensures Parse(s).Some? <==> IsDiceText(RemoveSpaces(s))
  {
    MatchIff(RemoveSpaces(s));
  }

  /** The only characters the pattern can match. */
  predicate InAlphabet(c: char) {
    IsDigit(c) || c == 'd' || c == 'D' || c == '+' || c == '-' || c == '\n'
  }

  /** Every character of a matched text is a digit, a dice letter, a sign or the final newline. */
  lemma SpellingAlphabet(g: Groups, end: string)
    requires WellFormed(g) && AtEnd(end)
    ensures forall i :: 0 <= i < |Spelling(g) + end| ==> InAlphabet((Spelling(g) + end)[i])
  {
    var t := Spelling(g) + end;
    var mod := ModifierText(g.modifier);
    assert t == g.count + [g.letter] + g.faces + mod + end;
    forall i | 0 <= i < |t|
      ensures InAlphabet(t[i])
    {
      if i < |g.count| {
        assert t[i] == g.count[i];
      } else if i == |g.count| {
        assert t[i] == g.letter;
      } else if i < |g.count| + 1 + |g.faces| {
        assert t[i] == g.faces[i - |g.count| - 1];
      } else if i < |g.count| + 1 + |g.faces| + |mod| {
        var j := i - |g.count| - 1 - |g.faces|;
        assert t[i] == mod[j];
        if j > 0 { assert mod[j] == mod[1..][j - 1]; }
      } else {
        assert t[i] == end[i - |g.count| - 1 - |g.faces| - |mod|];
      }
    }
  }

  /** A character outside that alphabet anywhere (a letter other than d or D, a tab, a carriage return) rejects the text. */
  lemma ParseRejectsForeignCharacter(s: string, i: nat)
    requires i < |RemoveSpaces(s)| && !InAlphabet(RemoveSpaces(s)[i])
    ensures Parse(s) == None
  {
    var t := RemoveSpaces(s);
    if Match(t).Some? {
      var g := Match(t).value;
      var end := if t == Spelling(g) then "" else "\n";
      assert t == Spelling(g) + end;
      SpellingAlphabet(g, end);
      assert false;
    }
  }

  /** Digits alone are not dice: the letter is mandatory. */
  lemma LetterIsMandatory(s: string)
    requires AllDigits(RemoveSpaces(s))
    ensures Parse(s) == None
  {
    var t := RemoveSpaces(s);
    DigitRunOf(t, []);
    assert t + [] == t;
  }

  /** Every text the pattern describes parses to the values of its groups. */
  lemma ParseOfSpelling(g: Groups, end: string)
    requires WellFormed(g) && AtEnd(end)
    ensures Parse(Spelling(g) + end) == Some(Evaluate(g))
  {
    SpellingAlphabet(g, end);
    assert NoSpaces(Spelling(g) + end);
    MatchComplete(g, end);
  }

  /** Spaces anywhere, however many, do not change the result. */
  lemma ParseIgnoresSpaces(s: string)
    ensures Parse(s) == Parse(RemoveSpaces(s))
  {
    RemoveSpacesIdempotent(s);
  }

  lemma ParseIgnoresSpace(a: string, b: string)
    ensures Parse(a + " " + b) == Parse(a + b)
  {
    RemoveSpacesAppend(a + " ", b);
    RemoveSpacesAppend(a, " ");
    RemoveSpacesAppend(a, b);
    assert RemoveSpaces(" ") == [];
    assert RemoveSpaces(a) + [] == RemoveSpaces(a);
  }

  /** Round trip with no range check: any count and faces, any signed modifier, either dice letter. */
  lemma ParseRoundTrip(count: nat, letter: char, faces: nat, modifier: int)
    requires letter == 'd' || letter == 'D'
    ensures Parse(Decimal(count) + [letter] + Decimal(faces) + SignedDecimal(modifier)) == Some(Dice(count, faces, modifier))
  {
    ParseRoundTripBeforeEnd(count, letter, faces, modifier, "");
    assert Decimal(count) + [letter] + Decimal(faces) + SignedDecimal(modifier) + "" ==
      Decimal(count) + [letter] + Decimal(faces) + SignedDecimal(modifier);
  }

  /** The same, with the one final newline that `$` lets through. */
  lemma ParseRoundTripBeforeEnd(count: nat, letter: char, faces: nat, modifier: int, end: string)
    requires letter == 'd' || letter == 'D'
    requires AtEnd(end)
    ensures Parse(Decimal(count) + [letter] + Decimal(faces) + SignedDecimal(modifier) + end) == Some(Dice(count, faces, modifier))
  {
    SignedValueOfSignedDecimal(modifier);
    var g := Groups(Decimal(count), letter, Decimal(faces), Some(SignedDecimal(modifier)));
    ParseOfSpelling(g, end);
    assert Spelling(g) == Decimal(count) + [letter] + Decimal(faces) + SignedDecimal(modifier);
    ValueOfDecimal(count);
    ValueOfDecimal(faces);
  }

  /** With no modifier written, the modifier is 0. */
  lemma ParseWithoutModifier(count: nat, letter: char, faces: nat)
    requires letter == 'd' || letter == 'D'
    ensures Parse(Decimal(count) + [letter] + Decimal(faces)) == Some(Dice(count, faces, 0))
  {
    var g := Groups(Decimal(count), letter, Decimal(faces), None);
    ParseOfSpelling(g, "");
    assert Spelling(g) + "" == Decimal(count) + [letter] + Decimal(faces);
    ValueOfDecimal(count);
    ValueOfDecimal(faces);
  }

  /** A match ends in a digit, or in a digit and one newline. */
  lemma SpellingEndsInDigit(g: Groups)
    requires WellFormed(g)
    ensures |Spelling(g)| > 0 && IsDigit(Spelling(g)[|Spelling(g)| - 1])
  {
    var t := Spelling(g);
    if g.modifier.Some? {
      var m := g.modifier.value;
      assert t[|t| - 1] == m[|m| - 1] == m[1..][|m| - 2];
    } else {
      assert t[|t| - 1] == g.faces[|g.faces| - 1];
    }
  }

  lemma NewlineAfterMatch(s: string, g: Groups)
    requires s == [] || s[|s| - 1] != '\n'
    requires MatchesAs(s, g)
    ensures Match(s + "\n") == Some(g)
  {
    assert s == Spelling(g);
    MatchComplete(g, "\n");
  }

  lemma NewlineBeforeEnd(s: string, g: Groups)
    requires MatchesAs(s + "\n", g)
    ensures Match(s) == Some(g)
  {
    SpellingEndsInDigit(g);
    assert s + "\n" != Spelling(g);
    assert s == (s + "\n")[..|s|] == (Spelling(g) + "\n")[..|s|] == Spelling(g) + "";
    MatchComplete(g, "");
  }

  lemma MatchFinalNewline(s: string)
    requires s == [] || s[|s| - 1] != '\n'
    ensures Match(s + "\n") == Match(s)
  {
    if Match(s).Some? {
      NewlineAfterMatch(s, Match(s).value);
    }
    if Match(s + "\n").Some? {
      NewlineBeforeEnd(s, Match(s + "\n").value);
    }
  }

  /** One final newline is accepted, because `$` also matches just before it. */
  lemma ParseFinalNewline(s: string)
    requires RemoveSpaces(s) == [] || RemoveSpaces(s)[|RemoveSpaces(s)| - 1] != '\n'
    ensures Parse(s + "\n") == Parse(s)
  {
    assert NoSpaces("\n");
    RemoveSpacesAppend(s, "\n");
    MatchFinalNewline(RemoveSpaces(s));
  }

  /** A second final newline is not: the match is anchored. */
  lemma MatchRejectsTwoNewlines(t: string)
    ensures Match(t + "\n\n") == None
  {
    if Match(t + "\n\n").Some? {
      SpellingEndsInDigit(Match(t + "\n\n").value);
      assert false;
    }
  }

  lemma ParseRejectsTwoNewlines(s: string)
    ensures Parse(s + "\n\n") == None
  {
    assert NoSpaces("\n\n");
    RemoveSpacesAppend(s, "\n\n");
    MatchRejectsTwoNewlines(RemoveSpaces(s));
  }

  /** The count is mandatory and unsigned: text that does not start with a digit is rejected. */
  lemma CountIsMandatory(s: string)
    requires RemoveSpaces(s) == [] || !IsDigit(RemoveSpaces(s)[0])
    ensures Parse(s) == None
  {
  }

  /** The faces value is mandatory and unsigned: the dice letter must be followed by a digit. */
  lemma FacesAreMandatory(s: string, count: string, letter: char, rest: string)
    requires RemoveSpaces(s) == count + [letter] + rest
    requires IsNumeral(count) && (letter == 'd' || letter == 'D')
    requires rest == [] || !IsDigit(rest[0])
    ensures Parse(s) == None
  {
    var t := count + [letter] + rest;
    assert t == count + ([letter] + rest);
    DigitRunOf(count, [letter] + rest);
    assert t[|count| + 1..] == rest;
  }

  /** Leading zeros on the count are read away: "007d4" is "7d4". */
  lemma CountLeadingZero(s: string)
    requires RemoveSpaces(s) != [] && IsDigit(RemoveSpaces(s)[0])
    ensures Parse("0" + s) == Parse(s)
  {
    assert NoSpaces("0");
    RemoveSpacesAppend("0", s);
    ZeroBeforeCount(RemoveSpaces(s));
  }

  /** The scanner's side: a zero before the count keeps the match and its value. */
  lemma ZeroBeforeCount(s: string)
    requires s != [] && IsDigit(s[0])
    ensures Match("0" + s).Some? <==> Match(s).Some?
    ensures Match(s).Some? ==> Evaluate(Match("0" + s).value) == Evaluate(Match(s).value)
  {
    var z := "0" + s;
    assert z[1..] == s;
    var n := DigitRun(s);
    assert DigitRun(z) == n + 1;
    if n < |s| {
      assert z[n + 1] == s[n];
      assert z[n + 2..] == s[n + 1..];
      assert z[..n + 1] == "0" + s[..n];
      ValueLeadingZero(s[..n]);
    }
  }

  // ---------------------------------------------------------------------------
  // The cases of the unit tests embedded in dices.py, and the edge cases of the code
  // ---------------------------------------------------------------------------

  lemma RejectsEmptyText()
    ensures Parse("") == None
  {
    CountIsMandatory("");
  }

  lemma RejectsMissingCount()
    ensures Parse("d2") == None
  {
    CountIsMandatory("d2");
  }

  lemma RejectsNonNumericCount()
    ensures Parse("x") == None
  {
    ParseRejectsForeignCharacter("x", 0);
  }

  lemma RejectsNonNumericAfterCount()
    ensures Parse("2x") == None
  {
    ParseRejectsForeignCharacter("2x", 1);
  }

  lemma RejectsMissingLetter()
    ensures Parse("2") == None
  {
    LetterIsMandatory("2");
  }

  lemma RejectsMissingFaces()
    ensures Parse("2d") == None
  {
    FacesAreMandatory("2d", "2", 'd', "");
  }

  lemma RejectsNonNumericFaces()
    ensures Parse("2dx") == None
  {
    ParseRejectsForeignCharacter("2dx", 2);
  }

  lemma RejectsUnsignedModifier()
    ensures Parse("2d4x") == None
  {
    ParseRejectsForeignCharacter("2d4x", 3);
  }

  lemma RejectsNonNumericModifier()
    ensures Parse("2d4+x") == None
  {
    ParseRejectsForeignCharacter("2d4+x", 4);
  }

  lemma RejectsTail()
    ensures Parse("2d4+6x") == None
  {
    ParseRejectsForeignCharacter("2d4+6x", 5);
  }

  lemma RejectsPlusSignedCount()
    ensures Parse("+2d4+6") == None
  {
    CountIsMandatory("+2d4+6");
  }

  lemma RejectsNegativeCount()
    ensures Parse("-2d4+6") == None
  {
    CountIsMandatory("-2d4+6");
  }

  lemma RejectsSignedFaces()
    ensures Parse("2d+4+6") == None
  {
    FacesAreMandatory("2d+4+6", "2", 'd', "+4+6");
  }

  lemma RejectsNegativeFaces()
    ensures Parse("2d-4+6") == None
  {
    FacesAreMandatory("2d-4+6", "2", 'd', "-4+6");
  }

  lemma RejectsTrailingTab()
    ensures Parse("2d4\t") == None
  {
    ParseRejectsForeignCharacter("2d4\t", 3);
  }

  lemma RejectsInnerTab()
    ensures Parse("2\td4") == None
  {
    ParseRejectsForeignCharacter("2\td4", 1);
  }

  lemma RejectsSecondNewline()
    ensures Parse("2d4+6\n\n") == None
  {
    assert "2d4+6\n\n" == "2d4+6" + "\n\n";
    ParseRejectsTwoNewlines("2d4+6");
  }

  lemma AcceptsEitherLetter()
    ensures Parse("2d4+6") == Some(Dice(2, 4, 6)) && Parse("2D4+6") == Some(Dice(2, 4, 6))
  {
    assert "2d4+6" == Decimal(2) + "d" + Decimal(4) + SignedDecimal(6);
    assert "2D4+6" == Decimal(2) + "D" + Decimal(4) + SignedDecimal(6);
    ParseRoundTrip(2, 'd', 4, 6);
    ParseRoundTrip(2, 'D', 4, 6);
  }

  lemma AcceptsEachModifierForm()
    ensures Parse("2d4-6") == Some(Dice(2, 4, -6))
    ensures Parse("2d4") == Some(Dice(2, 4, 0))
  {
    assert "2d4-6" == Decimal(2) + "d" + Decimal(4) + SignedDecimal(-6);
    assert "2d4" == Decimal(2) + "d" + Decimal(4);
    ParseRoundTrip(2, 'd', 4, -6);
    ParseWithoutModifier(2, 'd', 4);
  }

  lemma AcceptsSignedZero()
    ensures Parse("2d4+0") == Some(Dice(2, 4, 0)) && Parse("2d4-0") == Some(Dice(2, 4, 0))
  {
    var g := Groups("2", 'd', "4", Some("-0"));
    assert "2d4+0" == Decimal(2) + "d" + Decimal(4) + SignedDecimal(0);
    assert "2d4-0" == Spelling(g) + "";
    SignedZero();
    assert Evaluate(g) == Dice(2, 4, 0);
    ParseRoundTrip(2, 'd', 4, 0);
    ParseOfSpelling(g, "");
  }

  lemma AcceptsZeroCountAndFaces()
    ensures Parse("0d4+6") == Some(Dice(0, 4, 6)) && Parse("2d0") == Some(Dice(2, 0, 0))
  {
    assert "0d4+6" == Decimal(0) + "d" + Decimal(4) + SignedDecimal(6);
    assert "2d0" == Decimal(2) + "d" + Decimal(0);
    ParseRoundTrip(0, 'd', 4, 6);
    ParseWithoutModifier(2, 'd', 0);
  }

  lemma AcceptsLeadingZeros()
    ensures Parse("007d4") == Some(Dice(7, 4, 0))
  {
    var u := Decimal(7) + "d" + Decimal(4);
    assert u == "7d4";
    assert "007d4" == "0" + ("0" + u);
    ParseWithoutModifier(7, 'd', 4);
    CountLeadingZero(u);
    CountLeadingZero("0" + u);
  }

  lemma AcceptsFinalNewline()
    ensures Parse("2d4+6\n") == Some(Dice(2, 4, 6))
  {
    assert "2d4+6\n" == Decimal(2) + "d" + Decimal(4) + SignedDecimal(6) + "\n";
    ParseRoundTripBeforeEnd(2, 'd', 4, 6, "\n");
  }

}
