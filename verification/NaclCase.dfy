/** `naclCase` and `invertNaclCase`: identifiers for arbitrary names, and back. */
module NaclCase {
  import opened Wrappers

  /** A UTF-16 code unit; names are sequences of them, surrogates included. */
  type CodeUnit = c: int | 0 <= c < 0x1_0000
  type Text = seq<CodeUnit>

  const AT: CodeUnit := 64
  const UNDERSCORE: CodeUnit := 95
  const LETTER_A: CodeUnit := 97
  const LETTER_Z: CodeUnit := 122
  const DIGIT_ZERO: CodeUnit := 48

  /** The letter for ? - \ / & : | [ ] ( ) ! @ # * % ; " space ' _ . ^ < > is one of a to y. */
  function OneLetter(c: CodeUnit): Option<CodeUnit> {
    match c
    case 63 => Some(97) case 45 => Some(98) case 92 => Some(99) case 47 => Some(100) case 38 => Some(101)
    case 58 => Some(102) case 124 => Some(103) case 91 => Some(104) case 93 => Some(105) case 40 => Some(106)
    case 41 => Some(107) case 33 => Some(108) case 64 => Some(109) case 35 => Some(110) case 42 => Some(111)
    case 37 => Some(112) case 59 => Some(113) case 34 => Some(114) case 32 => Some(115) case 39 => Some(116)
    case 95 => Some(117) case 46 => Some(118) case 94 => Some(119) case 60 => Some(120) case 62 => Some(121)
    case _ => None
  }

  /** The letter after z for ` ~ $ , + is one of a to e. */
  function LetterAfterZ(c: CodeUnit): Option<CodeUnit> {
    match c
    case 96 => Some(97) case 126 => Some(98) case 36 => Some(99) case 44 => Some(100) case 43 => Some(101)
    case _ => None
  }

  /** The same tables, by letter. */
  const ONE_LETTER: Text :=
    [63, 45, 92, 47, 38, 58, 124, 91, 93, 40, 41, 33, 64, 35, 42, 37, 59, 34, 32, 39, 95, 46, 94, 60, 62]
  const AFTER_Z: Text := [96, 126, 36, 44, 43]

  /** What the underscore is written as. */
  const UNDERSCORE_CODE: Text := [117]

  predicate IsDigit(c: CodeUnit) {
    48 <= c <= 57
  }

  predicate IsAlphanumeric(c: CodeUnit) {
    IsDigit(c) || 65 <= c <= 90 || 97 <= c <= 122
  }

  predicate AllDigits(s: Text) {
    forall i :: 0 <= i < |s| ==> IsDigit(s[i])
  }

  /** The last `n` decimal digits of the number, zeros in front. */
  function Padded(number: nat, n: nat): (digits: Text)
    ensures |digits| == n && AllDigits(digits)
  {
    if n == 0 then [] else Padded(number / 10, n - 1) + [DIGIT_ZERO + number % 10]
  }

  /** How a special character is written in the suffix. */
  function Code(c: CodeUnit): Text {
    if OneLetter(c).Some? then [OneLetter(c).value]
    else if LetterAfterZ(c).Some? then [LETTER_Z, LetterAfterZ(c).value]
    else [UNDERSCORE] + Padded(c, 5)
  }

  // ----- encoding -----

  function CleanName(name: Text): Text {
    if name == [] then []
    else [if IsAlphanumeric(name[0]) then name[0] else UNDERSCORE] + CleanName(name[1..])
  }

  /** The special characters of the name, in order. */
  function Specials(name: Text): Text {
    if name == [] then []
    else (if IsAlphanumeric(name[0]) then [] else [name[0]]) + Specials(name[1..])
  }

  function Codes(specials: Text): (codes: seq<Text>)
    ensures |codes| == |specials|
  {
    if specials == [] then [] else [Code(specials[0])] + Codes(specials[1..])
  }

  function Join(codes: seq<Text>): Text {
    if codes == [] then [] else codes[0] + Join(codes[1..])
  }

  /** Nothing for underscores alone, one code for equal characters, all the codes otherwise. */
  function SuffixFromList(codes: seq<Text>): Text {
    if forall i :: 0 <= i < |codes| ==> codes[i] == UNDERSCORE_CODE then []
    else if forall i :: 0 <= i < |codes| ==> codes[i] == codes[0] then [AT] + codes[0]
    else [AT] + Join(codes)
  }

  function Encoded(name: Text): Text {
    if name != [] && AllDigits(name) then name + [AT]
    else CleanName(name) + SuffixFromList(Codes(Specials(name)))
  }

  method NaclCase(name: Option<Text>) returns (encoded: Text)
    ensures encoded == if name.None? then [] else Encoded(name.value)
  {
    if name.None? {
      return [];
    }
    var n := name.value;
    if n != [] && AllDigits(n) {
      return n + [AT];
    }
    var specialCharsMappingList: seq<Text>, cleanName: Text := [], [];
    for i := 0 to |n|
      invariant Cleaned(n, i, cleanName) && Mapped(n, i, specialCharsMappingList)
    {
      CleanStep(n, i, cleanName);
      MapStep(n, i, specialCharsMappingList);
      if IsAlphanumeric(n[i]) {
        cleanName := cleanName + [n[i]];
      } else {
        specialCharsMappingList := specialCharsMappingList + [Code(n[i])];
        cleanName := cleanName + [UNDERSCORE];
      }
    }
    EncodedAtEnd(n, cleanName, specialCharsMappingList);
    encoded := cleanName + SuffixFromList(specialCharsMappingList);
  }

  /** The first `i` characters are replaced. */
  ghost predicate Cleaned(n: Text, i: nat, cleanName: Text) {
    i <= |n| && cleanName + CleanName(n[i..]) == CleanName(n)
  }

  /** The special characters among the first `i` are mapped. */
  ghost predicate Mapped(n: Text, i: nat, codes: seq<Text>) {
    i <= |n| && codes + Codes(Specials(n[i..])) == Codes(Specials(n))
  }

  lemma EncodedAtEnd(n: Text, cleanName: Text, codes: seq<Text>)
    requires Cleaned(n, |n|, cleanName) && Mapped(n, |n|, codes)
    ensures cleanName == CleanName(n) && codes == Codes(Specials(n))
  {
    assert n[|n|..] == [];
    assert cleanName + [] == cleanName && codes + [] == codes;
  }

  lemma CleanStep(n: Text, i: nat, cleanName: Text)
    requires i < |n| && Cleaned(n, i, cleanName)
    ensures Cleaned(n, i + 1, cleanName + [if IsAlphanumeric(n[i]) then n[i] else UNDERSCORE])
  {
    var c := if IsAlphanumeric(n[i]) then n[i] else UNDERSCORE;
    assert n[i..][1..] == n[i + 1..];
    assert (cleanName + [c]) + CleanName(n[i + 1..]) == cleanName + ([c] + CleanName(n[i + 1..]));
  }

  lemma MapStep(n: Text, i: nat, codes: seq<Text>)
    requires i < |n| && Mapped(n, i, codes)
    ensures Mapped(n, i + 1, if IsAlphanumeric(n[i]) then codes else codes + [Code(n[i])])
  {
    var rest := Specials(n[i + 1..]);
    SpecialsStep(n, i);
    if IsAlphanumeric(n[i]) {
      assert Specials(n[i..]) == rest;
    } else {
      CodesFirst(n[i], rest);
      SameConcat(codes, Code(n[i]), Codes(rest));
    }
  }

  lemma SameConcat(s: seq<Text>, x: Text, t: seq<Text>)
    ensures (s + [x]) + t == s + ([x] + t)
  {}

  lemma SpecialsStep(n: Text, i: nat)
    requires i < |n|
    ensures Specials(n[i..]) == (if IsAlphanumeric(n[i]) then [] else [n[i]]) + Specials(n[i + 1..])
  {
    assert n[i..][1..] == n[i + 1..];
  }

  lemma CodesFirst(c: CodeUnit, specials: Text)
    ensures Codes([c] + specials) == [Code(c)] + Codes(specials)
  {
    assert ([c] + specials)[1..] == specials;
  }


  // ----- decoding -----

  function DigitsValue(digits: Text): nat
    requires AllDigits(digits)
  {
    if digits == [] then 0
    else DigitsValue(digits[..|digits| - 1]) * 10 + (digits[|digits| - 1] - DIGIT_ZERO)
  }

  function Slice(s: Text, from: nat, to: nat): Text
    requires from <= to
  {
    if to <= |s| then s[from..to] else if from <= |s| then s[from..] else []
  }

  /** What a letter code stands for; unknown codes stand for nothing. */
  function Decode(code: Text): Option<CodeUnit> {
    if |code| == 1 && LETTER_A <= code[0] < LETTER_A + |ONE_LETTER| then Some(ONE_LETTER[code[0] - LETTER_A])
    else if |code| == 2 && code[0] == LETTER_Z && LETTER_A <= code[1] < LETTER_A + |AFTER_Z|
    then Some(AFTER_Z[code[1] - LETTER_A])
    else None
  }

  /** The character with the given number; `otherNumber` reads what is not made of digits. */
  function FromNumber(text: Text, otherNumber: Text -> CodeUnit): CodeUnit {
    if AllDigits(text) then DigitsValue(text) % 0x1_0000 else otherNumber(text)
  }

  function ListFromSuffix(suffix: Text, startIdx: nat, otherNumber: Text -> CodeUnit): seq<Option<CodeUnit>>
    decreases |suffix| - startIdx
  {
    if startIdx >= |suffix| then []
    else if suffix[startIdx] == UNDERSCORE then
      [Some(FromNumber(Slice(suffix, startIdx + 1, startIdx + 6), otherNumber))]
        + ListFromSuffix(suffix, startIdx + 6, otherNumber)
    else if suffix[startIdx] == LETTER_Z then
      [Decode(Slice(suffix, startIdx, startIdx + 2))] + ListFromSuffix(suffix, startIdx + 2, otherNumber)
    else
      [Decode(Slice(suffix, startIdx, startIdx + 1))] + ListFromSuffix(suffix, startIdx + 1, otherNumber)
  }

  /** The text before the first separator. */
  function UpToAt(s: Text): (prefix: Text)
    ensures AT !in prefix && |prefix| <= |s| && s[..|prefix|] == prefix
    ensures |prefix| < |s| ==> s[|prefix|] == AT
  {
    if s == [] || s[0] == AT then []
    else
      assert s == [s[0]] + s[1..];
      [s[0]] + UpToAt(s[1..])
  }

  /** The text between the first separator and the second, if there is a first. */
  function SuffixOf(s: Text): Text {
    var n := |UpToAt(s)|;
    if n < |s| then UpToAt(s[n + 1..]) else []
  }

  /** What an underscore is replaced with: the last entry is never used up. */
  function Replacement(list: seq<Option<CodeUnit>>): Text {
    if list != [] && list[0].Some? then [list[0].value] else if |list| == 1 then UNDEFINED else []
  }

  /** What a replacement function that returns nothing inserts. */
  const UNDEFINED: Text := [117, 110, 100, 101, 102, 105, 110, 101, 100]

  function AfterReplacement(list: seq<Option<CodeUnit>>): seq<Option<CodeUnit>> {
    if |list| <= 1 then list else list[1..]
  }

  function Restored(prefix: Text, list: seq<Option<CodeUnit>>): Text {
    if prefix == [] then []
    else if prefix[0] != UNDERSCORE then [prefix[0]] + Restored(prefix[1..], list)
    else Replacement(list) + Restored(prefix[1..], AfterReplacement(list))
  }

  function Decoded(name: Text, otherNumber: Text -> CodeUnit): Text {
    if SuffixOf(name) == [] then UpToAt(name)
    else Restored(UpToAt(name), ListFromSuffix(SuffixOf(name), 0, otherNumber))
  }

  method InvertNaclCase(name: Text, otherNumber: Text -> CodeUnit) returns (inverted: Text)
    ensures inverted == Decoded(name, otherNumber)
  {
    if name == [] {
      return [];
    }
    var prefix, suffix := UpToAt(name), SuffixOf(name);
    if suffix == [] {
      return prefix;
    }
    var specialCharsMappingList := ListFromSuffix(suffix, 0, otherNumber);
    inverted := [];
    for i := 0 to |prefix|
      invariant Restoring(prefix, ListFromSuffix(suffix, 0, otherNumber), i, specialCharsMappingList, inverted)
    {
      RestoreStep(prefix, ListFromSuffix(suffix, 0, otherNumber), i, specialCharsMappingList, inverted);
      if prefix[i] != UNDERSCORE {
        inverted := inverted + [prefix[i]];
      } else {
        inverted := inverted + Replacement(specialCharsMappingList);
        specialCharsMappingList := AfterReplacement(specialCharsMappingList);
      }
    }
    assert prefix[|prefix|..] == [];
    assert inverted + [] == inverted;
  }

  /** The first `i` characters are restored, which leaves `list`. */
  ghost predicate Restoring(prefix: Text, start: seq<Option<CodeUnit>>, i: nat, list: seq<Option<CodeUnit>>,
                            done: Text) {
    i <= |prefix| && done + Restored(prefix[i..], list) == Restored(prefix, start)
  }

  lemma RestoreStep(prefix: Text, start: seq<Option<CodeUnit>>, i: nat, list: seq<Option<CodeUnit>>, done: Text)
    requires i < |prefix| && Restoring(prefix, start, i, list, done)
    ensures prefix[i] != UNDERSCORE ==> Restoring(prefix, start, i + 1, list, done + [prefix[i]])
    ensures prefix[i] == UNDERSCORE ==>
      Restoring(prefix, start, i + 1, AfterReplacement(list), done + Replacement(list))
  {
    assert prefix[i..][1..] == prefix[i + 1..];
    var rest := Restored(prefix[i + 1..], list);
    assert done + ([prefix[i]] + rest) == (done + [prefix[i]]) + rest;
    var rest' := Restored(prefix[i + 1..], AfterReplacement(list));
    assert done + (Replacement(list) + rest') == (done + Replacement(list)) + rest';
  }

  // ----- the codes can be read back -----

  function Power(n: nat): nat {
    if n == 0 then 1 else 10 * Power(n - 1)
  }

  lemma {:induction false} PaddedValue(number: nat, n: nat)
    requires number < Power(n)
    ensures DigitsValue(Padded(number, n)) == number
  {
    if n > 0 {
      PaddedValue(number / 10, n - 1);
      var front, last := Padded(number / 10, n - 1), DIGIT_ZERO + number % 10;
      assert (front + [last])[..n - 1] == front;
    }
  }

  lemma FiveDigitsValue(c: CodeUnit)
    ensures DigitsValue(Padded(c, 5)) == c
  {
    assert Power(5) == 100000 by {
      assert Power(2) == 100;
      assert Power(4) == 10000;
    }
    PaddedValue(c, 5);
  }

  /** The code is read as the character, and its first character tells how long it is. */
  ghost predicate Spells(code: Text, c: CodeUnit) {
    && code != [] && AT !in code
    && if code[0] == UNDERSCORE then |code| == 6 && AllDigits(code[1..]) && DigitsValue(code[1..]) == c
       else |code| == (if code[0] == LETTER_Z then 2 else 1) && Decode(code) == Some(c)
  }

  lemma OneLetterSpells(c: CodeUnit)
    requires OneLetter(c).Some?
    ensures Spells([OneLetter(c).value], c)
  {}

  lemma TwoLettersSpell(c: CodeUnit)
    requires LetterAfterZ(c).Some?
    ensures Spells([LETTER_Z, LetterAfterZ(c).value], c)
  {}

  lemma EscapeSpells(c: CodeUnit)
    ensures Spells([UNDERSCORE] + Padded(c, 5), c)
  {
    FiveDigitsValue(c);
    assert ([UNDERSCORE] + Padded(c, 5))[1..] == Padded(c, 5);
  }

  lemma CodeSpells(c: CodeUnit)
    ensures Spells(Code(c), c)
  {
    if OneLetter(c).Some? {
      OneLetterSpells(c);
    } else if LetterAfterZ(c).Some? {
      TwoLettersSpell(c);
    } else {
      EscapeSpells(c);
    }
  }

  lemma SpellsOne(code: Text, c: CodeUnit, c': CodeUnit)
    requires Spells(code, c) && Spells(code, c')
    ensures c == c'
  {}

  /** Reading one code at its place in the suffix. */
  lemma ReadCode(suffix: Text, k: nat, code: Text, c: CodeUnit, otherNumber: Text -> CodeUnit)
    requires Spells(code, c) && k + |code| <= |suffix| && suffix[k..k + |code|] == code
    ensures ListFromSuffix(suffix, k, otherNumber) == [Some(c)] + ListFromSuffix(suffix, k + |code|, otherNumber)
  {
    assert suffix[k] == code[0];
    if code[0] == UNDERSCORE {
      ReadEscape(suffix, k, code, c, otherNumber);
    } else if code[0] == LETTER_Z {
      assert Slice(suffix, k, k + 2) == code;
    } else {
      assert Slice(suffix, k, k + 1) == code;
    }
  }

  lemma ReadEscape(suffix: Text, k: nat, code: Text, c: CodeUnit, otherNumber: Text -> CodeUnit)
    requires Spells(code, c) && k + |code| <= |suffix| && suffix[k..k + |code|] == code && code[0] == UNDERSCORE
    ensures FromNumber(Slice(suffix, k + 1, k + 6), otherNumber) == c
  {
    assert Slice(suffix, k + 1, k + 6) == code[1..];
  }

  ghost predicate AllSpell(codes: seq<Text>, specials: Text) {
    |codes| == |specials| && forall i :: 0 <= i < |codes| ==> Spells(codes[i], specials[i])
  }

  lemma {:induction false} ReadCodes(suffix: Text, k: nat, codes: seq<Text>, specials: Text,
                                     otherNumber: Text -> CodeUnit)
    requires AllSpell(codes, specials) && k <= |suffix| && suffix[k..] == Join(codes)
    ensures ListFromSuffix(suffix, k, otherNumber) == AllSome(specials)
    decreases |codes|
  {
    if codes != [] {
      var code, rest := codes[0], Join(codes[1..]);
      assert Spells(codes[0], specials[0]);
      JoinStarts(suffix, k, code, rest);
      ReadCode(suffix, k, code, specials[0], otherNumber);
      ReadCodes(suffix, k + |code|, codes[1..], specials[1..], otherNumber);
      assert AllSome(specials) == [Some(specials[0])] + AllSome(specials[1..]);
    }
  }

  lemma JoinStarts(suffix: Text, k: nat, code: Text, rest: Text)
    requires k <= |suffix| && suffix[k..] == code + rest
    ensures k + |code| <= |suffix| && suffix[k..k + |code|] == code && suffix[k + |code|..] == rest
  {
    assert suffix[k..][..|code|] == code;
    assert suffix[k..][|code|..] == rest;
    assert suffix[k..][..|code|] == suffix[k..k + |code|];
    assert suffix[k..][|code|..] == suffix[k + |code|..];
  }

  lemma {:induction false} CodeAt(specials: Text, i: nat)
    requires i < |specials|
    ensures Codes(specials)[i] == Code(specials[i])
  {
    if i > 0 {
      CodeAt(specials[1..], i - 1);
    }
  }

  lemma CodesSpell(specials: Text)
    ensures AllSpell(Codes(specials), specials)
  {
    forall i | 0 <= i < |specials|
      ensures Spells(Codes(specials)[i], specials[i])
    {
      CodeAt(specials, i);
      CodeSpells(specials[i]);
    }
  }

  // ----- the name can be restored -----

  /** One entry restores a name whose special characters are all that one. */
  lemma {:induction false} RestoreEqual(name: Text, c: CodeUnit)
    requires forall i :: 0 <= i < |Specials(name)| ==> Specials(name)[i] == c
    ensures Restored(CleanName(name), [Some(c)]) == name
  {
    if name != [] {
      var rest := Specials(name[1..]);
      if IsAlphanumeric(name[0]) {
        assert Specials(name) == rest;
      } else {
        assert Specials(name) == [name[0]] + rest;
        assert Specials(name)[0] == name[0];
        assert forall i :: 0 <= i < |rest| ==> rest[i] == Specials(name)[i + 1];
      }
      RestoreEqual(name[1..], c);
      assert name == [name[0]] + name[1..];
    }
  }

  lemma {:induction false} RestoreAll(name: Text)
    requires Specials(name) != []
    ensures Restored(CleanName(name), AllSome(Specials(name))) == name
  {
    var rest := Specials(name[1..]);
    assert name == [name[0]] + name[1..];
    if IsAlphanumeric(name[0]) {
      assert Specials(name) == rest;
      RestoreAll(name[1..]);
    } else {
      assert Specials(name) == [name[0]] + rest;
      assert AllSome(Specials(name)) == [Some(name[0])] + AllSome(rest);
      if rest == [] {
        assert AllSome(Specials(name)) == [Some(name[0])];
        RestoreEqual(name[1..], name[0]);
      } else {
        assert AfterReplacement(AllSome(Specials(name))) == AllSome(rest);
        RestoreAll(name[1..]);
      }
    }
  }

  lemma {:induction false} OnlyUnderscores(name: Text)
    requires forall i :: 0 <= i < |Specials(name)| ==> Specials(name)[i] == UNDERSCORE
    ensures CleanName(name) == name
  {
    if name != [] {
      var rest := Specials(name[1..]);
      if IsAlphanumeric(name[0]) {
        assert Specials(name) == rest;
      } else {
        assert Specials(name) == [name[0]] + rest;
        assert Specials(name)[0] == name[0];
        assert forall i :: 0 <= i < |rest| ==> rest[i] == Specials(name)[i + 1];
      }
      OnlyUnderscores(name[1..]);
      assert name == [name[0]] + name[1..];
    }
  }

  lemma {:induction false} CleanHasNoAt(name: Text)
    ensures AT !in CleanName(name) && |CleanName(name)| == |name|
  {
    if name != [] {
      CleanHasNoAt(name[1..]);
    }
  }

  lemma {:induction false} JoinHasNoAt(codes: seq<Text>)
    requires forall i :: 0 <= i < |codes| ==> AT !in codes[i]
    ensures AT !in Join(codes)
  {
    if codes != [] {
      JoinHasNoAt(codes[1..]);
    }
  }

  lemma {:induction false} SplitAt(prefix: Text, rest: Text)
    requires AT !in prefix && (rest == [] || rest[0] == AT)
    ensures UpToAt(prefix + rest) == prefix
  {
    if prefix == [] {
      assert prefix + rest == rest;
    } else {
      assert prefix == [prefix[0]] + prefix[1..];
      assert (prefix + rest)[0] == prefix[0] && (prefix + rest)[1..] == prefix[1..] + rest;
      SplitAt(prefix[1..], rest);
    }
  }

  /** A text with one separator splits there. */
  lemma SplitInTwo(prefix: Text, suffix: Text)
    requires AT !in prefix && AT !in suffix
    ensures UpToAt(prefix + ([AT] + suffix)) == prefix && SuffixOf(prefix + ([AT] + suffix)) == suffix
  {
    var s := prefix + ([AT] + suffix);
    SplitAt(prefix, [AT] + suffix);
    assert s[|prefix| + 1..] == suffix;
    NoSeparatorPrefix(suffix);
  }

  lemma NoSeparatorPrefix(s: Text)
    requires AT !in s
    ensures UpToAt(s) == s
  {
    assert s + [] == s;
    SplitAt(s, []);
  }

  lemma NoSeparator(s: Text)
    requires AT !in s
    ensures UpToAt(s) == s && SuffixOf(s) == []
  {
    NoSeparatorPrefix(s);
  }

  lemma SameCodes(codes: seq<Text>, specials: Text, code: Text, c: CodeUnit)
    requires AllSpell(codes, specials) && Spells(code, c)
    requires forall i :: 0 <= i < |codes| ==> codes[i] == code
    ensures forall i :: 0 <= i < |specials| ==> specials[i] == c
  {
    forall i | 0 <= i < |specials|
      ensures specials[i] == c
    {
      assert Spells(codes[i], specials[i]);
      SpellsOne(code, specials[i], c);
    }
  }

  // ----- the round trip, case by case -----

  lemma DigitsRestored(name: Text, otherNumber: Text -> CodeUnit)
    requires AllDigits(name)
    ensures Decoded(name + [AT], otherNumber) == name
  {
    SplitInTwo(name, []);
    assert [AT] + [] == [AT];
  }

  lemma UnderscoresRestored(name: Text, otherNumber: Text -> CodeUnit)
    requires forall i :: 0 <= i < |Specials(name)| ==> Specials(name)[i] == UNDERSCORE
    ensures Decoded(CleanName(name), otherNumber) == name
  {
    OnlyUnderscores(name);
    CleanHasNoAt(name);
    NoSeparator(name);
  }

  /** With a suffix that spells the characters, restoring goes by those characters. */
  lemma DecodedBySuffix(clean: Text, codes: seq<Text>, chars: Text, otherNumber: Text -> CodeUnit)
    requires AT !in clean && AllSpell(codes, chars) && codes != []
    ensures Decoded(clean + ([AT] + Join(codes)), otherNumber) == Restored(clean, AllSome(chars))
  {
    assert forall i :: 0 <= i < |codes| ==> Spells(codes[i], chars[i]);
    JoinHasNoAt(codes);
    SplitInTwo(clean, Join(codes));
    assert Join(codes)[0..] == Join(codes);
    ReadCodes(Join(codes), 0, codes, chars, otherNumber);
  }

  lemma OneRestored(name: Text, code: Text, c: CodeUnit, otherNumber: Text -> CodeUnit)
    requires Spells(code, c) && forall i :: 0 <= i < |Specials(name)| ==> Specials(name)[i] == c
    ensures Decoded(CleanName(name) + ([AT] + code), otherNumber) == name
  {
    CleanHasNoAt(name);
    JoinOne(code);
    DecodedBySuffix(CleanName(name), [code], [c], otherNumber);
    assert AllSome([c]) == [Some(c)];
    RestoreEqual(name, c);
  }

  lemma JoinOne(code: Text)
    ensures Join([code]) == code
  {
    assert [code][1..] == [];
  }

  lemma AllRestored(name: Text, codes: seq<Text>, otherNumber: Text -> CodeUnit)
    requires codes != [] && AllSpell(codes, Specials(name))
    ensures Decoded(CleanName(name) + ([AT] + Join(codes)), otherNumber) == name
  {
    CleanHasNoAt(name);
    DecodedBySuffix(CleanName(name), codes, Specials(name), otherNumber);
    RestoreAll(name);
  }

  lemma SuffixRestored(name: Text, codes: seq<Text>, otherNumber: Text -> CodeUnit)
    requires AllSpell(codes, Specials(name))
    ensures Decoded(CleanName(name) + SuffixFromList(codes), otherNumber) == name
  {
    if forall i :: 0 <= i < |codes| ==> codes[i] == UNDERSCORE_CODE {
      SameCodes(codes, Specials(name), UNDERSCORE_CODE, UNDERSCORE);
      assert CleanName(name) + [] == CleanName(name);
      UnderscoresRestored(name, otherNumber);
    } else if forall i :: 0 <= i < |codes| ==> codes[i] == codes[0] {
      assert Spells(codes[0], Specials(name)[0]);
      SameCodes(codes, Specials(name), codes[0], Specials(name)[0]);
      OneRestored(name, codes[0], Specials(name)[0], otherNumber);
    } else {
      AllRestored(name, codes, otherNumber);
    }
  }

  /** Decoding undoes encoding, for every name and whatever non-numbers are read as. */
  lemma DecodeEncode(name: Text, otherNumber: Text -> CodeUnit)
    ensures Decoded(Encoded(name), otherNumber) == name
  {
    if name != [] && AllDigits(name) {
      DigitsRestored(name, otherNumber);
    } else {
      CodesSpell(Specials(name));
      SuffixRestored(name, Codes(Specials(name)), otherNumber);
    }
  }

  /** So no two names have the same identifier. */
  lemma EncodedInjective(name: Text, name': Text)
    requires Encoded(name) == Encoded(name')
    ensures name == name'
  {
    DecodeEncode(name, _ => 0);
    DecodeEncode(name', _ => 0);
  }

  lemma {:induction false} CleanAt(name: Text, i: nat)
    requires i < |name|
    ensures |CleanName(name)| == |name|
    ensures CleanName(name)[i] == if IsAlphanumeric(name[i]) then name[i] else UNDERSCORE
  {
    CleanHasNoAt(name);
    if i > 0 {
      CleanAt(name[1..], i - 1);
    }
  }

  /** An identifier is never made of digits alone. */
  lemma EncodedIsNoNumber(name: Text)
    ensures Encoded(name) != [] ==> !AllDigits(Encoded(name))
  {
    if name == [] {
    } else if AllDigits(name) {
      assert !IsDigit(Encoded(name)[|name|]);
    } else {
      var i :| 0 <= i < |name| && !IsDigit(name[i]);
      CleanAt(name, i);
      assert Encoded(name)[i] == CleanName(name)[i];
    }
  }
}
