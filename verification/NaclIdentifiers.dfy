/** What an identifier made by `naclCase` looks like, character by character. */
module NaclIdentifiers {
  import opened Wrappers
  import opened NaclCase

  /** Digits and unaccented letters stand for themselves. */
  predicate Stays(c: CodeUnit) {
    48 <= c <= 57 || 65 <= c <= 90 || 97 <= c <= 122
  }

  predicate OnlyDigits(name: Text) {
    name != [] && forall i :: 0 <= i < |name| ==> 48 <= name[i] <= 57
  }

  /** All the codes, one for each character that does not stay. */
  function AllCodes(name: Text): Text {
    if name == [] then [] else (if Stays(name[0]) then [] else Code(name[0])) + AllCodes(name[1..])
  }

  predicate NothingButUnderscores(name: Text) {
    forall i :: 0 <= i < |name| && !Stays(name[i]) ==> name[i] == 95
  }

  predicate AllEqual(name: Text) {
    forall i, j :: 0 <= i < |name| && 0 <= j < |name| && !Stays(name[i]) && !Stays(name[j]) ==> name[i] == name[j]
  }

  // ----- the part that is as long as the name -----

  lemma EncodedStarts(name: Text)
    ensures |Encoded(name)| >= |name|
    ensures Encoded(name)[..|name|] == if OnlyDigits(name) then name else CleanName(name)
  {
    CleanHasNoAt(name);
    assert OnlyDigits(name) <==> name != [] && AllDigits(name);
  }

  /** Each character stays or is replaced by an underscore. */
  lemma CharacterOf(name: Text, i: nat)
    requires i < |name|
    ensures |Encoded(name)| >= |name| && Encoded(name)[i] == if Stays(name[i]) then name[i] else 95
  {
    EncodedStarts(name);
    CleanAt(name, i);
    assert Encoded(name)[i] == Encoded(name)[..|name|][i];
  }

  // ----- the suffix -----

  lemma {:induction false} SpecialsStay(name: Text, i: nat)
    requires i < |Specials(name)|
    ensures !Stays(Specials(name)[i]) && Specials(name)[i] in name
  {
    if Stays(name[0]) {
      SpecialsStay(name[1..], i);
    } else if i > 0 {
      SpecialsStay(name[1..], i - 1);
    }
  }

  lemma {:induction false} IsSpecial(name: Text, i: nat)
    requires i < |name| && !Stays(name[i])
    ensures name[i] in Specials(name)
  {
    if i > 0 {
      IsSpecial(name[1..], i - 1);
      assert forall c :: c in Specials(name[1..]) ==> c in Specials(name);
    } else {
      assert Specials(name)[0] == name[0];
    }
  }

  lemma {:induction false} JoinedCodes(name: Text)
    ensures Join(Codes(Specials(name))) == AllCodes(name)
  {
    if name != [] {
      JoinedCodes(name[1..]);
      if Stays(name[0]) {
        assert Specials(name) == Specials(name[1..]);
      } else {
        assert Specials(name) == [name[0]] + Specials(name[1..]);
        CodesFirst(name[0], Specials(name[1..]));
      }
    }
  }

  lemma CodeIs(c: CodeUnit, c': CodeUnit)
    requires Code(c) == Code(c')
    ensures c == c'
  {
    CodeSpells(c);
    CodeSpells(c');
    SpellsOne(Code(c), c, c');
  }

  predicate AllAre(codes: seq<Text>, code: Text) {
    forall i :: 0 <= i < |codes| ==> codes[i] == code
  }

  /** The codes are all one if and only if the special characters all have that code. */
  lemma AllAreIff(name: Text, code: Text)
    ensures AllAre(Codes(Specials(name)), code) <==>
      forall i :: 0 <= i < |name| && !Stays(name[i]) ==> Code(name[i]) == code
  {
    var specials := Specials(name);
    forall i | 0 <= i < |name| && !Stays(name[i]) && AllAre(Codes(specials), code)
      ensures Code(name[i]) == code
    {
      IsSpecial(name, i);
      var k :| 0 <= k < |specials| && specials[k] == name[i];
      CodeAt(specials, k);
    }
    forall i | 0 <= i < |specials| && !AllAre([Codes(specials)[i]], code)
      ensures exists j :: 0 <= j < |name| && !Stays(name[j]) && Code(name[j]) != code
    {
      CodeAt(specials, i);
      SpecialsStay(name, i);
      var j :| 0 <= j < |name| && name[j] == specials[i];
      assert Code(name[j]) == Codes(specials)[i] == [Codes(specials)[i]][0];
    }
    if !AllAre(Codes(specials), code) {
      var i :| 0 <= i < |specials| && Codes(specials)[i] != code;
      assert !AllAre([Codes(specials)[i]], code) by {
        assert [Codes(specials)[i]][0] != code;
      }
    }
  }

  lemma UnderscoreCodesIff(name: Text)
    ensures AllAre(Codes(Specials(name)), UNDERSCORE_CODE) <==> NothingButUnderscores(name)
  {
    AllAreIff(name, UNDERSCORE_CODE);
    assert Code(95) == UNDERSCORE_CODE;
    forall i | 0 <= i < |name| && Code(name[i]) == UNDERSCORE_CODE
      ensures name[i] == 95
    {
      CodeIs(name[i], 95);
    }
  }

  lemma EqualCodesIff(name: Text)
    requires Specials(name) != []
    ensures AllAre(Codes(Specials(name)), Codes(Specials(name))[0]) <==> AllEqual(name)
    ensures AllEqual(name) ==>
      forall i :: 0 <= i < |name| && !Stays(name[i]) ==> Code(name[i]) == Codes(Specials(name))[0]
  {
    var first := Specials(name)[0];
    SpecialsStay(name, 0);
    CodeAt(Specials(name), 0);
    AllAreIff(name, Code(first));
    var k :| 0 <= k < |name| && name[k] == first;
    if AllAre(Codes(Specials(name)), Code(first)) {
      forall i, j | 0 <= i < |name| && 0 <= j < |name| && !Stays(name[i]) && !Stays(name[j])
        ensures name[i] == name[j]
      {
        CodeIs(name[i], name[j]);
      }
    }
  }

  /** What follows the characters: for digits alone the separator, for underscores alone nothing,
      and else the separator with the one code of all special characters if they are equal, or
      with one code each. */
  lemma SuffixOfEncoded(name: Text)
    ensures |Encoded(name)| >= |name|
    ensures var suffix := Encoded(name)[|name|..];
            if OnlyDigits(name) then suffix == [64]
            else if NothingButUnderscores(name) then suffix == []
            else if AllEqual(name)
            then forall i :: 0 <= i < |name| && !Stays(name[i]) ==> suffix == [64] + Code(name[i])
            else suffix == [64] + AllCodes(name)
  {
    EncodedStarts(name);
    CleanHasNoAt(name);
    var codes := Codes(Specials(name));
    assert Encoded(name)[|name|..] == if OnlyDigits(name) then [64] else SuffixFromList(codes);
    UnderscoreCodesIff(name);
    JoinedCodes(name);
    if !NothingButUnderscores(name) {
      assert codes != [];
      EqualCodesIff(name);
      assert AllAre(codes, codes[0]) <==> forall i :: 0 <= i < |codes| ==> codes[i] == codes[0];
    }
    assert AllAre(codes, UNDERSCORE_CODE) <==> forall i :: 0 <= i < |codes| ==> codes[i] == UNDERSCORE_CODE;
  }

  /** A name of letters, digits and underscores that is no number is its own identifier, and no
      other name is. */
  lemma OwnIdentifierIff(name: Text)
    ensures Encoded(name) == name <==> !OnlyDigits(name) && NothingButUnderscores(name)
  {
    SuffixOfEncoded(name);
    if !OnlyDigits(name) && NothingButUnderscores(name) {
      forall i | 0 <= i < |name|
        ensures Encoded(name)[i] == name[i]
      {
        CharacterOf(name, i);
      }
    }
  }

  // ----- the codes -----

  /** The characters with a code of one letter, from a on, and those with z and a letter. */
  const ONE: string := "?-\\/&:|[]()!@#*%;\" '_.^<>"
  const TWO: string := "`~$,+"

  lemma OneLetterCode(k: nat)
    requires k < |ONE|
    ensures |ONE| == 25 && ONE[k] as int < 0x1_0000 && Code(ONE[k] as int) == [97 + k]
  {}

  lemma TwoLetterCode(k: nat)
    requires k < |TWO|
    ensures |TWO| == 5 && TWO[k] as int < 0x1_0000 && Code(TWO[k] as int) == [122, 97 + k]
  {}

  /** Every other character has an underscore and its number in five digits. */
  lemma OtherCode(c: CodeUnit)
    requires forall k :: 0 <= k < |ONE| ==> c != ONE[k] as int
    requires forall k :: 0 <= k < |TWO| ==> c != TWO[k] as int
    ensures |Code(c)| == 6 && Code(c)[0] == 95 && AllDigits(Code(c)[1..]) && DigitsValue(Code(c)[1..]) == c
  {
    CodeSpells(c);
    assert ONE[0] == '?' && ONE[1] == '-' && ONE[2] == '\\' && ONE[3] == '/' && ONE[4] == '&' && ONE[5] == ':';
    assert ONE[6] == '|' && ONE[7] == '[' && ONE[8] == ']' && ONE[9] == '(' && ONE[10] == ')' && ONE[11] == '!';
    assert ONE[12] == '@' && ONE[13] == '#' && ONE[14] == '*' && ONE[15] == '%' && ONE[16] == ';' && ONE[17] == '"';
    assert ONE[18] == ' ' && ONE[19] == '\'' && ONE[20] == '_' && ONE[21] == '.' && ONE[22] == '^' && ONE[23] == '<';
    assert ONE[24] == '>';
    assert TWO[0] == '`' && TWO[1] == '~' && TWO[2] == '$' && TWO[3] == ',' && TWO[4] == '+';
  }

  /** Codes are made of lower-case letters, digits and underscores. */
  lemma CodeCharacters(c: CodeUnit, i: nat)
    requires i < |Code(c)|
    ensures var x := Code(c)[i]; 97 <= x <= 122 || 48 <= x <= 57 || x == 95
  {
    if OneLetter(c).None? && LetterAfterZ(c).None? && i > 0 {
      assert Code(c)[i] == Padded(c, 5)[i - 1];
    }
  }

  // ----- decoding what has no suffix -----

  /** A text without the separator is a name as it is. */
  lemma DecodedAsIs(name: Text, otherNumber: Text -> CodeUnit)
    requires 64 !in name
    ensures Decoded(name, otherNumber) == name
  {
    NoSeparator(name);
  }

  lemma {:induction false} NothingToRestore(prefix: Text, list: seq<Option<CodeUnit>>)
    requires 95 !in prefix
    ensures Restored(prefix, list) == prefix
  {
    if prefix != [] {
      assert prefix == [prefix[0]] + prefix[1..];
      NothingToRestore(prefix[1..], list);
    }
  }

  /** Without underscores before the separator, whatever follows it is ignored. */
  lemma DecodedUpToSeparator(name: Text, suffix: Text, otherNumber: Text -> CodeUnit)
    requires 64 !in name && 95 !in name
    ensures Decoded(name + [64] + suffix, otherNumber) == name
  {
    SplitAt(name, [64] + suffix);
    assert name + [64] + suffix == name + ([64] + suffix);
    NothingToRestore(name, ListFromSuffix(SuffixOf(name + [64] + suffix), 0, otherNumber));
  }
}
