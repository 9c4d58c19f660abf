/**
 * The example texts the evaluation page loads: the model answer "The
 * Eiffel Tower is in Rome, Italy." and the reference "The Eiffel Tower is
 * in Paris, France, located on the Champ de Mars.", and the concepts
 * `extractConcepts` finds in them.
 *
 * Each sentence is written as a concatenation of pieces of at most 23
 * characters: the prover reads a character of a string literal by walking
 * the literal from its end, and does not reach far into a long one. The
 * proofs read the sentences character by character, word by word
 * (`WordAt`), then as the interleaving of their words and separators
 * (`SpelledIsInterleave`), whose concepts `Concepts.ConceptsOfWords` gives.
 */
module ExampleTexts {
  import opened Text
  import opened Sequences
  import opened Concepts

  const RomeAnswer: string := "The Eiffel Tower is in " + "Rome, Italy."
  const ParisAnswer: string := "The Eiffel Tower is in " + "Paris, France, located " + "on the Champ de Mars."

  /** The concepts of the two sentences; the reference keeps its second "the". */
  const RomeHypothesis: seq<string> := ["the", "eiffel", "tower", "rome", "italy"]
  const ParisReference: seq<string> := ["the", "eiffel", "tower", "paris", "france", "located", "the", "champ", "mars"]

  /** `w` is written in `s` at position `i`, followed by the character `sep`. */
  predicate WordAt(s: string, i: nat, w: string, sep: char) {
    i + |w| < |s| && s[i..i + |w|] == w && s[i + |w|] == sep
  }

  /** From position `i` on, `s` is the words `ws` separated by `seps`. */
  predicate SpelledFrom(s: string, i: nat, ws: seq<string>, seps: seq<char>)
    requires |ws| == |seps| + 1
    decreases |seps|
  {
    if seps == [] then i <= |s| && s[i..] == ws[0]
    else WordAt(s, i, ws[0], seps[0]) && SpelledFrom(s, i + |ws[0]| + 1, ws[1..], seps[1..])
  }

  /** Text spelled from `i` on by words and separators is their interleaving. */
  lemma {:induction false} SpelledIsInterleave(s: string, i: nat, ws: seq<string>, seps: seq<char>)
    requires |ws| == |seps| + 1 && SpelledFrom(s, i, ws, seps)
    ensures s[i..] == Interleave(ws, seps)
    decreases |seps|
  {
    if seps != [] {
      var j := i + |ws[0]| + 1;
      SpelledIsInterleave(s, j, ws[1..], seps[1..]);
      assert s[i..] == ws[0] + [seps[0]] + s[j..];
    }
  }

  lemma LowerAllAppend(x: seq<string>, y: seq<string>)
    ensures LowerAll(x + y) == LowerAll(x) + LowerAll(y)
  {
  }

  // The model answer, word by word.

  const RomeWords: seq<string> := ["The", "Eiffel", "Tower", "is", "in", "Rome", "", "Italy", ""]
  const RomeSeps: seq<char> := [' ', ' ', ' ', ' ', ' ', ',', ' ', '.']

  lemma RomeWord0()
    ensures WordAt(RomeAnswer, 0, "The", ' ')
  {
    var s := RomeAnswer;
    assert s[0] == 'T' && s[1] == 'h' && s[2] == 'e' && s[3] == ' ';
  }

  lemma RomeWord1()
    ensures WordAt(RomeAnswer, 4, "Eiffel", ' ')
  {
    var s := RomeAnswer;
    assert s[4] == 'E' && s[5] == 'i' && s[6] == 'f' && s[7] == 'f' && s[8] == 'e' && s[9] == 'l' && s[10] == ' ';
  }

  lemma RomeWord2()
    ensures WordAt(RomeAnswer, 11, "Tower", ' ')
  {
    var s := RomeAnswer;
    assert s[11] == 'T' && s[12] == 'o' && s[13] == 'w' && s[14] == 'e' && s[15] == 'r' && s[16] == ' ';
  }

  lemma RomeWord3()
    ensures WordAt(RomeAnswer, 17, "is", ' ')
  {
    var s := RomeAnswer;
    assert s[17] == 'i' && s[18] == 's' && s[19] == ' ';
  }

  lemma RomeWord4()
    ensures WordAt(RomeAnswer, 20, "in", ' ')
  {
    var s := RomeAnswer;
    assert s[20] == 'i' && s[21] == 'n' && s[22] == ' ';
  }

  lemma RomeWord5()
    ensures WordAt(RomeAnswer, 23, "Rome", ',')
  {
    var s := RomeAnswer;
    assert s[23] == 'R' && s[24] == 'o' && s[25] == 'm' && s[26] == 'e' && s[27] == ',';
  }

  lemma RomeWord6()
    ensures WordAt(RomeAnswer, 28, "", ' ')
  {
    var s := RomeAnswer;
    assert s[28] == ' ';
  }

  lemma RomeWord7()
    ensures WordAt(RomeAnswer, 29, "Italy", '.')
  {
    var s := RomeAnswer;
    assert s[29] == 'I' && s[30] == 't' && s[31] == 'a' && s[32] == 'l' && s[33] == 'y' && s[34] == '.';
  }

  lemma RomeSpelledFrom6()
    ensures SpelledFrom(RomeAnswer, 28, RomeWords[6..], RomeSeps[6..])
  {
    RomeWord6();
    RomeWord7();
    var s := RomeAnswer;
    assert s[35..] == "";
    assert SpelledFrom(s, 35, RomeWords[8..], RomeSeps[8..]);
    assert SpelledFrom(s, 29, RomeWords[7..], RomeSeps[7..]);
  }

  lemma RomeSpelledFrom3()
    ensures SpelledFrom(RomeAnswer, 17, RomeWords[3..], RomeSeps[3..])
  {
    RomeSpelledFrom6();
    RomeWord3();
    RomeWord4();
    RomeWord5();
    var s := RomeAnswer;
    assert SpelledFrom(s, 23, RomeWords[5..], RomeSeps[5..]);
    assert SpelledFrom(s, 20, RomeWords[4..], RomeSeps[4..]);
  }

  lemma RomeSpelled()
    ensures SpelledFrom(RomeAnswer, 0, RomeWords, RomeSeps)
  {
    RomeSpelledFrom3();
    RomeWord0();
    RomeWord1();
    RomeWord2();
    var s := RomeAnswer;
    assert SpelledFrom(s, 11, RomeWords[2..], RomeSeps[2..]);
    assert SpelledFrom(s, 4, RomeWords[1..], RomeSeps[1..]);
    assert RomeWords[0..] == RomeWords && RomeSeps[0..] == RomeSeps;
  }

  lemma RomeParts()
    ensures forall k :: 0 <= k < |RomeWords| ==> AllWordChars(RomeWords[k])
    ensures forall k :: 0 <= k < |RomeSeps| ==> !IsWordChar(RomeSeps[k])
  {
  }

  lemma RomeLowered()
    ensures LowerAll(RomeWords) == ["the", "eiffel", "tower", "is", "in", "rome", "", "italy", ""]
  {
    assert Lower("The") == "the" && Lower("Eiffel") == "eiffel" && Lower("Tower") == "tower";
    assert Lower("Rome") == "rome" && Lower("Italy") == "italy";
    assert Lower("is") == "is" && Lower("in") == "in" && Lower("") == "";
    var ws := RomeWords;
    assert ws[0] == "The" && ws[1] == "Eiffel" && ws[2] == "Tower" && ws[3] == "is" && ws[4] == "in";
    assert ws[5] == "Rome" && ws[6] == "" && ws[7] == "Italy" && ws[8] == "";
  }

  lemma RomeLong()
    ensures Filter(["the", "eiffel", "tower", "is", "in", "rome", "", "italy", ""], LongEnough) == RomeHypothesis
  {
  }

  /** The concepts of the example model answer. */
  lemma RomeExtracted()
    ensures ExtractConcepts(RomeAnswer) == RomeHypothesis
  {
    RomeSpelled();
    SpelledIsInterleave(RomeAnswer, 0, RomeWords, RomeSeps);
    RomeParts();
    ConceptsOfWords(RomeWords, RomeSeps);
    RomeLowered();
    RomeLong();
    assert RomeAnswer[0..] == RomeAnswer;
  }

  // The reference, word by word.

  const ParisWords: seq<string> := ["The", "Eiffel", "Tower", "is", "in", "Paris", "", "France", "", "located", "on", "the", "Champ", "de", "Mars", ""]
  const ParisSeps: seq<char> := [' ', ' ', ' ', ' ', ' ', ',', ' ', ',', ' ', ' ', ' ', ' ', ' ', ' ', '.']

  lemma ParisWord0()
    ensures WordAt(ParisAnswer, 0, "The", ' ')
  {
    var s := ParisAnswer;
    assert s[0] == 'T' && s[1] == 'h' && s[2] == 'e' && s[3] == ' ';
  }

  lemma ParisWord1()
    ensures WordAt(ParisAnswer, 4, "Eiffel", ' ')
  {
    var s := ParisAnswer;
    assert s[4] == 'E' && s[5] == 'i' && s[6] == 'f' && s[7] == 'f' && s[8] == 'e' && s[9] == 'l' && s[10] == ' ';
  }

  lemma ParisWord2()
    ensures WordAt(ParisAnswer, 11, "Tower", ' ')
  {
    var s := ParisAnswer;
    assert s[11] == 'T' && s[12] == 'o' && s[13] == 'w' && s[14] == 'e' && s[15] == 'r' && s[16] == ' ';
  }

  lemma ParisWord3()
    ensures WordAt(ParisAnswer, 17, "is", ' ')
  {
    var s := ParisAnswer;
    assert s[17] == 'i' && s[18] == 's' && s[19] == ' ';
  }

  lemma ParisWord4()
    ensures WordAt(ParisAnswer, 20, "in", ' ')
  {
    var s := ParisAnswer;
    assert s[20] == 'i' && s[21] == 'n' && s[22] == ' ';
  }

  lemma ParisWord5()
    ensures WordAt(ParisAnswer, 23, "Paris", ',')
  {
    var s := ParisAnswer;
    assert s[23] == 'P' && s[24] == 'a' && s[25] == 'r' && s[26] == 'i' && s[27] == 's' && s[28] == ',';
  }

  lemma ParisWord6()
    ensures WordAt(ParisAnswer, 29, "", ' ')
  {
    var s := ParisAnswer;
    assert s[29] == ' ';
  }

  lemma ParisWord7()
    ensures WordAt(ParisAnswer, 30, "France", ',')
  {
    var s := ParisAnswer;
    assert s[30] == 'F' && s[31] == 'r' && s[32] == 'a' && s[33] == 'n' && s[34] == 'c' && s[35] == 'e' && s[36] == ',';
  }

  lemma ParisWord8()
    ensures WordAt(ParisAnswer, 37, "", ' ')
  {
    var s := ParisAnswer;
    assert s[37] == ' ';
  }

  lemma ParisWord9()
    ensures WordAt(ParisAnswer, 38, "located", ' ')
  {
    var s := ParisAnswer;
    assert s[38] == 'l' && s[39] == 'o' && s[40] == 'c' && s[41] == 'a' && s[42] == 't' && s[43] == 'e' && s[44] == 'd' && s[45] == ' ';
  }

  lemma ParisWord10()
    ensures WordAt(ParisAnswer, 46, "on", ' ')
  {
    var s := ParisAnswer;
    assert s[46] == 'o' && s[47] == 'n' && s[48] == ' ';
  }

  lemma ParisWord11()
    ensures WordAt(ParisAnswer, 49, "the", ' ')
  {
    var s := ParisAnswer;
    assert s[49] == 't' && s[50] == 'h' && s[51] == 'e' && s[52] == ' ';
  }

  lemma ParisWord12()
    ensures WordAt(ParisAnswer, 53, "Champ", ' ')
  {
    var s := ParisAnswer;
    assert s[53] == 'C' && s[54] == 'h' && s[55] == 'a' && s[56] == 'm' && s[57] == 'p' && s[58] == ' ';
  }

  lemma ParisWord13()
    ensures WordAt(ParisAnswer, 59, "de", ' ')
  {
    var s := ParisAnswer;
    assert s[59] == 'd' && s[60] == 'e' && s[61] == ' ';
  }

  lemma ParisWord14()
    ensures WordAt(ParisAnswer, 62, "Mars", '.')
  {
    var s := ParisAnswer;
    assert s[62] == 'M' && s[63] == 'a' && s[64] == 'r' && s[65] == 's' && s[66] == '.';
  }

  lemma ParisSpelledFrom12()
    ensures SpelledFrom(ParisAnswer, 53, ParisWords[12..], ParisSeps[12..])
  {
    ParisWord12();
    ParisWord13();
    ParisWord14();
    var s := ParisAnswer;
    assert s[67..] == "";
    assert SpelledFrom(s, 67, ParisWords[15..], ParisSeps[15..]);
    assert SpelledFrom(s, 62, ParisWords[14..], ParisSeps[14..]);
    assert SpelledFrom(s, 59, ParisWords[13..], ParisSeps[13..]);
  }

  lemma ParisSpelledFrom9()
    ensures SpelledFrom(ParisAnswer, 38, ParisWords[9..], ParisSeps[9..])
  {
    ParisSpelledFrom12();
    ParisWord9();
    ParisWord10();
    ParisWord11();
    var s := ParisAnswer;
    assert SpelledFrom(s, 49, ParisWords[11..], ParisSeps[11..]);
    assert SpelledFrom(s, 46, ParisWords[10..], ParisSeps[10..]);
  }

  lemma ParisSpelledFrom6()
    ensures SpelledFrom(ParisAnswer, 29, ParisWords[6..], ParisSeps[6..])
  {
    ParisSpelledFrom9();
    ParisWord6();
    ParisWord7();
    ParisWord8();
    var s := ParisAnswer;
    assert SpelledFrom(s, 37, ParisWords[8..], ParisSeps[8..]);
    assert SpelledFrom(s, 30, ParisWords[7..], ParisSeps[7..]);
  }

  lemma ParisSpelledFrom3()
    ensures SpelledFrom(ParisAnswer, 17, ParisWords[3..], ParisSeps[3..])
  {
    ParisSpelledFrom6();
    ParisWord3();
    ParisWord4();
    ParisWord5();
    var s := ParisAnswer;
    assert SpelledFrom(s, 23, ParisWords[5..], ParisSeps[5..]);
    assert SpelledFrom(s, 20, ParisWords[4..], ParisSeps[4..]);
  }

  lemma ParisSpelled()
    ensures SpelledFrom(ParisAnswer, 0, ParisWords, ParisSeps)
  {
    ParisSpelledFrom3();
    ParisWord0();
    ParisWord1();
    ParisWord2();
    var s := ParisAnswer;
    assert SpelledFrom(s, 11, ParisWords[2..], ParisSeps[2..]);
    assert SpelledFrom(s, 4, ParisWords[1..], ParisSeps[1..]);
    assert ParisWords[0..] == ParisWords && ParisSeps[0..] == ParisSeps;
  }

  lemma ParisParts()
    ensures forall k :: 0 <= k < |ParisWords| ==> AllWordChars(ParisWords[k])
    ensures forall k :: 0 <= k < |ParisSeps| ==> !IsWordChar(ParisSeps[k])
  {
  }

  lemma ParisLowerCapitals()
    ensures Lower("The") == "the" && Lower("Eiffel") == "eiffel" && Lower("Tower") == "tower" && Lower("Paris") == "paris"
    ensures Lower("France") == "france" && Lower("Champ") == "champ" && Lower("Mars") == "mars"
  {
  }

  lemma ParisLowerSmall()
    ensures Lower("is") == "is" && Lower("in") == "in" && Lower("") == "" && Lower("located") == "located"
    ensures Lower("on") == "on" && Lower("the") == "the" && Lower("de") == "de"
  {
  }

  lemma ParisLowered()
    ensures LowerAll(ParisWords[..8]) == ["the", "eiffel", "tower", "is", "in", "paris", "", "france"]
    ensures LowerAll(ParisWords[8..]) == ["", "located", "on", "the", "champ", "de", "mars", ""]
  {
    ParisLowerCapitals();
    ParisLowerSmall();
    var ws := ParisWords;
    assert ws[0] == "The" && ws[1] == "Eiffel" && ws[2] == "Tower" && ws[3] == "is" && ws[4] == "in" && ws[5] == "Paris";
    assert ws[6] == "" && ws[7] == "France" && ws[8] == "" && ws[9] == "located" && ws[10] == "on";
    assert ws[11] == "the" && ws[12] == "Champ" && ws[13] == "de" && ws[14] == "Mars" && ws[15] == "";
  }

  lemma ParisLongFirst()
    ensures Filter(["the", "eiffel", "tower", "is", "in", "paris", "", "france"], LongEnough) == ["the", "eiffel", "tower", "paris", "france"]
  {
  }

  lemma ParisLongSecond()
    ensures Filter(["", "located", "on", "the", "champ", "de", "mars", ""], LongEnough) == ["located", "the", "champ", "mars"]
  {
  }

  lemma ParisReferenceHalves()
    ensures ParisReference == ["the", "eiffel", "tower", "paris", "france"] + ["located", "the", "champ", "mars"]
  {
  }

  lemma ParisLong()
    ensures Filter(LowerAll(ParisWords), LongEnough) == ParisReference
  {
    var a, b := ParisWords[..8], ParisWords[8..];
    assert ParisWords == a + b;
    LowerAllAppend(a, b);
    FilterAppend(LowerAll(a), LowerAll(b), LongEnough);
    ParisLowered();
    ParisLongFirst();
    ParisLongSecond();
    ParisReferenceHalves();
  }

  /** The concepts of the example reference: nine, with "the" twice. */
  lemma ParisExtracted()
    ensures ExtractConcepts(ParisAnswer) == ParisReference
  {
    ParisSpelled();
    SpelledIsInterleave(ParisAnswer, 0, ParisWords, ParisSeps);
    ParisParts();
    ConceptsOfWords(ParisWords, ParisSeps);
    ParisLong();
    assert ParisAnswer[0..] == ParisAnswer;
  }
}
