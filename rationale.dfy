/**
 * The rationale sentence of an evaluation: a clause on the shared concepts,
 * a clause on the conflicting ones, the fidelity percentage with one
 * decimal, and an adjective for the strength of the alignment.
 */
module Rationale {
  import opened Ratios

  /** `words.join(', ')`: the items in order, each pair apart by `, `;
      `JoinRoundTrip` reads them back. */
  function Join(ws: seq<string>): (s: string)
    ensures ws != [] ==> HasPrefix(s, ws[0])
  {
    if ws == [] then []
    else if |ws| == 1 then ws[0]
    else ws[0] + ", " + Join(ws[1..])
  }

  predicate NoComma(w: string) {
    forall i :: 0 <= i < |w| ==> w[i] != ','
  }

  /** Index of the first comma of `s`, or `|s|` if none. */
  function FirstComma(s: string): (i: nat)
    ensures i <= |s|
    ensures NoComma(s[..i])
    ensures i < |s| ==> s[i] == ','
  {
    if s == [] || s[0] == ',' then 0 else 1 + FirstComma(s[1..])
  }

  /** Cuts a `, `-separated list back into its items. */
  function Unjoin(s: string): (ws: seq<string>)
    ensures |ws| >= 1
    decreases |s|
  {
    var i := FirstComma(s);
    if i == |s| then [s]
    else [s[..i]] + Unjoin(if i + 2 <= |s| then s[i + 2..] else [])
  }

  lemma {:induction false} FirstCommaAppend(w: string, rest: string)
    requires NoComma(w)
    ensures FirstComma(w + rest) == |w| + FirstComma(rest)
  {
    if w != [] {
      assert (w + rest)[1..] == w[1..] + rest;
      FirstCommaAppend(w[1..], rest);
    } else {
      assert w + rest == rest;
    }
  }

  /** A joined list of non-empty, comma-free items cuts back into the same
      items: the list in a rationale names its concepts unambiguously. */
  lemma {:induction false} JoinRoundTrip(ws: seq<string>)
    requires ws != []
    requires forall k :: 0 <= k < |ws| ==> NoComma(ws[k])
    ensures Unjoin(Join(ws)) == ws
  {
    if |ws| == 1 {
      FirstCommaAppend(ws[0], []);
      assert ws[0] + [] == ws[0];
    } else {
      UnjoinFirst(ws[0], Join(ws[1..]));
      JoinRoundTrip(ws[1..]);
      assert ws == [ws[0]] + ws[1..];
    }
  }

  /** A comma-free item followed by `, ` is cut off as the first item. */
  lemma UnjoinFirst(w: string, rest: string)
    requires NoComma(w)
    ensures Unjoin(w + ", " + rest) == [w] + Unjoin(rest)
  {
    var s := w + ", " + rest;
    assert s == w + (", " + rest);
    FirstCommaAppend(w, ", " + rest);
    assert FirstComma(s) == |w|;
    assert s[..|w|] == w;
    assert s[|w| + 2..] == rest;
    UnjoinAtComma(s);
  }

  /** One step of `Unjoin` at a comma that has a character after it. */
  lemma UnjoinAtComma(s: string)
    requires FirstComma(s) + 2 <= |s|
    ensures Unjoin(s) == [s[..FirstComma(s)]] + Unjoin(s[FirstComma(s) + 2..])
  {
  }

  const Opening := "The hypothesis "
  const Identifies := "correctly identifies "
  const SharesNone := "shares no common concepts with the reference"
  const Introduces := "but introduces conflicting concepts: "

  /** The first clause: the shared concepts, or that there are none. */
  function MatchClause(matching: seq<string>): string {
    if |matching| > 0 then Identifies + Join(matching) else SharesNone
  }

  /** The second clause: the conflicting concepts, or only the full stop. */
  function ConflictClause(conflicting: seq<string>): string {
    if |conflicting| > 0 then Introduces + Join(conflicting) + "." else "."
  }

  datatype Strength = Strong | Moderate | Weak

  /** The adjective for a fidelity score: strong above 0.7, moderate above
      0.4, weak otherwise. */
  function StrengthOf(fidelity: Ratio): (a: Strength)
    requires fidelity.den > 0
    ensures a == Strong <==> Exceeds(fidelity, 7)
    ensures a == Moderate <==> Exceeds(fidelity, 4) && !Exceeds(fidelity, 7)
    ensures a == Weak <==> !Exceeds(fidelity, 4)
  {
    if Exceeds(fidelity, 7) then Strong else if Exceeds(fidelity, 4) then Moderate else Weak
  }

  function StrengthWord(a: Strength): string {
    match a
    case Strong => "strong"
    case Moderate => "moderate"
    case Weak => "weak"
  }

  /** The closing clause: the percentage and the adjective. */
  function ScoreClause(fidelity: Ratio): string
    requires fidelity.den > 0
  {
    " Fidelity score of " + PercentText(fidelity) + "% indicates " + StrengthWord(StrengthOf(fidelity)) + " alignment."
  }

  /** The rationale of an evaluation. */
  function RationaleText(matching: seq<string>, conflicting: seq<string>, fidelity: Ratio): string
    requires fidelity.den > 0
  {
    Opening + MatchClause(matching) + " " + ConflictClause(conflicting) + ScoreClause(fidelity)
  }

  predicate HasPrefix(s: string, p: string) {
    |p| <= |s| && s[..|p|] == p
  }

  predicate HasSuffix(s: string, p: string) {
    |p| <= |s| && s[|s| - |p|..] == p
  }

  predicate OccursAt(s: string, t: string, i: int) {
    0 <= i <= |s| - |t| && s[i..i + |t|] == t
  }

  /** `t` occurs in `s`. */
  ghost predicate Contains(s: string, t: string) {
    exists i :: OccursAt(s, t, i)
  }

  /** The rationale opens with "correctly identifies" exactly when some
      concept is shared, and then names them; otherwise it opens by saying
      that nothing is shared, whatever the conflicts. */
  lemma RationaleIdentifies(matching: seq<string>, conflicting: seq<string>, fidelity: Ratio)
    requires fidelity.den > 0
    ensures HasPrefix(RationaleText(matching, conflicting, fidelity), Opening + Identifies) <==> |matching| > 0
    ensures |matching| > 0 ==> HasPrefix(RationaleText(matching, conflicting, fidelity), Opening + Identifies + Join(matching) + " ")
    ensures |matching| == 0 ==> HasPrefix(RationaleText(matching, conflicting, fidelity), Opening + SharesNone + " ")
  {
    if |matching| > 0 {
      PrefixThrough(Opening, Identifies, Join(matching), " ", ConflictClause(conflicting), ScoreClause(fidelity));
    } else {
      PrefixOfParts(Opening, SharesNone, " ", ConflictClause(conflicting), ScoreClause(fidelity));
      assert SharesNone[0] == 's' && Identifies[0] == 'c';
      NotPrefix(Opening, SharesNone, Identifies, " ", ConflictClause(conflicting), ScoreClause(fidelity));
    }
  }

  lemma PrefixThrough(a: string, b: string, c: string, d: string, e: string, f: string)
    ensures HasPrefix(a + (b + c) + d + e + f, a + b + c + d)
    ensures HasPrefix(a + (b + c) + d + e + f, a + b)
  {
    var s := a + (b + c) + d + e + f;
    assert s == (a + b + c + d) + (e + f);
    assert s == (a + b) + (c + d + e + f);
  }

  lemma PrefixOfParts(a: string, b: string, c: string, d: string, e: string)
    ensures HasPrefix(a + b + c + d + e, a + b + c)
  {
    assert a + b + c + d + e == (a + b + c) + (d + e);
  }

  lemma NotPrefix(a: string, x: string, y: string, u: string, v: string, w: string)
    requires x != [] && y != [] && x[0] != y[0]
    ensures !HasPrefix(a + x + u + v + w, a + y)
  {
    assert (a + x + u + v + w)[|a|] == x[0];
    assert (a + y)[|a|] == y[0];
  }

  lemma NoColonInScore(fidelity: Ratio)
    requires fidelity.den > 0
    ensures ':' !in ScoreClause(fidelity)
  {
    var p := PercentText(fidelity);
    assert ':' !in p;
    assert ':' !in StrengthWord(StrengthOf(fidelity));
  }

  lemma NoColonInMatch(matching: seq<string>)
    requires forall k :: 0 <= k < |matching| ==> ':' !in matching[k]
    ensures ':' !in MatchClause(matching)
  {
    NoColonInJoin(matching);
  }

  /** The conflicting concepts are introduced, and listed, when there
      are some. */
  lemma RationaleIntroduces(matching: seq<string>, conflicting: seq<string>, fidelity: Ratio)
    requires fidelity.den > 0 && |conflicting| > 0
    ensures Contains(RationaleText(matching, conflicting, fidelity), Introduces + Join(conflicting) + ".")
  {
    OccursInside(Opening + MatchClause(matching) + " ", ConflictClause(conflicting), ScoreClause(fidelity));
  }

  /** Without conflicting concepts nothing is introduced: the text then
      holds no colon at all, while the introduction ends in one. */
  lemma RationaleIntroducesNothing(matching: seq<string>, conflicting: seq<string>, fidelity: Ratio)
    requires fidelity.den > 0 && |conflicting| == 0
    requires forall k :: 0 <= k < |matching| ==> ':' !in matching[k]
    ensures !Contains(RationaleText(matching, conflicting, fidelity), Introduces)
  {
    NoColonInMatch(matching);
    NoColonInScore(fidelity);
    FixedTextColons();
    ColonFree(Opening, MatchClause(matching), " ", ".", ScoreClause(fidelity));
    NoColonNoOccurrence(RationaleText(matching, conflicting, fidelity), Introduces, 35);
  }

  lemma FixedTextColons()
    ensures ':' !in Opening && ':' !in " " && ':' !in "."
    ensures Introduces[35] == ':'
  {
  }

  lemma OccursInside(a: string, b: string, c: string)
    ensures OccursAt(a + b + c, b, |a|)
  {
    assert (a + b + c)[|a|..|a| + |b|] == b;
  }

  lemma ColonFree(a: string, b: string, c: string, d: string, e: string)
    requires ':' !in a && ':' !in b && ':' !in c && ':' !in d && ':' !in e
    ensures ':' !in a + b + c + d + e
  {
  }

  lemma NoColonNoOccurrence(s: string, t: string, j: nat)
    requires ':' !in s
    requires j < |t| && t[j] == ':'
    ensures !Contains(s, t)
  {
    forall i | 0 <= i <= |s| - |t|
      ensures !OccursAt(s, t, i)
    {
      assert s[i..i + |t|][j] == s[i + j];
    }
  }

  /** The rationale closes by stating the fidelity percentage, introduced
      as the fidelity score, and the adjective chosen for it. */
  lemma RationaleCloses(matching: seq<string>, conflicting: seq<string>, fidelity: Ratio)
    requires fidelity.den > 0
    ensures HasSuffix(RationaleText(matching, conflicting, fidelity), StrengthWord(StrengthOf(fidelity)) + " alignment.")
    ensures HasSuffix(RationaleText(matching, conflicting, fidelity),
                      PercentText(fidelity) + "% indicates " + StrengthWord(StrengthOf(fidelity)) + " alignment.")
    ensures HasSuffix(RationaleText(matching, conflicting, fidelity),
                      " Fidelity score of " + PercentText(fidelity) + "% indicates " + StrengthWord(StrengthOf(fidelity)) + " alignment.")
  {
    SuffixParts(Opening + MatchClause(matching) + " " + ConflictClause(conflicting),
      " Fidelity score of ", PercentText(fidelity), "% indicates ", StrengthWord(StrengthOf(fidelity)), " alignment.");
  }

  lemma SuffixParts(x: string, a: string, p: string, b: string, w: string, c: string)
    ensures HasSuffix(x + (a + p + b + w + c), p + b + w + c)
    ensures HasSuffix(x + (a + p + b + w + c), w + c)
    ensures HasSuffix(x + (a + p + b + w + c), a + p + b + w + c)
  {
    var s := x + (a + p + b + w + c);
    assert s == (x + a) + (p + b + w + c);
    assert s == (x + a + p + b) + (w + c);
  }

  lemma {:induction false} NoColonInJoin(ws: seq<string>)
    requires forall k :: 0 <= k < |ws| ==> ':' !in ws[k]
    ensures ':' !in Join(ws)
  {
    if |ws| > 1 {
      NoColonInJoin(ws[1..]);
    }
  }
}
