/**
 * `extractConcepts`: lower-case the text, blank out every character that is
 * neither a word character nor white space, split on runs of white space,
 * keep the pieces longer than two characters and take the first ten.
 */
module Concepts {
  import opened Text
  import opened Sequences

  /** The cap of `slice(0, 10)`. */
  const MaxConcepts: nat := 10

  /** The filter `word => word.length > 2`. */
  predicate LongEnough(w: string) {
    |w| > 2
  }

  /** A character a concept may contain: a word character that is not an
      upper-case letter. */
  predicate IsConceptChar(c: char) {
    IsWordChar(c) && !IsUpper(c)
  }

  /** What every extracted concept is. */
  predicate IsConcept(w: string) {
    |w| > 2 && forall i :: 0 <= i < |w| ==> IsConceptChar(w[i])
  }

  /** `text.toLowerCase().replace(/[^\w\s]/g, ' ')`: every word character
      of `text` becomes its lower-case form, every other character white space. */
  function Normalize(text: string): (r: string)
    ensures |r| == |text|
    ensures forall i :: 0 <= i < |r| ==> IsSpace(r[i]) || IsConceptChar(r[i])
    ensures forall i :: 0 <= i < |r| ==> (IsSpace(r[i]) <==> !IsWordChar(text[i]))
  {
    BlankNonWord(Lower(text))
  }

  lemma NormalizeAppend(a: string, b: string)
    ensures Normalize(a + b) == Normalize(a) + Normalize(b)
  {
    LowerAppend(a, b);
    BlankNonWordAppend(Lower(a), Lower(b));
  }

  /** The concepts of `text` before the cap of ten: the pieces of the
      normalised text longer than two characters. */
  function AllConcepts(text: string): (r: seq<string>)
    ensures forall k :: 0 <= k < |r| ==> IsConcept(r[k])
  {
    SplitCharClass(Normalize(text), IsConceptChar);
    FilterSubset(Split(Normalize(text)), LongEnough);
    Filter(Split(Normalize(text)), LongEnough)
  }

  /** `extractConcepts(text)`: the first ten concepts of `text`. */
  function ExtractConcepts(text: string): (r: seq<string>)
    ensures |r| <= MaxConcepts
    ensures forall k :: 0 <= k < |r| ==> IsConcept(r[k])
    ensures |r| <= |AllConcepts(text)| && r == AllConcepts(text)[..|r|]
    ensures |r| < MaxConcepts ==> r == AllConcepts(text)
  {
    var all := AllConcepts(text);
    if |all| <= MaxConcepts then all else all[..MaxConcepts]
  }

  lemma {:induction false} FirstSpaceAppend(x: string, y: string)
    ensures FirstSpace(x) < |x| ==> FirstSpace(x + y) == FirstSpace(x)
    ensures FirstSpace(x) == |x| ==> FirstSpace(x + y) == |x| + FirstSpace(y)
  {
    if x != [] {
      assert (x + y)[1..] == x[1..] + y;
      FirstSpaceAppend(x[1..], y);
    } else {
      assert x + y == y;
    }
  }

  lemma {:induction false} TrimStartAppend(u: string, v: string)
    ensures IsBlank(u) ==> TrimStart(u + v) == TrimStart(v)
    ensures !IsBlank(u) ==> TrimStart(u + v) == TrimStart(u) + v
  {
    if u == [] {
      assert u + v == v;
    } else {
      assert (u + v)[0] == u[0];
      assert (u + v)[1..] == u[1..] + v;
      TrimStartAppend(u[1..], v);
    }
  }

  /** Leading white space only adds an empty piece, which the length
      filter drops. */
  lemma SplitTrimStart(y: string)
    ensures Filter(Split(TrimStart(y)), LongEnough) == Filter(Split(y), LongEnough)
  {
    if y != [] && IsSpace(y[0]) {
      assert Split(y) == [[]] + Split(TrimStart(y[1..]));
      FilterAppend([[]], Split(TrimStart(y[1..])), LongEnough);
    }
  }

  predicate EndsInWord(x: string) {
    x == [] || !IsSpace(x[|x| - 1])
  }

  /** One unfolding of `Split`, as a lemma so that callers see only this
      equation and not the whole definition. */
  lemma SplitAt(s: string)
    requires FirstSpace(s) < |s|
    ensures Split(s) == [s[..FirstSpace(s)]] + Split(TrimStart(s[FirstSpace(s) + 1..]))
  {
  }

  lemma SplitWordThenSpace(x: string, sp: char, y: string)
    requires IsSpace(sp) && FirstSpace(x) == |x|
    ensures Split(x + [sp] + y) == [x] + Split(TrimStart(y))
  {
    var s := x + [sp] + y;
    assert s == x + ([sp] + y);
    FirstSpaceAppend(x, [sp] + y);
    assert s[..|x|] == x;
    assert s[|x| + 1..] == y;
  }

  lemma SplitSpaceInside(x: string, v: string)
    requires FirstSpace(x) < |x|
    ensures Split(x + v) == [x[..FirstSpace(x)]] + Split(TrimStart(x[FirstSpace(x) + 1..] + v))
  {
    FirstSpaceAppend(x, v);
    SlicesOfAppend(x, v, FirstSpace(x));
    SplitAt(x + v);
  }

  /** The two sides of `x + v` around a position inside `x`. Kept as a
      lemma of its own: proved inside the callers it costs them more than
      their whole budget. */
  lemma SlicesOfAppend(x: string, v: string, i: nat)
    requires i < |x|
    ensures (x + v)[..i] == x[..i] && (x + v)[i + 1..] == x[i + 1..] + v
  {
  }

  /** Splitting after a piece that ends in a word character: the pieces of
      `x`, then those of what follows the white space after it. */
  lemma {:induction false} SplitAfterWord(x: string, sp: char, y: string)
    requires IsSpace(sp) && EndsInWord(x)
    ensures Split(x + [sp] + y) == Split(x) + Split(TrimStart(y))
    decreases |x|
  {
    if FirstSpace(x) == |x| {
      SplitWordThenSpace(x, sp, y);
    } else {
      RestEndsInWord(x);
      SplitFirstPiece(x, sp, y);
      SplitAt(x);
      SplitAfterWord(RestOf(x), sp, y);
      Associative([x[..FirstSpace(x)]], Split(RestOf(x)), Split(TrimStart(y)));
    }
  }

  /** What follows the first piece of `x` and the white space after it. */
  function RestOf(x: string): string
    requires FirstSpace(x) < |x|
  {
    TrimStart(x[FirstSpace(x) + 1..])
  }

  lemma RestEndsInWord(x: string)
    requires EndsInWord(x) && FirstSpace(x) < |x|
    ensures |RestOf(x)| < |x| && EndsInWord(RestOf(x))
    ensures !IsBlank(x[FirstSpace(x) + 1..])
  {
    var u := x[FirstSpace(x) + 1..];
    assert u[|u| - 1] == x[|x| - 1];
    TrimStartKeepsLast(u);
  }

  /** Trimming the start of text that ends in a non-space character keeps
      that last character. */
  lemma TrimStartKeepsLast(u: string)
    requires u != [] && !IsSpace(u[|u| - 1])
    ensures TrimStart(u) != [] && TrimStart(u)[|TrimStart(u)| - 1] == u[|u| - 1]
  {
    TrimStartIsSuffix(u);
  }

  /** Regrouping a concatenation, as a lemma so that the recursive case
      above needs no sequence reasoning of its own. */
  lemma Associative<T>(a: seq<T>, b: seq<T>, c: seq<T>)
    ensures a + (b + c) == (a + b) + c
  {
  }

  /** Cutting off the first piece of `x`, which holds white space. */
  lemma SplitFirstPiece(x: string, sp: char, y: string)
    requires EndsInWord(x) && FirstSpace(x) < |x|
    ensures Split(x + [sp] + y) == [x[..FirstSpace(x)]] + Split(RestOf(x) + [sp] + y)
  {
    var u, w := x[FirstSpace(x) + 1..], [sp] + y;
    SplitSpaceInside(x, w);
    assert x + [sp] + y == x + w;
    RestEndsInWord(x);
    TrimStartAppend(u, w);
    assert TrimStart(u + w) == RestOf(x) + w;
    assert RestOf(x) + w == RestOf(x) + [sp] + y;
  }

  /** A white-space character splits the text: the pieces of `x + [sp] + y`
      are the pieces of `x` without its trailing white space followed by
      the pieces of `y` without its leading white space. */
  lemma SplitAtSpace(x: string, sp: char, y: string)
    requires IsSpace(sp)
    ensures Split(x + [sp] + y) == Split(TrimEnd(x)) + Split(TrimStart(y))
  {
    var x1 := TrimEnd(x);
    var run := x[|x1|..];
    assert x == x1 + run;
    if run == [] {
      assert x1 == x;
      SplitAfterWord(x1, sp, y);
    } else {
      var v := run[1..] + [sp] + y;
      assert x + [sp] + y == x1 + [run[0]] + v;
      assert run[1..] + [sp] + y == (run[1..] + [sp]) + y;
      assert IsBlank(run[1..] + [sp]);
      TrimStartAppend(run[1..] + [sp], y);
      assert TrimStart(v) == TrimStart(y);
      SplitAfterWord(x1, run[0], v);
      assert Split(x + [sp] + y) == Split(x1 + [run[0]] + v);
    }
  }

  /** Trailing white space only adds an empty piece, which the length filter
      drops. */
  lemma SplitTrimEnd(x: string)
    ensures Filter(Split(TrimEnd(x)), LongEnough) == Filter(Split(x), LongEnough)
  {
    var x1 := TrimEnd(x);
    var run := x[|x1|..];
    if run != [] {
      assert x == x1 + [run[0]] + run[1..];
      SplitAfterWord(x1, run[0], run[1..]);
      assert Split(TrimStart(run[1..])) == [[]];
      FilterAppend(Split(x1), [[]], LongEnough);
    }
  }

  /** A white-space character separates: the long pieces of `x + [sp] + y`
      are those of `x` followed by those of `y`. */
  lemma SplitAppend(x: string, sp: char, y: string)
    requires IsSpace(sp)
    ensures Filter(Split(x + [sp] + y), LongEnough) == Filter(Split(x), LongEnough) + Filter(Split(y), LongEnough)
  {
    SplitAtSpace(x, sp, y);
    FilterAppend(Split(TrimEnd(x)), Split(TrimStart(y)), LongEnough);
    SplitTrimEnd(x);
    SplitTrimStart(y);
  }

  /** Any non-word character separates concepts: the concepts of
      `a + [c] + b` are those of `a` followed by those of `b`, in order and
      with repetitions. */
  lemma ConceptsOfSeparated(a: string, c: char, b: string)
    requires !IsWordChar(c)
    ensures AllConcepts(a + [c] + b) == AllConcepts(a) + AllConcepts(b)
  {
    NormalizeAppend(a + [c], b);
    NormalizeAppend(a, [c]);
    SplitAppend(Normalize(a), Normalize([c])[0], Normalize(b));
    assert Normalize(a + [c] + b) == Normalize(a) + [Normalize([c])[0]] + Normalize(b);
  }

  /** A run of word characters is one concept if it is longer than two
      characters, and none otherwise. */
  lemma ConceptsOfWord(w: string)
    requires forall i :: 0 <= i < |w| ==> IsWordChar(w[i])
    ensures AllConcepts(w) == if |w| > 2 then [Lower(w)] else []
  {
    assert Normalize(w) == Lower(w);
    assert FirstSpace(Lower(w)) == |w|;
    assert Split(Lower(w)) == [Lower(w)];
  }

  /** Text without a single word character (empty, blank or punctuation
      only) has no concepts. */
  lemma NoWordsNoConcepts(text: string)
    requires forall i :: 0 <= i < |text| ==> !IsWordChar(text[i])
    ensures ExtractConcepts(text) == []
  {
    assert IsBlank(Normalize(text));
    SplitOfBlank(Normalize(text));
    assert Filter([[]], LongEnough) == [];
    assert Filter([[], []], LongEnough) == [];
  }

  predicate AllWordChars(w: string) {
    forall i :: 0 <= i < |w| ==> IsWordChar(w[i])
  }

  /** The text `ws[0] + [seps[0]] + ws[1] + ... + ws[|ws| - 1]`. */
  function Interleave(ws: seq<string>, seps: seq<char>): (s: string)
    requires |ws| == |seps| + 1
  {
    if seps == [] then ws[0] else ws[0] + [seps[0]] + Interleave(ws[1..], seps[1..])
  }

  /** Every string of `ws` lower-cased. */
  function LowerAll(ws: seq<string>): (r: seq<string>)
    ensures |r| == |ws|
  {
    seq(|ws|, i requires 0 <= i < |ws| => Lower(ws[i]))
  }

  /** A run of word characters followed by a separator contributes its
      lower-cased form if it is long enough, and then the rest follows. */
  lemma WordThen(w: string, c: char, rest: string)
    requires AllWordChars(w) && !IsWordChar(c)
    ensures AllConcepts(w + [c] + rest) == (if |w| > 2 then [Lower(w)] else []) + AllConcepts(rest)
  {
    ConceptsOfSeparated(w, c, rest);
    ConceptsOfWord(w);
  }

  /** The concepts of words separated by non-word characters are the words
      longer than two characters, lower-cased, in the order they are
      written and with their repetitions. */
  lemma {:induction false} ConceptsOfWords(ws: seq<string>, seps: seq<char>)
    requires |ws| == |seps| + 1
    requires forall k :: 0 <= k < |ws| ==> AllWordChars(ws[k])
    requires forall k :: 0 <= k < |seps| ==> !IsWordChar(seps[k])
    ensures AllConcepts(Interleave(ws, seps)) == Filter(LowerAll(ws), LongEnough)
  {
    if seps == [] {
      ConceptsOfWord(ws[0]);
      assert LowerAll(ws) == [Lower(ws[0])];
    } else {
      ConceptsOfWords(ws[1..], seps[1..]);
      WordThen(ws[0], seps[0], Interleave(ws[1..], seps[1..]));
      LowerAllCons(ws);
    }
  }

  lemma LowerAllCons(ws: seq<string>)
    requires ws != []
    ensures Filter(LowerAll(ws), LongEnough) == (if |ws[0]| > 2 then [Lower(ws[0])] else []) + Filter(LowerAll(ws[1..]), LongEnough)
  {
    assert LowerAll(ws) == [Lower(ws[0])] + LowerAll(ws[1..]);
    FilterAppend([Lower(ws[0])], LowerAll(ws[1..]), LongEnough);
  }

  /** Only the first ten concepts count: text after them changes nothing. */
  lemma ExtractStopsAtTen(a: string, c: char, b: string)
    requires !IsWordChar(c) && |AllConcepts(a)| >= MaxConcepts
    ensures ExtractConcepts(a + [c] + b) == ExtractConcepts(a)
  {
    ConceptsOfSeparated(a, c, b);
    assert (AllConcepts(a) + AllConcepts(b))[..MaxConcepts] == AllConcepts(a)[..MaxConcepts];
  }

  /** Repeated words are not merged: a concept written twice is extracted twice. */
  lemma KeepsDuplicates(w: string)
    requires IsConcept(w)
    ensures ExtractConcepts(w + " " + w) == [w, w]
  {
    ConceptsOfWord(w);
    assert Lower(w) == w;
    ConceptsOfSeparated(w, ' ', w);
  }
}
