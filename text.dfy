/**
 * The string primitives `extractConcepts` and the reference check rely on:
 * the character classes of the regular expressions `\w` and `\s`,
 * `toLowerCase`, `replace(/[^\w\s]/g, ' ')`, `trim` and `split(/\s+/)`.
 */
module Text {

  /** `\w` in a JavaScript regular expression without the `u` flag:
      ASCII letters, digits and the underscore. */
  predicate IsWordChar(c: char)
    ensures IsWordChar(c) ==> c as int < 128
  {
    'a' <= c <= 'z' || 'A' <= c <= 'Z' || '0' <= c <= '9' || c == '_'
  }

  /** `\s` (and what `trim` removes): the ECMAScript WhiteSpace and
      LineTerminator code points. */
  predicate IsSpace(c: char)
    ensures IsSpace(c) ==> !IsWordChar(c)
  {
    var n := c as int;
    n == 0x09 || n == 0x0A || n == 0x0B || n == 0x0C || n == 0x0D || n == 0x20 ||
    n == 0xA0 || n == 0x1680 || (0x2000 <= n <= 0x200A) || n == 0x2028 || n == 0x2029 ||
    n == 0x202F || n == 0x205F || n == 0x3000 || n == 0xFEFF
  }

  predicate IsUpper(c: char) {
    'A' <= c <= 'Z'
  }

  /** `toLowerCase` on one character, for the ASCII capitals. */
  function ToLower(c: char): (r: char)
    ensures !IsUpper(r)
    ensures IsWordChar(r) <==> IsWordChar(c)
    ensures IsSpace(r) <==> IsSpace(c)
    ensures !IsUpper(c) ==> r == c
  {
    if IsUpper(c) then (c as int - 'A' as int + 'a' as int) as char else c
  }

  /** `text.toLowerCase()`. */
  function Lower(s: string): (r: string)
    ensures |r| == |s|
    ensures forall i :: 0 <= i < |s| ==> !IsUpper(r[i]) && (IsWordChar(r[i]) <==> IsWordChar(s[i]))
  {
    seq(|s|, i requires 0 <= i < |s| => ToLower(s[i]))
  }

  lemma LowerAppend(a: string, b: string)
    ensures Lower(a + b) == Lower(a) + Lower(b)
  {
    assert forall i :: 0 <= i < |a + b| ==> Lower(a + b)[i] == (Lower(a) + Lower(b))[i];
  }

  /** `replace(/[^\w\s]/g, ' ')`: every character that is neither a word
      character nor white space becomes a space. */
  function BlankNonWord(s: string): (r: string)
    ensures |r| == |s|
    ensures forall i :: 0 <= i < |s| ==> IsWordChar(r[i]) || IsSpace(r[i])
    ensures forall i :: 0 <= i < |s| ==> (IsWordChar(s[i]) || IsSpace(s[i]) ==> r[i] == s[i])
    ensures forall i :: 0 <= i < |s| ==> (IsWordChar(r[i]) <==> IsWordChar(s[i]))
  {
    seq(|s|, i requires 0 <= i < |s| => if IsWordChar(s[i]) || IsSpace(s[i]) then s[i] else ' ')
  }

  lemma BlankNonWordAppend(a: string, b: string)
    ensures BlankNonWord(a + b) == BlankNonWord(a) + BlankNonWord(b)
  {
    assert forall i :: 0 <= i < |a + b| ==> BlankNonWord(a + b)[i] == (BlankNonWord(a) + BlankNonWord(b))[i];
  }

  predicate NoSpace(w: string) {
    forall i :: 0 <= i < |w| ==> !IsSpace(w[i])
  }

  predicate IsBlank(s: string) {
    forall i :: 0 <= i < |s| ==> IsSpace(s[i])
  }

  /** Index of the first white-space character of `s`, or `|s|` if none. */
  function FirstSpace(s: string): (i: nat)
    ensures i <= |s|
    ensures forall k :: 0 <= k < i ==> !IsSpace(s[k])
    ensures i < |s| ==> IsSpace(s[i])
  {
    if s == [] || IsSpace(s[0]) then 0 else 1 + FirstSpace(s[1..])
  }

  /** `trimStart`: drops the leading run of white space. */
  function TrimStart(s: string): (r: string)
    ensures |r| <= |s|
    ensures r != [] ==> !IsSpace(r[0])
    ensures r == [] <==> IsBlank(s)
  {
    if s != [] && IsSpace(s[0]) then TrimStart(s[1..]) else s
  }

  lemma {:induction false} TrimStartIsSuffix(s: string)
    ensures TrimStart(s) == s[|s| - |TrimStart(s)|..]
  {
    if s != [] && IsSpace(s[0]) {
      TrimStartIsSuffix(s[1..]);
    }
  }

  /** `trimEnd`: drops the trailing run of white space. */
  function TrimEnd(s: string): (r: string)
    ensures |r| <= |s| && r == s[..|r|]
    ensures IsBlank(s[|r|..])
    ensures r != [] ==> !IsSpace(r[|r| - 1])
    ensures r == [] <==> IsBlank(s)
  {
    if s != [] && IsSpace(s[|s| - 1]) then TrimEnd(s[..|s| - 1]) else s
  }

  /** `s.trim()`. The reference check of the evaluation, `!s.trim()`,
      holds exactly for strings made only of white space. */
  function Trim(s: string): (r: string)
    ensures r != [] ==> !IsSpace(r[0]) && !IsSpace(r[|r| - 1])
    ensures r == [] <==> IsBlank(s)
  {
    TrimEnd(TrimStart(s))
  }

  /** `s.split(/\s+/)`: the pieces between maximal runs of white space, with
      an empty first piece when `s` starts with white space, an empty last
      piece when it ends with white space, and `[""]` for the empty string. */
  function Split(s: string): (r: seq<string>)
    ensures |r| >= 1
    ensures forall k :: 0 <= k < |r| ==> NoSpace(r[k])
    decreases |s|
  {
    var i := FirstSpace(s);
    if i == |s| then [s] else [s[..i]] + Split(TrimStart(s[i + 1..]))
  }

  /** Every character of every piece is a character of `s` that is not
      white space: a class `p` of characters that `s` keeps to, apart from
      white space, is kept to by every piece. */
  lemma {:induction false} SplitCharClass(s: string, p: char -> bool)
    requires forall i :: 0 <= i < |s| ==> IsSpace(s[i]) || p(s[i])
    ensures forall k, j :: 0 <= k < |Split(s)| && 0 <= j < |Split(s)[k]| ==> p(Split(s)[k][j])
    decreases |s|
  {
    var i := FirstSpace(s);
    if i < |s| {
      var tail := s[i + 1..];
      var rest := TrimStart(tail);
      TrimStartIsSuffix(tail);
      assert forall j :: 0 <= j < |rest| ==> rest[j] == s[i + 1 + |tail| - |rest| + j];
      SplitCharClass(rest, p);
      assert Split(s) == [s[..i]] + Split(rest);
    }
  }

  /** Blank text splits into empty pieces only: one for the empty string,
      two (before and after the run) otherwise. */
  lemma SplitOfBlank(s: string)
    requires IsBlank(s)
    ensures Split(s) == if s == [] then [[]] else [[], []]
  {
    if s != [] {
      assert TrimStart(s[1..]) == [];
    }
  }

  /** Concatenation of a list of strings. */
  function Concat(ws: seq<string>): string {
    if ws == [] then [] else ws[0] + Concat(ws[1..])
  }

  lemma ConcatCons(w: string, ws: seq<string>)
    ensures Concat([w] + ws) == w + Concat(ws)
  {
    assert ([w] + ws)[1..] == ws;
  }

  /** `s` with its white space removed. */
  function NonSpace(s: string): (r: string)
    ensures NoSpace(r)
  {
    if s == [] then []
    else if IsSpace(s[0]) then NonSpace(s[1..])
    else [s[0]] + NonSpace(s[1..])
  }

  lemma {:induction false} NonSpaceAppend(a: string, b: string)
    ensures NonSpace(a + b) == NonSpace(a) + NonSpace(b)
  {
    if a == [] {
      assert a + b == b;
    } else {
      assert (a + b)[0] == a[0];
      assert (a + b)[1..] == a[1..] + b;
      NonSpaceAppend(a[1..], b);
    }
  }

  lemma {:induction false} NonSpaceOfWord(w: string)
    requires NoSpace(w)
    ensures NonSpace(w) == w
  {
    if w != [] {
      NonSpaceOfWord(w[1..]);
      assert w == [w[0]] + w[1..];
    }
  }

  lemma {:induction false} NonSpaceOfBlank(s: string)
    requires IsBlank(s)
    ensures NonSpace(s) == []
  {
    if s != [] {
      NonSpaceOfBlank(s[1..]);
    }
  }

  lemma {:induction false} NonSpaceTrimStart(t: string)
    ensures NonSpace(TrimStart(t)) == NonSpace(t)
  {
    if t != [] && IsSpace(t[0]) {
      NonSpaceTrimStart(t[1..]);
    }
  }

  lemma {:induction false} NonSpaceAtFirstSpace(s: string)
    requires FirstSpace(s) < |s|
    ensures NonSpace(s) == s[..FirstSpace(s)] + NonSpace(TrimStart(s[FirstSpace(s) + 1..]))
  {
    var i := FirstSpace(s);
    var word, tail := s[..i], s[i + 1..];
    assert s == word + ([s[i]] + tail);
    NonSpaceAppend(word, [s[i]] + tail);
    NonSpaceOfWord(word);
    assert NonSpace([s[i]] + tail) == NonSpace(tail);
    NonSpaceTrimStart(tail);
  }

  /** Splitting loses only white space: the pieces, put back together, are
      the non-space characters of `s` in their original order. */
  lemma {:induction false} SplitKeepsText(s: string)
    ensures Concat(Split(s)) == NonSpace(s)
    decreases |s|
  {
    if FirstSpace(s) == |s| {
      NonSpaceOfWord(s);
      ConcatCons(s, []);
    } else {
      SplitKeepsText(TrimStart(s[FirstSpace(s) + 1..]));
      NonSpaceAtFirstSpace(s);
      ConcatCons(s[..FirstSpace(s)], Split(TrimStart(s[FirstSpace(s) + 1..])));
    }
  }
}
