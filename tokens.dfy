/**
 * Joining tokens with single spaces (Python's " ".join) and splitting a
 * string into its whitespace-separated words (Python's str.split() with no
 * argument: runs of whitespace separate words, and no word is empty).
 */
module Tokens {
  /** The characters Python's str.split() treats as whitespace. */
  predicate IsSpace(c: char)
  {
    var n := c as int;
    (9 <= n <= 13) || (28 <= n <= 32) || n == 0x85 || n == 0xA0 || n == 0x1680
    || (0x2000 <= n <= 0x200A) || n == 0x2028 || n == 0x2029 || n == 0x202F
    || n == 0x205F || n == 0x3000
  }

  /** A word: non-empty and free of whitespace. */
  predicate IsWord(w: string)
  {
    w != [] && forall i | 0 <= i < |w| :: !IsSpace(w[i])
  }

  /** The number of characters in all the tokens together. */
  function TotalLength(toks: seq<string>): nat
  {
    if toks == [] then 0 else |toks[0]| + TotalLength(toks[1..])
  }

  /** The tokens separated by single spaces: one space between each two neighbours and none elsewhere. */
  function Join(toks: seq<string>): (s: string)
    ensures toks == [] ==> s == ""
    ensures toks != [] ==> |s| == TotalLength(toks) + |toks| - 1
  {
    if |toks| == 0 then ""
    else if |toks| == 1 then toks[0]
    else toks[0] + " " + Join(toks[1..])
  }

  /** The first index at or after i that holds whitespace, or |s|. */
  function WordEnd(s: string, i: nat): (k: nat)
    requires i <= |s|
    ensures i <= k <= |s|
    ensures forall j | i <= j < k :: !IsSpace(s[j])
    ensures k < |s| ==> IsSpace(s[k])
    decreases |s| - i
  {
    if i == |s| || IsSpace(s[i]) then i else WordEnd(s, i + 1)
  }

  /** The words of s, in order. */
  function Words(s: string): (ws: seq<string>)
    ensures forall i | 0 <= i < |ws| :: IsWord(ws[i])
    decreases |s|
  {
    if s == [] then []
    else if IsSpace(s[0]) then Words(s[1..])
    else
      var k := WordEnd(s, 1);
      [s[..k]] + Words(s[k..])
  }

  lemma WordsLeadingSpace(s: string)
    requires |s| > 0 && IsSpace(s[0])
    ensures Words(s) == Words(s[1..])
  {
  }

  /** A word followed by whitespace or the end of the string is the first word. */
  lemma WordsAfterWord(w: string, rest: string)
    requires IsWord(w)
    requires rest == [] || IsSpace(rest[0])
    ensures Words(w + rest) == [w] + Words(rest)
  {
    var s := w + rest;
    assert s[0] == w[0];
    var k := WordEnd(s, 1);
    assert forall j | 1 <= j < |w| :: s[j] == w[j];
    assert |w| < |s| ==> s[|w|] == rest[0];
    assert k == |w|;
    assert s[..k] == w;
    assert s[k..] == rest;
  }

  /** Splitting joined words gives the words back. */
  lemma {:induction false} WordsJoin(toks: seq<string>)
    requires forall i | 0 <= i < |toks| :: IsWord(toks[i])
    ensures Words(Join(toks)) == toks
  {
    if |toks| == 1 {
      WordsAfterWord(toks[0], "");
      assert toks[0] + "" == toks[0];
    } else if |toks| > 1 {
      var rest := Join(toks[1..]);
      assert Join(toks) == toks[0] + (" " + rest);
      WordsAfterWord(toks[0], " " + rest);
      WordsLeadingSpace(" " + rest);
      assert (" " + rest)[1..] == rest;
      WordsJoin(toks[1..]);
    }
  }

  /** Joining at least one word gives a non-empty string. */
  lemma JoinNonEmpty(toks: seq<string>)
    requires |toks| > 0 && IsWord(toks[0])
    ensures Join(toks) != ""
  {
    if |toks| > 1 {
      assert Join(toks)[0] == toks[0][0];
    }
  }
}
