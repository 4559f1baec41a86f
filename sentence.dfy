/** The sentence helpers of `GameState`: splitting on whitespace (what
    `std::istringstream >> word` does), `join_words` and `reverse_sentence`. */
module Sentence {
  import opened Seqs

  /** The characters `isspace` accepts in the C locale: space, tab,
      newline, vertical tab, form feed and carriage return. */
  predicate IsSpace(c: char) {
    c == ' ' || (9 <= c as int <= 13)
  }

  /** A word as `>>` extracts it: non-empty and free of whitespace. */
  predicate IsWord(w: string) {
    |w| > 0 && forall i :: 0 <= i < |w| ==> !IsSpace(w[i])
  }

  /** Length of the leading run of non-whitespace characters of `s`. */
  function WordEnd(s: string): (k: nat)
    ensures k <= |s|
    ensures forall j :: 0 <= j < k ==> !IsSpace(s[j])
    ensures k < |s| ==> IsSpace(s[k])
  {
    if s == [] || IsSpace(s[0]) then 0 else 1 + WordEnd(s[1..])
  }

  /** The words that repeated `>>` extractions read from `s`. */
  function Split(s: string): (ws: seq<string>)
    ensures forall k :: 0 <= k < |ws| ==> IsWord(ws[k])
    decreases |s|
  {
    if s == [] then []
    else if IsSpace(s[0]) then Split(s[1..])
    else var k := WordEnd(s); [s[..k]] + Split(s[k..])
  }

  /** The words separated by single spaces. */
  function Join(ws: seq<string>): string {
    if |ws| == 0 then ""
    else if |ws| == 1 then ws[0]
    else ws[0] + " " + Join(ws[1..])
  }

  /** `reverse_sentence`: the words of `s` in reverse order, joined. */
  function ReversedWords(s: string): string {
    Join(Reverse(Split(s)))
  }

  /** Appending a word to a non-empty list appends a space and the word. */
  lemma {:induction false} JoinAppend(ws: seq<string>, w: string)
    requires |ws| > 0
    ensures Join(ws + [w]) == Join(ws) + " " + w
  {
    if |ws| > 1 {
      assert (ws + [w])[1..] == ws[1..] + [w];
      JoinAppend(ws[1..], w);
    }
  }

  /** `join_words`: one pass over the words with a `first` flag. */
  method JoinWords(words: seq<string>) returns (r: string)
    ensures r == Join(words)
  {
    r := "";
    var first := true;
    for i := 0 to |words|
      invariant first <==> i == 0
      invariant r == Join(words[..i])
    {
      if !first {
        r := r + " ";
      }
      r := r + words[i];
      first := false;
      assert words[..i + 1] == words[..i] + [words[i]];
      if i > 0 {
        JoinAppend(words[..i], words[i]);
      }
    }
    assert words[..|words|] == words;
  }

  /** `reverse_sentence`. */
  method ReverseSentence(sentence: string) returns (r: string)
    ensures r == ReversedWords(sentence)
  {
    var words := Split(sentence);
    words := Reverse(words);
    r := JoinWords(words);
  }

  /** The word at the front of `w + rest` ends where `w` ends, when `rest`
      is empty or starts with whitespace. */
  lemma {:induction false} WordEndOfWord(w: string, rest: string)
    requires forall i :: 0 <= i < |w| ==> !IsSpace(w[i])
    requires rest == [] || IsSpace(rest[0])
    ensures WordEnd(w + rest) == |w|
  {
    if w != [] {
      assert (w + rest)[1..] == w[1..] + rest;
      WordEndOfWord(w[1..], rest);
    }
  }

  /** Splitting a word followed by nothing or by whitespace yields that word first. */
  lemma SplitWordThen(w: string, rest: string)
    requires IsWord(w)
    requires rest == [] || IsSpace(rest[0])
    ensures Split(w + rest) == [w] + Split(rest)
  {
    WordEndOfWord(w, rest);
    var s := w + rest;
    assert s[..|w|] == w;
    assert s[|w|..] == rest;
  }

  /** Splitting joined words gives the words back: `join_words` puts exactly
      one separator between consecutive words and none at either end. */
  lemma {:induction false} SplitJoin(ws: seq<string>)
    requires forall k :: 0 <= k < |ws| ==> IsWord(ws[k])
    ensures Split(Join(ws)) == ws
  {
    if |ws| == 1 {
      SplitWordThen(ws[0], "");
      assert ws[0] + "" == ws[0];
    } else if |ws| > 1 {
      var rest := " " + Join(ws[1..]);
      assert Join(ws) == ws[0] + rest;
      SplitWordThen(ws[0], rest);
      assert rest[1..] == Join(ws[1..]);
      SplitJoin(ws[1..]);
    }
  }

  /** `reverse_sentence` applied twice normalises the whitespace of a
      sentence: the result is its words joined by single spaces. */
  lemma ReverseSentenceTwice(s: string)
    ensures ReversedWords(ReversedWords(s)) == Join(Split(s))
  {
    var ws := Split(s);
    var rw := Reverse(ws);
    forall k | 0 <= k < |rw| ensures IsWord(rw[k]) {
      assert rw[k] == ws[|ws| - 1 - k];
    }
    SplitJoin(rw);
    ReverseReverse(ws);
  }

  /** Reversing the words of an already normalised sentence and joining
      them is the same as reversing the word list. */
  lemma ReversedWordsOfJoin(ws: seq<string>)
    requires forall k :: 0 <= k < |ws| ==> IsWord(ws[k])
    ensures ReversedWords(Join(ws)) == Join(Reverse(ws))
  {
    SplitJoin(ws);
  }
}
