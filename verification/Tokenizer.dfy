/** The standard tokenizer of analysis/tokenizer.go. */
module Tokenizer {
  import opened InvertedIndex

  /** The character classes and lower-casing of the Unicode tables, given. */
  datatype Unicode = Unicode(isSpace: char -> bool, isPunct: char -> bool, isLetter: char -> bool,
                             lower: string -> string)
  {
    predicate Separates(c: char) { isSpace(c) || isPunct(c) }
  }

  /** The text cut at every separator. */
  function Chunks(u: Unicode, text: string): (chunks: seq<string>)
    ensures chunks != []
  {
    if text == "" then [""]
    else
      var before, c := Chunks(u, text[..|text| - 1]), text[|text| - 1];
      if u.Separates(c) then before + [""]
      else before[..|before| - 1] + [before[|before| - 1] + [c]]
  }

  /** What is left of a chunk once everything but letters is dropped. */
  function Letters(u: Unicode, chunk: string): string {
    if chunk == "" then ""
    else Letters(u, chunk[..|chunk| - 1]) + (if u.isLetter(chunk[|chunk| - 1]) then [chunk[|chunk| - 1]] else "")
  }

  /** The chunks that have letters, reduced to them. */
  function Words(u: Unicode, chunks: seq<string>): seq<string> {
    if chunks == [] then []
    else
      var w := Letters(u, chunks[|chunks| - 1]);
      Words(u, chunks[..|chunks| - 1]) + (if w == "" then [] else [w])
  }

  /** Words lower-cased and numbered from zero. */
  function Stream(u: Unicode, words: seq<string>): (tokens: seq<Token>)
    ensures |tokens| == |words|
    ensures forall i :: 0 <= i < |tokens| ==> tokens[i] == Token(u.lower(words[i]), i)
  {
    seq(|words|, i requires 0 <= i < |words| => Token(u.lower(words[i]), i))
  }

  /** The token stream of a text. */
  function Tokens(u: Unicode, text: string): seq<Token> {
    Stream(u, Words(u, Chunks(u, text)))
  }

  lemma ChunksGrow(u: Unicode, text: string, k: nat)
    requires k < |text|
    ensures var before, after := Chunks(u, text[..k]), Chunks(u, text[..k + 1]);
            if u.Separates(text[k]) then after == before + [""]
            else after == before[..|before| - 1] + [before[|before| - 1] + [text[k]]]
  {
    assert text[..k + 1][..k] == text[..k];
  }

  lemma LettersGrow(u: Unicode, chunk: string, c: char)
    ensures Letters(u, chunk + [c]) == Letters(u, chunk) + (if u.isLetter(c) then [c] else "")
  {
    assert (chunk + [c])[..|chunk|] == chunk;
  }

  lemma WordsGrow(u: Unicode, chunks: seq<string>, chunk: string)
    ensures Words(u, chunks + [chunk])
            == Words(u, chunks) + (if Letters(u, chunk) == "" then [] else [Letters(u, chunk)])
  {
    assert (chunks + [chunk])[..|chunks|] == chunks;
  }

  lemma StreamGrows(u: Unicode, words: seq<string>, w: string)
    ensures Stream(u, words + [w]) == Stream(u, words) + [Token(u.lower(w), |words|)]
  {
  }

  /** The tokens of the finished chunks, and the letters of the one being read. */
  ghost predicate ReadSoFar(u: Unicode, chunks: seq<string>, tokens: seq<Token>, buffer: string)
    requires chunks != []
  {
    && tokens == Stream(u, Words(u, chunks[..|chunks| - 1]))
    && buffer == Letters(u, chunks[|chunks| - 1])
  }

  lemma WordEnds(u: Unicode, chunks: seq<string>, tokens: seq<Token>, buffer: string)
    requires chunks != [] && ReadSoFar(u, chunks, tokens, buffer)
    ensures Stream(u, Words(u, chunks)) == if buffer == "" then tokens else tokens + [Token(u.lower(buffer), |tokens|)]
  {
    var done := chunks[..|chunks| - 1];
    assert chunks == done + [chunks[|chunks| - 1]];
    WordsGrow(u, done, chunks[|chunks| - 1]);
    if buffer != "" {
      StreamGrows(u, Words(u, done), buffer);
    }
  }

  method Tokenize(u: Unicode, text: string) returns (tokens: seq<Token>)
    ensures tokens == Tokens(u, text)
  {
    tokens := [];
    var buffer := "";
    var position := 0;
    ghost var chunks := [""];
    for i := 0 to |text|
      invariant chunks == Chunks(u, text[..i]) && chunks != []
      invariant ReadSoFar(u, chunks, tokens, buffer)
      invariant position == |tokens|
    {
      hide Chunks, Words, Stream;
      var r := text[i];
      ChunksGrow(u, text, i);
      if u.Separates(r) {
        WordEnds(u, chunks, tokens, buffer);
        if buffer != "" {
          tokens := tokens + [Token(u.lower(buffer), position)];
          position := position + 1;
          buffer := "";
        }
        assert (chunks + [""])[..|chunks|] == chunks;
        chunks := chunks + [""];
      } else {
        LettersGrow(u, chunks[|chunks| - 1], r);
        if u.isLetter(r) {
          buffer := buffer + [r];
        }
        ghost var done := chunks[..|chunks| - 1];
        chunks := done + [chunks[|chunks| - 1] + [r]];
        assert chunks[..|chunks| - 1] == done;
      }
    }
    assert text[..|text|] == text;
    WordEnds(u, chunks, tokens, buffer);
    if buffer != "" {
      tokens := tokens + [Token(u.lower(buffer), position)];
    }
  }

  // --- Four laws that decide every token stream --------------------------------

  lemma ChunksMore(u: Unicode, x: string, c: char)
    ensures var before, after := Chunks(u, x), Chunks(u, x + [c]);
            if u.Separates(c) then after == before + [""]
            else after == before[..|before| - 1] + [before[|before| - 1] + [c]]
  {
    assert (x + [c])[..|x|] == x;
    ChunksGrow(u, x + [c], |x|);
    assert (x + [c])[..|x| + 1] == x + [c];
  }

  /** The chunks after one more character. */
  function More(u: Unicode, chunks: seq<string>, c: char): seq<string>
    requires chunks != []
  {
    var last := |chunks| - 1;
    if u.Separates(c) then chunks + [""] else chunks[..last] + [chunks[last] + [c]]
  }

  lemma MoreBehind(u: Unicode, a: seq<string>, b: seq<string>, c: char)
    requires b != []
    ensures More(u, a + b, c) == a + More(u, b, c)
  {
    var last := |b| - 1;
    assert (a + b)[..|a| + last] == a + b[..last];
  }

  lemma {:induction false} ChunksApart(u: Unicode, x: string, c: char, y: string)
    requires u.Separates(c)
    ensures Chunks(u, x + [c] + y) == Chunks(u, x) + Chunks(u, y)
    decreases |y|
  {
    hide Chunks, More;
    if y == "" {
      NoWords(u);
      ChunksMore(u, x, c);
      assert x + [c] + y == x + [c];
    } else {
      var init, last := y[..|y| - 1], y[|y| - 1];
      ChunksApart(u, x, c, init);
      NextChunks(u, x + [c] + init, last);
      NextChunks(u, init, last);
      MoreBehind(u, Chunks(u, x), Chunks(u, init), last);
      assert y == init + [last] && x + [c] + y == x + [c] + init + [last];
    }
  }

  lemma NextChunks(u: Unicode, x: string, c: char)
    ensures Chunks(u, x + [c]) == More(u, Chunks(u, x), c)
  {
    ChunksMore(u, x, c);
  }

  lemma NoWords(u: Unicode)
    ensures Words(u, []) == [] && Chunks(u, "") == [""] && Letters(u, "") == ""
  {
  }

  lemma {:induction false} WordsConcat(u: Unicode, a: seq<string>, b: seq<string>)
    ensures Words(u, a + b) == Words(u, a) + Words(u, b)
    decreases |b|
  {
    hide Words, Letters;
    NoWords(u);
    if b == [] {
      assert a + b == a;
    } else {
      var init, last := b[..|b| - 1], b[|b| - 1];
      WordsConcat(u, a, init);
      WordsGrow(u, a + init, last);
      WordsGrow(u, init, last);
      assert b == init + [last] && a + b == a + init + [last];
    }
  }

  lemma StreamConcat(u: Unicode, a: seq<string>, b: seq<string>)
    ensures Stream(u, a + b) == Stream(u, a) + NumberedFrom(Stream(u, b), |Stream(u, a)|)
  {
    assert forall i :: 0 <= i < |b| ==> (a + b)[|a| + i] == b[i];
  }

  function NumberedFrom(tokens: seq<Token>, n: nat): (numbered: seq<Token>)
    ensures |numbered| == |tokens|
    ensures forall i :: 0 <= i < |tokens| ==> numbered[i] == Token(tokens[i].term, n + tokens[i].position)
  {
    seq(|tokens|, i requires 0 <= i < |tokens| => Token(tokens[i].term, n + tokens[i].position))
  }

  lemma TokensApart(u: Unicode, x: string, c: char, y: string)
    requires u.Separates(c)
    ensures Tokens(u, x + [c] + y) == Tokens(u, x) + NumberedFrom(Tokens(u, y), |Tokens(u, x)|)
  {
    hide Chunks, Words, Stream, NumberedFrom;
    ChunksApart(u, x, c, y);
    WordsConcat(u, Chunks(u, x), Chunks(u, y));
    StreamConcat(u, Words(u, Chunks(u, x)), Words(u, Chunks(u, y)));
  }

  /** A space or a punctuation mark ends the word: what follows is cut by itself, and numbered on from there. */
  lemma SeparatorSplits(u: Unicode, x: string, c: char, y: string)
    requires u.isSpace(c) || u.isPunct(c)
    ensures var whole, before, after := Tokens(u, x + [c] + y), Tokens(u, x), Tokens(u, y);
            && |whole| == |before| + |after| && whole[..|before|] == before
            && forall i :: 0 <= i < |after| ==>
                 whole[|before| + i] == Token(after[i].term, |before| + after[i].position)
  {
    hide Tokens, NumberedFrom;
    TokensApart(u, x, c, y);
  }

  /** The same finished words and the same letters in the word being read. */
  predicate ReadAlike(u: Unicode, a: seq<string>, b: seq<string>)
    requires a != [] && b != []
  {
    && Words(u, a[..|a| - 1]) == Words(u, b[..|b| - 1])
    && Letters(u, a[|a| - 1]) == Letters(u, b[|b| - 1])
  }

  lemma AlikeMore(u: Unicode, x: string, y: string, c: char)
    requires ReadAlike(u, Chunks(u, x), Chunks(u, y))
    ensures ReadAlike(u, Chunks(u, x + [c]), Chunks(u, y + [c]))
  {
    hide Chunks, Words, Letters;
    var a, b := Chunks(u, x), Chunks(u, y);
    ChunksMore(u, x, c);
    ChunksMore(u, y, c);
    WordsGrow(u, a[..|a| - 1], a[|a| - 1]);
    WordsGrow(u, b[..|b| - 1], b[|b| - 1]);
    LettersGrow(u, a[|a| - 1], c);
    LettersGrow(u, b[|b| - 1], c);
    assert a == a[..|a| - 1] + [a[|a| - 1]] && b == b[..|b| - 1] + [b[|b| - 1]];
    var a', b' := Chunks(u, x + [c]), Chunks(u, y + [c]);
    if u.Separates(c) {
      assert a'[..|a'| - 1] == a && b'[..|b'| - 1] == b;
    } else {
      assert a'[..|a'| - 1] == a[..|a| - 1] && b'[..|b'| - 1] == b[..|b| - 1];
    }
  }

  lemma {:induction false} Vanishes(u: Unicode, x: string, c: char, y: string)
    requires !u.isSpace(c) && !u.isPunct(c) && !u.isLetter(c)
    ensures ReadAlike(u, Chunks(u, x + [c] + y), Chunks(u, x + y))
    decreases |y|
  {
    hide Chunks, Words, Letters;
    if y == "" {
      var a := Chunks(u, x);
      ChunksMore(u, x, c);
      LettersGrow(u, a[|a| - 1], c);
      assert x + [c] + y == x + [c] && x + y == x;
      assert Chunks(u, x + [c])[..|a| - 1] == a[..|a| - 1];
    } else {
      var n := |y| - 1;
      Vanishes(u, x, c, y[..n]);
      hide ReadAlike;
      AlikeMore(u, x + [c] + y[..n], x + y[..n], y[n]);
      assert x + [c] + y == x + [c] + y[..n] + [y[n]] && x + y == x + y[..n] + [y[n]];
    }
  }

  /** Whatever is neither a separator nor a letter, a digit say, leaves no trace and ends no word. */
  lemma OthersVanish(u: Unicode, x: string, c: char, y: string)
    requires !u.isSpace(c) && !u.isPunct(c) && !u.isLetter(c)
    ensures Tokens(u, x + [c] + y) == Tokens(u, x + y)
  {
    Vanishes(u, x, c, y);
    var a, b := Chunks(u, x + [c] + y), Chunks(u, x + y);
    assert a == a[..|a| - 1] + [a[|a| - 1]] && b == b[..|b| - 1] + [b[|b| - 1]];
    WordsGrow(u, a[..|a| - 1], a[|a| - 1]);
    WordsGrow(u, b[..|b| - 1], b[|b| - 1]);
  }

  lemma {:induction false} LettersAlone(u: Unicode, text: string)
    requires forall c <- text :: u.isLetter(c) && !u.isSpace(c) && !u.isPunct(c)
    ensures Chunks(u, text) == [text] && Letters(u, text) == text
    decreases |text|
  {
    hide Chunks, Letters;
    NoWords(u);
    if text != "" {
      var init, last := text[..|text| - 1], text[|text| - 1];
      assert text == init + [last];
      LettersAlone(u, init);
      LettersGrow(u, init, last);
      NextChunks(u, init, last);
    }
  }

  /** An empty text has no token, and letters alone are one, lower-cased, at position zero. */
  lemma LettersAreAWord(u: Unicode, text: string)
    requires forall c <- text :: u.isLetter(c) && !u.isSpace(c) && !u.isPunct(c)
    ensures Tokens(u, text) == if text == "" then [] else [Token(u.lower(text), 0)]
  {
    LettersAlone(u, text);
    WordsGrow(u, [], text);
    assert [] + [text] == [text];
  }
}
