/** The vocabulary of `HackerNewsRecommender`: the map `word_to_idx` together
    with the counter `next_word_idx` (recommender.py, lines 15-16), and the
    tokenizer that grows it (`_tokenize_text`, lines 31-42). */
module Vocabulary {
  import Text

  /** `words` is `word_to_idx`, `next` is `next_word_idx`. */
  datatype Vocab = Vocab(words: map<string, nat>, next: nat)

  /** The state of a fresh recommender: empty map, counter at 1, because id 0
      is kept for padding. */
  const Empty: Vocab := Vocab(map[], 1)

  /** Distinct words never share an id. */
  ghost predicate Injective(m: map<string, nat>) {
    forall a, b :: a in m && b in m && a != b ==> m[a] != m[b]
  }

  /** The invariant the tokenizer keeps: the counter is one past the number of
      words, every id lies in [1, next), and no two words share an id. */
  ghost predicate Valid(v: Vocab) {
    && v.next == |v.words| + 1
    && (forall w :: w in v.words ==> 1 <= v.words[w] < v.next)
    && Injective(v.words)
  }

  /** `v'` keeps every mapping of `v` unchanged. */
  ghost predicate Extends(v: Vocab, v': Vocab) {
    forall w :: w in v.words ==> w in v'.words && v'.words[w] == v.words[w]
  }

  lemma EmptyIsValid()
    ensures Valid(Empty)
  {
  }

  /** One turn of the loop body (lines 37-40): a known word keeps its id,
      an unknown word is given the counter and the counter moves on. */
  function Lookup(v: Vocab, word: string): (res: (Vocab, nat))
    ensures word in res.0.words && res.0.words[word] == res.1
    ensures Extends(v, res.0)
    ensures res.0.words.Keys == v.words.Keys + {word}
    ensures word in v.words ==> res.0 == v
    ensures word !in v.words ==> res.1 == v.next && res.0.next == v.next + 1
    ensures v.next <= res.0.next
  {
    if word in v.words then (v, v.words[word])
    else (Vocab(v.words[word := v.next], v.next + 1), v.next)
  }

  /** A lookup keeps the invariant and hands out an id in [1, next). */
  lemma LookupKeepsValid(v: Vocab, word: string)
    requires Valid(v)
    ensures Valid(Lookup(v, word).0)
    ensures 1 <= Lookup(v, word).1 < Lookup(v, word).0.next
  {
    if word !in v.words {
      var v' := Lookup(v, word).0;
      assert |v'.words| == |v.words| + 1 by {
        assert v'.words.Keys == v.words.Keys + {word};
      }
    }
  }

  /** The loop of lines 36-40 over an already split word list. */
  function TokenizeWords(v: Vocab, words: seq<string>): (res: (Vocab, seq<nat>))
    ensures |res.1| == |words|
    ensures v.next <= res.0.next
    decreases |words|
  {
    if |words| == 0 then (v, [])
    else
      var (v1, id) := Lookup(v, words[0]);
      var (v2, ids) := TokenizeWords(v1, words[1..]);
      (v2, [id] + ids)
  }

  lemma {:induction false} TokenizeWordsKeepsValid(v: Vocab, words: seq<string>)
    requires Valid(v)
    ensures Valid(TokenizeWords(v, words).0)
    decreases |words|
  {
    if |words| > 0 {
      LookupKeepsValid(v, words[0]);
      TokenizeWordsKeepsValid(Lookup(v, words[0]).0, words[1..]);
    }
  }

  /** Tokenizing only adds entries: every old mapping survives, the new keys
      are exactly the words that were absent, and each new word got an id at
      or above the old counter. */
  lemma {:induction false} TokenizeWordsGrows(v: Vocab, words: seq<string>)
    ensures Extends(v, TokenizeWords(v, words).0)
    ensures forall w :: w in TokenizeWords(v, words).0.words <==> w in v.words || w in words
    ensures forall w :: w in TokenizeWords(v, words).0.words && w !in v.words ==>
      v.next <= TokenizeWords(v, words).0.words[w]
    decreases |words|
  {
    if |words| > 0 {
      var (v1, id) := Lookup(v, words[0]);
      TokenizeWordsGrows(v1, words[1..]);
      assert forall w :: w in words <==> w == words[0] || w in words[1..];
    }
  }

  /** Each returned id is the id the final vocabulary gives the word at the
      same position. */
  lemma {:induction false} TokenizeWordsIds(v: Vocab, words: seq<string>)
    ensures forall i :: 0 <= i < |words| ==>
      && words[i] in TokenizeWords(v, words).0.words
      && TokenizeWords(v, words).0.words[words[i]] == TokenizeWords(v, words).1[i]
    decreases |words|
  {
    if |words| > 0 {
      var (v1, id) := Lookup(v, words[0]);
      TokenizeWordsIds(v1, words[1..]);
      TokenizeWordsGrows(v1, words[1..]);
      var (v2, ids) := TokenizeWords(v1, words[1..]);
      assert TokenizeWords(v, words) == (v2, [id] + ids);
      forall i | 0 <= i < |words|
        ensures words[i] in v2.words && v2.words[words[i]] == ([id] + ids)[i]
      {
        if i > 0 {
          assert words[i] == words[1..][i - 1];
        }
      }
    }
  }

  lemma {:induction false} TokenizeWordsKnown(v: Vocab, words: seq<string>)
    requires forall i :: 0 <= i < |words| ==> words[i] in v.words
    ensures TokenizeWords(v, words).0 == v
    decreases |words|
  {
    if |words| > 0 {
      TokenizeWordsKnown(v, words[1..]);
    }
  }

  /** The words `_tokenize_text` looks up: the lower-cased text, split. */
  function WordsOf(text: string): (ws: seq<string>)
    ensures |ws| <= |text|
  {
    Text.Split(Text.Lower(text))
  }

  /** `_tokenize_text(text)`: the grown vocabulary and one id per word of the
      lower-cased text. */
  function Tokenize(v: Vocab, text: string): (res: (Vocab, seq<nat>))
    ensures |res.1| == |WordsOf(text)|
    ensures v.next <= res.0.next
  {
    TokenizeWords(v, WordsOf(text))
  }

  /** The invariant is preserved: the counter stays one past the map size,
      ids stay in [1, next), distinct words keep distinct ids; and every id
      returned lies in [1, next) of the updated vocabulary, so 0 is never
      handed out. */
  lemma TokenizeKeepsValid(v: Vocab, text: string)
    requires Valid(v)
    ensures Valid(Tokenize(v, text).0)
    ensures forall i :: 0 <= i < |Tokenize(v, text).1| ==>
      1 <= Tokenize(v, text).1[i] < Tokenize(v, text).0.next
  {
    TokenizeWordsKeepsValid(v, WordsOf(text));
    TokenizeWordsIds(v, WordsOf(text));
  }

  /** A text with no words, the empty text included, yields no ids and leaves
      the vocabulary as it was; any other text yields at least one id. */
  lemma TokenizeBlank(v: Vocab, text: string)
    ensures Text.AllSpace(text) <==> Tokenize(v, text).1 == []
    ensures Text.AllSpace(text) ==> Tokenize(v, text).0 == v
  {
    Text.SplitOfLower(text);
    Text.SplitGivesWords(text);
  }

  /** The vocabulary only grows: old mappings are untouched, and the only new
      keys are words of the text that were absent, numbered from the old
      counter upwards. */
  lemma TokenizeGrows(v: Vocab, text: string)
    ensures Extends(v, Tokenize(v, text).0)
    ensures forall w :: w in Tokenize(v, text).0.words <==> w in v.words || w in WordsOf(text)
    ensures forall w :: w in Tokenize(v, text).0.words && w !in v.words ==>
      v.next <= Tokenize(v, text).0.words[w]
  {
    TokenizeWordsGrows(v, WordsOf(text));
  }

  /** Two positions of the text get the same id exactly when they hold the
      same word once lower-cased. */
  lemma TokenizeSameWordSameId(v: Vocab, text: string, i: nat, j: nat)
    requires Valid(v)
    requires i < |Text.Split(text)| && j < |Text.Split(text)|
    ensures |Tokenize(v, text).1| == |Text.Split(text)|
    ensures Text.Lower(Text.Split(text)[i]) == Text.Lower(Text.Split(text)[j])
        <==> Tokenize(v, text).1[i] == Tokenize(v, text).1[j]
  {
    var ws := WordsOf(text);
    var pieces := Text.Split(text);
    Text.SplitOfLower(text);
    assert ws[i] == Text.Lower(pieces[i]) && ws[j] == Text.Lower(pieces[j]);
    var r := TokenizeWords(v, ws);
    assert Tokenize(v, text) == r;
    TokenizeWordsKeepsValid(v, ws);
    TokenizeWordsIds(v, ws);
    assert ws[i] in r.0.words && r.0.words[ws[i]] == r.1[i];
    assert ws[j] in r.0.words && r.0.words[ws[j]] == r.1[j];
    assert ws[i] == ws[j] <==> r.1[i] == r.1[j] by {
      assert Injective(r.0.words);
    }
  }

  /** Tokenizing the same text a second time returns the same ids and leaves
      the vocabulary and the counter as the first call left them. */
  lemma TokenizeTwice(v: Vocab, text: string)
    ensures Tokenize(Tokenize(v, text).0, text) == Tokenize(v, text)
  {
    var ws := WordsOf(text);
    var first := TokenizeWords(v, ws);
    TokenizeWordsIds(v, ws);
    TokenizeWordsKnown(first.0, ws);
    TokenizeWordsIds(first.0, ws);
    var second := TokenizeWords(first.0, ws);
    assert second.0 == first.0;
    assert second.1 == first.1;
  }
}
