/** The sparse half of `_prepare_batch` (recommender.py, lines 44-61), the
    embedding-table sizing of `get_article_embeddings` (lines 73-78) and the
    order in which the two happen (lines 74-83). */
module Batch {
  import opened Wrappers
  import opened Vocabulary
  import Jagged

  /** The sparse feature names; the recommender files every row of the
      sparse batch under the one key `"title_words"`. */
  datatype FeatureKey = TitleWords

  /** The smallest embedding table the recommender ever builds. */
  const MinTable: nat := 100

  /** `n` copies of the title key, one per row. */
  function TitleKeys(n: nat): (ks: seq<FeatureKey>)
    ensures |ks| == n
    ensures forall k :: 0 <= k < n ==> ks[k] == TitleWords
  {
    if n == 0 then [] else TitleKeys(n - 1) + [TitleWords]
  }

  /** The `KeyedJaggedTensor` arguments, before they become tensors. */
  datatype SparseBatch = SparseBatch(keys: seq<FeatureKey>, values: seq<nat>, lengths: seq<nat>)

  /** The word list of every title, in row order. */
  function WordLists(titles: seq<string>): (lists: seq<seq<string>>)
    ensures |lists| == |titles|
    ensures forall i :: 0 <= i < |titles| ==> lists[i] == WordsOf(titles[i])
  {
    if |titles| == 0 then [] else WordLists(titles[..|titles| - 1]) + [WordsOf(titles[|titles| - 1])]
  }

  /** The ids of each word list in turn, each list looked up in the
      vocabulary the earlier lists left behind. */
  function EncodeLists(v: Vocab, lists: seq<seq<string>>): (res: (Vocab, seq<seq<nat>>))
    ensures |res.1| == |lists|
    ensures v.next <= res.0.next
    decreases |lists|
  {
    if |lists| == 0 then (v, [])
    else
      var (v1, rows) := EncodeLists(v, lists[..|lists| - 1]);
      var (v2, ids) := TokenizeWords(v1, lists[|lists| - 1]);
      (v2, rows + [ids])
  }

  /** The sparse rows of a batch of titles: `_tokenize_text` applied to each
      title in row order, threading the vocabulary. */
  function EncodeTitles(v: Vocab, titles: seq<string>): (res: (Vocab, seq<seq<nat>>))
    ensures |res.1| == |titles|
    ensures v.next <= res.0.next
  {
    EncodeLists(v, WordLists(titles))
  }

  lemma {:induction false} EncodeListsKeepsValid(v: Vocab, lists: seq<seq<string>>)
    requires Valid(v)
    ensures Valid(EncodeLists(v, lists).0)
    decreases |lists|
  {
    if |lists| > 0 {
      EncodeListsKeepsValid(v, lists[..|lists| - 1]);
      TokenizeWordsKeepsValid(EncodeLists(v, lists[..|lists| - 1]).0, lists[|lists| - 1]);
    }
  }

  /** Encoding only adds entries to the vocabulary, and every word it adds
      is numbered from the old counter upwards. */
  lemma {:induction false} EncodeListsGrows(v: Vocab, lists: seq<seq<string>>)
    ensures Extends(v, EncodeLists(v, lists).0)
    ensures forall w :: w in EncodeLists(v, lists).0.words && w !in v.words ==>
      v.next <= EncodeLists(v, lists).0.words[w]
    decreases |lists|
  {
    if |lists| > 0 {
      var init := lists[..|lists| - 1];
      EncodeListsGrows(v, init);
      TokenizeWordsGrows(EncodeLists(v, init).0, lists[|lists| - 1]);
    }
  }

  /** Each row holds one id per word of its list, each the id the final
      vocabulary gives the word at the same position. */
  lemma {:induction false} EncodeListsIds(v: Vocab, lists: seq<seq<string>>)
    ensures forall i :: 0 <= i < |lists| ==> |EncodeLists(v, lists).1[i]| == |lists[i]|
    ensures forall i, j :: 0 <= i < |lists| && 0 <= j < |lists[i]| ==>
      && lists[i][j] in EncodeLists(v, lists).0.words
      && EncodeLists(v, lists).0.words[lists[i][j]] == EncodeLists(v, lists).1[i][j]
    decreases |lists|
  {
    if |lists| > 0 {
      var init := lists[..|lists| - 1];
      var last := lists[|lists| - 1];
      EncodeListsIds(v, init);
      var (v1, rows) := EncodeLists(v, init);
      var (v2, ids) := TokenizeWords(v1, last);
      TokenizeWordsIds(v1, last);
      TokenizeWordsGrows(v1, last);
      var all := rows + [ids];
      assert EncodeLists(v, lists) == (v2, all);
      forall i | 0 <= i < |lists|
        ensures |all[i]| == |lists[i]|
        ensures forall j :: 0 <= j < |lists[i]| ==> lists[i][j] in v2.words && v2.words[lists[i][j]] == all[i][j]
      {
        if i < |init| {
          assert init[i] == lists[i];
          assert all[i] == rows[i];
        }
      }
    }
  }

  /** Every row holds one id per word of its title, and with a valid starting
      vocabulary every id is a real vocabulary id: at least 1 and below the
      final counter. */
  lemma EncodeTitlesRows(v: Vocab, titles: seq<string>)
    ensures forall i :: 0 <= i < |titles| ==> |EncodeTitles(v, titles).1[i]| == |WordsOf(titles[i])|
    ensures Valid(v) ==> Valid(EncodeTitles(v, titles).0)
    ensures Valid(v) ==> forall i, j :: 0 <= i < |titles| && 0 <= j < |EncodeTitles(v, titles).1[i]| ==>
      1 <= EncodeTitles(v, titles).1[i][j] < EncodeTitles(v, titles).0.next
  {
    var lists := WordLists(titles);
    EncodeListsIds(v, lists);
    if Valid(v) {
      EncodeListsKeepsValid(v, lists);
    }
  }

  /** The loop of lines 51-55 over the titles in row order: one key and one
      length per title, the title's ids appended to the flat values. */
  method PrepareBatch(v: Vocab, titles: seq<string>) returns (v': Vocab, batch: SparseBatch)
    ensures |batch.keys| == |titles| && forall k :: 0 <= k < |batch.keys| ==> batch.keys[k] == TitleWords
    ensures |batch.lengths| == |titles|
    ensures forall i :: 0 <= i < |titles| ==> batch.lengths[i] == |WordsOf(titles[i])|
    ensures Jagged.Sum(batch.lengths) == |batch.values|
    ensures Jagged.Unpack(batch.values, batch.lengths) == Some(EncodeTitles(v, titles).1)
    ensures v' == EncodeTitles(v, titles).0
    ensures Valid(v) ==> Valid(v') && forall k :: 0 <= k < |batch.values| ==> 1 <= batch.values[k] < v'.next
  {
    var keys: seq<FeatureKey> := [];
    var values: seq<nat> := [];
    var lengths: seq<nat> := [];
    ghost var rows: seq<seq<nat>> := [];
    ghost var lists := WordLists(titles);
    v' := v;
    var i := 0;
    while i < |titles|
      invariant 0 <= i <= |titles|
      invariant v' == EncodeLists(v, lists[..i]).0
      invariant rows == EncodeLists(v, lists[..i]).1
      invariant values == Jagged.Concat(rows)
      invariant lengths == Jagged.Lengths(rows)
      invariant keys == TitleKeys(i)
    {
      var tokenized := Tokenize(v', titles[i]);
      NextRow(v, lists, i, v', rows, tokenized);
      Jagged.AppendRow(rows, tokenized.1);
      var titleTokens := tokenized.1;
      v' := tokenized.0;
      keys := keys + [TitleWords];
      values := values + titleTokens;
      lengths := lengths + [|titleTokens|];
      rows := rows + [titleTokens];
      i := i + 1;
    }
    assert lists[..i] == lists;
    assert v' == EncodeTitles(v, titles).0 && rows == EncodeTitles(v, titles).1;
    batch := SparseBatch(keys, values, lengths);
    BatchLayout(v, titles, rows);
  }

  /** One turn of the loop extends the encoding by the next title's row. */
  lemma NextRow(v: Vocab, lists: seq<seq<string>>, i: nat, v1: Vocab, rows: seq<seq<nat>>, next: (Vocab, seq<nat>))
    requires i < |lists|
    requires v1 == EncodeLists(v, lists[..i]).0 && rows == EncodeLists(v, lists[..i]).1
    requires next == TokenizeWords(v1, lists[i])
    ensures next.0 == EncodeLists(v, lists[..i + 1]).0
    ensures rows + [next.1] == EncodeLists(v, lists[..i + 1]).1
  {
    assert lists[..i + 1][..i] == lists[..i];
  }

  /** The loop's rows, read back through the jagged layout. */
  lemma BatchLayout(v: Vocab, titles: seq<string>, rows: seq<seq<nat>>)
    requires rows == EncodeTitles(v, titles).1
    ensures forall i :: 0 <= i < |titles| ==> Jagged.Lengths(rows)[i] == |WordsOf(titles[i])|
    ensures Jagged.Sum(Jagged.Lengths(rows)) == |Jagged.Concat(rows)|
    ensures Jagged.Unpack(Jagged.Concat(rows), Jagged.Lengths(rows)) == Some(rows)
    ensures Valid(v) ==> Valid(EncodeTitles(v, titles).0) && forall k :: 0 <= k < |Jagged.Concat(rows)| ==>
      1 <= Jagged.Concat(rows)[k] < EncodeTitles(v, titles).0.next
  {
    Jagged.ConcatLength(rows);
    Jagged.UnpackConcat(rows);
    EncodeTitlesRows(v, titles);
    if Valid(v) {
      ValuesInRange(rows, EncodeTitles(v, titles).0.next);
    }
  }

  lemma {:induction false} ValuesInRange(rows: seq<seq<nat>>, bound: nat)
    requires forall i, j :: 0 <= i < |rows| && 0 <= j < |rows[i]| ==> 1 <= rows[i][j] < bound
    ensures forall k :: 0 <= k < |Jagged.Concat(rows)| ==> 1 <= Jagged.Concat(rows)[k] < bound
    decreases |rows|
  {
    if |rows| > 0 {
      ValuesInRange(rows[..|rows| - 1], bound);
    }
  }

  /** `vocab_size` of lines 75-77: one row per word plus the padding row,
      never fewer than 100 rows. */
  function TableSize(v: Vocab): (n: nat)
    ensures MinTable <= n
    ensures |v.words| < n
    ensures n == MinTable || n == |v.words| + 1
  {
    if |v.words| + 1 < MinTable then MinTable else |v.words| + 1
  }

  /** A table of `TableSize(v)` rows has a row for every id of `v`. */
  lemma TableCoversVocab(v: Vocab)
    requires Valid(v)
    ensures forall w :: w in v.words ==> v.words[w] < TableSize(v)
  {
  }

  /** The recommender's long-lived state: the vocabulary and, once the model
      exists, the number of rows of its embedding table (`self.model` is
      `None` until the first embedding request). */
  datatype Session = Session(vocab: Vocab, table: Option<nat>)

  const Fresh: Session := Session(Empty, None)

  /** Lines 74-78: the table is sized from the vocabulary only when no
      model exists yet; an existing model is kept whatever the vocabulary
      has become. */
  function InitModel(s: Session): (s': Session)
    ensures s'.vocab == s.vocab
    ensures s'.table.Some?
    ensures s.table.Some? ==> s' == s
    ensures s.table.None? ==> s'.table.value >= MinTable && s'.table.value > |s.vocab.words|
    ensures s.table.None? ==> s'.table == Some(TableSize(s.vocab))
  {
    if s.table.None? then Session(s.vocab, Some(TableSize(s.vocab))) else s
  }

  /** Lines 73-83 as written: the model is sized first, and only then is the
      batch tokenized. */
  function EmbedBatchAsWritten(s: Session, titles: seq<string>): (res: (Session, seq<seq<nat>>))
    ensures res.0.table == InitModel(s).table
    ensures |res.1| == |titles|
  {
    var s1 := InitModel(s);
    var (v, rows) := EncodeTitles(s1.vocab, titles);
    (Session(v, s1.table), rows)
  }

  /** As written, the first embedding request always builds a 100-row
      table, because the vocabulary is still empty when it is sized. */
  lemma AsWrittenFirstTableIs100(titles: seq<string>)
    ensures EmbedBatchAsWritten(Fresh, titles).0.table == Some(MinTable)
  {
  }

  /** As written, once the vocabulary holds 99 words and the table has 100
      rows (or is about to be sized from that vocabulary), any title that
      brings a new word yields an id with no row in the table. */
  lemma AsWrittenIdOutsideTable(s: Session, titles: seq<string>, t: nat, w: string)
    requires Valid(s.vocab)
    requires s.table.None? || s.table == Some(MinTable)
    requires |s.vocab.words| >= MinTable - 1
    requires t < |titles| && w in WordsOf(titles[t]) && w !in s.vocab.words
    ensures exists j :: (0 <= j < |EmbedBatchAsWritten(s, titles).1[t]| &&
      EmbedBatchAsWritten(s, titles).1[t][j] >= EmbedBatchAsWritten(s, titles).0.table.value)
  {
    var lists := WordLists(titles);
    var (v, rows) := EncodeLists(s.vocab, lists);
    assert EmbedBatchAsWritten(s, titles).1 == rows;
    EncodeListsGrows(s.vocab, lists);
    EncodeListsIds(s.vocab, lists);
    assert w in lists[t];
    var j :| 0 <= j < |lists[t]| && lists[t][j] == w;
    assert rows[t][j] == v.words[w];
    assert v.words[w] >= s.vocab.next;
  }

  /** Lines 73-83 in the order the sizing rule needs: tokenize the batch
      first, then build the table, or rebuild it when the vocabulary has
      outgrown it. */
  function EmbedBatch(s: Session, titles: seq<string>): (res: (Session, seq<seq<nat>>))
    ensures |res.1| == |titles|
    ensures res.0.table.Some?
    ensures res.0.table.value >= MinTable
    ensures s.table.Some? && s.table.value >= TableSize(res.0.vocab) ==> res.0.table == s.table
  {
    var (v, rows) := EncodeTitles(s.vocab, titles);
    var table := if s.table.None? || s.table.value < TableSize(v) then TableSize(v) else s.table.value;
    (Session(v, Some(table)), rows)
  }

  /** With the corrected order every id of the batch has a row in the
      table, whatever state the session was in. */
  lemma EmbedBatchIdsInsideTable(s: Session, titles: seq<string>)
    requires Valid(s.vocab)
    ensures Valid(EmbedBatch(s, titles).0.vocab)
    ensures forall i, j :: 0 <= i < |titles| && 0 <= j < |EmbedBatch(s, titles).1[i]| ==>
      EmbedBatch(s, titles).1[i][j] < EmbedBatch(s, titles).0.table.value
  {
    EncodeTitlesRows(s.vocab, titles);
  }
}
