/** One row of the article table the recommender is given. Only the columns
    the recommender reads are kept: `id`, `title`, `score` and `time`. */
module Articles {
  datatype Article = Article(id: int, title: string, score: int, time: int)

  /** The `id` column, in row order. */
  function Ids(rows: seq<Article>): (ids: seq<int>)
    ensures |ids| == |rows|
    ensures forall i :: 0 <= i < |rows| ==> ids[i] == rows[i].id
  {
    if |rows| == 0 then [] else [rows[0].id] + Ids(rows[1..])
  }

  /** The `title` column, in row order. */
  function Titles(rows: seq<Article>): (ts: seq<string>)
    ensures |ts| == |rows|
    ensures forall i :: 0 <= i < |rows| ==> ts[i] == rows[i].title
  {
    if |rows| == 0 then [] else [rows[0].title] + Titles(rows[1..])
  }
}
