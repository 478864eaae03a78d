/** The jagged (ragged) layout of a batch of variable-length rows: one flat
    `values` list plus one length per row, as `_prepare_batch` builds it for
    the sparse title features (recommender.py, lines 47-55). */
module Jagged {
  import opened Wrappers

  function Sum(xs: seq<nat>): nat {
    if |xs| == 0 then 0 else Sum(xs[..|xs| - 1]) + xs[|xs| - 1]
  }

  /** The rows laid end to end: `values.extend(row)` for each row in turn. */
  function Concat<T>(rows: seq<seq<T>>): seq<T> {
    if |rows| == 0 then [] else Concat(rows[..|rows| - 1]) + rows[|rows| - 1]
  }

  /** `lengths.append(len(row))` for each row in turn. */
  function Lengths<T>(rows: seq<seq<T>>): (ls: seq<nat>)
    ensures |ls| == |rows|
    ensures forall i :: 0 <= i < |rows| ==> ls[i] == |rows[i]|
  {
    if |rows| == 0 then [] else Lengths(rows[..|rows| - 1]) + [|rows[|rows| - 1]|]
  }

  /** Appending one row appends its values and its length. */
  lemma AppendRow<T>(rows: seq<seq<T>>, row: seq<T>)
    ensures Concat(rows + [row]) == Concat(rows) + row
    ensures Lengths(rows + [row]) == Lengths(rows) + [|row|]
  {
    assert (rows + [row])[..|rows|] == rows;
  }

  /** Reading a jagged batch back into rows: `None` when the lengths do not
      account for the values exactly. */
  function Unpack<T>(values: seq<T>, lengths: seq<nat>): (r: Option<seq<seq<T>>>)
    ensures r.Some? ==> |r.value| == |lengths|
    ensures r.Some? ==> forall i :: 0 <= i < |lengths| ==> |r.value[i]| == lengths[i]
    decreases |lengths|
  {
    if |lengths| == 0 then
      if |values| == 0 then Some([]) else None
    else if lengths[0] > |values| then None
    else
      match Unpack(values[lengths[0]..], lengths[1..])
      case None => None
      case Some(rest) => Some([values[..lengths[0]]] + rest)
  }

  /** The flat list holds as many values as the lengths add up to. */
  lemma {:induction false} ConcatLength<T>(rows: seq<seq<T>>)
    ensures |Concat(rows)| == Sum(Lengths(rows))
    decreases |rows|
  {
    if |rows| > 0 {
      ConcatLength(rows[..|rows| - 1]);
      assert Lengths(rows)[..|rows| - 1] == Lengths(rows[..|rows| - 1]);
    }
  }

  lemma {:induction false} ConcatFront<T>(rows: seq<seq<T>>)
    requires |rows| > 0
    ensures Concat(rows) == rows[0] + Concat(rows[1..])
    decreases |rows|
  {
    if |rows| > 1 {
      var init := rows[..|rows| - 1];
      ConcatFront(init);
      assert init[1..] == rows[1..][..|rows[1..]| - 1];
      assert init[0] == rows[0];
    } else {
      assert rows[..0] == [];
    }
  }

  lemma {:induction false} LengthsFront<T>(rows: seq<seq<T>>)
    requires |rows| > 0
    ensures Lengths(rows) == [|rows[0]|] + Lengths(rows[1..])
  {
  }

  /** Packing rows into the jagged layout and reading them back returns the
      rows: the layout loses neither order nor row boundaries. */
  lemma {:induction false} UnpackConcat<T>(rows: seq<seq<T>>)
    ensures Unpack(Concat(rows), Lengths(rows)) == Some(rows)
    decreases |rows|
  {
    if |rows| > 0 {
      ConcatFront(rows);
      LengthsFront(rows);
      var vs := Concat(rows);
      assert vs[|rows[0]|..] == Concat(rows[1..]);
      assert vs[..|rows[0]|] == rows[0];
      UnpackConcat(rows[1..]);
      assert rows == [rows[0]] + rows[1..];
    }
  }

  /** Conversely, whatever a jagged batch reads back as is laid out by
      `Concat` and `Lengths`. */
  lemma {:induction false} UnpackSound<T>(values: seq<T>, lengths: seq<nat>)
    ensures Unpack(values, lengths).Some? ==>
      && Concat(Unpack(values, lengths).value) == values
      && Lengths(Unpack(values, lengths).value) == lengths
    decreases |lengths|
  {
    if |lengths| > 0 && lengths[0] <= |values| {
      var rest := Unpack(values[lengths[0]..], lengths[1..]);
      UnpackSound(values[lengths[0]..], lengths[1..]);
      if rest.Some? {
        var rows := [values[..lengths[0]]] + rest.value;
        ConcatFront(rows);
        LengthsFront(rows);
        assert rows[1..] == rest.value;
        assert values == values[..lengths[0]] + values[lengths[0]..];
        assert lengths == [lengths[0]] + lengths[1..];
      }
    }
  }
}
