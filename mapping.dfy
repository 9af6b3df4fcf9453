/**
 * The text-to-audio table built by `load_mapping` (streamlit_app.py:17-21):
 * each row of `mapping.csv` contributes `text -> audio`, in file order, so a
 * text listed twice keeps the audio of its last row; no file gives no entries.
 */
module Mapping {
  import opened Opt

  /** One CSV row after `str()` conversion: (text, audio file name). */
  type Row = (string, string)

  /** The dictionary comprehension over the rows: the dictionary after the rows
      have been inserted one after the other. */
  function FoldRows(rows: seq<Row>): (m: map<string, string>)
    ensures m.Keys == set i | 0 <= i < |rows| :: rows[i].0
  {
    if rows == [] then map[]
    else
      var last := rows[|rows| - 1];
      FoldRows(rows[..|rows| - 1])[last.0 := last.1]
  }

  /** A text is mapped to the audio of the last row that names it. */
  lemma {:induction false} LastRowWins(rows: seq<Row>, i: nat)
    requires i < |rows|
    requires forall j | i < j < |rows| :: rows[j].0 != rows[i].0
    ensures rows[i].0 in FoldRows(rows)
    ensures FoldRows(rows)[rows[i].0] == rows[i].1
  {
    if i < |rows| - 1 {
      var prefix := rows[..|rows| - 1];
      assert forall j | i < j < |prefix| :: prefix[j] == rows[j];
      LastRowWins(prefix, i);
    }
  }

  /** `load_mapping`: `None` stands for a missing `mapping.csv`. */
  function LoadMapping(csv: Option<seq<Row>>): (m: map<string, string>)
    ensures csv.None? ==> m == map[]
    ensures csv.Some? ==> m.Keys == set i | 0 <= i < |csv.value| :: csv.value[i].0
  {
    match csv
    case None => map[]
    case Some(rows) => FoldRows(rows)
  }
}
