/**
 Worked selections for a two-column table `["file_id", "title"]`, read the
 way the library tab reads them.
 */
module Scenarios {
  import opened Selection
  import opened TabFunctions

  const Fields: seq<string> := ["file_id", "title"]

  /** Two whole rows: the `file_id` column is the first cell of each. */
  lemma TwoWholeRows()
    ensures FileIds(Fields, ["10", "A", "20", "B"]) == ["10", "20"]
    ensures Rows(["10", "A", "20", "B"], |Fields|) == [["10", "A"], ["20", "B"]]
  {
    var cells := ["10", "A", "20", "B"];
    assert ColumnIndex(Fields, FileId) == 0;
    StrideLength(cells, 0, 2);
    RowIsSlice(cells, 2, 0);
    RowIsSlice(cells, 2, 1);
    assert RowStart(2, 1) == 2;
    assert cells[0..2] == ["10", "A"] && cells[2..4] == ["20", "B"];
  }

  /** Five cells in rows of two: the row decoder keeps two rows and drops the
      fifth cell, while the `file_id` slice also picks that fifth cell up.
      Nothing is rejected. */
  lemma TrailingPartialRow()
    ensures |Rows(["10", "A", "20", "B", "30"], |Fields|)| == 2
    ensures FileIds(Fields, ["10", "A", "20", "B", "30"]) == ["10", "20", "30"]
  {
    var cells := ["10", "A", "20", "B", "30"];
    assert ColumnIndex(Fields, FileId) == 0;
    StrideLength(cells, 0, 2);
  }
}
