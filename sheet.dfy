/**
 * The rows of the question sheet, as the Apps Script endpoint returns them.
 * Both page scripts hold the whole list in a module-level `qaList`.
 */
module Sheet {

  datatype QARecord = QARecord(Category: string, Question: string, Answer: string)

  /** `qaList.map(row => row.Category)`. */
  function Categories(rows: seq<QARecord>): (cs: seq<string>)
    ensures |cs| == |rows|
    ensures forall i | 0 <= i < |rows| :: cs[i] == rows[i].Category
  {
    if rows == [] then [] else [rows[0].Category] + Categories(rows[1..])
  }

  lemma CategoriesAppend(rows: seq<QARecord>, row: QARecord)
    ensures Categories(rows + [row]) == Categories(rows) + [row.Category]
  {
  }
}
