/**
 * The decision logic of the upload page, `upload.js`: the duplicate test, the
 * validation of the form, the options of the category drop-down and the
 * capped history of uploads.
 */
module Upload {
  import opened JsText
  import opened JsArray
  import opened Sheet

  /** The value of the drop-down option that asks for a new category. */
  const NewCategory := "__new__"

  /** How many lines the upload history keeps. */
  const HistoryCapacity: nat := 5

  // ---------------------------------------------------------------------------
  // isDuplicate
  // ---------------------------------------------------------------------------

  /** `qaList.map(entry => entry.Question.toLowerCase().trim())`. */
  function NormalQuestions(rows: seq<QARecord>): (qs: seq<string>)
    ensures |qs| == |rows|
    ensures forall i | 0 <= i < |rows| :: qs[i] == Norm(rows[i].Question)
  {
    if rows == [] then [] else [Norm(rows[0].Question)] + NormalQuestions(rows[1..])
  }

  /** `qaList.some(entry => entry.Question.toLowerCase().trim() === lowerQ)`. */
  function AnyQuestionIs(rows: seq<QARecord>, lowerQ: string): (b: bool)
    ensures b <==> lowerQ in NormalQuestions(rows)
  {
    if rows == [] then false
    else Norm(rows[0].Question) == lowerQ || AnyQuestionIs(rows[1..], lowerQ)
  }

  /** `isDuplicate(question)`: some stored question has the same normal form. */
  function IsDuplicate(rows: seq<QARecord>, question: string): (b: bool)
    ensures b <==> exists i | 0 <= i < |rows| :: Norm(rows[i].Question) == Norm(question)
  {
    var qs := NormalQuestions(rows);
    assert Norm(question) in qs ==> exists i | 0 <= i < |rows| :: Norm(rows[i].Question) == Norm(question);
    AnyQuestionIs(rows, Norm(question))
  }

  /** The test does not see letter case or white space around the question. */
  lemma DuplicateIgnoresCaseAndPadding(rows: seq<QARecord>, p: string, s: string, q: string)
    requires AllWhiteSpace(p) && AllWhiteSpace(q)
    ensures IsDuplicate(rows, p + s + q) == IsDuplicate(rows, s)
    ensures IsDuplicate(rows, ToLower(s)) == IsDuplicate(rows, s)
  {
    NormIgnoresPadding(p, s, q);
    ToLowerIdempotent(s);
  }

  // ---------------------------------------------------------------------------
  // submitQuestion
  // ---------------------------------------------------------------------------

  /** The category the form submits: the typed one for a new category, else the selection. */
  function ChosenCategory(selected: string, newCategory: string): string
  {
    if selected == NewCategory then Trim(newCategory) else selected
  }

  /** Where `submitQuestion` stops, or the record it posts. */
  datatype SubmitOutcome = FillAllFields | AlreadyExists | Post(record: QARecord)

  /**
   * `submitQuestion()` up to the request: trim the fields, reject an empty
   * one, then a duplicate, and otherwise post the trimmed record.
   */
  function Submit(rows: seq<QARecord>, selected: string, newCategory: string,
                  question: string, answer: string): (o: SubmitOutcome)
    ensures var category := ChosenCategory(selected, newCategory);
      o == FillAllFields <==> (category == "" || Trim(question) == "" || Trim(answer) == "")
    ensures o == AlreadyExists <==>
      && ChosenCategory(selected, newCategory) != "" && Trim(question) != "" && Trim(answer) != ""
      && IsDuplicate(rows, question)
    ensures o.Post? ==>
      && o.record == QARecord(ChosenCategory(selected, newCategory), Trim(question), Trim(answer))
      && o.record.Category == (if selected == NewCategory then Trim(newCategory) else selected)
      && o.record.Category != "" && o.record.Question != "" && o.record.Answer != ""
      && Trim(o.record.Question) == o.record.Question && Trim(o.record.Answer) == o.record.Answer
      && !IsDuplicate(rows, o.record.Question)
  {
    var q := Trim(question);
    var a := Trim(answer);
    var category := ChosenCategory(selected, newCategory);
    NormOfTrim(question);
    TrimIdempotent(question);
    TrimIdempotent(answer);
    if category == "" || q == "" || a == "" then FillAllFields
    else if IsDuplicate(rows, q) then AlreadyExists
    else Post(QARecord(category, q, a))
  }

  /** The status line right after `submitQuestion` returns; a post leaves it empty. */
  function Status(o: SubmitOutcome): (s: string)
    ensures s == "" <==> o.Post?
  {
    match o
    case FillAllFields => "\U{26A0}\U{FE0F} Please fill all fields."
    case AlreadyExists => "\U{26A0}\U{FE0F} This question already exists."
    case Post(_) => ""
  }

  /**
   * Once a posted record is in the list, the same question, in any letter case
   * and with any white space around it, is refused as a duplicate.
   */
  lemma ResubmitIsDuplicate(rows: seq<QARecord>, selected: string, newCategory: string,
                            question: string, answer: string,
                            selected': string, newCategory': string, question': string, answer': string)
    requires Submit(rows, selected, newCategory, question, answer).Post?
    requires Norm(question') == Norm(question)
    requires ChosenCategory(selected', newCategory') != "" && Trim(question') != "" && Trim(answer') != ""
    ensures var rows' := rows + [Submit(rows, selected, newCategory, question, answer).record];
      Submit(rows', selected', newCategory', question', answer') == AlreadyExists
  {
    var r := Submit(rows, selected, newCategory, question, answer).record;
    NormOfTrim(question);
    assert (rows + [r])[|rows|] == r;
  }

  // ---------------------------------------------------------------------------
  // populateCategoryDropdown
  // ---------------------------------------------------------------------------

  /**
   * `populateCategoryDropdown()`: the option values, in order. The `forEach`
   * loop fills a `Set`, whose spread is sorted and followed by the option for a
   * new category.
   */
  method PopulateCategoryDropdown(rows: seq<QARecord>) returns (options: seq<string>)
    ensures |options| >= 1 && options[|options| - 1] == NewCategory
    ensures var listed := options[..|options| - 1];
      && Sorted(listed)
      && NoDuplicates(listed)
      && forall c :: c in listed <==> exists i | 0 <= i < |rows| :: rows[i].Category == c
    ensures (forall i | 0 <= i < |rows| :: rows[i].Category != NewCategory) ==>
      multiset(options)[NewCategory] == 1
  {
    var categories: seq<string> := [];
    var i := 0;
    while i < |rows|
      invariant 0 <= i <= |rows|
      invariant categories == Distinct(Categories(rows[..i]))
    {
      var c := rows[i].Category;
      assert rows[..i + 1] == rows[..i] + [rows[i]];
      CategoriesAppend(rows[..i], rows[i]);
      var cs := Categories(rows[..i + 1]);
      assert cs[..|cs| - 1] == Categories(rows[..i]);
      if c !in categories {
        categories := categories + [c];
      }
      i := i + 1;
    }
    assert rows[..i] == rows;
    SortedCategories(rows);
    options := Sort(categories) + [NewCategory];
    assert options[..|options| - 1] == Sort(categories);
  }

  /** The sorted categories of the list: each present category exactly once, in order. */
  lemma SortedCategories(rows: seq<QARecord>)
    ensures var listed := Sort(Distinct(Categories(rows)));
      && Sorted(listed)
      && NoDuplicates(listed)
      && forall c :: c in listed <==> exists i | 0 <= i < |rows| :: rows[i].Category == c
    ensures (forall i | 0 <= i < |rows| :: rows[i].Category != NewCategory) ==>
      NewCategory !in Sort(Distinct(Categories(rows)))
  {
    var d := Distinct(Categories(rows));
    var sorted := Sort(d);
    NoDuplicatesPermutation(d, sorted);
    forall c ensures c in sorted <==> c in d {
      assert c in sorted <==> c in multiset(sorted);
      assert c in d <==> c in multiset(d);
    }
    CategoriesMembership(rows);
  }

  lemma CategoriesMembership(rows: seq<QARecord>)
    ensures forall c :: c in Categories(rows) <==> exists i | 0 <= i < |rows| :: rows[i].Category == c
  {
    forall c | c in Categories(rows) ensures exists i | 0 <= i < |rows| :: rows[i].Category == c {
      var k :| 0 <= k < |rows| && Categories(rows)[k] == c;
    }
  }

  // ---------------------------------------------------------------------------
  // showHistory
  // ---------------------------------------------------------------------------

  /** The text of one history line; the time of day is whatever the browser prints. */
  function HistoryLine(now: string, category: string, question: string): string
  {
    now + " | \U{2705} Added to '" + category + "': " + question
  }

  /**
   * `log.prepend(line)` followed by `if (items.length > 5) items[5].remove()`:
   * only the line at index 5 goes, so a longer history stays longer.
   */
  function PrependLine(lines: seq<string>, line: string): (r: seq<string>)
    ensures |r| >= 1 && r[0] == line
    ensures |lines| < HistoryCapacity ==> r == [line] + lines
    ensures |lines| >= HistoryCapacity ==>
      && |r| == |lines|
      && r[1..HistoryCapacity] == lines[..HistoryCapacity - 1]
      && r[HistoryCapacity..] == lines[HistoryCapacity..]
    ensures |lines| <= HistoryCapacity ==> |r| <= HistoryCapacity
  {
    var shown := [line] + lines;
    if |shown| > HistoryCapacity then shown[..HistoryCapacity] + shown[HistoryCapacity + 1..]
    else shown
  }

  /** The history after showing the lines of `added` one after another on an empty log. */
  function History(added: seq<string>): seq<string>
    decreases |added|
  {
    if added == [] then []
    else PrependLine(History(added[..|added| - 1]), added[|added| - 1])
  }

  function Reversed(s: seq<string>): (r: seq<string>)
  {
    seq(|s|, i requires 0 <= i < |s| => s[|s| - 1 - i])
  }

  function Min(a: nat, b: nat): nat
  {
    if a <= b then a else b
  }

  /** The history holds the newest five lines, newest first. */
  lemma {:induction false} HistoryIsNewestFirst(added: seq<string>)
    ensures History(added) == Reversed(added[|added| - Min(HistoryCapacity, |added|)..])
    decreases |added|
  {
    if added != [] {
      var init, x := added[..|added| - 1], added[|added| - 1];
      HistoryIsNewestFirst(init);
      var k := |init| - Min(HistoryCapacity, |init|);
      var h := Reversed(init[k..]);
      var r := PrependLine(h, x);
      var k' := |added| - Min(HistoryCapacity, |added|);
      if |h| < HistoryCapacity {
        assert k' == k;
        assert r == Reversed(added[k'..]);
      } else {
        assert k' == k + 1;
        assert r == [x] + h[..HistoryCapacity - 1];
        assert r == Reversed(added[k'..]);
      }
    }
  }

  /** The upload history element of the page. */
  class UploadHistory {
    /** The text of the paragraphs, newest first. */
    var lines: seq<string>

    ghost predicate Valid()
      reads this
    {
      |lines| <= HistoryCapacity
    }

    constructor ()
      ensures Valid() && lines == []
    {
      lines := [];
    }

    /** `showHistory(category, question)`, the clock reading given as `now`. */
    method ShowHistory(now: string, category: string, question: string)
      requires Valid()
      modifies this
      ensures Valid()
      ensures lines == PrependLine(old(lines), HistoryLine(now, category, question))
    {
      lines := PrependLine(lines, HistoryLine(now, category, question));
    }
  }
}
