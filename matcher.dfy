/**
 * The question matcher of the interview-helper page (`script.js`): a word
 * overlap score between what was heard and each question, and a scan that
 * keeps the first best-scoring question of the selected category.
 */
module Matcher {
  import opened Wrappers
  import opened JsText
  import opened JsArray
  import opened Sheet

  /** The value of the category filter that lets every row through. */
  const All: string := "All"

  /** A match is reported only when its score is strictly above this. */
  const Threshold: real := 40.0

  /** The `best` object of `fuzzyMatch`: a score and the row's own fields. */
  datatype MatchResult = MatchResult(score: real, question: string, answer: string)

  // ---------------------------------------------------------------------------
  // similarity
  // ---------------------------------------------------------------------------

  /** `ws.filter(w => b.includes(w))`. */
  function CommonTokens(ws: seq<string>, b: string): (r: seq<string>)
    ensures |r| <= |ws|
    ensures forall w :: multiset(r)[w] == if Includes(b, w) then multiset(ws)[w] else 0
  {
    if ws == [] then []
    else
      assert ws == [ws[0]] + ws[1..];
      (if Includes(b, ws[0]) then [ws[0]] else []) + CommonTokens(ws[1..], b)
  }

  /** How many space-separated tokens of `a` occur somewhere in `b`. */
  function Common(a: string, b: string): nat
  {
    |CommonTokens(Split(a), b)|
  }

  /** `(common * 2) / (la + lb) * 100`, in exact arithmetic. */
  function Score(common: nat, la: nat, lb: nat): real
    requires la + lb > 0
  {
    (common * 2) as real / ((la + lb) as real) * 100.0
  }

  lemma ScoreArithmetic(c: nat, la: nat, lb: nat)
    requires c <= la && 1 <= lb
    ensures 0.0 <= Score(c, la, lb) < 200.0
    ensures Score(c, la, lb) > Threshold <==> 5 * c > la + lb
    ensures Score(c, la, lb) == 0.0 <==> c == 0
  {
    var tr := (la + lb) as real;
    var q := (c * 2) as real / tr;
    assert Score(c, la, lb) == q * 100.0;
    assert q * tr == (c * 2) as real;
    ScoreRange(q, tr, c);
    ScorePassesThreshold(q, tr, c, la + lb);
  }

  /** The ratio of twice the common tokens to all tokens lies in [0, 2), and is 0 only without common tokens. */
  lemma ScoreRange(q: real, tr: real, c: nat)
    requires tr > 0.0 && q * tr == (c * 2) as real && (c * 2) as real < 2.0 * tr
    ensures 0.0 <= q < 2.0
    ensures q == 0.0 <==> c == 0
  {
    MulMono(q, 0.0, tr);
    MulMono(0.0, q, tr);
    MulMono(2.0, q, tr);
  }

  /** The ratio exceeds 0.4 exactly when five times the common tokens exceed all tokens. */
  lemma ScorePassesThreshold(q: real, tr: real, c: nat, t: nat)
    requires tr == t as real && tr > 0.0 && q * tr == (c * 2) as real
    ensures q * 100.0 > Threshold <==> 5 * c > t
  {
    MulMono(q, 0.4, tr);
    assert (q <= 0.4) <==> (c * 2) as real <= 0.4 * tr;
    assert (c * 2) as real <= 0.4 * tr <==> 5 * c <= t;
  }

  /** Multiplying by a positive number keeps the order of two numbers. */
  lemma MulMono(x: real, y: real, t: real)
    requires t > 0.0
    ensures x <= y <==> x * t <= y * t
  {
    var d := y - x;
    assert y * t == x * t + d * t;
    if d >= 0.0 {
      assert d * t >= 0.0;
    } else {
      assert d * t < 0.0;
    }
  }

  /**
   * `similarity(a, b)`: twice the number of tokens of `a` found in `b`, over the
   * number of tokens of both, as a percentage. Tokens of `a` may repeat, so the
   * score can exceed 100 (see SimilarityCanExceed100).
   */
  function Similarity(a: string, b: string): (score: real)
    ensures 0.0 <= score < 200.0
  {
    ScoreArithmetic(Common(a, b), |Split(a)|, |Split(b)|);
    Score(Common(a, b), |Split(a)|, |Split(b)|)
  }

  /**
   * The score passes the threshold exactly when five times the common tokens
   * exceed the tokens of both strings, and it is 0 exactly when no token is common.
   */
  lemma SimilarityThreshold(a: string, b: string)
    ensures Similarity(a, b) > Threshold <==> 5 * Common(a, b) > |Split(a)| + |Split(b)|
    ensures Similarity(a, b) == 0.0 <==> Common(a, b) == 0
  {
    ScoreArithmetic(Common(a, b), |Split(a)|, |Split(b)|);
  }

  lemma {:induction false} CommonTokensKeepsAll(ws: seq<string>, b: string)
    requires forall i | 0 <= i < |ws| :: Includes(b, ws[i])
    ensures CommonTokens(ws, b) == ws
  {
    if ws != [] {
      CommonTokensKeepsAll(ws[1..], b);
    }
  }

  /** A string scores exactly 100 against itself. */
  lemma SelfSimilarity(s: string)
    ensures Similarity(s, s) == 100.0
  {
    CommonSelf(s);
    HalfOfDouble(|Split(s)|);
  }

  /** Every token of a string is included in it. */
  lemma CommonSelf(s: string)
    ensures Common(s, s) == |Split(s)|
  {
    var ws := Split(s);
    forall i | 0 <= i < |ws| ensures Includes(s, ws[i]) {
      JoinIncludesTokens(ws, i);
    }
    CommonTokensKeepsAll(ws, s);
  }

  lemma HalfOfDouble(n: nat)
    requires n > 0
    ensures Score(n, n, n) == 100.0
  {
    assert (n * 2) as real == (n + n) as real;
    DivSelf((n + n) as real);
  }

  lemma DivSelf(x: real)
    requires x > 0.0
    ensures x / x == 1.0
  {
    var q := x / x;
    assert q * x == x;
    assert (q - 1.0) * x == 0.0;
  }

  /** Repeated tokens all count, so the score is not bounded by 100. */
  lemma SimilarityCanExceed100()
    ensures Similarity("a a", "a") > 100.0
  {
    SplitJoin(["a", "a"]);
    SplitNoSpace("a");
    assert Includes("a", "a");
    assert Common("a a", "a") == 2;
  }

  /**
   * An empty utterance is one empty token, which every question includes, so it
   * passes the threshold against any question of at most three tokens.
   */
  lemma EmptyUtteranceScore(b: string)
    ensures Similarity("", b) > Threshold <==> |Split(b)| <= 3
  {
    SimilarityThreshold("", b);
    assert Split("") == [""];
    IncludesEmpty(b);
    assert CommonTokens([""], b) == [""];
  }

  /**
   * Tokens are matched as substrings, not as words: "me" scores 100 against
   * "name".
   */
  lemma SubstringTokenMatch()
    ensures Similarity("me", "name") == 100.0
  {
    SplitNoSpace("me");
    SplitNoSpace("name");
    assert "name"[2..4] == "me";
    IncludesAt("name", "me", 2);
    assert CommonTokens(["me"], "name") == ["me"];
    HalfOfDouble(1);
  }

  /**
   * The substring test at work on whole sentences: "tell me a joke" shares "me"
   * (inside "name") and "a" (inside "what") with "what is your name", which puts
   * it at 50, above the threshold.
   */
  lemma UnrelatedQuestionPasses(a: string, b: string)
    requires a == "tell me a joke" && b == "what is your name"
    ensures Similarity(a, b) == 50.0 > Threshold
  {
    JokeTokens(a);
    NameTokens(b);
    JokeCommonTokens(b);
    assert Common(a, b) == 2;
    assert Similarity(a, b) == Score(2, 4, 4);
  }

  lemma JokeTokens(a: string)
    requires a == "tell me a joke"
    ensures Split(a) == ["tell", "me", "a", "joke"]
  {
    assert Join(["tell", "me", "a", "joke"]) == a;
    SplitJoin(["tell", "me", "a", "joke"]);
  }

  lemma NameTokens(b: string)
    requires b == "what is your name"
    ensures |Split(b)| == 4
  {
    assert Join(["what", "is", "your", "name"]) == b;
    SplitJoin(["what", "is", "your", "name"]);
  }

  lemma JokeCommonTokens(b: string)
    requires b == "what is your name"
    ensures |CommonTokens(["tell", "me", "a", "joke"], b)| == 2
  {
    NameHasMeAndA(b);
    NameMissesTellAndJoke(b);
    TwoOfFour("tell", "me", "a", "joke", b);
  }

  lemma NameHasMeAndA(b: string)
    requires b == "what is your name"
    ensures Includes(b, "me") && Includes(b, "a")
  {
    assert b[15] == 'm' && b[16] == 'e' && b[2] == 'a';
    assert b[15..17] == "me";
    assert b[2..3] == "a";
    IncludesAt(b, "me", 15);
    IncludesAt(b, "a", 2);
  }

  lemma NameMissesTellAndJoke(b: string)
    requires b == "what is your name"
    ensures !Includes(b, "tell") && !Includes(b, "joke")
  {
    IncludesNeedsEveryChar(b, "tell", 2);
    IncludesNeedsEveryChar(b, "joke", 0);
    assert 'l' !in b && 'j' !in b;
  }

  /** Of four tokens, exactly the middle two are found. */
  lemma TwoOfFour(t1: string, t2: string, t3: string, t4: string, b: string)
    requires !Includes(b, t1) && Includes(b, t2) && Includes(b, t3) && !Includes(b, t4)
    ensures |CommonTokens([t1, t2, t3, t4], b)| == 2
  {
    var r := CommonTokens([t1, t2, t3, t4], b);
    forall w ensures multiset(r)[w] == multiset{t2, t3}[w] {
    }
    assert multiset(r) == multiset{t2, t3};
  }

  /** Every character of an included token occurs in the string. */
  lemma IncludesNeedsEveryChar(s: string, w: string, k: nat)
    requires k < |w|
    ensures Includes(s, w) ==> w[k] in s
  {
    if Includes(s, w) {
      IncludesIff(s, w);
      var i :| OccursAt(s, w, i);
      assert s[i..i + |w|][k] == s[i + k];
    }
  }

  lemma IncludesAt(s: string, w: string, i: nat)
    requires i + |w| <= |s| && s[i..i + |w|] == w
    ensures Includes(s, w)
  {
    assert OccursAt(s, w, i);
    IncludesIff(s, w);
  }

  // ---------------------------------------------------------------------------
  // fuzzyMatch
  // ---------------------------------------------------------------------------

  /** The rows `fuzzyMatch` does not skip for the selected category. */
  predicate Eligible(row: QARecord, filter: string)
  {
    filter == All || row.Category == filter
  }

  /** The score of a row against an already normalised utterance. */
  function RowScore(input: string, row: QARecord): real
  {
    Similarity(input, Norm(row.Question))
  }

  /** The result built from a row: its score, and its question and answer as stored. */
  function Hit(input: string, row: QARecord): MatchResult
  {
    MatchResult(RowScore(input, row), row.Question, row.Answer)
  }

  /** `best.score`, where `None` is the initial `{ score: 0, question: null, answer: null }`. */
  function BestScore(best: Option<MatchResult>): real
  {
    if best.Some? then best.value.score else 0.0
  }

  /** The value of `best` once the `forEach` has visited `rows` from left to right. */
  function Best(input: string, rows: seq<QARecord>, filter: string): Option<MatchResult>
    decreases |rows|
  {
    if rows == [] then None
    else
      var best := Best(input, rows[..|rows| - 1], filter);
      var row := rows[|rows| - 1];
      if !Eligible(row, filter) then best
      else if RowScore(input, row) > BestScore(best) then Some(Hit(input, row))
      else best
  }

  /** `best.score > 40 ? best : null`. */
  function Accept(best: Option<MatchResult>): Option<MatchResult>
  {
    if BestScore(best) > Threshold then best else None
  }

  /**
   * Row `k` is eligible, no eligible row scores more, and every eligible row
   * before it scores strictly less.
   */
  predicate IsFirstBest(input: string, rows: seq<QARecord>, filter: string, k: int)
  {
    && 0 <= k < |rows|
    && Eligible(rows[k], filter)
    && (forall j | 0 <= j < |rows| && Eligible(rows[j], filter) ::
          RowScore(input, rows[j]) <= RowScore(input, rows[k]))
    && (forall j | 0 <= j < k && Eligible(rows[j], filter) ::
          RowScore(input, rows[j]) < RowScore(input, rows[k]))
  }

  /**
   * The scan finds nothing exactly when every eligible row scores 0; otherwise it
   * holds the first eligible row of maximal score, and that score is positive.
   */
  lemma {:induction false} BestIsFirstMaximum(input: string, rows: seq<QARecord>, filter: string)
    ensures Best(input, rows, filter).None? <==>
      forall j | 0 <= j < |rows| && Eligible(rows[j], filter) :: RowScore(input, rows[j]) == 0.0
    ensures Best(input, rows, filter).Some? ==>
      && Best(input, rows, filter).value.score > 0.0
      && exists k :: IsFirstBest(input, rows, filter, k) && Best(input, rows, filter).value == Hit(input, rows[k])
    decreases |rows|
  {
    if rows != [] {
      var n := |rows| - 1;
      var init, row := rows[..n], rows[n];
      assert rows == init + [row];
      BestIsFirstMaximum(input, init, filter);
      var best := Best(input, init, filter);
      if !Eligible(row, filter) || RowScore(input, row) <= BestScore(best) {
        assert Best(input, rows, filter) == best;
        if best.Some? {
          var k :| IsFirstBest(input, init, filter, k) && best.value == Hit(input, init[k]);
          KeepFirstBest(input, init, row, filter, k);
          assert rows[k] == init[k];
        } else {
          assert forall j | 0 <= j < |rows| :: rows[j] == (init + [row])[j];
        }
      } else {
        assert Best(input, rows, filter) == Some(Hit(input, row));
        forall j | 0 <= j < n && Eligible(init[j], filter)
          ensures RowScore(input, init[j]) < RowScore(input, row)
        {
          if best.Some? {
            var k :| IsFirstBest(input, init, filter, k) && best.value == Hit(input, init[k]);
          }
        }
        NewFirstBest(input, init, row, filter);
      }
    }
  }

  /** A later row that does not beat the first best leaves it the first best. */
  lemma KeepFirstBest(input: string, init: seq<QARecord>, row: QARecord, filter: string, k: int)
    requires IsFirstBest(input, init, filter, k)
    requires !Eligible(row, filter) || RowScore(input, row) <= RowScore(input, init[k])
    ensures IsFirstBest(input, init + [row], filter, k)
  {
    var rows := init + [row];
    var top := RowScore(input, init[k]);
    assert rows[k] == init[k];
    forall j | 0 <= j < |rows| && Eligible(rows[j], filter)
      ensures RowScore(input, rows[j]) <= top
    {
      if j < |init| {
        assert rows[j] == init[j];
      } else {
        assert rows[j] == row;
      }
    }
    forall j | 0 <= j < k && Eligible(rows[j], filter)
      ensures RowScore(input, rows[j]) < top
    {
      assert rows[j] == init[j];
    }
  }

  /** A row that beats every earlier eligible row is the first best. */
  lemma NewFirstBest(input: string, init: seq<QARecord>, row: QARecord, filter: string)
    requires Eligible(row, filter)
    requires forall j | 0 <= j < |init| && Eligible(init[j], filter) ::
      RowScore(input, init[j]) < RowScore(input, row)
    ensures IsFirstBest(input, init + [row], filter, |init|)
  {
    var rows := init + [row];
    var top := RowScore(input, row);
    assert rows[|init|] == row;
    forall j | 0 <= j < |init| && Eligible(rows[j], filter)
      ensures RowScore(input, rows[j]) < top
    {
      assert rows[j] == init[j];
    }
  }

  /**
   * What `fuzzyMatch` reports: nothing when no eligible row scores above the
   * threshold, and otherwise the first eligible row of maximal score.
   */
  lemma {:induction false} AcceptIsFirstBest(input: string, rows: seq<QARecord>, filter: string)
    ensures Accept(Best(input, rows, filter)).Some? ==>
      && Accept(Best(input, rows, filter)).value.score > Threshold
      && exists k :: IsFirstBest(input, rows, filter, k) && Accept(Best(input, rows, filter)).value == Hit(input, rows[k])
    ensures Accept(Best(input, rows, filter)).None? <==>
      forall j | 0 <= j < |rows| && Eligible(rows[j], filter) :: RowScore(input, rows[j]) <= Threshold
  {
    BestIsFirstMaximum(input, rows, filter);
    var best := Best(input, rows, filter);
    if best.Some? {
      var k :| IsFirstBest(input, rows, filter, k) && best.value == Hit(input, rows[k]);
      assert BestScore(best) == RowScore(input, rows[k]);
    }
  }

  /** One more step of the scan. */
  lemma BestStep(input: string, rows: seq<QARecord>, filter: string, i: nat)
    requires i < |rows|
    ensures var best := Best(input, rows[..i], filter);
      Best(input, rows[..i + 1], filter) ==
        if !Eligible(rows[i], filter) then best
        else if RowScore(input, rows[i]) > BestScore(best) then Some(Hit(input, rows[i]))
        else best
  {
    assert rows[..i + 1][..i] == rows[..i];
  }

  /**
   * `fuzzyMatch(input, categoryFilter)` over the loaded rows: normalise the
   * utterance, score every row the filter lets through, keep the first best,
   * and report it only above the threshold.
   */
  method FuzzyMatch(input: string, rows: seq<QARecord>, filter: string) returns (r: Option<MatchResult>)
    ensures r == Accept(Best(Norm(input), rows, filter))
    ensures r.Some? ==> r.value.score > Threshold
    ensures r.Some? ==> exists k :: IsFirstBest(Norm(input), rows, filter, k) && r.value == Hit(Norm(input), rows[k])
    ensures r.None? <==>
      forall j | 0 <= j < |rows| && Eligible(rows[j], filter) :: RowScore(Norm(input), rows[j]) <= Threshold
  {
    var needle := Norm(input);
    var best: Option<MatchResult> := None;
    var i := 0;
    while i < |rows|
      invariant 0 <= i <= |rows|
      invariant best == Best(needle, rows[..i], filter)
    {
      var row := rows[i];
      BestStep(needle, rows, filter, i);
      if filter == All || row.Category == filter {
        var q := Norm(row.Question);
        var score := Similarity(needle, q);
        if score > BestScore(best) {
          best := Some(MatchResult(score, row.Question, row.Answer));
        }
      }
      i := i + 1;
    }
    assert rows[..i] == rows;
    AcceptIsFirstBest(needle, rows, filter);
    r := if BestScore(best) > Threshold then best else None;
  }

  /** With a category selected, a reported match always comes from a row of that category. */
  lemma MatchRespectsFilter(input: string, rows: seq<QARecord>, filter: string)
    requires filter != All
    requires Accept(Best(input, rows, filter)).Some?
    ensures exists k | 0 <= k < |rows| ::
      (rows[k].Category == filter && Accept(Best(input, rows, filter)).value == Hit(input, rows[k]))
  {
    AcceptIsFirstBest(input, rows, filter);
  }

  /** Letter case and surrounding white space of the utterance do not change the result. */
  lemma MatchIgnoresPadding(p: string, input: string, q: string, rows: seq<QARecord>, filter: string)
    requires AllWhiteSpace(p) && AllWhiteSpace(q)
    ensures Best(Norm(p + input + q), rows, filter) == Best(Norm(input), rows, filter)
    ensures Best(Norm(ToLower(input)), rows, filter) == Best(Norm(input), rows, filter)
  {
    NormIgnoresPadding(p, input, q);
    ToLowerIdempotent(input);
  }

  // ---------------------------------------------------------------------------
  // loadCategories
  // ---------------------------------------------------------------------------

  /**
   * The options `loadCategories` puts in the filter: "All", then each category
   * once, in the order in which it first appears in the rows.
   */
  function CategoryOptions(rows: seq<QARecord>): (opts: seq<string>)
    ensures |opts| >= 1 && opts[0] == All
    ensures NoDuplicates(opts[1..])
    ensures forall c :: c in opts[1..] <==> exists i | 0 <= i < |rows| :: rows[i].Category == c
    ensures forall i | 1 <= i < |opts| :: opts[i] in Categories(rows)
    ensures forall i, j | 1 <= i < j < |opts| ::
      IndexOf(Categories(rows), opts[i]) < IndexOf(Categories(rows), opts[j])
  {
    var cats := Distinct(Categories(rows));
    DistinctInFirstOccurrenceOrder(Categories(rows));
    var opts := [All] + cats;
    assert opts[1..] == cats;
    assert forall i | 1 <= i < |opts| :: opts[i] == cats[i - 1];
    opts
  }
}
