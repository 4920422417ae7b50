/**
 * The on-screen log of `script.js`: `displayLog` shows a matched question only
 * the first time it is asked in the session (the module-level `askedQuestions`
 * set), newest first, and keeps at most three blocks; `clearHistory` forgets
 * both.
 */
module QuestionLog {
  import opened Sheet
  import opened Matcher

  /** How many blocks the log element keeps. */
  const LogCapacity: nat := 3

  /** One block of the log: what was heard, the matched question and its answer. */
  datatype LogEntry = LogEntry(heard: string, question: string, answer: string)

  /**
   * `logEl.prepend(block)` followed by
   * `if (logEl.children.length > 3) logEl.removeChild(logEl.lastChild)`.
   */
  function PrependCapped(entries: seq<LogEntry>, e: LogEntry): (r: seq<LogEntry>)
    ensures 1 <= |r| <= |entries| + 1 && r[0] == e
    ensures |r| == if |entries| < LogCapacity then |entries| + 1 else |entries|
    ensures |entries| <= LogCapacity ==> |r| <= LogCapacity
    ensures |entries| < LogCapacity ==> r == [e] + entries
    ensures r[1..] == entries[..|r| - 1]
  {
    var shown := [e] + entries;
    if |shown| > LogCapacity then shown[..|shown| - 1] else shown
  }

  function Questions(entries: seq<LogEntry>): set<string>
  {
    set i | 0 <= i < |entries| :: entries[i].question
  }

  class AskedLog {
    /** `askedQuestions`: every question shown since the last clear. */
    var asked: set<string>
    /** The blocks of the log element, newest first. */
    var entries: seq<LogEntry>

    /**
     * The log is within capacity, every logged question has been asked, and no
     * question is logged twice.
     */
    ghost predicate Valid()
      reads this
    {
      && |entries| <= LogCapacity
      && Questions(entries) <= asked
      && forall i, j | 0 <= i < j < |entries| :: entries[i].question != entries[j].question
    }

    /** The page as loaded: an empty set and an empty log. */
    constructor ()
      ensures Valid()
      ensures asked == {} && entries == []
    {
      asked := {};
      entries := [];
    }

    /** `displayLog(logEl, original, matchedQ, answer)`, without the HTML and the speech. */
    method DisplayLog(heard: string, matchedQ: string, answer: string)
      requires Valid()
      modifies this
      ensures Valid()
      ensures old(matchedQ in asked) ==> asked == old(asked) && entries == old(entries)
      ensures old(matchedQ !in asked) ==>
        && asked == old(asked) + {matchedQ}
        && entries == PrependCapped(old(entries), LogEntry(heard, matchedQ, answer))
    {
      if matchedQ in asked {
        return;
      }
      asked := asked + {matchedQ};
      var e := LogEntry(heard, matchedQ, answer);
      ghost var before := entries;
      entries := PrependCapped(entries, e);
      forall i | 0 <= i < |entries| ensures entries[i].question in asked {
        if i > 0 { assert entries[i] == before[i - 1]; }
      }
      forall i, j | 0 <= i < j < |entries| ensures entries[i].question != entries[j].question {
        assert entries[j] == before[j - 1];
        if i > 0 {
          assert entries[i] == before[i - 1];
        } else {
          assert before[j - 1].question in Questions(before);
        }
      }
    }

    /** `clearHistory(logEl)`: forget every asked question and empty the log. */
    method ClearHistory()
      modifies this
      ensures Valid()
      ensures asked == {} && entries == []
    {
      asked := {};
      entries := [];
    }

    /**
     * `recognition.onresult` for one final transcript: match it, and log the
     * match if there is one.
     */
    method Hear(transcript: string, rows: seq<QARecord>, filter: string)
      requires Valid()
      modifies this
      ensures Valid()
      ensures var m := Accept(Best(JsText.Norm(transcript), rows, filter));
        if m.None? || m.value.question in old(asked) then
          asked == old(asked) && entries == old(entries)
        else
          && asked == old(asked) + {m.value.question}
          && entries == PrependCapped(old(entries), LogEntry(transcript, m.value.question, m.value.answer))
    {
      var m := FuzzyMatch(transcript, rows, filter);
      if m.Some? {
        DisplayLog(transcript, m.value.question, m.value.answer);
      }
    }
  }

  /**
   * Four distinct questions leave the three newest in the log; asking one of
   * them again changes nothing, and after a clear it is shown again.
   */
  method LogScenario(q1: string, q2: string, q3: string, q4: string)
    requires q1 != q2 && q1 != q3 && q1 != q4 && q2 != q3 && q2 != q4 && q3 != q4
  {
    var log := new AskedLog();
    log.DisplayLog("h1", q1, "a1");
    log.DisplayLog("h2", q2, "a2");
    log.DisplayLog("h3", q3, "a3");
    log.DisplayLog("h4", q4, "a4");
    assert log.entries == [LogEntry("h4", q4, "a4"), LogEntry("h3", q3, "a3"), LogEntry("h2", q2, "a2")];
    log.DisplayLog("again", q3, "a3");
    assert log.entries == [LogEntry("h4", q4, "a4"), LogEntry("h3", q3, "a3"), LogEntry("h2", q2, "a2")];
    log.ClearHistory();
    log.ClearHistory();
    assert log.asked == {} && log.entries == [];
    log.DisplayLog("h5", q1, "a1");
    assert log.entries == [LogEntry("h5", q1, "a1")];
  }
}
