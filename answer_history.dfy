/** The answer-history panel: the entries of one answer shown newest first,
    each with its option's text and whether it was the correct choice. */
module AnswerHistory {
  import opened Collections
  import opened MockData

  const UNKNOWN_OPTION: string := "Unknown option"

  /** getOptionText: the option's text, or the fallback when the index names
      no option or the option's text is empty. */
  function OptionText(options: seq<string>, optionIndex: int): (r: string)
    ensures r != ""
    ensures 0 <= optionIndex < |options| && options[optionIndex] != "" ==> r == options[optionIndex]
    ensures !(0 <= optionIndex < |options|) || options[optionIndex] == "" ==> r == UNKNOWN_OPTION
  {
    if 0 <= optionIndex < |options| && options[optionIndex] != "" then options[optionIndex]
    else UNKNOWN_OPTION
  }

  /** isCorrect: the entry chose the question's correct option. */
  predicate IsCorrect(correctOption: Option<int>, optionIndex: int)
    ensures IsCorrect(correctOption, optionIndex) ==> correctOption.Some?
  {
    correctOption == Some(optionIndex)
  }

  /** The entries of a history badged "Correct" for a question. */
  function Badged(correctOption: Option<int>): HistoryEntry -> bool {
    (e: HistoryEntry) => IsCorrect(correctOption, e.selectedOption)
  }

  /** Sorting the history for display neither adds nor loses a "Correct"
      badge: the badged entries are the same, each as often, and there are
      none when the question has no correct option. */
  lemma BadgesSurviveSort(h: seq<HistoryEntry>, correctOption: Option<int>)
    ensures multiset(Filter(SortedHistory(h), Badged(correctOption))) == multiset(Filter(h, Badged(correctOption)))
    ensures correctOption.None? ==> Filter(SortedHistory(h), Badged(correctOption)) == []
  {
    var p := Badged(correctOption);
    var r := SortedHistory(h);
    forall e | true
      ensures multiset(Filter(r, p))[e] == multiset(Filter(h, p))[e]
    {
      FilterCounts(r, p, e);
      FilterCounts(h, p, e);
    }
  }

  /** Entries ordered from the most recent to the oldest. */
  ghost predicate NewestFirst(h: seq<HistoryEntry>) {
    forall i, j :: 0 <= i < j < |h| ==> h[i].timestamp >= h[j].timestamp
  }

  /** Places `e` before the first entry that is not more recent than it. */
  function Insert(e: HistoryEntry, s: seq<HistoryEntry>): (r: seq<HistoryEntry>)
    ensures |r| == |s| + 1
    ensures r[0] == e || (|s| > 0 && r[0] == s[0])
  {
    if |s| == 0 || s[0].timestamp <= e.timestamp then [e] + s
    else [s[0]] + Insert(e, s[1..])
  }

  /** Insertion adds exactly the one entry. */
  lemma {:induction false} InsertPermutes(e: HistoryEntry, s: seq<HistoryEntry>)
    ensures multiset(Insert(e, s)) == multiset(s) + multiset{e}
  {
    if |s| > 0 && s[0].timestamp > e.timestamp {
      InsertPermutes(e, s[1..]);
      assert s == [s[0]] + s[1..];
    }
  }

  /** Insertion into a newest-first history keeps it newest first. */
  lemma {:induction false} InsertSorted(e: HistoryEntry, s: seq<HistoryEntry>)
    requires NewestFirst(s)
    ensures NewestFirst(Insert(e, s))
  {
    if |s| > 0 && s[0].timestamp > e.timestamp {
      var rest := Insert(e, s[1..]);
      InsertSorted(e, s[1..]);
      assert rest[0].timestamp <= s[0].timestamp;
      assert Insert(e, s) == [s[0]] + rest;
    }
  }

  /** sortedHistory: a copy of the history sorted by descending timestamp. */
  function SortedHistory(h: seq<HistoryEntry>): (r: seq<HistoryEntry>)
    ensures NewestFirst(r)
    ensures multiset(r) == multiset(h)
    ensures |r| == |h|
  {
    if |h| == 0 then []
    else
      var rest := SortedHistory(h[1..]);
      InsertIntoSorted(h, rest);
      Insert(h[0], rest)
  }

  /** The recursive step of the sort: the head inserted into the sorted tail. */
  lemma InsertIntoSorted(h: seq<HistoryEntry>, rest: seq<HistoryEntry>)
    requires |h| > 0 && NewestFirst(rest) && multiset(rest) == multiset(h[1..])
    ensures NewestFirst(Insert(h[0], rest)) && multiset(Insert(h[0], rest)) == multiset(h)
  {
    InsertPermutes(h[0], rest);
    InsertSorted(h[0], rest);
    assert h == [h[0]] + h[1..];
  }

  function AtTime(t: Timestamp): HistoryEntry -> bool {
    (x: HistoryEntry) => x.timestamp == t
  }

  lemma {:induction false} FilterInsert(e: HistoryEntry, s: seq<HistoryEntry>, t: Timestamp)
    ensures Filter(Insert(e, s), AtTime(t)) == (if e.timestamp == t then [e] else []) + Filter(s, AtTime(t))
  {
    if |s| == 0 || s[0].timestamp <= e.timestamp {
      FilterCons(e, s, AtTime(t));
    } else {
      FilterInsert(e, s[1..], t);
      FilterConsShift(s[0], Insert(e, s[1..]), s[1..], e, AtTime(t));
      assert [s[0]] + s[1..] == s;
    }
  }

  /** The sort is stable: entries with equal timestamps keep their order. */
  lemma {:induction false} SortedHistoryStable(h: seq<HistoryEntry>, t: Timestamp)
    ensures Filter(SortedHistory(h), AtTime(t)) == Filter(h, AtTime(t))
  {
    if |h| > 0 {
      SortedHistoryStable(h[1..], t);
      FilterInsert(h[0], SortedHistory(h[1..]), t);
    }
  }

  /** The highlighted first entry is the most recent one. */
  lemma FirstIsMostRecent(h: seq<HistoryEntry>)
    requires |h| > 0
    ensures SortedHistory(h)[0] in h
    ensures forall i :: 0 <= i < |h| ==> SortedHistory(h)[0].timestamp >= h[i].timestamp
  {
    var r := SortedHistory(h);
    assert r[0] in multiset(r);
    forall i | 0 <= i < |h|
      ensures r[0].timestamp >= h[i].timestamp
    {
      assert h[i] in multiset(r);
      var k :| 0 <= k < |r| && r[k] == h[i];
    }
  }

  /** When the last entry was recorded strictly after the others, the panel
      highlights the answer's current choice, marked as the answer is graded. */
  lemma HighlightedIsCurrent(a: Answer, q: Question)
    requires HistoryConsistent(a) && GradedAgainst(a, q)
    requires forall i :: 0 <= i < |a.history| - 1 ==>
               a.history[i].timestamp < a.history[|a.history| - 1].timestamp
    ensures SortedHistory(a.history)[0].selectedOption == a.selectedOption
    ensures IsCorrect(q.correctOption, SortedHistory(a.history)[0].selectedOption) == a.isCorrect
  {
    var h := a.history;
    var last := |h| - 1;
    FirstIsMostRecent(h);
    var first := SortedHistory(h)[0];
    var k :| 0 <= k < |h| && h[k] == first;
    assert first.timestamp >= h[last].timestamp;
    assert k == last;
  }
}
