/**
 * Crossy Road high scores: one table per difficulty, kept sorted by score
 * (highest first, ties in arrival order) and cut to the ten best, plus the
 * text listing of a table.
 */
module CrossyScoring {
  import opened Wrappers
  import opened Text
  import opened Seqs

  datatype ScoreEntry = ScoreEntry(name: string, score: int, date: string)

  type Tables = map<string, seq<ScoreEntry>>

  /** How many entries a table keeps and a listing shows. */
  const TopCount := 10

  /** The name get_player_name hands out. */
  const PlayerName := "Player"

  /**
   * load_high_scores: the saved tables, or one empty table per difficulty
   * when the file is missing or is not valid JSON (saved == None).
   */
  function LoadHighScores(saved: Option<Tables>): (r: Tables)
    ensures saved.None? ==> r.Keys == {"easy", "medium", "hard"} && forall d :: d in r ==> r[d] == []
    ensures saved.Some? ==> r == saved.value
  {
    if saved.None? then map["easy" := [], "medium" := [], "hard" := []] else saved.value
  }

  /**
   * The time bonus of add_score for a game that took elapsed seconds:
   * ten points per second left of five minutes, truncated, never negative.
   */
  function TimeBonus(elapsed: real): (b: nat)
    ensures elapsed >= 300.0 ==> b == 0
    ensures elapsed < 300.0 ==> b as real <= (300.0 - elapsed) * 10.0 < b as real + 1.0
    ensures elapsed >= 0.0 ==> b <= 3000
  {
    var v := (300.0 - elapsed) * 10.0;
    if v <= 0.0 then 0 else v.Floor
  }

  /** Non-increasing scores: each entry scores at most as much as the one before it. */
  predicate SortedByScore(s: seq<ScoreEntry>)
  {
    forall i :: 0 < i < |s| ==> s[i - 1].score >= s[i].score
  }

  /** The entries of s scoring exactly v, in their order in s. */
  function WithScore(s: seq<ScoreEntry>, v: int): seq<ScoreEntry>
  {
    if |s| == 0 then []
    else (if s[0].score == v then [s[0]] else []) + WithScore(s[1..], v)
  }

  /** How many entries of s score at least v. */
  function CountAtLeast(s: seq<ScoreEntry>, v: int): nat
  {
    if |s| == 0 then 0
    else (if s[0].score >= v then 1 else 0) + CountAtLeast(s[1..], v)
  }

  /** Insertion into a sorted table: after every leading entry scoring at least as much. */
  function InsertAfterEqual(s: seq<ScoreEntry>, e: ScoreEntry): (r: seq<ScoreEntry>)
    ensures |r| == |s| + 1
  {
    if |s| == 0 then [e]
    else if s[0].score >= e.score then [s[0]] + InsertAfterEqual(s[1..], e)
    else [e] + s
  }

  /** Insertion keeps a table sorted and adds exactly the new entry. */
  lemma {:induction false} InsertSorted(s: seq<ScoreEntry>, e: ScoreEntry)
    requires SortedByScore(s)
    ensures var r := InsertAfterEqual(s, e);
      SortedByScore(r) && multiset(r) == multiset(s) + multiset{e} && (r[0] == e || r[0] == s[0])
  {
    if |s| > 0 && s[0].score >= e.score {
      InsertSorted(s[1..], e);
      HeadSplit(s);
    }
  }

  /** list.sort(key=score, reverse=True): a stable sort, highest score first. */
  function SortByScore(s: seq<ScoreEntry>): (r: seq<ScoreEntry>)
    ensures |r| == |s|
  {
    if |s| == 0 then [] else InsertAfterEqual(SortByScore(s[..|s| - 1]), s[|s| - 1])
  }

  /** The sort yields a sorted permutation of its input. */
  lemma {:induction false} SortByScoreSorts(s: seq<ScoreEntry>)
    ensures SortedByScore(SortByScore(s)) && multiset(SortByScore(s)) == multiset(s)
  {
    if |s| > 0 {
      SortByScoreSorts(s[..|s| - 1]);
      InsertSorted(SortByScore(s[..|s| - 1]), s[|s| - 1]);
      LastSplit(s);
    }
  }

  /** The slice [:10]. */
  function Top(s: seq<ScoreEntry>): (r: seq<ScoreEntry>)
    ensures |r| <= TopCount && |r| <= |s| && r == s[..|r|] && (|s| <= TopCount ==> r == s)
  {
    if |s| <= TopCount then s else s[..TopCount]
  }

  lemma {:induction false} WithScoreAppend(a: seq<ScoreEntry>, b: seq<ScoreEntry>, v: int)
    ensures WithScore(a + b, v) == WithScore(a, v) + WithScore(b, v)
  {
    if |a| > 0 {
      WithScoreAppend(a[1..], b, v);
      DropAppend(a, b);
    } else {
      EmptyAppend(a, b);
    }
  }

  /** In a sorted table the new entry lands right after the entries scoring at least as much. */
  lemma {:induction false} InsertPosition(s: seq<ScoreEntry>, e: ScoreEntry)
    requires SortedByScore(s)
    ensures var k := CountAtLeast(s, e.score);
      k <= |s| && InsertAfterEqual(s, e) == s[..k] + [e] + s[k..] && (k < |s| ==> s[k].score < e.score)
  {
    if |s| > 0 {
      if s[0].score >= e.score {
        InsertPosition(s[1..], e);
        var k := CountAtLeast(s[1..], e.score);
        ConsSlices(s, k, e);
      } else {
        LaterBelow(s, e.score);
      }
    }
  }

  /** In a sorted table whose head scores below v, no entry scores at least v. */
  lemma {:induction false} LaterBelow(s: seq<ScoreEntry>, v: int)
    requires SortedByScore(s) && |s| > 0 && s[0].score < v
    ensures CountAtLeast(s, v) == 0
  {
    if |s| > 1 {
      LaterBelow(s[1..], v);
    }
  }

  /** Insertion adds the new entry after all entries of its own score. */
  lemma {:induction false} InsertStable(s: seq<ScoreEntry>, e: ScoreEntry, v: int)
    requires SortedByScore(s)
    ensures WithScore(InsertAfterEqual(s, e), v) == WithScore(s, v) + (if e.score == v then [e] else [])
  {
    InsertPosition(s, e);
    var k := CountAtLeast(s, e.score);
    WithScoreAppend(s[..k] + [e], s[k..], v);
    WithScoreAppend(s[..k], [e], v);
    WithScoreAppend(s[..k], s[k..], v);
    SliceJoin(s, k);
    if k < |s| && e.score == v {
      SkipBelow(s[k..], v);
    }
  }

  /** A sorted table that starts below the inserted score holds no entry of that score. */
  lemma {:induction false} SkipBelow(t: seq<ScoreEntry>, v: int)
    requires SortedByScore(t) && |t| > 0 && t[0].score < v
    ensures WithScore(t, v) == []
  {
    if |t| > 1 {
      SkipBelow(t[1..], v);
    }
  }

  /** The sort keeps, for each score, the entries of that score in their original order. */
  lemma {:induction false} SortStable(s: seq<ScoreEntry>, v: int)
    ensures WithScore(SortByScore(s), v) == WithScore(s, v)
  {
    if |s| > 0 {
      var init := s[..|s| - 1];
      var last := s[|s| - 1];
      SortStable(init, v);
      SortByScoreSorts(init);
      InsertStable(SortByScore(init), last, v);
      LastSplit(s);
      WithScoreAppend(init, [last], v);
    }
  }

  /** Sorting a table that is already sorted leaves it as it is. */
  lemma {:induction false} SortSorted(s: seq<ScoreEntry>)
    requires SortedByScore(s)
    ensures SortByScore(s) == s
  {
    if |s| > 0 {
      var init := s[..|s| - 1];
      var last := s[|s| - 1];
      SortSorted(init);
      InsertPosition(init, last);
      LastIsLeast(s);
      AllAtLeast(init, last.score);
      LastSplit(s);
    }
  }

  /** In a sorted table an earlier entry scores at least as much as a later one. */
  lemma {:induction false} SortedOrder(s: seq<ScoreEntry>, i: nat, j: nat)
    requires SortedByScore(s) && i <= j < |s|
    ensures s[i].score >= s[j].score
    decreases j - i
  {
    if i < j {
      SortedOrder(s, i, j - 1);
    }
  }

  lemma LastIsLeast(s: seq<ScoreEntry>)
    requires SortedByScore(s) && |s| > 0
    ensures forall i :: 0 <= i < |s| - 1 ==> s[i].score >= s[|s| - 1].score
  {
    forall i | 0 <= i < |s| - 1
      ensures s[i].score >= s[|s| - 1].score
    {
      SortedOrder(s, i, |s| - 1);
    }
  }

  /** When every entry scores at least v, all of them count. */
  lemma {:induction false} AllAtLeast(s: seq<ScoreEntry>, v: int)
    requires forall i :: 0 <= i < |s| ==> s[i].score >= v
    ensures CountAtLeast(s, v) == |s|
  {
    if |s| > 0 {
      AllAtLeast(s[1..], v);
    }
  }

  /**
   * Adding to a kept (sorted) table: the entry goes in after the k entries
   * scoring at least as much, and survives the cut exactly when k < 10.
   */
  lemma AddToSortedTable(t: seq<ScoreEntry>, e: ScoreEntry)
    requires SortedByScore(t)
    ensures var k := CountAtLeast(t, e.score);
      k <= |t| && Top(SortByScore(t + [e])) == Top(t[..k] + [e] + t[k..])
  {
    SnocParts(t, e);
    SortSorted(t);
    InsertPosition(t, e);
  }

  /** One row of the listing, without its line break. */
  function Line(i: nat, e: ScoreEntry): string
  {
    Concat([NatToString(i), ". ", e.name, ": ", IntToString(e.score), " (", e.date, ")"])
  }

  /** The listing's lines for entries, numbered from first on. */
  function Lines(entries: seq<ScoreEntry>, first: nat): (r: seq<string>)
    ensures |r| == |entries|
  {
    if |entries| == 0 then [] else [Line(first, entries[0])] + Lines(entries[1..], first + 1)
  }

  /** Line j of the listing shows entry j under the number first + j. */
  lemma {:induction false} LinesNumbered(entries: seq<ScoreEntry>, first: nat)
    ensures forall j :: 0 <= j < |entries| ==> Lines(entries, first)[j] == Line(first + j, entries[j])
  {
    if |entries| > 0 {
      LinesNumbered(entries[1..], first + 1);
    }
  }

  const Title := "High Scores:"

  /** The title line and a blank line. */
  const Header := Title + "\n\n"

  /** No name and no date holds a line break. */
  predicate Unbroken(entries: seq<ScoreEntry>)
  {
    forall j :: 0 <= j < |entries| ==> '\n' !in entries[j].name && '\n' !in entries[j].date
  }

  /** A row holds no line break when the name and the date hold none. */
  lemma LineUnbroken(i: nat, e: ScoreEntry)
    requires '\n' !in e.name && '\n' !in e.date
    ensures '\n' !in Line(i, e)
  {
    var n := NatToString(i);
    var v := IntToString(e.score);
    assert '\n' !in v by {
      if e.score < 0 {
        HeadSplit(v);
      }
    }
    ConcatAvoids([n, ". ", e.name, ": ", v, " (", e.date, ")"], '\n');
  }

  /**
   * A listing splits into the title, a blank line, one line per shown
   * entry, numbered from 1, and the empty rest after the last line break.
   */
  lemma ListingLines(entries: seq<ScoreEntry>)
    requires Unbroken(entries)
    ensures Split(Header + JoinLines(Lines(entries, 1)), '\n') == [Title, ""] + Lines(entries, 1) + [""]
  {
    ListingRows(entries, 1);
    HeaderSplit(JoinLines(Lines(entries, 1)), Lines(entries, 1));
  }

  lemma HeaderSplit(rows: string, lines: seq<string>)
    requires Split(rows, '\n') == lines + [""]
    ensures Split(Header + rows, '\n') == [Title, ""] + lines + [""]
  {
    TitledSplit(Title, rows, lines);
  }

  /** The numbered rows split back into the numbered lines. */
  lemma ListingRows(entries: seq<ScoreEntry>, first: nat)
    requires Unbroken(entries)
    ensures Split(JoinLines(Lines(entries, first)), '\n') == Lines(entries, first) + [""]
  {
    var lines := Lines(entries, first);
    LinesNumbered(entries, first);
    forall k | 0 <= k < |lines|
      ensures '\n' !in lines[k]
    {
      LineUnbroken(first + k, entries[k]);
    }
    SplitJoinLines(lines);
  }

  /** A text of a title, a blank line and rows splits into the title, "" and the rows' pieces. */
  lemma TitledSplit(title: string, rows: string, lines: seq<string>)
    requires '\n' !in title
    requires Split(rows, '\n') == lines + [""]
    ensures Split(title + "\n\n" + rows, '\n') == [title, ""] + lines + [""]
  {
    SplitWord("", rows, '\n');
    SplitWord(title, "" + "\n" + rows, '\n');
    assert title + "\n\n" + rows == title + "\n" + ("" + "\n" + rows);
  }

  class ScoreManager {
    var highScores: Tables
    var currentScore: int
    /** time.time() when the manager was made, in seconds. */
    const startTime: real

    constructor (saved: Option<Tables>, startTime: real)
      ensures highScores == LoadHighScores(saved) && currentScore == 0 && this.startTime == startTime
    {
      highScores := LoadHighScores(saved);
      currentScore := 0;
      this.startTime := startTime;
    }

    /**
     * add_score at time now (seconds) on date: the final score is the game
     * score plus the time bonus; it joins its difficulty's table, which is
     * sorted and cut to the ten best. Other tables stay as they were.
     */
    method AddScore(playerScore: int, difficulty: string, now: real, date: string) returns (finalScore: int)
      requires difficulty in highScores
      modifies this
      ensures finalScore == playerScore + TimeBonus(now - startTime) && finalScore >= playerScore
      ensures highScores == old(highScores)[difficulty :=
        Top(SortByScore(old(highScores)[difficulty] + [ScoreEntry(PlayerName, finalScore, date)]))]
      ensures |highScores[difficulty]| <= TopCount && SortedByScore(highScores[difficulty])
      ensures currentScore == old(currentScore)
    {
      var timeBonus := TimeBonus(now - startTime);
      finalScore := playerScore + timeBonus;
      var entry := ScoreEntry(PlayerName, finalScore, date);
      var table := highScores[difficulty] + [entry];
      SortByScoreSorts(table);
      table := SortByScore(table);
      highScores := highScores[difficulty := Top(table)];
    }

    /**
     * format_high_scores: the title and one numbered line for each of the
     * (at most ten) first entries of the difficulty's table; an unknown
     * difficulty lists nothing.
     */
    method FormatHighScores(difficulty: string) returns (formatted: string)
      ensures var scores := if difficulty in highScores then highScores[difficulty] else [];
        formatted == Header + JoinLines(Lines(Top(scores), 1))
    {
      var scores := if difficulty in highScores then highScores[difficulty] else [];
      var shown := Top(scores);
      formatted := Header;
      ghost var lines: seq<string> := [];
      for i := 0 to |shown|
        invariant formatted == Header + JoinLines(lines)
        invariant |lines| == i && forall j :: 0 <= j < i ==> lines[j] == Line(1 + j, shown[j])
      {
        var line := Line(i + 1, shown[i]);
        JoinLinesSnoc(lines, line);
        AppendTwice(Header, JoinLines(lines), line + "\n");
        formatted := formatted + (line + "\n");
        SnocAt(lines, line);
        lines := lines + [line];
      }
      LinesNumbered(shown, 1);
      assert lines == Lines(shown, 1);
    }
  }
}
