/** What a console of 25 rows shows of all the text printed on it. */
module ConsoleText {
  import opened FrameBuffer

  const ROWS: nat := 25
  const COLUMNS: nat := 150
  const LINE_FEED: Ascii := 10

  type Text = seq<Ascii>

  /** The text split at its line feeds; the last line is the one being written. */
  function Lines(t: Text): (ls: seq<Text>)
    ensures |ls| > 0
  {
    if t == [] then [[]]
    else
      var ls, c := Lines(t[..|t| - 1]), t[|t| - 1];
      if c == LINE_FEED then ls + [[]]
      else ls[|ls| - 1 := ls[|ls| - 1] + [c]]
  }

  function Join(ls: seq<Text>): Text
    requires |ls| > 0
  {
    if |ls| == 1 then ls[0] else Join(ls[..|ls| - 1]) + [10] + ls[|ls| - 1]
  }

  /** Splitting loses nothing, and no line holds a line feed. */
  lemma {:induction false} LinesJoin(t: Text)
    ensures Join(Lines(t)) == t
    ensures forall l <- Lines(t) :: 10 !in l
  {
    if t != [] {
      var front, c := t[..|t| - 1], t[|t| - 1];
      var ls := Lines(front);
      LinesJoin(front);
      assert t == front + [c];
      if c == LINE_FEED {
        assert (ls + [[]])[..|ls|] == ls;
      } else {
        var ls' := ls[|ls| - 1 := ls[|ls| - 1] + [c]];
        assert Lines(t) == ls';
        assert ls'[..|ls| - 1] == ls[..|ls| - 1];
        assert Join(ls') == Join(ls) + [c];
      }
    }
  }

  /** And there is no other such split. */
  lemma {:induction false} SplitIsUnique(ls: seq<Text>, t: Text)
    requires |ls| > 0 && Join(ls) == t && forall l <- ls :: 10 !in l
    ensures ls == Lines(t)
    decreases |t|
  {
    var front, last := ls[..|ls| - 1], ls[|ls| - 1];
    assert ls == front + [last] && last in ls;
    if last != [] {
      var shorter, c := last[..|last| - 1], last[|last| - 1];
      assert last == shorter + [c] && c in last;
      JoinWithLast(front, shorter, c);
      SplitIsUnique(front + [shorter], Join(front + [shorter]));
      SplitWithChar(front, shorter, c);
    } else if front != [] {
      JoinWithFeed(front);
      SplitIsUnique(front, Join(front));
      LinesAfter(Join(front), 10);
    }
  }

  lemma SplitWithChar(front: seq<Text>, l: Text, c: Ascii)
    requires front + [l] == Lines(Join(front + [l])) && c != 10
    ensures front + [l + [c]] == Lines(Join(front + [l]) + [c])
  {
    LinesAfter(Join(front + [l]), c);
    assert (front + [l])[|front| := l + [c]] == front + [l + [c]];
  }

  lemma JoinWithFeed(front: seq<Text>)
    requires front != []
    ensures Join(front + [[]]) == Join(front) + [10]
  {
    assert (front + [[]])[..|front|] == front;
  }

  lemma LinesAfter(t: Text, c: Ascii)
    ensures
      var ls := Lines(t);
      Lines(t + [c]) == if c == 10 then ls + [[]] else ls[|ls| - 1 := ls[|ls| - 1] + [c]]
  {
    assert (t + [c])[..|t|] == t;
  }

  /** A character more on the last line is a character more in all. */
  lemma JoinWithLast(front: seq<Text>, l: Text, c: Ascii)
    ensures Join(front + [l + [c]]) == Join(front + [l]) + [c]
  {
    assert (front + [l + [c]])[..|front|] == front == (front + [l])[..|front|];
    if front != [] {
      assert Join(front) + [10] + (l + [c]) == Join(front) + [10] + l + [c];
    }
  }

  /** At most 149 characters of a line are kept. */
  function Truncate(l: Text): Text {
    if |l| <= COLUMNS - 1 then l else l[..COLUMNS - 1]
  }

  /** The first line still on screen. */
  function Top(t: Text): nat {
    if |Lines(t)| <= ROWS then 0 else |Lines(t)| - ROWS
  }

  /** Row `r` of the screen: the last 25 lines, and nothing below them. */
  function Row(t: Text, r: nat): Text {
    if Top(t) + r < |Lines(t)| then Truncate(Lines(t)[Top(t) + r]) else []
  }

  function CursorRow(t: Text): (r: nat)
    ensures r < ROWS
  {
    |Lines(t)| - 1 - Top(t)
  }

  function CursorColumn(t: Text): (c: nat)
    ensures c == |Row(t, CursorRow(t))| < COLUMNS
  {
    |Truncate(Lines(t)[|Lines(t)| - 1])|
  }

  function Rows(t: Text): (g: seq<Text>)
    ensures |g| == ROWS
  {
    seq(ROWS, r requires 0 <= r => Row(t, r))
  }

  lemma RowsIndex(t: Text)
    ensures forall r :: 0 <= r < ROWS ==> Rows(t)[r] == Row(t, r) && |Rows(t)[r]| < COLUMNS
  {
  }

  /** A printed character goes to the end of the cursor row while there is room, and nowhere else. */
  lemma RowsAfterChar(t: Text, c: Ascii)
    requires c != LINE_FEED
    ensures CursorRow(t + [c]) == CursorRow(t)
    ensures |Rows(t)[CursorRow(t)]| == CursorColumn(t)
    ensures CursorColumn(t + [c]) == if CursorColumn(t) < COLUMNS - 1 then CursorColumn(t) + 1 else CursorColumn(t)
    ensures Rows(t + [c]) ==
            if CursorColumn(t) < COLUMNS - 1
            then Rows(t)[CursorRow(t) := Rows(t)[CursorRow(t)] + [c]]
            else Rows(t)
  {
    RowsIndex(t);
    RowsIndex(t + [c]);
    RowAfterChar(t, c, CursorRow(t));
    forall r | 0 <= r < ROWS
      ensures Row(t + [c], r) == if r == CursorRow(t) && CursorColumn(t) < COLUMNS - 1 then Row(t, r) + [c] else Row(t, r)
    {
      RowAfterChar(t, c, r);
    }
  }

  lemma RowAfterChar(t: Text, c: Ascii, r: nat)
    requires c != LINE_FEED && r < ROWS
    ensures CursorRow(t + [c]) == CursorRow(t)
    ensures Row(t + [c], r) == if r == CursorRow(t) && CursorColumn(t) < COLUMNS - 1 then Row(t, r) + [c] else Row(t, r)
  {
    var ls := Lines(t);
    var longer := ls[|ls| - 1 := ls[|ls| - 1] + [c]];
    LinesAfter(t, c);
    assert Lines(t + [c]) == longer && |longer| == |ls|;
    if r == CursorRow(t) {
      KeptAfterChar(ls[|ls| - 1], c);
    } else {
      assert Top(t) + r < |ls| ==> longer[Top(t) + r] == ls[Top(t) + r];
    }
  }

  lemma KeptAfterChar(l: Text, c: Ascii)
    ensures Truncate(l + [c]) == if |l| < COLUMNS - 1 then Truncate(l) + [c] else Truncate(l)
  {
    if |l| >= COLUMNS - 1 {
      assert (l + [c])[..COLUMNS - 1] == l[..COLUMNS - 1];
    }
  }

  /** A line feed moves down one row, or drops the top row. */
  lemma RowsAfterLineFeed(t: Text)
    ensures CursorRow(t) < ROWS - 1 ==> Rows(t + [LINE_FEED]) == Rows(t) && CursorRow(t + [LINE_FEED]) == CursorRow(t) + 1
    ensures CursorRow(t) == ROWS - 1 ==> Rows(t + [LINE_FEED]) == Rows(t)[1..] + [[]] && CursorRow(t + [LINE_FEED]) == ROWS - 1
    ensures CursorColumn(t + [LINE_FEED]) == 0
  {
    assert (t + [LINE_FEED])[..|t|] == t;
    RowsIndex(t);
    RowsIndex(t + [LINE_FEED]);
  }

  /** Rows under the cursor are empty. */
  lemma RowsBelowCursor(t: Text, r: nat)
    requires CursorRow(t) < r < ROWS
    ensures Rows(t)[r] == []
  {
    RowsIndex(t);
  }

  /** Line i of the split is on row r. */
  function LineOnRow(lines: nat, r: nat): (i: nat)
    ensures i == if lines <= 25 then r else lines - 25 + r
  {
    if lines <= ROWS then r else lines - ROWS + r
  }

  lemma RowIsALine(ls: seq<Text>, t: Text, r: nat)
    requires |ls| > 0 && Join(ls) == t && forall l <- ls :: 10 !in l
    ensures
      var i := LineOnRow(|ls|, r);
      Row(t, r) == if i >= |ls| then [] else if |ls[i]| <= 149 then ls[i] else ls[i][..149]
  {
    SplitIsUnique(ls, t);
  }
}
