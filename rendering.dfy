/**
 * The text form of the board: a border line, then for each row the row line
 * followed by the border again, lines separated by newlines.
 */
module Rendering {
  import opened Grids

  /** `s` repeated `k` times (the source's `s * k`). */
  function Repeat(s: string, k: nat): (r: string)
    ensures |r| == k * |s|
  {
    if k == 0 then "" else Repeat(s, k - 1) + s
  }

  lemma ScaleMonotone(a: nat, b: nat, m: nat)
    requires a <= b
    ensures a * m <= b * m
  {
    assert b * m == a * m + (b - a) * m;
  }

  /** `s * k` is k copies of `s`: block j of the result is `s`. */
  lemma {:induction false} RepeatBlocks(s: string, k: nat, j: nat)
    requires j < k
    ensures (j + 1) * |s| <= |Repeat(s, k)|
    ensures Repeat(s, k)[j * |s| .. (j + 1) * |s|] == s
  {
    var prefix := Repeat(s, k - 1);
    assert k * |s| == (k - 1) * |s| + |s|;
    if j < k - 1 {
      RepeatBlocks(s, k - 1, j);
      ScaleMonotone(j + 1, k - 1, |s|);
      assert (prefix + s)[j * |s| .. (j + 1) * |s|] == prefix[j * |s| .. (j + 1) * |s|];
    } else {
      assert (prefix + s)[|prefix|..] == s;
    }
  }

  /**
   * `sep.join(parts)`: nothing for no parts; otherwise the first part, then
   * for each further part the separator and that part, so the text begins
   * with the first part.
   */
  function Join(sep: string, parts: seq<string>): (j: string)
    ensures |parts| == 0 ==> j == ""
    ensures |parts| > 0 ==> parts[0] <= j
  {
    if |parts| == 0 then ""
    else if |parts| == 1 then parts[0]
    else
      var front := parts[..|parts| - 1];
      assert front[0] == parts[0];
      Join(sep, front) + sep + parts[|parts| - 1]
  }

  /** A border line: one "+---" per column, closed by "+", 4n+1 characters wide. */
  function Border(n: nat): (b: string)
    ensures |b| == 4 * n + 1 && b[4 * n] == '+'
  {
    Repeat("+---", n) + "+"
  }

  function RowLine(row: seq<Cell>): string
  {
    "| " + Join(" | ", row) + " |"
  }

  /** The lines of the text, in order: a border, then each row line followed by a border. */
  function Layout(rows: seq<seq<Cell>>, n: nat): (ls: seq<string>)
    ensures |ls| == 2 * |rows| + 1
    ensures forall k :: 0 <= k <= |rows| ==> ls[2 * k] == Border(n)
    ensures forall k :: 0 <= k < |rows| ==> ls[2 * k + 1] == RowLine(rows[k])
  {
    if rows == [] then [Border(n)]
    else
      var prefix := rows[..|rows| - 1];
      assert forall k :: 0 <= k < |prefix| ==> prefix[k] == rows[k];
      Layout(prefix, n) + [RowLine(rows[|rows| - 1]), Border(n)]
  }

  /** Joining two more parts appends the separator and each of them. */
  lemma JoinSnocTwo(sep: string, parts: seq<string>, a: string, b: string)
    requires |parts| > 0
    ensures Join(sep, parts + [a, b]) == Join(sep, parts) + sep + a + sep + b
  {
    var longer := parts + [a, b];
    assert longer[..|longer| - 1] == parts + [a];
    assert (parts + [a])[..|parts|] == parts;
  }

  /** One more row adds its row line and a border to the joined layout. */
  lemma JoinedLayoutSnoc(rows: seq<seq<Cell>>, n: nat)
    requires rows != []
    ensures Join("\n", Layout(rows, n)) ==
            Join("\n", Layout(rows[..|rows| - 1], n)) + "\n" + RowLine(rows[|rows| - 1]) + "\n" + Border(n)
  {
    var ls := Layout(rows[..|rows| - 1], n);
    assert Layout(rows, n) == ls + [RowLine(rows[|rows| - 1]), Border(n)];
    JoinSnocTwo("\n", ls, RowLine(rows[|rows| - 1]), Border(n));
  }

  /**
   * The whole text of a board of size `n` holding `rows`, built as the source
   * builds it: a border, then for each row a newline, the row line, a newline
   * and a border again. It is the layout's lines joined by newlines.
   */
  function Render(rows: seq<seq<Cell>>, n: nat): (text: string)
    ensures text == Join("\n", Layout(rows, n))
  {
    if rows == [] then Border(n)
    else
      JoinedLayoutSnoc(rows, n);
      Render(rows[..|rows| - 1], n) + "\n" + RowLine(rows[|rows| - 1]) + "\n" + Border(n)
  }

  /** Rendering one more row appends a newline, that row's line, a newline and a border. */
  lemma RenderSnoc(rows: seq<seq<Cell>>, i: nat, n: nat)
    requires i < |rows|
    ensures Render(rows[..i + 1], n) == Render(rows[..i], n) + "\n" + RowLine(rows[i]) + "\n" + Border(n)
  {
    assert rows[..i + 1][..i] == rows[..i];
  }

  /** Number of newline characters in `s`. */
  function Newlines(s: string): nat
  {
    if s == "" then 0 else Newlines(s[..|s| - 1]) + (if s[|s| - 1] == '\n' then 1 else 0)
  }

  lemma {:induction false} NewlinesAppend(a: string, b: string)
    ensures Newlines(a + b) == Newlines(a) + Newlines(b)
  {
    if b != "" {
      NewlinesAppend(a, b[..|b| - 1]);
      assert (a + b)[..|a + b| - 1] == a + b[..|b| - 1];
    } else {
      assert a + b == a;
    }
  }

  predicate NoNewline(s: string)
  {
    forall i :: 0 <= i < |s| ==> s[i] != '\n'
  }

  lemma {:induction false} NoNewlineCount(s: string)
    requires NoNewline(s)
    ensures Newlines(s) == 0
  {
    if s != "" {
      NoNewlineCount(s[..|s| - 1]);
    }
  }

  lemma {:induction false} BorderNoNewline(k: nat)
    ensures NoNewline(Repeat("+---", k)) && NoNewline(Border(k))
  {
    if k > 0 {
      BorderNoNewline(k - 1);
    }
  }

  lemma {:induction false} JoinNoNewline(sep: string, parts: seq<string>)
    requires NoNewline(sep) && forall k :: 0 <= k < |parts| ==> NoNewline(parts[k])
    ensures NoNewline(Join(sep, parts))
  {
    if |parts| > 1 {
      JoinNoNewline(sep, parts[..|parts| - 1]);
    }
  }

  /**
   * When no cell holds a newline, the text has exactly 2n+1 lines: no single
   * line of the layout holds a newline, and there are 2n newlines in all.
   */
  lemma {:induction false} LineCount(rows: seq<seq<Cell>>, n: nat)
    requires forall r, c :: 0 <= r < |rows| && 0 <= c < |rows[r]| ==> NoNewline(rows[r][c])
    ensures forall k :: 0 <= k < |Layout(rows, n)| ==> NoNewline(Layout(rows, n)[k])
    ensures Newlines(Render(rows, n)) == 2 * |rows|
  {
    var ls := Layout(rows, n);
    BorderNoNewline(n);
    forall k | 0 <= k < |ls| ensures NoNewline(ls[k]) {
      if k % 2 == 1 {
        var row := rows[(k - 1) / 2];
        RowLineNoNewline(row);
        assert ls[k] == RowLine(row);
      } else {
        assert ls[2 * (k / 2)] == Border(n);
      }
    }
    RenderNewlines(rows, n);
  }

  lemma {:induction false} RenderNewlines(rows: seq<seq<Cell>>, n: nat)
    requires forall r, c :: 0 <= r < |rows| && 0 <= c < |rows[r]| ==> NoNewline(rows[r][c])
    ensures Newlines(Render(rows, n)) == 2 * |rows|
  {
    BorderNoNewline(n);
    if rows == [] {
      NoNewlineCount(Border(n));
    } else {
      var prefix := rows[..|rows| - 1];
      var row := rows[|rows| - 1];
      assert forall r :: 0 <= r < |prefix| ==> prefix[r] == rows[r];
      RenderNewlines(prefix, n);
      RowLineNoNewline(row);
      TwoMoreLines(Render(prefix, n), RowLine(row), Border(n));
    }
  }

  /** A row line holds no newline when none of its cells does. */
  lemma RowLineNoNewline(row: seq<Cell>)
    requires forall c :: 0 <= c < |row| ==> NoNewline(row[c])
    ensures NoNewline(RowLine(row))
  {
    JoinNoNewline(" | ", row);
  }

  /** Two more lines without newlines of their own add two newlines. */
  lemma TwoMoreLines(text: string, line: string, border: string)
    requires NoNewline(line) && NoNewline(border)
    ensures Newlines(text + "\n" + line + "\n" + border) == Newlines(text) + 2
  {
    NoNewlineCount(line);
    NoNewlineCount(border);
    NewlinesAppend(text, "\n");
    NewlinesAppend(text + "\n", line);
    NewlinesAppend(text + "\n" + line, "\n");
    NewlinesAppend(text + "\n" + line + "\n", border);
  }

  lemma {:induction false} JoinLength(sep: string, parts: seq<string>)
    requires |parts| > 0 && forall k :: 0 <= k < |parts| ==> |parts[k]| == 1
    ensures |Join(sep, parts)| == |parts| + (|parts| - 1) * |sep|
  {
    if |parts| > 1 {
      JoinLength(sep, parts[..|parts| - 1]);
    }
  }

  /** A row line of n one-character cells is 4n+1 characters wide, as wide as a border. */
  lemma RowLineWidth(row: seq<Cell>)
    requires |row| > 0 && forall c :: 0 <= c < |row| ==> |row[c]| == 1
    ensures |RowLine(row)| == 4 * |row| + 1
  {
    JoinLength(" | ", row);
  }

  /** With one-character cells every line of the layout is 4n+1 characters wide. */
  lemma LineWidth(rows: seq<seq<Cell>>, n: nat)
    requires n > 0
    requires forall r :: 0 <= r < |rows| ==> |rows[r]| == n
    requires forall r, c :: 0 <= r < |rows| && 0 <= c < n ==> |rows[r][c]| == 1
    ensures forall k :: 0 <= k < |Layout(rows, n)| ==> |Layout(rows, n)[k]| == 4 * n + 1
  {
    var ls := Layout(rows, n);
    forall k | 0 <= k < |ls| ensures |ls[k]| == 4 * n + 1 {
      if k % 2 == 1 {
        var row := rows[(k - 1) / 2];
        RowLineWidth(row);
        assert ls[k] == RowLine(row);
      } else {
        assert ls[2 * (k / 2)] == Border(n);
      }
    }
  }
}
