/**
 * The text of one table section (GenerateDatabaseDocs.php, lines 84-87 and
 * 122-145) and of the document header (lines 76-81).
 */
module Markdown {
  import opened Wrappers
  import opened Schema

  const LaravelTag := " *(Laravel Default)*"

  /** Lines 84-87: the section heading, tagged when the table is one of Laravel's own. */
  function Heading(name: string): string
  {
    "## Table: `" + name + "`" + (if IsLaravelTable(name) then LaravelTag else "") + "\n\n"
  }

  /** Lines 122-123: the fixed six-column header of the column table and its rule line, written cell by cell. */
  const HeaderText := "|" + " Column |" + " Type |" + " Nullable |" + " Key |" + " Default |" + " Extra |"
  const RuleText := "|" + "--------|" + "------|" + "----------|" + "-----|" + "---------|" + "-------|"
  const ColumnHeader := HeaderText + "\n"
  const ColumnRule := RuleText + "\n"

  /** `$col->default_value ?? 'NULL'`: only an absent default is shown as NULL. */
  function DefaultText(d: Option<string>): string
  {
    match d
    case None => "NULL"
    case Some(s) => s
  }

  /** The six cells of a column's row, in the order of the header: Column, Type, Nullable, Key, Default, Extra. */
  function Cells(c: ColumnInfo): seq<string>
  {
    [c.column, c.colType, c.nullable, c.key, DefaultText(c.defaultValue), c.extra]
  }

  /** Each cell as `` `x` |`` after a space: together with the leading `|` this is the row text of lines 126-127. */
  function RenderCells(cells: seq<string>): string
  {
    if cells == [] then "" else " `" + cells[0] + "` |" + RenderCells(cells[1..])
  }

  /** Lines 126-127: one table row per column, every cell in backticks. */
  function RowLine(c: ColumnInfo): string
  {
    "|" + RenderCells(Cells(c)) + "\n"
  }

  /** The rows of lines 125-128, in column order. */
  function Rows(cols: seq<ColumnInfo>): string
  {
    if cols == [] then ""
    else Rows(cols[..|cols| - 1]) + RowLine(cols[|cols| - 1])
  }

  function ColumnTable(cols: seq<ColumnInfo>): string
  {
    ColumnHeader + ColumnRule + Rows(cols)
  }

  /**
   * One table section, in the order of the appends of lines 87-145:
   * heading, `modelPart` (the text of lines 89-120, empty when no model was
   * found), the column table, the example heading and the JSON block.
   */
  function Section(name: string, cols: seq<ColumnInfo>, modelPart: string, json: string): string
  {
    Heading(name) + modelPart + ColumnTable(cols)
      + "\n### Example JSON:\n\n" + "```json\n" + json + "\n```\n\n"
  }

  /** Line 76: the title naming the database. */
  function Title(database: string): string
  {
    "# Database Documentation: `" + database + "`\n\n"
  }

  /** Lines 77-81: the fixed introduction. */
  const Intro: string :=
    "This document was automatically generated to provide an overview of the MySQL database schema used in this Laravel project.\n" +
    "It is optimized to support AI-assisted development by summarizing tables, columns, associated Eloquent models,\n" +
    "fillable attributes, casts, hidden fields, and model relationships. Each section includes an example JSON payload\n" +
    "(retrieved or mocked) to give context for the structure of the data.\n" +
    "\n"

  predicate EndsWith(s: string, suffix: string)
  {
    |suffix| <= |s| && s[|s| - |suffix|..] == suffix
  }

  /** The heading carries the Laravel tag exactly when the table is in the Laravel list. */
  lemma LaravelTagIffDefaultTable(name: string)
    ensures IsLaravelTable(name) <==> EndsWith(Heading(name), LaravelTag + "\n\n")
  {
    var h := Heading(name);
    var suffix := LaravelTag + "\n\n";
    if !IsLaravelTable(name) {
      assert h == ("## Table: `" + name) + "`\n\n";
      assert h[|h| - 3] == '`';
      if |suffix| <= |h| {
        assert h[|h| - |suffix|..][|suffix| - 3] == h[|h| - 3];
        assert suffix[|suffix| - 3] == '*';
      }
    } else {
      assert h == ("## Table: `" + name + "`") + suffix;
    }
  }

  /** Number of occurrences of `ch` in `s`. */
  function Count(s: string, ch: char): nat
  {
    if s == [] then 0 else (if s[0] == ch then 1 else 0) + Count(s[1..], ch)
  }

  lemma {:induction false} CountAppend(a: string, b: string, ch: char)
    ensures Count(a + b, ch) == Count(a, ch) + Count(b, ch)
  {
    if a == [] {
      assert a + b == b;
    } else {
      assert (a + b)[0] == a[0];
      assert (a + b)[1..] == a[1..] + b;
      CountAppend(a[1..], b, ch);
    }
  }

  lemma {:induction false} CountAbsent(s: string, ch: char)
    requires ch !in s
    ensures Count(s, ch) == 0
  {
    if s != [] {
      assert s[0] in s;
      assert ch !in s[1..] by {
        assert forall k :: 0 <= k < |s[1..]| ==> s[1..][k] == s[k + 1];
      }
      CountAbsent(s[1..], ch);
    }
  }

  lemma {:induction false} RenderCellsAvoids(cells: seq<string>, ch: char)
    requires ch != '`' && ch != ' ' && ch != '|'
    requires forall k :: 0 <= k < |cells| ==> ch !in cells[k]
    ensures ch !in RenderCells(cells)
  {
    if cells != [] {
      RenderCellsAvoids(cells[1..], ch);
    }
  }

  /** A rendered row is one line: it holds exactly one line break when its cells hold none. */
  lemma RowLineIsOneLine(c: ColumnInfo)
    requires forall k :: 0 <= k < 6 ==> '\n' !in Cells(c)[k]
    ensures Count(RowLine(c), '\n') == 1
  {
    RenderCellsAvoids(Cells(c), '\n');
    LineCount("|" + RenderCells(Cells(c)));
  }

  /** No cell of any column holds a line break. */
  predicate SingleLineCells(cols: seq<ColumnInfo>)
  {
    forall i, k :: 0 <= i < |cols| && 0 <= k < 6 ==> '\n' !in Cells(cols[i])[k]
  }

  lemma {:induction false} RowsLines(cols: seq<ColumnInfo>)
    requires SingleLineCells(cols)
    ensures Count(Rows(cols), '\n') == |cols|
  {
    if cols != [] {
      var n := |cols| - 1;
      assert SingleLineCells(cols[..n]) by {
        forall i, k | 0 <= i < n && 0 <= k < 6 ensures '\n' !in Cells(cols[..n][i])[k] {
          assert cols[..n][i] == cols[i];
        }
      }
      RowsLines(cols[..n]);
      RowLineIsOneLine(cols[n]);
      CountAppend(Rows(cols[..n]), RowLine(cols[n]), '\n');
    }
  }

  /** The column table is the header, the rule and exactly one line per column. */
  lemma {:induction false} LineCount(text: string)
    requires '\n' !in text
    ensures Count(text + "\n", '\n') == 1
  {
    CountAbsent(text, '\n');
    CountAppend(text, "\n", '\n');
  }

  lemma ColumnTableLines(cols: seq<ColumnInfo>)
    requires SingleLineCells(cols)
    ensures Count(ColumnTable(cols), '\n') == |cols| + 2
  {
    LineCount(HeaderText);
    LineCount(RuleText);
    CountAppend(ColumnHeader, ColumnRule, '\n');
    CountAppend(ColumnHeader + ColumnRule, Rows(cols), '\n');
    RowsLines(cols);
  }

  /** The rows of two runs of columns are the rows of the first run followed by those of the second. */
  lemma {:induction false} RowsAppend(p: seq<ColumnInfo>, q: seq<ColumnInfo>)
    ensures Rows(p + q) == Rows(p) + Rows(q)
  {
    if q == [] {
      assert p + q == p;
    } else {
      var n := |q| - 1;
      var pq := p + q;
      assert pq[..|pq| - 1] == p + q[..n];
      assert pq[|pq| - 1] == q[n];
      assert Rows(pq) == Rows(p + q[..n]) + RowLine(q[n]);
      assert Rows(q) == Rows(q[..n]) + RowLine(q[n]);
      RowsAppend(p, q[..n]);
      AppendAssociates(Rows(p), Rows(q[..n]), RowLine(q[n]));
    }
  }

  /**
   * Appending text piece by piece does not depend on the grouping. Called
   * as a lemma so that the sequence extensionality it needs is proved once,
   * apart from the loops that use it.
   */
  lemma AppendAssociates(a: string, b: string, c: string)
    ensures (a + b) + c == a + (b + c)
  {
  }

  /** Splits a string at every occurrence of `sep`, like PHP's `explode`. */
  function Split(s: string, sep: char): (pieces: seq<string>)
    ensures |pieces| >= 1
  {
    if s == [] then [""]
    else if s[0] == sep then [""] + Split(s[1..], sep)
    else
      var rest := Split(s[1..], sep);
      [[s[0]] + rest[0]] + rest[1..]
  }

  lemma {:induction false} SplitNoSeparator(a: string, sep: char)
    requires sep !in a
    ensures Split(a, sep) == [a]
  {
    if a != [] {
      assert a[0] in a;
      assert sep !in a[1..] by {
        assert forall k :: 0 <= k < |a[1..]| ==> a[1..][k] == a[k + 1];
      }
      SplitNoSeparator(a[1..], sep);
      assert a == [a[0]] + a[1..];
    }
  }

  lemma {:induction false} SplitAtSeparator(a: string, sep: char, b: string)
    requires sep !in a
    ensures Split(a + [sep] + b, sep) == [a] + Split(b, sep)
  {
    if a == [] {
      assert a + [sep] + b == [sep] + b;
      assert ([sep] + b)[1..] == b;
    } else {
      assert a[0] in a;
      assert sep !in a[1..] by {
        assert forall k :: 0 <= k < |a[1..]| ==> a[1..][k] == a[k + 1];
      }
      SplitAtSeparator(a[1..], sep, b);
      assert (a + [sep] + b)[1..] == a[1..] + [sep] + b;
      assert a == [a[0]] + a[1..];
    }
  }

  /** The pieces at odd positions: the text between the first and second separator, the third and fourth, and so on. */
  function OddPieces(pieces: seq<string>): seq<string>
  {
    if |pieces| < 2 then [] else [pieces[1]] + OddPieces(pieces[2..])
  }

  /** The cells a reader recovers from a rendered row: its backtick-quoted parts. */
  function ParseCells(line: string): seq<string>
  {
    OddPieces(Split(line, '`'))
  }

  /** How `pre`, the rendered cells and `post` split at backticks. */
  function RenderedPieces(pre: string, cells: seq<string>, post: string): seq<string>
    decreases |cells|
  {
    if cells == [] then [pre + post]
    else [pre + " ", cells[0]] + RenderedPieces(" |", cells[1..], post)
  }

  lemma {:induction false} SplitRendered(pre: string, cells: seq<string>, post: string)
    requires '`' !in pre && '`' !in post
    requires forall k :: 0 <= k < |cells| ==> '`' !in cells[k]
    ensures Split(pre + RenderCells(cells) + post, '`') == RenderedPieces(pre, cells, post)
    decreases |cells|
  {
    var q := '`';
    if cells == [] {
      assert pre + RenderCells(cells) + post == pre + post;
      SplitNoSeparator(pre + post, q);
    } else {
      var x, rest := cells[0], cells[1..];
      var after := " |" + RenderCells(rest) + post;
      assert pre + RenderCells(cells) + post == (pre + " ") + [q] + (x + [q] + after);
      SplitAtSeparator(pre + " ", q, x + [q] + after);
      SplitAtSeparator(x, q, after);
      SplitRendered(" |", rest, post);
    }
  }

  lemma {:induction false} OddPiecesOfRendered(pre: string, cells: seq<string>, post: string)
    ensures OddPieces(RenderedPieces(pre, cells, post)) == cells
    decreases |cells|
  {
    if cells != [] {
      OddPiecesOfRendered(" |", cells[1..], post);
      var r := RenderedPieces(pre, cells, post);
      assert r[2..] == RenderedPieces(" |", cells[1..], post);
    }
  }

  /**
   * A rendered row reads back as its six cells, one per header column, in
   * the order Column, Type, Nullable, Key, Default, Extra; the Default cell
   * is "NULL" for an absent default.
   */
  lemma RowLineReadsBack(c: ColumnInfo)
    requires forall k :: 0 <= k < 6 ==> '`' !in Cells(c)[k]
    ensures ParseCells(RowLine(c)) ==
      [c.column, c.colType, c.nullable, c.key,
       if c.defaultValue.Some? then c.defaultValue.value else "NULL", c.extra]
  {
    SplitRendered("|", Cells(c), "\n");
    OddPiecesOfRendered("|", Cells(c), "\n");
  }
}
