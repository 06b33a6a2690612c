/**
 * The text board the engine prints: the piece-placement field of the FEN
 * record, one line per '/'-separated row, each prefixed by its index
 * counting from 0, with a run-length digit widened into that many blanks,
 * between two rules and above the file letters.
 */
module Display {
  import opened Decimal

  const Rule: string := " ==========\n"
  const Files: string := "  ABCDFGHI "

  // ---------------------------------------------------------------------
  // Splitting at a separator

  /** The number of occurrences of c in s. */
  function Count(s: string, c: char): (k: nat)
    ensures k <= |s|
  {
    if |s| == 0 then 0 else (if s[0] == c then 1 else 0) + Count(s[1..], c)
  }

  lemma {:induction false} CountAppend(a: string, b: string, c: char)
    ensures Count(a + b, c) == Count(a, c) + Count(b, c)
  {
    if |a| > 0 {
      assert (a + b)[1..] == a[1..] + b;
      assert (a + b)[0] == a[0];
      CountAppend(a[1..], b, c);
    } else {
      assert a + b == b;
    }
  }

  /** A character that does not occur is not counted. */
  lemma {:induction false} CountAbsent(s: string, c: char)
    requires forall i :: 0 <= i < |s| ==> s[i] != c
    ensures Count(s, c) == 0
  {
    if |s| > 0 {
      CountAbsent(s[1..], c);
    }
  }

  /**
   * The pieces of s between occurrences of sep, as the standard library's
   * `split` yields them: an empty string gives one empty piece, and a
   * separator at either end gives an empty piece there.
   */
  function Split(s: string, sep: char): (r: seq<string>)
    ensures |r| > 0
  {
    if |s| == 0 then [""]
    else
      var rest := Split(s[1..], sep);
      if s[0] == sep then [""] + rest else [[s[0]] + rest[0]] + rest[1..]
  }

  /** The pieces glued back together with the separator between them. */
  function Join(parts: seq<string>, sep: char): string
    requires |parts| > 0
  {
    if |parts| == 1 then parts[0] else parts[0] + [sep] + Join(parts[1..], sep)
  }

  /** There is one piece more than there are separators. */
  lemma {:induction false} SplitCount(s: string, sep: char)
    ensures |Split(s, sep)| == Count(s, sep) + 1
  {
    if |s| > 0 {
      SplitCount(s[1..], sep);
    }
  }

  /** No piece holds the separator, and every character of a piece is a character of s. */
  lemma {:induction false} SplitPieces(s: string, sep: char)
    ensures forall k, j :: 0 <= k < |Split(s, sep)| && 0 <= j < |Split(s, sep)[k]| ==>
      Split(s, sep)[k][j] != sep && Split(s, sep)[k][j] in s
  {
    if |s| > 0 {
      SplitPieces(s[1..], sep);
      var rest := Split(s[1..], sep);
      var r := Split(s, sep);
      forall k, j | 0 <= k < |r| && 0 <= j < |r[k]|
        ensures r[k][j] != sep && r[k][j] in s
      {
        if s[0] == sep {
          assert r[k] == rest[k - 1];
          assert r[k][j] in s[1..];
        } else if k == 0 {
          if j > 0 {
            assert r[k][j] == rest[0][j - 1];
            assert r[k][j] in s[1..];
          }
        } else {
          assert r[k] == rest[k];
          assert r[k][j] in s[1..];
        }
      }
    }
  }

  /** Joining the pieces at the separator gives back the string that was split. */
  lemma {:induction false} SplitJoin(s: string, sep: char)
    ensures Join(Split(s, sep), sep) == s
  {
    if |s| > 0 {
      SplitJoin(s[1..], sep);
      var rest := Split(s[1..], sep);
      if s[0] == sep {
        assert ([""] + rest)[1..] == rest;
      } else if |rest| > 1 {
        assert ([[s[0]] + rest[0]] + rest[1..])[1..] == rest[1..];
        assert s == [s[0]] + (rest[0] + [sep] + Join(rest[1..], sep));
      } else {
        assert s == [s[0]] + rest[0];
      }
    }
  }

  // ---------------------------------------------------------------------
  // One row

  /** A run of k blanks. */
  function Blanks(k: nat): (r: string)
    ensures |r| == k && forall i :: 0 <= i < k ==> r[i] == ' '
  {
    seq(k, _ => ' ')
  }

  /** A digit stands for that many empty squares; any other character is copied. */
  function ExpandChar(c: char): string
  {
    if IsDigit(c) then Blanks(DigitValue(c)) else [c]
  }

  /** A row of the placement field with every digit widened into blanks. */
  function ExpandRow(row: string): string
  {
    if |row| == 0 then "" else ExpandRow(row[..|row| - 1]) + ExpandChar(row[|row| - 1])
  }

  /** Expanding a row expands its parts independently. */
  lemma {:induction false} ExpandRowAppend(a: string, b: string)
    ensures ExpandRow(a + b) == ExpandRow(a) + ExpandRow(b)
  {
    if |b| > 0 {
      assert (a + b)[..|a + b| - 1] == a + b[..|b| - 1];
      assert (a + b)[|a + b| - 1] == b[|b| - 1];
      ExpandRowAppend(a, b[..|b| - 1]);
      assert ExpandRow(b) == ExpandRow(b[..|b| - 1]) + ExpandChar(b[|b| - 1]);
    } else {
      assert a + b == a;
    }
  }

  /** The width a row stands for: the value of each digit plus one for every other character. */
  function Width(row: string): nat
  {
    if |row| == 0 then 0 else (if IsDigit(row[0]) then DigitValue(row[0]) else 1) + Width(row[1..])
  }

  /** The sum of the digits of a row. */
  function DigitSum(row: string): nat
  {
    if |row| == 0 then 0 else (if IsDigit(row[0]) then DigitValue(row[0]) else 0) + DigitSum(row[1..])
  }

  /** The characters of s other than digits and blanks, in order. */
  function Strip(s: string): string
  {
    if |s| == 0 then ""
    else (if IsDigit(s[0]) || s[0] == ' ' then "" else [s[0]]) + Strip(s[1..])
  }

  lemma {:induction false} StripAppend(a: string, b: string)
    ensures Strip(a + b) == Strip(a) + Strip(b)
  {
    if |a| > 0 {
      assert (a + b)[1..] == a[1..] + b;
      assert (a + b)[0] == a[0];
      StripAppend(a[1..], b);
    } else {
      assert a + b == b;
    }
  }

  lemma {:induction false} StripBlanks(k: nat)
    ensures Strip(Blanks(k)) == ""
  {
    if k > 0 {
      assert Blanks(k)[1..] == Blanks(k - 1);
      StripBlanks(k - 1);
    }
  }

  lemma {:induction false} CountBlanks(k: nat, c: char)
    ensures Count(Blanks(k), c) == if c == ' ' then k else 0
  {
    if k > 0 {
      assert Blanks(k)[1..] == Blanks(k - 1);
      CountBlanks(k - 1, c);
    }
  }

  /**
   * Expanding a row writes each digit as that many blanks and copies every
   * other character: the expansion is as long as the row's width, holds no
   * digit, has one blank for each blank of the row and each unit of its
   * digits, and holds the row's other characters in their order and number.
   */
  lemma {:induction false} ExpandRowContents(row: string)
    ensures |ExpandRow(row)| == Width(row)
    ensures forall i :: 0 <= i < |ExpandRow(row)| ==> !IsDigit(ExpandRow(row)[i])
    ensures Count(ExpandRow(row), ' ') == Count(row, ' ') + DigitSum(row)
    ensures Strip(ExpandRow(row)) == Strip(row)
    ensures forall c :: c != ' ' && !IsDigit(c) ==> Count(ExpandRow(row), c) == Count(row, c)
  {
    if |row| > 0 {
      var head, tail := row[0], row[1..];
      assert row == [head] + tail;
      ExpandRowContents(tail);
      ExpandRowAppend([head], tail);
      assert ExpandRow([head]) == ExpandChar(head) by {
        assert [head][..0] == "";
      }
      StripAppend(ExpandChar(head), ExpandRow(tail));
      CountAppend(ExpandChar(head), ExpandRow(tail), ' ');
      if IsDigit(head) {
        StripBlanks(DigitValue(head));
        CountBlanks(DigitValue(head), ' ');
      }
      forall c | c != ' ' && !IsDigit(c)
        ensures Count(ExpandRow(row), c) == Count(row, c)
      {
        CountAppend(ExpandChar(head), ExpandRow(tail), c);
        if IsDigit(head) {
          CountBlanks(DigitValue(head), c);
        }
      }
    }
  }

  /** A row without digits is printed as it stands. */
  lemma {:induction false} ExpandRowPlain(row: string)
    requires forall i :: 0 <= i < |row| ==> !IsDigit(row[i])
    ensures ExpandRow(row) == row
  {
    if |row| > 0 {
      ExpandRowPlain(row[..|row| - 1]);
    }
  }

  // ---------------------------------------------------------------------
  // The board

  /** The line of the row with index i: the index, a bar, the expanded row, a bar. */
  function RowLine(i: nat, row: string): string
  {
    NatToString(i) + "|" + ExpandRow(row) + "|\n"
  }

  /** The lines of the rows, each with its index counting from 0. */
  function RowLines(rows: seq<string>): string
  {
    if |rows| == 0 then "" else RowLines(rows[..|rows| - 1]) + RowLine(|rows| - 1, rows[|rows| - 1])
  }

  /** The printed board of a placement field. */
  function Rendered(placement: string): string
  {
    Rule + RowLines(Split(placement, '/')) + Rule + Files
  }

  /** One more character of a row appends its expansion. */
  lemma ExpandRowStep(text: string, row: string, k: nat)
    requires k < |row|
    ensures text + ExpandRow(row[..k + 1]) == text + ExpandRow(row[..k]) + ExpandChar(row[k])
  {
    assert row[..k + 1][..k] == row[..k];
  }

  /** One more row appends its line, after whatever text comes before the lines. */
  lemma RowLinesStep(text: string, rows: seq<string>, i: nat)
    requires i < |rows|
    ensures text + RowLines(rows[..i + 1]) == text + RowLines(rows[..i]) + RowLine(i, rows[i])
  {
    assert rows[..i + 1][..i] == rows[..i];
  }

  /** The source's `(0..n).for_each(|_| sboard.push(' '))`: n blanks appended one at a time. */
  method PushBlanks(s: string, n: nat) returns (t: string)
    ensures t == s + Blanks(n)
  {
    t := s;
    for j := 0 to n
      invariant t == s + Blanks(j)
    {
      t := t + [' '];
      assert Blanks(j + 1) == Blanks(j) + [' '];
    }
  }

  /** The engine's board printer, building its text by appending, row by row and character by character. */
  method DisplayBoard(placement: string) returns (sboard: string)
    ensures sboard == Rendered(placement)
  {
    var split := Split(placement, '/');
    sboard := Rule;
    ghost var rule := sboard;
    for rowi := 0 to |split|
      invariant sboard == rule + RowLines(split[..rowi])
    {
      var row := split[rowi];
      ghost var before := sboard;
      sboard := sboard + NatToString(rowi) + "|";
      ghost var head := sboard;
      for k := 0 to |row|
        invariant sboard == head + ExpandRow(row[..k])
      {
        var c := row[k];
        ghost var start := sboard;
        if IsDigit(c) {
          sboard := PushBlanks(sboard, DigitValue(c));
        } else {
          sboard := sboard + [c];
        }
        assert sboard == start + ExpandChar(c);
        ExpandRowStep(head, row, k);
      }
      assert row[..|row|] == row;
      sboard := sboard + "|\n";
      assert sboard == before + RowLine(rowi, row) by {
        LineAppended(before, rowi, row);
      }
      assert sboard == rule + RowLines(split[..rowi + 1]) by {
        RowLinesStep(rule, split, rowi);
      }
    }
    assert split[..|split|] == split;
    sboard := sboard + Rule;
    sboard := sboard + Files;
  }

  /** The three appends of a row put its line after the text before them. */
  lemma LineAppended(before: string, i: nat, row: string)
    ensures before + NatToString(i) + "|" + ExpandRow(row) + "|\n" == before + RowLine(i, row)
  {
  }

  lemma RowLinesNewlines(rows: seq<string>)
    requires forall k, j :: 0 <= k < |rows| && 0 <= j < |rows[k]| ==> rows[k][j] != '\n'
    ensures Count(RowLines(rows), '\n') == |rows|
  {
    if |rows| > 0 {
      var last := rows[|rows| - 1];
      RowLinesNewlines(rows[..|rows| - 1]);
      ExpandRowContents(last);
      CountAbsent(last, '\n');
      CountAbsent(NatToString(|rows| - 1), '\n');
      CountAppend(RowLines(rows[..|rows| - 1]), RowLine(|rows| - 1, last), '\n');
      CountAppend(NatToString(|rows| - 1) + "|" + ExpandRow(last), "|\n", '\n');
      CountAppend(NatToString(|rows| - 1) + "|", ExpandRow(last), '\n');
      CountAppend(NatToString(|rows| - 1), "|", '\n');
    }
  }

  /** The board opens with the rule and closes with the rule and the file letters. */
  lemma RenderedFrame(placement: string)
    ensures |Rendered(placement)| >= |Rule + Files|
    ensures Rendered(placement)[..|Rule|] == Rule
    ensures Rendered(placement)[|Rendered(placement)| - |Rule + Files|..] == Rule + Files
  {
    var middle := RowLines(Split(placement, '/'));
    assert Rendered(placement) == Rule + (middle + (Rule + Files));
  }

  /**
   * For a placement field without line breaks, the rows part of the board,
   * between the two rules, has one line per row, that is one more than there
   * are '/'.
   */
  lemma RenderedLineCount(placement: string)
    requires forall i :: 0 <= i < |placement| ==> placement[i] != '\n'
    ensures Count(RowLines(Split(placement, '/')), '\n') == Count(placement, '/') + 1
  {
    SplitPieces(placement, '/');
    SplitCount(placement, '/');
    RowLinesNewlines(Split(placement, '/'));
  }

  // ---------------------------------------------------------------------
  // The file letters

  /** The letter of file f, 'A' for the first file. */
  function FileLetter(f: nat): char
    requires f < 8
  {
    (('A' as int) + f) as char
  }

  /** The file letters as evidently intended: the letter of file f under column f of the rows. */
  const IntendedFiles: string := "  ABCDEFGH "

  /** In the line of a row with a one-digit index, the square of file f is character 2 + f. */
  lemma RowLineColumn(i: nat, row: string, f: nat)
    requires i < 10 && f < |ExpandRow(row)|
    ensures RowLine(i, row)[2 + f] == ExpandRow(row)[f]
  {
    assert |NatToString(i)| == 1;
  }

  /** The printed letters skip file E and add an "I" under the last column. */
  lemma FileLabelAsWritten()
    ensures |Files| == 11
    ensures forall f :: 0 <= f < 4 ==> Files[2 + f] == FileLetter(f)
    ensures Files[2 + 4] == 'F' && FileLetter(4) == 'E'
    ensures Files[2 + 7] == 'I' && FileLetter(7) == 'H'
  {
  }

  /** The intended letters put the letter of every file under its column. */
  lemma FileLabelIntended(f: nat)
    requires f < 8
    ensures |IntendedFiles| == |Files|
    ensures IntendedFiles[2 + f] == FileLetter(f)
  {
  }
}
