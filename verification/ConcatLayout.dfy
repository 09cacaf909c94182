/** Concatenating the results of a line's operands into a rectangle of characters.

    A first pass fixes each operand's indentation, with the shuffle that keeps later operands near
    their column in the script, and measures; a second pass writes. */
module ConcatLayout {
  import Syntax
  import opened TemplateText

  /** An operand's value: text, or a block of lines set side by side with the rest.  A block may have had its
      text computed as well. */
  datatype Content = Text(s: string) | Block(lines: seq<string>, text: Syntax.Option<string>) | Undefined

  /** An operand: `indent` spaces before it and `width` characters for it in the script. */
  datatype Operand = Operand(content: Content, indent: nat, width: nat, extend: bool)

  // ---------------------------------------------------------------- measures

  function Widest(lines: seq<string>): nat {
    if lines == [] then 0
    else var w := Widest(lines[..|lines| - 1]); if |lines[|lines| - 1]| > w then |lines[|lines| - 1]| else w
  }

  lemma {:induction false} WidestBounds(lines: seq<string>)
    ensures forall l | l in lines :: |l| <= Widest(lines)
  {
    if lines != [] {
      WidestBounds(lines[..|lines| - 1]);
      assert lines == lines[..|lines| - 1] + [lines[|lines| - 1]];
    }
  }

  /** Length of the text behind the last newline. */
  function LastLineLength(s: string): (r: nat)
    ensures r <= |s| && ('\n' !in s ==> r == |s|)
  {
    if s == [] || s[|s| - 1] == '\n' then 0 else 1 + LastLineLength(s[..|s| - 1])
  }

  function HasNewline(c: Content): bool {
    c.Text? && '\n' in c.s
  }

  /** A text with a newline makes the counting start again, also the computed text of a block. */
  function Restarts(c: Content): bool {
    HasNewline(c) || (c.Block? && c.text.Some? && '\n' in c.text.value)
  }

  /** Columns an operand's content takes in the rectangle. */
  function Length(c: Content): nat {
    match c
    case Text(s) => |s|
    case Block(lines, _) => Widest(lines)
    case Undefined => 0
  }

  /** Columns it takes on the line it ends on. */
  function LastWidth(c: Content): nat {
    if c.Text? then LastLineLength(c.s) else Length(c)
  }

  function Height(c: Content): nat {
    if c.Block? then |c.lines| else 1
  }

  // ---------------------------------------------------------------- the shuffle

  /** How far the output is ahead of the script, and the width of the output line so far. */
  datatype Drift = Drift(cnt: int, totwidth: int)

  function Shuffled(op: Operand, shuffle: int, d: Drift): nat {
    if shuffle > 0 && op.indent >= shuffle then
      if op.indent - d.cnt >= shuffle then op.indent - d.cnt else shuffle
    else op.indent
  }

  function Drifted(op: Operand, shuffle: int, d: Drift): Drift {
    var opwidth := Shuffled(op, shuffle, d) + LastWidth(op.content);
    var totwidth := if HasNewline(op.content) then opwidth else d.totwidth + opwidth;
    Drift(if Restarts(op.content) then 0
          else if op.extend then totwidth
          else d.cnt + opwidth - (op.width + op.indent), totwidth)
  }

  function DriftAfter(ops: seq<Operand>, shuffle: int, n: nat): Drift
    requires n <= |ops|
  {
    if n == 0 then Drift(0, 0) else Drifted(ops[n - 1], shuffle, DriftAfter(ops, shuffle, n - 1))
  }

  function IndentOf(ops: seq<Operand>, shuffle: int, n: nat): nat
    requires n < |ops|
  {
    Shuffled(ops[n], shuffle, DriftAfter(ops, shuffle, n))
  }

  /** Output column behind the first `n` operands. */
  function Column(ops: seq<Operand>, shuffle: int, n: nat): nat
    requires n <= |ops|
  {
    if n == 0 then 0 else Column(ops, shuffle, n - 1) + IndentOf(ops, shuffle, n - 1) + Length(ops[n - 1].content)
  }

  /** Script column behind the first `n` operands. */
  function ScriptColumn(ops: seq<Operand>, n: nat): nat
    requires n <= |ops|
  {
    if n == 0 then 0 else ScriptColumn(ops, n - 1) + ops[n - 1].indent + ops[n - 1].width
  }

  predicate OneLine(op: Operand) {
    !Restarts(op.content) && !op.extend
  }

  /** While nothing breaks the line, the counter is the output column less the script column. */
  lemma {:induction false} DriftIsColumnDifference(ops: seq<Operand>, shuffle: int, n: nat)
    requires n <= |ops| && forall k | 0 <= k < n :: OneLine(ops[k])
    ensures DriftAfter(ops, shuffle, n).cnt == Column(ops, shuffle, n) - ScriptColumn(ops, n)
  {
    if n > 0 {
      DriftIsColumnDifference(ops, shuffle, n - 1);
      assert OneLine(ops[n - 1]);
    }
  }

  function Larger(a: int, b: int): int {
    if a < b then b else a
  }

  lemma ShuffledPlace(op: Operand, shuffle: int, d: Drift, column: int, script: int)
    requires d.cnt == column - script
    ensures column + Shuffled(op, shuffle, d)
         == if shuffle > 0 && op.indent >= shuffle then Larger(script + op.indent, column + shuffle)
            else column + op.indent
  {
  }

  /** Where an operand starts in the output: with a gap of at least `shuffle`, at its column in the script if that
      leaves a gap of `shuffle` behind what is there, else that far behind it; with a smaller gap, or without
      shuffling, at that gap. */
  lemma ShuffleRealigns(ops: seq<Operand>, shuffle: int, n: nat)
    requires n < |ops| && forall k | 0 <= k < n :: OneLine(ops[k])
    ensures var column, gap := Column(ops, shuffle, n), ops[n].indent;
            column + IndentOf(ops, shuffle, n)
            == if shuffle > 0 && gap >= shuffle then Larger(ScriptColumn(ops, n) + gap, column + shuffle)
               else column + gap
  {
    hide Column, ScriptColumn, DriftAfter, Shuffled;
    DriftIsColumnDifference(ops, shuffle, n);
    ShuffledPlace(ops[n], shuffle, DriftAfter(ops, shuffle, n), Column(ops, shuffle, n), ScriptColumn(ops, n));
  }

  /** Over operands that do not break the line the drift grows by what the output grows more than the script. */
  lemma {:induction false} DriftSince(ops: seq<Operand>, shuffle: int, b: nat, n: nat)
    requires b <= n <= |ops| && forall k | b <= k < n :: OneLine(ops[k])
    ensures DriftAfter(ops, shuffle, n).cnt - DriftAfter(ops, shuffle, b).cnt
         == (Column(ops, shuffle, n) - Column(ops, shuffle, b)) - (ScriptColumn(ops, n) - ScriptColumn(ops, b))
    decreases n
  {
    if b < n {
      DriftSince(ops, shuffle, b, n - 1);
      assert OneLine(ops[n - 1]);
    }
  }

  /** Behind a text with a newline the columns of output and script are counted from there. */
  lemma ShuffleRestarts(ops: seq<Operand>, shuffle: int, b: nat, n: nat)
    requires 0 < b <= n < |ops| && Restarts(ops[b - 1].content) && forall k | b <= k < n :: OneLine(ops[k])
    ensures var column := Column(ops, shuffle, n) - Column(ops, shuffle, b);
            var script, gap := ScriptColumn(ops, n) - ScriptColumn(ops, b), ops[n].indent;
            column + IndentOf(ops, shuffle, n)
            == if shuffle > 0 && gap >= shuffle then Larger(script + gap, column + shuffle) else column + gap
  {
    hide Column, ScriptColumn, Shuffled;
    DriftSince(ops, shuffle, b, n);
    ShuffledPlace(ops[n], shuffle, DriftAfter(ops, shuffle, n), Column(ops, shuffle, n) - Column(ops, shuffle, b),
                  ScriptColumn(ops, n) - ScriptColumn(ops, b));
  }

  /** Behind an operand that extends the line, with `line` the width of the output line so far, the script counts
      from there while the output counts from the start of its line. */
  lemma ShuffleExtends(ops: seq<Operand>, shuffle: int, b: nat, n: nat, m: nat)
    requires 0 < b <= n < |ops| && ops[b - 1].extend && !Restarts(ops[b - 1].content)
    requires forall k | b <= k < n :: OneLine(ops[k])
    requires m <= b && StartsLine(ops, m) && forall k | m <= k < b :: !HasNewline(ops[k].content)
    ensures var line := LineStart(ops, shuffle, m) + Column(ops, shuffle, b) - Column(ops, shuffle, m);
            var column := line + Column(ops, shuffle, n) - Column(ops, shuffle, b);
            var script, gap := ScriptColumn(ops, n) - ScriptColumn(ops, b), ops[n].indent;
            column + IndentOf(ops, shuffle, n)
            == if shuffle > 0 && gap >= shuffle then Larger(script + gap, column + shuffle) else column + gap
  {
    hide Column, ScriptColumn, Shuffled, LineStart;
    DriftSince(ops, shuffle, b, n);
    LineWidth(ops, shuffle, m, b);
    var line := LineStart(ops, shuffle, m) + Column(ops, shuffle, b) - Column(ops, shuffle, m);
    ShuffledPlace(ops[n], shuffle, DriftAfter(ops, shuffle, n),
                  line + Column(ops, shuffle, n) - Column(ops, shuffle, b),
                  ScriptColumn(ops, n) - ScriptColumn(ops, b));
  }

  /** The output starts a line at the first operand and behind a text with a newline. */
  predicate StartsLine(ops: seq<Operand>, m: nat)
    requires m <= |ops|
  {
    m == 0 || HasNewline(ops[m - 1].content)
  }

  /** What of the text before is on the line, with its indentation. */
  function LineStart(ops: seq<Operand>, shuffle: int, m: nat): nat
    requires m <= |ops|
  {
    if m == 0 then 0 else IndentOf(ops, shuffle, m - 1) + LastWidth(ops[m - 1].content)
  }

  lemma {:induction false} LineWidth(ops: seq<Operand>, shuffle: int, m: nat, n: nat)
    requires m <= n <= |ops| && StartsLine(ops, m) && forall k | m <= k < n :: !HasNewline(ops[k].content)
    ensures DriftAfter(ops, shuffle, n).totwidth
         == LineStart(ops, shuffle, m) + Column(ops, shuffle, n) - Column(ops, shuffle, m)
    decreases n
  {
    if m < n {
      LineWidth(ops, shuffle, m, n - 1);
      assert !HasNewline(ops[n - 1].content);
    }
  }

  /** The text behind the last newline, by position. */
  lemma {:induction false} LastLine(s: string)
    ensures var k := |s| - LastLineLength(s);
            (k == 0 || s[k - 1] == '\n') && forall i | k <= i < |s| :: s[i] != '\n'
  {
    if s != [] && s[|s| - 1] != '\n' {
      LastLine(s[..|s| - 1]);
      var k := |s| - LastLineLength(s);
      forall i | k <= i < |s| ensures s[i] != '\n' {
        assert i < |s| - 1 ==> s[..|s| - 1][i] == s[i];
      }
      assert k > 0 ==> s[..|s| - 1][k - 1] == s[k - 1];
    }
  }

  // ---------------------------------------------------------------- the rectangle

  function MaxHeight(ops: seq<Operand>, n: nat): nat
    requires n <= |ops|
  {
    if n == 0 then 0
    else var h := MaxHeight(ops, n - 1); if Height(ops[n - 1].content) > h then Height(ops[n - 1].content) else h
  }

  lemma {:induction false} MaxHeightBounds(ops: seq<Operand>, k: nat, n: nat)
    requires k < n <= |ops|
    ensures Height(ops[k].content) <= MaxHeight(ops, n)
    decreases n
  {
    if k < n - 1 { MaxHeightBounds(ops, k, n - 1); }
  }

  /** The rectangle is as high as its highest operand. */
  lemma {:induction false} HeightReached(ops: seq<Operand>, n: nat) returns (k: nat)
    requires 0 < n <= |ops| && MaxHeight(ops, n) > 0
    ensures k < n
    ensures MaxHeight(ops, n) == if ops[k].content.Block? then |ops[k].content.lines| else 1
    decreases n
  {
    if Height(ops[n - 1].content) == MaxHeight(ops, n) { k := n - 1; } else { k := HeightReached(ops, n - 1); }
  }

  /** What row `row` shows of an operand: blocks are padded to their width and below their last line. */
  function Shown(c: Content, row: nat): string {
    match c
    case Text(s) => s
    case Block(lines, _) =>
      if row < |lines| && |lines[row]| <= Widest(lines) then lines[row] + Blanks(Widest(lines) - |lines[row]|)
      else Blanks(Widest(lines))
    case Undefined => ""
  }

  function Row(ops: seq<Operand>, shuffle: int, n: nat, row: nat): string
    requires n <= |ops|
  {
    if n == 0 then ""
    else Row(ops, shuffle, n - 1, row) + Blanks(IndentOf(ops, shuffle, n - 1)) + Shown(ops[n - 1].content, row)
  }

  lemma {:induction false} RowLength(ops: seq<Operand>, shuffle: int, n: nat, row: nat)
    requires n <= |ops|
    ensures |Row(ops, shuffle, n, row)| == Column(ops, shuffle, n)
  {
    if n > 0 { RowLength(ops, shuffle, n - 1, row); }
  }

  /** The text of an operand in a row: a text in every row, of a block its line. */
  function LineOf(c: Content, row: nat): string {
    if c.Text? then c.s else if c.Block? && row < |c.lines| then c.lines[row] else ""
  }

  /** From column `from` to `end` the row has blanks up to `start`, then the text, then blanks. */
  ghost predicate Holds(r: string, text: string, from: nat, start: nat, end: nat) {
    && from <= start && start + |text| <= end <= |r|
    && forall i | from <= i < end :: r[i] == if start <= i < start + |text| then text[i - start] else ' '
  }

  lemma HoldsInLonger(short: string, long: string, text: string, from: nat, start: nat, end: nat)
    requires Holds(short, text, from, start, end) && short <= long
    ensures Holds(long, text, from, start, end)
  {
  }

  lemma LastHolds(ops: seq<Operand>, shuffle: int, k: nat, row: nat)
    requires k < |ops| && !ops[k].content.Undefined?
    ensures var from := Column(ops, shuffle, k);
            Holds(Row(ops, shuffle, k + 1, row), LineOf(ops[k].content, row), from, from + IndentOf(ops, shuffle, k),
                  Column(ops, shuffle, k + 1))
  {
    hide Shown, Blanks, IndentOf, Column, Row, Widest;
    NextColumn(ops, shuffle, k);
    RowLength(ops, shuffle, k, row);
    ShownText(ops[k].content, row, Row(ops, shuffle, k, row), IndentOf(ops, shuffle, k));
  }

  /** What stands in a row: behind the operands before it, an operand's indentation in blanks, and then its text or
      its line; blanks follow where a block's line is shorter than the widest, or missing. */
  lemma {:induction false} RowHolds(ops: seq<Operand>, shuffle: int, n: nat, row: nat, k: nat)
    requires k < n <= |ops| && !ops[k].content.Undefined?
    ensures var from := Column(ops, shuffle, k);
            Holds(Row(ops, shuffle, n, row), LineOf(ops[k].content, row), from, from + IndentOf(ops, shuffle, k),
                  Column(ops, shuffle, k + 1))
    decreases n
  {
    hide Shown, Blanks, IndentOf, Column, Holds, Widest;
    if k < n - 1 {
      RowHolds(ops, shuffle, n - 1, row, k);
      var from := Column(ops, shuffle, k);
      HoldsInLonger(Row(ops, shuffle, n - 1, row), Row(ops, shuffle, n, row), LineOf(ops[k].content, row), from,
                    from + IndentOf(ops, shuffle, k), Column(ops, shuffle, k + 1));
    } else {
      LastHolds(ops, shuffle, k, row);
    }
  }

  /** Some line is as long as the widest. */
  lemma {:induction false} WidestReached(lines: seq<string>)
    ensures (lines == [] && Widest(lines) == 0) || exists i | 0 <= i < |lines| :: |lines[i]| == Widest(lines)
  {
    if lines != [] {
      var front := lines[..|lines| - 1];
      WidestReached(front);
      if |lines[|lines| - 1]| <= Widest(front) && front != [] {
        var i :| 0 <= i < |front| && |front[i]| == Widest(front);
        assert lines[i] == front[i];
      } else {
        assert |lines[|lines| - 1]| == Widest(lines);
      }
    }
  }

  lemma {:induction false} ColumnGrows(ops: seq<Operand>, shuffle: int, k: nat, n: nat)
    requires k <= n <= |ops|
    ensures Column(ops, shuffle, k) <= Column(ops, shuffle, n)
    decreases n
  {
    if k < n { ColumnGrows(ops, shuffle, k, n - 1); }
  }

  lemma NoColumn(ops: seq<Operand>, shuffle: int)
    ensures Column(ops, shuffle, 0) == 0 && forall r: nat :: Row(ops, shuffle, 0, r) == ""
  {
  }

  lemma NextColumn(ops: seq<Operand>, shuffle: int, n: nat)
    requires n < |ops|
    ensures var indent, c := IndentOf(ops, shuffle, n), ops[n].content;
            && Column(ops, shuffle, n + 1) == Column(ops, shuffle, n) + indent + Length(c)
            && forall r: nat :: Row(ops, shuffle, n + 1, r) == Row(ops, shuffle, n, r) + Blanks(indent) + Shown(c, r)
  {
  }

  predicate AllDefined(ops: seq<Operand>) {
    forall k | 0 <= k < |ops| :: !ops[k].content.Undefined?
  }

  /** The first pass: indentations, number of lines and line length; stops at an undefined operand. */
  method Measure(ops: seq<Operand>, shuffle: int) returns (ok: bool, indents: seq<nat>, totlines: nat,
      totlinelength: nat)
    ensures ok == AllDefined(ops)
    ensures ok ==> |indents| == |ops| && forall k | 0 <= k < |ops| :: indents[k] == IndentOf(ops, shuffle, k)
    ensures ok ==> totlines == MaxHeight(ops, |ops|) && totlinelength == Column(ops, shuffle, |ops|)
  {
    ok, indents, totlines, totlinelength := true, [], 0, 0;
    var totwidth, cnt := 0, 0;
    for i := 0 to |ops|
      invariant forall k | 0 <= k < i :: !ops[k].content.Undefined?
      invariant Drift(cnt, totwidth) == DriftAfter(ops, shuffle, i)
      invariant |indents| == i && forall k | 0 <= k < i :: indents[k] == IndentOf(ops, shuffle, k)
      invariant totlines == MaxHeight(ops, i) && totlinelength == Column(ops, shuffle, i)
    {
      if ops[i].content.Undefined? {
        ok := false;
        return;
      }
      var indent, oplines, length;
      indent, oplines, length, totwidth, cnt := MeasureOperand(ops[i], shuffle, totwidth, cnt);
      if oplines > totlines { totlines := oplines; }
      totlinelength := totlinelength + length;
      indents := indents + [indent];
    }
  }

  /** One operand in the first pass. */
  method MeasureOperand(op: Operand, shuffle: int, totwidth: int, cnt: int)
    returns (indent: nat, oplines: nat, length: nat, totwidth': int, cnt': int)
    requires !op.content.Undefined?
    ensures indent == Shuffled(op, shuffle, Drift(cnt, totwidth))
              && Drift(cnt', totwidth') == Drifted(op, shuffle, Drift(cnt, totwidth))
    ensures oplines == Height(op.content) && length == indent + Length(op.content)
  {
    indent := op.indent;
    if shuffle > 0 && indent >= shuffle {
      indent := if indent - cnt >= shuffle then indent - cnt else shuffle;
    }
    var opwidth;
    if op.content.Block? {
      oplines := |op.content.lines|;
      var w := MeasureBlock(op.content.lines);
      opwidth := w + indent;
      totwidth', length := totwidth + opwidth, opwidth;
    } else {
      oplines, opwidth := 1, indent + LastLineLength(op.content.s);
      totwidth' := if '\n' in op.content.s then opwidth else totwidth + opwidth;
      length := indent + |op.content.s|;
    }
    if Restarts(op.content) { cnt' := 0; }
    else if op.extend { cnt' := totwidth'; }
    else { cnt' := cnt + opwidth - (op.width + op.indent); }
  }

  method MeasureBlock(lines: seq<string>) returns (w: nat)
    ensures w == Widest(lines)
  {
    w := 0;
    for i := 0 to |lines|
      invariant w == Widest(lines[..i])
    {
      assert lines[..i + 1][..i] == lines[..i];
      if |lines[i]| > w { w := |lines[i]|; }
    }
    assert lines[..|lines|] == lines;
  }

  /** Row `row` of the rectangle starts with `s` and is blank behind it. */
  ghost predicate Starts(rc: array2<char>, row: nat, s: string)
    reads rc
    requires row < rc.Length0
  {
    && |s| <= rc.Length1
    && forall c | 0 <= c < rc.Length1 :: rc[row, c] == if c < |s| then s[c] else ' '
  }

  /** memcpy of `text` to column `col` of a row. */
  method CopyTo(rc: array2<char>, row: nat, col: nat, text: string)
    requires row < rc.Length0 && col + |text| <= rc.Length1
    modifies rc
    ensures forall r, c | 0 <= r < rc.Length0 && 0 <= c < rc.Length1 ::
              rc[r, c] == if r == row && col <= c < col + |text| then text[c - col] else old(rc[r, c])
  {
    for k := 0 to |text|
      invariant forall r, c | 0 <= r < rc.Length0 && 0 <= c < rc.Length1 ::
                  rc[r, c] == if r == row && col <= c < col + k then text[c - col] else old(rc[r, c])
    {
      rc[row, col + k] := text[k];
    }
  }

  /** The second pass for one operand, at column `run`. */
  method WriteOperand(rc: array2<char>, ghost rows: seq<string>, c: Content, run: nat, indent: nat)
    requires !c.Undefined? && |rows| == rc.Length0 && Height(c) <= rc.Length0
    requires run + indent + Length(c) <= rc.Length1
    requires forall r | 0 <= r < rc.Length0 :: |rows[r]| == run && Starts(rc, r, rows[r])
    modifies rc
    ensures forall r | 0 <= r < rc.Length0 :: Starts(rc, r, rows[r] + Blanks(indent) + Shown(c, r))
  {
    hide Starts, Shown, Blanks, Widest;
    var height := if c.Block? then |c.lines| else rc.Length0;
    for r := 0 to height
      invariant forall k | 0 <= k < r :: Starts(rc, k, rows[k] + Blanks(indent) + Shown(c, k))
      invariant forall k | r <= k < rc.Length0 :: Starts(rc, k, rows[k])
    {
      ShownText(c, r, rows[r], indent);
      WriteRow(rc, r, rows[r], run + indent, if c.Block? then c.lines[r]
          else c.s, rows[r] + Blanks(indent) + Shown(c, r));
    }
    forall r | height <= r < rc.Length0 ensures Starts(rc, r, rows[r] + Blanks(indent) + Shown(c, r)) {
      ShownText(c, r, rows[r], indent);
      BlankBehind(rc, r, rows[r], rows[r] + Blanks(indent) + Shown(c, r));
    }
  }

  /** The text of row `r`, if there is one, in the row it is to make. */
  lemma ShownText(c: Content, r: nat, before: string, indent: nat)
    requires !c.Undefined?
    ensures var after, col := before + Blanks(indent) + Shown(c, r), |before| + indent;
            var text := if c.Text? then c.s else if r < |c.lines| then c.lines[r] else "";
            && col + |text| <= |after| == col + Length(c)
            && forall i | 0 <= i < |after| ::
                 after[i] == if i < |before| then before[i] else if col <= i < col + |text| then text[i - col] else ' '
  {
    if c.Block? { WidestBounds(c.lines); }
  }

  /** Blanks may be counted to what has been written. */
  lemma BlankBehind(rc: array2<char>, r: nat, before: string, after: string)
    requires r < rc.Length0 && Starts(rc, r, before)
    requires |before| <= |after| <= rc.Length1 && (forall i | 0 <= i < |before| :: after[i] == before[i])
    requires forall i | |before| <= i < |after| :: after[i] == ' '
    ensures Starts(rc, r, after)
  {
  }

  /** Writing a text at column `col` of a row; all other rows stay. */
  method WriteRow(rc: array2<char>, r: nat, ghost before: string, col: nat, text: string, ghost after: string)
    requires r < rc.Length0 && Starts(rc, r, before) && |before| <= col && col + |text| <= |after| <= rc.Length1
    requires forall i | 0 <= i < |after| ::
               after[i] == if i < |before| then before[i] else if col <= i < col + |text| then text[i - col] else ' '
    modifies rc
    ensures Starts(rc, r, after)
    ensures forall k, s | 0 <= k < rc.Length0 && k != r && old(Starts(rc, k, s)) :: Starts(rc, k, s)
  {
    CopyTo(rc, r, col, text);
  }

  /** concatenate_results: fails exactly on an undefined operand; otherwise every row of the
      rectangle is the operands' rows side by side, and what the second pass has written is as
      wide as the first pass measured. */
  method Concatenate(ops: seq<Operand>, shuffle: int) returns (ok: bool, rc: array2<char>)
    ensures ok == AllDefined(ops)
    ensures ok ==> rc.Length0 == MaxHeight(ops, |ops|) && rc.Length1 == Column(ops, shuffle, |ops|)
    ensures ok ==> forall r | 0 <= r < rc.Length0 :: Starts(rc, r, Row(ops, shuffle, |ops|, r))
  {
    hide Column, Row, MaxHeight, IndentOf, Shown;
    NoColumn(ops, shuffle);
    var indents, totlines, totlinelength;
    ok, indents, totlines, totlinelength := Measure(ops, shuffle);
    if !ok {
      rc := new char[0, 0];
      return;
    }
    rc := new char[totlines, totlinelength]((_, _) => ' ');
    var run := 0;
    for i := 0 to |ops|
      invariant fresh(rc) && run == Column(ops, shuffle, i)
      invariant forall r | 0 <= r < rc.Length0 :: Starts(rc, r, Row(ops, shuffle, i, r))
    {
      ghost var rows := seq(totlines, r requires 0 <= r => Row(ops, shuffle, i, r));
      forall r | 0 <= r < totlines ensures |rows[r]| == run { RowLength(ops, shuffle, i, r); }
      ColumnGrows(ops, shuffle, i + 1, |ops|);
      MaxHeightBounds(ops, i, |ops|);
      NextColumn(ops, shuffle, i);
      WriteOperand(rc, rows, ops[i].content, run, indents[i]);
      ghost var n := i + 1;
      forall r | 0 <= r < rc.Length0 ensures Starts(rc, r, Row(ops, shuffle, n, r)) {
        assert Row(ops, shuffle, n, r) == rows[r] + Blanks(indents[i]) + Shown(ops[i].content, r);
      }
      var w := 0;
      match ops[i].content {
        case Block(lines, _) => w := MeasureBlock(lines);
        case Text(s) => w := |s|;
        case Undefined => assert false;
      }
      run := run + indents[i] + w;
    }
    assert run == totlinelength;
  }
}
