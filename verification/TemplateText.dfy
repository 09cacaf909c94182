/** Template lines: cutting a line into text, substitutions and a line extension, and turning the
    text pieces, with their escapes, into output. */
module TemplateText {

  const NUL: char := 0 as char

  /** The character at `i`, or the terminator behind the end of the line. */
  function At(line: string, i: nat): char {
    if i < |line| then line[i] else NUL
  }

  // ---------------------------------------------------------------- the simple definition

  /** Position behind the run of spaces that starts at `i`. */
  function SpacesEnd(line: string, i: nat): (r: nat)
    ensures i <= r && (i <= |line| ==> r <= |line|) && At(line, r) != ' '
    ensures forall k | i <= k < r :: At(line, k) == ' '
    decreases |line| - i
  {
    if At(line, i) == ' ' then SpacesEnd(line, i + 1) else i
  }

  /** A backslash at `i` extends the line if only spaces follow it. */
  predicate Extends(line: string, i: nat) {
    At(line, i) == '\\' && (At(line, SpacesEnd(line, i + 1)) == NUL || At(line, SpacesEnd(line, i + 1)) == '\n')
  }

  predicate Substitutes(line: string, i: nat) {
    At(line, i) == '$' && At(line, i + 1) == '('
  }

  /** Position behind the text that starts at `i`: text stops at a space, a substitution, a line
      extension or the end of the line; a backslash takes the character behind it along. */
  function TextEnd(line: string, i: nat): (r: nat)
    requires NUL !in line
    ensures i <= r && (i <= |line| ==> r <= |line|)
    decreases |line| - i
  {
    if i >= |line| || Extends(line, i) || Substitutes(line, i) || line[i] == ' ' then i
    else if line[i] == '\\' then
      assert At(line, i + 1) != NUL;
      TextEnd(line, i + 2)
    else TextEnd(line, i + 1)
  }

  /** Every backslash is followed by a character that it escapes. */
  predicate Escaped(s: string) {
    s == [] || (if s[0] == '\\' then |s| >= 2 && Escaped(s[2..]) else Escaped(s[1..]))
  }

  lemma {:induction false} TextIsEscaped(line: string, i: nat)
    requires NUL !in line && i <= |line|
    ensures Escaped(line[i..TextEnd(line, i)])
    decreases |line| - i
  {
    var e := TextEnd(line, i);
    if i < e {
      var n := if line[i] == '\\' then 2 else 1;
      TextIsEscaped(line, i + n);
      assert line[i..e][n..] == line[i + n..e];
    }
  }

  // ---------------------------------------------------------------- the lexer

  datatype Event = TextEvent | SubstituteEvent | ExtendEvent | EndOfLineEvent | OtherEvent

  /** A token: the spaces before it, where it starts, its width, and where the next one starts. */
  datatype Token = Token(event: Event, spaces: nat, start: nat, width: nat, next: nat)

  /** What get_template_token returns from position `p`. */
  function TokenAt(line: string, p: nat): Token
    requires NUL !in line
  {
    var start := SpacesEnd(line, p);
    var e := TextEnd(line, start);
    if e > start then Token(TextEvent, start - p, start, e - start, e)
    else if Substitutes(line, start) then Token(SubstituteEvent, start - p, start, 2, start + 2)
    else if Extends(line, start) then Token(ExtendEvent, start - p, start, 1, SpacesEnd(line, start + 1))
    else if start >= |line| then Token(EndOfLineEvent, start - p, start, 0, start)
    else Token(OtherEvent, start - p, start, 0, start)
  }

  lemma TextStep(line: string, i: nat)
    requires NUL !in line && i < |line|
    ensures var stops := Extends(line, i) || Substitutes(line, i) || line[i] == ' ';
            && (stops ==> TextEnd(line, i) == i)
            && (!stops && line[i] == '\\' ==> i + 1 < |line| && TextEnd(line, i) == TextEnd(line, i + 2))
            && (!stops && line[i] != '\\' ==> TextEnd(line, i) == TextEnd(line, i + 1))
  {
  }

  lemma SpacesStep(line: string, i: nat)
    ensures SpacesEnd(line, i) == if At(line, i) == ' ' then SpacesEnd(line, i + 1) else i
  {
  }

  /** generate_text_event: the loop stops one behind the terminator and steps back. */
  method ScanText(line: string, start: nat) returns (ptr: nat, width: nat, last: char)
    requires NUL !in line && start <= |line|
    ensures ptr == TextEnd(line, start) && width == ptr - start && last == At(line, ptr)
  {
    hide TextEnd, SpacesEnd;
    ptr, width := start, 0;
    last := At(line, ptr);
    ptr := ptr + 1;
    while last != NUL
      invariant 1 <= ptr && last == At(line, ptr - 1) && width == ptr - 1 - start && start <= ptr - 1 <= |line|
      invariant TextEnd(line, ptr - 1) == TextEnd(line, start)
      decreases |line| + 1 - ptr
    {
      TextStep(line, ptr - 1);
      if last == '\\' {
        var k := ptr;
        while At(line, k) == ' '
          invariant ptr <= k && SpacesEnd(line, k) == SpacesEnd(line, ptr)
          decreases |line| - k
        {
          SpacesStep(line, k);
          k := k + 1;
        }
        SpacesStep(line, k);
        if At(line, k) == NUL || At(line, k) == '\n' {
          break;
        }
        ptr, width := ptr + 1, width + 2;
      } else if (last == '$' && At(line, ptr) == '(') || last == ' ' {
        break;
      } else {
        width := width + 1;
      }
      last := At(line, ptr);
      ptr := ptr + 1;
    }
    ptr := ptr - 1;
    if last == NUL { TextStops(line, ptr); }
  }

  lemma TextStops(line: string, i: nat)
    requires NUL !in line && i >= |line|
    ensures TextEnd(line, i) == i
  {
  }

  /** get_template_token */
  method GetTemplateToken(line: string, p: nat) returns (t: Token)
    requires NUL !in line && p <= |line|
    ensures t == TokenAt(line, p)
  {
    var start := p;
    while At(line, start) == ' '
      invariant p <= start <= |line| && SpacesEnd(line, start) == SpacesEnd(line, p)
      decreases |line| - start
    {
      start := start + 1;
    }
    t := Token(OtherEvent, start - p, start, 0, start);
    var ptr, width, last := ScanText(line, start);
    if width > 0 { return Token(TextEvent, start - p, start, width, ptr); }
    if At(line, ptr) == '$' && At(line, ptr + 1) == '(' {
      return Token(SubstituteEvent, start - p, ptr, 2, ptr + 2);
    }
    if last == '\\' {
      var k := ptr + 1;
      while At(line, k) == ' '
        invariant ptr < k && SpacesEnd(line, k) == SpacesEnd(line, ptr + 1)
        decreases |line| - k
      {
        k := k + 1;
      }
      if At(line, k) == NUL || At(line, k) == '\n' {
        return Token(ExtendEvent, start - p, ptr, 1, k);
      }
    }
    if last == NUL || last == '\n' { return Token(EndOfLineEvent, start - p, start, 0, ptr); }
  }

  function Blanks(n: nat): string {
    seq(n, _ => ' ')
  }

  /** What a token consists of: the spaces before it and the characters of its width. */
  ghost function Spelling(line: string, t: Token): string
    requires t.start + t.width <= |line|
  {
    Blanks(t.spaces) + line[t.start..t.start + t.width]
  }

  /** The characters between a token and the next: the blanks behind a line extension. */
  function Dropped(t: Token): int {
    t.next - t.start - t.width
  }

  lemma AreBlanks(line: string, i: nat)
    requires i <= |line|
    ensures line[i..SpacesEnd(line, i)] == Blanks(SpacesEnd(line, i) - i)
  {
    var e := SpacesEnd(line, i);
    forall k | 0 <= k < e - i ensures line[i..e][k] == ' ' {
      assert At(line, i + k) == ' ';
    }
  }

  /** The positions of a token. */
  lemma TokenShape(line: string, p: nat)
    requires NUL !in line && p <= |line|
    ensures var t, start := TokenAt(line, p), SpacesEnd(line, p);
            && t.event != OtherEvent && t.start == start && t.spaces == start - p && p <= start
            && (t.event == EndOfLineEvent <==> start == |line|)
            && t.start + t.width <= t.next <= |line| && (t.event != EndOfLineEvent ==> p < t.next)
            && (t.event == EndOfLineEvent ==> t.next == |line|)
            && (t.event == TextEvent ==> t.next == TextEnd(line, start))
            && (t.event == SubstituteEvent ==> t.width == 2 && Substitutes(line, start))
            && (t.event == ExtendEvent ==> Extends(line, start))
            && if t.event == ExtendEvent then t.width == 1 && t.next == SpacesEnd(line, start + 1)
               else t.next == t.start + t.width
  {
    TextStops(line, |line|);
    if SpacesEnd(line, p) < |line| { TextStep(line, SpacesEnd(line, p)); }
  }

  /** Every token is recognised, takes the line further unless the line has ended, and together with
      the blanks dropped behind it spells exactly what it passed over; only a line extension drops any;
      text pieces are well escaped. */
  lemma TokenCovers(line: string, p: nat)
    requires NUL !in line && p <= |line|
    ensures var t := TokenAt(line, p);
            && t.event != OtherEvent
            && (t.event == EndOfLineEvent <==> SpacesEnd(line, p) == |line|)
            && p <= t.start && t.start + t.width <= t.next <= |line| && (t.event != EndOfLineEvent ==> p < t.next)
            && (t.event == EndOfLineEvent ==> t.next == |line|)
            && Spelling(line, t) + Blanks(Dropped(t)) == line[p..t.next]
            && (Dropped(t) > 0 ==> t.event == ExtendEvent)
            && (t.event == TextEvent ==> Escaped(line[t.start..t.next]))
  {
    hide Escaped, TokenAt, TextEnd;
    var t, start := TokenAt(line, p), SpacesEnd(line, p);
    TokenShape(line, p);
    TextIsEscaped(line, start);
    AreBlanks(line, p);
    if t.event == ExtendEvent {
      AreBlanks(line, start + 1);
    }
    Cut(line, p, start, start + t.width, t.next);
  }

  lemma Cut(line: string, p: nat, s: nat, m: nat, e: nat)
    requires p <= s <= m <= e <= |line|
    ensures line[p..e] == line[p..s] + line[s..m] + line[m..e]
  {
  }

  // ---------------------------------------------------------------- which lines lose blanks

  /** The backslashes directly before position `k`. */
  function RunBefore(line: string, k: nat): nat
    requires k <= |line|
  {
    if k > 0 && line[k - 1] == '\\' then 1 + RunBefore(line, k - 1) else 0
  }

  /** The line has at `k` a backslash that is not itself escaped, with nothing but blanks behind it, and
      some. */
  predicate LosesAt(line: string, k: nat) {
    k < |line| && Extends(line, k) && RunBefore(line, k) % 2 == 0 && At(line, k + 1) == ' '
  }

  /** A backslash, blank or dollar sign where the lexer looks is not escaped. */
  predicate InStep(line: string, i: nat)
    requires i <= |line|
  {
    At(line, i) == '\\' || At(line, i) == ' ' || At(line, i) == '$' ==> RunBefore(line, i) % 2 == 0
  }

  lemma {:induction false} TextKeepsStep(line: string, i: nat)
    requires NUL !in line && i <= |line| && InStep(line, i)
    ensures InStep(line, TextEnd(line, i))
    decreases |line| - i
  {
    if i < |line| {
      TextStep(line, i);
      if TextEnd(line, i) != i {
        TextKeepsStep(line, if line[i] == '\\' then i + 2 else i + 1);
      }
    }
  }

  /** No unescaped backslash inside a text is a line extension. */
  lemma {:induction false} TextLosesNothing(line: string, i: nat, k: nat)
    requires NUL !in line && i <= k < TextEnd(line, i) && i <= |line| && InStep(line, i)
    ensures !LosesAt(line, k)
    decreases |line| - i
  {
    TextStep(line, i);
    if line[i] == '\\' {
      assert RunBefore(line, i + 1) == 1 + RunBefore(line, i);
      if k >= i + 2 { TextLosesNothing(line, i + 2, k); }
    } else if k > i {
      TextLosesNothing(line, i + 1, k);
    }
  }

  lemma SpacesKeepStep(line: string, i: nat)
    requires i <= |line| && InStep(line, i)
    ensures InStep(line, SpacesEnd(line, i))
    ensures forall k | i <= k < SpacesEnd(line, i) :: !LosesAt(line, k)
  {
    var e := SpacesEnd(line, i);
    if e > i { assert At(line, e - 1) == ' '; }
    forall k | i <= k < e ensures !LosesAt(line, k) { assert At(line, k) == ' '; }
  }

  /** A token drops blanks if and only if the line loses some where the token stands. */
  lemma TokenLoses(line: string, p: nat)
    requires NUL !in line && p <= |line| && InStep(line, p)
    ensures var t := TokenAt(line, p);
            && t.next <= |line| && InStep(line, t.next)
            && (Dropped(t) != 0 <==> exists k | p <= k < t.next :: LosesAt(line, k))
  {
    TokenShape(line, p);
    hide RunBefore, TextEnd, TokenAt, LosesAt, SpacesEnd, Extends, Substitutes, InStep;
    var t, start := TokenAt(line, p), SpacesEnd(line, p);
    SpacesKeepStep(line, p);
    TextKeepsStep(line, start);
    match t.event {
      case TextEvent =>
        forall k | start <= k < t.next ensures !LosesAt(line, k) { TextLosesNothing(line, start, k); }
      case SubstituteEvent => AfterBracket(line, start);
      case ExtendEvent => ExtensionLoses(line, start);
      case EndOfLineEvent => AtEnd(line);
      case OtherEvent =>
    }
  }

  lemma AtEnd(line: string)
    ensures InStep(line, |line|)
  {
  }

  lemma AfterBracket(line: string, i: nat)
    requires NUL !in line && Substitutes(line, i)
    ensures i + 2 <= |line| && InStep(line, i + 2) && forall k | i <= k < i + 2 :: !LosesAt(line, k)
  {
    assert i + 1 < |line|;
  }

  lemma ExtensionLoses(line: string, i: nat)
    requires NUL !in line && i < |line| && Extends(line, i) && InStep(line, i)
    ensures var e := SpacesEnd(line, i + 1);
            && e <= |line| && InStep(line, e)
            && (e > i + 1 <==> exists k | i <= k < e :: LosesAt(line, k))
  {
    var e := SpacesEnd(line, i + 1);
    if e > i + 1 {
      assert At(line, i + 1) == ' ';
      assert LosesAt(line, i);
    }
    forall k | i < k < e ensures !LosesAt(line, k) { assert At(line, k) == ' '; }
  }

  // ---------------------------------------------------------------- where substitutions and extensions are

  /** A dollar sign that is not escaped, with an opening bracket behind it. */
  predicate OpensAt(line: string, k: nat) {
    k + 1 < |line| && line[k] == '$' && line[k + 1] == '(' && RunBefore(line, k) % 2 == 0
  }

  /** A blank that is not escaped. */
  predicate BlankAt(line: string, k: nat) {
    k < |line| && line[k] == ' ' && RunBefore(line, k) % 2 == 0
  }

  /** Inside a text nothing opens a substitution, and every blank is escaped. */
  lemma {:induction false} TextIsPlain(line: string, i: nat, k: nat)
    requires NUL !in line && i <= k < TextEnd(line, i) && i <= |line| && InStep(line, i)
    ensures !OpensAt(line, k) && !BlankAt(line, k)
    decreases |line| - i
  {
    TextStep(line, i);
    if line[i] == '\\' {
      assert RunBefore(line, i + 1) == 1 + RunBefore(line, i);
      if k >= i + 2 { TextIsPlain(line, i + 2, k); }
    } else if k > i {
      TextIsPlain(line, i + 1, k);
    }
  }

  /** A token is a substitution exactly where one opens; no token but a substitution has one in it, and text has no
      blank that is not escaped. */
  lemma {:induction false} TokenFinds(line: string, p: nat)
    requires NUL !in line && p <= |line| && InStep(line, p)
    ensures var t := TokenAt(line, p);
            && t.next <= |line| && (t.event == SubstituteEvent ==> t.start < t.next)
            && (forall k: nat | p <= k < t.next :: OpensAt(line, k) <==> t.event == SubstituteEvent && k == t.start)
            && (forall k: nat | t.start <= k < t.next && t.event == TextEvent :: !BlankAt(line, k))
  {
    TokenCovers(line, p);
    hide Escaped, RunBefore, TextEnd;
    var t, start := TokenAt(line, p), SpacesEnd(line, p);
    SpacesKeepStep(line, p);
    forall k | p <= k < start ensures !OpensAt(line, k) { assert At(line, k) == ' '; }
    match t.event {
      case TextEvent =>
        forall k: nat | start <= k < t.next ensures !OpensAt(line, k) && !BlankAt(line, k) {
          TextIsPlain(line, start, k);
        }
      case ExtendEvent =>
        forall k | start < k < t.next ensures !OpensAt(line, k) { assert At(line, k) == ' '; }
      case SubstituteEvent =>
      case EndOfLineEvent =>
      case OtherEvent =>
    }
  }

  /** A line is extended by a backslash behind which there are only blanks, to its end or a newline. */
  lemma {:induction false} ExtendsMeans(line: string, i: nat)
    requires NUL !in line
    ensures Extends(line, i) <==>
            && i < |line| && line[i] == '\\'
            && exists e: nat | i < e <= |line| :: BlankBetween(line, i, e) && (e < |line| ==> line[e] == '\n')
  {
    if i < |line| {
      var e := SpacesEnd(line, i + 1);
      assert BlankBetween(line, i, e) by {
        forall k: nat | i < k < e ensures line[k] == ' ' { assert At(line, k) == ' '; }
      }
      forall f: nat | i < f <= |line| && BlankBetween(line, i, f) && (f < |line| ==> line[f] == '\n') ensures f == e {
        assert f < e ==> At(line, f) == ' ';
      }
    }
  }

  predicate BlankBetween(line: string, i: nat, e: nat)
    requires e <= |line|
  {
    forall k: nat | i < k < e :: line[k] == ' '
  }

  /** One of the tokens is a substitution that starts at `k`. */
  ghost predicate FoundAt(ts: seq<Token>, k: nat) {
    exists j | 0 <= j < |ts| :: ts[j].event == SubstituteEvent && ts[j].start == k
  }

  // ---------------------------------------------------------------- whole lines

  ghost predicate Inside(line: string, ts: seq<Token>) {
    forall k | 0 <= k < |ts| :: ts[k].start + ts[k].width <= ts[k].next <= |line|
  }

  ghost function Spell(line: string, ts: seq<Token>): string
    requires Inside(line, ts)
  {
    if ts == [] then [] else Spell(line, ts[..|ts| - 1]) + Spelling(line, ts[|ts| - 1])
  }

  /** The spelling with the dropped blanks put back. */
  ghost function Restored(line: string, ts: seq<Token>): string
    requires Inside(line, ts)
  {
    if ts == [] then []
    else
      var t := ts[|ts| - 1];
      Restored(line, ts[..|ts| - 1]) + (Spelling(line, t) + Blanks(Dropped(t)))
  }

  /** The tokens found by position `p`. */
  ghost predicate Lexed(line: string, ts: seq<Token>, p: nat) {
    && p <= |line| && Inside(line, ts) && InStep(line, p)
    && Restored(line, ts) == line[..p] && |Spell(line, ts)| <= p
    && (Spell(line, ts) == line[..p] <==> forall k | 0 <= k < p :: !LosesAt(line, k))
    && (|Spell(line, ts)| == p <==> forall k | 0 <= k < p :: !LosesAt(line, k))
    && (forall k | 0 <= k < |ts| ::
          ts[k].event != OtherEvent && (ts[k].event == TextEvent ==> Escaped(line[ts[k].start..ts[k].next])))
    && (forall k: nat | k < p :: OpensAt(line, k) <==> FoundAt(ts, k))
    && (forall j | 0 <= j < |ts| && ts[j].event == SubstituteEvent :: ts[j].start < p)
  }

  lemma {:induction false} FindsMore(line: string, ts: seq<Token>, p: nat)
    requires NUL !in line && Lexed(line, ts, p)
    ensures var t := TokenAt(line, p);
            && p <= t.next <= |line|
            && (forall k: nat | k < t.next :: OpensAt(line, k) <==> FoundAt(ts + [t], k))
            && (forall j | 0 <= j < |ts + [t]| && (ts + [t])[j].event == SubstituteEvent ::
                  (ts + [t])[j].start < t.next)
  {
    hide Escaped, LosesAt, RunBefore, TokenAt, Spell, Restored, OpensAt;
    var t := TokenAt(line, p);
    var more := ts + [t];
    TokenCovers(line, p);
    TokenFinds(line, p);
    forall k: nat | k < t.next
      ensures FoundAt(more, k) <==> FoundAt(ts, k) || (t.event == SubstituteEvent && t.start == k)
    {
      assert more[|ts|] == t;
      if j :| 0 <= j < |ts| && ts[j].event == SubstituteEvent && ts[j].start == k { assert more[j] == ts[j]; }
    }
  }

  lemma SpellMore(line: string, ts: seq<Token>, t: Token)
    requires Inside(line, ts) && t.start + t.width <= t.next <= |line|
    ensures Inside(line, ts + [t])
    ensures Spell(line, ts + [t]) == Spell(line, ts) + Spelling(line, t)
    ensures Restored(line, ts + [t]) == Restored(line, ts) + (Spelling(line, t) + Blanks(Dropped(t)))
  {
    assert (ts + [t])[..|ts|] == ts;
  }

  lemma LexedMore(line: string, ts: seq<Token>, p: nat)
    requires NUL !in line && Lexed(line, ts, p)
    ensures Lexed(line, ts + [TokenAt(line, p)], TokenAt(line, p).next)
  {
    hide Escaped, LosesAt, RunBefore, TokenAt, Spell, Restored;
    var t := TokenAt(line, p);
    var ts' := ts + [t];
    TokenCovers(line, p);
    TokenLoses(line, p);
    SpellMore(line, ts, t);
    FindsMore(line, ts, p);
    hide OpensAt, FoundAt;
    assert line[..p] + line[p..t.next] == line[..t.next];
    assert |Spell(line, ts')| == |Spell(line, ts)| + (t.next - p) - Dropped(t);
    if |Spell(line, ts')| == t.next {
      assert Blanks(Dropped(t)) == [];
      assert Spelling(line, t) + [] == Spelling(line, t);
    }
  }

  /** Main result on the lexer: repeated calls reach the end of any line.  The spaces and tokens they return,
      with the blanks behind line extensions, spell the line; without these blanks they spell it if and only
      if it nowhere has an unescaped backslash with nothing but some blanks behind it.  There is a substitution
      exactly wherever an unescaped dollar sign stands before an opening bracket. */
  method Tokenize(line: string) returns (ts: seq<Token>)
    requires NUL !in line
    ensures Inside(line, ts) && ts != [] && ts[|ts| - 1].event == EndOfLineEvent
    ensures forall k | 0 <= k < |ts| :: ts[k].event != OtherEvent
    ensures forall k | 0 <= k < |ts| && ts[k].event == TextEvent :: Escaped(line[ts[k].start..ts[k].next])
    ensures Restored(line, ts) == line
    ensures Spell(line, ts) == line <==> forall k | 0 <= k < |line| :: !LosesAt(line, k)
    ensures forall k: nat | k < |line| :: OpensAt(line, k) <==> FoundAt(ts, k)
  {
    hide Lexed, TokenAt, Escaped, LosesAt, Restored, Spell, OpensAt, FoundAt;
    ts := [];
    var p: nat := 0;
    var done := false;
    LexedNothing(line);
    while !done
      invariant Lexed(line, ts, p) && p <= |line|
      invariant done ==> p == |line| && ts != [] && ts[|ts| - 1].event == EndOfLineEvent
      decreases |line| - p, !done
    {
      TokenCovers(line, p);
      LexedMore(line, ts, p);
      var t := GetTemplateToken(line, p);
      ts := ts + [t];
      p := t.next;
      done := t.event == EndOfLineEvent;
    }
    LexedAll(line, ts);
  }

  lemma LexedNothing(line: string)
    ensures Lexed(line, [], 0)
  {
  }

  lemma LexedAll(line: string, ts: seq<Token>)
    requires Lexed(line, ts, |line|)
    ensures Inside(line, ts) && Restored(line, ts) == line
    ensures Spell(line, ts) == line <==> forall k | 0 <= k < |line| :: !LosesAt(line, k)
    ensures forall k | 0 <= k < |ts| :: ts[k].event != OtherEvent
    ensures forall k | 0 <= k < |ts| && ts[k].event == TextEvent :: Escaped(line[ts[k].start..ts[k].next])
    ensures forall k: nat | k < |line| :: OpensAt(line, k) <==> FoundAt(ts, k)
  {
    assert line[..|line|] == line;
  }

  /** The blank at the end of `a\ ` is neither in a token nor counted as a space. */
  lemma BlankIsLost()
    ensures var line := "a\\ ";
            NUL !in line && LosesAt(line, 1) && TokenAt(line, 0).next == 1
            && TokenAt(line, 1) == Token(ExtendEvent, 0, 1, 1, 3)
                && TokenAt(line, 3) == Token(EndOfLineEvent, 0, 3, 0, 3)
  {
    var line := "a\\ ";
    assert SpacesEnd(line, 3) == 3 && SpacesEnd(line, 2) == 3;
    assert TextEnd(line, 1) == 1;
  }

  // ---------------------------------------------------------------- evaluating text

  function Unescaped(c: char): char {
    match c
    case 'n' => '\n'
    case 'r' => '\r'
    case 't' => '\t'
    case _ => c
  }

  /** The output of a text piece. */
  function Unescape(s: string): string
    requires Escaped(s)
  {
    if s == [] then []
    else if s[0] == '\\' then [Unescaped(s[1])] + Unescape(s[2..])
    else [s[0]] + Unescape(s[1..])
  }

  /** What the first one or two characters give. */
  function FirstOut(s: string): char
    requires s != [] && (s[0] == '\\' ==> |s| >= 2)
  {
    if s[0] == '\\' then Unescaped(s[1]) else s[0]
  }

  lemma {:induction false} UnescapeFirst(s: string, n: nat)
    requires s != [] && n == (if s[0] == '\\' then 2 else 1)
    ensures Escaped(s) <==> |s| >= n && Escaped(s[n..])
    ensures Escaped(s) ==> Unescape(s) == [FirstOut(s)] + Unescape(s[n..])
  {
  }

  lemma {:induction false} Joined(a: string, b: string, c: string)
    ensures a + b + c == a + (b + c)
  {
  }

  lemma {:induction false} NoText()
    ensures Escaped([]) && Unescape([]) == []
  {
  }

  lemma {:induction false} EscapedAppend(s: string, t: string)
    requires Escaped(s) && Escaped(t)
    ensures Escaped(s + t) && Unescape(s + t) == Unescape(s) + Unescape(t)
    decreases |s|
  {
    hide Escaped, Unescape, FirstOut;
    if s == [] {
      NoText();
      assert s + t == t && [] + Unescape(t) == Unescape(t);
    } else {
      var n := if s[0] == '\\' then 2 else 1;
      UnescapeFirst(s, n);
      var rest := s[n..];
      EscapedAppend(rest, t);
      AppendFirst(s, t, n);
      Joined([FirstOut(s)], Unescape(rest), Unescape(t));
    }
  }

  lemma {:induction false} AppendFirst(s: string, t: string, n: nat)
    requires s != [] && n == (if s[0] == '\\' then 2 else 1) && n <= |s| && Escaped(s[n..] + t)
    ensures Escaped(s + t) && Unescape(s + t) == [FirstOut(s)] + Unescape(s[n..] + t)
  {
    hide Escaped, Unescape;
    UnescapeFirst(s + t, n);
    assert (s + t)[n..] == s[n..] + t;
  }

  /** What one character is written as so that it comes out as itself. */
  function Protected(c: char): string {
    if c == '\n' then "\\n" else if c == '\r' then "\\r" else if c == '\t' then "\\t"
    else if c == '\\' || c == ' ' || c == '$' then ['\\', c] else [c]
  }

  function Protect(s: string): string {
    if s == [] then [] else Protected(s[0]) + Protect(s[1..])
  }

  lemma {:induction false} ProtectedOne(c: char)
    ensures Escaped(Protected(c)) && Unescape(Protected(c)) == [c]
  {
    var s := Protected(c);
    UnescapeFirst(s, |s|);
    assert s[|s|..] == [];
  }

  /** Every text can be written with escapes: newline, return and tab by their letters, and blanks, dollar signs and
      backslashes behind a backslash. */
  lemma {:induction false} ProtectedReads(s: string)
    ensures Escaped(Protect(s)) && Unescape(Protect(s)) == s
  {
    if s != [] {
      ProtectedReads(s[1..]);
      var c := Protected(s[0]);
      ProtectedOne(s[0]);
      EscapedAppend(c, Protect(s[1..]));
      assert s == [s[0]] + s[1..];
    }
  }

  /** An escaped character other than the three letters is itself, like a character that is not escaped. */
  lemma {:induction false} OneCharacter(c: char)
    ensures c != '\\' ==> Escaped([c]) && Unescape([c]) == [c]
    ensures Escaped(['\\', c]) && |Unescape(['\\', c])| == 1
    ensures c != 'n' && c != 'r' && c != 't' ==> Unescape(['\\', c]) == [c]
  {
    assert [c][1..] == [] && ['\\', c][2..] == [];
  }

  /** Position of the first backslash from `i` on, as strchr finds it. */
  function Backslash(s: string, i: nat): (r: nat)
    requires i <= |s|
    ensures i <= r <= |s| && (r < |s| ==> s[r] == '\\') && forall k | i <= k < r :: s[k] != '\\'
    decreases |s| - i
  {
    if i == |s| || s[i] == '\\' then i else Backslash(s, i + 1)
  }

  lemma PlainStep(s: string, i: nat)
    requires i < |s| && s[i] != '\\' && Escaped(s[i..])
    ensures Escaped(s[i + 1..]) && Unescape(s[i..]) == [s[i]] + Unescape(s[i + 1..])
  {
    assert s[i..][1..] == s[i + 1..];
  }

  /** Up to the first backslash, text stands for itself. */
  lemma {:induction false} PlainPrefix(s: string, i: nat, r: nat)
    requires i <= r <= |s| && Escaped(s[i..]) && forall k | i <= k < r :: s[k] != '\\'
    ensures Escaped(s[r..]) && Unescape(s[i..]) == s[i..r] + Unescape(s[r..])
    decreases r - i
  {
    hide Escaped, Unescape;
    if i < r {
      PlainStep(s, i);
      PlainPrefix(s, i + 1, r);
      assert s[i..r] == [s[i]] + s[i + 1..r];
      assert s[i..r] + Unescape(s[r..]) == [s[i]] + (s[i + 1..r] + Unescape(s[r..]));
    } else {
      assert s[i..r] == [];
    }
  }

  /** The first pass of evaluate_text_node. */
  method MeasureText(text: string) returns (length: nat)
    requires Escaped(text)
    ensures length == |Unescape(text)|
  {
    length := 0;
    var i := 0;
    assert text[0..] == text;
    while i < |text|
      invariant i <= |text| && Escaped(text[i..])
      invariant length + |Unescape(text[i..])| == |Unescape(text)|
      decreases |text| - i
    {
      var r := Backslash(text, i);
      PlainPrefix(text, i, r);
      if r < |text| {
        assert text[r..][2..] == text[r + 2..];
        length := length + (r - i) + 1;
        i := r + 2;
      } else {
        length := length + (|text| - i);
        i := |text|;
      }
    }
    assert text[|text|..] == [];
  }

  /** evaluate_text_node: the first pass measures, the second writes; every write is inside the
      buffer and together they fill it exactly. */
  method EvaluateText(sign: string, text: string) returns (buffer: array<char>)
    requires Escaped(text)
    ensures buffer[..] == sign + Unescape(text)
  {
    hide Escaped, Unescape;
    var length := MeasureText(text);
    buffer := new char[|sign| + length];
    Copy(sign, 0, |sign|, buffer, 0);
    var out: nat, i: nat := |sign|, 0;
    assert text[0..] == text;
    while i < |text|
      invariant i <= |text| && Escaped(text[i..])
      invariant out + |Unescape(text[i..])| == buffer.Length
      invariant out <= buffer.Length && buffer[..out] + Unescape(text[i..]) == sign + Unescape(text)
      decreases |text| - i
    {
      var r := Backslash(text, i);
      PlainPrefix(text, i, r);
      Copy(text, i, r, buffer, out);
      out := out + (r - i);
      if r < |text| {
        Escape(text, r);
        buffer[out] := Unescaped(text[r + 1]);
        out := out + 1;
        i := r + 2;
      } else {
        i := |text|;
      }
    }
    NothingLeft(text);
  }

  lemma NothingLeft(text: string)
    ensures Unescape(text[|text|..]) == []
  {
  }

  lemma Escape(s: string, r: nat)
    requires r < |s| && s[r] == '\\' && Escaped(s[r..])
    ensures r + 1 < |s| && Escaped(s[r + 2..]) && Unescape(s[r..]) == [Unescaped(s[r + 1])] + Unescape(s[r + 2..])
  {
    assert s[r..][2..] == s[r + 2..];
  }

  /** memcpy of `text[from..upto]` to `buffer` at `out`. */
  method Copy(text: string, from: nat, upto: nat, buffer: array<char>, out: nat)
    requires from <= upto <= |text| && out + (upto - from) <= buffer.Length
    modifies buffer
    ensures buffer[..out + (upto - from)] == old(buffer[..out]) + text[from..upto]
    ensures forall k | out + (upto - from) <= k < buffer.Length :: buffer[k] == old(buffer[k])
  {
    for k := from to upto
      invariant buffer[..out + (k - from)] == old(buffer[..out]) + text[from..k]
      invariant forall j | out + (k - from) <= j < buffer.Length :: buffer[j] == old(buffer[j])
    {
      buffer[out + (k - from)] := text[k];
    }
  }
}
