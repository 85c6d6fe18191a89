/**
  The greedy word-wrap engine of `wordwrap.py`.

  `fill` runs in three steps: a loop that puts a ' ' after every '\n' that is
  not the last character, an optional deletion of every '\n', and a greedy
  packing of the pieces of `text.split(' ')` against a running column
  counter. `wrap` is `fill` followed by `split('\n')`, and the class
  `WordWrap` binds the width and the flag once.

  The method `Fill` does what the source does, loop by loop; the functions
  `Isolated`, `Tokens`, `Step` and `Pack` say what those loops compute, and
  the lemmas below state what that computation guarantees.
*/
module Wordwrap {
  import opened PyStr

  const DefaultWidth: int := 120

  /** The characters the character-preservation property ignores. */
  const Blanks: set<char> := {' ', '\n'}

  // ---------------------------------------------------------------------
  // Step 1: newline isolation
  // ---------------------------------------------------------------------

  /** `s` with one ' ' inserted after every '\n'. */
  function SpaceAfterNewlines(s: string): string
  {
    if s == [] then []
    else (if s[0] == '\n' then "\n " else [s[0]]) + SpaceAfterNewlines(s[1..])
  }

  /** What the loop of `fill` produces: a ' ' after every '\n' except one in the last position. */
  function Isolated(s: string): string
  {
    if s == [] then [] else SpaceAfterNewlines(s[..|s| - 1]) + [s[|s| - 1]]
  }

  /** The reference inverse of `Isolated`: deletes the character after every '\n'. */
  function Unisolated(t: string): string
    decreases |t|
  {
    if |t| <= 1 then t
    else if t[0] == '\n' then [t[0]] + Unisolated(t[2..])
    else [t[0]] + Unisolated(t[1..])
  }

  /** Every '\n' that is not the last character is followed by ' '. */
  predicate NewlinesSpaced(t: string)
  {
    forall i :: 0 <= i < |t| - 1 && t[i] == '\n' ==> t[i + 1] == ' '
  }

  // ---------------------------------------------------------------------
  // Steps 2 and 3: optional newline removal, then split on ' '
  // ---------------------------------------------------------------------

  /** The text that gets split: isolated, and without '\n' when `replaceWhitespace` is set. */
  function Prepared(text: string, replaceWhitespace: bool): (p: string)
    ensures Drop(p, Blanks) == Drop(text, Blanks)
    ensures NewlinesSpaced(p)
    ensures replaceWhitespace ==> '\n' !in p
  {
    IsolatedChars(text);
    IsolatedSpaced(text);
    if replaceWhitespace then
      DropDrop(Isolated(text), {'\n'}, Blanks);
      Drop(Isolated(text), {'\n'})
    else Isolated(text)
  }

  /** The tokens `fill` packs: `Prepared(text).split(' ')`. */
  function Tokens(text: string, replaceWhitespace: bool): (toks: seq<string>)
    ensures forall t :: t in toks ==> ' ' !in t && NewlineOnlyLast(t)
    ensures replaceWhitespace ==> forall t :: t in toks ==> '\n' !in t
  {
    var p := Prepared(text, replaceWhitespace);
    SplitSpacedShape(p);
    if replaceWhitespace then
      SplitKeepsAbsent(p, ' ', '\n');
      Split(p, ' ')
    else Split(p, ' ')
  }

  /** Python's `tok.startswith('\n')`. */
  predicate StartsWithNewline(tok: string)
  {
    |tok| > 0 && tok[0] == '\n'
  }

  /** A '\n' can occur in the token only as its last character. */
  predicate NewlineOnlyLast(tok: string)
  {
    forall i :: 0 <= i < |tok| - 1 ==> tok[i] != '\n'
  }

  // ---------------------------------------------------------------------
  // Step 4: greedy packing
  // ---------------------------------------------------------------------

  /** What one iteration of the packing loop appends, and the column counter after it. */
  datatype Emission = Emission(text: string, column: nat)

  /** One iteration of the packing loop for token `tok` at column `count`. */
  function Step(tok: string, width: int, count: nat): Emission
  {
    if StartsWithNewline(tok) then Emission(tok, 0)
    else if count + |tok| >= width then
      (if |tok| > 0 then Emission("\n" + tok + " ", |tok| + 1) else Emission("\n", 0))
    else
      (if |tok| > 0 then Emission(tok + " ", count + |tok| + 1) else Emission([], count))
  }

  /** The packing loop run over `tokens` from column `count`. */
  function Pack(tokens: seq<string>, width: int, count: nat): string
  {
    if tokens == [] then []
    else
      var e := Step(tokens[0], width, count);
      e.text + Pack(tokens[1..], width, e.column)
  }

  /** What `fill(text, width, replaceWhitespace)` returns: no character other than ' ' and '\n' is dropped or reordered. */
  function Filled(text: string, width: int, replaceWhitespace: bool): (r: string)
    ensures Drop(r, Blanks) == Drop(text, Blanks)
  {
    var p := Prepared(text, replaceWhitespace);
    PackChars(Split(p, ' '), width, 0);
    ConcatSplit(p, ' ');
    DropDrop(p, {' '}, Blanks);
    Pack(Tokens(text, replaceWhitespace), width, 0)
  }

  /** What `wrap(text, width, replaceWhitespace)` returns. */
  function Wrapped(text: string, width: int, replaceWhitespace: bool): (lines: seq<string>)
    ensures |lines| >= 1
    ensures forall line :: line in lines ==> '\n' !in line
    ensures Join(lines, '\n') == Filled(text, width, replaceWhitespace)
  {
    JoinSplit(Filled(text, width, replaceWhitespace), '\n');
    Split(Filled(text, width, replaceWhitespace), '\n')
  }

  // ---------------------------------------------------------------------
  // The operations
  // ---------------------------------------------------------------------

  /** The loop at the head of `fill`: rebinds the text and advances `i`; `j` counts the original characters passed. */
  method IsolateNewlines(text: string) returns (s: string)
    ensures s == Isolated(text)
  {
    s := text;
    var i := 0;
    ghost var j := 0;
    ghost var done: string := [];
    while i < |s| - 1
      invariant j <= |text| && (j < |text| || j == 0)
      invariant done == SpaceAfterNewlines(text[..j])
      invariant s == done + text[j..]
      invariant i == |done| || (0 < j && i == |done| - 1 && done[i] == ' ')
      decreases 2 * (|text| - j) + (if i == |done| then 0 else 1)
    {
      ghost var atOriginal := i == |done|;
      if atOriginal {
        IsolateStep(text, j, done);
      }
      if s[i] == '\n' {
        s := s[..i + 1] + " " + s[i + 1..];
      }
      i := i + 1;
      if atOriginal {
        j := j + 1;
        done := SpaceAfterNewlines(text[..j]);
      }
    }
    assert s == Isolated(text) by {
      if text != [] {
        assert text[j..] == [text[|text| - 1]];
      }
    }
  }

  /** One original character passed by the isolation loop. */
  lemma IsolateStep(text: string, j: nat, done: string)
    requires j < |text| && done == SpaceAfterNewlines(text[..j])
    ensures (done + text[j..])[|done|] == text[j]
    ensures var s, next := done + text[j..], SpaceAfterNewlines(text[..j + 1]);
            if text[j] == '\n' then
              next == done + "\n " && s[..|done| + 1] + " " + s[|done| + 1..] == next + text[j + 1..]
            else
              next == done + [text[j]] && s == next + text[j + 1..]
  {
    SpaceAfterNewlinesSnoc(text[..j], text[j]);
    assert text[..j + 1] == text[..j] + [text[j]];
    assert text[j..] == [text[j]] + text[j + 1..];
    var s := done + text[j..];
    if text[j] == '\n' {
      assert s[..|done| + 1] == done + "\n";
      assert s[|done| + 1..] == text[j + 1..];
    }
  }

  /** The packing loop of `fill`: accumulates the output and updates the column counter `count`. */
  method PackTokens(tokens: seq<string>, width: int) returns (newString: string)
    ensures newString == Pack(tokens, width, 0)
  {
    newString := "";
    var count: nat := 0;
    for k := 0 to |tokens|
      invariant newString + Pack(tokens[k..], width, count) == Pack(tokens, width, 0)
    {
      var c := tokens[k];
      ghost var before := newString;
      ghost var e := Step(c, width, count);
      PackUnfold(tokens, k, width, count);
      if |c| > 0 && c[0] == '\n' {
        count := 0;
        newString := newString + c;
        assert newString == before + e.text && count == e.column;
        continue;
      }
      if count + |c| >= width {
        newString := newString + "\n";
        count := 0;
      }
      if |c| > 0 {
        newString := newString + c + " ";
        count := count + |c| + 1;
      }
      assert newString == before + e.text && count == e.column;
    }
    assert tokens[|tokens|..] == [];
  }

  /** One iteration of the packing loop, read off `Pack`. */
  lemma PackUnfold(tokens: seq<string>, k: nat, width: int, count: nat)
    requires k < |tokens|
    ensures var e := Step(tokens[k], width, count);
            forall acc: string {:trigger acc + e.text} ::
              acc + Pack(tokens[k..], width, count) == (acc + e.text) + Pack(tokens[k + 1..], width, e.column)
  {
    assert tokens[k..] == [tokens[k]] + tokens[k + 1..];
  }

  /** `fill`: newline isolation, optional newline removal, split on ' ', greedy packing. */
  method Fill(text: string, width: int := DefaultWidth, replaceWhitespace: bool := false)
    returns (newString: string)
    ensures newString == Filled(text, width, replaceWhitespace)
    ensures Drop(newString, Blanks) == Drop(text, Blanks)
    ensures text == [] && width > 0 ==> newString == []
  {
    var s := IsolateNewlines(text);
    if replaceWhitespace {
      s := Drop(s, {'\n'});
    }
    newString := PackTokens(Split(s, ' '), width);
    EmptyText(width, replaceWhitespace);
  }

  /** `wrap`: `fill`, then split on '\n'. */
  method Wrap(text: string, width: int := DefaultWidth, replaceWhitespace: bool := false)
    returns (lines: seq<string>)
    ensures lines == Split(Filled(text, width, replaceWhitespace), '\n')
    ensures Join(lines, '\n') == Filled(text, width, replaceWhitespace)
  {
    var filled := Fill(text, width, replaceWhitespace);
    lines := Split(filled, '\n');
    JoinSplit(filled, '\n');
  }

  /** The reusable configuration object: `width` and `replaceWhitespace` are bound once. */
  class WordWrap {
    const width: int
    const replaceWhitespace: bool

    constructor (width: int := DefaultWidth, replaceWhitespace: bool := false)
      ensures this.width == width && this.replaceWhitespace == replaceWhitespace
    {
      this.width := width;
      this.replaceWhitespace := replaceWhitespace;
    }

    /** Same as the free `Fill` with the bound configuration (`_default` names the module-level one). */
    method Fill(text: string) returns (r: string)
      ensures r == Filled(text, width, replaceWhitespace)
    {
      r := _default.Fill(text, width, replaceWhitespace);
    }

    /** Same as the free `Wrap` with the bound configuration. */
    method Wrap(text: string) returns (lines: seq<string>)
      ensures lines == Wrapped(text, width, replaceWhitespace)
    {
      lines := _default.Wrap(text, width, replaceWhitespace);
    }
  }

  // ---------------------------------------------------------------------
  // Newline isolation
  // ---------------------------------------------------------------------

  lemma {:induction false} SpaceAfterNewlinesConcat(a: string, b: string)
    ensures SpaceAfterNewlines(a + b) == SpaceAfterNewlines(a) + SpaceAfterNewlines(b)
  {
    if a == [] {
      assert a + b == b;
    } else {
      assert (a + b)[0] == a[0] && (a + b)[1..] == a[1..] + b;
      SpaceAfterNewlinesConcat(a[1..], b);
    }
  }

  lemma SpaceAfterNewlinesSnoc(a: string, x: char)
    ensures SpaceAfterNewlines(a + [x]) == SpaceAfterNewlines(a) + (if x == '\n' then "\n " else [x])
  {
    SpaceAfterNewlinesConcat(a, [x]);
  }

  /** Deleting the character after each '\n' undoes the isolation exactly. */
  lemma {:induction false} IsolatedRoundTrip(s: string)
    ensures Unisolated(Isolated(s)) == s
  {
    if s != [] {
      UnisolatedSnoc(s[..|s| - 1], s[|s| - 1]);
      assert s[..|s| - 1] + [s[|s| - 1]] == s;
    }
  }

  lemma {:induction false} UnisolatedSnoc(a: string, x: char)
    ensures Unisolated(SpaceAfterNewlines(a) + [x]) == a + [x]
  {
    if a != [] {
      var t := SpaceAfterNewlines(a) + [x];
      UnisolatedSnoc(a[1..], x);
      if a[0] == '\n' {
        assert t == "\n " + (SpaceAfterNewlines(a[1..]) + [x]);
        assert t[2..] == SpaceAfterNewlines(a[1..]) + [x];
      } else {
        assert t == [a[0]] + (SpaceAfterNewlines(a[1..]) + [x]);
        assert t[1..] == SpaceAfterNewlines(a[1..]) + [x];
      }
      assert [a[0]] + (a[1..] + [x]) == a + [x];
    }
  }

  /** Exactly one character is inserted per '\n' that is not the last character. */
  lemma {:induction false} IsolatedLength(s: string)
    ensures s != [] ==> |Isolated(s)| == |s| + Count(s[..|s| - 1], '\n')
    ensures s == [] ==> Isolated(s) == []
  {
    if s != [] {
      SpaceAfterNewlinesLength(s[..|s| - 1]);
    }
  }

  lemma {:induction false} SpaceAfterNewlinesLength(a: string)
    ensures |SpaceAfterNewlines(a)| == |a| + Count(a, '\n')
  {
    if a != [] {
      SpaceAfterNewlinesLength(a[1..]);
    }
  }

  /** After isolation every '\n' but a final one is followed by ' '. */
  lemma {:induction false} IsolatedSpaced(s: string)
    ensures NewlinesSpaced(Isolated(s))
  {
    if s != [] {
      var a := s[..|s| - 1];
      SpaceAfterNewlinesSpaced(a);
      var t := Isolated(s);
      assert t == SpaceAfterNewlines(a) + [s[|s| - 1]];
      forall i | 0 <= i < |t| - 1 && t[i] == '\n'
        ensures t[i + 1] == ' '
      {
        assert t[i] == SpaceAfterNewlines(a)[i];
        assert i + 1 < |SpaceAfterNewlines(a)|;
        assert t[i + 1] == SpaceAfterNewlines(a)[i + 1];
      }
    }
  }

  /** Every '\n' is followed by ' ', the last character included. */
  predicate NewlinesFollowed(t: string)
  {
    forall i :: 0 <= i < |t| && t[i] == '\n' ==> i + 1 < |t| && t[i + 1] == ' '
  }

  lemma {:induction false} SpaceAfterNewlinesSpaced(a: string)
    ensures NewlinesFollowed(SpaceAfterNewlines(a))
  {
    if a != [] {
      SpaceAfterNewlinesSpaced(a[1..]);
      var head := if a[0] == '\n' then "\n " else [a[0]];
      var rest := SpaceAfterNewlines(a[1..]);
      var t := head + rest;
      assert t == SpaceAfterNewlines(a);
      forall i | 0 <= i < |t| && t[i] == '\n'
        ensures i + 1 < |t| && t[i + 1] == ' '
      {
        if i >= |head| {
          var k := i - |head|;
          assert rest[k] == '\n';
          assert k + 1 < |rest| && rest[k + 1] == ' ';
          assert t[i + 1] == rest[k + 1];
        }
      }
    }
  }

  // ---------------------------------------------------------------------
  // Where '\n' can sit inside a token
  // ---------------------------------------------------------------------

  /** Splitting a text whose newlines are spaced on ' ' gives tokens with '\n' only last. */
  lemma {:induction false} SplitSpacedShape(s: string)
    requires NewlinesSpaced(s)
    ensures forall p :: p in Split(s, ' ') ==> NewlineOnlyLast(p)
  {
    if s != [] {
      var rest := s[1..];
      assert NewlinesSpaced(rest) by {
        forall i | 0 <= i < |rest| - 1 && rest[i] == '\n'
          ensures rest[i + 1] == ' '
        {
          assert s[i + 1] == rest[i];
        }
      }
      SplitSpacedShape(rest);
      var r := Split(rest, ' ');
      if s[0] != ' ' {
        var p0 := [s[0]] + r[0];
        assert r[0] in r;
        if s[0] == '\n' {
          assert rest == [] || rest[0] == ' ';
          assert r[0] == [];
        }
        assert NewlineOnlyLast(p0) by {
          forall i | 0 <= i < |p0| - 1
            ensures p0[i] != '\n'
          {
            if i > 0 { assert p0[i] == r[0][i - 1]; }
          }
        }
        assert Split(s, ' ') == [p0] + r[1..];
        forall p | p in Split(s, ' ')
          ensures NewlineOnlyLast(p)
        {
          if p != p0 { assert p in r[1..]; }
        }
      }
    }
  }

  /**
    Every token has '\n' only as its last character, so a token that starts
    with '\n' is exactly "\n"; with `replaceWhitespace` no token holds '\n'
    at all, so the `startswith('\n')` branch never runs.
  */
  lemma TokenShape(text: string, replaceWhitespace: bool)
    ensures forall t :: t in Tokens(text, replaceWhitespace) ==> NewlineOnlyLast(t)
    ensures forall t :: t in Tokens(text, replaceWhitespace) && StartsWithNewline(t) ==> t == "\n"
    ensures replaceWhitespace ==> forall t :: t in Tokens(text, replaceWhitespace) ==> '\n' !in t
  {
    forall t | t in Tokens(text, replaceWhitespace) && StartsWithNewline(t)
      ensures t == "\n"
    {
      assert |t| == 1;
    }
  }

  // ---------------------------------------------------------------------
  // The break rule
  // ---------------------------------------------------------------------

  /**
    For a token that does not start with '\n': a '\n' is emitted before it
    exactly when `count + |tok| >= width` (empty tokens included), the break
    resets the column to 0, and a non-empty token is then appended whole,
    followed by exactly one ' ', and advances the column by `|tok| + 1`.
  */
  lemma BreakRule(tok: string, width: int, count: nat)
    requires !StartsWithNewline(tok)
    ensures var e := Step(tok, width, count);
            var broke := count + |tok| >= width;
            && (StartsWithNewline(e.text) <==> broke)
            && (|tok| > 0 ==> e.text == (if broke then "\n" else "") + tok + " ")
            && (|tok| == 0 ==> e.text == (if broke then "\n" else ""))
            && e.column == (if broke then 0 else count) + (if |tok| > 0 then |tok| + 1 else 0)
  {
  }

  /** A token as wide as the line is always put on a line of its own, whole. */
  lemma LongTokenAlone(tok: string, next: string, width: int, count: nat)
    requires !StartsWithNewline(tok) && !StartsWithNewline(next)
    requires |tok| > 0 && |tok| >= width
    ensures Step(tok, width, count) == Emission("\n" + tok + " ", |tok| + 1)
    ensures StartsWithNewline(Step(next, width, |tok| + 1).text)
  {
  }

  // ---------------------------------------------------------------------
  // No character is dropped or reordered
  // ---------------------------------------------------------------------

  lemma {:induction false} SpaceAfterNewlinesChars(a: string)
    ensures Drop(SpaceAfterNewlines(a), Blanks) == Drop(a, Blanks)
  {
    if a != [] {
      var head := if a[0] == '\n' then "\n " else [a[0]];
      SpaceAfterNewlinesChars(a[1..]);
      DropConcat(head, SpaceAfterNewlines(a[1..]), Blanks);
      DropConcat([a[0]], a[1..], Blanks);
      assert [a[0]] + a[1..] == a;
    }
  }

  lemma IsolatedChars(s: string)
    ensures Drop(Isolated(s), Blanks) == Drop(s, Blanks)
  {
    if s != [] {
      var a, x := s[..|s| - 1], [s[|s| - 1]];
      SpaceAfterNewlinesChars(a);
      DropConcat(SpaceAfterNewlines(a), x, Blanks);
      DropConcat(a, x, Blanks);
      assert a + x == s;
    }
  }

  lemma StepChars(tok: string, width: int, count: nat)
    ensures Drop(Step(tok, width, count).text, Blanks) == Drop(tok, Blanks)
  {
    if !StartsWithNewline(tok) && |tok| > 0 {
      DropConcat(tok, " ", Blanks);
      DropConcat("\n", tok + " ", Blanks);
      assert "\n" + tok + " " == "\n" + (tok + " ");
    }
  }

  lemma {:induction false} PackChars(tokens: seq<string>, width: int, count: nat)
    ensures Drop(Pack(tokens, width, count), Blanks) == Drop(Concat(tokens), Blanks)
  {
    if tokens != [] {
      var e := Step(tokens[0], width, count);
      StepChars(tokens[0], width, count);
      PackChars(tokens[1..], width, e.column);
      DropConcat(e.text, Pack(tokens[1..], width, e.column), Blanks);
      DropConcat(tokens[0], Concat(tokens[1..]), Blanks);
    }
  }

  // ---------------------------------------------------------------------
  // With replaceWhitespace: every '\n' of the output is a break
  // ---------------------------------------------------------------------

  /** The non-empty tokens, each followed by one ' '. */
  function Spaced(tokens: seq<string>): string
  {
    if tokens == [] then []
    else (if tokens[0] == [] then [] else tokens[0] + " ") + Spaced(tokens[1..])
  }

  lemma StepSpaced(tok: string, width: int, count: nat)
    requires '\n' !in tok
    ensures Drop(Step(tok, width, count).text, {'\n'}) == if tok == [] then [] else tok + " "
  {
    var e := Step(tok, width, count);
    if |tok| > 0 {
      var piece := tok + " ";
      assert forall i :: 0 <= i < |piece| ==> piece[i] != '\n' by {
        forall i | 0 <= i < |piece| ensures piece[i] != '\n' {
          if i < |tok| { assert piece[i] == tok[i]; }
        }
      }
      DropAbsent(piece, {'\n'});
      if count + |tok| >= width {
        assert e.text == "\n" + piece;
        DropConcat("\n", piece, {'\n'});
      } else {
        assert e.text == piece;
      }
    } else {
      assert e.text == [] || e.text == "\n";
    }
  }

  lemma {:induction false} PackSpaced(tokens: seq<string>, width: int, count: nat)
    requires forall t :: t in tokens ==> '\n' !in t
    ensures Drop(Pack(tokens, width, count), {'\n'}) == Spaced(tokens)
  {
    if tokens != [] {
      var tok := tokens[0];
      var e := Step(tok, width, count);
      assert tok in tokens;
      StepSpaced(tok, width, count);
      PackSpaced(tokens[1..], width, e.column);
      DropConcat(e.text, Pack(tokens[1..], width, e.column), {'\n'});
    }
  }

  /**
    With `replaceWhitespace`, deleting the '\n's of the output leaves every
    non-empty token followed by one ' ', in order: every '\n' in the output
    is a break inserted by the width check.
  */
  lemma ReplacedNewlinesAreBreaks(text: string, width: int)
    ensures Drop(Filled(text, width, true), {'\n'}) == Spaced(Tokens(text, true))
  {
    TokenShape(text, true);
    PackSpaced(Tokens(text, true), width, 0);
  }

  // ---------------------------------------------------------------------
  // Line length
  // ---------------------------------------------------------------------

  /** A line is within the width, or is one token at least as wide as the width plus its ' '. */
  predicate LineOk(line: string, width: int, tokens: seq<string>)
  {
    |line| <= width
    || (0 < |line| && line[|line| - 1] == ' ' && line[..|line| - 1] in tokens && |line| - 1 >= width)
  }

  /** The packing invariant: every line so far is fine, and the last one is `count` long. */
  predicate LinesInvariant(acc: string, count: int, width: int, tokens: seq<string>)
  {
    var lines := Split(acc, '\n');
    && |lines[|lines| - 1]| == count
    && forall i :: 0 <= i < |lines| ==> LineOk(lines[i], width, tokens)
  }

  lemma StepLines(acc: string, tok: string, width: int, count: nat, tokens: seq<string>)
    requires width >= 0 && tok in tokens && '\n' !in tok
    requires LinesInvariant(acc, count, width, tokens)
    ensures var e := Step(tok, width, count);
            LinesInvariant(acc + e.text, e.column, width, tokens)
  {
    var e := Step(tok, width, count);
    var lines := Split(acc, '\n');
    var piece := tok + " ";
    assert '\n' !in piece;
    assert piece[..|tok|] == tok;
    if count + |tok| >= width {
      SplitWithoutSep(piece, '\n');
      if |tok| > 0 {
        assert acc + e.text == acc + ['\n'] + piece;
        SplitAroundSep(acc, piece, '\n');
        assert Split(acc + e.text, '\n') == lines + [piece];
      } else {
        assert acc + e.text == acc + ['\n'] + [];
        SplitAroundSep(acc, [], '\n');
        assert Split(acc + e.text, '\n') == lines + [[]];
      }
    } else if |tok| > 0 {
      SplitAppend(acc, piece, '\n');
      var last := lines[|lines| - 1] + piece;
      var now := Split(acc + e.text, '\n');
      assert now == lines[..|lines| - 1] + [last];
      forall i | 0 <= i < |now|
        ensures LineOk(now[i], width, tokens)
      {
        if i < |lines| - 1 { assert now[i] == lines[i]; }
      }
    } else {
      assert acc + e.text == acc;
    }
  }

  lemma {:induction false} PackLines(acc: string, toks: seq<string>, width: int, count: nat, tokens: seq<string>)
    requires width >= 0
    requires forall t :: t in toks ==> t in tokens && '\n' !in t
    requires LinesInvariant(acc, count, width, tokens)
    ensures forall line :: line in Split(acc + Pack(toks, width, count), '\n') ==> LineOk(line, width, tokens)
    decreases |toks|
  {
    if toks == [] {
      assert acc + Pack(toks, width, count) == acc;
      var lines := Split(acc, '\n');
      forall line | line in lines
        ensures LineOk(line, width, tokens)
      {
        var i :| 0 <= i < |lines| && lines[i] == line;
      }
    } else {
      var e := Step(toks[0], width, count);
      assert toks[0] in toks;
      StepLines(acc, toks[0], width, count, tokens);
      PackLines(acc + e.text, toks[1..], width, e.column, tokens);
      assert acc + Pack(toks, width, count) == (acc + e.text) + Pack(toks[1..], width, e.column);
    }
  }

  /**
    With `replaceWhitespace` every line of `wrap` is at most `width` long
    (trailing ' ' included), except a line that is a single token at least
    `width` long followed by its ' '.
  */
  lemma WrapLines(text: string, width: int)
    requires width >= 0
    ensures forall line :: line in Wrapped(text, width, true) ==> LineOk(line, width, Tokens(text, true))
  {
    var tokens := Tokens(text, true);
    TokenShape(text, true);
    assert Split([], '\n') == [[]];
    PackLines([], tokens, width, 0, tokens);
    assert [] + Pack(tokens, width, 0) == Filled(text, width, true);
  }

  /**
    The bound without the long-token exception: every line so far is at most
    `width` long, and the last one is at most `count` long. The counter can
    run ahead of the real column (a token ending in '\n' advances it by its
    whole length), which only makes breaks come earlier.
  */
  predicate BoundedLines(acc: string, count: int, width: int)
  {
    var lines := Split(acc, '\n');
    && |lines[|lines| - 1]| <= count
    && forall i :: 0 <= i < |lines| ==> |lines[i]| <= width
  }

  /** The tokens a text can produce, as far as the line bound needs: shorter than `width`, '\n' only last. */
  predicate ShortToken(tok: string, width: int)
  {
    |tok| < width && NewlineOnlyLast(tok)
  }

  /** A token free of '\n' keeps the bound. */
  lemma StepBoundedPlain(acc: string, tok: string, width: int, count: nat)
    requires width > 0 && |tok| < width && '\n' !in tok
    requires BoundedLines(acc, count, width)
    ensures var e := Step(tok, width, count);
            BoundedLines(acc + e.text, e.column, width)
  {
    var e := Step(tok, width, count);
    var lines := Split(acc, '\n');
    var piece := tok + " ";
    assert '\n' !in piece;
    if count + |tok| >= width {
      SplitWithoutSep(piece, '\n');
      if |tok| > 0 {
        assert acc + e.text == acc + ['\n'] + piece;
        SplitAroundSep(acc, piece, '\n');
        assert Split(acc + e.text, '\n') == lines + [piece];
      } else {
        assert acc + e.text == acc + ['\n'] + [];
        SplitAroundSep(acc, [], '\n');
        assert Split(acc + e.text, '\n') == lines + [[]];
      }
    } else if |tok| > 0 {
      SplitAppend(acc, piece, '\n');
      var now := Split(acc + e.text, '\n');
      assert now == lines[..|lines| - 1] + [lines[|lines| - 1] + piece];
      forall i | 0 <= i < |now|
        ensures |now[i]| <= width
      {
        if i < |lines| - 1 { assert now[i] == lines[i]; }
      }
    } else {
      assert acc + e.text == acc;
    }
  }

  /** A token `t + "\n"` (with `t` non-empty and free of '\n') keeps the bound: `t` ends a line, and " " starts the next. */
  lemma StepBoundedNewline(acc: string, t: string, width: int, count: nat)
    requires width > 0 && |t| + 1 < width && '\n' !in t && t != []
    requires BoundedLines(acc, count, width)
    ensures var e := Step(t + "\n", width, count);
            BoundedLines(acc + e.text, e.column, width)
  {
    var tok := t + "\n";
    var e := Step(tok, width, count);
    var lines := Split(acc, '\n');
    assert tok[0] == t[0];
    SplitWithoutSep(" ", '\n');
    if count + |tok| >= width {
      assert e.text == "\n" + tok + " ";
      assert acc + e.text == (acc + ['\n'] + t) + ['\n'] + " ";
      SplitAroundSep(acc + ['\n'] + t, " ", '\n');
      SplitWithoutSep(t, '\n');
      SplitAroundSep(acc, t, '\n');
      assert Split(acc + e.text, '\n') == lines + [t] + [" "];
    } else {
      assert e.text == tok + " ";
      assert acc + e.text == (acc + t) + ['\n'] + " ";
      SplitAroundSep(acc + t, " ", '\n');
      SplitAppend(acc, t, '\n');
      var now := Split(acc + e.text, '\n');
      assert now == lines[..|lines| - 1] + [lines[|lines| - 1] + t] + [" "];
      forall i | 0 <= i < |now|
        ensures |now[i]| <= width
      {
        if i < |lines| - 1 { assert now[i] == lines[i]; }
      }
    }
  }

  /** The bare token "\n" keeps the bound: it starts an empty line at column 0. */
  lemma StepBoundedBreak(acc: string, width: int, count: nat)
    requires width > 0
    requires BoundedLines(acc, count, width)
    ensures var e := Step("\n", width, count);
            BoundedLines(acc + e.text, e.column, width)
  {
    assert acc + "\n" == acc + ['\n'] + [];
    SplitAroundSep(acc, [], '\n');
    assert Split(acc + "\n", '\n') == Split(acc, '\n') + [[]];
  }

  /** Every short token keeps the bound. */
  lemma StepBounded(acc: string, tok: string, width: int, count: nat)
    requires width > 0 && ShortToken(tok, width)
    requires BoundedLines(acc, count, width)
    ensures var e := Step(tok, width, count);
            BoundedLines(acc + e.text, e.column, width)
  {
    if '\n' !in tok {
      StepBoundedPlain(acc, tok, width, count);
    } else if tok == "\n" {
      StepBoundedBreak(acc, width, count);
    } else {
      var k :| 0 <= k < |tok| && tok[k] == '\n';
      assert k == |tok| - 1;
      var t := tok[..k];
      assert tok == t + "\n";
      assert '\n' !in t by {
        forall i | 0 <= i < |t| ensures t[i] != '\n' { assert t[i] == tok[i]; }
      }
      StepBoundedNewline(acc, t, width, count);
    }
  }

  lemma {:induction false} PackBounded(acc: string, toks: seq<string>, width: int, count: nat)
    requires width > 0
    requires forall t :: t in toks ==> ShortToken(t, width)
    requires BoundedLines(acc, count, width)
    ensures forall line :: line in Split(acc + Pack(toks, width, count), '\n') ==> |line| <= width
    decreases |toks|
  {
    if toks == [] {
      assert acc + Pack(toks, width, count) == acc;
      BoundedAll(acc, count, width);
    } else {
      var e := Step(toks[0], width, count);
      var rest := toks[1..];
      assert toks[0] in toks;
      assert forall t :: t in rest ==> t in toks;
      StepBounded(acc, toks[0], width, count);
      PackBounded(acc + e.text, rest, width, e.column);
      assert Pack(toks, width, count) == e.text + Pack(rest, width, e.column);
      assert acc + Pack(toks, width, count) == (acc + e.text) + Pack(rest, width, e.column);
    }
  }

  lemma BoundedAll(acc: string, count: int, width: int)
    requires BoundedLines(acc, count, width)
    ensures forall line :: line in Split(acc, '\n') ==> |line| <= width
  {
    var lines := Split(acc, '\n');
    forall line | line in lines
      ensures |line| <= width
    {
      var i :| 0 <= i < |lines| && lines[i] == line;
    }
  }

  /**
    With `width > 0` and every token shorter than `width`, no line of `wrap`
    is longer than `width` (trailing ' ' included), whether or not
    `replaceWhitespace` is set.
  */
  lemma WrapWithinWidth(text: string, width: int, replaceWhitespace: bool)
    requires width > 0
    requires forall t :: t in Tokens(text, replaceWhitespace) ==> |t| < width
    ensures forall line :: line in Wrapped(text, width, replaceWhitespace) ==> |line| <= width
  {
    var tokens := Tokens(text, replaceWhitespace);
    assert Split([], '\n') == [[]];
    PackBounded([], tokens, width, 0);
    assert [] + Pack(tokens, width, 0) == Filled(text, width, replaceWhitespace);
  }

  // ---------------------------------------------------------------------
  // Concrete cases
  // ---------------------------------------------------------------------

  /** Empty text fills to "" for a positive width, and to a lone break otherwise. */
  lemma EmptyText(width: int, replaceWhitespace: bool)
    ensures width > 0 ==> Filled([], width, replaceWhitespace) == []
    ensures width <= 0 ==> Filled([], width, replaceWhitespace) == "\n"
  {
    assert Prepared([], replaceWhitespace) == [];
    assert Tokens([], replaceWhitespace) == [[]];
    assert Pack([[]], width, 0) == Step([], width, 0).text + Pack([], width, Step([], width, 0).column);
  }

  /** "a\nb": the '\n' at index 1 gets a ' ' after it. */
  lemma IsolatedExample()
    ensures Isolated("a\nb") == "a\n b"
  {
    assert "a\nb"[..2] == "a\n";
    assert "a\n"[1..] == "\n";
    assert SpaceAfterNewlines("\n") == "\n ";
    assert SpaceAfterNewlines("a\n") == "a\n ";
  }

  /** "a\nb" keeps its '\n' with "a", and the inserted ' ' separates "b". */
  lemma NewlineExample()
    ensures Tokens("a\nb", false) == ["a\n", "b"]
    ensures Filled("a\nb", 120, false) == "a\n b "
  {
    IsolatedExample();
    SplitWithoutSep("a\n", ' ');
    SplitWithoutSep("b", ' ');
    SplitAroundSep("a\n", "b", ' ');
    assert "a\n" + [' '] + "b" == "a\n b";
    assert Tokens("a\nb", false) == ["a\n", "b"];
    PackTwo("a\n", "b", 120);
  }

  /** With `replaceWhitespace`, "a\nb" loses its '\n' and fills as two words. */
  lemma ReplacedNewlineExample()
    ensures Tokens("a\nb", true) == ["a", "b"]
    ensures Filled("a\nb", 120, true) == "a b "
  {
    IsolatedExample();
    DropNewlineExample();
    assert Prepared("a\nb", true) == "a b";
    SplitWithoutSep("a", ' ');
    SplitWithoutSep("b", ' ');
    SplitAroundSep("a", "b", ' ');
    assert "a" + [' '] + "b" == "a b";
    assert Tokens("a\nb", true) == ["a", "b"];
    PackTwo("a", "b", 120);
  }

  /** `"a\n b".replace('\n', '')` is "a b". */
  lemma DropNewlineExample()
    ensures Drop("a\n b", {'\n'}) == "a b"
  {
    assert "a\n b"[1..] == "\n b" && "\n b"[1..] == " b" && " b"[1..] == "b" && "b"[1..] == [];
  }

  /** Two short plain tokens that fit on one line are packed as "x y ". */
  lemma PackTwo(x: string, y: string, width: int)
    requires x != [] && y != [] && x[0] != '\n' && y[0] != '\n'
    requires |x| + 1 + |y| < width
    ensures Pack([x, y], width, 0) == x + " " + y + " "
  {
    var toks := [x, y];
    assert Step(x, width, 0) == Emission(x + " ", |x| + 1);
    assert Step(y, width, |x| + 1) == Emission(y + " ", |x| + |y| + 2);
    assert toks[1..] == [y] && toks[1..][1..] == [];
    assert Pack([y], width, |x| + 1) == y + " ";
  }
}
