/** How much of the error log reaches its reader, and where in the source its conditions can be read off. */
module JsonShown {
  import opened Bytes
  import opened JsonLog

  // ---------------------------------------------------------------- what is shown of one line

  /** Text up to a NUL is shown whole; behind a NUL nothing is shown. */
  lemma {:induction false} UpToNulConcat(a: string, b: string)
    ensures '\0' !in a ==> UpToNul(a + b) == a + UpToNul(b)
    ensures '\0' in a ==> |UpToNul(a + b)| < |a|
    ensures UpToNul(a) <= a
    decreases |a|
  {
    if a == "" {
      assert a + b == b;
    } else {
      var rest := a[1..];
      assert a == [a[0]] + rest && (a + b)[1..] == rest + b;
      UpToNulConcat(rest, b);
    }
  }

  lemma {:induction false} ComposedConcat(a: seq<Token>, b: seq<Token>)
    ensures Composed(a + b) == Composed(a) + Composed(b)
    decreases |b|
  {
    if b == [] {
      assert a + b == a;
    } else {
      var front, last := b[..|b| - 1], b[|b| - 1];
      assert (a + b)[..|a + b| - 1] == a + front;
      ComposedConcat(a, front);
      ConcatAssoc(Composed(a), Composed(front), Spelled(last));
    }
  }

  lemma {:induction false} NulComposed(line: seq<Token>)
    ensures '\0' in Composed(line) <==> Ch('\0') in line
    decreases |line|
  {
    if line != [] {
      var front, last := line[..|line| - 1], line[|line| - 1];
      assert line == front + [last];
      NulComposed(front);
      assert '\0' in Spelled(last) <==> last == Ch('\0');
    }
  }

  /** A prefix of a line is shown whole iff it holds no NUL. */
  lemma PrefixShown(line: seq<Token>, i: nat)
    requires i <= |line|
    ensures Composed(line[..i]) <= Shown(line) <==> Ch('\0') !in line[..i]
  {
    assert line == line[..i] + line[i..];
    ComposedConcat(line[..i], line[i..]);
    NulComposed(line[..i]);
    UpToNulConcat(Composed(line[..i]), Composed(line[i..]));
  }

  lemma LineShown(line: seq<Token>)
    ensures Shown(line) == Composed(line) <==> Ch('\0') !in line
  {
    assert line[..|line|] == line;
    PrefixShown(line, |line|);
    UpToNulConcat(Composed(line), "");
  }

  // ---------------------------------------------------------------- what is shown of the whole log

  lemma {:induction false} InFlatten(lines: seq<seq<Token>>, t: Token)
    ensures t in Flatten(lines) <==> exists i :: 0 <= i < |lines| && t in lines[i]
    decreases |lines|
  {
    if lines != [] {
      var front, last := lines[..|lines| - 1], lines[|lines| - 1];
      InFlatten(front, t);
      assert forall i :: 0 <= i < |front| ==> front[i] == lines[i];
    }
  }

  lemma {:induction false} InUnsplit(line: seq<Token>, t: Token)
    requires !t.SplitMark?
    ensures t in Unsplit(line) <==> t in line
    decreases |line|
  {
    if line != [] {
      var front := line[..|line| - 1];
      assert line == front + [line[|line| - 1]];
      InUnsplit(front, t);
    }
  }

  lemma {:induction false} InVisible(text: string, c: char)
    requires c != '\n'
    ensures Ch(c) in Visible(text) <==> c in text
    decreases |text|
  {
    if text != "" {
      assert text == [text[0]] + text[1..];
      InVisible(text[1..], c);
    }
  }

  lemma InMarked(text: string, errorPos: nat, c: char)
    requires c != '\n'
    ensures Ch(c) in Marked(text, errorPos) <==> c in text
  {
    if 0 < errorPos <= |text| {
      assert text == text[..errorPos] + text[errorPos..];
      InVisible(text[..errorPos], c);
      InVisible(text[errorPos..], c);
    } else {
      InVisible(text, c);
    }
  }

  /** Every line of the log is shown whole if and only if the source holds no NUL. */
  lemma LogShownIff(text: string, errorPos: nat)
    ensures var lines := Logged(text, 0, errorPos, [], 0);
      (forall i :: 0 <= i < |lines| ==> Output(lines)[i] == Composed(lines[i])) <==> '\0' !in text
  {
    var lines := Logged(text, 0, errorPos, [], 0);
    LogIsComplete(text, errorPos);
    InMarked(text, errorPos, '\0');
    InUnsplit(Flatten(lines), Ch('\0'));
    InFlatten(lines, Ch('\0'));
    forall i | 0 <= i < |lines| ensures Output(lines)[i] == Composed(lines[i]) <==> Ch('\0') !in lines[i] {
      LineShown(lines[i]);
    }
  }

  // ---------------------------------------------------------------- whether the error marker is shown

  /** A marker of the line is shown to its end. */
  predicate ShowsMark(line: seq<Token>) {
    exists i :: 0 <= i < |line| && line[i] == ErrorMark && Composed(line[..i + 1]) <= Shown(line)
  }

  predicate MarkShown(lines: seq<seq<Token>>) {
    exists j :: 0 <= j < |lines| && ShowsMark(lines[j])
  }

  lemma MarkShownCons(line: seq<Token>, rest: seq<seq<Token>>)
    ensures MarkShown([line] + rest) <==> ShowsMark(line) || MarkShown(rest)
  {
    var lines := [line] + rest;
    assert lines[0] == line && forall j :: 0 <= j < |rest| ==> lines[j + 1] == rest[j];
  }

  /** A line with one marker shows it iff no NUL stands before it. */
  lemma ShowsMarkAt(before: seq<Token>, after: seq<Token>)
    requires ErrorMark !in before && ErrorMark !in after
    ensures ShowsMark(before + [ErrorMark] + after) <==> Ch('\0') !in before
  {
    var line, m := before + [ErrorMark] + after, |before|;
    assert line[..m + 1] == before + [ErrorMark] && line[m] == ErrorMark;
    assert forall i :: 0 <= i < |line| && line[i] == ErrorMark ==> i == m;
    PrefixShown(line, m + 1);
  }

  lemma {:induction false} NoMarkLater(text: string, n: nat, errorPos: nat, line: seq<Token>, linePos: nat)
    requires n >= errorPos && ErrorMark !in line
    ensures !MarkShown(Logged(text, n, errorPos, line, linePos))
    decreases |text|
  {
    if text != "" {
      var split := Splits(linePos, text[0], false);
      var next := Extended(line, text[0], false, split);
      assert ErrorMark !in next;
      if text[0] == '\n' || |text| == 1 || split {
        NoMarkLater(text[1..], n + 1, errorPos, [], 0);
        MarkShownCons(next, Logged(text[1..], n + 1, errorPos, [], 0));
      } else {
        NoMarkLater(text[1..], n + 1, errorPos, next, Grown(linePos, text[0], false));
      }
    }
  }

  /** Once the marker is in the buffer, what stands before it decides. */
  lemma {:induction false} MarkedLine(text: string, n: nat, errorPos: nat, before: seq<Token>, after: seq<Token>, linePos: nat)
    requires text != "" && n >= errorPos && ErrorMark !in before && ErrorMark !in after
    ensures MarkShown(Logged(text, n, errorPos, before + [ErrorMark] + after, linePos)) <==> Ch('\0') !in before
    decreases |text|
  {
    var c, line := text[0], before + [ErrorMark] + after;
    var split := Splits(linePos, c, false);
    var after' := after + Added(c, false) + if split then [SplitMark] else [];
    var next := Extended(line, c, false, split);
    assert next == before + [ErrorMark] + after';
    if c == '\n' || |text| == 1 || split {
      NoMarkLater(text[1..], n + 1, errorPos, [], 0);
      MarkShownCons(next, Logged(text[1..], n + 1, errorPos, [], 0));
      ShowsMarkAt(before, after');
    } else {
      MarkedLine(text[1..], n + 1, errorPos, before, after', Grown(linePos, c, false));
    }
  }

  /** The buffer after one more byte without a marker. */
  function NextLine(line: seq<Token>, c: char): seq<Token> {
    if c == '\n' || |line| + 1 >= SPLIT_AT then [] else line + [Ch(c)]
  }

  /** The buffer when the last byte of `text` has been added and its marker comes next. */
  function BeforeMark(line: seq<Token>, text: string): seq<Token>
    requires text != ""
    decreases |text|
  {
    if |text| == 1 then line + Added(text[0], false) else BeforeMark(NextLine(line, text[0]), text[1..])
  }

  predicate Plain(line: seq<Token>) {
    forall i :: 0 <= i < |line| ==> line[i].Ch?
  }

  lemma MarkPlaced(line: seq<Token>, c: char, split: bool)
    requires Plain(line)
    ensures var before := line + Added(c, false);
      Plain(before) && Extended(line, c, true, split) == before + [ErrorMark] + if split then [SplitMark] else []
  {
  }

  /** The byte that gets the marker. */
  lemma MarkHere(text: string, n: nat, line: seq<Token>, linePos: nat)
    requires text != "" && Plain(line)
    ensures MarkShown(Logged(text, n, n + 1, line, linePos)) <==> Ch('\0') !in line + Added(text[0], false)
  {
    var c, before := text[0], line + Added(text[0], false);
    var split := Splits(linePos, c, true);
    var after: seq<Token> := if split then [SplitMark] else [];
    var next := Extended(line, c, true, split);
    MarkPlaced(line, c, split);
    if c == '\n' || |text| == 1 || split {
      NoMarkLater(text[1..], n + 1, n + 1, [], 0);
      MarkShownCons(next, Logged(text[1..], n + 1, n + 1, [], 0));
      ShowsMarkAt(before, after);
    } else {
      MarkedLine(text[1..], n + 1, n + 1, before, after, Grown(linePos, c, true));
    }
  }

  lemma NoMarkShown(line: seq<Token>)
    requires ErrorMark !in line
    ensures !ShowsMark(line)
  {
  }

  /** A byte before the one that gets the marker. */
  lemma MarkAhead(text: string, n: nat, errorPos: nat, line: seq<Token>)
    requires n + 1 < errorPos <= n + |text| && Plain(line) && |line| < SPLIT_AT
    ensures var line' := NextLine(line, text[0]);
      MarkShown(Logged(text, n, errorPos, line, |line|)) <==> MarkShown(Logged(text[1..], n + 1, errorPos, line', |line'|))
  {
    var c, split := text[0], Splits(|line|, text[0], false);
    var next := Extended(line, c, false, split);
    if c == '\n' || split {
      NoMarkShown(next);
      MarkShownCons(next, Logged(text[1..], n + 1, errorPos, [], 0));
    } else {
      assert next == line + [Ch(c)];
    }
  }

  lemma {:induction false} MarkDecides(text: string, n: nat, errorPos: nat, line: seq<Token>)
    requires n < errorPos <= n + |text| && Plain(line) && |line| < SPLIT_AT
    ensures MarkShown(Logged(text, n, errorPos, line, |line|)) <==> Ch('\0') !in BeforeMark(line, text[..errorPos - n])
    decreases |text|
  {
    if n + 1 == errorPos {
      MarkHere(text, n, line, |line|);
    } else {
      var c, ahead := text[0], text[..errorPos - n];
      assert ahead[0] == c && ahead[1..] == text[1..][..errorPos - (n + 1)];
      MarkAhead(text, n, errorPos, line);
      MarkDecides(text[1..], n + 1, errorPos, NextLine(line, c));
    }
  }

  // ---------------------------------------------------------------- the line of the error, read off the source

  /** The number of bytes since the last newline. */
  function Since(text: string): nat {
    if text == "" || text[|text| - 1] == '\n' then 0 else Since(text[..|text| - 1]) + 1
  }

  lemma SinceBound(text: string)
    ensures Since(text) <= |text|
  {
  }

  function Chars(text: string): seq<Token> {
    seq(|text|, i requires 0 <= i < |text| => Ch(text[i]))
  }

  /** The buffer after a text without a marker. */
  function Buffered(text: string): seq<Token> {
    if text == "" then [] else NextLine(Buffered(text[..|text| - 1]), text[|text| - 1])
  }

  /** How much of the source before a position stands on the same line of the log. */
  function Held(text: string): (r: nat)
    ensures r < SPLIT_AT && r <= |text|
  {
    SinceBound(text);
    Since(text) % SPLIT_AT
  }

  lemma {:induction false} BufferedIsTail(text: string)
    ensures Buffered(text) == Chars(text[|text| - Held(text)..])
    decreases |text|
  {
    if text != "" {
      var front, c := text[..|text| - 1], text[|text| - 1];
      BufferedIsTail(front);
      if c != '\n' && Held(front) + 1 < SPLIT_AT {
        assert Held(text) == Held(front) + 1;
        assert text[|text| - Held(text)..] == front[|front| - Held(front)..] + [c];
      } else {
        assert Held(text) == 0;
      }
    }
  }

  lemma BufferedSnoc(text: string, c: char)
    ensures Buffered(text + [c]) == NextLine(Buffered(text), c)
  {
    assert (text + [c])[..|text|] == text;
  }

  lemma ShiftOne(a: string, b: string)
    requires |b| > 1
    ensures a + [b[0]] + b[1..][..|b[1..]| - 1] == a + b[..|b| - 1] && b[1..][|b[1..]| - 1] == b[|b| - 1]
  {
    assert b[..|b| - 1] == [b[0]] + b[1..][..|b[1..]| - 1];
  }

  lemma {:induction false} BeforeMarkIsBuffered(a: string, b: string)
    requires b != ""
    ensures BeforeMark(Buffered(a), b) == Buffered(a + b[..|b| - 1]) + Added(b[|b| - 1], false)
    decreases |b|
  {
    if |b| == 1 {
      assert a + b[..0] == a;
    } else {
      BufferedSnoc(a, b[0]);
      BeforeMarkIsBuffered(a + [b[0]], b[1..]);
      ShiftOne(a, b);
    }
  }

  /** What stands before the marker are the bytes since the last newline, modulo 121, and the byte itself. */
  lemma BeforeMarkIsTail(text: string)
    requires text != ""
    ensures var head := text[..|text| - 1];
      BeforeMark([], text) == Chars(head[|head| - Held(head)..]) + Added(text[|text| - 1], false)
  {
    var head := text[..|text| - 1];
    BeforeMarkIsBuffered("", text);
    assert "" + head == head;
    BufferedIsTail(head);
  }

  lemma {:induction false} ColumnIsLength(line: seq<Token>, text: string)
    requires text != "" && |line| < SPLIT_AT
    ensures ErrorColumn(|line|, text) == |BeforeMark(line, text)|
    decreases |text|
  {
    if |text| > 1 {
      ColumnIsLength(NextLine(line, text[0]), text[1..]);
    }
  }

  /** The column of the error in closed form. */
  lemma ErrorColumnIs(text: string)
    requires text != ""
    ensures ErrorColumn(0, text) == Since(text[..|text| - 1]) % SPLIT_AT + if text[|text| - 1] == '\n' then 0 else 1
  {
    ColumnIsLength([], text);
    BeforeMarkIsTail(text);
  }

  /** The log fits its buffer iff the error is not too far behind the last newline, counted modulo 121. */
  lemma LogFitsByColumn(text: string, errorPos: nat)
    requires 0 < errorPos <= |text|
    ensures Longest(Logged(text, 0, errorPos, [], 0)) <= LINE_BUFFER
      <==> Since(text[..errorPos - 1]) % SPLIT_AT + (if text[errorPos - 1] == '\n' then 0 else 1) <= 114
  {
    var ahead := text[..errorPos];
    assert ahead[..|ahead| - 1] == text[..errorPos - 1];
    ErrorColumnIs(ahead);
    LogFitsIff(text, errorPos);
  }

  lemma InChars(text: string, c: char)
    ensures Ch(c) in Chars(text) <==> c in text
  {
    if c in text {
      var i :| 0 <= i < |text| && text[i] == c;
      assert Chars(text)[i] == Ch(c);
    }
  }

  lemma InLine(front: string, last: char, c: char)
    requires c != '\n'
    ensures Ch(c) in Chars(front) + Added(last, false) <==> c in front + [last]
  {
    InChars(front, c);
  }

  lemma TailSplit(text: string, h: nat)
    requires h < |text|
    ensures text[|text| - 1 - h..] == text[..|text| - 1][|text| - 1 - h..] + [text[|text| - 1]]
  {
  }

  /** A character stands on the line iff it stands in the last `h + 1` bytes. */
  lemma InTail(text: string, h: nat, line: seq<Token>, c: char)
    requires h < |text| && c != '\n'
    requires line == Chars(text[..|text| - 1][|text| - 1 - h..]) + Added(text[|text| - 1], false)
    ensures Ch(c) in line <==> c in text[|text| - 1 - h..]
  {
    TailSplit(text, h);
    InLine(text[..|text| - 1][|text| - 1 - h..], text[|text| - 1], c);
  }

  /** The error marker is shown iff there is no NUL before it on its line of the log. */
  lemma MarkShownIff(text: string, errorPos: nat)
    requires 0 < errorPos <= |text|
    ensures MarkShown(Logged(text, 0, errorPos, [], 0))
      <==> '\0' !in text[errorPos - 1 - Held(text[..errorPos - 1])..errorPos]
  {
    var ahead, h := text[..errorPos], Held(text[..errorPos - 1]);
    assert ahead[..errorPos - 1] == text[..errorPos - 1];
    MarkDecides(text, 0, errorPos, []);
    BeforeMarkIsTail(ahead);
    InTail(ahead, h, BeforeMark([], ahead), '\0');
    assert ahead[errorPos - 1 - h..] == text[errorPos - 1 - h..errorPos];
  }

  /** A single NUL, rejected: the log is one empty line, without the marker. */
  lemma NulHidesError()
    ensures Output(Logged("\0", 0, 1, [], 0)) == [""] && !MarkShown(Logged("\0", 0, 1, [], 0))
  {
    var line := [Ch('\0'), ErrorMark];
    assert Extended([], '\0', true, false) == line;
    assert Logged("\0", 0, 1, [], 0) == [line];
    MarkShownIff("\0", 1);
    assert Held("") == 0;
    ComposedConcat([Ch('\0')], [ErrorMark]);
    ComposedSnoc([], Ch('\0'));
    assert [Ch('\0')] + [ErrorMark] == line && [] + [Ch('\0')] == [Ch('\0')];
    assert Composed(line)[0] == '\0';
  }

  // ---------------------------------------------------------------- the text of the log

  /** Some line begins with `before` and the error marker. */
  ghost predicate HasErrorLine(lines: seq<seq<Token>>, before: seq<Token>) {
    exists j :: 0 <= j < |lines| && before + [ErrorMark] <= lines[j]
  }

  lemma HasErrorLineCons(line: seq<Token>, rest: seq<seq<Token>>, before: seq<Token>)
    ensures before + [ErrorMark] <= line || HasErrorLine(rest, before) ==> HasErrorLine([line] + rest, before)
  {
    var lines := [line] + rest;
    assert lines[0] == line && forall j :: 0 <= j < |rest| ==> lines[j + 1] == rest[j];
  }

  lemma {:induction false} ErrorLineOut(text: string, n: nat, errorPos: nat, line: seq<Token>, linePos: nat, before: seq<Token>)
    requires text != "" && before + [ErrorMark] <= line
    ensures HasErrorLine(Logged(text, n, errorPos, line, linePos), before)
    decreases |text|
  {
    var c, mark := text[0], n + 1 == errorPos;
    var split := Splits(linePos, c, mark);
    var next := Extended(line, c, mark, split);
    assert line <= next;
    if c == '\n' || |text| == 1 || split {
      HasErrorLineCons(next, Logged(text[1..], n + 1, errorPos, [], 0), before);
    } else {
      ErrorLineOut(text[1..], n + 1, errorPos, next, Grown(linePos, c, mark), before);
    }
  }

  lemma ErrorLineHere(text: string, n: nat, line: seq<Token>, linePos: nat)
    requires text != "" && Plain(line)
    ensures HasErrorLine(Logged(text, n, n + 1, line, linePos), line + Added(text[0], false))
  {
    var c, before := text[0], line + Added(text[0], false);
    var split := Splits(linePos, c, true);
    var next := Extended(line, c, true, split);
    MarkPlaced(line, c, split);
    assert before + [ErrorMark] <= next;
    if c == '\n' || |text| == 1 || split {
      HasErrorLineCons(next, Logged(text[1..], n + 1, n + 1, [], 0), before);
    } else {
      ErrorLineOut(text[1..], n + 1, n + 1, next, Grown(linePos, c, true), before);
    }
  }

  lemma {:induction false} ErrorLine(text: string, n: nat, errorPos: nat, line: seq<Token>)
    requires n < errorPos <= n + |text| && Plain(line) && |line| < SPLIT_AT
    ensures HasErrorLine(Logged(text, n, errorPos, line, |line|), BeforeMark(line, text[..errorPos - n]))
    decreases |text|
  {
    if n + 1 == errorPos {
      ErrorLineHere(text, n, line, |line|);
    } else {
      var c, ahead := text[0], text[..errorPos - n];
      assert ahead[0] == c && ahead[1..] == text[1..][..errorPos - (n + 1)];
      ErrorLine(text[1..], n + 1, errorPos, NextLine(line, c));
      var split := Splits(|line|, c, false);
      var next := Extended(line, c, false, split);
      if c == '\n' || split {
        HasErrorLineCons(next, Logged(text[1..], n + 1, errorPos, [], 0), BeforeMark(line, ahead));
      } else {
        assert next == line + [Ch(c)];
      }
    }
  }

  lemma {:induction false} ComposedChars(text: string)
    ensures Composed(Chars(text)) == text
    decreases |text|
  {
    if text != "" {
      var front, c := text[..|text| - 1], text[|text| - 1];
      ComposedChars(front);
      assert Chars(text) == Chars(front) + [Ch(c)];
      ComposedSnoc(Chars(front), Ch(c));
      assert text == front + [c];
    }
  }

  /** A line that begins with plain text and the error marker shows both. */
  lemma ErrorLineText(line: seq<Token>, t: string)
    requires Chars(t) + [ErrorMark] <= line && '\0' !in t
    ensures t + "<ERROR>" <= Shown(line)
  {
    var m := |t| + 1;
    assert line[..m] == Chars(t) + [ErrorMark];
    InChars(t, '\0');
    PrefixShown(line, m);
    ComposedChars(t);
    ComposedSnoc(Chars(t), ErrorMark);
  }

  /** Some line of the output begins with `t`. */
  predicate Displays(out: seq<string>, t: string) {
    exists j :: 0 <= j < |out| && t <= out[j]
  }

  lemma ErrorOutput(lines: seq<seq<Token>>, t: string)
    requires HasErrorLine(lines, Chars(t)) && '\0' !in t
    ensures Displays(Output(lines), t + "<ERROR>")
  {
    var j :| 0 <= j < |lines| && Chars(t) + [ErrorMark] <= lines[j];
    ErrorLineText(lines[j], t);
    assert t + "<ERROR>" <= Output(lines)[j];
  }

  /** The text of the error's line before the marker: at most 121 bytes, without the newline. */
  function ErrorText(text: string): string
    requires text != ""
  {
    var m := |text| - 1;
    text[m - Held(text[..m])..if text[m] == '\n' then m else m + 1]
  }

  lemma BeforeMarkIsText(text: string)
    requires text != ""
    ensures BeforeMark([], text) == Chars(ErrorText(text))
  {
    var m := |text| - 1;
    BeforeMarkIsTail(text);
    TailSplit(text, Held(text[..m]));
    var tail := text[..m][m - Held(text[..m])..];
    assert ErrorText(text) == if text[m] == '\n' then tail else tail + [text[m]];
  }

  lemma ErrorShownAs(text: string, errorPos: nat, t: string)
    requires 0 < errorPos <= |text| && '\0' !in t && BeforeMark([], text[..errorPos]) == Chars(t)
    ensures Displays(Output(Logged(text, 0, errorPos, [], 0)), t + "<ERROR>")
  {
    var none: seq<Token> := [];
    ErrorLine(text, 0, errorPos, none);
    assert text[..errorPos - 0] == text[..errorPos];
    var lines := Logged(text, 0, errorPos, none, |none|);
    assert HasErrorLine(lines, Chars(t));
    ErrorOutput(lines, t);
  }

  /** The error is shown as the text of its line up to the last byte consumed, followed by "<ERROR>", if no NUL is in the way. */
  lemma ErrorTextShown(text: string, errorPos: nat, t: string)
    requires 0 < errorPos <= |text| && t == ErrorText(text[..errorPos]) && '\0' !in t
    ensures Displays(Output(Logged(text, 0, errorPos, [], 0)), t + "<ERROR>")
  {
    BeforeMarkIsText(text[..errorPos]);
    ErrorShownAs(text, errorPos, t);
  }

  lemma Refill(text: string, t: string, room: nat)
    requires text != "" && room > 0
    ensures t + [text[0]] + text[1..] == t + text
    ensures room <= |text| ==> t + [text[0]] + text[1..][..room - 1] == t + text[..room] && text[1..][room - 1..] == text[room..]
  {
    assert text == [text[0]] + text[1..];
  }

  lemma OneMore(t: string, c: char, split: bool)
    requires c != '\n'
    ensures Extended(Chars(t), c, false, split) == if split then Chars(t + [c]) + [SplitMark] else Chars(t + [c])
  {
    assert Chars(t + [c]) == Chars(t) + [Ch(c)];
  }

  /** A buffer of plain text fills up to 121 characters and is split, or ends with the source. */
  lemma {:induction false} FillLine(text: string, n: nat, t: string)
    requires text != "" && '\n' !in text && |t| < SPLIT_AT
    ensures var room := SPLIT_AT - |t|; var lines := Logged(text, n, 0, Chars(t), |t|);
      if |text| < room then lines == [Chars(t + text)]
      else lines == [Chars(t + text[..room]) + [SplitMark]] + Logged(text[room..], n + room, 0, [], 0)
    decreases |text|
  {
    var c, t' := text[0], t + [text[0]];
    var split := Splits(|t|, c, false);
    OneMore(t, c, split);
    Refill(text, t, SPLIT_AT - |t|);
    if split {
      assert t + text[..1] == t';
    } else if |text| == 1 {
      assert t + text == t';
      assert Logged(text[1..], n + 1, 0, [], 0) == [];
    } else {
      FillLine(text[1..], n + 1, t');
    }
  }

  lemma ShownChars(t: string, split: bool)
    requires '\0' !in t
    ensures Shown(Chars(t) + if split then [SplitMark] else []) == t + if split then "<SPLIT>" else ""
  {
    var line := Chars(t) + if split then [SplitMark] else [];
    InChars(t, '\0');
    LineShown(line);
    ComposedChars(t);
    if split {
      ComposedSnoc(Chars(t), SplitMark);
    } else {
      assert line == Chars(t) && t + "" == t;
    }
  }

  /**
   Without newlines, NULs and an error a source is shown in pieces of 121 characters, each followed by "<SPLIT>",
   and a last shorter piece.
   */
  lemma PlainLog(text: string, n: nat)
    requires text != "" && '\n' !in text && '\0' !in text
    ensures var out := Output(Logged(text, n, 0, [], 0));
      if |text| < 121 then out == [text]
      else out == [text[..121] + "<SPLIT>"] + Output(Logged(text[121..], n + 121, 0, [], 0))
  {
    FillLine(text, n, "");
    assert Chars("") == [] && "" + text == text;
    if |text| < 121 {
      ShownChars(text, false);
      assert Chars(text) + [] == Chars(text) && text + "" == text;
    } else {
      assert "" + text[..121] == text[..121];
      ShownChars(text[..121], true);
    }
  }
}
