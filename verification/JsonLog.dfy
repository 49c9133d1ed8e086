/**
 The JSON driver and its error log. On a parse failure the source is printed again, broken into lines,
 with a marker after the last byte the driver consumed; long lines are broken with a split marker.
 */
module JsonLog {
  import opened Bytes

  const LINE_BUFFER: nat := 128
  const SPLIT_AT: nat := 121  // sizeof(line_buf) - 7

  /** One entry of the line buffer; each marker takes seven characters. */
  datatype Token = Ch(c: char) | ErrorMark | SplitMark

  function Spelled(t: Token): string {
    match t
    case Ch(c) => [c]
    case ErrorMark => "<ERROR>"
    case SplitMark => "<SPLIT>"
  }

  function Composed(line: seq<Token>): string {
    if line == [] then "" else Composed(line[..|line| - 1]) + Spelled(line[|line| - 1])
  }

  /** What `%.*s` shows of a text: it stops at a NUL even before the precision is used up. */
  function UpToNul(s: string): string {
    if s == "" || s[0] == '\0' then "" else [s[0]] + UpToNul(s[1..])
  }

  /** What is shown of a composed line. */
  function Shown(line: seq<Token>): string {
    UpToNul(Composed(line))
  }

  function Output(lines: seq<seq<Token>>): (out: seq<string>)
    ensures |out| == |lines| && forall i :: 0 <= i < |lines| ==> out[i] == Shown(lines[i])
  {
    seq(|lines|, i requires 0 <= i < |lines| => Shown(lines[i]))
  }

  function Width(line: seq<Token>): nat {
    |Composed(line)|
  }

  /** What byte `c` adds to the buffer, with the error marker when `mark` is set. */
  function Added(c: char, mark: bool): seq<Token> {
    (if c != '\n' then [Ch(c)] else []) + if mark then [ErrorMark] else []
  }

  /** The fill level after byte `c`. */
  function Grown(linePos: nat, c: char, mark: bool): nat {
    linePos + (if c != '\n' then 1 else 0) + if mark then 7 else 0
  }

  predicate Splits(linePos: nat, c: char, mark: bool) {
    Grown(linePos, c, mark) >= SPLIT_AT
  }

  function Extended(line: seq<Token>, c: char, mark: bool, split: bool): seq<Token> {
    line + Added(c, mark) + if split then [SplitMark] else []
  }

  /**
   The lines composed for the rest `text` when `n` bytes were read before it and `line`, of `linePos`
   characters, is in the buffer.
   */
  function Logged(text: string, n: nat, errorPos: nat, line: seq<Token>, linePos: nat): seq<seq<Token>>
    decreases |text|
  {
    if text == "" then [] else
    var c, mark := text[0], n + 1 == errorPos;
    var split := Splits(linePos, c, mark);
    var next := Extended(line, c, mark, split);
    if c == '\n' || |text| == 1 || split
      then [next] + Logged(text[1..], n + 1, errorPos, [], 0)
      else Logged(text[1..], n + 1, errorPos, next, Grown(linePos, c, mark))
  }

  // ---------------------------------------------------------------- the C++ code

  class DataSource {
    const data: string
    var pos: nat

    ghost predicate Valid()
      reads this
    {
      pos <= |data|
    }

    constructor (data: string)
      ensures this.data == data && pos == 0
    {
      this.data, pos := data, 0;
    }

    predicate HasNext()
      reads this
    {
      pos < |data|
    }

    method Next() returns (c: char)
      requires HasNext()
      modifies this
      ensures c == data[old(pos)] && pos == old(pos) + 1
    {
      c := data[pos];
      pos := pos + 1;
    }
  }

  lemma ComposedSnoc(line: seq<Token>, t: Token)
    ensures Composed(line + [t]) == Composed(line) + Spelled(t)
  {
    assert (line + [t])[..|line|] == line;
  }

  /** The part of the loop that fills the line buffer. */
  method Fill(line: seq<Token>, linePos: nat, c: char, mark: bool)
    returns (line': seq<Token>, linePos': nat, split: bool)
    ensures split == Splits(linePos, c, mark) && line' == Extended(line, c, mark, split)
    ensures linePos' == Grown(linePos, c, mark) + if split then 7 else 0
  {
    line', linePos' := line, linePos;
    if c != '\n' {
      line', linePos' := line' + [Ch(c)], linePos' + 1;
    }
    if mark {
      line', linePos' := line' + [ErrorMark], linePos' + 7;
    }
    assert line' == line + Added(c, mark);
    split := linePos' >= LINE_BUFFER - 7;
    if split {
      line', linePos' := line' + [SplitMark], linePos' + 7;
    }
  }

  lemma LineOut(lines: seq<seq<Token>>, line: seq<Token>, rest: seq<seq<Token>>)
    ensures lines + ([line] + rest) == (lines + [line]) + rest
  {
  }

  lemma OutputSnoc(lines: seq<seq<Token>>, line: seq<Token>)
    ensures Output(lines + [line]) == Output(lines) + [Shown(line)]
  {
  }

  method LogErrorPosition(json: DataSource) returns (out: seq<string>)
    requires json.Valid()
    modifies json
    ensures out == Output(Logged(json.data, 0, old(json.pos), [], 0))
    ensures json.pos == |json.data|
  {
    var errorPos := json.pos;
    json.pos := 0;
    var line: seq<Token> := [];
    var linePos := 0;
    ghost var lines: seq<seq<Token>> := [];
    out := [];
    while json.HasNext()
      invariant json.pos <= |json.data| && out == Output(lines)
      invariant json.pos == |json.data| ==> line == [] && linePos == 0
      invariant Logged(json.data, 0, errorPos, [], 0) == lines + Logged(json.data[json.pos..], json.pos, errorPos, line, linePos)
      decreases |json.data| - json.pos
    {
      ghost var rest := json.data[json.pos..];
      var c := json.Next();
      assert rest[0] == c && rest[1..] == json.data[json.pos..];
      var split;
      line, linePos, split := Fill(line, linePos, c, json.pos == errorPos);
      if c == '\n' || !json.HasNext() || split {
        LineOut(lines, line, Logged(rest[1..], json.pos, errorPos, [], 0));
        OutputSnoc(lines, line);
        out := out + [Shown(line)];
        lines := lines + [line];
        line, linePos := [], 0;
      }
    }
  }

  /** `strchr` also finds the terminating NUL of the list of blanks. */
  predicate Blank(c: char) {
    c == ' ' || c == '\t' || c == '\r' || c == '\n' || c == '\0'
  }

  method OnlyWhitespaceRemaining(json: DataSource) returns (blank: bool)
    requires json.Valid()
    modifies json
    ensures old(json.pos) <= json.pos <= |json.data|
    ensures blank ==> json.pos == |json.data| && forall i :: old(json.pos) <= i < |json.data| ==> Blank(json.data[i])
    ensures forall i :: old(json.pos) <= i < json.pos - 1 ==> Blank(json.data[i])
    ensures !blank ==> old(json.pos) < json.pos && !Blank(json.data[json.pos - 1])
    ensures blank <==> forall i :: old(json.pos) <= i < |json.data| ==> json.data[i] in " \t\r\n\0"
  {
    while json.HasNext()
      invariant old(json.pos) <= json.pos <= |json.data|
      invariant forall i :: old(json.pos) <= i < json.pos ==> Blank(json.data[i])
      decreases |json.data| - json.pos
    {
      var c := json.Next();
      if !Blank(c) { return false; }
    }
    return true;
  }

  datatype ParseResult = Done | Error | InProgress

  /** The parser's verdict and the callback's failure flag, as functions of the bytes consumed so far. */
  datatype Parser = Parser(verdict: string -> ParseResult, failed: string -> bool)

  predicate Stops(p: Parser, text: string) {
    p.verdict(text).Done? || p.verdict(text).Error? || p.failed(text)
  }

  /**
   What the driver may report after giving `stop` bytes to the parser and consuming `consumed` in all.
   It succeeds silently only for a finished document followed by blanks; a source that ends before the
   document does is logged as an error, and the code still returns true.
   */
  ghost predicate Outcome(p: Parser, text: string, stop: nat, consumed: nat, ok: bool, logged: bool) {
    && stop <= consumed <= |text|
    && (forall k :: 0 < k < stop ==> !Stops(p, text[..k]))
    && (forall i :: stop <= i < consumed - 1 ==> Blank(text[i]))
    && if stop == 0 || !Stops(p, text[..stop]) then
         stop == consumed == |text| && ok && logged
       else if p.verdict(text[..stop]).Done? then
         && logged == !ok
         && (ok ==> consumed == |text| && forall i :: stop <= i < |text| ==> Blank(text[i]))
         && (!ok ==> stop < consumed && !Blank(text[consumed - 1]))
       else
         consumed == stop && !ok && logged
  }

  /** `ProcessJson`; the log is printed for the position after the last byte consumed. */
  method ProcessJson(json: DataSource, p: Parser)
    returns (ok: bool, logged: bool, out: seq<string>, ghost stop: nat, ghost consumed: nat)
    requires json.Valid()
    modifies json
    ensures Outcome(p, json.data, stop, consumed, ok, logged)
    ensures out == if logged then Output(Logged(json.data, 0, consumed, [], 0)) else []
  {
    json.pos := 0;
    while json.HasNext()
      invariant json.Valid()
      invariant forall k :: 0 < k <= json.pos ==> !Stops(p, json.data[..k])
      decreases |json.data| - json.pos
    {
      var c := json.Next();
      var text := json.data[..json.pos];
      stop := json.pos;
      var res := p.verdict(text);
      if res.Done? {
        ok := OnlyWhitespaceRemaining(json);
        consumed, logged, out := json.pos, !ok, [];
        if !ok { out := LogErrorPosition(json); }
        return;
      } else if p.failed(text) || res.Error? {
        consumed, ok, logged := json.pos, false, true;
        out := LogErrorPosition(json);
        return;
      }
    }
    stop, consumed, ok, logged := json.pos, json.pos, true, true;
    out := LogErrorPosition(json);
  }

  /** The source and the parser decide what the driver reports. */
  lemma OutcomeUnique(p: Parser, text: string, stop: nat, consumed: nat, ok: bool, logged: bool,
                      stop': nat, consumed': nat, ok': bool, logged': bool)
    requires Outcome(p, text, stop, consumed, ok, logged) && Outcome(p, text, stop', consumed', ok', logged')
    ensures stop == stop' && consumed == consumed' && ok == ok' && logged == logged'
  {
  }

  /** No part of the source makes the driver stop. */
  ghost predicate NeverStops(p: Parser, text: string) {
    forall k :: 0 < k <= |text| ==> p.verdict(text[..k]) == InProgress && !p.failed(text[..k])
  }

  /** The first part that stops the driver is a finished document, and only blanks follow it. */
  ghost predicate FinishedAt(p: Parser, text: string, k: nat) {
    && 0 < k <= |text| && p.verdict(text[..k]) == Done
    && (forall j :: 0 < j < k ==> p.verdict(text[..j]) == InProgress && !p.failed(text[..j]))
    && forall i :: k <= i < |text| ==> text[i] == ' ' || text[i] == '\t' || text[i] == '\r' || text[i] == '\n' || text[i] == '\0'
  }

  /** The driver reports success for a finished document followed by blanks, and also for a source that never ends. */
  lemma ReportsSuccessIff(p: Parser, text: string, stop: nat, consumed: nat, ok: bool, logged: bool)
    requires Outcome(p, text, stop, consumed, ok, logged)
    ensures ok <==> NeverStops(p, text) || exists k: nat :: FinishedAt(p, text, k)
    ensures ok && logged <==> NeverStops(p, text)
    ensures logged <==> forall k: nat :: !FinishedAt(p, text, k)
  {
    if stop > 0 && Stops(p, text[..stop]) {
      forall k: nat | FinishedAt(p, text, k) ensures k == stop {
        assert Stops(p, text[..k]);
      }
      if ok {
        assert FinishedAt(p, text, stop);
      }
    }
  }

  /** A parser that is done with its second byte, as for an empty object. */
  function DoneAtTwo(): Parser {
    Parser((t: string) => if |t| == 2 then Done else InProgress, (t: string) => false)
  }

  /** Behind the document a newline and a NUL are accepted in silence, and a letter is an error. */
  lemma TrailingByte(c: char)
    ensures c == '\n' || c == '\0' ==> Outcome(DoneAtTwo(), ['{', '}', c], 2, 3, true, false)
    ensures c == 'x' ==> Outcome(DoneAtTwo(), ['{', '}', c], 2, 3, false, true)
  {
    var text: string := ['{', '}', c];
    assert |text[..1]| == 1 && |text[..2]| == 2;
  }

  /** A lone opening brace is logged as an error and reported as success. */
  lemma UnfinishedReported(p: Parser)
    requires p == Parser((t: string) => InProgress, (t: string) => false)
    ensures NeverStops(p, "{") && Outcome(p, "{", 1, 1, true, true)
  {
  }

  /** A callback that fails on the very byte that finishes the document is not noticed. */
  lemma FailureAtEndIgnored(p: Parser, text: string, k: nat)
    requires 0 < k <= |text| && forall i :: 0 < i < k ==> !Stops(p, text[..i])
    requires p.verdict(text[..k]).Done? && p.failed(text[..k])
    requires forall i :: k <= i < |text| ==> Blank(text[i])
    ensures Outcome(p, text, k, |text|, true, false)
  {
  }

  // ---------------------------------------------------------------- nothing lost, nothing reordered

  /** A composed log without its split markers. */
  function Unsplit(line: seq<Token>): seq<Token> {
    if line == [] then [] else
    Unsplit(line[..|line| - 1]) + if line[|line| - 1].SplitMark? then [] else [line[|line| - 1]]
  }

  lemma {:induction false} UnsplitConcat(a: seq<Token>, b: seq<Token>)
    ensures Unsplit(a + b) == Unsplit(a) + Unsplit(b)
    decreases |b|
  {
    if b == [] {
      assert a + b == a;
    } else {
      assert (a + b)[..|a + b| - 1] == a + b[..|b| - 1];
      UnsplitConcat(a, b[..|b| - 1]);
    }
  }

  /** The characters of a text that are not newlines. */
  function Visible(text: string): seq<Token> {
    if text == "" then [] else (if text[0] != '\n' then [Ch(text[0])] else []) + Visible(text[1..])
  }

  /** The visible text with the marker after byte `errorPos`, if there is such a byte. */
  function Marked(text: string, errorPos: int): seq<Token> {
    if 0 < errorPos <= |text| then Visible(text[..errorPos]) + [ErrorMark] + Visible(text[errorPos..])
    else Visible(text)
  }

  lemma VisibleCons(c: char, rest: string)
    ensures Visible([c] + rest) == Added(c, false) + Visible(rest)
  {
    assert ([c] + rest)[1..] == rest;
  }

  lemma MarkedCons(text: string, errorPos: int)
    requires text != ""
    ensures Marked(text, errorPos) == Added(text[0], errorPos == 1) + Marked(text[1..], errorPos - 1)
  {
    var c, rest := text[0], text[1..];
    assert text == [c] + rest;
    if errorPos == 1 {
      VisibleCons(c, "");
      assert text[..1] == [c] + "" && text[1..] == rest;
      assert Added(c, true) == Added(c, false) + [ErrorMark];
    } else if 1 < errorPos <= |text| {
      VisibleCons(c, rest[..errorPos - 1]);
      assert text[..errorPos] == [c] + rest[..errorPos - 1] && text[errorPos..] == rest[errorPos - 1..];
      ConcatAssoc(Added(c, false), Visible(rest[..errorPos - 1]), [ErrorMark]);
      ConcatAssoc(Added(c, false), Visible(rest[..errorPos - 1]) + [ErrorMark], Visible(rest[errorPos - 1..]));
    } else {
      VisibleCons(c, rest);
    }
  }

  /** The same sequence, byte by byte. */
  function Scanned(text: string, k: int): seq<Token>
    decreases |text|
  {
    if text == "" then [] else Added(text[0], k == 1) + Scanned(text[1..], k - 1)
  }

  lemma {:induction false} ScannedIsMarked(text: string, k: int)
    ensures Scanned(text, k) == Marked(text, k)
    decreases |text|
  {
    if text != "" {
      ScannedIsMarked(text[1..], k - 1);
      MarkedCons(text, k);
    }
  }

  lemma UnsplitOne(t: Token)
    ensures Unsplit([t]) == if t.SplitMark? then [] else [t]
  {
    var none: seq<Token> := [];
    assert [t][..0] == none && Unsplit(none) == none;
  }

  lemma UnsplitAdded(c: char, mark: bool)
    ensures Unsplit(Added(c, mark)) == Added(c, mark)
  {
    UnsplitOne(Ch(c));
    UnsplitOne(ErrorMark);
    var first: seq<Token>, second: seq<Token> := if c != '\n' then [Ch(c)] else [], if mark then [ErrorMark] else [];
    UnsplitConcat(first, second);
  }

  lemma ExtendedUnsplit(line: seq<Token>, c: char, mark: bool, split: bool)
    ensures Unsplit(Extended(line, c, mark, split)) == Unsplit(line) + Added(c, mark)
  {
    UnsplitConcat(line, Added(c, mark));
    UnsplitAdded(c, mark);
    UnsplitOne(SplitMark);
    UnsplitConcat(line + Added(c, mark), if split then [SplitMark] else []);
  }

  /** The induction step of the next lemma, on the tokens alone. */
  lemma FlatStep(next: seq<Token>, out: seq<seq<Token>>, line: seq<Token>, here: seq<Token>, rest: seq<Token>)
    requires Unsplit(next) == line + here && Unsplit(Flatten(out)) == rest
    ensures Unsplit(Flatten([next] + out)) == line + (here + rest)
  {
    FlattenCons(next, out);
    UnsplitConcat(next, Flatten(out));
    assert (line + here) + rest == line + (here + rest);
  }

  lemma {:induction false} LoggedFlat(text: string, n: nat, errorPos: nat, line: seq<Token>, linePos: nat)
    requires text != "" || line == []
    ensures Unsplit(Flatten(Logged(text, n, errorPos, line, linePos))) == Unsplit(line) + Scanned(text, errorPos - n)
    decreases |text|
  {
    if text != "" {
      var c, mark, rest := text[0], n + 1 == errorPos, text[1..];
      var split := Splits(linePos, c, mark);
      var next := Extended(line, c, mark, split);
      var here, after := Added(c, mark), Scanned(rest, errorPos - (n + 1));
      ExtendedUnsplit(line, c, mark, split);
      if c == '\n' || |text| == 1 || split {
        var none: seq<Token> := [];
        LoggedFlat(rest, n + 1, errorPos, none, 0);
        assert Unsplit(none) + after == after;
        FlatStep(next, Logged(rest, n + 1, errorPos, none, 0), Unsplit(line), here, after);
      } else {
        LoggedFlat(rest, n + 1, errorPos, next, Grown(linePos, c, mark));
        assert (Unsplit(line) + here) + after == Unsplit(line) + (here + after);
      }
    }
  }

  /** The log without split markers is the source without newlines, with one error marker after the last byte consumed. */
  lemma LogIsComplete(text: string, errorPos: nat)
    ensures Unsplit(Flatten(Logged(text, 0, errorPos, [], 0))) == Marked(text, errorPos)
  {
    LoggedFlat(text, 0, errorPos, [], 0);
    ScannedIsMarked(text, errorPos);
  }

  lemma LineFirst(line: seq<Token>, a: seq<seq<Token>>, b: seq<seq<Token>>)
    ensures [line] + (a + b) == ([line] + a) + b
  {
  }

  /** No line spans a newline: the log of a text is the log up to a newline, then the log of the rest. */
  lemma {:induction false} LogBreaksAtNewline(a: string, b: string, n: nat, errorPos: nat, line: seq<Token>, linePos: nat)
    ensures Logged(a + "\n" + b, n, errorPos, line, linePos)
         == Logged(a + "\n", n, errorPos, line, linePos) + Logged(b, n + |a| + 1, errorPos, [], 0)
    decreases |a|
  {
    var whole, front := a + "\n" + b, a + "\n";
    if a == "" {
      assert whole[1..] == b && front[1..] == "";
    } else {
      var rest := a[1..];
      assert whole[1..] == rest + "\n" + b && front[1..] == rest + "\n";
      var c, mark := a[0], n + 1 == errorPos;
      assert whole[0] == c && front[0] == c;
      var split := Splits(linePos, c, mark);
      var next := Extended(line, c, mark, split);
      if c == '\n' || split {
        LogBreaksAtNewline(rest, b, n + 1, errorPos, [], 0);
        LineFirst(next, Logged(rest + "\n", n + 1, errorPos, [], 0), Logged(b, n + |a| + 1, errorPos, [], 0));
      } else {
        LogBreaksAtNewline(rest, b, n + 1, errorPos, next, Grown(linePos, c, mark));
      }
    }
  }

  // ---------------------------------------------------------------- how long a line gets

  lemma WidthAdded(line: seq<Token>, c: char, mark: bool)
    ensures Width(line + Added(c, mark)) == Grown(Width(line), c, mark)
  {
    var l1 := if c != '\n' then line + [Ch(c)] else line;
    assert Width(l1) == Grown(Width(line), c, false) by {
      ComposedSnoc(line, Ch(c));
    }
    if mark {
      assert line + Added(c, mark) == l1 + [ErrorMark];
      ComposedSnoc(l1, ErrorMark);
    } else {
      assert line + Added(c, mark) == l1;
    }
  }

  lemma WidthExtended(line: seq<Token>, c: char, mark: bool, split: bool)
    ensures Width(Extended(line, c, mark, split)) == Grown(Width(line), c, mark) + if split then 7 else 0
  {
    WidthAdded(line, c, mark);
    var filled := line + Added(c, mark);
    if split {
      ComposedSnoc(filled, SplitMark);
    } else {
      assert Extended(line, c, mark, split) == filled;
    }
  }

  /** The longest line. */
  function Longest(lines: seq<seq<Token>>): nat {
    if lines == [] then 0 else
    var rest := Longest(lines[1..]);
    if Width(lines[0]) > rest then Width(lines[0]) else rest
  }

  lemma LongestCons(line: seq<Token>, rest: seq<seq<Token>>)
    ensures Longest([line] + rest) == if Width(line) > Longest(rest) then Width(line) else Longest(rest)
  {
    assert ([line] + rest)[1..] == rest;
  }

  /** How many characters are in the buffer right after byte `c`, starting from `b`, before any marker. */
  function Column(b: nat, c: char): nat {
    if c == '\n' then b else b + 1
  }

  /** Where the column stands after one more byte without a marker. */
  function NextColumn(b: nat, c: char): nat {
    if c == '\n' || b + 1 >= SPLIT_AT then 0 else b + 1
  }

  /** The column of the last byte of `text`: a line starts anew after a newline and after 121 characters. */
  function ErrorColumn(b: nat, text: string): nat
    decreases |text|
  {
    if |text| == 0 then b
    else if |text| == 1 then Column(b, text[0])
    else ErrorColumn(NextColumn(b, text[0]), text[1..])
  }

  /** Once the marker is behind us every line fits the buffer. */
  lemma {:induction false} FitsAfterError(text: string, n: nat, errorPos: nat, line: seq<Token>, linePos: nat)
    requires n >= errorPos && Width(line) == linePos < SPLIT_AT
    ensures Longest(Logged(text, n, errorPos, line, linePos)) <= LINE_BUFFER
    decreases |text|
  {
    if text != "" {
      var split := Splits(linePos, text[0], false);
      var next := Extended(line, text[0], false, split);
      WidthExtended(line, text[0], false, split);
      if text[0] == '\n' || |text| == 1 || split {
        FitsAfterError(text[1..], n + 1, errorPos, [], 0);
        LongestCons(next, Logged(text[1..], n + 1, errorPos, [], 0));
      } else {
        FitsAfterError(text[1..], n + 1, errorPos, next, Grown(linePos, text[0], false));
      }
    }
  }

  /** The byte that gets the marker decides the width of its line. */
  lemma WidthAtError(text: string, n: nat, line: seq<Token>, linePos: nat)
    requires text != "" && Width(line) == linePos < SPLIT_AT
    ensures var w := Longest(Logged(text, n, n + 1, line, linePos));
      if Column(linePos, text[0]) <= 114 then w <= LINE_BUFFER else w == Column(linePos, text[0]) + 14 <= LINE_BUFFER + 7
  {
    var c := text[0];
    var split := Splits(linePos, c, true);
    var next := Extended(line, c, true, split);
    WidthExtended(line, c, true, split);
    if c == '\n' || |text| == 1 || split {
      FitsAfterError(text[1..], n + 1, n + 1, [], 0);
      LongestCons(next, Logged(text[1..], n + 1, n + 1, [], 0));
    } else {
      FitsAfterError(text[1..], n + 1, n + 1, next, Grown(linePos, c, true));
    }
  }

  /** A byte before the marked one changes the column and composes nothing wider than the buffer. */
  lemma WidthBeforeError(text: string, n: nat, errorPos: nat, line: seq<Token>, linePos: nat) returns (line': seq<Token>)
    requires |text| > 1 && Width(line) == linePos < SPLIT_AT && n + 1 < errorPos
    ensures Width(line') == NextColumn(linePos, text[0])
    ensures var w := Longest(Logged(text, n, errorPos, line, linePos));
      var w' := Longest(Logged(text[1..], n + 1, errorPos, line', NextColumn(linePos, text[0])));
      w' <= w && (w == w' || w <= LINE_BUFFER)
  {
    var c := text[0];
    var split := Splits(linePos, c, false);
    WidthExtended(line, c, false, split);
    line' := Extended(line, c, false, split);
    if c == '\n' || split {
      LongestCons(line', Logged(text[1..], n + 1, errorPos, [], 0));
      line' := [];
    }
  }

  /** The claim about the longest line `w` for an error `k` bytes ahead with `b` characters in the buffer. */
  predicate WidthClaim(w: nat, b: nat, text: string, k: int) {
    if 0 < k <= |text| && ErrorColumn(b, text[..k]) > 114
      then w == ErrorColumn(b, text[..k]) + 14 <= LINE_BUFFER + 7
      else w <= LINE_BUFFER
  }

  lemma ColumnStep(b: nat, text: string, k: nat)
    requires 1 < k <= |text|
    ensures ErrorColumn(b, text[..k]) == ErrorColumn(NextColumn(b, text[0]), text[1..][..k - 1])
  {
    assert text[..k][0] == text[0] && text[..k][1..] == text[1..][..k - 1];
  }

  /** The longest line fits 128 characters unless the marker follows a column past 114, and then takes 14 more than it. */
  lemma {:induction false} LoggedWidth(text: string, n: nat, errorPos: nat, line: seq<Token>, linePos: nat)
    requires Width(line) == linePos < SPLIT_AT
    ensures WidthClaim(Longest(Logged(text, n, errorPos, line, linePos)), linePos, text, errorPos - n)
    decreases |text|
  {
    if n >= errorPos {
      FitsAfterError(text, n, errorPos, line, linePos);
    } else if text == "" {
    } else if n + 1 == errorPos {
      WidthAtError(text, n, line, linePos);
      assert text[..1] == [text[0]];
    } else if |text| == 1 {
      var split := Splits(linePos, text[0], false);
      WidthExtended(line, text[0], false, split);
      LongestCons(Extended(line, text[0], false, split), Logged(text[1..], n + 1, errorPos, [], 0));
    } else {
      var line' := WidthBeforeError(text, n, errorPos, line, linePos);
      LoggedWidth(text[1..], n + 1, errorPos, line', NextColumn(linePos, text[0]));
      if errorPos <= n + |text| {
        ColumnStep(linePos, text, errorPos - n);
      }
    }
  }

  /** A line carries a split marker at its end only, and fits the buffer unless it carries the error marker. */
  predicate LineShape(line: seq<Token>) {
    && (forall i :: 0 <= i < |line| - 1 ==> !line[i].SplitMark?)
    && (ErrorMark !in line ==> Width(line) <= LINE_BUFFER)
  }

  predicate NoSplit(line: seq<Token>) {
    forall i :: 0 <= i < |line| ==> !line[i].SplitMark?
  }

  lemma ExtendedShape(line: seq<Token>, c: char, mark: bool, split: bool)
    requires Width(line) < SPLIT_AT && NoSplit(line)
    ensures LineShape(Extended(line, c, mark, split))
    ensures !split ==> NoSplit(Extended(line, c, mark, split))
  {
    WidthExtended(line, c, mark, split);
    var filled := line + Added(c, mark);
    assert NoSplit(filled);
    if mark {
      assert filled[|filled| - 1] == ErrorMark;
      assert Extended(line, c, mark, split)[|filled| - 1] == ErrorMark;
    }
  }

  lemma {:induction false} LoggedShape(text: string, n: nat, errorPos: nat, line: seq<Token>, linePos: nat)
    requires Width(line) == linePos < SPLIT_AT && NoSplit(line)
    ensures forall l :: l in Logged(text, n, errorPos, line, linePos) ==> LineShape(l)
    decreases |text|
  {
    if text != "" {
      var c, mark := text[0], n + 1 == errorPos;
      var split := Splits(linePos, c, mark);
      ExtendedShape(line, c, mark, split);
      if c == '\n' || |text| == 1 || split {
        LoggedShape(text[1..], n + 1, errorPos, [], 0);
      } else {
        WidthExtended(line, c, mark, split);
        LoggedShape(text[1..], n + 1, errorPos, Extended(line, c, mark, split), Grown(linePos, c, mark));
      }
    }
  }

  /** The log of a whole source fits the 128-character buffer exactly when the error column is at most 114. */
  lemma LogFitsIff(text: string, errorPos: nat)
    ensures var lines := Logged(text, 0, errorPos, [], 0);
      && Longest(lines) <= LINE_BUFFER + 7
      && (Longest(lines) <= LINE_BUFFER <==> (0 < errorPos <= |text| ==> ErrorColumn(0, text[..errorPos]) <= 114))
      && (Longest(lines) > LINE_BUFFER ==> Longest(lines) == ErrorColumn(0, text[..errorPos]) + 14)
      && (forall l :: l in lines ==> LineShape(l))
  {
    LoggedShape(text, 0, errorPos, [], 0);
    LoggedWidth(text, 0, errorPos, [], 0);
  }

  /** Bytes that are not newlines move the column one by one. */
  lemma {:induction false} PlainColumn(b: nat, text: string)
    requires b + |text| <= SPLIT_AT && '\n' !in text
    ensures ErrorColumn(b, text) == b + |text|
    decreases |text|
  {
    if |text| > 1 {
      assert NextColumn(b, text[0]) == b + 1;
      PlainColumn(b + 1, text[1..]);
    }
  }

  /**
   Every way to overflow the buffer on the first line: the driver stops with an error at byte 115 to 121 of a
   source without newlines so far. Its line is 14 characters longer, so up to 135 in a buffer of 128.
   */
  lemma OverflowReached(p: Parser, text: string, k: nat)
    requires 115 <= k <= SPLIT_AT && k <= |text| && '\n' !in text[..k]
    requires forall i :: 0 < i < k ==> !Stops(p, text[..i])
    requires Stops(p, text[..k]) && !p.verdict(text[..k]).Done?
    ensures Outcome(p, text, k, k, false, true)
    ensures Longest(Logged(text, 0, k, [], 0)) == k + 14 > LINE_BUFFER
  {
    LogFitsIff(text, k);
    PlainColumn(0, text[..k]);
  }

  /** A concrete source: 121 letters, rejected at the last one. */
  lemma OverflowInput(p: Parser, text: string)
    requires text == seq(121, i => 'x')
    requires p == Parser((t: string) => if |t| < 121 then InProgress else Error, (t: string) => false)
    ensures Outcome(p, text, 121, 121, false, true) && Longest(Logged(text, 0, 121, [], 0)) == 135
  {
    assert text[..121] == text;
    forall i | 0 < i < 121 ensures !Stops(p, text[..i]) {
      assert |text[..i]| == i;
    }
    OverflowReached(p, text, 121);
  }
}
