/** Replacing the text between pairs of markers in a source file (tools/enumgen.js). */
module EnumInject {
  import opened Wrappers

  /** A marker and where it begins in the text. */
  datatype Mark = Begin(at: nat, name: string) | End(at: nat)

  // --- String functions of the program's language ---

  /** The first place of the character from `from` on, or -1. */
  function IndexOf(s: string, c: char, from: nat): (r: int)
    ensures -1 <= r < |s| && (r >= 0 ==> r >= from && s[r] == c)
    decreases |s| - from
  {
    if from >= |s| then -1 else if s[from] == c then from else IndexOf(s, c, from + 1)
  }

  /** The last place of the character up to `from`, or -1. */
  function LastIndexOf(s: string, c: char, from: nat): (r: int)
    ensures -1 <= r < |s| && (r >= 0 ==> r <= from && s[r] == c)
  {
    if from >= |s| then if |s| == 0 then -1 else LastIndexOf(s, c, |s| - 1)
    else if s[from] == c then from
    else if from == 0 then -1
    else LastIndexOf(s, c, from - 1)
  }

  function Clamp(x: int, n: nat): nat {
    if x < 0 then 0 else if x > n then n else x
  }

  /** Negative places count as 0, and the bounds may be in either order. */
  function Substring(s: string, a: int, b: int): string {
    var i, j := Clamp(a, |s|), Clamp(b, |s|);
    if i <= j then s[i..j] else s[j..i]
  }

  /** A search from a negative place begins at 0. */
  function FromZero(x: int): nat {
    if x < 0 then 0 else x
  }

  function LineStart(s: string, at: nat): nat {
    LastIndexOf(s, '\n', at) + 1
  }

  /** The text before the comment in the line of the marker. */
  function Indentation(s: string, at: nat): string {
    var begin := LineStart(s, at);
    Substring(s, begin, IndexOf(s, '/', begin))
  }

  /** The characters from one place on, up to another one, are none of these. */
  predicate NoneOf(s: string, c: char, from: nat, to: nat)
    requires to <= |s|
  {
    forall i | from <= i < to :: s[i] != c
  }

  lemma {:induction false} FirstIs(s: string, c: char, from: nat, at: nat)
    requires from <= at < |s| && s[at] == c && NoneOf(s, c, from, at)
    ensures IndexOf(s, c, from) == at
    decreases at - from
  {
    if from < at { FirstIs(s, c, from + 1, at); }
  }

  lemma {:induction false} LastIs(s: string, c: char, from: nat, at: int)
    requires -1 <= at <= from < |s| && (at >= 0 ==> s[at] == c) && NoneOf(s, c, at + 1, from + 1)
    ensures LastIndexOf(s, c, from) == at
    decreases from
  {
    if at < from && from > 0 { LastIs(s, c, from - 1, at); }
  }

  /** Of a marker at `at`, in a line that begins at `b` and has its first slash at `e`, the indentation is what
      stands before the slash. */
  lemma {:induction false} IndentationIs(s: string, b: nat, e: nat, at: nat)
    requires b <= e <= at < |s| && (b == 0 || s[b - 1] == '\n') && s[e] == '/'
    requires NoneOf(s, '\n', b, at + 1) && NoneOf(s, '/', b, e)
    ensures Indentation(s, at) == s[b..e]
  {
    LastIs(s, '\n', at, b - 1);
    FirstIs(s, '/', b, e);
    hide LastIndexOf, IndexOf, NoneOf;
  }

  // --- The replacement ---

  /** The generated text of an enumeration with an indentation; none if it cannot be generated. */
  type Generator = (string, string) -> Option<string>

  /** One pair of markers: the new text, and how far the text behind them has moved. */
  function Replace(src: string, def: Mark, end: Mark, delta: int, gen: Generator): Option<(string, int)>
    requires def.Begin?
  {
    var startIndex := IndexOf(src, '\n', FromZero(def.at + delta)) + 1;
    var endIndex := LastIndexOf(src, '\n', FromZero(end.at + delta)) + 1;
    if startIndex > endIndex then None
    else
      var content := gen(def.name, Indentation(src, FromZero(def.at + delta)));
      if content.None? then None
      else Some((src[..startIndex] + content.value + src[endIndex..], delta - (endIndex - startIndex) + |content.value|))
  }

  /** All pairs, one after the other; the markers keep their places in the original text. */
  function Inject(src: string, marks: seq<Mark>, delta: int, gen: Generator): Option<string>
    decreases |marks|
  {
    if marks == [] then Some(src)
    else if !marks[0].Begin? || |marks| == 1 || !marks[1].End? then None
    else
      var r := Replace(src, marks[0], marks[1], delta, gen);
      if r.None? then None else Inject(r.value.0, marks[2..], r.value.1, gen)
  }

  // --- Documents ---

  /** The lines up to a begin marker and its line, with the marker at `begin`, then the text between
      the markers; the end marker is at `end` in the text that follows. */
  datatype Piece = Piece(before: string, begin: nat, name: string, body: string, end: nat)

  predicate WholeLines(s: string) {
    s == "" || s[|s| - 1] == '\n'
  }

  predicate NoNewline(s: string) {
    '\n' !in s
  }

  function Flatten(pieces: seq<Piece>, tail: string): string {
    if pieces == [] then tail else pieces[0].before + pieces[0].body + Flatten(pieces[1..], tail)
  }

  function MarksOf(pieces: seq<Piece>, offset: nat): seq<Mark> {
    if pieces == [] then []
    else
      var p := pieces[0];
      var next := offset + |p.before| + |p.body|;
      [Begin(offset + p.begin, p.name), End(next + p.end)] + MarksOf(pieces[1..], next)
  }

  /** The begin marker is in the last line of its piece, which has a comment; the lines are whole. */
  predicate GoodPiece(p: Piece) {
    && WholeLines(p.before) && WholeLines(p.body) && p.begin < |p.before|
    && NoNewline(p.before[p.begin..|p.before| - 1])
    && IndexOf(p.before, '/', LineStart(p.before, p.begin)) >= 0
  }

  /** The end marker is in the first line of the text. */
  predicate EndInFirstLine(text: string, end: nat) {
    end < |text| && NoNewline(text[..end + 1])
  }

  predicate GoodDoc(pieces: seq<Piece>, tail: string) {
    if pieces == [] then true
    else GoodPiece(pieces[0]) && EndInFirstLine(Flatten(pieces[1..], tail), pieces[0].end) && GoodDoc(pieces[1..], tail)
  }

  /** What the generator puts into a piece. */
  function NewBody(p: Piece, gen: Generator): Option<string> {
    gen(p.name, Indentation(p.before, p.begin))
  }

  ghost predicate Generates(pieces: seq<Piece>, gen: Generator) {
    forall i | 0 <= i < |pieces| :: NewBody(pieces[i], gen).Some? && WholeLines(NewBody(pieces[i], gen).value)
  }

  function Renew(pieces: seq<Piece>, gen: Generator): seq<Piece> {
    if pieces == [] then []
    else
      var body := NewBody(pieces[0], gen);
      [pieces[0].(body := if body.Some? then body.value else pieces[0].body)] + Renew(pieces[1..], gen)
  }

  // --- Searching in parts of the text ---

  lemma {:induction false} IndexOfShift(a: string, b: string, c: char, from: nat)
    ensures IndexOf(a + b, c, |a| + from) == if IndexOf(b, c, from) < 0 then -1 else |a| + IndexOf(b, c, from)
    decreases |b| - from
  {
    if from < |b| {
      assert (a + b)[|a| + from] == b[from];
      if b[from] != c { IndexOfShift(a, b, c, from + 1); }
    }
  }

  lemma {:induction false} IndexOfInPrefix(a: string, b: string, c: char, from: nat)
    requires IndexOf(a, c, from) >= 0
    ensures IndexOf(a + b, c, from) == IndexOf(a, c, from)
    decreases |a| - from
  {
    assert (a + b)[from] == a[from];
    if a[from] != c { IndexOfInPrefix(a, b, c, from + 1); }
  }

  lemma {:induction false} LastIndexInPrefix(a: string, b: string, c: char, from: nat)
    requires from < |a|
    ensures LastIndexOf(a + b, c, from) == LastIndexOf(a, c, from)
  {
    assert (a + b)[from] == a[from];
    if a[from] != c && from > 0 { LastIndexInPrefix(a, b, c, from - 1); }
  }

  /** Looking back from inside `b`: found there, or at the end of the whole lines before it. */
  lemma {:induction false} LineStartShift(a: string, b: string, from: nat)
    requires WholeLines(a) && from < |b|
    ensures LineStart(a + b, |a| + from) == |a| + LineStart(b, from)
    decreases from
  {
    assert (a + b)[|a| + from] == b[from];
    if b[from] != '\n' {
      if from > 0 {
        LineStartShift(a, b, from - 1);
      } else if a != "" {
        assert (a + b)[|a| - 1] == a[|a| - 1];
        assert LastIndexOf(a + b, '\n', |a| - 1) == |a| - 1;
      }
    }
  }

  lemma {:induction false} FirstLineStart(b: string, from: nat)
    requires from < |b| && NoNewline(b[..from + 1])
    ensures LineStart(b, from) == 0
  {
    assert b[from] in b[..from + 1];
    if from > 0 {
      assert b[..from + 1] == b[..from] + [b[from]];
      FirstLineStart(b, from - 1);
    }
  }

  lemma {:induction false} NextNewline(s: string, from: nat)
    requires s != "" && s[|s| - 1] == '\n' && from < |s| && NoNewline(s[from..|s| - 1])
    ensures IndexOf(s, '\n', from) == |s| - 1
    decreases |s| - from
  {
    if from < |s| - 1 {
      assert s[from] in s[from..|s| - 1];
      assert s[from..|s| - 1] == [s[from]] + s[from + 1..|s| - 1];
      NextNewline(s, from + 1);
    }
  }

  // --- Every pair is replaced where it stands ---

  lemma {:induction false} Assoc(a: string, b: string, c: string)
    ensures a + b + c == a + (b + c)
  {
  }

  /** The places found for a piece that follows whole lines. */
  lemma {:induction false} StartOfPiece(prefix: string, p: Piece, rest: string)
    requires GoodPiece(p)
    ensures IndexOf(prefix + (p.before + rest), '\n', |prefix| + p.begin) + 1 == |prefix| + |p.before|
  {
    hide IndexOf, LineStart;
    NextNewline(p.before, p.begin);
    IndexOfInPrefix(p.before, rest, '\n', p.begin);
    IndexOfShift(prefix, p.before + rest, '\n', p.begin);
  }

  lemma {:induction false} EndOfPiece(lines: string, end: nat, rest: string)
    requires WholeLines(lines) && EndInFirstLine(rest, end)
    ensures LineStart(lines + rest, |lines| + end) == |lines|
  {
    hide LineStart;
    LineStartShift(lines, rest, end);
    FirstLineStart(rest, end);
  }

  lemma {:induction false} LineOfPiece(prefix: string, p: Piece, rest: string)
    requires WholeLines(prefix) && p.begin < |p.before|
    ensures LineStart(prefix + (p.before + rest), |prefix| + p.begin) == |prefix| + LineStart(p.before, p.begin)
  {
    hide IndexOf, LastIndexOf, WholeLines;
    LastIndexInPrefix(p.before, rest, '\n', p.begin);
    LineStartShift(prefix, p.before + rest, p.begin);
  }

  lemma {:induction false} SlashOfPiece(prefix: string, p: Piece, rest: string, begin: nat)
    requires IndexOf(p.before, '/', begin) >= 0
    ensures IndexOf(prefix + (p.before + rest), '/', |prefix| + begin) == |prefix| + IndexOf(p.before, '/', begin)
  {
    hide IndexOf;
    IndexOfInPrefix(p.before, rest, '/', begin);
    IndexOfShift(prefix, p.before + rest, '/', begin);
  }

  /** The indentation does not depend on the text around the piece. */
  lemma {:induction false} IndentationOfPiece(prefix: string, p: Piece, rest: string)
    requires WholeLines(prefix) && GoodPiece(p)
    ensures Indentation(prefix + (p.before + rest), |prefix| + p.begin) == Indentation(p.before, p.begin)
  {
    hide IndexOf, LastIndexOf, WholeLines, NoNewline, LineStart, Substring;
    var begin := LineStart(p.before, p.begin);
    LineOfPiece(prefix, p, rest);
    SlashOfPiece(prefix, p, rest, begin);
    hide GoodPiece;
    SubstringShift(prefix, p.before, rest, begin, IndexOf(p.before, '/', begin));
  }

  lemma {:induction false} SubstringShift(prefix: string, text: string, rest: string, a: nat, b: nat)
    requires a <= b <= |text|
    ensures Substring(prefix + (text + rest), |prefix| + a, |prefix| + b) == Substring(text, a, b)
  {
    assert (prefix + (text + rest))[|prefix| + a..|prefix| + b] == text[a..b];
  }

  lemma {:induction false} Cut(prefix: string, before: string, body: string, rest: string)
    ensures var src := prefix + (before + body + rest);
            && src == prefix + (before + (body + rest)) && src == (prefix + before + body) + rest
            && src[..|prefix| + |before|] == prefix + before
            && src[|prefix| + |before| + |body|..] == rest
  {
  }

  lemma {:induction false} ReplacePiece(prefix: string, p: Piece, rest: string, offset: nat, delta: int, gen: Generator)
    requires WholeLines(prefix) && offset + delta == |prefix| && GoodPiece(p) && EndInFirstLine(rest, p.end)
    requires NewBody(p, gen).Some?
    ensures var content := NewBody(p, gen).value;
            Replace(prefix + (p.before + p.body + rest), Begin(offset + p.begin, p.name),
                    End(offset + |p.before| + |p.body| + p.end), delta, gen)
            == Some((prefix + p.before + content + rest, delta - |p.body| + |content|))
  {
    hide IndexOf, LastIndexOf, Indentation, GoodPiece, WholeLines, EndInFirstLine, Replace, LineStart;
    Cut(prefix, p.before, p.body, rest);
    assert WholeLines(p.body) by { PieceLines(p); }
    LinesAndLines(prefix, p, p.body);
    StartOfPiece(prefix, p, p.body + rest);
    EndOfPiece(prefix + p.before + p.body, p.end, rest);
    IndentationOfPiece(prefix, p, p.body + rest);
    var src := prefix + (p.before + p.body + rest);
    ReplaceAt(src, Begin(offset + p.begin, p.name), End(offset + |p.before| + |p.body| + p.end), delta, gen,
              |prefix| + |p.before|, |prefix| + |p.before| + |p.body|, Indentation(p.before, p.begin));
  }

  /** The replacement for known places. */
  lemma {:induction false} ReplaceAt(src: string, def: Mark, end: Mark, delta: int, gen: Generator,
                                     startIndex: nat, endIndex: nat, indentation: string)
    requires def.Begin? && def.at + delta >= 0 && end.at + delta >= 0 && startIndex <= endIndex <= |src|
    requires IndexOf(src, '\n', def.at + delta) + 1 == startIndex && LineStart(src, end.at + delta) == endIndex
    requires Indentation(src, def.at + delta) == indentation && gen(def.name, indentation).Some?
    ensures var content := gen(def.name, indentation).value;
            Replace(src, def, end, delta, gen)
            == Some((src[..startIndex] + content + src[endIndex..], delta - (endIndex - startIndex) + |content|))
  {
    hide IndexOf, LastIndexOf, Indentation;
  }

  lemma {:induction false} PieceLines(p: Piece)
    requires GoodPiece(p)
    ensures WholeLines(p.before) && WholeLines(p.body)
  {
  }

  lemma {:induction false} LinesAndLines(prefix: string, p: Piece, content: string)
    requires WholeLines(prefix) && GoodPiece(p) && WholeLines(content)
    ensures WholeLines(prefix + p.before + content)
  {
  }

  lemma {:induction false} MarksOfFirst(pieces: seq<Piece>, offset: nat)
    requires pieces != []
    ensures var p, marks := pieces[0], MarksOf(pieces, offset);
            var next := offset + |p.before| + |p.body|;
            && |marks| >= 2 && marks[0] == Begin(offset + p.begin, p.name) && marks[1] == End(next + p.end)
            && marks[2..] == MarksOf(pieces[1..], next)
  {
  }

  lemma {:induction false} DocFirst(pieces: seq<Piece>, tail: string, gen: Generator)
    requires pieces != [] && GoodDoc(pieces, tail) && Generates(pieces, gen)
    ensures GoodPiece(pieces[0]) && EndInFirstLine(Flatten(pieces[1..], tail), pieces[0].end)
    ensures NewBody(pieces[0], gen).Some? && WholeLines(NewBody(pieces[0], gen).value)
    ensures GoodDoc(pieces[1..], tail) && Generates(pieces[1..], gen)
  {
    hide GoodPiece, EndInFirstLine, NewBody, WholeLines;
  }

  /** One round: the piece at the front joins what has been rewritten. */
  lemma {:induction false} InjectFirst(prefix: string, pieces: seq<Piece>, tail: string, offset: nat, delta: int, gen: Generator)
    requires pieces != [] && WholeLines(prefix) && offset + delta == |prefix|
    requires GoodDoc(pieces, tail) && Generates(pieces, gen)
    ensures var p := pieces[0];
            && NewBody(p, gen).Some?
            && var content := NewBody(p, gen).value;
            && WholeLines(prefix + p.before + content)
            && Inject(prefix + Flatten(pieces, tail), MarksOf(pieces, offset), delta, gen)
               == Inject(prefix + p.before + content + Flatten(pieces[1..], tail),
                         MarksOf(pieces[1..], offset + |p.before| + |p.body|), delta - |p.body| + |content|, gen)
  {
    hide GoodPiece, Replace, EndInFirstLine, WholeLines, GoodDoc, Generates, MarksOf, Inject, Flatten, NewBody;
    var p, rest := pieces[0], Flatten(pieces[1..], tail);
    var marks, src := MarksOf(pieces, offset), prefix + Flatten(pieces, tail);
    DocFirst(pieces, tail, gen);
    MarksOfFirst(pieces, offset);
    FlattenFirst(pieces, tail);
    ReplacePiece(prefix, p, rest, offset, delta, gen);
    LinesAndLines(prefix, p, NewBody(p, gen).value);
    InjectPair(src, marks, delta, gen);
  }

  lemma {:induction false} FlattenFirst(pieces: seq<Piece>, tail: string)
    requires pieces != []
    ensures Flatten(pieces, tail) == pieces[0].before + pieces[0].body + Flatten(pieces[1..], tail)
  {
  }

  /** From any point on: the rest of the original text stands behind what has been rewritten. */
  lemma {:induction false} InjectFrom(prefix: string, pieces: seq<Piece>, tail: string, offset: nat, delta: int, gen: Generator)
    requires WholeLines(prefix) && offset + delta == |prefix| && GoodDoc(pieces, tail) && Generates(pieces, gen)
    ensures Inject(prefix + Flatten(pieces, tail), MarksOf(pieces, offset), delta, gen)
         == Some(prefix + Flatten(Renew(pieces, gen), tail))
    decreases |pieces|
  {
    hide GoodPiece, NewBody, EndInFirstLine, WholeLines, GoodDoc, Generates, MarksOf, Inject, Flatten, Renew;
    if pieces == [] {
      NothingToInject(prefix, pieces, tail, offset, delta, gen);
    } else {
      var p, others := pieces[0], pieces[1..];
      DocFirst(pieces, tail, gen);
      RenewFirst(pieces, tail, gen);
      InjectFirst(prefix, pieces, tail, offset, delta, gen);
      var content := NewBody(p, gen).value;
      var done, more := prefix + p.before + content, Flatten(Renew(others, gen), tail);
      InjectFrom(done, others, tail, offset + |p.before| + |p.body|, delta - |p.body| + |content|, gen);
      Cut(prefix, p.before, content, more);
    }
  }

  lemma {:induction false} NothingToInject(prefix: string, pieces: seq<Piece>, tail: string, offset: nat, delta: int, gen: Generator)
    requires pieces == []
    ensures Inject(prefix + Flatten(pieces, tail), MarksOf(pieces, offset), delta, gen)
         == Some(prefix + Flatten(Renew(pieces, gen), tail))
  {
  }

  lemma {:induction false} InjectPair(src: string, marks: seq<Mark>, delta: int, gen: Generator)
    requires |marks| >= 2 && marks[0].Begin? && marks[1].End?
    ensures var r := Replace(src, marks[0], marks[1], delta, gen);
            Inject(src, marks, delta, gen) == if r.None? then None else Inject(r.value.0, marks[2..], r.value.1, gen)
  {
  }

  lemma {:induction false} RenewFirst(pieces: seq<Piece>, tail: string, gen: Generator)
    requires pieces != [] && NewBody(pieces[0], gen).Some?
    ensures Flatten(Renew(pieces, gen), tail)
         == pieces[0].before + NewBody(pieces[0], gen).value + Flatten(Renew(pieces[1..], gen), tail)
  {
    assert Renew(pieces, gen)[1..] == Renew(pieces[1..], gen);
  }

  // --- Injecting twice ---

  lemma {:induction false} RenewTwice(pieces: seq<Piece>, gen: Generator)
    ensures Renew(Renew(pieces, gen), gen) == Renew(pieces, gen)
  {
    hide Indentation;
    if pieces != [] { RenewTwice(pieces[1..], gen); }
  }

  lemma {:induction false} RenewGenerates(pieces: seq<Piece>, gen: Generator, i: nat)
    requires i < |pieces|
    ensures |Renew(pieces, gen)| == |pieces| && NewBody(Renew(pieces, gen)[i], gen) == NewBody(pieces[i], gen)
  {
    hide Indentation;
    if i > 0 { RenewGenerates(pieces[1..], gen, i - 1); } else if |pieces| > 1 { RenewGenerates(pieces[1..], gen, 0); }
  }

  /** The first line does not reach past the first lines of a piece. */
  lemma {:induction false} FirstLineOfPiece(p: Piece, rest: string, more: string, end: nat)
    requires GoodPiece(p) && EndInFirstLine(p.before + rest, end)
    ensures EndInFirstLine(p.before + more, end)
  {
    hide IndexOf, LineStart;
    forall k | 0 <= k <= end ensures (p.before + rest)[k] != '\n' {
      assert (p.before + rest)[..end + 1][k] == (p.before + rest)[k];
    }
    assert (p.before + rest)[|p.before| - 1] == '\n';
    assert (p.before + rest)[..end + 1] == p.before[..end + 1] == (p.before + more)[..end + 1];
  }

  lemma {:induction false} RenewedFirstLine(pieces: seq<Piece>, tail: string, gen: Generator, end: nat)
    requires GoodDoc(pieces, tail) && EndInFirstLine(Flatten(pieces, tail), end)
    ensures EndInFirstLine(Flatten(Renew(pieces, gen), tail), end)
  {
    hide GoodPiece, EndInFirstLine, NewBody;
    if pieces != [] {
      var p := pieces[0];
      var q := Renew(pieces, gen)[0];
      var rest, more := p.body + Flatten(pieces[1..], tail), q.body + Flatten(Renew(pieces, gen)[1..], tail);
      Assoc(p.before, p.body, Flatten(pieces[1..], tail));
      Assoc(p.before, q.body, Flatten(Renew(pieces, gen)[1..], tail));
      FirstLineOfPiece(p, rest, more, end);
    }
  }

  lemma {:induction false} RenewedPiece(p: Piece, gen: Generator)
    requires GoodPiece(p) && NewBody(p, gen).Some? && WholeLines(NewBody(p, gen).value)
    ensures GoodPiece(p.(body := NewBody(p, gen).value))
  {
  }

  lemma {:induction false} RenewedIsGood(pieces: seq<Piece>, tail: string, gen: Generator)
    requires GoodDoc(pieces, tail) && Generates(pieces, gen)
    ensures GoodDoc(Renew(pieces, gen), tail)
  {
    hide GoodPiece, EndInFirstLine, NewBody, WholeLines, Flatten, Generates;
    if pieces != [] {
      DocFirst(pieces, tail, gen);
      RenewedPiece(pieces[0], gen);
      RenewedIsGood(pieces[1..], tail, gen);
      RenewedFirstLine(pieces[1..], tail, gen, pieces[0].end);
      assert Renew(pieces, gen)[1..] == Renew(pieces[1..], gen);
    }
  }

  // --- Finding the markers ---

  /** The markers of a line, with their places in it. */
  type Recognizer = string -> seq<Mark>

  function Moved(m: Mark, n: nat): Mark {
    match m
    case Begin(at, name) => Begin(at + n, name)
    case End(at) => End(at + n)
  }

  function Shift(marks: seq<Mark>, n: nat): seq<Mark> {
    seq(|marks|, i requires 0 <= i < |marks| => Moved(marks[i], n))
  }

  function FirstLine(text: string): (n: nat)
    requires text != ""
    ensures 0 < n <= |text|
  {
    var newline := IndexOf(text, '\n', 0);
    if newline < 0 then |text| else newline + 1
  }

  /** The markers of all lines. */
  function FindAll(text: string, marksIn: Recognizer): seq<Mark> {
    if text == "" then []
    else
      var n := FirstLine(text);
      marksIn(text[..n]) + Shift(FindAll(text[n..], marksIn), n)
  }

  lemma {:induction false} ShiftTwice(marks: seq<Mark>, a: nat, b: nat)
    ensures Shift(Shift(marks, a), b) == Shift(marks, a + b)
  {
  }

  lemma {:induction false} ShiftConcat(a: seq<Mark>, b: seq<Mark>, n: nat)
    ensures Shift(a + b, n) == Shift(a, n) + Shift(b, n)
  {
  }

  lemma {:induction false} FirstLineInPrefix(a: string, b: string)
    requires a != "" && WholeLines(a)
    ensures FirstLine(a + b) == FirstLine(a)
  {
    LastIsNewline(a, 0);
    IndexOfInPrefix(a, b, '\n', 0);
  }

  lemma {:induction false} LastIsNewline(a: string, from: nat)
    requires from < |a| && a[|a| - 1] == '\n'
    ensures IndexOf(a, '\n', from) >= 0
    decreases |a| - from
  {
    if a[from] != '\n' { LastIsNewline(a, from + 1); }
  }

  lemma {:induction false} FindStep(text: string, marksIn: Recognizer)
    requires text != ""
    ensures var n := FirstLine(text); FindAll(text, marksIn) == marksIn(text[..n]) + Shift(FindAll(text[n..], marksIn), n)
  {
    hide FirstLine;
  }

  lemma {:induction false} FindNothing(marksIn: Recognizer)
    ensures FindAll("", marksIn) == []
  {
  }

  lemma {:induction false} FindParts(a: string, b: string, marksIn: Recognizer)
    requires WholeLines(a) && a != ""
    ensures var n := FirstLine(a);
            && FindAll(a, marksIn) == marksIn(a[..n]) + Shift(FindAll(a[n..], marksIn), n)
            && FindAll(a + b, marksIn) == marksIn(a[..n]) + Shift(FindAll(a[n..] + b, marksIn), n)
            && WholeLines(a[n..])
  {
    hide FindAll, Shift;
    FirstLineInPrefix(a, b);
    FindStep(a, marksIn);
    FindStep(a + b, marksIn);
    CutConcat(a, b, FirstLine(a));
  }

  lemma {:induction false} FindInConcat(a: string, b: string, marksIn: Recognizer)
    requires WholeLines(a)
    ensures FindAll(a + b, marksIn) == FindAll(a, marksIn) + Shift(FindAll(b, marksIn), |a|)
    decreases |a|
  {
    if a == "" {
      assert a + b == b;
      hide FindAll;
      assert Shift(FindAll(b, marksIn), 0) == FindAll(b, marksIn);
      assert FindAll(a, marksIn) == [] by { FindNothing(marksIn); }
    } else {
      hide *;
      var n := FirstLine(a);
      FindParts(a, b, marksIn);
      FindInConcat(a[n..], b, marksIn);
      JoinFound(marksIn(a[..n]), FindAll(a[n..], marksIn), FindAll(b, marksIn), n, |a|);
    }
  }

  lemma {:induction false} JoinFound(first: seq<Mark>, rest: seq<Mark>, more: seq<Mark>, n: nat, m: nat)
    requires n <= m
    ensures first + Shift(rest + Shift(more, m - n), n) == first + Shift(rest, n) + Shift(more, m)
  {
    hide Shift;
    ShiftConcat(rest, Shift(more, m - n), n);
    ShiftTwice(more, m - n, n);
  }

  lemma {:induction false} CutConcat(a: string, b: string, n: nat)
    requires n <= |a|
    ensures (a + b)[..n] == a[..n] && (a + b)[n..] == a[n..] + b && (WholeLines(a) ==> WholeLines(a[n..]))
  {
  }

  /** The markers that are found are those of the pieces; `open` is the end marker that is due. */
  ghost predicate Marked(pieces: seq<Piece>, tail: string, open: seq<Mark>, marksIn: Recognizer) {
    if pieces == [] then FindAll(tail, marksIn) == open
    else
      && FindAll(pieces[0].before, marksIn) == open + [Begin(pieces[0].begin, pieces[0].name)]
      && FindAll(pieces[0].body, marksIn) == []
      && Marked(pieces[1..], tail, [End(pieces[0].end)], marksIn)
  }

  lemma {:induction false} MarksMoved(pieces: seq<Piece>, offset: nat, n: nat)
    ensures MarksOf(pieces, offset + n) == Shift(MarksOf(pieces, offset), n)
  {
    if pieces != [] {
      var p := pieces[0];
      var next := offset + |p.before| + |p.body|;
      MarksMoved(pieces[1..], next, n);
      ShiftConcat([Begin(offset + p.begin, p.name), End(next + p.end)], MarksOf(pieces[1..], next), n);
    }
  }

  lemma {:induction false} MarkersFound(pieces: seq<Piece>, tail: string, open: seq<Mark>, marksIn: Recognizer)
    requires GoodDoc(pieces, tail) && Marked(pieces, tail, open, marksIn)
    ensures FindAll(Flatten(pieces, tail), marksIn) == open + MarksOf(pieces, 0)
  {
    hide FindAll, Shift;
    if pieces != [] {
      var p, rest := pieces[0], Flatten(pieces[1..], tail);
      assert WholeLines(p.before) && WholeLines(p.body);
      hide GoodPiece, EndInFirstLine, WholeLines;
      MarkersFound(pieces[1..], tail, [End(p.end)], marksIn);
      var marks := MarksOf(pieces[1..], 0);
      Assoc(p.before, p.body, rest);
      FindInConcat(p.before, p.body + rest, marksIn);
      FindInConcat(p.body, rest, marksIn);
      JoinMarks(open, p, marks);
      MarksMoved(pieces[1..], 0, |p.before| + |p.body|);
    }
  }

  lemma {:induction false} JoinMarks(open: seq<Mark>, p: Piece, marks: seq<Mark>)
    ensures open + [Begin(p.begin, p.name)] + Shift([] + Shift([End(p.end)] + marks, |p.body|), |p.before|)
         == open + ([Begin(p.begin, p.name), End(|p.before| + |p.body| + p.end)] + Shift(marks, |p.before| + |p.body|))
  {
    assert [] + Shift([End(p.end)] + marks, |p.body|) == Shift([End(p.end)] + marks, |p.body|);
    ShiftTwice([End(p.end)] + marks, |p.body|, |p.before|);
    ShiftConcat([End(p.end)], marks, |p.before| + |p.body|);
    assert Shift([End(p.end)], |p.before| + |p.body|) == [End(|p.before| + |p.body| + p.end)];
  }

  lemma {:induction false} RenewedIsMarked(pieces: seq<Piece>, tail: string, open: seq<Mark>, marksIn: Recognizer, gen: Generator)
    requires Generates(pieces, gen) && Marked(pieces, tail, open, marksIn)
    requires forall i | 0 <= i < |pieces| :: FindAll(NewBody(pieces[i], gen).value, marksIn) == []
    ensures Marked(Renew(pieces, gen), tail, open, marksIn)
  {
    hide FindAll, NewBody, WholeLines;
    if pieces != [] {
      assert Generates(pieces[1..], gen);
      RenewedIsMarked(pieces[1..], tail, [End(pieces[0].end)], marksIn, gen);
      assert Renew(pieces, gen)[1..] == Renew(pieces[1..], gen);
    }
  }

  /** Injecting replaces the text between each pair of markers by what is generated for it; all other
      text stays, in its order. */
  lemma {:induction false} InjectReplacesBodies(pieces: seq<Piece>, tail: string, marksIn: Recognizer, gen: Generator)
    requires GoodDoc(pieces, tail) && Generates(pieces, gen) && Marked(pieces, tail, [], marksIn)
    ensures var src := Flatten(pieces, tail);
            Inject(src, FindAll(src, marksIn), 0, gen) == Some(Flatten(Renew(pieces, gen), tail))
  {
    MarkersFound(pieces, tail, [], marksIn);
    hide Flatten, FindAll, MarksOf, Inject, Renew;
    InjectFrom("", pieces, tail, 0, 0, gen);
    NothingBefore(Flatten(pieces, tail));
    NothingBefore(Flatten(Renew(pieces, gen), tail));
    assert [] + MarksOf(pieces, 0) == MarksOf(pieces, 0);
  }

  lemma {:induction false} NothingBefore(s: string)
    ensures "" + s == s
  {
  }

  /** Injecting a second time changes nothing, if the generated text has no markers. */
  lemma {:induction false} InjectTwice(pieces: seq<Piece>, tail: string, marksIn: Recognizer, gen: Generator)
    requires GoodDoc(pieces, tail) && Generates(pieces, gen) && Marked(pieces, tail, [], marksIn)
    requires forall i | 0 <= i < |pieces| :: FindAll(NewBody(pieces[i], gen).value, marksIn) == []
    ensures var src := Flatten(pieces, tail);
            var once := Inject(src, FindAll(src, marksIn), 0, gen);
            once.Some? && Inject(once.value, FindAll(once.value, marksIn), 0, gen) == once
  {
    InjectReplacesBodies(pieces, tail, marksIn, gen);
    RenewedIsGood(pieces, tail, gen);
    RenewedIsMarked(pieces, tail, [], marksIn, gen);
    RenewTwice(pieces, gen);
    var renewed := Renew(pieces, gen);
    hide Flatten, FindAll, MarksOf, Inject, Renew, GoodDoc, Marked, NewBody;
    forall i | 0 <= i < |renewed| ensures NewBody(renewed[i], gen).Some? && WholeLines(NewBody(renewed[i], gen).value) {
      RenewSize(pieces, gen);
      RenewGenerates(pieces, gen, i);
    }
    InjectReplacesBodies(renewed, tail, marksIn, gen);
  }

  lemma {:induction false} RenewSize(pieces: seq<Piece>, gen: Generator)
    ensures |Renew(pieces, gen)| == |pieces|
  {
    hide NewBody;
    if pieces != [] { RenewSize(pieces[1..], gen); }
  }

  // --- Markers anywhere ---

  ghost predicate HasNewline(s: string, from: nat, to: nat) {
    exists i :: from <= i < to && i < |s| && s[i] == '\n'
  }

  /** There is no newline between the markers of a pair, but one later. */
  ghost predicate OnOneLine(s: string, begin: nat, end: nat) {
    HasNewline(s, begin, |s|) && !HasNewline(s, begin, end + 1)
  }

  lemma {:induction false} FirstNewline(s: string, from: nat)
    ensures var r := IndexOf(s, '\n', from); (r >= 0 <==> HasNewline(s, from, |s|)) && !HasNewline(s, from, if r < 0 then |s| else r)
    decreases |s| - from
  {
    if from < |s| && s[from] != '\n' { FirstNewline(s, from + 1); }
  }

  lemma {:induction false} LastNewline(s: string, from: nat)
    ensures !HasNewline(s, LineStart(s, from), from + 1)
  {
    if from >= |s| {
      if |s| > 0 { LastNewline(s, |s| - 1); }
    } else if from > 0 && s[from] != '\n' {
      LastNewline(s, from - 1);
    }
  }

  /** The place after the first newline from `begin` on is behind the line start of `end` exactly for
      a pair on one line. */
  lemma {:induction false} PlacesCross(s: string, begin: nat, end: nat)
    ensures IndexOf(s, '\n', begin) + 1 > LineStart(s, end) <==> OnOneLine(s, begin, end)
  {
    FirstNewline(s, begin);
    LastNewline(s, end);
    hide IndexOf, LastIndexOf;
    var first, start := IndexOf(s, '\n', begin), LineStart(s, end);
    if first >= 0 && first + 1 <= start { assert s[first] == '\n' && first <= end by { LineStartBound(s, end); } }
  }

  lemma {:induction false} LineStartBound(s: string, at: nat)
    ensures LineStart(s, at) <= at + 1 && LineStart(s, at) <= |s|
  {
  }

  /** One pair, anywhere and at any shift: it fails exactly if its markers are on one line that is not
      the last, or nothing is generated. */
  lemma {:induction false} ReplaceFails(src: string, def: Mark, end: Mark, delta: int, gen: Generator)
    requires def.Begin?
    ensures Replace(src, def, end, delta, gen).None? <==>
            || OnOneLine(src, FromZero(def.at + delta), FromZero(end.at + delta))
            || gen(def.name, Indentation(src, FromZero(def.at + delta))).None?
  {
    PlacesCross(src, FromZero(def.at + delta), FromZero(end.at + delta));
    hide IndexOf, LastIndexOf, Indentation, OnOneLine;
  }

  /** The text before the begin marker is the start of the result. */
  ghost predicate KeepsBefore(src: string, def: Mark, end: Mark, delta: int, gen: Generator)
    requires def.Begin? && 0 <= def.at + delta <= |src|
  {
    var r := Replace(src, def, end, delta, gen);
    r.Some? ==> src[..def.at + delta] <= r.value.0
  }

  /** What is in front of and behind the new text. */
  lemma {:induction false} ReplaceParts(src: string, def: Mark, end: Mark, delta: int, gen: Generator)
    requires def.Begin? && Replace(src, def, end, delta, gen).Some?
    ensures var b, e := FromZero(def.at + delta), FromZero(end.at + delta);
            var content := gen(def.name, Indentation(src, b));
            var first, last := IndexOf(src, '\n', b) + 1, LineStart(src, e);
            && content.Some? && first <= last <= |src|
            && Replace(src, def, end, delta, gen)
               == Some((src[..first] + content.value + src[last..], delta - (last - first) + |content.value|))
  {
    hide IndexOf, LastIndexOf, Indentation;
  }

  /** One pair keeps the text before it, whatever is generated, exactly if there is a newline behind
      the begin marker, or nothing before it. */
  lemma {:induction false} ReplaceKeepsText(src: string, def: Mark, end: Mark, delta: int)
    requires def.Begin? && 0 <= def.at + delta <= |src|
    ensures (forall gen: Generator :: KeepsBefore(src, def, end, delta, gen)) <==>
            HasNewline(src, def.at + delta, |src|) || def.at + delta == 0
  {
    var b := def.at + delta;
    FirstNewline(src, b);
    if HasNewline(src, b, |src|) || b == 0 {
      forall gen: Generator ensures KeepsBefore(src, def, end, delta, gen) {
        KeepsBeforeNewline(src, def, end, delta, gen);
      }
    } else {
      var gen := Other(src[0]);
      ReplaceFails(src, def, end, delta, gen);
      ReplaceParts(src, def, end, delta, gen);
      hide IndexOf, LastIndexOf, Indentation, Replace;
      var r := Replace(src, def, end, delta, gen).value.0;
      assert r[0] != src[0] && src[..b][0] == src[0];
      assert !KeepsBefore(src, def, end, delta, gen);
    }
  }

  lemma {:induction false} ReplaceStart(src: string, def: Mark, end: Mark, delta: int, gen: Generator, b: nat)
    requires def.Begin? && b == def.at + delta && Replace(src, def, end, delta, gen).Some?
    ensures src[..IndexOf(src, '\n', b) + 1] <= Replace(src, def, end, delta, gen).value.0
  {
    hide IndexOf, LastIndexOf, Indentation;
  }

  lemma {:induction false} KeepsBeforeNewline(src: string, def: Mark, end: Mark, delta: int, gen: Generator)
    requires def.Begin? && 0 <= def.at + delta <= |src|
    requires HasNewline(src, def.at + delta, |src|) || def.at + delta == 0
    ensures KeepsBefore(src, def, end, delta, gen)
  {
    hide Replace, HasNewline;
    if Replace(src, def, end, delta, gen).Some? && def.at + delta > 0 {
      NewlineIsAhead(src, def.at + delta);
      ReplaceStart(src, def, end, delta, gen, def.at + delta);
      hide IndexOf;
      ShorterStart(src, def.at + delta, IndexOf(src, '\n', def.at + delta) + 1, Replace(src, def, end, delta, gen).value.0);
    }
  }

  lemma {:induction false} NewlineIsAhead(s: string, from: nat)
    requires HasNewline(s, from, |s|)
    ensures IndexOf(s, '\n', from) >= from
  {
    FirstNewline(s, from);
  }

  lemma {:induction false} ShorterStart(src: string, b: nat, first: nat, r: string)
    requires b <= first <= |src| && src[..first] <= r
    ensures src[..b] <= r
  {
    assert src[..first][..b] == src[..b];
  }

  /** Always generates a text that begins differently. */
  function Other(c: char): Generator {
    (name, indentation) => Some(if c == '/' then "*" else "/")
  }

  // --- All pairs, with markers anywhere ---

  /** Begin and end markers take turns. */
  predicate Paired(marks: seq<Mark>)
    decreases |marks|
  {
    marks == [] || (|marks| >= 2 && marks[0].Begin? && marks[1].End? && Paired(marks[2..]))
  }

  ghost predicate Ordered(marks: seq<Mark>, n: nat) {
    && (forall i | 0 <= i < |marks| :: marks[i].at < n)
    && (forall i, j | 0 <= i < j < |marks| :: marks[i].at < marks[j].at)
  }

  ghost predicate SomeOnOneLine(src: string, marks: seq<Mark>)
    decreases |marks|
  {
    |marks| >= 2 && (OnOneLine(src, marks[0].at, marks[1].at) || SomeOnOneLine(src, marks[2..]))
  }

  /** Whether something is generated depends on the name alone: an unknown enumeration, or one with a
      name without the prefix, stops the program. */
  ghost predicate ByName(gen: Generator) {
    forall name, i, j :: gen(name, i).Some? <==> gen(name, j).Some?
  }

  /** Nothing is generated for some begin marker. */
  predicate SomeMissing(marks: seq<Mark>, gen: Generator) {
    exists k :: 0 <= k < |marks| && marks[k].Begin? && gen(marks[k].name, "").None?
  }

  lemma {:induction false} MissingInPair(marks: seq<Mark>, gen: Generator)
    requires |marks| >= 2 && marks[0].Begin? && marks[1].End?
    ensures SomeMissing(marks, gen) <==> gen(marks[0].name, "").None? || SomeMissing(marks[2..], gen)
  {
    if SomeMissing(marks, gen) && gen(marks[0].name, "").Some? {
      var k :| 0 <= k < |marks| && marks[k].Begin? && gen(marks[k].name, "").None?;
      assert marks[2..][k - 2] == marks[k];
    }
  }

  /** The current text is a new part followed by the original text from `q` on. */
  ghost predicate Aligned(cur: string, src: string, done: string, q: nat, delta: int) {
    q <= |src| && cur == done + src[q..] && delta == |done| - q
  }

  lemma {:induction false} NewlineShift(cur: string, src: string, done: string, q: nat, delta: int, from: nat, to: nat)
    requires Aligned(cur, src, done, q, delta) && q <= from && q <= to
    ensures HasNewline(cur, from + delta, to + delta) <==> HasNewline(src, from, to)
  {
    if HasNewline(src, from, to) {
      var i :| from <= i < to && i < |src| && src[i] == '\n';
      assert cur[i + delta] == '\n';
    }
    if HasNewline(cur, from + delta, to + delta) {
      var i :| from + delta <= i < to + delta && i < |cur| && cur[i] == '\n';
      assert src[i - delta] == '\n';
    }
  }

  lemma {:induction false} OneLineShift(cur: string, src: string, done: string, q: nat, delta: int, begin: nat, end: nat)
    requires Aligned(cur, src, done, q, delta) && q <= begin && q <= end && begin < |src|
    ensures HasNewline(cur, begin + delta, |cur|) <==> HasNewline(src, begin, |src|)
    ensures OnOneLine(cur, begin + delta, end + delta) <==> OnOneLine(src, begin, end)
  {
    NewlineShift(cur, src, done, q, delta, begin, |src|);
    NewlineShift(cur, src, done, q, delta, begin, end + 1);
    hide HasNewline;
    assert |cur| == |src| + delta;
  }

  /** After a pair, the rest of the original text still stands behind what is new. */
  lemma {:induction false} NextAligned(cur: string, src: string, done: string, q: nat, delta: int, def: Mark, end: Mark, gen: Generator)
    returns (done': string, q': nat)
    requires Aligned(cur, src, done, q, delta) && def.Begin? && q <= def.at < end.at < |src|
    requires Replace(cur, def, end, delta, gen).Some?
    ensures var r := Replace(cur, def, end, delta, gen).value;
            && Aligned(r.0, src, done', q', r.1) && q' <= end.at + 1
            && (if HasNewline(src, def.at, |src|) then cur[..def.at + delta] <= done'
                else var content := gen(def.name, Indentation(cur, def.at + delta)); content.Some? && content.value <= done')
  {
    var b, e := def.at + delta, end.at + delta;
    OneLineShift(cur, src, done, q, delta, def.at, end.at);
    AlignedPlaces(cur, src, done, q, delta, def.at);
    FirstNewline(cur, b);
    ReplaceParts(cur, def, end, delta, gen);
    LineStartBound(cur, e);
    hide Replace, IndexOf, LineStart, Indentation, HasNewline, Aligned;
    var content := gen(def.name, Indentation(cur, b)).value;
    var first, last := IndexOf(cur, '\n', b) + 1, LineStart(cur, e);
    done', q' := NewParts(cur, src, done, q, delta, first, last, content);
    PrefixOfParts(cur, b, first, content, done');
  }

  lemma {:induction false} PrefixOfParts(cur: string, b: nat, first: nat, content: string, s: string)
    requires b <= |cur| && first <= |cur| && cur[..first] + content <= s
    ensures if first > b then cur[..b] <= s else first == 0 ==> content <= s
  {
    if first > b { assert cur[..first][..b] == cur[..b]; }
    if first == 0 { assert cur[..first] + content == content; }
  }

  lemma {:induction false} NewParts(cur: string, src: string, done: string, q: nat, delta: int, first: nat, last: nat, content: string)
    returns (done': string, q': nat)
    requires Aligned(cur, src, done, q, delta) && first <= last <= |cur|
    ensures Aligned(cur[..first] + content + cur[last..], src, done', q', delta - (last - first) + |content|)
    ensures cur[..first] + content <= done' && (q' == q || q' == last - delta)
  {
    if last >= |done| {
      done', q' := cur[..first] + content, last - delta;
      RestOf(cur, src, done, q, delta, last);
    } else {
      done', q' := cur[..first] + content + done[last..], q;
      assert cur[last..] == done[last..] + src[q..];
    }
  }

  lemma {:induction false} RestOf(cur: string, src: string, done: string, q: nat, delta: int, last: nat)
    requires Aligned(cur, src, done, q, delta) && |done| <= last <= |cur|
    ensures 0 <= last - delta <= |src| && cur[last..] == src[last - delta..]
  {
  }

  lemma {:induction false} OrderedRest(marks: seq<Mark>, n: nat)
    requires Ordered(marks, n) && |marks| >= 2
    ensures Ordered(marks[2..], n)
  {
  }

  lemma {:induction false} InjectFailsFrom(cur: string, src: string, done: string, q: nat, delta: int, marks: seq<Mark>, gen: Generator)
    requires Aligned(cur, src, done, q, delta) && Ordered(marks, |src|) && (marks != [] ==> q <= marks[0].at)
    ensures !Paired(marks) || SomeOnOneLine(src, marks) ==> Inject(cur, marks, delta, gen).None?
    ensures ByName(gen) ==>
              (Inject(cur, marks, delta, gen).None? <==>
               !Paired(marks) || SomeOnOneLine(src, marks) || SomeMissing(marks, gen))
    decreases |marks|
  {
    hide Replace, OnOneLine, Indentation, Aligned, SomeMissing;
    if marks == [] { NothingMissing(gen); }
    if |marks| >= 2 && marks[0].Begin? && marks[1].End? {
      var def, end := marks[0], marks[1];
      AlignedPlaces(cur, src, done, q, delta, def.at);
      OneLineShift(cur, src, done, q, delta, def.at, end.at);
      ReplaceFails(cur, def, end, delta, gen);
      InjectPair(cur, marks, delta, gen);
      MissingInPair(marks, gen);
      OrderedRest(marks, |src|);
      if Replace(cur, def, end, delta, gen).Some? {
        var done', q' := NextAligned(cur, src, done, q, delta, def, end, gen);
        var r := Replace(cur, def, end, delta, gen).value;
        InjectFailsFrom(r.0, src, done', q', r.1, marks[2..], gen);
      }
    }
  }

  lemma {:induction false} NothingMissing(gen: Generator)
    ensures !SomeMissing([], gen)
  {
  }

  lemma {:induction false} AlignedPlaces(cur: string, src: string, done: string, q: nat, delta: int, at: nat)
    requires Aligned(cur, src, done, q, delta) && q <= at < |src|
    ensures 0 <= at + delta < |cur|
  {
  }

  /** The markers of a line are in it, in order. */
  ghost predicate GoodRecognizer(marksIn: Recognizer) {
    forall line :: Ordered(marksIn(line), |line|)
  }

  lemma {:induction false} FoundInOrder(text: string, marksIn: Recognizer)
    requires GoodRecognizer(marksIn)
    ensures Ordered(FindAll(text, marksIn), |text|)
    decreases |text|
  {
    if text != "" {
      var n := FirstLine(text);
      hide FirstLine;
      FoundInOrder(text[n..], marksIn);
      assert Ordered(marksIn(text[..n]), |text[..n]|);
      OrderedJoin(marksIn(text[..n]), FindAll(text[n..], marksIn), n, |text|);
    }
  }

  lemma {:induction false} OrderedJoin(a: seq<Mark>, b: seq<Mark>, n: nat, m: nat)
    requires n <= m && Ordered(a, n) && Ordered(b, m - n)
    ensures Ordered(a + Shift(b, n), m)
  {
    assert forall i | 0 <= i < |b| :: Shift(b, n)[i].at == b[i].at + n;
  }

  /** With markers anywhere, the injection fails exactly if they do not pair up, or the markers of some
      pair are on one line that is not the last, or nothing is generated for an enumeration. */
  lemma {:induction false} InjectFails(src: string, marksIn: Recognizer, gen: Generator)
    requires GoodRecognizer(marksIn)
    ensures var marks := FindAll(src, marksIn);
            && (!Paired(marks) || SomeOnOneLine(src, marks) ==> Inject(src, marks, 0, gen).None?)
            && (ByName(gen) ==>
                  (Inject(src, marks, 0, gen).None? <==>
                   !Paired(marks) || SomeOnOneLine(src, marks) || SomeMissing(marks, gen)))
  {
    var marks := FindAll(src, marksIn);
    FoundInOrder(src, marksIn);
    StartAligned(src);
    hide Aligned, FindAll, SomeMissing, ByName;
    InjectFailsFrom(src, src, "", 0, 0, marks, gen);
  }

  lemma {:induction false} StartAligned(src: string)
    ensures Aligned(src, src, "", 0, 0)
  {
    assert src == "" + src[0..];
  }

  lemma {:induction false} MoreNewlines(s: string, a: nat, b: nat)
    requires a <= b && HasNewline(s, b, |s|)
    ensures HasNewline(s, a, |s|)
  {
  }

  lemma {:induction false} LongerPrefix(a: string, b: string, n: nat, c: string)
    requires a <= b && |a| <= n <= |b| && b[..n] <= c
    ensures a <= c
  {
    assert b[..n][..|a|] == a;
  }

  lemma {:induction false} AlignedPrefix(cur: string, src: string, done: string, q: nat, delta: int)
    requires Aligned(cur, src, done, q, delta)
    ensures done <= cur && delta == |done| - q
  {
  }

  /** A newline behind the last begin marker: what is in front of the first one is kept. */
  lemma {:induction false} InjectKeepsFrom(cur: string, src: string, done: string, q: nat, delta: int,
                                           marks: seq<Mark>, gen: Generator, kept: string)
    requires Aligned(cur, src, done, q, delta) && Ordered(marks, |src|) && Paired(marks)
    requires kept <= cur && (marks != [] ==> q <= marks[0].at && |kept| <= marks[0].at + delta)
    requires marks != [] ==> HasNewline(src, marks[|marks| - 2].at, |src|)
    ensures Inject(cur, marks, delta, gen).Some? ==> kept <= Inject(cur, marks, delta, gen).value
    decreases |marks|
  {
    hide Replace, OnOneLine, Indentation, Aligned, HasNewline;
    if marks != [] {
      var def, end := marks[0], marks[1];
      InjectPair(cur, marks, delta, gen);
      OrderedRest(marks, |src|);
      MoreNewlines(src, def.at, marks[|marks| - 2].at);
      AlignedPlaces(cur, src, done, q, delta, def.at);
      if Replace(cur, def, end, delta, gen).Some? {
        var done', q' := NextAligned(cur, src, done, q, delta, def, end, gen);
        var r := Replace(cur, def, end, delta, gen).value;
        AlignedPrefix(r.0, src, done', q', r.1);
        LongerPrefix(kept, cur, def.at + delta, done');
        LongerPrefix(kept, done', |done'|, r.0);
        assert done'[..|done'|] == done';
        InjectKeepsFrom(r.0, src, done', q', r.1, marks[2..], gen, kept);
      }
    }
  }

  /** No newline behind the last begin marker: the result starts with what is generated for it. */
  lemma {:induction false} InjectLosesFrom(cur: string, src: string, done: string, q: nat, delta: int, marks: seq<Mark>, c: char)
    requires Aligned(cur, src, done, q, delta) && Ordered(marks, |src|) && Paired(marks) && !SomeOnOneLine(src, marks)
    requires marks != [] && q <= marks[0].at && !HasNewline(src, marks[|marks| - 2].at, |src|)
    ensures var r := Inject(cur, marks, delta, Other(c)); r.Some? && r.value != "" && r.value[0] != c
    decreases |marks|
  {
    hide Replace, OnOneLine, Indentation, Aligned, HasNewline;
    var def, end, gen := marks[0], marks[1], Other(c);
    InjectPair(cur, marks, delta, gen);
    OrderedRest(marks, |src|);
    AlignedPlaces(cur, src, done, q, delta, def.at);
    OneLineShift(cur, src, done, q, delta, def.at, end.at);
    ReplaceFails(cur, def, end, delta, gen);
    var done', q' := NextAligned(cur, src, done, q, delta, def, end, gen);
    var r := Replace(cur, def, end, delta, gen).value;
    AlignedPrefix(r.0, src, done', q', r.1);
    if |marks| > 2 { InjectLosesFrom(r.0, src, done', q', r.1, marks[2..], c); }
  }

  /** The text before the first marker is the start of the result. */
  ghost predicate KeepsStart(src: string, marks: seq<Mark>, gen: Generator)
    requires marks != [] && marks[0].at <= |src|
  {
    var r := Inject(src, marks, 0, gen);
    r.Some? ==> src[..marks[0].at] <= r.value
  }

  /** With markers anywhere, an injection that does not fail keeps the text before the first marker,
      whatever is generated, exactly if there is a newline behind the last begin marker, or nothing
      before the first one. */
  lemma {:induction false} InjectKeepsText(src: string, marksIn: Recognizer)
    requires GoodRecognizer(marksIn)
    ensures var marks := FindAll(src, marksIn);
            marks != [] && Paired(marks) && !SomeOnOneLine(src, marks) ==>
            && marks[0].at < |src|
            && ((forall gen: Generator :: KeepsStart(src, marks, gen)) <==>
                HasNewline(src, marks[|marks| - 2].at, |src|) || marks[0].at == 0)
  {
    var marks := FindAll(src, marksIn);
    FoundInOrder(src, marksIn);
    hide FindAll;
    if marks != [] && Paired(marks) && !SomeOnOneLine(src, marks) { OrderedKeepsText(src, marks); }
  }

  lemma {:induction false} OrderedKeepsText(src: string, marks: seq<Mark>)
    requires marks != [] && Ordered(marks, |src|) && Paired(marks) && !SomeOnOneLine(src, marks)
    ensures marks[0].at < |src|
    ensures (forall gen: Generator :: KeepsStart(src, marks, gen)) <==>
            HasNewline(src, marks[|marks| - 2].at, |src|) || marks[0].at == 0
  {
    var begin := marks[0].at;
    assert begin < |src|;
    StartAligned(src);
    hide Aligned, Inject, HasNewline, OnOneLine, Ordered;
    if HasNewline(src, marks[|marks| - 2].at, |src|) || begin == 0 {
      forall gen: Generator ensures KeepsStart(src, marks, gen) {
        if begin > 0 { InjectKeepsFrom(src, src, "", 0, 0, marks, gen, src[..begin]); }
      }
    } else {
      InjectLosesFrom(src, src, "", 0, 0, marks, src[0]);
      var r := Inject(src, marks, 0, Other(src[0]));
      assert src[..begin][0] == src[0];
      assert !KeepsStart(src, marks, Other(src[0]));
    }
  }

  // --- The program ---

  method InjectEnumsToSource(source: string, marksIn: Recognizer, gen: Generator) returns (r: Option<string>)
    ensures r == Inject(source, FindAll(source, marksIn), 0, gen)
  {
    var matches := FindAll(source, marksIn);
    var src, delta := source, 0;
    var i := 0;
    hide Replace, FindAll;
    while i < |matches|
      invariant i <= |matches| && Inject(source, matches, 0, gen) == Inject(src, matches[i..], delta, gen)
    {
      var rest := matches[i..];
      var def := rest[0];
      if !def.Begin? || |rest| == 1 { return None; }
      var end := rest[1];
      if !end.End? { return None; }
      var replaced := Replace(src, def, end, delta, gen);
      if replaced.None? { return None; }
      assert matches[i + 2..] == rest[2..];
      src, delta := replaced.value.0, replaced.value.1;
      i := i + 2;
    }
    return Some(src);
  }
}
