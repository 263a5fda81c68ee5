/** The tokenizer of db/exp.js: a one-pass longest-match lexer as a function, and the loop of the
    program, which takes back a `.` it has already emitted, proved against it. */
module ExpLexer {
  import opened ExpSyntax
  import opened Arithmetic
  import Bits

  datatype Category = NoCategory | Space | Alpha | Digit | Punctuation

  function CategoryOf(c: char): Category {
    var n := c as int;
    if 9 <= n <= 13 || n == 32 then Space
    else if 48 <= n <= 57 then Digit
    else if 65 <= n <= 90 || n == 95 || 97 <= n <= 122 then Alpha
    else if 33 <= n <= 126 then Punctuation
    else NoCategory
  }

  datatype Error = UnrecognizedCharacter(c: char) | InvalidHexNumber

  datatype Lexed = Tokens(tokens: seq<Token>) | Fail(error: Error)

  function Prepend(ts: seq<Token>, r: Lexed): Lexed {
    if r.Fail? then r else Tokens(ts + r.tokens)
  }

  // --- Spans of characters ---

  predicate IsDigit(c: char) { CategoryOf(c) == Digit }

  predicate IsWord(c: char) { CategoryOf(c) == Alpha || CategoryOf(c) == Digit }

  predicate IsPunct(c: char) { CategoryOf(c) == Punctuation }

  /** The length of the longest prefix of digits. */
  function DigitSpan(s: string): (n: nat)
    ensures n <= |s|
  {
    if s == "" || !IsDigit(s[0]) then 0 else 1 + DigitSpan(s[1..])
  }

  /** The length of the longest prefix of letters and digits. */
  function WordSpan(s: string): (n: nat)
    ensures n <= |s|
  {
    if s == "" || !IsWord(s[0]) then 0 else 1 + WordSpan(s[1..])
  }

  /** The length of the longest prefix of punctuation. */
  function PunctSpan(s: string): (n: nat)
    ensures n <= |s|
  {
    if s == "" || !IsPunct(s[0]) then 0 else 1 + PunctSpan(s[1..])
  }

  lemma {:induction false} DigitSpanOf(d: string, s: string)
    requires forall i | 0 <= i < |d| :: IsDigit(d[i])
    requires s == "" || !IsDigit(s[0])
    ensures DigitSpan(d + s) == |d|
  {
    if d == "" {
      assert d + s == s;
    } else {
      assert (d + s)[1..] == d[1..] + s;
      DigitSpanOf(d[1..], s);
    }
  }

  // --- Numbers ---

  function DigitAt(s: string, i: nat): bool {
    i < |s| && IsDigit(s[i])
  }

  /** The length of the digits and the fraction at the start of `s`. */
  function MantissaSpan(s: string): (n: nat)
    ensures n <= |s|
  {
    var d := DigitSpan(s);
    if d < |s| && s[d] == '.' && DigitAt(s, d + 1) then d + 1 + DigitSpan(s[d + 1..]) else d
  }

  /** The length of the exponent at the start of `s`. The program's character classes `[E|e]` and
      `[+|-]` contain the bar. */
  function ExponentSpan(s: string): (n: nat)
    ensures n <= |s|
  {
    if s == "" || s[0] !in "E|e" then 0
    else if |s| > 1 && s[1] in "+|-" && DigitAt(s, 2) then 2 + DigitSpan(s[2..])
    else if DigitAt(s, 1) then 1 + DigitSpan(s[1..])
    else 0
  }

  function NumberSpan(s: string): (n: nat)
    ensures n <= |s|
  {
    var m := MantissaSpan(s);
    m + ExponentSpan(s[m..])
  }

  /** The value of a string of digits. */
  function Decimal(s: string): (n: nat)
    requires forall c | c in s :: IsDigit(c)
  {
    if s == "" then 0
    else
      assert IsDigit(s[|s| - 1]);
      10 * Decimal(s[..|s| - 1]) + (s[|s| - 1] as int - 48)
  }

  /** `parseFloat`: reading stops at a bar, so only an exponent without one counts. */
  function NumberOf(s: string): Number {
    var m := MantissaSpan(s);
    var text := if '|' in s then s[..m] else s;
    if forall c | c in text :: IsDigit(c) then Int(Decimal(text)) else Float(text)
  }

  predicate IsHexStart(s: string) {
    |s| > 1 && s[0] == '0' && s[1] == 'x'
  }

  function HexDigit(c: char): (d: int)
    ensures -1 <= d < 16
  {
    if '0' <= c <= '9' then c as int - 48
    else if 'a' <= c <= 'f' then c as int - 87
    else if 'A' <= c <= 'F' then c as int - 55
    else -1
  }

  datatype Hex = Hex(number: int, length: nat) | BadHex

  /** Reads hexadecimal digits into a 32-bit integer, `length` of them having been read. */
  function ParseHex(s: string, number: int, length: nat): (h: Hex)
    ensures h.Hex? ==> length <= h.length <= length + |s| && h.length > 0
  {
    if s != "" && HexDigit(s[0]) >= 0 then
      ParseHex(s[1..], Bits.ToInt32(16 * number + HexDigit(s[0])), length + 1)
    else if s != "" && 'g' <= s[0] <= 'z' then BadHex
    else if length == 0 then BadHex
    else Hex(number, length)
  }

  /** A `.` with a decimal number after it starts that number. */
  predicate IsDotNumber(s: string) {
    |s| > 1 && s[0] == '.' && IsDigit(s[1]) && !IsHexStart(s[1..])
  }

  // --- Operators ---

  predicate IsOperator(g: Table, s: string) {
    s in g.unary || s in g.prec
  }

  /** The length of the longest operator of at most `j` characters at the start of `run`, or one. */
  function OperatorSpan(g: Table, run: string, j: nat): (n: nat)
    requires 1 <= j <= |run|
    ensures 1 <= n <= j
  {
    if j == 1 || IsOperator(g, run[..j]) then j else OperatorSpan(g, run, j - 1)
  }

  const MAX_OPERATOR_LEN := 4

  function FirstOperator(g: Table, s: string): (n: nat)
    requires s != "" && IsPunct(s[0])
    ensures 1 <= n <= PunctSpan(s)
  {
    var k := PunctSpan(s);
    OperatorSpan(g, s[..k], Min(k, MAX_OPERATOR_LEN))
  }

  lemma {:induction false} SpanIsLongest(g: Table, run: string, j: nat)
    requires 1 <= j <= |run|
    ensures var n := OperatorSpan(g, run, j);
            (n > 1 ==> IsOperator(g, run[..n])) && forall m | n < m <= j :: !IsOperator(g, run[..m])
    decreases j
  {
    if j > 1 && !IsOperator(g, run[..j]) { SpanIsLongest(g, run, j - 1); }
  }

  /** Of a run of punctuation, the longest operator of at most four characters is a token, or else the
      first character. */
  lemma {:induction false} OperatorIsLongest(g: Table, s: string)
    requires s != "" && IsPunct(s[0])
    ensures var n := FirstOperator(g, s);
            && n <= 4 && (forall i | 0 <= i < n :: IsPunct(s[i])) && (n > 1 ==> IsOperator(g, s[..n]))
            && forall m | n < m <= 4 && m <= |s| && (forall i | 0 <= i < m :: IsPunct(s[i])) :: !IsOperator(g, s[..m])
  {
    var k := PunctSpan(s);
    SpanIsLongest(g, s[..k], Min(k, MAX_OPERATOR_LEN));
    PunctSpanIsAll(s);
    forall m | 0 <= m <= k ensures s[..k][..m] == s[..m] {
    }
  }

  lemma {:induction false} PunctSpanIsAll(s: string)
    ensures forall i | 0 <= i < PunctSpan(s) :: IsPunct(s[i])
    ensures PunctSpan(s) < |s| ==> !IsPunct(s[PunctSpan(s)])
  {
    if s != "" && IsPunct(s[0]) { PunctSpanIsAll(s[1..]); }
  }

  // --- The lexer ---

  function Lex(g: Table, s: string): Lexed
    decreases |s|
  {
    if s == "" then Tokens([])
    else
      match CategoryOf(s[0])
      case Space => Lex(g, s[1..])
      case Digit => if IsHexStart(s) then LexHex(g, s) else LexNumber(g, s)
      case Alpha =>
        var n := WordSpan(s);
        Prepend([Ident(s[..n])], Lex(g, s[n..]))
      case Punctuation =>
        if IsDotNumber(s) then LexNumber(g, s)
        else
          var n := FirstOperator(g, s);
          Prepend([Punct(s[..n])], Lex(g, s[n..]))
      case NoCategory => Fail(UnrecognizedCharacter(s[0]))
  }

  function LexNumber(g: Table, s: string): Lexed
    requires DigitAt(s, 0) || IsDotNumber(s)
    decreases |s|, 0
  {
    var n := NumberSpan(s);
    assert n > 0;
    Prepend([Value(s[..n], NumberOf(s[..n]))], Lex(g, s[n..]))
  }

  function LexHex(g: Table, s: string): Lexed
    requires IsHexStart(s)
    decreases |s|, 0
  {
    match ParseHex(s[2..], 0, 0)
    case BadHex => Fail(InvalidHexNumber)
    case Hex(number, length) =>
      Prepend([Value(s[..2 + length], Int(number))], Lex(g, s[2 + length..]))
  }

  // --- The program ---

  method ScanPunct(src: string, start: nat) returns (i: nat)
    requires start < |src| && IsPunct(src[start])
    ensures i == start + PunctSpan(src[start..])
  {
    i := start + 1;
    while i < |src| && IsPunct(src[i])
      invariant start < i <= |src|
      invariant start + PunctSpan(src[start..]) == i + PunctSpan(src[i..])
    {
      assert src[i..][1..] == src[i + 1..];
      i := i + 1;
    }
  }

  method ScanWord(src: string, start: nat) returns (i: nat)
    requires start < |src| && IsWord(src[start])
    ensures i == start + WordSpan(src[start..])
  {
    i := start + 1;
    while i < |src| && IsWord(src[i])
      invariant start < i <= |src|
      invariant start + WordSpan(src[start..]) == i + WordSpan(src[i..])
    {
      assert src[i..][1..] == src[i + 1..];
      i := i + 1;
    }
  }

  /** The longest operator at `start` within the run of punctuation that ends at `end`. */
  method ScanOperator(g: Table, src: string, start: nat, end: nat) returns (j: nat)
    requires start < |src| && IsPunct(src[start]) && RunEnd(src, start, end)
    ensures j == FirstOperator(g, src[start..]) && start + j <= end
  {
    j := Min(end - start, MAX_OPERATOR_LEN);
    ghost var run := src[start..][..end - start];
    while j > 1 && !IsOperator(g, src[start..start + j])
      invariant 1 <= j <= end - start && run == src[start..end]
      invariant FirstOperator(g, src[start..]) == OperatorSpan(g, run, j)
    {
      assert run[..j] == src[start..start + j];
      j := j - 1;
    }
    assert run[..j] == src[start..start + j];
  }

  /** The last token is a `.` that the number after it will take back. */
  predicate Pending(src: string, tokens: seq<Token>, i: nat)
    requires i <= |src|
  {
    && tokens != [] && tokens[|tokens| - 1] == Punct(".")
    && i > 0 && src[i - 1] == '.' && IsDotNumber(src[i - 1..])
  }

  /** What has been emitted and what is ahead make up the lexer's result. */
  ghost predicate Consistent(g: Table, src: string, tokens: seq<Token>, i: nat)
    requires i <= |src|
  {
    Lex(g, src) ==
    if Pending(src, tokens, i) then Prepend(tokens[..|tokens| - 1], Lex(g, src[i - 1..]))
    else Prepend(tokens, Lex(g, src[i..]))
  }

  lemma {:induction false} PrependSnoc(ts: seq<Token>, t: Token, r: Lexed)
    ensures Prepend(ts, Prepend([t], r)) == Prepend(ts + [t], r)
  {
    if r.Tokens? { assert ts + ([t] + r.tokens) == ts + [t] + r.tokens; }
  }

  /** Emitting the token `t` that the lexer reads at `i`. */
  lemma {:induction false} Emit(g: Table, src: string, tokens: seq<Token>, i: nat, t: Token, i': nat)
    requires i <= i' <= |src| && Lex(g, src) == Prepend(tokens, Prepend([t], Lex(g, src[i'..])))
    requires !Pending(src, tokens + [t], i')
    ensures Consistent(g, src, tokens + [t], i')
  {
    PrependSnoc(tokens, t, Lex(g, src[i'..]));
  }

  lemma {:induction false} PendingAhead(src: string, tokens: seq<Token>, i: nat)
    requires i <= |src| && Pending(src, tokens, i)
    ensures i < |src| && IsDigit(src[i]) && !IsHexStart(src[i..])
  {
    assert src[i - 1..][1..] == src[i..];
  }

  method Tokenize(g: Table, src: string) returns (r: Lexed)
    ensures r == Lex(g, src)
  {
    var tokens: seq<Token> := [];
    var i := 0;
    assert src[0..] == src;
    while i < |src|
      invariant i <= |src| && Consistent(g, src, tokens, i)
      decreases |src| - i
    {
      if Pending(src, tokens, i) { PendingAhead(src, tokens, i); }
      var c := src[i];
      match CategoryOf(c)
      case Space =>
        assert src[i..][1..] == src[i + 1..];
        i := i + 1;
      case Digit =>
        if IsHexStart(src[i..]) {
          r, tokens, i := EmitHex(g, src, tokens, i);
          if r.Fail? { return; }
        } else {
          tokens, i := EmitNumber(g, src, tokens, i);
        }
      case Alpha =>
        tokens, i := EmitIdent(g, src, tokens, i);
      case Punctuation =>
        tokens, i := EmitPunct(g, src, tokens, i);
      case NoCategory =>
        return Fail(UnrecognizedCharacter(c));
    }
    if Pending(src, tokens, i) { PendingAhead(src, tokens, i); }
    assert src[i..] == "";
    r := Tokens(tokens);
  }

  method EmitIdent(g: Table, src: string, tokens: seq<Token>, start: nat) returns (tokens': seq<Token>, i: nat)
    requires start < |src| && CategoryOf(src[start]) == Alpha && Consistent(g, src, tokens, start)
    ensures start < i <= |src| && Consistent(g, src, tokens', i)
  {
    hide Lex, Consistent, IsHexStart;
    NothingPending(g, src, tokens, start);
    i := ScanWord(src, start);
    var t := Ident(src[start..i]);
    LexIdentAt(g, src, start, i);
    EmitOperand(g, src, tokens, start, t, i);
    tokens' := tokens + [t];
  }

  lemma {:induction false} LexIdentAt(g: Table, src: string, start: nat, i: nat)
    requires start <= i <= |src| && i == start + WordSpan(src[start..]) && start < |src| && CategoryOf(src[start]) == Alpha
    ensures Lex(g, src[start..]) == Prepend([Ident(src[start..i])], Lex(g, src[i..]))
  {
    hide FirstOperator, NumberSpan, NumberOf, WordSpan;
    var s := src[start..];
    assert s[..i - start] == src[start..i] && s[i - start..] == src[i..];
  }

  method EmitHex(g: Table, src: string, tokens: seq<Token>, i: nat)
    returns (r: Lexed, tokens': seq<Token>, i': nat)
    requires i < |src| && Consistent(g, src, tokens, i) && IsHexStart(src[i..])
    ensures r.Fail? ==> Lex(g, src) == r
    ensures r.Tokens? ==> i < i' <= |src| && Consistent(g, src, tokens', i')
  {
    hide Lex, ParseHex, IsHexStart, Consistent;
    NothingPending(g, src, tokens, i);
    HexStartSize(src, i);
    var status := ParseHex(src[i + 2..], 0, 0);
    LexHexAt(g, src, i, status);
    tokens', i' := tokens, i;
    if status.BadHex? {
      r := Fail(InvalidHexNumber);
    } else {
      i' := i + 2 + status.length;
      var t := Value(src[i..i'], Int(status.number));
      EmitOperand(g, src, tokens, i, t, i');
      tokens' := tokens + [t];
      r := Tokens(tokens');
    }
  }

  lemma {:induction false} HexStartSize(src: string, i: nat)
    requires i < |src| && IsHexStart(src[i..])
    ensures i + 2 <= |src|
  {
  }

  /** Emitting a number or a name leaves no `.` pending. */
  lemma {:induction false} EmitOperand(g: Table, src: string, tokens: seq<Token>, i: nat, t: Token, i': nat)
    requires i <= i' <= |src| && Lex(g, src) == Prepend(tokens, Lex(g, src[i..])) && !t.Punct?
    requires Lex(g, src[i..]) == Prepend([t], Lex(g, src[i'..]))
    ensures Consistent(g, src, tokens + [t], i')
  {
    NeverPending(src, tokens, t, i');
    hide Lex, Prepend, Consistent, Pending;
    Emit(g, src, tokens, i, t, i');
  }

  lemma {:induction false} NothingPending(g: Table, src: string, tokens: seq<Token>, i: nat)
    requires i < |src| && Consistent(g, src, tokens, i) && (IsDigit(src[i]) ==> IsHexStart(src[i..]))
    ensures Lex(g, src) == Prepend(tokens, Lex(g, src[i..]))
  {
    hide Lex;
    if Pending(src, tokens, i) { PendingAhead(src, tokens, i); }
  }

  lemma {:induction false} NeverPending(src: string, tokens: seq<Token>, t: Token, i: nat)
    requires i <= |src| && !t.Punct?
    ensures !Pending(src, tokens + [t], i)
  {
  }

  lemma {:induction false} LexHexAt(g: Table, src: string, i: nat, status: Hex)
    requires i + 2 <= |src| && IsHexStart(src[i..]) && status == ParseHex(src[i + 2..], 0, 0)
    ensures status.BadHex? ==> Lex(g, src[i..]) == Fail(InvalidHexNumber)
    ensures status.Hex? ==>
              var i' := i + 2 + status.length;
              i' <= |src| && Lex(g, src[i..]) == Prepend([Value(src[i..i'], Int(status.number))], Lex(g, src[i'..]))
  {
    hide FirstOperator, NumberSpan, NumberOf, ParseHex;
    var s := src[i..];
    assert s[2..] == src[i + 2..];
    assert Lex(g, s) == LexHex(g, s);
    if status.Hex? {
      var n := 2 + status.length;
      assert s[..n] == src[i..i + n] && s[n..] == src[i + n..];
    }
  }

  /** A `.` right before a decimal number belongs to the number. */
  method TakeBackDot(g: Table, src: string, tokens: seq<Token>, i: nat) returns (tokens': seq<Token>, start: nat)
    requires i < |src| && IsDigit(src[i]) && Consistent(g, src, tokens, i) && !IsHexStart(src[i..])
    ensures start == i || (start == i - 1 && src[start] == '.' && IsDotNumber(src[start..]))
    ensures Lex(g, src) == Prepend(tokens', Lex(g, src[start..]))
  {
    tokens', start := tokens, i;
    if |tokens| > 0 && tokens[|tokens| - 1] == Punct(".") && i > 0 && src[i - 1] == '.' {
      assert src[i - 1..][1..] == src[i..];
      tokens' := tokens[..|tokens| - 1];
      start := i - 1;
    }
  }

  /** Emits the decimal number at `i`, and with it the `.` in front. */
  method EmitNumber(g: Table, src: string, tokens: seq<Token>, i: nat) returns (tokens': seq<Token>, i': nat)
    requires i < |src| && IsDigit(src[i]) && Consistent(g, src, tokens, i) && !IsHexStart(src[i..])
    ensures i < i' <= |src| && Consistent(g, src, tokens', i')
  {
    var start;
    tokens', start := TakeBackDot(g, src, tokens, i);
    NumberReachesPast(src, start, i);
    i' := start + NumberSpan(src[start..]);
    var t := Value(src[start..i'], NumberOf(src[start..i']));
    LexNumberAt(g, src, start, i');
    Emit(g, src, tokens', start, t, i');
    tokens' := tokens' + [t];
  }

  lemma {:induction false} LexNumberAt(g: Table, src: string, start: nat, i: nat)
    requires start < i <= |src| && i == start + NumberSpan(src[start..])
    requires (IsDigit(src[start]) && !IsHexStart(src[start..])) || IsDotNumber(src[start..])
    ensures Lex(g, src[start..]) ==
            Prepend([Value(src[start..i], NumberOf(src[start..i]))], Lex(g, src[i..]))
  {
    hide NumberSpan, NumberOf, FirstOperator;
    var s := src[start..];
    assert s[..i - start] == src[start..i] && s[i - start..] == src[i..];
    assert Lex(g, s) == LexNumber(g, s);
  }

  lemma {:induction false} NumberReachesPast(src: string, start: nat, i: nat)
    requires start <= i < |src| && IsDigit(src[i])
    requires start == i || (start == i - 1 && src[start] == '.')
    ensures i < start + NumberSpan(src[start..]) <= |src|
  {
    if start < i {
      assert src[start..][1..] == src[i..];
      assert DigitSpan(src[start..]) == 0;
      assert DigitSpan(src[i..]) > 0;
    }
  }

  /** Emits the operators of the run of punctuation at `i`. */
  method EmitPunct(g: Table, src: string, tokens: seq<Token>, i: nat) returns (tokens': seq<Token>, end: nat)
    requires i < |src| && IsPunct(src[i]) && Consistent(g, src, tokens, i)
    ensures i < end <= |src| && Consistent(g, src, tokens', end)
  {
    hide Lex, Consistent, CategoryOf, FirstOperator;
    end := ScanPunct(src, i);
    var start := i;
    tokens' := tokens;
    while start < end
      invariant i <= start <= end && RunEnd(src, start, end)
      invariant Consistent(g, src, tokens', start)
      decreases end - start
    {
      var j := ScanOperator(g, src, start, end);
      RunRest(src, start, end, start + j);
      EmitStep(g, src, tokens', start, start + j);
      tokens' := tokens' + [Punct(src[start..start + j])];
      start := start + j;
    }
  }

  /** The run of punctuation at `start` ends at `end`. */
  predicate RunEnd(src: string, start: nat, end: nat) {
    start <= end <= |src| && end == start + PunctSpan(src[start..])
  }

  lemma {:induction false} RunRest(src: string, start: nat, end: nat, i: nat)
    requires RunEnd(src, start, end) && start <= i <= end
    ensures RunEnd(src, i, end)
    decreases i - start
  {
    if start < i {
      assert src[start..][1..] == src[start + 1..];
      RunRest(src, start + 1, end, i);
    }
  }

  lemma {:induction false} LexOperatorAt(g: Table, src: string, start: nat, i: nat)
    requires start < i <= |src| && IsPunct(src[start]) && !IsDotNumber(src[start..])
    requires i == start + FirstOperator(g, src[start..])
    ensures Lex(g, src[start..]) == Prepend([Punct(src[start..i])], Lex(g, src[i..]))
  {
    hide NumberSpan, NumberOf, FirstOperator, WordSpan;
    var s := src[start..];
    assert s[..i - start] == src[start..i] && s[i - start..] == src[i..];
    assert Lex(g, s) == Prepend([Punct(s[..i - start])], Lex(g, s[i - start..]));
  }

  /** Emitting an operator leaves a `.` pending exactly if the lexer reads a number there. */
  lemma {:induction false} EmitStep(g: Table, src: string, tokens: seq<Token>, start: nat, i: nat)
    requires start < |src| && IsPunct(src[start]) && Consistent(g, src, tokens, start)
    requires i == start + FirstOperator(g, src[start..])
    ensures i <= |src| && Consistent(g, src, tokens + [Punct(src[start..i])], i)
  {
    if Pending(src, tokens, start) { PendingAhead(src, tokens, start); }
    if IsDotNumber(src[start..]) {
      DotStep(g, src, tokens, start, i);
    } else {
      var t := Punct(src[start..i]);
      LexOperatorAt(g, src, start, i);
      if t == Punct(".") { assert |src[start..i]| == 1; }
      Emit(g, src, tokens, start, t, i);
    }
  }

  lemma {:induction false} DotStep(g: Table, src: string, tokens: seq<Token>, start: nat, i: nat)
    requires start < |src| && IsDotNumber(src[start..]) && i == start + FirstOperator(g, src[start..])
    requires Lex(g, src) == Prepend(tokens, Lex(g, src[start..]))
    ensures i <= |src| && Consistent(g, src, tokens + [Punct(src[start..i])], i)
  {
    hide Lex;
    var s := src[start..];
    assert PunctSpan(s) == 1 by { assert !IsPunct(s[1]); assert PunctSpan(s[1..]) == 0; }
    assert src[start..i] == ".";
    assert src[i - 1..] == s;
    assert (tokens + [Punct(".")])[..|tokens|] == tokens;
  }

  // --- No character is lost ---

  function NonSpace(s: string): string {
    if s == "" then ""
    else if CategoryOf(s[0]) == Space then NonSpace(s[1..])
    else [s[0]] + NonSpace(s[1..])
  }

  function Spelling(ts: seq<Token>): string {
    if ts == [] then "" else ts[0].data + Spelling(ts[1..])
  }

  predicate NoSpaces(s: string) {
    forall i | 0 <= i < |s| :: CategoryOf(s[i]) != Space
  }

  lemma {:induction false} NonSpaceRest(s: string, n: nat)
    requires n <= |s| && NoSpaces(s[..n])
    ensures NonSpace(s) == s[..n] + NonSpace(s[n..])
  {
    if n == 0 {
      assert s[0..] == s;
    } else {
      assert s[1..][..n - 1] == s[..n][1..];
      assert CategoryOf(s[..n][0]) != Space;
      NonSpaceRest(s[1..], n - 1);
      assert s[1..][n - 1..] == s[n..] && s[..n] == [s[0]] + s[1..][..n - 1];
    }
  }

  lemma {:induction false} SpansHaveNoSpaces(s: string)
    ensures NoSpaces(s[..DigitSpan(s)]) && NoSpaces(s[..WordSpan(s)]) && NoSpaces(s[..PunctSpan(s)])
  {
    if s != "" {
      SpansHaveNoSpaces(s[1..]);
      forall n: nat | n <= |s[1..]| && NoSpaces(s[1..][..n]) && CategoryOf(s[0]) != Space
        ensures NoSpaces(s[..n + 1])
      {
        assert s[..n + 1] == [s[0]] + s[1..][..n];
      }
    }
  }

  lemma {:induction false} JoinNoSpaces(s: string, m: nat, n: nat)
    requires m <= n <= |s| && NoSpaces(s[..m]) && NoSpaces(s[m..][..n - m])
    ensures NoSpaces(s[..n])
  {
    forall i | 0 <= i < n ensures CategoryOf(s[..n][i]) != Space {
      if i < m { assert s[..m][i] == s[i]; } else { assert s[m..][..n - m][i - m] == s[i]; }
    }
  }

  lemma {:induction false} MantissaHasNoSpaces(s: string)
    ensures NoSpaces(s[..MantissaSpan(s)])
  {
    var d, m := DigitSpan(s), MantissaSpan(s);
    SpansHaveNoSpaces(s);
    if m > d {
      SpansHaveNoSpaces(s[d + 1..]);
      JoinNoSpaces(s, d, d + 1);
      JoinNoSpaces(s, d + 1, m);
    }
  }

  lemma {:induction false} ExponentHasNoSpaces(s: string)
    ensures NoSpaces(s[..ExponentSpan(s)])
  {
    var n := ExponentSpan(s);
    if n > 0 {
      var k := if |s| > 1 && s[1] in "+|-" && DigitAt(s, 2) then 2 else 1;
      SpansHaveNoSpaces(s[k..]);
      JoinNoSpaces(s, k, n);
    }
  }

  lemma {:induction false} NumberHasNoSpaces(s: string)
    ensures NoSpaces(s[..NumberSpan(s)])
  {
    hide MantissaSpan, ExponentSpan, NoSpaces;
    MantissaHasNoSpaces(s);
    ExponentHasNoSpaces(s[MantissaSpan(s)..]);
    JoinNoSpaces(s, MantissaSpan(s), NumberSpan(s));
  }

  lemma {:induction false} NumberIsNotEmpty(s: string)
    requires DigitAt(s, 0) || IsDotNumber(s)
    ensures NumberSpan(s) > 0
  {
  }

  lemma {:induction false} HexHasNoSpaces(s: string, number: int, length: nat)
    requires ParseHex(s, number, length).Hex?
    ensures NoSpaces(s[..ParseHex(s, number, length).length - length])
  {
    if s != "" && HexDigit(s[0]) >= 0 {
      HexHasNoSpaces(s[1..], Bits.ToInt32(16 * number + HexDigit(s[0])), length + 1);
      var n := ParseHex(s, number, length).length - length;
      assert NoSpaces(s[..1]) && s[1..][..n - 1] == s[1..n];
      JoinNoSpaces(s, 1, n);
    }
  }

  /** The text of `s` up to `n` is the first token that is read. */
  ghost predicate ReadsFirst(g: Table, s: string, n: nat) {
    && 0 < n <= |s| && NoSpaces(s[..n]) && Lex(g, s[n..]).Tokens?
    && exists t: Token :: t.data == s[..n] && Lex(g, s) == Prepend([t], Lex(g, s[n..]))
  }

  lemma {:induction false} ReadsHex(g: Table, s: string)
    requires Lex(g, s).Tokens? && s != "" && IsDigit(s[0]) && IsHexStart(s)
    ensures ParseHex(s[2..], 0, 0).Hex? && ReadsFirst(g, s, 2 + ParseHex(s[2..], 0, 0).length)
  {
    hide NumberOf, NumberSpan, FirstOperator;
    HexHasNoSpaces(s[2..], 0, 0);
    var n, number := 2 + ParseHex(s[2..], 0, 0).length, ParseHex(s[2..], 0, 0).number;
    hide ParseHex;
    JoinNoSpaces(s, 2, n);
    assert Lex(g, s) == Prepend([Value(s[..n], Int(number))], Lex(g, s[n..]));
  }

  lemma {:induction false} ReadsNumber(g: Table, s: string)
    requires Lex(g, s).Tokens? && ((DigitAt(s, 0) && !IsHexStart(s)) || IsDotNumber(s))
    ensures ReadsFirst(g, s, NumberSpan(s))
  {
    hide NumberOf, FirstOperator, WordSpan;
    NumberIsNotEmpty(s);
    NumberHasNoSpaces(s);
    hide NumberSpan;
    var n := NumberSpan(s);
    assert Lex(g, s) == LexNumber(g, s);
    assert Lex(g, s) == Prepend([Value(s[..n], NumberOf(s[..n]))], Lex(g, s[n..]));
  }

  lemma {:induction false} ReadsOther(g: Table, s: string) returns (n: nat)
    requires Lex(g, s).Tokens? && s != "" && CategoryOf(s[0]) != Space && !IsDigit(s[0]) && !IsDotNumber(s)
    ensures ReadsFirst(g, s, n)
  {
    hide FirstOperator, NumberSpan, NumberOf;
    SpansHaveNoSpaces(s);
    if CategoryOf(s[0]) == Alpha {
      n := WordSpan(s);
      assert Lex(g, s) == Prepend([Ident(s[..n])], Lex(g, s[n..]));
    } else {
      n := FirstOperator(g, s);
      PrefixNoSpaces(s, n, PunctSpan(s));
      assert Lex(g, s) == Prepend([Punct(s[..n])], Lex(g, s[n..]));
    }
  }

  lemma {:induction false} FirstLexeme(g: Table, s: string) returns (n: nat)
    requires Lex(g, s).Tokens? && s != "" && CategoryOf(s[0]) != Space
    ensures ReadsFirst(g, s, n)
  {
    hide Lex, ReadsFirst, NumberSpan, ParseHex;
    if IsDigit(s[0]) && IsHexStart(s) {
      ReadsHex(g, s);
      n := 2 + ParseHex(s[2..], 0, 0).length;
    } else if IsDigit(s[0]) || IsDotNumber(s) {
      ReadsNumber(g, s);
      n := NumberSpan(s);
    } else {
      n := ReadsOther(g, s);
    }
  }

  /** The tokens spell the source without its spaces. */
  lemma {:induction false} LexIsLossless(g: Table, s: string)
    requires Lex(g, s).Tokens?
    ensures Spelling(Lex(g, s).tokens) == NonSpace(s)
    decreases |s|
  {
    if s == "" {
    } else if CategoryOf(s[0]) == Space {
      LexIsLossless(g, s[1..]);
    } else {
      hide Lex, NoSpaces, CategoryOf, NonSpace, Spelling;
      var n := FirstLexeme(g, s);
      LexIsLossless(g, s[n..]);
      LosslessStep(g, s, n);
    }
  }

  lemma {:induction false} PrefixNoSpaces(s: string, m: nat, n: nat)
    requires m <= n <= |s| && NoSpaces(s[..n])
    ensures NoSpaces(s[..m])
  {
    assert forall i | 0 <= i < m :: s[..m][i] == s[..n][i];
  }

  lemma {:induction false} LosslessStep(g: Table, s: string, n: nat)
    requires ReadsFirst(g, s, n) && Spelling(Lex(g, s[n..]).tokens) == NonSpace(s[n..])
    ensures Lex(g, s).Tokens? && Spelling(Lex(g, s).tokens) == NonSpace(s)
  {
    hide Lex;
    var t: Token :| t.data == s[..n] && Lex(g, s) == Prepend([t], Lex(g, s[n..]));
    assert Lex(g, s).tokens[1..] == Lex(g, s[n..]).tokens;
    NonSpaceRest(s, n);
  }
}
