/** Reading an expression from its text (db/exp.js): the lexer and the parser together. */
module ExpReader {
  import opened ExpSyntax
  import opened ExpNodes
  import ExpLexer
  import ExpParser
  import ExpParserSpec
  import ExpPrinter

  datatype Error = OfLexer(lexer: ExpLexer.Error) | OfParser(parser: ExpParserSpec.Error)

  datatype Result<+T> = Success(value: T) | Failure(error: Error)

  /** Reads the text into nodes, or gives the error of the lexer, then of the parser. */
  method ParseText(g: Table, source: string) returns (r: Result<Node>, ghost done: set<Node>)
    ensures fresh(done)
    ensures match ExpLexer.Lex(g, source)
            case Fail(e) => r == Failure(OfLexer(e))
            case Tokens(tokens) =>
              match ExpParserSpec.Parse(g, tokens)
              case Fail(e) => r == Failure(OfParser(e))
              case Ok(c, _) => r.Success? && Models(r.value, Erase(c), done)
  {
    done := {};
    var lexed := ExpLexer.Tokenize(g, source);
    match lexed {
      case Fail(e) => r := Failure(OfLexer(e));
      case Tokens(tokens) =>
        var parser := new ExpParser.Parser(g, tokens);
        var parsed;
        parsed, done := parser.Parse();
        match parsed {
          case Failure(e) => r := Failure(OfParser(e));
          case Success(node) => r := Success(node);
        }
    }
  }

  /** Reading the printed text of an expression builds the nodes of the expression, with negative
      numbers and bit accesses written out. */
  method ReadPrinted(e: Exp) returns (r: Result<Node>, ghost done: set<Node>)
    requires ExpPrinter.Readable(ExpPrinter.OPERATORS, e)
    ensures fresh(done) && r.Success? && Models(r.value, ExpPrinter.Desugar(e), done)
  {
    ExpPrinter.OperatorsArePrintable();
    ExpPrinter.RoundTrip(ExpPrinter.OPERATORS, e);
    hide ExpPrinter.OPERATORS, ExpPrinter.Print, ExpPrinter.Printable, ExpPrinter.Readable;
    hide ExpLexer.Lex, ExpParserSpec.Parse, Models, Erase;
    r, done := ParseText(ExpPrinter.OPERATORS, ExpPrinter.Print(e));
  }
}
