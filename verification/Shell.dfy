/**
 * Quoting for a remote POSIX shell (crates/glpi-inventory-remote/src/session.rs),
 * against the tokens such a shell reads (sections 2.2 and 2.3 of POSIX.1-2017 XCU).
 */
module Shell {
  import opened Common
  import opened Escape

  /** `shell_quote`. */
  function ShellQuote(s: string): string {
    "'" + Replace(s, '\'', "'\\''") + "'"
  }

  // ---- Token recognition ----------------------------------------------------------------

  datatype Token = Word(text: string) | IoNumber(text: string) | Operator(text: string)

  /** The word under way, and whether any of it was quoted. */
  datatype Piece = Piece(text: string, quoted: bool)

  predicate IsBlank(c: char) {
    c == ' ' || c == '\t'
  }

  predicate IsOperatorChar(c: char) {
    c == '|' || c == '&' || c == ';' || c == '<' || c == '>' || c == '(' || c == ')'
  }

  predicate IsRedirection(c: char) {
    c == '<' || c == '>'
  }

  /** The other characters that do not stand for themselves unquoted. */
  predicate NeedsQuoting(c: char) {
    || c == '$' || c == '`' || c == '"' || c == '\n' || c == '*' || c == '?' || c == '['
    || c == '#' || c == '~' || c == '=' || c == '%'
  }

  /** The longest operator at the start. */
  function OperatorLength(s: string): (n: nat)
    requires s != [] && IsOperatorChar(s[0])
    ensures 1 <= n <= |s|
  {
    if |s| >= 3 && s[..3] == "<<-" then 3
    else if |s| >= 2 && s[..2] in ["&&", "||", ";;", "<<", ">>", "<&", ">&", "<>", ">|"] then 2
    else 1
  }

  function Begun(word: Option<Piece>): string {
    if word.Some? then word.value.text else []
  }

  predicate IsQuoted(word: Option<Piece>) {
    word.Some? && word.value.quoted
  }

  predicate AllDigits(s: string) {
    forall i | 0 <= i < |s| :: '0' <= s[i] <= '9'
  }

  /** The token that ends here; unquoted digits in front of a redirection are its number. */
  function Ended(word: Option<Piece>, redirected: bool): seq<Token> {
    if word.None? then []
    else if redirected && !word.value.quoted && AllDigits(word.value.text) then [IoNumber(word.value.text)]
    else [Word(word.value.text)]
  }

  function Followed(tokens: seq<Token>, rest: Option<seq<Token>>): Option<seq<Token>> {
    if rest.Some? then Some(tokens + rest.value) else None
  }

  /**
   * The tokens of a command, outside quotes, with `word` under way. `None` stands for an
   * unterminated quote or anything the shell would expand.
   */
  function Lex(s: string, word: Option<Piece>): Option<seq<Token>>
    decreases |s|
  {
    if s == [] then Some(Ended(word, false))
    else if s[0] == '\'' then InSingle(s[1..], Begun(word))
    else if s[0] == '\\' then
      if |s| == 1 then None
      else if s[1] == '\n' then Lex(s[2..], word)
      else Lex(s[2..], Some(Piece(Begun(word) + [s[1]], true)))
    else if IsBlank(s[0]) then Followed(Ended(word, false), Lex(s[1..], None))
    else if IsOperatorChar(s[0]) then
      var n := OperatorLength(s);
      Followed(Ended(word, IsRedirection(s[0])) + [Operator(s[..n])], Lex(s[n..], None))
    else if NeedsQuoting(s[0]) then None
    else Lex(s[1..], Some(Piece(Begun(word) + [s[0]], IsQuoted(word))))
  }

  /** Inside single quotes every character up to the next single quote is literal. */
  function InSingle(s: string, word: string): Option<seq<Token>>
    decreases |s|
  {
    if s == [] then None
    else if s[0] == '\'' then Lex(s[1..], Some(Piece(word, true)))
    else InSingle(s[1..], word + [s[0]])
  }

  // ---- Quoted text ----------------------------------------------------------------------

  /** Close, escaped quote, reopen: one quote character. */
  lemma EscapedQuoteReads(word: string, tail: string)
    ensures InSingle("'\\''" + tail, word) == InSingle(tail, word + ['\''])
  {
    var t := "'\\''" + tail;
    assert t[1..] == "\\''" + tail;
    assert t[1..][2..] == "'" + tail;
    assert ("'" + tail)[1..] == tail;
    assert InSingle(t, word) == Lex(t[1..], Some(Piece(word, true)));
    assert Lex(t[1..], Some(Piece(word, true))) == Lex(t[1..][2..], Some(Piece(word + ['\''], true)));
    assert Lex("'" + tail, Some(Piece(word + ['\''], true))) == InSingle(tail, word + ['\'']);
  }

  /** One character of a quoted text. */
  lemma QuotedCharReads(c: char, word: string, tail: string)
    ensures InSingle((if c == '\'' then "'\\''" else [c]) + tail, word) == InSingle(tail, word + [c])
  {
    if c == '\'' {
      EscapedQuoteReads(word, tail);
    } else {
      assert ([c] + tail)[1..] == tail;
    }
  }

  /** The quoted text, read from inside its opening quote, adds exactly the original. */
  lemma {:induction false} QuotedReads(s: string, word: string, rest: string)
    ensures InSingle(Replace(s, '\'', "'\\''") + "'" + rest, word) == Lex(rest, Some(Piece(word + s, true)))
    decreases |s|
  {
    if s == [] {
      assert ([] + "'" + rest)[1..] == rest && word + [] == word;
    } else {
      var tail := Replace(s[1..], '\'', "'\\''") + "'" + rest;
      assert Replace(s, '\'', "'\\''") + "'" + rest == (if s[0] == '\'' then "'\\''" else [s[0]]) + tail;
      QuotedCharReads(s[0], word, tail);
      QuotedReads(s[1..], word + [s[0]], rest);
      assert word + [s[0]] + s[1..] == word + s;
    }
  }

  /** A quoted text in front of anything is read as exactly that text, joined to the word under way. */
  lemma ShellQuoteReads(s: string, word: Option<Piece>, rest: string)
    ensures Lex(ShellQuote(s) + rest, word) == Lex(rest, Some(Piece(Begun(word) + s, true)))
  {
    assert (ShellQuote(s) + rest)[1..] == Replace(s, '\'', "'\\''") + "'" + rest;
    QuotedReads(s, Begun(word), rest);
  }

  /** One quoted string is one word, the string itself. */
  lemma ShellQuoteIsOneWord(s: string)
    ensures Lex(ShellQuote(s), None) == Some([Word(s)])
  {
    ShellQuoteReads(s, None, []);
    assert ShellQuote(s) + [] == ShellQuote(s) && [] + s == s;
  }

  // ---- Whole commands -------------------------------------------------------------------

  /** The parts a command is built from. */
  datatype Part = Plain(text: string) | Quoted(text: string) | Op(text: string) | Gap

  function Written(part: Part): string {
    match part
    case Plain(text) => text
    case Quoted(text) => ShellQuote(text)
    case Op(text) => text
    case Gap => " "
  }

  function Command(parts: seq<Part>): string {
    if parts == [] then [] else Written(parts[0]) + Command(parts[1..])
  }

  /** Fixed text that the shell takes literally. */
  predicate Literal(text: string) {
    text != [] && forall i | 0 <= i < |text| :: IsLiteral(text[i])
  }

  predicate IsLiteral(c: char) {
    !IsBlank(c) && !IsOperatorChar(c) && !NeedsQuoting(c) && c != '\\' && c != '\''
  }

  lemma SimpleIsLiteral(text: string)
    requires text != []
    requires forall i | 0 <= i < |text| ::
      'a' <= text[i] <= 'z' || '0' <= text[i] <= '9' || text[i] == '-' || text[i] == '/'
    ensures Literal(text)
  {
  }

  predicate IsWord(part: Part) {
    part.Plain? || part.Quoted?
  }

  predicate UsedOperator(text: string) {
    text == ";" || text == "&&" || text == ">" || text == ">&"
  }

  /** Fixed text is literal, and there is something between two words and between two operators. */
  predicate WellFormed(parts: seq<Part>) {
    parts == [] ||
    (&& (parts[0].Plain? ==> Literal(parts[0].text))
     && (parts[0].Op? ==> UsedOperator(parts[0].text))
     && (|parts| > 1 ==> !(IsWord(parts[0]) && IsWord(parts[1])) && !(parts[0].Op? && parts[1].Op?))
     && WellFormed(parts[1..]))
  }

  predicate Redirects(parts: seq<Part>) {
    parts != [] && parts[0].Op? && (parts[0].text == ">" || parts[0].text == ">&")
  }

  /** What a part is meant to be, in front of a redirection or not. */
  function MeantBy(part: Part, redirected: bool): seq<Token> {
    match part
    case Plain(text) => [if redirected && AllDigits(text) then IoNumber(text) else Word(text)]
    case Quoted(text) => [Word(text)]
    case Op(text) => [Operator(text)]
    case Gap => []
  }

  /** The tokens the parts are meant to be. */
  function Meant(parts: seq<Part>): seq<Token> {
    if parts == [] then [] else MeantBy(parts[0], Redirects(parts[1..])) + Meant(parts[1..])
  }

  lemma {:induction false} LiteralReads(text: string, word: Option<Piece>, rest: string)
    requires Literal(text)
    ensures Lex(text + rest, word) == Lex(rest, Some(Piece(Begun(word) + text, IsQuoted(word))))
    decreases |text|
  {
    var next := Some(Piece(Begun(word) + [text[0]], IsQuoted(word)));
    assert IsLiteral(text[0]);
    assert (text + rest)[0] == text[0] && (text + rest)[1..] == text[1..] + rest;
    if |text| == 1 {
      assert text[1..] + rest == rest && text == [text[0]];
    } else {
      forall i | 0 <= i < |text[1..]| ensures IsLiteral(text[1..][i]) { assert text[1..][i] == text[i + 1]; }
      LiteralReads(text[1..], next, rest);
      assert Begun(word) + [text[0]] + text[1..] == Begun(word) + text;
    }
  }

  lemma OperatorIs(text: string, rest: string)
    requires UsedOperator(text) && (rest != [] ==> !IsOperatorChar(rest[0]))
    ensures var s := text + rest;
      IsOperatorChar(s[0]) && OperatorLength(s) == |text| && (IsRedirection(s[0]) <==> text == ">" || text == ">&")
  {
    var s := text + rest;
    assert s[0] == text[0];
    if |text| == 2 { assert s[..2] == text; }
    if |text| == 1 && |s| >= 2 {
      assert s[1] == rest[0] && s[..2] == [s[0], s[1]];
    }
  }

  /** An operator ends the word under way and is read as such when no operator follows it. */
  lemma OperatorReads(text: string, word: Option<Piece>, rest: string)
    requires UsedOperator(text) && (rest != [] ==> !IsOperatorChar(rest[0]))
    ensures Lex(text + rest, word) ==
      Followed(Ended(word, text == ">" || text == ">&") + [Operator(text)], Lex(rest, None))
  {
    var s := text + rest;
    OperatorIs(text, rest);
    assert s[..|text|] == text && s[|text|..] == rest;
  }

  lemma WrittenStart(parts: seq<Part>)
    requires WellFormed(parts) && parts != [] && !parts[0].Op?
    ensures Command(parts) != [] && !IsOperatorChar(Command(parts)[0])
  {
    match parts[0] {
      case Plain(text) => assert IsLiteral(text[0]) && Command(parts)[0] == text[0];
      case Quoted(text) => assert Command(parts)[0] == '\'';
      case Gap => assert Command(parts)[0] == ' ';
    }
  }

  /** What follows a word ends it, and is read as if it stood alone. */
  lemma WordEnds(piece: Piece, rest: seq<Part>)
    requires WellFormed(rest) && (rest != [] ==> !IsWord(rest[0]))
    requires Lex(Command(rest), None) == Some(Meant(rest))
    ensures Lex(Command(rest), Some(piece)) == Some(Ended(Some(piece), Redirects(rest)) + Meant(rest))
  {
    if rest == [] {
      assert Ended(Some(piece), false) + [] == Ended(Some(piece), false);
    } else {
      var more := Command(rest[1..]);
      match rest[0] {
        case Gap =>
          assert (" " + more)[0] == ' ' && (" " + more)[1..] == more;
          assert Lex(more, None).Some? && [] + Lex(more, None).value == Meant(rest);
          assert [] + Lex(more, None).value == Lex(more, None).value;
        case Op(text) =>
          if rest[1..] != [] { WrittenStart(rest[1..]); }
          OperatorReads(text, None, more);
          OperatorReads(text, Some(piece), more);
          assert Ended(None, Redirects(rest)) + [Operator(text)] == [Operator(text)];
          if Lex(more, None).Some? {
            Assoc(Ended(Some(piece), Redirects(rest)), [Operator(text)], Lex(more, None).value);
          }
      }
    }
  }

  /** A command is read as the tokens that are meant, whatever the quoted texts are. */
  lemma {:induction false} CommandReads(parts: seq<Part>)
    requires WellFormed(parts)
    ensures Lex(Command(parts), None) == Some(Meant(parts))
  {
    if parts != [] {
      var rest := parts[1..];
      CommandReads(rest);
      match parts[0] {
        case Plain(text) =>
          LiteralReads(text, None, Command(rest));
          assert Begun(None) + text == text;
          WordEnds(Piece(text, false), rest);
        case Quoted(text) =>
          ShellQuoteReads(text, None, Command(rest));
          assert Begun(None) + text == text;
          WordEnds(Piece(text, true), rest);
        case Gap =>
          assert (" " + Command(rest))[0] == ' ' && (" " + Command(rest))[1..] == Command(rest);
        case Op(text) =>
          if rest != [] { WrittenStart(rest); }
          OperatorReads(text, None, Command(rest));
          assert Ended(None, Redirects(parts)) + [Operator(text)] == [Operator(text)];
      }
    }
  }

  lemma {:induction false} CommandAppend(a: seq<Part>, b: seq<Part>)
    ensures Command(a + b) == Command(a) + Command(b)
  {
    if a == [] {
      assert a + b == b;
    } else {
      assert (a + b)[0] == a[0] && (a + b)[1..] == a[1..] + b;
      CommandAppend(a[1..], b);
    }
  }

  /** Where the two meet neither words nor operators touch, nor a word and a redirection. */
  predicate Apart(a: seq<Part>, b: seq<Part>) {
    a != [] && b != [] ==>
      var last := a[|a| - 1];
      !(IsWord(last) && (IsWord(b[0]) || Redirects(b))) && !(last.Op? && b[0].Op?)
  }

  lemma {:induction false} WellFormedAppend(a: seq<Part>, b: seq<Part>)
    requires WellFormed(a) && WellFormed(b) && Apart(a, b)
    ensures WellFormed(a + b)
    decreases |a|
  {
    if a == [] {
      assert a + b == b;
    } else {
      assert (a + b)[0] == a[0] && (a + b)[1..] == a[1..] + b;
      WellFormedAppend(a[1..], b);
      if |a| > 1 {
        assert (a + b)[1] == a[1];
      } else if b != [] {
        assert (a + b)[1] == b[0];
      }
    }
  }

  lemma {:induction false} MeantAppend(a: seq<Part>, b: seq<Part>)
    requires Apart(a, b)
    ensures Meant(a + b) == Meant(a) + Meant(b)
    decreases |a|
  {
    if a == [] {
      assert a + b == b;
    } else {
      var rest := a[1..] + b;
      assert (a + b)[0] == a[0] && (a + b)[1..] == rest;
      MeantAppend(a[1..], b);
      SameBefore(a, b);
      Assoc(MeantBy(a[0], Redirects(a[1..])), Meant(a[1..]), Meant(b));
    }
  }

  lemma SameBefore(a: seq<Part>, b: seq<Part>)
    requires a != [] && Apart(a, b)
    ensures MeantBy(a[0], Redirects(a[1..] + b)) == MeantBy(a[0], Redirects(a[1..]))
  {
    if |a| > 1 { assert (a[1..] + b)[0] == a[1..][0]; } else { assert a[1..] + b == b; }
  }

  /**
   * A quoted argument between blanks is one word, and what stands before and after it
   * is read as if it were not there, whatever the argument is.
   */
  lemma QuotedInCommand(head: seq<Part>, text: string, tail: seq<Part>)
    requires WellFormed(head) && head != [] && head[|head| - 1].Gap?
    requires WellFormed(tail) && (tail != [] ==> tail[0].Gap?)
    ensures Lex(Command(head) + ShellQuote(text) + Command(tail), None) ==
      Some(Meant(head) + [Word(text)] + Meant(tail))
  {
    var middle := [Quoted(text)];
    assert middle[1..] == [];
    assert Command(middle) == ShellQuote(text) + [] && Meant(middle) == [Word(text)] + [];
    assert WellFormed(middle);
    WellFormedAppend(head, middle);
    MeantAppend(head, middle);
    CommandAppend(head, middle);
    WellFormedAppend(head + middle, tail);
    MeantAppend(head + middle, tail);
    CommandAppend(head + middle, tail);
    assert ShellQuote(text) + [] == ShellQuote(text) && [Word(text)] + [] == [Word(text)];
    CommandReads(head + middle + tail);
  }

  // ---- The commands of the agent ----------------------------------------------------------

  const MARKER := "glpi-agent-ok"

  /** Both output streams discarded. */
  const SILENTLY := [Gap, Op(">"), Plain("/dev/null"), Gap, Plain("2"), Op(">&"), Plain("1")]

  const SILENT_TOKENS := [Operator(">"), Word("/dev/null"), IoNumber("2"), Operator(">&"), Word("1")]

  /** The command of `read_file`. */
  function ReadFileCommand(path: string): string {
    "cat -- " + ShellQuote(path)
  }

  /** The command of `can_run`. */
  function CanRunCommand(program: string): string {
    "if command -v " + ShellQuote(program) + " >/dev/null 2>&1; then echo " + MARKER + "; fi"
  }

  /** The command of `perl_module`; the module name is not quoted. */
  function PerlModuleCommand(name: string, probe: string): string {
    "perl -M" + name + " -e " + ShellQuote(probe) + " >/dev/null 2>&1 && echo " + MARKER
  }

  lemma ReadFileHead()
    ensures var head := [Plain("cat"), Gap, Plain("--"), Gap];
      Command(head) == "cat -- " && WellFormed(head) && Meant(head) == [Word("cat"), Word("--")]
  {
    SimpleIsLiteral("cat");
    SimpleIsLiteral("--");
  }

  /** `read_file` runs `cat` on exactly the given path. */
  lemma ReadFileReads(path: string)
    ensures Lex(ReadFileCommand(path), None) == Some([Word("cat"), Word("--"), Word(path)])
  {
    ReadFileHead();
    QuotedInCommand([Plain("cat"), Gap, Plain("--"), Gap], path, []);
    assert ReadFileCommand(path) == "cat -- " + ShellQuote(path) + Command([]);
    assert [Word("cat"), Word("--")] + [Word(path)] + Meant([]) == [Word("cat"), Word("--"), Word(path)];
  }

  lemma SilentlyIs()
    ensures Command(SILENTLY) == " >/dev/null 2>&1"
  {
  }

  lemma SilentlyMeans()
    ensures Meant(SILENTLY) == SILENT_TOKENS
  {
  }

  lemma SilentlyIsWellFormed()
    ensures WellFormed(SILENTLY)
  {
    SimpleIsLiteral("/dev/null");
    SimpleIsLiteral("2");
    SimpleIsLiteral("1");
  }

  const THEN_ECHO := [Op(";"), Gap, Plain("then"), Gap, Plain("echo"), Gap]

  const MARKER_FI := [Plain("glpi-agent-ok"), Op(";"), Gap, Plain("fi")]

  lemma ThenEchoIs()
    ensures Command(THEN_ECHO) == "; then echo " && WellFormed(THEN_ECHO)
    ensures Meant(THEN_ECHO) == [Operator(";"), Word("then"), Word("echo")]
  {
    SimpleIsLiteral("then");
    SimpleIsLiteral("echo");
  }

  lemma MarkerFiIs()
    ensures Command(MARKER_FI) == "glpi-agent-ok; fi" && WellFormed(MARKER_FI)
    ensures Meant(MARKER_FI) == [Word("glpi-agent-ok"), Operator(";"), Word("fi")]
  {
    SimpleIsLiteral("glpi-agent-ok");
    SimpleIsLiteral("fi");
  }

  const IF_COMMAND := [Plain("if"), Gap, Plain("command"), Gap, Plain("-v"), Gap]

  lemma IfCommandIs()
    ensures Command(IF_COMMAND) == "if command -v " && WellFormed(IF_COMMAND)
    ensures Meant(IF_COMMAND) == [Word("if"), Word("command"), Word("-v")]
  {
    SimpleIsLiteral("if");
    SimpleIsLiteral("command");
    SimpleIsLiteral("-v");
  }

  /** What follows the program in the command of `can_run`. */
  const IF_FOUND := SILENTLY + (THEN_ECHO + MARKER_FI)

  lemma IfFoundIs()
    ensures Command(IF_FOUND) == " >/dev/null 2>&1" + ("; then echo " + "glpi-agent-ok; fi")
    ensures WellFormed(IF_FOUND) && IF_FOUND[0].Gap?
    ensures Meant(IF_FOUND) == SILENT_TOKENS
      + ([Operator(";"), Word("then"), Word("echo")] + [Word("glpi-agent-ok"), Operator(";"), Word("fi")])
  {
    SilentlyIs();
    SilentlyMeans();
    SilentlyIsWellFormed();
    ThenEchoIs();
    MarkerFiIs();
    CommandAppend(THEN_ECHO, MARKER_FI);
    WellFormedAppend(THEN_ECHO, MARKER_FI);
    MeantAppend(THEN_ECHO, MARKER_FI);
    CommandAppend(SILENTLY, THEN_ECHO + MARKER_FI);
    WellFormedAppend(SILENTLY, THEN_ECHO + MARKER_FI);
    MeantAppend(SILENTLY, THEN_ECHO + MARKER_FI);
  }

  /**
   * The whole command of `can_run`: a conditional whose condition looks up exactly the
   * given program, silently, and whose only consequence is to print the marker.
   */
  lemma CanRunReads(program: string)
    ensures Lex(CanRunCommand(program), None) == Some(
      [Word("if"), Word("command"), Word("-v")] + [Word(program)]
      + (SILENT_TOKENS
         + ([Operator(";"), Word("then"), Word("echo")] + [Word(MARKER), Operator(";"), Word("fi")])))
  {
    IfCommandIs();
    IfFoundIs();
    QuotedInCommand(IF_COMMAND, program, IF_FOUND);
    CanRunText(program);
  }

  lemma CanRunText(program: string)
    ensures CanRunCommand(program) ==
      "if command -v " + ShellQuote(program) + (" >/dev/null 2>&1" + ("; then echo " + "glpi-agent-ok; fi"))
  {
  }

  const AND_ECHO := [Gap, Op("&&"), Gap, Plain("echo"), Gap]

  const MARKED := [Plain("glpi-agent-ok")]

  lemma AndEchoIs()
    ensures Command(AND_ECHO) == " && echo " && WellFormed(AND_ECHO)
    ensures Meant(AND_ECHO) == [Operator("&&"), Word("echo")]
  {
    SimpleIsLiteral("echo");
  }

  lemma MarkedIs()
    ensures Command(MARKED) == "glpi-agent-ok" && WellFormed(MARKED) && Meant(MARKED) == [Word("glpi-agent-ok")]
  {
    SimpleIsLiteral("glpi-agent-ok");
  }

  /** What follows the code in the command of `perl_module`. */
  const IF_LOADED := SILENTLY + (AND_ECHO + MARKED)

  lemma IfLoadedIs()
    ensures Command(IF_LOADED) == " >/dev/null 2>&1" + (" && echo " + "glpi-agent-ok")
    ensures WellFormed(IF_LOADED) && IF_LOADED[0].Gap?
    ensures Meant(IF_LOADED) == SILENT_TOKENS + ([Operator("&&"), Word("echo")] + [Word("glpi-agent-ok")])
  {
    SilentlyIs();
    SilentlyMeans();
    SilentlyIsWellFormed();
    AndEchoIs();
    MarkedIs();
    CommandAppend(AND_ECHO, MARKED);
    WellFormedAppend(AND_ECHO, MARKED);
    MeantAppend(AND_ECHO, MARKED);
    CommandAppend(SILENTLY, AND_ECHO + MARKED);
    WellFormedAppend(SILENTLY, AND_ECHO + MARKED);
    MeantAppend(SILENTLY, AND_ECHO + MARKED);
  }

  const PERL := [Plain("perl"), Gap]

  const DASH_E := [Gap, Plain("-e"), Gap]

  lemma PerlIs()
    ensures Command(PERL) == "perl " && WellFormed(PERL) && Meant(PERL) == [Word("perl")]
    ensures Command(DASH_E) == " -e " && WellFormed(DASH_E) && Meant(DASH_E) == [Word("-e")]
  {
    SimpleIsLiteral("perl");
    SimpleIsLiteral("-e");
  }

  lemma ModuleIs(name: string)
    requires Literal(name)
    ensures var m := [Plain("-M" + name)];
      Command(m) == "-M" + name && WellFormed(m) && Meant(m) == [Word("-M" + name)]
  {
    var text := "-M" + name;
    forall i | 0 <= i < |text| ensures IsLiteral(text[i]) { if i >= 2 { assert text[i] == name[i - 2]; } }
    assert [Plain(text)][1..] == [] && text + [] == text && [Word(text)] + [] == [Word(text)];
  }

  function PerlHead(name: string): seq<Part> {
    PERL + ([Plain("-M" + name)] + DASH_E)
  }

  lemma PerlHeadIs(name: string)
    requires Literal(name)
    ensures Command(PerlHead(name)) == "perl " + ("-M" + name + " -e ")
    ensures WellFormed(PerlHead(name)) && PerlHead(name)[|PerlHead(name)| - 1].Gap?
    ensures Meant(PerlHead(name)) == [Word("perl")] + ([Word("-M" + name)] + [Word("-e")])
  {
    var m := [Plain("-M" + name)];
    PerlIs();
    ModuleIs(name);
    CommandAppend(m, DASH_E);
    WellFormedAppend(m, DASH_E);
    MeantAppend(m, DASH_E);
    CommandAppend(PERL, m + DASH_E);
    WellFormedAppend(PERL, m + DASH_E);
    MeantAppend(PERL, m + DASH_E);
  }

  /** The whole command of `perl_module`, for a module name that is literal to the shell: the code is one word. */
  lemma PerlModuleReads(name: string, probe: string)
    requires Literal(name)
    ensures Lex(PerlModuleCommand(name, probe), None) == Some(
      [Word("perl")] + ([Word("-M" + name)] + [Word("-e")]) + [Word(probe)]
      + (SILENT_TOKENS + ([Operator("&&"), Word("echo")] + [Word(MARKER)])))
  {
    PerlHeadIs(name);
    IfLoadedIs();
    QuotedInCommand(PerlHead(name), probe, IF_LOADED);
    PerlModuleText(name, probe);
  }

  lemma PerlModuleText(name: string, probe: string)
    ensures PerlModuleCommand(name, probe) ==
      "perl " + ("-M" + name + " -e ") + ShellQuote(probe) + (" >/dev/null 2>&1" + (" && echo " + "glpi-agent-ok"))
  {
  }
}
