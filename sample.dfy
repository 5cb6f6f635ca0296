/**
 * The example program at the end of parser.py, and two single lines, worked
 * through the model. The lines are written as concatenations of their words
 * and separators, which denote the same strings as the source's literal.
 * Each fact about a literal (an end that is not whitespace, a separator that
 * does not occur, where a slice starts) gets a lemma of its own; the parse
 * of each line and the output of the whole program are then put together
 * from those facts.
 */
module Sample {
  import opened PyString
  import opened Parser
  import opened Properties

  /** The four lines of the example program. */
  const L1: string := "definir " + R1
  const L2: string := "mostrar " + Q2
  const L3: string := "se " + TrueWord + ThenSep + B3
  const L4: string := "enquanto " + TrueWord + DoSep + B4

  /** What follows `definir `: a name, the separator and a quoted value. */
  const R1: string := N1 + AsSep + Q1
  const N1: string := "nome"
  const Q1: string := "\"" + Q1Text + "\""
  const Q1Text: string := "lalala"

  /** The bodies of L3 and L4, the quoted operands of the three `mostrar`
      commands, and the text each of them prints. */
  const B3: string := "mostrar " + Q3
  const B4: string := "mostrar " + Q4
  const Q2: string := "\"" + Q2Text
  const Q3: string := "\"" + Q3Text + "\""
  const Q4: string := "\"" + Q4Text + "\""
  const Q2Text: string := "O nome é \" + nome"
  const Q3Text: string := "Isso é verdadeiro"
  const Q4Text: string := "Dentro do laço"

  /** The example program: it starts and ends with a newline, so it has an
      empty piece at each end. It is written from the back: T1 is the text
      from the first line on, T4 the last line with the newline after it. */
  const Program: string := [] + "\n" + T1
  const T1: string := L1 + "\n" + T2
  const T2: string := L2 + "\n" + T3
  const T3: string := L3 + "\n" + T4
  const T4: string := L4 + "\n" + []

  /** How a parse is assembled from the pieces each branch extracts. */
  lemma DefinirParsed(raw: string, t: string, a: string, b: string)
    requires StartsWith(Strip(raw), "definir")
    requires Strip(From(Strip(raw), 8)) == t && Split(t, AsSep) == [a, b]
    ensures Parse(raw) == Bind(Strip(a), StripSet(Strip(b), Quote))
  {
    ParseDefinir(raw);
  }

  lemma MostrarParsed(raw: string, t: string)
    requires StartsWith(Strip(raw), "mostrar") && Strip(From(Strip(raw), 8)) == t
    ensures Parse(raw) == Print(StripSet(t, Quote))
  {
    ParseMostrar(raw);
  }

  lemma SeParsed(linha: string, before: string, body: string)
    requires Strip(linha) == linha && Classify(linha) == Se
    requires |Split(linha, ThenSep)| >= 2 && Strip(Split(linha, ThenSep)[1]) == body
    requires Split(From(linha, 3), ThenSep)[0] == before
    ensures Parse(linha) == IfThen(Strip(before), ParseProgram(body))
  {
    ParseSe(linha);
  }

  lemma EnquantoParsed(linha: string, before: string, body: string)
    requires Strip(linha) == linha && Classify(linha) == Enquanto
    requires |Split(linha, DoSep)| >= 2 && Strip(Split(linha, DoSep)[1]) == body
    requires Split(From(linha, 8), DoSep)[0] == before
    ensures Parse(linha) == WhileOnce(Strip(before), ParseProgram(body))
  {
    ParseEnquanto(linha);
  }

  /** Words that neither start nor end with whitespace. */
  lemma TrueWordStripped() ensures Strip(TrueWord) == TrueWord { StripSetNoop(TrueWord, Whitespace); }
  lemma N1Stripped() ensures Strip(N1) == N1 { StripSetNoop(N1, Whitespace); }
  lemma Q1Stripped() ensures Strip(Q1) == Q1 { StripSetNoop(Q1, Whitespace); }
  lemma Q2Stripped() ensures Strip(Q2) == Q2 { StripSetNoop(Q2, Whitespace); }
  lemma Q3Stripped() ensures Strip(Q3) == Q3 { StripSetNoop(Q3, Whitespace); }
  lemma Q4Stripped() ensures Strip(Q4) == Q4 { StripSetNoop(Q4, Whitespace); }
  lemma R1Stripped() ensures Strip(R1) == R1 { StripSetNoop(R1, Whitespace); }
  lemma B3Stripped() ensures Strip(B3) == B3 { StripSetNoop(B3, Whitespace); }
  lemma B4Stripped() ensures Strip(B4) == B4 { StripSetNoop(B4, Whitespace); }
  lemma L1Stripped() ensures Strip(L1) == L1 { StripSetNoop(L1, Whitespace); }
  lemma L2Stripped() ensures Strip(L2) == L2 { StripSetNoop(L2, Whitespace); }
  lemma L3Stripped() ensures Strip(L3) == L3 { StripSetNoop(L3, Whitespace); }
  lemma L4Stripped() ensures Strip(L4) == L4 { StripSetNoop(L4, Whitespace); }

  /** Removing the quotes leaves the text a `mostrar` or `definir` keeps. */
  lemma Q1Unquoted() ensures StripSet(Q1, Quote) == Q1Text {
    StripSetWrapped('"', Q1Text, Quote);
  }

  lemma Q2Unquoted() ensures StripSet(Q2, Quote) == Q2Text {
    StripSetDropLeading('"', Q2Text, Quote);
    StripSetNoop(Q2Text, Quote);
  }

  lemma Q3Unquoted() ensures StripSet(Q3, Quote) == Q3Text {
    StripSetWrapped('"', Q3Text, Quote);
  }

  lemma Q4Unquoted() ensures StripSet(Q4, Quote) == Q4Text {
    StripSetWrapped('"', Q4Text, Quote);
  }

  /** What `linha[8:]` is for the `definir` and `mostrar` lines. */
  lemma L1Rest() ensures From(L1, 8) == R1 { FromConcat("definir ", R1, 8); }
  lemma L2Rest() ensures From(L2, 8) == Q2 { FromConcat("mostrar ", Q2, 8); }
  lemma B3Rest() ensures From(B3, 8) == Q3 { FromConcat("mostrar ", Q3, 8); }
  lemma B4Rest() ensures From(B4, 8) == Q4 { FromConcat("mostrar ", Q4, 8); }

  /** The first line: `definir nome como "lalala"`. */
  lemma R1Split()
    ensures Split(R1, AsSep) == [N1, Q1]
  {
    SplitAfterLacking(N1, AsSep, Q1);
    LacksHead(Q1, AsSep);
    SplitAbsent(Q1, AsSep);
  }

  lemma L1Parse()
    ensures Parse(L1) == Bind(N1, Q1Text)
  {
    L1Stripped();
    L1Rest();
    R1Stripped();
    R1Split();
    DefinirParsed(L1, R1, N1, Q1);
    N1Stripped();
    Q1Stripped();
    Q1Unquoted();
  }

  /** The second line: `mostrar "O nome é " + nome`. */
  lemma L2Parse()
    ensures Parse(L2) == Print(Q2Text)
  {
    L2Stripped();
    L2Rest();
    Q2Stripped();
    MostrarParsed(L2, Q2);
    Q2Unquoted();
  }

  /** The body of the third line: `mostrar "Isso é verdadeiro"`. */
  lemma B3Parse()
    ensures Parse(B3) == Print(Q3Text)
  {
    B3Stripped();
    B3Rest();
    Q3Stripped();
    MostrarParsed(B3, Q3);
    Q3Unquoted();
  }

  lemma B3OneLine() ensures '\n' !in B3 { }

  lemma B3Words()
    ensures B3 == "mostrar" + [' '] + ("\"Isso" + [' '] + ("é" + [' '] + "verdadeiro\""))
  {
  }

  lemma B3LacksThen()
    ensures !Contains(B3, ThenSep)
  {
    LacksHead("verdadeiro\"", ThenSep);
    LacksAcross("é", "verdadeiro\"", ThenSep);
    LacksAcross("\"Isso", "é" + [' '] + "verdadeiro\"", ThenSep);
    LacksAcross("mostrar", "\"Isso" + [' '] + ("é" + [' '] + "verdadeiro\""), ThenSep);
    B3Words();
  }

  /** The third line: `se verdadeiro então mostrar "Isso é verdadeiro"`. */
  lemma L3Words()
    ensures L3 == "se" + [ThenSep[0]] + TrueWord + ThenSep + B3
  {
    assert "se " == "se" + [ThenSep[0]];
  }

  lemma L3Split()
    ensures Split(L3, ThenSep) == ["se" + [ThenSep[0]] + TrueWord, B3]
  {
    L3Words();
    SplitAfterAcross("se", TrueWord, ThenSep, B3);
    B3LacksThen();
    SplitAbsent(B3, ThenSep);
  }

  lemma L3Body()
    ensures |Split(L3, ThenSep)| >= 2 && Strip(Split(L3, ThenSep)[1]) == B3
  {
    L3Split();
    B3Stripped();
  }

  lemma L3After() ensures From(L3, 3) == TrueWord + ThenSep + B3 {
    assert L3 == "se " + (TrueWord + ThenSep + B3);
    FromConcat("se ", TrueWord + ThenSep + B3, 3);
  }

  lemma L3Condition()
    ensures Split(From(L3, 3), ThenSep)[0] == TrueWord
  {
    L3After();
    SplitAfterLacking(TrueWord, ThenSep, B3);
  }

  lemma L3Classify()
    ensures Classify(L3) == Se
  {
    ClassifyExact(L3, Se);
  }

  lemma L3Parsed()
    ensures Parse(L3) == IfThen(Strip(TrueWord), ParseProgram(B3))
  {
    L3Stripped();
    L3Classify();
    L3Body();
    L3Condition();
    SeParsed(L3, TrueWord, B3);
  }

  lemma L3Parse()
    ensures Parse(L3) == IfThen(TrueWord, ParseProgram(B3))
  {
    L3Parsed();
    TrueWordStripped();
  }

  /** The body of the fourth line: `mostrar "Dentro do laço"`. */
  lemma B4Parse()
    ensures Parse(B4) == Print(Q4Text)
  {
    B4Stripped();
    B4Rest();
    Q4Stripped();
    MostrarParsed(B4, Q4);
    Q4Unquoted();
  }

  lemma B4OneLine() ensures '\n' !in B4 { }

  lemma B4Words()
    ensures B4 == "mostrar" + [' '] + ("\"Dentro" + [' '] + ("do" + [' '] + "laço\""))
  {
  }

  lemma B4LacksDo()
    ensures !Contains(B4, DoSep)
  {
    LacksHead("laço\"", DoSep);
    LacksAcross("do", "laço\"", DoSep);
    LacksAcross("\"Dentro", "do" + [' '] + "laço\"", DoSep);
    LacksAcross("mostrar", "\"Dentro" + [' '] + ("do" + [' '] + "laço\""), DoSep);
    B4Words();
  }

  /** The fourth line: `enquanto verdadeiro faça mostrar "Dentro do laço"`. */
  lemma L4Words()
    ensures L4 == "enquanto" + [DoSep[0]] + TrueWord + DoSep + B4
  {
    assert "enquanto " == "enquanto" + [DoSep[0]];
  }

  lemma L4Split()
    ensures Split(L4, DoSep) == ["enquanto" + [DoSep[0]] + TrueWord, B4]
  {
    L4Words();
    SplitAfterAcross("enquanto", TrueWord, DoSep, B4);
    B4LacksDo();
    SplitAbsent(B4, DoSep);
  }

  lemma L4Body()
    ensures |Split(L4, DoSep)| >= 2 && Strip(Split(L4, DoSep)[1]) == B4
  {
    L4Split();
    B4Stripped();
  }

  /** `linha[8:]` keeps the space before the condition. */
  lemma L4After() ensures From(L4, 8) == [] + [DoSep[0]] + TrueWord + DoSep + B4 {
    L4Words();
    assert L4 == "enquanto" + ([] + [DoSep[0]] + TrueWord + DoSep + B4);
    FromConcat("enquanto", [] + [DoSep[0]] + TrueWord + DoSep + B4, 8);
  }

  lemma L4Before()
    ensures Split(From(L4, 8), DoSep)[0] == [DoSep[0]] + TrueWord
  {
    L4After();
    SplitAfterAcross([], TrueWord, DoSep, B4);
    assert [] + [DoSep[0]] + TrueWord == [DoSep[0]] + TrueWord;
  }

  lemma L4Condition()
    ensures Strip([DoSep[0]] + TrueWord) == TrueWord
  {
    StripSetDropLeading(DoSep[0], TrueWord, Whitespace);
    TrueWordStripped();
  }

  lemma L4Classify()
    ensures Classify(L4) == Enquanto
  {
    ClassifyExact(L4, Enquanto);
  }

  lemma L4Parsed()
    ensures Parse(L4) == WhileOnce(Strip([DoSep[0]] + TrueWord), ParseProgram(B4))
  {
    L4Stripped();
    L4Classify();
    L4Body();
    L4Before();
    EnquantoParsed(L4, [DoSep[0]] + TrueWord, B4);
  }

  lemma L4Parse()
    ensures Parse(L4) == WhileOnce(TrueWord, ParseProgram(B4))
  {
    L4Parsed();
    L4Condition();
  }

  /** What each piece prints when run as a program of its own. */
  lemma RunEmpty()
    ensures Run([]).out == [Diagnostic] && !Run([]).crashed
  {
    RunOneLine([]);
    EmptyLineDiagnosed(map[], []);
  }

  lemma RunL1()
    ensures Run(L1).out == [] && !Run(L1).crashed
  {
    RunOneLine(L1);
    L1Parse();
  }

  lemma RunL2()
    ensures Run(L2).out == [Q2Text] && !Run(L2).crashed
  {
    RunOneLine(L2);
    L2Parse();
  }

  lemma RunB3()
    ensures Run(B3).out == [Q3Text] && !Run(B3).crashed
  {
    B3OneLine();
    RunOneLine(B3);
    B3Parse();
  }

  lemma RunL3()
    ensures Run(L3).out == [Q3Text] && !Run(L3).crashed
  {
    RunOneLine(L3);
    L3Parse();
    RunB3();
  }

  lemma RunB4()
    ensures Run(B4).out == [Q4Text] && !Run(B4).crashed
  {
    B4OneLine();
    RunOneLine(B4);
    B4Parse();
  }

  lemma RunL4()
    ensures Run(L4).out == [Q4Text] && !Run(L4).crashed
  {
    RunOneLine(L4);
    L4Parse();
    RunB4();
  }

  /** A piece that prints one line and does not crash, followed by a rest
      that does not crash, prints that line and then what the rest prints. */
  lemma RunCons(a: string, b: string, x: string)
    requires Run(a).out == [x] && !Run(a).crashed && !Run(b).crashed
    ensures Run(a + "\n" + b).out == [x] + Run(b).out
    ensures !Run(a + "\n" + b).crashed
  {
    RunConcat(a, b);
  }

  lemma RunT4()
    ensures Run(T4).out == [Q4Text, Diagnostic] && !Run(T4).crashed
  {
    RunL4();
    RunEmpty();
    RunCons(L4, [], Q4Text);
  }

  lemma RunT3()
    ensures Run(T3).out == [Q3Text] + Run(T4).out && !Run(T3).crashed
  {
    RunL3();
    RunT4();
    RunCons(L3, T4, Q3Text);
  }

  lemma RunT2()
    ensures Run(T2).out == [Q2Text] + Run(T3).out && !Run(T2).crashed
  {
    RunL2();
    RunT3();
    RunCons(L2, T3, Q2Text);
  }

  lemma RunT1()
    ensures Run(T1).out == Run(T2).out && !Run(T1).crashed
  {
    RunL1();
    RunT2();
    RunConcat(L1, T2);
  }

  lemma RunProgram()
    ensures Run(Program).out == [Diagnostic] + Run(T1).out && !Run(Program).crashed
  {
    RunEmpty();
    RunT1();
    RunCons([], T1, Diagnostic);
  }

  /** The example program prints five lines: a diagnostic for the empty
      piece before the first newline, the `mostrar` text taken literally, the
      bodies of the `se` and the `enquanto` once each, and a diagnostic for
      the empty piece after the last newline. Nothing crashes. */
  lemma SampleOutput()
    ensures Run(Program).out == [
      "Comando não reconhecido: ",
      "O nome é \" + nome",
      "Isso é verdadeiro",
      "Dentro do laço",
      "Comando não reconhecido: "
    ]
    ensures !Run(Program).crashed
  {
    RunProgram();
    RunT1();
    RunT2();
    RunT3();
    RunT4();
  }

  /** `mostrar` looks nothing up: whatever `nome` is bound to, the line
      prints its text as written. */
  lemma MostrarNoLookup(vars: Vars)
    ensures ExecLine(vars, L2) == Outcome(["O nome é \" + nome"], vars, false)
  {
    L2Parse();
  }

  /** `segundo` starts with `se`, so it is taken for a conditional; having no
      ` então `, it crashes the run. */
  lemma SegundoIsConditional(vars: Vars)
    ensures Classify(Strip("segundo")) == Se
    ensures ExecLine(vars, "segundo") == Outcome([], vars, true)
  {
    StripSetNoop("segundo", Whitespace);
    ClassifyExact("segundo", Se);
    LacksHead("segundo", ThenSep);
    SeLine(vars, "segundo");
  }
}
