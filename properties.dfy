/**
 * What `interpretador` promises, stated over the model in parser.dfy: how a
 * program's output is assembled from its lines, what each kind of line does,
 * that definitions never reach the output, and how a crash ends a run.
 */
module Properties {
  import opened PyString
  import opened Parser

  /** What a stretch of lines prints, and whether it crashed; the table is
      not part of it. */
  datatype Trace = Trace(out: seq<string>, crashed: bool)

  /** Each piece run on its own, the outputs concatenated in order, up to
      and including the first piece that crashes. */
  function Transcript(segs: seq<string>): Trace
    decreases |segs|
  {
    if segs == [] then Trace([], false)
    else
      var o := ExecLine(map[], segs[0]);
      if o.crashed then Trace(o.out, true)
      else
        var t := Transcript(segs[1..]);
        Trace(o.out + t.out, t.crashed)
  }

  /** A statement's output and crash do not depend on the table it runs on:
      the table is only ever written, and nested bodies start from an empty
      one. */
  lemma StmtIgnoresVars(v1: Vars, v2: Vars, s: Stmt)
    ensures ExecStmt(v1, s).out == ExecStmt(v2, s).out
    ensures ExecStmt(v1, s).crashed == ExecStmt(v2, s).crashed
  {
  }

  /** The same for a run of statements. */
  lemma {:induction false} StmtsIgnoreVars(v1: Vars, v2: Vars, ss: seq<Stmt>)
    ensures ExecStmts(v1, ss).out == ExecStmts(v2, ss).out
    ensures ExecStmts(v1, ss).crashed == ExecStmts(v2, ss).crashed
    decreases |ss|
  {
    if ss != [] {
      StmtIgnoresVars(v1, v2, ss[0]);
      StmtsIgnoreVars(ExecStmt(v1, ss[0]).vars, ExecStmt(v2, ss[0]).vars, ss[1..]);
    }
  }

  /** Running the parsed pieces is the transcript of the pieces. */
  lemma {:induction false} ExecParseAllIsTranscript(vars: Vars, segs: seq<string>)
    ensures ExecStmts(vars, ParseAll(segs)).out == Transcript(segs).out
    ensures ExecStmts(vars, ParseAll(segs)).crashed == Transcript(segs).crashed
    decreases |segs|
  {
    if segs != [] {
      var ss := ParseAll(segs);
      assert ss[0] == Parse(segs[0]) && ss[1..] == ParseAll(segs[1..]);
      StmtIgnoresVars(vars, map[], ss[0]);
      ExecParseAllIsTranscript(ExecStmt(vars, ss[0]).vars, segs[1..]);
    }
  }

  /** The output of a program is the in-order concatenation of the outputs
      of its "\n"-separated pieces, each run alone; empty pieces are pieces
      too, and the first crash ends the run. */
  lemma RunIsTranscript(codigo: string)
    ensures Run(codigo).out == Transcript(Split(codigo, "\n")).out
    ensures Run(codigo).crashed == Transcript(Split(codigo, "\n")).crashed
  {
    ExecParseAllIsTranscript(map[], Split(codigo, "\n"));
  }

  /** The statements of two programs joined by a newline are the statements
      of each. */
  lemma ProgramConcat(a: string, b: string)
    ensures ParseProgram(a + "\n" + b) == ParseProgram(a) + ParseProgram(b)
  {
    SplitConcat(a, '\n', b);
    ParseAllAppend(Split(a, "\n"), Split(b, "\n"));
  }

  /** Joining two programs by a newline prints what the first prints, then,
      unless the first crashed, what the second prints; the join crashes
      exactly when one of them does (the second only counting if reached). */
  lemma RunConcat(a: string, b: string)
    ensures Run(a + "\n" + b).out
         == Run(a).out + (if Run(a).crashed then [] else Run(b).out)
    ensures Run(a + "\n" + b).crashed == (Run(a).crashed || Run(b).crashed)
  {
    ProgramConcat(a, b);
    var A := Run(a);
    ExecStmtsAppend(map[], ParseProgram(a), ParseProgram(b));
    StmtsIgnoreVars(A.vars, map[], ParseProgram(b));
  }

  /** A crash ends the run: nothing after the crashing program is printed. */
  lemma CrashDiscardsRest(a: string, b: string)
    requires Run(a).crashed
    ensures Run(a + "\n" + b).out == Run(a).out && Run(a + "\n" + b).crashed
  {
    RunConcat(a, b);
  }

  /** The four keywords start with four different letters, so a stripped line
      is of a keyword's kind exactly when it starts with that keyword; the
      order of the tests never matters. */
  lemma ClassifyExact(linha: string, k: Kind)
    requires k != Other
    ensures Classify(linha) == k <==> StartsWith(linha, Keyword(k))
  {
    if StartsWith(linha, Keyword(k)) {
      assert linha[0] == Keyword(k)[0];
      forall j | 0 <= j < |Keywords| && Keywords[j] != k
        ensures !StartsWith(linha, Keyword(Keywords[j]))
      {
        assert Keyword(Keywords[j])[0] != Keyword(k)[0];
      }
    }
  }

  /** A line with no keyword at its start is a diagnostic naming the
      stripped line, and leaves the table alone. */
  lemma UnrecognisedLine(vars: Vars, raw: string)
    requires forall j :: 0 <= j < |Keywords| ==> !StartsWith(Strip(raw), Keyword(Keywords[j]))
    ensures ExecLine(vars, raw) == Outcome([Diagnostic + Strip(raw)], vars, false)
  {
    assert !StartsWith(Strip(raw), Keyword(Keywords[0]));
    assert !StartsWith(Strip(raw), Keyword(Keywords[1]));
    assert !StartsWith(Strip(raw), Keyword(Keywords[2]));
    assert !StartsWith(Strip(raw), Keyword(Keywords[3]));
    ParseOther(raw);
  }

  /** An empty or all-whitespace piece is not skipped: it prints the bare
      diagnostic. */
  lemma EmptyLineDiagnosed(vars: Vars, raw: string)
    requires forall i :: 0 <= i < |raw| ==> raw[i] in Whitespace
    ensures ExecLine(vars, raw) == Outcome([Diagnostic], vars, false)
  {
    StripSetAll(raw, Whitespace);
    assert Diagnostic + [] == Diagnostic;
    ParseOther(raw);
  }

  /** A `mostrar` line prints exactly one line and changes nothing else: the
      text after the first eight characters, with the surrounding whitespace
      and then every surrounding quote removed; what it prints neither starts
      nor ends with a quote, and is part of the line. */
  lemma MostrarLine(vars: Vars, raw: string)
    requires Classify(Strip(raw)) == Mostrar
    ensures var r := ExecLine(vars, raw);
      var linha := Strip(raw);
      && r.vars == vars && !r.crashed && |r.out| == 1
      && r.out[0] == StripSet(Strip(From(linha, 8)), Quote)
      && (r.out[0] == [] || (r.out[0][0] != '"' && r.out[0][|r.out[0]| - 1] != '"'))
  {
    var linha := Strip(raw);
    ParseMostrar(raw);
    StripSetEnds(Strip(From(linha, 8)), Quote);
  }

  /** A `definir` line prints nothing. Without ` como ` after the keyword it
      crashes; otherwise it binds the stripped text before the first ` como `
      to the text between the first and a second ` como `, stripped of
      whitespace and then of quotes, replacing any earlier binding. */
  lemma DefinirLine(vars: Vars, raw: string)
    requires Classify(Strip(raw)) == Definir
    ensures var r := ExecLine(vars, raw);
      var t := Strip(From(Strip(raw), 8));
      && r.out == []
      && r.crashed == !Contains(t, AsSep)
      && (Contains(t, AsSep) ==>
            r.vars == vars[Strip(Before(t, AsSep)) := StripSet(Strip(Before(After(t, AsSep), AsSep)), Quote)])
  {
    var t := Strip(From(Strip(raw), 8));
    ParseDefinir(raw);
    SplitHasSecond(t, AsSep);
    SplitFirstTwo(t, AsSep);
  }

  /** A `se` line without ` então ` crashes without printing. Otherwise, when
      the condition (after the first three characters, before the first
      ` então `, stripped) is `verdadeiro`, the line prints what its body (the
      stripped text between the first and a second ` então `) prints as a
      program of its own, and crashes if that does; any other condition prints
      nothing. Either way the table is left as it was: nested definitions do
      not leak. The body is strictly shorter than the line. */
  lemma SeLine(vars: Vars, raw: string)
    requires Classify(Strip(raw)) == Se
    ensures var r := ExecLine(vars, raw);
      var linha := Strip(raw);
      var condicao := Strip(Before(From(linha, 3), ThenSep));
      var comando := Strip(Before(After(linha, ThenSep), ThenSep));
      && r.vars == vars
      && (!Contains(linha, ThenSep) ==> r.out == [] && r.crashed)
      && (Contains(linha, ThenSep) && condicao == TrueWord ==>
            r.out == Run(comando).out && r.crashed == Run(comando).crashed
            && |comando| < |linha|)
      && (Contains(linha, ThenSep) && condicao != TrueWord ==> r.out == [] && !r.crashed)
  {
    var linha := Strip(raw);
    ExecSe(vars, raw);
    SplitHasSecond(linha, ThenSep);
    SplitFirstTwo(linha, ThenSep);
    SplitFirstTwo(From(linha, 3), ThenSep);
  }

  /** An `enquanto` line is a `se` line with ` faça ` and an eight-character
      keyword: its `while` breaks after the first pass, so the body runs once
      when the condition is `verdadeiro` and not at all otherwise. */
  lemma EnquantoLine(vars: Vars, raw: string)
    requires Classify(Strip(raw)) == Enquanto
    ensures var r := ExecLine(vars, raw);
      var linha := Strip(raw);
      var condicao := Strip(Before(From(linha, 8), DoSep));
      var comando := Strip(Before(After(linha, DoSep), DoSep));
      && r.vars == vars
      && (!Contains(linha, DoSep) ==> r.out == [] && r.crashed)
      && (Contains(linha, DoSep) && condicao == TrueWord ==>
            r.out == Run(comando).out && r.crashed == Run(comando).crashed
            && |comando| < |linha|)
      && (Contains(linha, DoSep) && condicao != TrueWord ==> r.out == [] && !r.crashed)
  {
    var linha := Strip(raw);
    ExecEnquanto(vars, raw);
    SplitHasSecond(linha, DoSep);
    SplitFirstTwo(linha, DoSep);
    SplitFirstTwo(From(linha, 8), DoSep);
  }

  /** A body lies between the first two occurrences of its separator, so it
      never contains that separator. Hence a `se` line whose taken body is
      itself a `se` line crashes: the inner line has no ` então ` to split on.
      Nesting a `se` in a `se` therefore never goes deeper than one call. */
  lemma SeInSeCrashes(vars: Vars, raw: string)
    requires '\n' !in raw && Classify(Strip(raw)) == Se
    requires var linha := Strip(raw);
      var comando := Strip(Before(After(linha, ThenSep), ThenSep));
      Strip(Before(From(linha, 3), ThenSep)) == TrueWord && Classify(Strip(comando)) == Se
    ensures ExecLine(vars, raw).crashed
  {
    var linha := Strip(raw);
    var comando := Strip(Before(After(linha, ThenSep), ThenSep));
    SeLine(vars, raw);
    if Contains(linha, ThenSep) {
      BodyLacksNewline(raw, ThenSep);
      BeforeLacks(After(linha, ThenSep), ThenSep);
      StripLacks(Before(After(linha, ThenSep), ThenSep), ThenSep);
      StripLacks(comando, ThenSep);
      RunOneLine(comando);
      SeLine(map[], comando);
    }
  }

  /** The same for `enquanto`: an `enquanto` line whose taken body is itself
      an `enquanto` line crashes, for want of a second ` faça `. */
  lemma EnquantoInEnquantoCrashes(vars: Vars, raw: string)
    requires '\n' !in raw && Classify(Strip(raw)) == Enquanto
    requires var linha := Strip(raw);
      var comando := Strip(Before(After(linha, DoSep), DoSep));
      Strip(Before(From(linha, 8), DoSep)) == TrueWord && Classify(Strip(comando)) == Enquanto
    ensures ExecLine(vars, raw).crashed
  {
    var linha := Strip(raw);
    var comando := Strip(Before(After(linha, DoSep), DoSep));
    EnquantoLine(vars, raw);
    if Contains(linha, DoSep) {
      BodyLacksNewline(raw, DoSep);
      BeforeLacks(After(linha, DoSep), DoSep);
      StripLacks(Before(After(linha, DoSep), DoSep), DoSep);
      StripLacks(comando, DoSep);
      RunOneLine(comando);
      EnquantoLine(map[], comando);
    }
  }

  /** The body of a newline-free line has no newline either. */
  lemma BodyLacksNewline(raw: string, sep: string)
    requires sep != [] && '\n' !in raw && Contains(Strip(raw), sep)
    ensures '\n' !in Strip(Before(After(Strip(raw), sep), sep))
  {
    var linha := Strip(raw);
    StripSetKeepsAbsent(raw, Whitespace, '\n');
    SplitHasSecond(linha, sep);
    SplitFirstTwo(linha, sep);
    SplitKeepsAbsent(linha, sep, '\n');
    StripSetKeepsAbsent(Split(linha, sep)[1], Whitespace, '\n');
  }

  /** Removing a `Bind` from a run of statements changes neither what it
      prints nor whether it crashes. */
  lemma DropBind(vars: Vars, xs: seq<Stmt>, nome: string, valor: string, ys: seq<Stmt>)
    ensures ExecStmts(vars, xs + [Bind(nome, valor)] + ys).out == ExecStmts(vars, xs + ys).out
    ensures ExecStmts(vars, xs + [Bind(nome, valor)] + ys).crashed == ExecStmts(vars, xs + ys).crashed
  {
    var a := ExecStmts(vars, xs);
    var bind := [Bind(nome, valor)];
    assert xs + bind + ys == xs + (bind + ys);
    ExecStmtsAppend(vars, xs, bind + ys);
    ExecStmtsAppend(vars, xs, ys);
    assert (bind + ys)[0] == Bind(nome, valor) && (bind + ys)[1..] == ys;
    StmtsIgnoreVars(a.vars[nome := valor], a.vars, ys);
  }

  /** Since the table is never read, a well-formed `definir` line between
      two stretches of a program can be removed without changing what the
      program prints or whether it crashes. The first and the last line are
      covered by the two lemmas below. */
  lemma DroppingDefinition(a: string, d: string, b: string)
    requires '\n' !in d && Classify(Strip(d)) == Definir
    requires Contains(Strip(From(Strip(d), 8)), AsSep)
    ensures Run(a + "\n" + d + "\n" + b).out == Run(a + "\n" + b).out
    ensures Run(a + "\n" + d + "\n" + b).crashed == Run(a + "\n" + b).crashed
  {
    assert a + "\n" + d + "\n" + b == a + "\n" + (d + "\n" + b);
    DroppingFirstDefinition(d, b);
    RunConcat(a, d + "\n" + b);
    RunConcat(a, b);
  }

  /** A well-formed `definir` piece on its own prints nothing and does not
      crash. */
  lemma RunDefinition(d: string)
    requires '\n' !in d && Classify(Strip(d)) == Definir
    requires Contains(Strip(From(Strip(d), 8)), AsSep)
    ensures Run(d).out == [] && !Run(d).crashed
  {
    RunOneLine(d);
    DefinirLine(map[], d);
  }

  /** The same at the start of a program: removing a well-formed first
      `definir` line changes neither the output nor the crash. */
  lemma DroppingFirstDefinition(d: string, b: string)
    requires '\n' !in d && Classify(Strip(d)) == Definir
    requires Contains(Strip(From(Strip(d), 8)), AsSep)
    ensures Run(d + "\n" + b).out == Run(b).out
    ensures Run(d + "\n" + b).crashed == Run(b).crashed
  {
    RunDefinition(d);
    RunConcat(d, b);
  }

  /** The same at the end of a program: removing a well-formed last
      `definir` line changes neither the output nor the crash. */
  lemma DroppingLastDefinition(a: string, d: string)
    requires '\n' !in d && Classify(Strip(d)) == Definir
    requires Contains(Strip(From(Strip(d), 8)), AsSep)
    ensures Run(a + "\n" + d).out == Run(a).out
    ensures Run(a + "\n" + d).crashed == Run(a).crashed
  {
    RunDefinition(d);
    RunConcat(a, d);
  }

  /** A body is part of a piece, so it holds no newline and is a one-line
      program: a piece prints at most one line, however deeply its bodies
      nest. */
  lemma {:induction false} LineEmitsAtMostOne(vars: Vars, raw: string)
    requires '\n' !in raw
    ensures |ExecLine(vars, raw).out| <= 1
    decreases |raw|
  {
    var s := Parse(raw);
    if (s.IfThen? || s.WhileOnce?) && s.condicao == TrueWord {
      var comando := NestedBody(raw);
      RunOneLine(comando);
      LineEmitsAtMostOne(map[], comando);
    }
  }

  /** The body of a nested statement is the parse of a shorter text, which
      has no newline when its line has none. */
  lemma NestedBody(raw: string) returns (comando: string)
    requires Parse(raw).IfThen? || Parse(raw).WhileOnce?
    ensures Parse(raw).comando == ParseProgram(comando)
    ensures |comando| < |raw| && ('\n' !in raw ==> '\n' !in comando)
  {
    var linha := Strip(raw);
    var sep := if Classify(linha) == Se then ThenSep else DoSep;
    comando := Body(linha, sep);
    if '\n' !in raw {
      StripSetKeepsAbsent(raw, Whitespace, '\n');
      SplitKeepsAbsent(linha, sep, '\n');
      StripSetKeepsAbsent(Split(linha, sep)[1], Whitespace, '\n');
    }
  }

  /** A program without newlines is a single piece. */
  lemma RunOneLine(codigo: string)
    requires '\n' !in codigo
    ensures Run(codigo).out == ExecLine(map[], codigo).out
    ensures Run(codigo).crashed == ExecLine(map[], codigo).crashed
  {
    ContainsChar(codigo, '\n');
    SplitAbsent(codigo, "\n");
    RunIsTranscript(codigo);
    assert [codigo][1..] == [];
  }

  /** Pieces without newlines print at most one line each. */
  lemma {:induction false} TranscriptBound(segs: seq<string>)
    requires forall k :: 0 <= k < |segs| ==> '\n' !in segs[k]
    ensures |Transcript(segs).out| <= |segs|
    decreases |segs|
  {
    if segs != [] {
      LineEmitsAtMostOne(map[], segs[0]);
      TranscriptBound(segs[1..]);
    }
  }

  /** A program prints at most one line per "\n"-separated piece. */
  lemma RunOutputBound(codigo: string)
    ensures |Run(codigo).out| <= |Split(codigo, "\n")|
  {
    var segs := Split(codigo, "\n");
    SplitPiecesLackSep(codigo, "\n");
    forall k | 0 <= k < |segs| ensures '\n' !in segs[k] {
      ContainsChar(segs[k], '\n');
    }
    TranscriptBound(segs);
    RunIsTranscript(codigo);
  }
}
