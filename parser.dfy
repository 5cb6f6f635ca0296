/**
 * The line-oriented command interpreter `interpretador` of parser.py.
 *
 * A program is split on "\n"; every piece is whitespace-stripped and
 * classified by its leading keyword:
 *   definir N como V       bind a variable (never read back)
 *   mostrar T              print T, stripped of surrounding quotes
 *   se C então B           run B, re-interpreted as a program, when C is `verdadeiro`
 *   enquanto C faça B      the same, through a loop that always breaks after one pass
 * and anything else prints a diagnostic. A missing ` como `, ` então ` or
 * ` faça ` makes Python raise IndexError, which ends the whole run.
 *
 * The meaning of a program is given in two stages: `Parse` reads one line
 * the way the source's string operations do, and `ExecStmts` runs the
 * statements that result. Every body is parsed from exactly the text the
 * source hands to its recursive call; parsing is pure, so doing it before
 * the condition is tested changes nothing observable. `Run` composes the
 * two stages; `Interpretador` is the loop of the source, proved to compute it.
 */
module Parser {
  import opened PyString

  /** The `variaveis` dictionary. */
  type Vars = map<string, string>

  /** What a call of `interpretador` leaves behind: the lines it printed (in
      order, including those printed before a crash), its variable table at
      the end, and whether an IndexError escaped from it. */
  datatype Outcome = Outcome(out: seq<string>, vars: Vars, crashed: bool)

  const Diagnostic: string := "Comando não reconhecido: "
  const AsSep: string := " como "
  const ThenSep: string := " então "
  const DoSep: string := " faça "
  const TrueWord: string := "verdadeiro"
  const Quote: set<char> := {'"'}

  /** The statement kinds, in the order the source tests their prefixes. */
  datatype Kind = Definir | Mostrar | Se | Enquanto | Other

  const Keywords: seq<Kind> := [Definir, Mostrar, Se, Enquanto]

  function Keyword(k: Kind): string
    requires k != Other
  {
    match k
    case Definir => "definir"
    case Mostrar => "mostrar"
    case Se => "se"
    case Enquanto => "enquanto"
  }

  /** Position of a kind in the order of the tests; `Other` comes after all
      four keywords. */
  function Rank(k: Kind): nat {
    match k
    case Definir => 0
    case Mostrar => 1
    case Se => 2
    case Enquanto => 3
    case Other => 4
  }

  /** The first keyword, in the fixed order, that the stripped line starts
      with (case-sensitively); `Other` when there is none. */
  function Classify(linha: string): (k: Kind)
    ensures k != Other ==> StartsWith(linha, Keyword(k))
    ensures forall j :: 0 <= j < Rank(k) ==> !StartsWith(linha, Keyword(Keywords[j]))
  {
    if StartsWith(linha, "definir") then Definir
    else if StartsWith(linha, "mostrar") then Mostrar
    else if StartsWith(linha, "se") then Se
    else if StartsWith(linha, "enquanto") then Enquanto
    else Other
  }

  /** One line, as the source's branches see it. */
  datatype Stmt =
    | Bind(nome: string, valor: string)
    | Print(conteudo: string)
    | IfThen(condicao: string, comando: seq<Stmt>)
    | WhileOnce(condicao: string, comando: seq<Stmt>)
    | Unrecognised(linha: string)
    | IndexError

  /** The condition of a `se` or `enquanto` line: what follows the first
      `skip` characters, up to the first `sep`, whitespace-stripped. */
  function Condition(linha: string, skip: nat, sep: string): (c: string)
    requires sep != []
    ensures c == Strip(Before(From(linha, skip), sep))
  {
    SplitFirstTwo(From(linha, skip), sep);
    Strip(Split(From(linha, skip), sep)[0])
  }

  /** The body of a `se` or `enquanto` line: the second `sep`-separated piece
      of the whole line, whitespace-stripped. It is strictly shorter than the
      line, which is what makes the recursion terminate. */
  function Body(linha: string, sep: string): (b: string)
    requires sep != [] && |Split(linha, sep)| >= 2
    ensures |b| + |sep| <= |linha|
  {
    SplitSecondShorter(linha, sep);
    Strip(Split(linha, sep)[1])
  }

  /** One piece of the program after `linha = linha.strip()` and the prefix
      tests; `IndexError` where indexing `[1]` of a split would fail. */
  function Parse(raw: string): (s: Stmt)
    ensures var k := Classify(Strip(raw));
      && (s.Print? <==> k == Mostrar)
      && (s.Unrecognised? <==> k == Other)
      && (s.Bind? ==> k == Definir)
      && (s.IfThen? ==> k == Se)
      && (s.WhileOnce? ==> k == Enquanto)
      && (s.IndexError? ==> k == Definir || k == Se || k == Enquanto)
      && (s.Unrecognised? ==> s.linha == Strip(raw))
    decreases |raw|, 1
  {
    var linha := Strip(raw);
    match Classify(linha)
    case Definir => DefinirStmt(linha)
    case Mostrar => Print(MostrarText(linha))
    case Se => SeStmt(linha)
    case Enquanto => EnquantoStmt(linha)
    case Other => Unrecognised(linha)
  }

  /** `linha[8:].strip().split(" como ")`: the name is the first piece and the
      value the second, each stripped; there may be no second piece. */
  function DefinirStmt(linha: string): (s: Stmt)
    ensures var t := Strip(From(linha, 8));
      && (s.IndexError? || s.Bind?)
      && (s.IndexError? <==> !Contains(t, AsSep))
      && (s.Bind? ==>
            s.nome == Strip(Before(t, AsSep))
            && s.valor == StripSet(Strip(Before(After(t, AsSep), AsSep)), Quote))
  {
    var t := Strip(From(linha, 8));
    SplitHasSecond(t, AsSep);
    SplitFirstTwo(t, AsSep);
    var partes := Split(t, AsSep);
    if |partes| < 2 then IndexError
    else Bind(Strip(partes[0]), StripSet(Strip(partes[1]), Quote))
  }

  /** `linha[8:].strip().strip('"')` */
  function MostrarText(linha: string): (r: string)
    ensures r == [] || (r[0] != '"' && r[|r| - 1] != '"')
  {
    StripSetEnds(Strip(From(linha, 8)), Quote);
    StripSet(Strip(From(linha, 8)), Quote)
  }

  /** A `se` line: its condition and its parsed body. */
  function SeStmt(linha: string): (s: Stmt)
    ensures s.IndexError? || s.IfThen?
    ensures s.IndexError? <==> !Contains(linha, ThenSep)
    ensures s.IfThen? ==> s.condicao == Strip(Before(From(linha, 3), ThenSep))
    decreases |linha|, 0
  {
    SplitHasSecond(linha, ThenSep);
    if |Split(linha, ThenSep)| < 2 then IndexError
    else IfThen(Condition(linha, 3, ThenSep), ParseProgram(Body(linha, ThenSep)))
  }

  /** An `enquanto` line: its condition and its parsed body. */
  function EnquantoStmt(linha: string): (s: Stmt)
    ensures s.IndexError? || s.WhileOnce?
    ensures s.IndexError? <==> !Contains(linha, DoSep)
    ensures s.WhileOnce? ==> s.condicao == Strip(Before(From(linha, 8), DoSep))
    decreases |linha|, 0
  {
    SplitHasSecond(linha, DoSep);
    if |Split(linha, DoSep)| < 2 then IndexError
    else WhileOnce(Condition(linha, 8, DoSep), ParseProgram(Body(linha, DoSep)))
  }

  /** The pieces, each parsed. */
  function ParseAll(segs: seq<string>): (ss: seq<Stmt>)
    ensures |ss| == |segs|
    decreases TotalLen(segs), 2, |segs|
  {
    if segs == [] then [] else [Parse(segs[0])] + ParseAll(segs[1..])
  }

  /** `codigo.split("\n")`, each piece parsed. */
  function ParseProgram(codigo: string): seq<Stmt>
    decreases |codigo|, 3
  {
    SplitPartsShorter(codigo, "\n");
    ParseAll(Split(codigo, "\n"))
  }

  /** A nested call runs on its own fresh table, which is then dropped: only
      its output and its crash reach the caller. */
  function Nested(vars: Vars, inner: Outcome): Outcome {
    Outcome(inner.out, vars, inner.crashed)
  }

  /** `first`, followed by `next` unless `first` crashed. */
  function Then(first: Outcome, next: Outcome): Outcome {
    if first.crashed then first
    else Outcome(first.out + next.out, next.vars, next.crashed)
  }

  /** One pass of the source's `for` loop body. */
  function ExecStmt(vars: Vars, s: Stmt): (r: Outcome)
    ensures r.vars == if s.Bind? then vars[s.nome := s.valor] else vars
    decreases s
  {
    match s
    case Bind(nome, valor) => Outcome([], vars[nome := valor], false)
    case Print(conteudo) => Outcome([conteudo], vars, false)
    case IfThen(condicao, comando) =>
      if condicao == TrueWord then Nested(vars, ExecStmts(map[], comando))
      else Outcome([], vars, false)
    case WhileOnce(condicao, comando) =>
      if condicao == TrueWord then Nested(vars, ExecStmts(map[], comando))
      else Outcome([], vars, false)
    case Unrecognised(linha) => Outcome([Diagnostic + linha], vars, false)
    case IndexError => Outcome([], vars, true)
  }

  /** The statements run in order on one table; the first crash ends the run. */
  function ExecStmts(vars: Vars, ss: seq<Stmt>): (r: Outcome)
    ensures (forall k :: 0 <= k < |ss| ==> !ss[k].Bind?) ==> r.vars == vars
    decreases ss
  {
    if ss == [] then Outcome([], vars, false)
    else
      var first := ExecStmt(vars, ss[0]);
      Then(first, ExecStmts(first.vars, ss[1..]))
  }

  /** What one raw line does to a table. */
  function ExecLine(vars: Vars, raw: string): Outcome {
    ExecStmt(vars, Parse(raw))
  }

  /** `interpretador(codigo)`: run every piece on one table that starts empty. */
  function Run(codigo: string): Outcome {
    ExecStmts(map[], ParseProgram(codigo))
  }

  /** parser.py's `interpretador`: `print` appends to `printed`, the
      dictionary `variaveis` is reassigned after each piece, and an
      IndexError stops the run with `crashed`. */
  method Interpretador(codigo: string) returns (printed: seq<string>, crashed: bool)
    ensures printed == Run(codigo).out && crashed == Run(codigo).crashed
    decreases |codigo|, 1
  {
    var linhas := Split(codigo, "\n");
    SplitPartsShorter(codigo, "\n");
    ghost var stmts := ParseProgram(codigo);
    ParseAllAt(linhas);
    var variaveis: Vars := map[];
    printed, crashed := [], false;
    for i := 0 to |linhas|
      invariant ExecStmts(map[], stmts[..i]) == Outcome(printed, variaveis, false)
    {
      var out, after, failed := InterpretLine(linhas[i], variaveis);
      ExecStmtsStep(map[], stmts, i);
      printed := printed + out;
      if failed {
        crashed := true;
        ExecStmtsCrashAt(map[], stmts, i);
        return;
      }
      variaveis := after;
    }
    assert stmts[..|stmts|] == stmts;
  }

  /** The body of the source's `for` loop, for the piece `raw` and the table
      as it stands: what it prints, the table after it, and whether an
      IndexError escaped (lines printed by a nested call before its crash
      are kept). */
  method InterpretLine(raw: string, variaveis: Vars)
    returns (printed: seq<string>, after: Vars, crashed: bool)
    ensures Outcome(printed, after, crashed) == ExecLine(variaveis, raw)
    decreases |raw|, 0
  {
    var linha := Strip(raw);
    printed, after, crashed := [], variaveis, false;
    if StartsWith(linha, "definir") {
      ExecDefinir(variaveis, raw);
      var partes := Split(Strip(From(linha, 8)), AsSep);
      if |partes| < 2 {
        crashed := true;
        return;
      }
      var nome := Strip(partes[0]);
      var valor := StripSet(Strip(partes[1]), Quote);
      after := variaveis[nome := valor];
    } else if StartsWith(linha, "mostrar") {
      ParseMostrar(raw);
      var conteudo := StripSet(Strip(From(linha, 8)), Quote);
      printed := [conteudo];
    } else if StartsWith(linha, "se") {
      ExecSe(variaveis, raw);
      var condicao := Condition(linha, 3, ThenSep);
      if |Split(linha, ThenSep)| < 2 {
        crashed := true;
        return;
      }
      var comando := Body(linha, ThenSep);
      if condicao == TrueWord {
        printed, crashed := Interpretador(comando);
      }
    } else if StartsWith(linha, "enquanto") {
      ExecEnquanto(variaveis, raw);
      var condicao := Condition(linha, 8, DoSep);
      if |Split(linha, DoSep)| < 2 {
        crashed := true;
        return;
      }
      var comando := Body(linha, DoSep);
      // `while condicao == "verdadeiro": ...; break` leaves after its
      // first pass, so it runs its body exactly when this `if` does.
      if condicao == TrueWord {
        printed, crashed := Interpretador(comando);
      }
    } else {
      ParseOther(raw);
      printed := [Diagnostic + linha];
    }
  }

  /** How each branch of the source reads a line (helpers for the loop). */
  lemma ParseDefinir(raw: string)
    requires StartsWith(Strip(raw), "definir")
    ensures var partes := Split(Strip(From(Strip(raw), 8)), AsSep);
      Parse(raw) == if |partes| < 2 then IndexError
                    else Bind(Strip(partes[0]), StripSet(Strip(partes[1]), Quote))
  {
  }

  lemma ParseMostrar(raw: string)
    requires StartsWith(Strip(raw), "mostrar")
    ensures Parse(raw) == Print(StripSet(Strip(From(Strip(raw), 8)), Quote))
  {
  }

  lemma ParseSe(raw: string)
    requires var linha := Strip(raw);
      StartsWith(linha, "se") && !StartsWith(linha, "definir") && !StartsWith(linha, "mostrar")
    ensures var linha := Strip(raw);
      Parse(raw) == if |Split(linha, ThenSep)| < 2 then IndexError
                    else IfThen(Condition(linha, 3, ThenSep), ParseProgram(Body(linha, ThenSep)))
  {
  }

  lemma ParseEnquanto(raw: string)
    requires var linha := Strip(raw);
      StartsWith(linha, "enquanto") && !StartsWith(linha, "definir")
      && !StartsWith(linha, "mostrar") && !StartsWith(linha, "se")
    ensures var linha := Strip(raw);
      Parse(raw) == if |Split(linha, DoSep)| < 2 then IndexError
                    else WhileOnce(Condition(linha, 8, DoSep), ParseProgram(Body(linha, DoSep)))
  {
  }

  lemma ParseOther(raw: string)
    requires var linha := Strip(raw);
      !StartsWith(linha, "definir") && !StartsWith(linha, "mostrar")
      && !StartsWith(linha, "se") && !StartsWith(linha, "enquanto")
    ensures Parse(raw) == Unrecognised(Strip(raw))
  {
  }

  /** What each branch does to the table and the output (helpers for the
      loop body). */
  lemma ExecDefinir(vars: Vars, raw: string)
    requires StartsWith(Strip(raw), "definir")
    ensures var partes := Split(Strip(From(Strip(raw), 8)), AsSep);
      ExecLine(vars, raw)
        == if |partes| < 2 then Outcome([], vars, true)
           else Outcome([], vars[Strip(partes[0]) := StripSet(Strip(partes[1]), Quote)], false)
  {
    ParseDefinir(raw);
  }

  lemma ExecSe(vars: Vars, raw: string)
    requires var linha := Strip(raw);
      StartsWith(linha, "se") && !StartsWith(linha, "definir") && !StartsWith(linha, "mostrar")
    ensures var linha := Strip(raw);
      ExecLine(vars, raw)
        == if |Split(linha, ThenSep)| < 2 then Outcome([], vars, true)
           else if Condition(linha, 3, ThenSep) == TrueWord then Nested(vars, Run(Body(linha, ThenSep)))
           else Outcome([], vars, false)
  {
    ParseSe(raw);
  }

  lemma ExecEnquanto(vars: Vars, raw: string)
    requires var linha := Strip(raw);
      StartsWith(linha, "enquanto") && !StartsWith(linha, "definir")
      && !StartsWith(linha, "mostrar") && !StartsWith(linha, "se")
    ensures var linha := Strip(raw);
      ExecLine(vars, raw)
        == if |Split(linha, DoSep)| < 2 then Outcome([], vars, true)
           else if Condition(linha, 8, DoSep) == TrueWord then Nested(vars, Run(Body(linha, DoSep)))
           else Outcome([], vars, false)
  {
    ParseEnquanto(raw);
  }

  /** Each parsed statement is the parse of the piece at the same position. */
  lemma {:induction false} ParseAllAt(segs: seq<string>)
    ensures forall k :: 0 <= k < |segs| ==> ParseAll(segs)[k] == Parse(segs[k])
  {
    if segs != [] {
      var rest := ParseAll(segs[1..]);
      assert ParseAll(segs) == [Parse(segs[0])] + rest;
      ParseAllAt(segs[1..]);
      forall k | 1 <= k < |segs| ensures ParseAll(segs)[k] == Parse(segs[k]) {
        assert ParseAll(segs)[k] == rest[k - 1];
        assert segs[k] == segs[1..][k - 1];
      }
    }
  }

  /** Parsing two stretches of pieces is parsing each. */
  lemma {:induction false} ParseAllAppend(xs: seq<string>, ys: seq<string>)
    ensures ParseAll(xs + ys) == ParseAll(xs) + ParseAll(ys)
  {
    if xs == [] {
      assert xs + ys == ys;
    } else {
      assert (xs + ys)[0] == xs[0];
      assert (xs + ys)[1..] == xs[1..] + ys;
      ParseAllAppend(xs[1..], ys);
    }
  }

  /** Running two consecutive stretches of statements is running the first,
      then (unless it crashed) the second on the table the first left. */
  lemma {:induction false} ExecStmtsAppend(vars: Vars, xs: seq<Stmt>, ys: seq<Stmt>)
    ensures var a := ExecStmts(vars, xs);
      ExecStmts(vars, xs + ys) == Then(a, ExecStmts(a.vars, ys))
    decreases |xs|
  {
    if xs == [] {
      assert xs + ys == ys;
    } else {
      assert (xs + ys)[0] == xs[0];
      assert (xs + ys)[1..] == xs[1..] + ys;
      var first := ExecStmt(vars, xs[0]);
      ExecStmtsAppend(first.vars, xs[1..], ys);
    }
  }

  /** One more statement, when the statements before it ran without a crash. */
  lemma ExecStmtsStep(vars: Vars, ss: seq<Stmt>, i: nat)
    requires i < |ss| && !ExecStmts(vars, ss[..i]).crashed
    ensures var a := ExecStmts(vars, ss[..i]);
      var b := ExecStmt(a.vars, ss[i]);
      ExecStmts(vars, ss[..i + 1]) == Outcome(a.out + b.out, b.vars, b.crashed)
  {
    assert ss[..i + 1] == ss[..i] + [ss[i]];
    ExecStmtsAppend(vars, ss[..i], [ss[i]]);
    assert [ss[i]][1..] == [];
  }

  /** A crash in statement `i` decides the outcome of the whole program:
      nothing after it runs. */
  lemma ExecStmtsCrashAt(vars: Vars, ss: seq<Stmt>, i: nat)
    requires i < |ss| && !ExecStmts(vars, ss[..i]).crashed
    requires ExecStmt(ExecStmts(vars, ss[..i]).vars, ss[i]).crashed
    ensures var a := ExecStmts(vars, ss[..i]);
      var b := ExecStmt(a.vars, ss[i]);
      ExecStmts(vars, ss).out == a.out + b.out && ExecStmts(vars, ss).crashed
  {
    ExecStmtsStep(vars, ss, i);
    assert ss == ss[..i + 1] + ss[i + 1..];
    ExecStmtsAppend(vars, ss[..i + 1], ss[i + 1..]);
  }
}
