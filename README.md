# A verified model of `interpretador` (parser.py)

`parser.py` holds a toy interpreter for a Portuguese line language. The
function `interpretador(codigo)` splits its program on `"\n"`. It strips
each piece of whitespace and tests the piece's prefix, case-sensitively, in
this order:

- `definir N como V` stores `V`, stripped of whitespace and of every
  surrounding `"`, under the name `N`, in the dictionary `variaveis`.
- `mostrar T` prints `T`, stripped the same way (`linha[8:]`).
- `se C então B` runs `B` through a recursive call of `interpretador` when
  `C` is `verdadeiro`. `C` is taken from `linha[3:]`, before the first
  ` então `. `B` is the stripped second ` então `-piece of the line.
- `enquanto C faça B` does the same with ` faça ` and `linha[8:]`. Its
  `while` loop always `break`s after the first pass, so `B` runs at most
  once.
- Any other piece, empty ones included, prints
  `Comando não reconhecido: <stripped piece>`.

A `definir`, `se` or `enquanto` line that lacks its separator makes Python
index `[1]` of a one-element list. The resulting IndexError escapes every
enclosing call and ends the run. The lines printed before it stay printed.

The project has four modules:

- `PyString` (`pystring.dfy`) gives the Python `str` operations as pure
  functions on `seq<char>`: `strip()`, `strip(chars)`, `startswith`, `s[k:]`,
  `find` and `split(sep)`. It proves what each one guarantees, among them
  that `split` loses nothing (`Join(Split(s, sep), sep) == s`).
- `Parser` (`parser.dfy`) gives the meaning of a program in two stages:
  - `Parse` reads one piece exactly the way the source's branches do, into a
    `Stmt`;
  - `ExecStmts` runs the statements on a variable table, collecting output
    and a crash flag;
  - `Run` composes the two stages;
  - `Interpretador` is the source's `for` loop, with `variaveis`
    reassigned after each piece. It is proved to produce `Run`'s output and crash flag. Its loop
    body is the method `InterpretLine`, which calls `Interpretador`
    recursively for the bodies.
- `Properties` (`properties.dfy`) states what the interpreter promises:
  - how a program's output is assembled from its pieces;
  - what each kind of line does;
  - that definitions never reach the output;
  - that a crash ends the run;
  - that every piece prints at most one line.
- `Sample` (`sample.dfy`) works the example program at the end of
  `parser.py` through the model. It proves the program prints exactly five
  lines.

The model follows parser.py in these places, which are easy to misread:

- Empty pieces are not skipped. The example program begins and ends with a
  newline, so it prints a bare diagnostic first and last.
- `strip('"')` removes every surrounding quote, not one pair.
- `split(sep)[1]` is the text between the first and second separator, not
  the rest of the line.
- A missing separator is an unhandled IndexError that ends the whole run,
  not a recoverable diagnostic.
- `se` tests `linha[3:]` and `enquanto` tests `linha[8:]`. `mostrar` never
  looks a variable up, so `nome` in `mostrar "O nome é " + nome` is printed
  as written.

## Model

| member | source | states |
|---|---|---|
| Parser.Interpretador | parser.py:1-42 | the lines printed and whether an IndexError escaped are those of `Run(codigo)`, for every program |
| Parser.InterpretLine | parser.py:9-42 | one pass of the loop body gives, for any table, exactly the output, new table and crash flag of `ExecLine` for that piece |
| Parser.Classify | parser.py:12-41 | the kind found is a prefix of the line, and no keyword tested before it is one |
| Parser.Body | parser.py:26-30 | a nested body plus its separator fits within its line, so every recursive call runs on strictly shorter text |
| Parser.Parse | parser.py:9-42 | the statement's kind follows the classification of the stripped line: a print exactly for `mostrar`, a diagnostic naming the stripped line exactly when no keyword matches, a binding only for `definir`, a conditional only for `se`, a once-loop only for `enquanto`, an IndexError only for those three; what each branch does is stated by Properties.DefinirLine, MostrarLine, SeLine, EnquantoLine and UnrecognisedLine |
| Parser.DefinirStmt | parser.py:13-15 | the line is either a binding or an IndexError; IndexError exactly when ` como ` is missing from `linha[8:].strip()`; a binding names the stripped text before the first ` como ` and holds the text between the first and a second one, stripped of whitespace and then quotes |
| Parser.MostrarText | parser.py:20 | the printed text neither starts nor ends with `"`; Properties.MostrarLine states its place in a run |
| Parser.SeStmt | parser.py:25-26 | the line is either a conditional or an IndexError; IndexError exactly when ` então ` is missing; the condition is `linha[3:]` before the first ` então `, stripped |
| Parser.EnquantoStmt | parser.py:34-35 | the same for ` faça `, with the condition taken from `linha[8:]` |
| Parser.Condition | parser.py:25 | `split(sep)[0]` of the text after the first `skip` characters, stripped, is the text before the first `sep`, stripped |
| Parser.ParseAll | parser.py:8 | one statement per piece; Parser.ParseAllAt states that statement `k` is the parse of piece `k` |
| Parser.ParseProgram | parser.py:3 | the statements of the `"\n"`-pieces; Properties.ProgramConcat states that joining two programs by a newline concatenates their statements |
| Parser.ExecStmt | parser.py:9-42 | only a binding changes the table, and it sets exactly its one key; a nested body never writes the caller's table |
| Parser.ExecStmts | parser.py:8-42 | a run of statements without a binding leaves the table as it was; Parser.ExecStmtsAppend states how runs compose |
| Parser.ExecLine | parser.py:9-42 | one piece run on a table; stated per kind by Properties.DefinirLine, MostrarLine, SeLine, EnquantoLine and UnrecognisedLine, and computed by Parser.InterpretLine |
| Parser.Nested | parser.py:6 | a nested call keeps only its output and crash, on a fresh table; stated by Properties.SeLine and EnquantoLine (the caller's table is unchanged) |
| Parser.Then | parser.py:15 | a crash ends the run; stated by Properties.CrashDiscardsRest and RunConcat |
| Parser.Run | parser.py:1-42 | the meaning of `interpretador(codigo)`; computed by Parser.Interpretador, and stated piece by piece by Properties.RunIsTranscript |
| Parser.ParseAllAt | parser.py:8 | the statement at each position is the parse of the piece at that position |
| Parser.ParseAllAppend | parser.py:8 | parsing two runs of pieces is parsing each |
| Parser.ExecStmtsAppend | parser.py:8 | running two runs of statements is running the first, then the second on the table it left unless it crashed |
| Parser.ExecStmtsStep | parser.py:8 | one more pass of the loop extends the output and replaces the table by the pass's own |
| Parser.ExecStmtsCrashAt | parser.py:8 | a pass that crashes ends the run, and its output so far is kept |
| Properties.RunIsTranscript | parser.py:3-9 | a program's output is the in-order concatenation of the outputs of its `"\n"`-pieces, each run alone and empty ones included, up to the first crash; it crashes exactly when one of those pieces does |
| Properties.ProgramConcat | parser.py:3 | the statements of two programs joined by a newline are the statements of each |
| Properties.RunConcat | parser.py:3-42 | joining two programs by a newline prints the first's output, then the second's unless the first crashed; it crashes exactly when either does |
| Properties.CrashDiscardsRest | parser.py:15 | after a crashing program nothing more is printed, and the joined run crashes |
| Properties.ClassifyExact | parser.py:12-33 | a line is of kind `k` exactly when it starts with `k`'s keyword (both directions), because the four keywords begin with four different letters |
| Properties.UnrecognisedLine | parser.py:41-42 | a piece starting with none of the keywords prints the diagnostic naming its stripped text and leaves the table alone |
| Properties.EmptyLineDiagnosed | parser.py:41-42 | an empty or all-whitespace piece is not skipped: it prints `Comando não reconhecido: ` and nothing else |
| Properties.MostrarLine | parser.py:19-21 | a `mostrar` piece prints exactly one line, `linha[8:]` stripped of whitespace and then of quotes, which neither starts nor ends with `"`; the table is unchanged and nothing crashes |
| Properties.DefinirLine | parser.py:12-16 | a `definir` piece prints nothing; it crashes exactly when ` como ` is missing; otherwise it binds the name before the first ` como ` to the value between the first and a second ` como `, overwriting any earlier binding |
| Properties.SeLine | parser.py:24-30 | a `se` piece never changes the table; without ` então ` it crashes silently; with condition `verdadeiro` it prints what its shorter body prints as a program and crashes exactly when that does; otherwise it prints nothing |
| Properties.EnquantoLine | parser.py:33-40 | the same for `enquanto` and ` faça `: the body runs once when the condition is `verdadeiro` and not at all otherwise |
| Properties.StmtIgnoresVars | parser.py:6-16 | the output and the crash of a statement do not depend on the table it runs on |
| Properties.StmtsIgnoreVars | parser.py:6-16 | the same for a run of statements: the table is only ever written |
| Properties.SeInSeCrashes | parser.py:24-30 | a `se` line whose condition is `verdadeiro` and whose body is itself a `se` line crashes, because the body holds no ` então ` |
| Properties.EnquantoInEnquantoCrashes | parser.py:33-40 | an `enquanto` line whose condition is `verdadeiro` and whose body is itself an `enquanto` line crashes, because the body holds no ` faça ` |
| Properties.DropBind | parser.py:16 | removing a binding from a run of statements changes neither its output nor its crash flag |
| Properties.DroppingDefinition | parser.py:12-16 | removing a well-formed `definir` line from between two stretches of a program changes neither its output nor whether it crashes |
| Properties.RunDefinition | parser.py:12-16 | a well-formed `definir` line on its own prints nothing and does not crash |
| Properties.DroppingFirstDefinition | parser.py:12-16 | removing a well-formed `definir` first line changes neither the program's output nor whether it crashes |
| Properties.DroppingLastDefinition | parser.py:12-16 | removing a well-formed `definir` last line changes neither the program's output nor whether it crashes |
| Properties.NestedBody | parser.py:26-39 | a nested statement's body is the parse of a text shorter than its line, with no newline when the line has none |
| Properties.LineEmitsAtMostOne | parser.py:19-42 | a piece without a newline prints at most one line, however deeply its bodies nest |
| Properties.RunOneLine | parser.py:3 | a program without a newline is a single piece |
| Properties.TranscriptBound | parser.py:8-42 | pieces without newlines print at most one line each |
| Properties.RunOutputBound | parser.py:3-42 | a program prints at most as many lines as it has `"\n"`-pieces |
| Sample.SampleOutput | parser.py:45-53 | the example program prints exactly `Comando não reconhecido: `, `O nome é " + nome`, `Isso é verdadeiro`, `Dentro do laço`, `Comando não reconhecido: `, and does not crash |
| Sample.L1Parse | parser.py:46 | `definir nome como "lalala"` binds `nome` to `lalala` |
| Sample.L3Parse | parser.py:48 | the third line is a conditional on `verdadeiro` whose body is `mostrar "Isso é verdadeiro"` |
| Sample.L4Parse | parser.py:49 | the fourth line is a once-loop on `verdadeiro` whose body is `mostrar "Dentro do laço"` |
| Sample.MostrarNoLookup | parser.py:47 | `mostrar "O nome é " + nome` prints `O nome é " + nome` whatever `nome` is bound to |
| Sample.SegundoIsConditional | parser.py:24-26 | `segundo` is taken for a `se` line and, lacking ` então `, crashes the run |
| PyString.From | parser.py:13 | `s[k:]` has `len(s) - k` characters, none when `k` is past the end, and its character `j` is character `k + j` of `s` |
| PyString.LStripSpec | parser.py:9 | `lstrip` drops a prefix made only of stripped characters and keeps a rest that does not start with one |
| PyString.RStripSpec | parser.py:9 | `rstrip` drops a suffix made only of stripped characters and keeps a rest that does not end with one |
| PyString.StripSetEnds | parser.py:15 | after `strip(chars)` neither end of the result is in `chars`, so `strip('"')` removes every surrounding quote |
| PyString.StripSetIsSlice | parser.py:9 | `strip` returns a contiguous slice of its input, with only stripped characters around it |
| PyString.FindSpec | parser.py:13 | `find` reports the first occurrence of the separator, and none exactly when it does not occur |
| PyString.JoinSplit | parser.py:3 | joining the pieces of a split with the separator gives back the string |
| PyString.JoinLength | parser.py:3 | the string is as long as its pieces plus one separator between each pair |
| PyString.SplitPiecesLackSep | parser.py:3 | no piece of a split contains the separator |
| PyString.SplitPartsShorter | parser.py:3 | the pieces of a split together are no longer than the string |
| PyString.SplitHasSecond | parser.py:15 | a split has a second piece exactly when the separator occurs, so `[1]` fails exactly when it is missing |
| PyString.SplitFirstTwo | parser.py:25-26 | the first piece is the text before the first separator, the second the text between the first and the second |
| PyString.SplitSecondShorter | parser.py:26 | the second piece and one separator fit in the string |
| PyString.SplitConcat | parser.py:3 | splitting `a + "\n" + b` on `"\n"` gives the pieces of `a` followed by those of `b` |
| PyString.SplitKeepsAbsent | parser.py:26 | a character missing from a string is missing from every piece of its split |
| PyString.BeforeLacks | parser.py:26 | the text before the first separator holds no separator |
| PyString.StripLacks | parser.py:26 | stripping a string that lacks a separator leaves it lacking it |
| PyString.StripSetKeepsAbsent | parser.py:26 | stripping adds no character |
| PyString.ContainsChar | parser.py:3 | a one-character separator occurs exactly when the character does |

## Left out

- `print` is not I/O here. Each call appends to a sequence of strings, in
  order, so what a real console would show is that sequence.
- Only the IndexError from a missing separator is modelled as an error.
  Every separator is a non-empty constant, so `split` itself never raises.
- Python's recursion limit is not modelled, and it cannot be reached. A
  `se` body lies between the first two ` então ` of its line and an
  `enquanto` body between the first two ` faça `, so a body never contains
  its own separator. A `se` nested in the body of a `se`, or an `enquanto`
  in the body of an `enquanto`, raises IndexError
  (Properties.SeInSeCrashes, Properties.EnquantoInEnquantoCrashes). Mixing
  the two, for the same reason, runs at most two bodies deep.
- A definition removed from a program that has only that one line leaves
  an empty program, which still prints a diagnostic. The dropping lemmas
  therefore keep at least one other line.
- `variaveis` is a value of type `map<string, string>`. The method
  `Interpretador` reassigns it where the source updates the dictionary in
  place. No other code holds a reference to it, so aliasing cannot arise.
- Parsing a body is separated from running it: `Parse` parses the body
  before the condition is tested, while the source only looks at the body
  text when it recurses. Parsing is pure and always terminates, so the two
  orders print the same lines, leave the same tables and crash the same way.
  The method `InterpretLine` follows the source's order.
- `Whitespace` is the full set of characters for which Python 3's
  `str.isspace()` holds, so `strip()` is modelled exactly. There is no
  Unicode normalisation.
- A Dafny `char` is a Unicode scalar value, while a Python `str` may also
  hold lone surrogates (U+D800 to U+DFFF). Programs that contain them are
  outside the model.
- The module-level statements at parser.py:45-53 are not run. They are
  modelled as the lemma `Sample.SampleOutput` about `Run` of the same text.
- aula04_B.py, gera.py, oop2.py and _oop2.py are not part of this model.
  They are a plotting dashboard, a random data generator and two tutorial
  classes, with no logic of the interpreter's kind.
