# gendef: the tree.def emitter

`gendef` reads a language description and writes `tree.def`. That file is a
list of `DEFTYPE` macro calls, one for each tree node type the compiler's
front end knows. This project models the emitter, `outputTreeDef`, and proves
what it writes.

The emitter writes a fixed five-line banner comment and a blank line. Then,
for each node type in `lang.treeTypes`, in list order, it writes
`DEFTYPE(<name>, "<friendly_name>")` followed by a line break.

- `gentypes.dfy`, module `GenTypes`. It holds the node types (`TreeType`,
  `Lang`) and the banner and format constants. It specifies the output with
  functions: `CStr` is what `%s` writes for a C string, `Line` is one macro
  line, `Body` is all the lines and `Render` is the whole file.
  `OutputTreeDef` is the emitter's loop. It appends to a string buffer, and
  its loop invariant is `f == Banner + Body(ts[..i])`. The module's lemmas
  cover:
  - the banner;
  - the exact shape of each line;
  - truncation at NUL;
  - concatenation, order and position;
  - output length;
  - line count.
- `treedef_reader.dfy`, module `TreeDefReader`. It holds a reader for the
  emitted text (`Decode`), which serves as the emitter's inverse. Reading
  back the rendered file gives the original list, in the same order, for
  every list in which:
  - no name or friendly name holds a NUL character or a line break;
  - no bare name holds a comma.

  Outside those bounds, the collision lemmas show two different lists that
  render to the same file.
- `seq_facts.dfy`, module `SeqFacts`. It holds generic facts about
  sequences (splitting, regrouping, framing) that the proofs above use.

The emitter writes both names verbatim: it escapes no `"` or `\` and does
not check the identifier. `UnescapedNameCollision` and
`UnescapedLineBreakCollision` show what is lost.

Each name is passed to `%s` as `c_str()`, so it is written only up to its
first NUL character. `CStr` models this, and `NulCollision` shows the
consequence.

## Model

| member | source | states |
|---|---|---|
| `GenTypes.CStr` | src/gentypes.cpp:14-15 | what `%s` writes for `c_str()` is a prefix of the string that holds no NUL; it is the whole string or stops exactly at the first NUL |
| `GenTypes.Line` | src/gentypes.cpp:14-15 | the `fprintf` of one entry. It has no ensures of its own: its contract is carried by `LineShape`, `LineVerbatim` and, as inverse, `ParseLineOf` |
| `GenTypes.Body` | src/gentypes.cpp:13-15 | the lines the loop writes, one per node type in list order. It has no ensures of its own: its contract is carried by `BodyAppend` and, as inverse, `DecodeBodyOf` |
| `GenTypes.Render` | src/gentypes.cpp:7-15 | the whole file: the constant `Banner` (the literal at lines 7-11) followed by `Body`. It has no ensures of its own: its contract is carried by `RenderStartsWithBanner` and, as inverse, `RenderRoundTrip` |
| `GenTypes.CStrUpToNul` | src/gentypes.cpp:14 | `%s` on a string with a NUL after a NUL-free part `n` writes exactly `n` |
| `GenTypes.LineShape` | src/gentypes.cpp:14-15 | one node type's line starts with `DEFTYPE(`, ends in `")` and a line break, and is 14 characters longer than the two (truncated) names together |
| `GenTypes.OutputTreeDef` | src/gentypes.cpp:3-18 | the loop writes exactly the banner followed by the line of every node type in list order (`Render`) |
| `GenTypes.RenderStartsWithBanner` | src/gentypes.cpp:7-11 | every file begins with the fixed banner comment and blank line, and what follows it is the lines |
| `GenTypes.RenderEmpty` | src/gentypes.cpp:7-15 | a language without node types produces exactly the banner and nothing else |
| `GenTypes.LineVerbatim` | src/gentypes.cpp:14-15 | without NUL characters a line is `DEFTYPE(` + name + `, "` + friendly name + `")` + line break (the constants `LinePrefix`, `LineSeparator` and `LineSuffix` hold these literals): the name bare, the friendly name quoted, neither escaped |
| `GenTypes.LineTruncatesAtNul` | src/gentypes.cpp:14-15 | a line depends only on the parts of the names before their first NUL |
| `GenTypes.BodyAppend` | src/gentypes.cpp:13-15 | the lines of a concatenated list are the lines of the first part followed by those of the second |
| `GenTypes.BodySingleton` | src/gentypes.cpp:13-15 | a one-element list is written as exactly that element's line |
| `GenTypes.BodyPush` | src/gentypes.cpp:13-15 | appending a node type appends exactly its line and leaves the earlier output unchanged |
| `GenTypes.BodyPrefixStep` | src/gentypes.cpp:13-15 | one more turn of the loop extends the output for the first `i` node types by exactly the line of the `i`-th |
| `GenTypes.BodyAt` | src/gentypes.cpp:13-15 | the i-th node type's line sits after the lines of all earlier types and before those of all later ones, once each |
| `GenTypes.RenderOfSameLines` | src/gentypes.cpp:13-15 | two lists whose entries are written alike, position by position, give the same file |
| `GenTypes.BodyLength` | src/gentypes.cpp:13-15 | the body's length is the sum of the line lengths |
| `GenTypes.RenderLength` | src/gentypes.cpp:7-15 | the file's length is the banner's plus, per node type, its truncated names plus 14 |
| `GenTypes.RenderLengthNoNul` | src/gentypes.cpp:7-15 | without NUL characters, the file length is the banner's plus the sum of `|name| + |friendly_name| + 14` |
| `GenTypes.LineHasOneNewline` | src/gentypes.cpp:14-15 | a node type whose names hold no line break is written as exactly one line |
| `GenTypes.BodyLineCount` | src/gentypes.cpp:13-15 | without line breaks in the names, the text after the banner holds exactly one line break per node type |
| `TreeDefReader.ParseLine` | src/gentypes.cpp:14 | a line that reads back has the `DEFTYPE(name, "friendly")` shape around the recovered names, and the recovered name holds no comma |
| `TreeDefReader.ParseLineOf` | src/gentypes.cpp:14 | the text of a recoverable node type's line reads back as that node type |
| `TreeDefReader.LineSplit` | src/gentypes.cpp:14-15 | a recoverable node type's line holds exactly one line break, at its end |
| `TreeDefReader.DecodeBodyOf` | src/gentypes.cpp:13-15 | the lines written for recoverable node types read back as the same list, in order |
| `TreeDefReader.RenderRoundTrip` | src/gentypes.cpp:7-15 | reading the whole file back gives the written list: one entry per node type, in list order, none skipped or repeated |
| `TreeDefReader.RenderInjective` | src/gentypes.cpp:7-15 | two different lists of recoverable node types never produce the same file |
| `TreeDefReader.UnescapedNameCollision` | src/gentypes.cpp:14 | a name containing `, "` is written unescaped, so it writes the same file as a different split between name and friendly name |
| `TreeDefReader.UnescapedLineBreakCollision` | src/gentypes.cpp:14-15 | a friendly name containing `")`, a line break and another macro call writes the same file as two separate node types |
| `TreeDefReader.NulCollision` | src/gentypes.cpp:14 | whatever follows a NUL in a name is dropped, so the name `n` + NUL + anything writes the same file as `n` |

## Left out

- `main`, `usage` and the argument-count and `fopen` checks of the input file (src/gentypes.cpp:20-53) are command-line plumbing and error-stream output. They are not modelled.
- `lang_read` (src/gentypes.cpp:48) is the parser of the language description. Its grammar and `struct lang` live in `lang.h` and its implementation, which are not part of this model. Duplicate-name rejection and identifier validation are not modelled for the same reason.
- The file operations `fopen("tree.def", "w")`, `fputs`, `fprintf` and `fclose` are modelled as the string that `OutputTreeDef` returns. The truncating open is reflected in the buffer starting with the banner. The code never checks `f` for NULL or for write errors, so the model has no error path there. `fputs` or `fprintf` on a NULL stream is undefined behaviour (in practice a crash), and a failed write leaves a short `tree.def`: the result of `OutputTreeDef` describes the file only when the open and every write succeed.
- Escaping of `"` and `\` in the names is not modelled, because the code does not perform it.
- The names are `std::string`, which hold bytes. The model uses Dafny characters and does not capture the character encoding.
