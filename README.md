# chibicc, early stages: a Dafny model

This project models the first stages of chibicc, a small C compiler. The
model covers four parts of the compiler:

- **The tokenizer** of `tokenize.c`. It turns the input into a list of
  tokens: numbers, identifiers, punctuators, and a final end-of-file token.
- **The recursive-descent parser** of `parse.c`. It builds a tree for an
  arithmetic expression with `==`, `!=`, `<`, `<=`, `>`, `>=`, `+`, `-`,
  `*`, `/`, unary `+` and `-`, and parentheses.
- **The code generator** of `codegen.c`. It emits x86-64 stack-machine code.
- **The older single-file compiler** `chibicc.c`. It has its own lexer with
  no identifier rule, the same parser, a `gen_expr` without variables, and a
  `main` that emits the header, one expression and `ret`.

## How the model is built

- **Values instead of pointers.** Tokens are values carrying a kind, a
  value, an offset into the input, and a length. The linked lists of tokens
  and statements become sequences, and the `Node` struct becomes an
  algebraic datatype with one constructor per node kind.
- **Errors as results.** Every fatal diagnostic (`error`, `error_at`) is an
  `Err` result carrying its message tag and, where the source points into
  the input, the offset it points at.
- **Each loop twice.** The source's loops are written as methods with
  `while`/`for` loops:
  - the scan of `tokenize` and the `strtol` reading;
  - the `for (;;)` loops of the parser levels;
  - the statement loop of `codegen`.

  Each method is proved equal to a recursive specification function:
  `Scan`/`Lex` for the scan, the `Grammar` productions for the parser, and
  `Program` for the statement loop. The lemmas are stated about those
  functions.
- **An abstract machine and an interpreter.** Emitted instructions are
  values of a datatype. An abstract machine runs them; it has the registers
  rax, rdi, rdx, rsp and rbp, the flags of the last `cmp`, and a memory of
  8-byte words. An independent interpreter gives each tree its value, and
  the code generator is proved to compute that value.

### Parts of the model that are not in the source

These exist only to state and prove properties:

- **The printer.** `Lexemes` and `Printer` print a tree back to text, with
  the fewest parentheses the grammar needs. The round trip
  `Parse(Lex(Print(e))) == e` pins down precedence and associativity.
- **The interpreter.** `Semantics` gives each tree a value and is the
  reference for the code generator.

### The snapshot does not fit together

The source files are a snapshot in which the parts disagree in a few
places. The model follows the code:

- **Return type of `parse`.** `chibicc.h:86` declares `Function *parse`,
  but `parse.c:189` defines it returning a `Node *`, and `codegen.c:90`
  takes that `Node *`.
- **Variable names.** `codegen.c:8` reads `node->name`, while the `Node`
  struct of `chibicc.h:76-83` has an `Obj *var`. The model gives a variable
  node its one-letter name, which is the form the code generator reads.
- **Nodes the parser never builds.** `parse.c` never builds variables,
  assignments or expression statements. A parsed tree handed to `codegen`
  therefore stops at "invalid statement" (`CodegenFacts.ParsedTreeIsNoStatement`).
  The code generator is modelled and proved on every tree it accepts, not
  only on parsed ones.

### Sharing the parser between the two compilers

The parser functions of `chibicc.c:183-350` are the same text as
`parse.c:20-187`. The model of `chibicc.c` therefore reuses `Grammar` and
`Parse`. Its `main` tests `is_token_eof` after `expr` (`chibicc.c:422-423`),
which is the same end-of-file check `parse` makes (`parse.c:191-192`).

## Model

| member | source | states |
|---|---|---|
| Tokenize.StartsWith | tokenize.c:15-17 | true exactly when `q` is a prefix of `p` |
| Tokenize.ReadPunct | tokenize.c:20-26 | the punctuator read at `p` never runs past the end of the input |
| Tokenize.ReadPunctByStartsWith | tokenize.c:20-26 | the length is 2 when the input at `p` starts with `==`, `!=`, `<=` or `>=`; otherwise 1 for an `ispunct` character and 0 for anything else (longest match) |
| Tokenize.IsTokenPunct | tokenize.c:62-67 | holds exactly when the token is a punctuator whose text equals `s`, length included |
| Tokenize.DigitsEndRun | tokenize.c:100-106 | a number token covers the maximal run of digits: every character up to the end is a digit, and the next one is not |
| Tokenize.IdentEndRun | tokenize.c:110-118 | an identifier extends over the maximal run of letters, digits and `_` |
| Tokenize.IsIdent1 | tokenize.c:29-31 | definition (a letter or `_`); properties in `Tokenize.StepIdent` |
| Tokenize.IsIdent2 | tokenize.c:34-36 | definition (`is_ident1` or a digit); properties in `Tokenize.IdentEndRun` |
| Tokenize.IsTokenNumber | tokenize.c:69-73 | definition (the token's kind is `TK_NUM`); properties in `Grammar.Primary` |
| Tokenize.IsTokenIdent | tokenize.c:75-79 | definition (the token's kind is `TK_IDENT`); properties in `Grammar.Primary` |
| Tokenize.IsTokenEof | tokenize.c:81-85 | definition (the token's kind is `TK_EOF`); properties in `Grammar.Parse` and `TokenizeFacts.ScanEndsInEof` |
| Tokenize.DigitsEnd | tokenize.c:100-106 | the end of the digit run lies between the cursor and the end of input; maximality in `Tokenize.DigitsEndRun` |
| Tokenize.IdentEnd | tokenize.c:110-118 | the end of the identifier run lies between the cursor and the end of input; maximality in `Tokenize.IdentEndRun` |
| Tokenize.StepAt | tokenize.c:92-131 | a token made by one iteration starts at the cursor, is non-empty, lies inside the input and is never end-of-file |
| Tokenize.StepSpace | tokenize.c:94-97 | whitespace only advances the cursor |
| Tokenize.StepNumber | tokenize.c:100-106 | at a digit, a number token is emitted over the digit run, with its base-10 value, and the scan continues after it |
| Tokenize.StepIdent | tokenize.c:110-118 | at a letter or `_`, an identifier token is emitted over the maximal identifier run |
| Tokenize.StepPunct | tokenize.c:122-131 | otherwise a punctuator of `read_punct`'s length is emitted, or the scan fails with "invalid token" at that offset |
| Tokenize.StepEnd | tokenize.c:134-137 | at the end of input, the end-of-file token is appended, at the input's length with length 0 |
| Tokenize.StrToL | tokenize.c:103-105 | the loop stops at the end of the digit run and returns the base-10 value of the digits it read |
| Tokenize.Scan | tokenize.c:87-138 | definition of the scan from a cursor; properties in `TokenizeFacts.ScanEndsInEof`, `TokenizeFacts.ScanWellFormed`, `TokenizeFacts.ScanOrdered`, `TokenizeFacts.ScanDropsOnlySpace` and `TokenizeFacts.ScanError` |
| Tokenize.Lex | tokenize.c:87-138 | definition (the scan from offset 0); the loop `Tokenize.Tokenize` is proved to compute it |
| Tokenize.Tokenize | tokenize.c:87-138 | the scanning loop returns exactly the specification `Lex(src)`: the same tokens, or the same error |
| TokenizeFacts.StepKinds | tokenize.c:92-131 | a character is skipped exactly when it is whitespace; the scan fails exactly at a character no branch accepts, with "invalid token" at its offset |
| TokenizeFacts.EmitFacts | tokenize.c:100-129 | an emitted token is not end-of-file, has the shape of its branch, and covers only accepted non-space characters |
| TokenizeFacts.ScanEndsInEof | tokenize.c:134-137 | a successful scan ends in exactly one end-of-file token, at the end of the input with length 0, and no other token is end-of-file |
| TokenizeFacts.ScanWellFormed | tokenize.c:100-129 | every token has its branch's shape: maximal digit run and its value, maximal identifier run, or `read_punct`'s length |
| TokenizeFacts.ScanOrdered | tokenize.c:92-137 | tokens lie inside the input, in source order, with non-overlapping spans |
| TokenizeFacts.ScanDropsOnlySpace | tokenize.c:94-97 | the tokens' texts in order are the input with its whitespace removed |
| TokenizeFacts.ScanError | tokenize.c:131 | the scan fails exactly when some character is accepted by no branch, and then at the first such character |
| Grammar.Expr | parse.c:20-22 | on success consumes at least one token and stops inside the list; on failure, a syntax error located at a token from the cursor on |
| Grammar.Equality | parse.c:25-49 | as for `Expr`, for the equality level |
| Grammar.EqualityRest | parse.c:28-48 | the loop never moves the cursor back and keeps the tree arithmetic; errors lie at or after the cursor |
| Grammar.Relational | parse.c:52-94 | as for `Expr`, for the relational level |
| Grammar.RelationalRest | parse.c:55-93 | as for `EqualityRest`, for `<`, `<=`, `>`, `>=` |
| Grammar.Add | parse.c:97-121 | as for `Expr`, for the additive level |
| Grammar.AddRest | parse.c:100-120 | as for `EqualityRest`, for `+` and `-` |
| Grammar.Mul | parse.c:124-148 | as for `Expr`, for the multiplicative level |
| Grammar.MulRest | parse.c:127-147 | as for `EqualityRest`, for `*` and `/` |
| Grammar.Unary | parse.c:151-166 | as for `Expr`: unary operators consume their token before recursing |
| Grammar.Primary | parse.c:169-187 | as for `Expr`; the errors are the missing `)` and "expected an expression" |
| Grammar.Parse | parse.c:189-194 | a parsed tree is arithmetic; a failure is a syntax error or "extra token" |
| Parse.Expr | parse.c:20-22 | the method returns what `Grammar.Expr` specifies |
| Parse.Equality | parse.c:25-49 | the `for (;;)` loop returns what `Grammar.Equality` specifies |
| Parse.Relational | parse.c:52-94 | the loop, with `>` and `>=` swapping operands, returns what `Grammar.Relational` specifies |
| Parse.Add | parse.c:97-121 | the loop returns what `Grammar.Add` specifies |
| Parse.Mul | parse.c:124-148 | the loop returns what `Grammar.Mul` specifies |
| Parse.Unary | parse.c:151-166 | returns what `Grammar.Unary` specifies |
| Parse.Primary | parse.c:169-187 | returns what `Grammar.Primary` specifies |
| Parse.Parse | parse.c:189-194 | returns what `Grammar.Parse` specifies |
| Lexemes.StepLexeme | tokenize.c:100-129 | a number or operator followed by a space is read as one token standing for it |
| Lexemes.ScanLaidOut | tokenize.c:87-138 | scanning laid-out lexemes gives one token per lexeme, of its kind, value and text, then end-of-file |
| Lexemes.LexLayout | tokenize.c:87-138 | `Lex` of the layout of any list of numbers and operators reads that list back |
| RoundTrip.Level | parse.c:25-187 | each grammar level keeps the production contract |
| RoundTrip.RestStep | parse.c:28-147 | at an operator of the level, the loop parses the next operand one level tighter and continues with the left-leaning node |
| RoundTrip.RestStop | parse.c:28-147 | at a token that is no operator of the level, the loop returns the tree built so far |
| RoundTrip.PrimaryNumber | parse.c:178-183 | a number token becomes a number node and the cursor moves past it |
| RoundTrip.PrimaryParen | parse.c:170-176 | `( e )` parses to the tree of `e`, past the `)` |
| RoundTrip.UnaryMinus | parse.c:158-163 | unary `-` yields a negation node over the following unary |
| RoundTrip.ParseUnparse | parse.c:20-194 | tokens showing the printed lexemes of a tree, then end-of-file, parse to that tree: precedence and left associativity |
| RoundTrip.ReadBack | parse.c:189-194 | for every printable tree, lexing and parsing its printed text gives the tree back |
| RoundTrip.PrecedenceExample | parse.c:97-148 | `1 + 2 * 3` parses as ADD(1, MUL(2, 3)) |
| RoundTrip.LeftAssociativeExample | parse.c:97-121 | `1 - 2 - 3` parses as SUB(SUB(1, 2), 3) |
| RoundTrip.ParenthesesExample | parse.c:169-176 | `1 - ( 2 - 3 )` parses as SUB(1, SUB(2, 3)) |
| RoundTrip.PlusSkipped | parse.c:152-156 | unary `+` is skipped: any level at a `+` token parses as from the next token |
| RoundTrip.ParseUnaryPlus | parse.c:152-156 | `+` before a printed tree parses to the tree unchanged |
| RoundTrip.RestGreater | parse.c:74-90 | `x > y` continues with LT(y, x), and `x >= y` with LE(y, x) |
| RoundTrip.ParseGreater | parse.c:74-90 | a whole input `a > b` parses to LT(b, a), and `a >= b` to LE(b, a) |
| RoundTrip.ErrorRises | parse.c:151-187 | a failure in `primary` at a token that is no unary operator is the failure of every level above it |
| RoundTrip.ParseNothing | parse.c:186 | an input with no tokens but end-of-file fails with "expected an expression" at the end of input |
| RoundTrip.ParseUnclosed | parse.c:173-174 | `(` and a tree with no closing `)` fail with "expected `)`" at the end-of-file token |
| RoundTrip.ParseTrailing | parse.c:191-192 | a tree followed by `)` fails with "extra token" at that `)` |
| Machine.TruncDivRounds | codegen.c:52-54 | `idiv` truncates toward zero: the quotient times the divisor plus the remainder is the dividend, and the remainder has the dividend's sign and is smaller than the divisor |
| Machine.Bit | codegen.c:56-75 | `set<cc>` followed by `movzb` leaves 1 when the condition holds on the last comparison and 0 otherwise |
| Machine.Step | codegen.c:16-76 | an instruction faults exactly when it is an `idiv` by zero (or with rdx not the sign of rax) |
| Machine.RunAppend | codegen.c:13-109 | running concatenated code is running the first part, then the second from where it stopped |
| Codegen.Offset | codegen.c:8 | a letter's offset is a multiple of 8 in 8..208 |
| Codegen.GenAddr | codegen.c:4-11 | `gen_addr` succeeds exactly on a variable and otherwise fails with "not a lvalue" |
| Codegen.GenExpr | codegen.c:13-79 | definition of the emitted block; properties in `CodegenFacts.GenExprAccepts`, `CodegenFacts.GenExprBalanced` and `CodegenFacts.GenExprCorrect` |
| Codegen.GenStmt | codegen.c:81-88 | definition; properties in `CodegenFacts.ParsedTreeIsNoStatement` and `CodegenFacts.BlocksCorrect` |
| Codegen.Blocks | codegen.c:100-103 | definition of the statement blocks in order; properties in `Codegen.BlocksStop` and `CodegenFacts.BlocksCorrect` |
| Codegen.Program | codegen.c:90-109 | definition of the whole output; the loop `Codegen.Codegen` is proved to compute it, and `CodegenFacts.ProgramCorrect` states what it does |
| Codegen.BlocksStop | codegen.c:100-103 | once a statement fails, the whole chain fails with that error |
| Codegen.Codegen | codegen.c:90-109 | the loop emits the header, the prologue, one block per statement in order and the epilogue, or stops at the first failing statement |
| Semantics.Eval | codegen.c:13-79 | not in the source: the reference value of a tree, the partner of `gen_expr`; properties in `CodegenFacts.GenExprCorrect` |
| Semantics.Exec | codegen.c:90-109 | not in the source: the reference value of a statement list; properties in `CodegenFacts.BlocksCorrect` and `CodegenFacts.ProgramCorrect` |
| Semantics.Apply | codegen.c:42-76 | an operator has no value exactly when it divides by zero; comparisons give 0 or 1 |
| CodegenFacts.GenExprAccepts | codegen.c:13-79 | `gen_expr` succeeds exactly on trees whose assignments target variables and that hold no statement; it fails only with "not a lvalue" or "invalid expression" |
| CodegenFacts.ParsedTreeIsNoStatement | codegen.c:81-88 | a tree the parser builds, handed to `codegen` as a statement, fails with "invalid statement" |
| CodegenFacts.OffsetsInFrame | codegen.c:8-10 | distinct letters get distinct offsets, all within the 208-byte frame reserved at `codegen.c:98` |
| CodegenFacts.GenExprBalanced | codegen.c:13-39 | every block ends at the stack depth where it began and never pops below it |
| CodegenFacts.NegBalanced | codegen.c:19-22 | a balanced block followed by `neg rax` is balanced |
| CodegenFacts.AssignBalanced | codegen.c:27-33 | the assignment's push is matched by its pop |
| CodegenFacts.RunAddr | codegen.c:8-10 | the address code leaves `rbp - offset` in rax |
| CodegenFacts.RunCompare | codegen.c:56-75 | `cmp`, `set<cc>`, `movzb` leave exactly 0 or 1, the truth of the comparison |
| CodegenFacts.RunOp | codegen.c:42-76 | the operator code faults exactly when `Apply` has no value, and otherwise leaves `Apply`'s value in rax with the stack and memory untouched |
| CodegenFacts.GenExprCorrect | codegen.c:13-79 | from a state whose frame holds the variables, a block faults exactly when the interpreter has no value; otherwise it leaves the value in rax, the stack pointers restored, the updated variables in their cells and the rest of memory unchanged |
| CodegenFacts.AssignCorrect | codegen.c:27-33 | an assignment stores the value at the variable's cell and leaves it in rax |
| CodegenFacts.BinaryCorrect | codegen.c:36-76 | right operand first, a push, the left operand, a pop, and the operator compute the interpreter's value |
| CodegenFacts.BlocksCorrect | codegen.c:100-103 | the statements' blocks run in order compute what the interpreter gives for the statement list |
| CodegenFacts.RunEntry | codegen.c:91-98 | the header and prologue push rbp, set rbp to the saved word and reserve 208 bytes |
| CodegenFacts.RunExit | codegen.c:106-108 | the epilogue restores rsp from rbp, pops the saved rbp and pops the return address |
| CodegenFacts.ExitRestores | codegen.c:106-108 | after the body, the epilogue returns with rax kept, the caller's rbp back and the caller's memory unchanged |
| CodegenFacts.ProgramCorrect | codegen.c:90-109 | the whole program faults exactly when a statement divides by zero; otherwise it returns the last statement's value with rsp, rbp and the caller's memory restored |
| Chibicc.OldScan | chibicc.c:102-141 | definition of the older scan from a cursor; properties in `Chibicc.OldScanError`, `Chibicc.OldScanEndsInEof` and `Chibicc.OldScanAgrees` |
| Chibicc.OldLex | chibicc.c:102-141 | definition (the older scan from offset 0); the loop `Chibicc.OldTokenize` is proved to compute it |
| Chibicc.OldStepAt | chibicc.c:107-134 | a token of the older lexer starts at the cursor, lies in the input and is a number or a punctuator |
| Chibicc.OldStepPunct | chibicc.c:125-134 | a punctuator of `read_punct`'s length, or "invalid token" at that offset |
| Chibicc.OldStepEnd | chibicc.c:137-140 | the end-of-file token at the end of input, with length 0 |
| Chibicc.OldTokenize | chibicc.c:102-141 | the older scanning loop returns exactly its specification `OldLex(src)` |
| Chibicc.LetterAndUnderscore | chibicc.c:93-134 | in the older lexer `_` is a one-character punctuator and a letter is "invalid token" at its offset; the newer lexer makes both an identifier |
| Chibicc.OldScanAgrees | chibicc.c:102-141 | on input with no letter and no `_`, the two lexers give the same result |
| Chibicc.OldScanError | chibicc.c:134 | the older scan fails exactly at the first character that is not whitespace, a digit or punctuation |
| Chibicc.OldScanEndsInEof | chibicc.c:137-140 | the older token list ends in exactly one end-of-file token at the end of input, and every token lies in the input |
| Chibicc.OldGenExpr | chibicc.c:354-409 | the older `gen_expr` has code exactly for the arithmetic trees |
| Chibicc.OldGenAgrees | chibicc.c:354-409 | on arithmetic trees it emits the same code as `codegen.c`'s `gen_expr` |
| Chibicc.Evaluate | chibicc.c:354-409 | not in the source: the reference value of an arithmetic tree; properties in `Chibicc.OldGenCorrect` |
| Chibicc.OldGenCorrect | chibicc.c:354-409 | from any state, a block faults exactly when the tree divides by zero; otherwise it leaves the tree's value in rax, restores the stack pointers and leaves the memory at and above rsp untouched |
| Chibicc.OldBinaryCorrect | chibicc.c:366-405 | a binary node's right-first push/pop code computes its value |
| Chibicc.Compile | chibicc.c:419-434 | on success the output is the three header lines, the block and `ret`; a failure is a lexing or parsing error |
| Chibicc.MainRuns | chibicc.c:425-433 | the header, a tree's block and `ret` fault exactly when the tree divides by zero, and otherwise return its value with rbp kept and rsp past the return address |
| Chibicc.CompileCorrect | chibicc.c:419-434 | whatever input `main` accepts lexes to a valid token list and parses to an arithmetic tree; the output is the header, that tree's block and `ret`, and running it faults exactly when the tree divides by zero and otherwise returns the tree's value |
| Chibicc.CompilePrinted | chibicc.c:411-437 | the printed text of any tree compiles to the header, the tree's block and `ret`, which returns the tree's value |

## Left out

- Error printing and process exit (`error`, `error_at`, `verror_at` in
  `tokenize.c:38-60` and `chibicc.c:15-38`) are left out. Errors are result
  values carrying a message tag and an offset. The caret formatting is not
  modelled.
- Argument handling and the initialisation of `src` in `main`
  (`chibicc.c:411-416`) are I/O and are left out. The input is a parameter.
- The text of the `printf` lines is left out. Instructions are values of a
  datatype, and no string rendering is modelled.
- `calloc` and the linked lists of tokens and statements
  (`tokenize.c:8-12`, `parse.c:13-17`) are replaced by sequences and
  datatype values. Pointer identity and aliasing are not modelled.
- Tokenize.StrToL: the value is an unbounded natural number. Overflow of
  `strtol` and truncation into the `int val` field are not modelled.
- Machine.Step: integers are unbounded. The machine has no 64-bit
  wrap-around, so `imul`, `add`, `sub` and `neg` never overflow. `idiv`
  divides rax alone: a dividend in rdx:rax whose rdx is not the sign of rax
  (which `cqo` always provides) is a machine fault rather than a 128-bit
  division. A division by zero is a machine fault, and the interpreter
  gives such an expression no value.
- Codegen.GenExpr on an expression-statement node: `codegen.c` falls
  through to the binary case and dereferences a NULL `rhs`. The model
  reports "invalid expression" instead. The same holds for
  Chibicc.OldGenExpr on any node other than a number, a negation or a
  binary operator. The older parser never builds such a node.
- `Semantics.Exec` gives an empty statement list the value rax held on
  entry. The source has no rule for this case; the value is what the
  machine leaves.
- The `Obj` and `Function` declarations, including `offset` and
  `stack_size` (`chibicc.h:46-58`), are not used by any of the code shown
  and are not modelled.
- Variable nodes carry the one-letter name that `codegen.c:8` reads, not the
  `Obj *var` of `chibicc.h:81`. A variable is meaningful only for a
  lower-case letter, since the frame has cells only for `a` to `z`.
- The assembler and linker are not part of this model.
- The input is the `argv` string given to `main`, which holds no NUL
  character. The modelled input is a sequence of characters with its own
  length, so a `'\0'` inside it is an "invalid token", whereas the C loops
  `while (*p)` (`tokenize.c:92`, `chibicc.c:107`) would stop there.
- The binary-level loops first test whether the token is one of the
  level's operators and then build the node for it. The C code instead has
  one `if (is_token_punct(*tok, "==")) { ...; continue; }` block per operator
  (`parse.c:29` and `parse.c:38`). Both orders
  pick the same branch for every token.
