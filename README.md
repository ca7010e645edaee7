# personal_calc in Dafny

A verified model of the evaluating core of `personal_calc`, a line-at-a-time calculator
over real matrices. A line such as `x = 2 * [1,2;3,4] + 1` goes through four stages:

1. **Partition.** The text is cut into parts: numbers, words, operators, parentheses and
   bracketed matrix literals.
2. **Convert.** Each part's text is decoded into its value (a number, a name, an operator
   code, a matrix or a bracket weight).
3. **Interpret.** Precedence levels are assigned from the operators and the parenthesis
   depth, and the form of the line is recognised: increment/decrement, a lone name,
   assignment, or an expression whose value goes to `ans`.
4. **CalcExpr.** A recursive left-to-right evaluation climbs to higher levels, combines
   operands with `CalcOP`, and reports a null matrix as an error.

Beneath these stages sit two pieces. The matrix value type `CMatrix` provides:
- broadcasting of a 1 x 1 right operand;
- the dual rule for `*` (a linear-algebra product when the shapes allow it, elementwise
  otherwise);
- the null matrix as the error value;
- literal parsing, resizing and the elementary row operations.

The variable table `CVarDB` is a bounded list of named matrices whose first entry is `ans`.

The model has these modules:

- **Value semantics as functions.** `Matrices` (the operators), `MatrixEdits` (fill, resize,
  element write, compound assignment, row operations) and `MatrixLiteral` (the literal
  validator and reader).
- **The in-place matrix.** `MatrixBuffers.MatrixBuffer` is a class over an `array<real>`.
  Each method is proved to leave exactly the value the corresponding function describes.
- **The variable table.** `VarTables` holds the specification functions and the class
  `VarTable` whose methods are proved against them.
- **The pipeline as functions.** `CalcSyntax` (parts, operators and their precedence),
  `Numbers` (decimal decoding), `Lexer` (the partition and conversion),
  `Levels` (level annotation), `Evaluator` (the recursive evaluation) and
  `Interpreter` (what a line does to the table).
- **The pipeline as imperative code.** `Calculator.Calc` is a class that runs the same
  stages with loops and fields, as `Calc.cpp` does. Each method is proved to produce what
  the functions specify.
- **The precedence theorem.** `Precedence` proves that on parenthesis-free input the
  evaluator computes the usual precedence-climbing tree:
  - `^` binds tighter than `*` `/` `%`, which bind tighter than `+` `-`;
  - operators of one level group to the left.

## Model

| member | source | states |
|---|---|---|
| Matrices.NRow | CMatrix.h:43 | the row count is 0 exactly for the null matrix |
| Matrices.NCol | CMatrix.h:44 | the column count is 0 exactly for the null matrix |
| Matrices.Size | CMatrix.h:45 | the element count is rows times columns and equals the buffer length, at least 1 for a non-null matrix |
| Matrices.IsSquare | CMatrix.h:118-121 | square exactly when the row and column counts agree; the null matrix of the default constructor (counts 0 and 0) is square |
| Matrices.Element | CMatrix.cpp:267-295 | an element is returned exactly when both indices are in range of a non-null matrix, and it is the stored (i, j) entry; otherwise the NaN sentinel (None) |
| Matrices.Scalar | CMatrix.cpp:32-39 | a double becomes a 1 x 1 matrix holding it |
| Matrices.Zeros | CMatrix.cpp:144-155 | null exactly when a count is not positive, otherwise a matrix of the requested shape that is all zeros |
| Matrices.FromArray | CMatrix.cpp:128-141 | null exactly when a count is not positive, otherwise the first rows*cols array entries in row-major order |
| Matrices.IdentityData | CMatrix.cpp:771-777 | the n*n buffer holds 1 on the diagonal and 0 elsewhere |
| Matrices.Identity | CMatrix.cpp:771-777 | null exactly for a non-positive n, otherwise n x n with (i, j) equal to 1 when i == j and 0 otherwise |
| Matrices.AddScalar | CMatrix.cpp:647-652 | same shape as the operand (null stays null) and every element increased by t |
| Matrices.SubScalar | CMatrix.cpp:653-658 | same shape as the operand and every element decreased by t |
| Matrices.MulScalar | CMatrix.cpp:659-664 | same shape as the operand and every element multiplied by t |
| Matrices.DivScalar | CMatrix.cpp:665-672 | null exactly when the operand is null or t is 0; otherwise every element divided by t |
| Matrices.Add | CMatrix.cpp:551-568 | non-null exactly when the left operand is non-null and the right one is 1 x 1 or of the same shape; the result has the left shape and adds the broadcast scalar or the matching element |
| Matrices.Sub | CMatrix.cpp:570-586 | the same shape rule as `+`, with each element the difference |
| Matrices.Div | CMatrix.cpp:628-645 | non-null exactly when the left operand is non-null and the right one is a non-zero 1 x 1 or of the same shape; the elements are the quotients |
| Matrices.Product | CMatrix.cpp:588-626 | for an r x n and an n x c operand, an r x c matrix whose (i, k) entry is the dot product of row i and column k |
| Matrices.Mul | CMatrix.cpp:588-626 | non-null exactly when the left operand is non-null and the right is 1 x 1, multiplication-compatible or of the same shape; it scales for a 1 x 1 right operand, takes the product when the columns match the rows, and otherwise multiplies elementwise |
| Matrices.Eq | CMatrix.cpp:528-540 | true exactly when the two matrices have the same shape and the same elements; two default-constructed null matrices are equal |
| Matrices.EqScalar | CMatrix.cpp:542-549 | true exactly when the matrix is the 1 x 1 matrix holding v |
| Matrices.Neq | CMatrix.h:62 | true exactly when the matrices differ |
| Matrices.NeqScalar | CMatrix.h:63 | true exactly when the matrix is not the 1 x 1 matrix holding v |
| MatrixLaws.ScalarArithmetic | CMatrix.cpp:551-645 | on 1 x 1 operands, `+ - * /` are real arithmetic, and division by a zero 1 x 1 gives null |
| MatrixLaws.LeftScalarNotBroadcast | CMatrix.cpp:551-645 | a 1 x 1 LEFT operand is not broadcast: `+ - /` with a larger right operand give null, and `*` succeeds only against a single row |
| MatrixLaws.RightScalarBroadcast | CMatrix.cpp:551-568 | `a + [t]` equals the scalar form `a + t` and adds t to every element |
| MatrixLaws.ShapeMismatchIsNull | CMatrix.cpp:551-645 | operands of different shapes, neither broadcastable, give null for `+ - /`; `*` gives null exactly when the columns do not match the rows |
| MatrixLaws.SubUndoesAdd | CMatrix.cpp:551-586 | `(a + b) - b == a` whenever `a + b` is defined |
| MatrixLaws.AddCommutes | CMatrix.cpp:551-568 | elementwise `+` on one shape commutes |
| MatrixLaws.DotIdentity | CMatrix.cpp:588-626 | a row of a dotted with column k of the identity is a(i, k) |
| MatrixLaws.MulIdentityRight | CMatrix.cpp:588-626 | the identity of matching size is a right unit of `*` |
| MatrixLaws.MulElementwiseWhenIncompatible | CMatrix.cpp:588-626 | operands of one non-square shape multiply elementwise |
| MatrixEdits.Filled | CMatrix.cpp:758-769 | fill keeps the shape (null stays null) |
| MatrixEdits.FilledAt | CMatrix.cpp:758-769 | after fill every element of a non-null matrix is d |
| MatrixEdits.Resized | CMatrix.cpp:218-264 | resize gives null exactly for non-positive counts, otherwise the requested shape |
| MatrixEdits.ResizedAt | CMatrix.cpp:236-250 | after resize, (i, j) holds the old element where it was in range and 0 elsewhere |
| MatrixEdits.ResizeSameShape | CMatrix.cpp:218-264 | resizing to the current shape changes nothing |
| MatrixEdits.ResizeGrowShrink | CMatrix.cpp:218-264 | growing and then resizing back to the old shape restores the matrix |
| MatrixEdits.ResizedZeros | CMatrix.cpp:771-777 | `identity` fills with 0 before resizing, so every cell is 0 before the diagonal is set |
| MatrixEdits.WithElement | CMatrix.cpp:267-280 | a write through `element(i, j)` keeps the shape |
| MatrixEdits.WithElementReads | CMatrix.cpp:267-280 | after the write, (i, j) reads the new value, and every other position reads as before; an out-of-range write changes nothing |
| MatrixEdits.Combine | CMatrix.cpp:675-721 | a compound assignment keeps the target's shape |
| MatrixEdits.CombinePlusIsAdd | CMatrix.cpp:675-685 | on equal shapes `a += b` leaves `a + b` |
| MatrixEdits.CombineMinusIsSub | CMatrix.cpp:686-696 | on equal shapes `a -= b` leaves `a - b` |
| MatrixEdits.CombineElemDivIsDiv | CMatrix.cpp:708-721 | on equal shapes `a /= b` leaves `a / b` |
| MatrixEdits.CombineTimesIsMul | CMatrix.cpp:697-707 | `*=` is elementwise and agrees with `*` only where `*` does not take the product |
| MatrixEdits.CombineIgnoresScalar | CMatrix.cpp:675-721 | unlike `+`, a compound assignment leaves a larger target unchanged when the operand is 1 x 1 |
| MatrixEdits.SwitchRows | CMatrix.cpp:780-794 | switching rows keeps the shape |
| MatrixEdits.ScaleRow | CMatrix.cpp:796-806 | scaling a row keeps the shape |
| MatrixEdits.AddRow | CMatrix.cpp:808-818 | adding a multiple of a row keeps the shape |
| MatrixEdits.SwitchRowsAt | CMatrix.cpp:780-794 | row p of the result is row i, j or p of the input as the switch dictates |
| MatrixEdits.SwitchRowsTwice | CMatrix.cpp:780-794 | switching the same rows twice restores the matrix |
| MatrixEdits.ScaleRowAt | CMatrix.cpp:796-806 | row i is multiplied by d and the other rows are unchanged |
| MatrixEdits.ScaleRowInverse | CMatrix.cpp:796-806 | scaling by d and then 1/d restores the matrix |
| MatrixEdits.AddRowAt | CMatrix.cpp:808-818 | row j gains d times row i and the other rows are unchanged |
| MatrixEdits.AddRowInverse | CMatrix.cpp:808-818 | for distinct rows, adding d times row i and then -d times it restores the matrix |
| MatrixEdits.ScaleRowsBelow | CMatrix.cpp:749-756 | scaling the first n rows keeps the shape |
| MatrixEdits.ScaleRowsBelowStep | CMatrix.cpp:749-756 | one more `ero_multrow` extends the scaled prefix by one row |
| MatrixEdits.ScaleAllRows | CMatrix.cpp:749-756 | scaling every row by d equals the scalar product by d, so `Neg` negates |
| MatrixLiteral.SkipSep | CMatrix.cpp:386-389 | the scan stops at the first character that is neither ' ' nor ',' |
| MatrixLiteral.RunEnd | CMatrix.cpp:401-411 | the scan stops at the first character that is not a digit or '.' |
| MatrixLiteral.RunEndDigits | CMatrix.cpp:401-411 | everything a run passes over is a digit or '.' |
| MatrixLiteral.Items | CMatrix.cpp:383-416 | the validator's view of a literal as a list of items (elements, `;`, `]` or a stop) is never empty: it always ends in `]` or a stop |
| MatrixLiteral.RowLens | CMatrix.cpp:382-488 | every literal has at least one row |
| MatrixLiteral.Elems | CMatrix.cpp:392-397 | what is counted as an element is an element item |
| MatrixLiteral.UniformCons | CMatrix.cpp:465-483 | a row list is uniform exactly when its first row has the length and the rest are uniform |
| MatrixLiteral.Phase2Reads | CMatrix.cpp:432-491 | the verification phase returns the running total plus the element count exactly when the literal reaches ']', every element passes the decimal check and every row matches the first row's count, and 0 otherwise |
| MatrixLiteral.Phase1Reads | CMatrix.cpp:382-429 | the accumulation phase, followed by the verification phase, returns the element count of a well-formed literal and 0 otherwise |
| MatrixLiteral.ValidCountMeaning | CMatrix.cpp:372-492 | `isValidMatrix` returns the element count exactly for a well-formed literal (opening '[', closing ']', one decimal point per element, rows of equal length) and 0 for anything else |
| MatrixLiteral.RowLensCount | CMatrix.cpp:382-488 | a literal has one more row than it has ';', and its row lengths add up to its element count |
| MatrixLiteral.LiteralShape | CMatrix.cpp:115-117 | for an accepted literal, the row count is 1 plus the number of ';', and rows times `elemNum / nRow` is exactly the element count |
| MatrixLiteral.UniformShape | CMatrix.cpp:115-117 | when every row is as long as the first, the element count divided by the row count is the first row's length |
| MatrixLiteral.Values | CMatrix.cpp:75-99 | one decoded value per element |
| MatrixLiteral.LiteralMatrix | CMatrix.cpp:43-124 | the literal constructor gives null exactly when `isValidMatrix` rejects the text; otherwise a matrix with 1 + (number of ';') rows that holds all the counted elements |
| MatrixLiteral.NextStep | CMatrix.cpp:61-113 | each pass of the reading loop that does not stop moves strictly forward inside the string |
| MatrixLiteral.ItemsAhead | CMatrix.cpp:61-113 | while the literal still reaches ']', the reader is inside the string and, after skipping separators, it sees a digit, ';' or ']' |
| MatrixLiteral.ElemStep | CMatrix.cpp:70-103 | a digit run read by the loop adds one element whose value is the run read as a decimal, and no row |
| MatrixLiteral.SemiStep | CMatrix.cpp:105-109 | a ';' adds one row and no element |
| MatrixLiteral.CloseStep | CMatrix.cpp:61 | at ']' nothing is left to read |
| MatrixLiteral.ReadItems | CMatrix.cpp:61-113 | on a literal that reaches ']', the reading loop decodes exactly the validator's elements and counts exactly its ';' |
| MatrixLiteral.ReadWholeLiteral | CMatrix.cpp:43-124 | on an accepted literal, the reader fills exactly `elemNum` cells, in row-major order, and counts rows consistently with the validator |
| MatrixBuffers.MatrixBuffer.constructor | CMatrix.cpp:13-29 | the default matrix is null |
| MatrixBuffers.MatrixBuffer.OfScalar | CMatrix.cpp:32-39 | holds the 1 x 1 matrix of d |
| MatrixBuffers.MatrixBuffer.OfShape | CMatrix.cpp:144-155 | holds the zero matrix of the shape, or null for a non-positive count |
| MatrixBuffers.MatrixBuffer.OfArray | CMatrix.cpp:128-141 | holds the array's first rows*cols entries, or null for a non-positive count |
| MatrixBuffers.MatrixBuffer.OfLiteral | CMatrix.cpp:43-124 | holds the matrix the literal denotes, or null when the validator rejects it |
| MatrixBuffers.MatrixBuffer.GetElement | CMatrix.cpp:282-295 | the read returns the element at (i, j), or None where the source returns its NaN sentinel |
| MatrixBuffers.MatrixBuffer.SetElement | CMatrix.cpp:267-280 | after the write the matrix is `WithElement` of the old one |
| MatrixBuffers.MatrixBuffer.Copy | CMatrix.cpp:173-190 | this holds the other matrix's value in a fresh buffer |
| MatrixBuffers.MatrixBuffer.Swap | CMatrix.cpp:192-215 | the two objects exchange their values |
| MatrixBuffers.MatrixBuffer.Resize | CMatrix.cpp:218-264 | the new value is `Resized` of the old one, with the requested counts stored |
| MatrixBuffers.MatrixBuffer.ResizedCopy | CMatrix.cpp:231-250 | the copy loops fill a fresh buffer with exactly the resized matrix's data |
| MatrixBuffers.MatrixBuffer.CopyRow | CMatrix.cpp:238-249 | one row of the new buffer receives the resized entries and nothing else changes |
| MatrixBuffers.MatrixBuffer.Fill | CMatrix.cpp:758-769 | the new value is `Filled` of the old one |
| MatrixBuffers.MatrixBuffer.SetIdentity | CMatrix.cpp:771-777 | the new value is the n x n identity, or null for a non-positive n |
| MatrixBuffers.MatrixBuffer.SetDiagonal | CMatrix.cpp:775-776 | setting the diagonal of an n x n zero matrix gives the identity |
| MatrixBuffers.MatrixBuffer.SAdd | CMatrix.cpp:836-840 | the new value is the old one plus s in every element |
| MatrixBuffers.MatrixBuffer.SMult | CMatrix.cpp:842-846 | the new value is the old one times s in every element |
| MatrixBuffers.MatrixBuffer.AssignScalar | CMatrix.cpp:520-525 | the object holds the 1 x 1 matrix of k |
| MatrixBuffers.MatrixBuffer.AddAssignScalar | CMatrix.cpp:723-727 | the new value is `old + t` |
| MatrixBuffers.MatrixBuffer.SubAssignScalar | CMatrix.cpp:728-732 | the new value is `old - t` |
| MatrixBuffers.MatrixBuffer.MulAssignScalar | CMatrix.cpp:733-737 | the new value is `old * t` |
| MatrixBuffers.MatrixBuffer.DivAssignScalar | CMatrix.cpp:738-746 | the new value is `old / t`, null when t is 0 |
| MatrixBuffers.MatrixBuffer.CombineWith | CMatrix.cpp:675-721 | the shared loop of the compound assignments leaves `Combine` of the old values, also when both operands are the same object |
| MatrixBuffers.MatrixBuffer.AddAssign | CMatrix.cpp:675-685 | the new value is the elementwise sum when the shapes agree, otherwise unchanged |
| MatrixBuffers.MatrixBuffer.SubAssign | CMatrix.cpp:686-696 | the new value is the elementwise difference when the shapes agree, otherwise unchanged |
| MatrixBuffers.MatrixBuffer.MulAssign | CMatrix.cpp:697-707 | the new value is the elementwise product when the shapes agree, never the matrix product |
| MatrixBuffers.MatrixBuffer.DivAssign | CMatrix.cpp:708-721 | the new value is the elementwise quotient when the shapes agree; its null branch is never taken |
| MatrixBuffers.MatrixBuffer.EroSwitchRow | CMatrix.cpp:780-794 | the new value is `SwitchRows` of the old one |
| MatrixBuffers.MatrixBuffer.EroMultRow | CMatrix.cpp:796-806 | the new value is `ScaleRow` of the old one |
| MatrixBuffers.MatrixBuffer.EroAddRow | CMatrix.cpp:808-818 | the new value is `AddRow` of the old one |
| MatrixBuffers.MatrixBuffer.Neg | CMatrix.cpp:749-756 | scaling every row by -1 leaves the old value negated |
| MatrixBuffers.SwapRuns | CMatrix.cpp:787-792 | the two runs of c elements are exchanged and the rest of the buffer is unchanged |
| MatrixBuffers.ScaleRun | CMatrix.cpp:801-804 | the run is multiplied by d and the rest is unchanged |
| MatrixBuffers.AddRun | CMatrix.cpp:813-816 | the target run gains d times the source run and the rest is unchanged |
| MatrixBuffers.ReadLiteral | CMatrix.cpp:51-117 | the buffer holds the literal's element values in order, and the row count is 1 plus the number of ';' |
| MatrixBuffers.ReadElements | CMatrix.cpp:55-113 | the reading loop leaves the values and row count that `ReadValues` and `ReadRows` describe |
| MatrixBuffers.ReadStep | CMatrix.cpp:63-112 | one pass of the loop body is `NextStep` |
| MatrixBuffers.SkipSeparators | CMatrix.cpp:64-67 | the separator loop stops where `SkipSep` does |
| MatrixBuffers.DigitRunEnd | CMatrix.cpp:75-92 | the digit loop stops where `RunEnd` does |
| Numbers.DecodeNumber | Calc.cpp:377-405 | the digit loop of `Convert` (the same loop as `CMatrix.cpp:72-96`) yields the run's digits read as one integer and divided by ten to the number of digits after the last '.' |
| Numbers.WholeNumber | Calc.cpp:377-405 | a run without '.' decodes to the integer it spells |
| Numbers.FractionGrows | Calc.cpp:393-398 | each digit after a '.' multiplies the divider by ten, and every digit extends the integer by one place |
| VarTables.FindFrom | CVarDB.cpp:18-23 | the search loop from index i finds the first slot at or after i with the name, or reports that none has it |
| VarTables.Find | CVarDB.cpp:15-24 | `search` returns the first entry in use with the name, and None exactly when no entry in use has it |
| VarTables.Created | CVarDB.cpp:49-59 | with room, exactly one slot is appended and the old entries are kept; a full table (SIZE_DB entries) is unchanged |
| VarTables.Assigned | CVariable.cpp:74-78 | assigning to entry i changes its value only: every name and every other entry stays |
| VarTables.Dumped | CVarDB.cpp:61-73 | the intended `dump` leaves only `ans`, with value 0 |
| VarTables.DumpedAsWritten | CVarDB.cpp:61-73 | `dump` as written leaves one cleared slot with no name |
| VarTables.CreateThenFind | CVarDB.cpp:15-59 | a name created where it was absent is found at the appended index |
| VarTables.CreateKeepsOthers | CVarDB.cpp:15-59 | creating a name does not change where any other name is found |
| VarTables.CreateShadowed | CVarDB.cpp:15-59 | creating a name that already exists appends a slot that `search` never reaches |
| VarTables.AssignKeepsFind | CVarDB.cpp:15-24 | assigning a value never changes where a name is found |
| VarTables.DumpKeepsAns | CVarDB.cpp:61-73 | after the intended `dump`, `ans` is found in slot 0 and holds 0 |
| VarTables.DumpAsWrittenLosesAns | CVarDB.cpp:66-69 | after `dump` as written, slot 0 no longer carries the name `ans` and its value is no longer the 0 the intended `dump` leaves; the model's `Find` then reads the nameless slot as a miss |
| VarTables.VarTable.Entries | CVarDB.h:14-15 | between 1 and SIZE_DB entries are in use |
| VarTables.VarTable.constructor | CVarDB.cpp:4-13 | the new table holds exactly `ans` = 0 and the other slots are empty |
| VarTables.VarTable.Search | CVarDB.cpp:15-24 | the loop returns `Find` of the entries in use and changes nothing |
| VarTables.VarTable.CreateVar | CVarDB.cpp:49-59 | the entries become `Created` of the old ones: with room, the new slot goes at the old size and its index is returned, otherwise None and nothing changes; `ans` stays named |
| VarTables.VarTable.CreateScalar | CVarDB.cpp:37-47 | the same, with the 1 x 1 matrix d |
| VarTables.VarTable.CreateZero | CVarDB.cpp:31-35 | the same, with the value 0 |
| VarTables.VarTable.SetValue | CVariable.cpp:74-78 | the entries become `Assigned` of the old ones, and the slot keeps its name |
| VarTables.VarTable.Ans | CVarDB.h:31 | `getAns` is slot 0, which is where `search("ans")` finds it while slot 0 is named `ans` |
| VarTables.VarTable.At | CVarDB.h:32-38 | an entry is returned exactly for an index below the size, and it is that entry |
| VarTables.VarTable.Size | CVarDB.h:39 | the size is the number of entries in use, between 1 and SIZE_DB |
| VarTables.VarTable.Dump | CVarDB.cpp:61-73 | the corrected `dump`: `ans` reset to 0, every other slot cleared, size 1 |
| VarTables.VarTable.DumpAsWritten | CVarDB.cpp:61-73 | `dump` as written: slot 0 is cleared (losing its name), the other slots are untouched, size 1 |
| CalcSyntax.ClassesDisjoint | Calc.cpp:990-1039 | `isDigit`, `isChar`, `isOp` and `isParen` never accept the same character, and a blank or `[` belongs to none of them, so the order in which the partitioner tests them decides nothing |
| CalcSyntax.EncodeOp | Calc.cpp:899-940 | the code is NOOP exactly for a character that `isOp` rejects, and a two-character code (`++ -- += -= *= /=`) is produced only when a next character exists |
| CalcSyntax.EncodeSpelling | Calc.cpp:899-940 | encoding an operator's own spelling gives that operator back, so the encoding is injective on operators |
| CalcSyntax.AssignOpToOp | Calc.cpp:943-958 | a compound assignment maps to the arithmetic operator whose spelling it extends by `=`; every other code maps to `=` |
| CalcSyntax.GetOpPrec | Calc.cpp:973-986 | the level is 2 exactly for `^`, 1 exactly for `* / %`, and 0 otherwise, always below OPLEVELRANGE |
| CalcSyntax.NextOp | Calc.cpp:961-970 | the first operator index in [st, ed), or ed when there is none: nothing before it is an operator |
| Lexer.WordEnd | Calc.cpp:227-233 | a word runs over letters, `_` and digits and stops at the first other character |
| Lexer.SkipBlanks | Calc.cpp:294-295 | the blank skip inside a literal stops at the first character that is not a blank or a tab |
| Lexer.MatrixScan | Calc.cpp:279-323 | the matrix loop either stops just past a `]` (or at the end of the line) or names the first refused character, which is not `]` and not one it steps over |
| Lexer.OpWidth | Calc.cpp:246-264 | an operator part is one or two characters wide |
| Lexer.TokenizeLaid | Calc.cpp:187-342 | every part the partitioner pushes has the shape of its kind, and the parts are in line order and do not overlap |
| Lexer.LaidParts | Calc.cpp:187-342 | the same facts, part by part |
| Lexer.TokenizeCovers | Calc.cpp:187-342 | when partitioning succeeds, every non-blank character lies inside a part, except an operator that ends the line |
| Lexer.TokenizeErrors | Calc.cpp:273-334 | a partition error names either a character no part can start with, or a character inside a literal that the matrix loop refuses |
| Lexer.TrailingOperatorDropped | Calc.cpp:241-242 | `x+` is partitioned as the single word `x` without error |
| Lexer.CompoundAssignmentParts | Calc.cpp:236-265 | `a += 12` is a word, a two-character operator and a number, at the right spans |
| Lexer.OperatorText | Calc.cpp:246-264 | the text of an operator part is the spelling of its code, except that `\` is always one character wide while `\=` still encodes as `/=` |
| Lexer.Converted | Calc.cpp:364-438 | conversion keeps a part's kind, span and level |
| Lexer.ConvertAll | Calc.cpp:364-438 | conversion produces one part per part |
| Lexer.ConvertedParts | Calc.cpp:364-438 | after conversion an operator holds a real code, a word holds a name starting with a letter or `_`, a number holds a non-negative value, and a parenthesis holds +OPLEVELRANGE for `(` and -OPLEVELRANGE for `)` |
| Evaluator.Trunc | Calc.cpp:866 | `int(x)` truncates toward zero: the result's magnitude is the whole part of x's magnitude, and its sign is x's |
| Evaluator.CRem | Calc.cpp:866 | C's `%` on ints: smaller in magnitude than the divisor, with the sign of the dividend |
| Evaluator.CDivision | Calc.cpp:866 | C's quotient and remainder satisfy a == (a / b) * b + a % b |
| Evaluator.CalcOp | Calc.cpp:835-872 | only the six arithmetic codes can give a matrix; `^` succeeds exactly on two 1 x 1 operands, `%` exactly on two 1 x 1 operands whose divisor truncates to a non-zero int, and both give a 1 x 1 result; `/` by the scalar 0 gives null |
| Evaluator.OpFault | Calc.cpp:847-861 | the binary `CalcOP` reports only division by zero or a matrix power |
| Evaluator.FaultMeansNull | Calc.cpp:847-861 | whenever `CalcOP` reports an error it also returns null |
| Evaluator.ScalarOps | Calc.cpp:835-872 | on 1 x 1 operands the operators are real arithmetic, `^` is `pow`, `%` is C's remainder of the truncated values, and division or modulo by zero is null |
| Evaluator.CalcUnary | Calc.cpp:875-891 | the unary form succeeds exactly for `++` or `--` on a 1 x 1 operand and adds or subtracts one |
| Evaluator.UnaryInverse | Calc.cpp:875-891 | `--` undoes `++` and the other way round |
| Evaluator.SkipBrackets | Calc.cpp:693-694 | the bracket skip passes over brackets only and stops at the first part that is not one |
| Evaluator.Operand | Calc.cpp:758-795 | reading an operand moves the cursor by one on success and not at all on an error |
| Evaluator.Eval | Calc.cpp:678-830 | `CalcExpr` never reads past the parts, and a successful evaluation of a non-empty rest consumes at least one part |
| Evaluator.Run | Calc.cpp:691-827 | the turn loop stays inside the parts and makes progress on its first turn |
| Evaluator.Chunk | Calc.cpp:743-797 | a successful operand read, directly or by recursion one level up, moves strictly past its start |
| Evaluator.Settle | Calc.cpp:798-827 | combining a turn's value and deciding whether to go on never moves the cursor before the turn's start |
| Levels.LevelStep | Calc.cpp:526-559 | one pass of the level loop fails, with the unmatched-parenthesis error, exactly at a `)` that takes the base below zero; otherwise it changes only the current part's level, gives an operator the base plus its tier, and moves the base by the bracket's weight |
| Levels.Annotate | Calc.cpp:522-568 | the level pass changes nothing but levels, and its only error is an unmatched parenthesis |
| Levels.LeveledIffBalanced | Calc.cpp:522-568 | the level pass succeeds exactly when the running depth never goes negative and ends at zero |
| Levels.AnnotateBalancedFrom | Calc.cpp:522-568 | from any position with a non-negative depth, the rest of the pass succeeds exactly when the rest is balanced |
| Levels.AnnotateOpsFrom | Calc.cpp:526-559 | every operator ends with the level of its depth plus its tier |
| Levels.OperatorLevels | Calc.cpp:526-559 | after a successful pass, an operator's level is OPLEVELRANGE times its parenthesis depth plus its tier |
| Levels.NoBracketsNoDepth | Calc.cpp:526-559 | without parentheses the depth is zero everywhere |
| Levels.ParenFreeLevels | Calc.cpp:526-559 | without parentheses the pass succeeds and each operator's level is its tier: 0 for `+ -`, 1 for `* / %`, 2 for `^` |
| Interpreter.Interpreted | Calc.cpp:462-656 | `Interpret` keeps the table between 1 and SIZE_DB entries, and the variable it echoes exists |
| Interpreter.Dispatched | Calc.cpp:521-650 | after the syntax checks, the level pass and the chosen branch keep the table within bounds and echo an existing variable |
| Interpreter.Stepped | Calc.cpp:474-502 | `x++`, `++x`, `x--` and `--x` never add a variable, and they echo an existing one |
| Interpreter.Shown | Calc.cpp:576-590 | a lone word changes nothing and echoes an existing variable |
| Interpreter.Assignment | Calc.cpp:593-635 | an assignment can only add entries, never beyond SIZE_DB, and it echoes an existing variable |
| Interpreter.Stored | Calc.cpp:608-634 | storing into the target keeps the table's size and echoes exactly the target |
| Interpreter.Answer | Calc.cpp:637-649 | an expression that is not an assignment keeps the table's size and echoes `ans`, slot 0 |
| Interpreter.CommandOf | Calc.cpp:137-172 | a command is a line of one or two parts beginning with a word, and `open` needs a second word |
| Interpreter.Processed | Calc.cpp:82-110 | a whole line (partition, conversion, the command check, interpretation) keeps the table between 1 and SIZE_DB entries |
| Interpreter.StoredOnlyTarget | Calc.cpp:608-634 | storing changes the value of the target and of nothing else, and no name |
| Interpreter.AssignmentOnlyTarget | Calc.cpp:593-635 | an assignment changes at most the target's value; it adds at most one entry, and only for a word not yet defined, which then holds the result or, when the right-hand side fails, 0 |
| Interpreter.OnlyEchoedChanges | Calc.cpp:462-656 | a whole `Interpret` keeps every name and changes at most the value of the variable it echoes; an added entry comes only from an assignment to an undefined word |
| Interpreter.ReportedAfterStore | Calc.cpp:462-656 | a non-empty line either reports an error or echoes a variable; it does both only when a compound assignment stored the null result of a division by zero or a matrix power |
| Interpreter.ParenFreeAnswer | Calc.cpp:462-656 | on an operand-operator alternation without parentheses, the line stores into `ans` exactly the value of the precedence tree `Seg`, or reports its error and changes nothing |
| Interpreter.AlternatingIsAnswer | Calc.cpp:576-649 | such a line is not an increment, a lone word or an assignment, so it goes to `ans` |
| Interpreter.AnswerLine | Calc.cpp:462-649 | a line that passes the syntax checks and is not an increment, a lone word or an assignment is evaluated into `ans` |
| Interpreter.IncrementThenDecrement | Calc.cpp:474-502 | `x--` undoes `x++` on a 1 x 1 variable, and `++x` does what `x++` does |
| Interpreter.NewTargetStartsAtZero | Calc.cpp:603-621 | `x = x + y` with x undefined creates x as 0 before evaluating, so x ends up holding y and is echoed |
| Interpreter.SumFirstTurn | Calc.cpp:758-795 | the first turn of `x + ...` reads x's current value from the table |
| Interpreter.SumSecondTurn | Calc.cpp:798-823 | the second turn of `... + y` adds y, and a null sum is reported at the operator |
| Precedence.LastAt | Calc.cpp:678-830 | the last operator of level L in a span, or the fact that there is none |
| Precedence.Combine | Calc.cpp:805-823 | a turn's combination propagates the first error; otherwise it succeeds exactly when `CalcOP` gives a non-null matrix, and it reports a null result at the operator |
| Precedence.EndAt | Calc.cpp:798-802 | where an expression at level L stops: the first operator below L, or the end |
| Precedence.OddOperator | Calc.cpp:701-730 | in an alternation, operators and the end lie at odd positions |
| Precedence.NoAssignAhead | Calc.cpp:733-740 | in an alternation, no assignment follows an operand |
| Precedence.RunTurn | Calc.cpp:691-757 | on an alternation, a turn reads no brackets, meets no assignment and reads the chunk at its operand |
| Precedence.AfterTurn | Calc.cpp:798-827 | after a value, the loop stops exactly at the end or at an operator below level L, after combining with the previous value |
| Precedence.SegPrefixErr | Calc.cpp:805-823 | an error in the left part of a level-L expression is the error of the whole |
| Precedence.SegLift | Calc.cpp:743-757 | an expression with no operator of level L is the same expression one level up |
| Precedence.SegSplit | Calc.cpp:805-823 | a level-L expression splits at its last level-L operator into the left part at L and the right part one level up |
| Precedence.LastAtSplit | Calc.cpp:798-802 | an operator of level L followed only by higher operators is the last one of level L |
| Precedence.ChunkSeg | Calc.cpp:743-797 | the value a turn reads is the expression one level up that runs to the first operator at or below L, and the cursor stops there |
| Precedence.EvalSeg | Calc.cpp:678-830 | `CalcExpr` from an operand at level L returns the level-L expression that runs to the first operator below L, and the cursor stops there |
| Precedence.RunSeg | Calc.cpp:691-827 | the remaining turns, given the value so far, complete the level-L expression |
| Precedence.LaterTurn | Calc.cpp:701-757 | a later turn at an operator reads the chunk after it |
| Precedence.LaterTurnSeg | Calc.cpp:743-823 | one later turn extends the expression by its operator and the chunk after it |
| Precedence.JoinSeg | Calc.cpp:805-823 | the expression through an operator of level L and the chunk after it splits at that operator |
| Precedence.SpanAtLeast | Calc.cpp:798-802 | that span holds no operator below level L |
| Precedence.SettleSeg | Calc.cpp:798-827 | settling a later turn yields the level-L expression up to the first operator below L |
| Precedence.EvalIsSeg | Calc.cpp:678-830 | on an alternation, `CalcExpr` from the start at level 0 computes the precedence tree `Seg` and consumes every part |
| Precedence.ParenFreeEval | Calc.cpp:522-830 | without parentheses the level pass gives each operator its tier, and `CalcExpr` then computes the precedence tree of the tiers |
| Precedence.ProductPart | Calc.cpp:743-823 | in `x + y * z`, the part after `+` is the product y * z |
| Precedence.SumOfProductSeg | Calc.cpp:678-830 | the tree of `x + y * z` is x + (y * z) |
| Precedence.TimesBeforePlus | Calc.cpp:678-830 | `CalcExpr` evaluates `x + y * z` to x + (y * z) |
| Precedence.FirstDifference | Calc.cpp:805-823 | in `x - y - z`, the first difference is taken first |
| Precedence.Difference3Seg | Calc.cpp:678-830 | the tree of `x - y - z` is (x - y) - z |
| Precedence.MinusLeftToRight | Calc.cpp:678-830 | `CalcExpr` evaluates `x - y - z` to (x - y) - z |
| Precedence.PowerPart | Calc.cpp:855-863 | in `x ^ y + z`, the left part is pow(x, y) |
| Precedence.SumOfPowerSeg | Calc.cpp:678-830 | the tree of `x ^ y + z` is pow(x, y) + z |
| Precedence.PowerBeforePlus | Calc.cpp:678-830 | `CalcExpr` evaluates `x ^ y + z` to pow(x, y) + z |
| Calculator.ScanDigits | Calc.cpp:210-221 | the number loop stops where the digit-and-dot run ends |
| Calculator.ScanWord | Calc.cpp:223-234 | the word loop stops where the run of letters, `_` and digits ends |
| Calculator.ScanMatrix | Calc.cpp:273-324 | the matrix loop stops where `MatrixScan` says: past the `]`, or at the refused character |
| Calculator.Calc.constructor | Calc.cpp:1042-1047 | a new calculator has an empty line, no error, and a fresh table holding only `ans` = 0 |
| Calculator.Calc.Partition | Calc.cpp:187-342 | the parts of the line are appended to the expression exactly as `Tokenize` gives them; an error is set exactly when the partition reports one, after the parts before it were pushed |
| Calculator.Calc.ReadPart | Calc.cpp:200-338 | reading one part from a non-blank character either yields the first part of `Tokenize`, with the rest partitioned from its end, or ends the partition with `Tokenize`'s error (or none, for a trailing operator) |
| Calculator.Calc.Convert | Calc.cpp:364-438 | every part is replaced by `ConvertAll` of it, so each holds the data its text stands for |
| Calculator.Calc.LevelPart | Calc.cpp:526-559 | one pass of the level loop does what `LevelStep` says, and leaves the parts unchanged on an unmatched `)` |
| Calculator.Calc.AssignLevels | Calc.cpp:522-568 | only levels change; the pass succeeds exactly when `Leveled` does and then leaves its result; otherwise the unmatched-parenthesis error is set |
| Calculator.Calc.FindNextOp | Calc.cpp:961-970 | the loop returns the first operator index in [st, ed), or ed |
| Calculator.Calc.CalcOP | Calc.cpp:835-872 | returns `CalcOp` of the operands and sets exactly the error `OpFault` names |
| Calculator.Calc.ReadOperand | Calc.cpp:758-795 | reading an operand returns `Operand` on the current table, and sets the error exactly when that fails |
| Calculator.Calc.ReadChunk | Calc.cpp:743-797 | the value of a turn is `Chunk`: recursion one level up, or the operand, with the error flag set exactly on failure |
| Calculator.Calc.SkipParens | Calc.cpp:693-694 | the skip stops where `SkipBrackets` does |
| Calculator.Calc.TurnHead | Calc.cpp:693-740 | the checks at the head of a turn either end the evaluation as `Run` does, or find the operand from which `Run` continues |
| Calculator.Calc.TurnTail | Calc.cpp:798-827 | the end of a turn either ends the evaluation as `Settle` does, or continues from where `Settle` continues |
| Calculator.Calc.Turn | Calc.cpp:691-827 | one turn either ends with the value of `Run`, or moves strictly forward to a state from which `Run` gives the same value |
| Calculator.Calc.CalcExpr | Calc.cpp:678-830 | the loop returns `Eval` on the current table, and the error flag is set exactly when the evaluation fails, with that error |
| Calculator.Calc.CommandCheck | Calc.cpp:137-172 | a line is handled as a command exactly when `CommandOf` recognises one, and `quit` ends the loop after this line |
| Calculator.Calc.StepVar | Calc.cpp:474-502 | the table, the echoed variable and the error are those of `Stepped` |
| Calculator.Calc.ShowVar | Calc.cpp:576-590 | the echoed variable and the error are those of `Shown` |
| Calculator.Calc.StoreVar | Calc.cpp:608-634 | the table, the echoed variable and the error are those of `Stored` |
| Calculator.Calc.AssignVar | Calc.cpp:593-635 | the table, the echoed variable and the error are those of `Assignment` |
| Calculator.Calc.AssignAns | Calc.cpp:637-649 | the table, the echoed variable and the error are those of `Answer` |
| Calculator.Calc.Dispatch | Calc.cpp:521-650 | the table, the echoed variable and the error are those of `Dispatched` |
| Calculator.Calc.Interpret | Calc.cpp:462-656 | the table, the echoed variable and the error are those of `Interpreted`, so every lemma about `Interpreted` holds of the method |
| Calculator.Calc.Line | Calc.cpp:46-110 | one line of `run` resets the state, then partitions, converts, checks for a command and interprets, giving the outcome of `Processed`; `quit` is remembered |
| Calculator.ChunkCases | Calc.cpp:743-797 | a turn's value is a sub-expression one level up exactly when the next operator is above this level |
| Calculator.TurnStart | Calc.cpp:693-740 | the cases at the head of a turn: the end, an expected operator, an expected value, an assignment inside an expression, or reading the value |
| Calculator.TurnEnd | Calc.cpp:798-827 | the cases at the end of a turn: a null result, leaving at a lower operator or the end, or going on |

## Left out

- Reading lines, the prompt, echoing the input, end-of-file handling and `setSource` (Calc.cpp:36-122) are I/O. `Calculator.Calc.Line` models one turn of the loop on a given line.
- `printError`, `Echo`, `enumerateVars` (the `who` listing), `PrintMatrix` and `operator<<` (CMatrix.cpp:309-369) only print. The model returns the index of the echoed variable and the error value instead of printing them.
- The `open` command does nothing in the source (its body is commented out). The `"open the doors"` branch (Calc.cpp:164) can never match, because a word part holds no blank. Neither is modelled beyond being recognised as a command.
- Floating point: the model computes with exact reals.
  - Rounding in number decoding and arithmetic is not modelled.
  - NaN and infinity do not exist: `element`'s NaN sentinel is `None`, and an elementwise division by a zero element gives 0.0 (`Matrices.ElemDiv`).
  - The C library's `pow` is a function parameter.
- Evaluator.Trunc: `int(x)` of a double outside the int range is undefined in C++. The model truncates the unbounded value.
- Integer widths: the row and column counts, the loop counters (`short` in `resize`) and `m_nRow * m_nCol` are unbounded in the model, so overflow is not modelled.
- Evaluator.CalcOp: `%` with a divisor that truncates to 0 is undefined behaviour in C++. The model gives the null matrix, as for the other failed operators.
- Interpreter.Interpreted: on a line without operators, `FindNextOp(...)->odata` reads the end iterator, which is undefined behaviour. The model reads it as "no operator".
- Interpreter.Processed: an empty line reaches `command->type` on an empty vector in `CommandCheck`, which is undefined behaviour. The model treats it as no command, and `Interpret` then changes nothing and echoes nothing.
- Interpreter.Assignment: when the table is full, `createVar` returns NULL and the source then writes through it. The model reports the error `TableFull` and changes nothing.
- Lexer.MatrixScan: the blank skip inside a literal (Calc.cpp:294-295) is bounded by the end of the line in the model. The source would run past the string's terminator.
- MatrixEdits.Resized and MatrixBuffers.MatrixBuffer.Resize require both counts to be positive or both non-positive. The model has no non-null empty matrix, while `resize(0, c)` with c > 0 is legal in the source and leaves a non-null 0 × c matrix (CMatrix.cpp:231, 251, 262-263). A negative product, as in `resize(-1, 3)`, throws `bad_array_new_length`, which the model does not represent.
- Matrices.IsSquare and Matrices.Eq: the model has one null matrix and does not keep a null matrix's stored counts. In the source, `resize(r, c)` with r, c ≤ 0 (and `identity(n)` with n ≤ 0, CMatrix.cpp:771-774) makes a null matrix that keeps counts r and c (CMatrix.cpp:224-226, 262-263). So `isSquare` is false after `resize(-1, -2)`, while the model calls every null matrix square. `==` compares those counts with no null test (CMatrix.cpp:531), so `resize(-1, -1) == CMatrix()` is false in the source and true in the model, and comparing two such matrices reads through a null data pointer. Calc.cpp never calls `resize` or `identity`.
- VarTables.FindFrom: a cleared, nameless slot is read as a miss. In the source, `search` passes that slot's NULL name to `strcmp` (CVarDB.cpp:20, CVariable.cpp:106-110), which is undefined behaviour.
- VarTables.VarTable.At returns None for a negative index. `at(i)` in the source indexes the array out of bounds (CVarDB.h:32-38).
- The `-` handling of the literal reader (CMatrix.cpp:70, 73, 99) is unreachable because `isValidMatrix` rejects `-`. The model reads only unsigned elements.
- `CMatrix::getRow` (CMatrix.cpp:820-834) and `CVarDB::getVal` (CVarDB.cpp:26-29) are called nowhere in the core. `getVal` dereferences NULL for a missing name. Neither is modelled.
- CVariable's name storage (`SetName`, `Clear`) is not part of this model. A slot's name is an optional string, and a cleared slot has none.
- Memory management (destructors, `new`/`delete`, the raw `char*` copies of `Convert`) has no counterpart. `MatrixBuffers.MatrixBuffer.Copy` and `Swap` model the copy constructor and `operator=` (both forms).
- The `END` part type is never created by `Partition`, so it is not modelled.
- Precedence.ParenFreeEval: the precedence theorem is proved for operand-operator alternations without parentheses. Expressions with parentheses are covered by `Evaluator.Eval` itself and by `Levels.OperatorLevels`, not by a tree theorem.
- Calculator.Calc.Convert requires every part to have the shape the partitioner gives it. That is what `Partition` produces, and the source calls `Convert` on nothing else.

## Findings

| source | as written | input that shows it | evidently intended | confidence | as-written member | corrected member |
|---|---|---|---|---|---|---|
| CVarDB.cpp:66-69 | the clearing loop of `dump` calls `m_pDB[0].Clear()` on every pass, so it clears `ans` (name and value, just set to 0) SIZE_DB - 1 times and never clears slots 1 to SIZE_DB - 1 | any table, e.g. the fresh one: after `dump`, slot 0 has lost the name `ans`, and the next `search` hands slot 0's NULL name to `strcmp` (CVarDB.cpp:20) | clear `m_pDB[i]` for i from 1, keeping `ans` = 0 in slot 0 | not executed | VarTables.DumpAsWrittenLosesAns | VarTables.DumpKeepsAns |
