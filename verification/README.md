# OpenXM: verified models of its exact arithmetic and protocols

OpenXM connects mathematical programs over a common protocol. This project models, in Dafny, the
parts of it whose correctness is a matter of mathematics or of protocol, and proves what they are
for. Each module follows one part of the program; `Basics` holds what they share.

* **Exact linear algebra over a prime field.** `Modular`, `CInt64`, `InvFF`, `FieldFF` are residues
  in C's 64-bit integers; `LinearAlgebra`, `RowOps`, `GaussElim`, `SelfCheck`, `RankCheck` are the
  dense Gauss-Jordan elimination with its transformation matrix, its self-check, and the rank check
  built on it;
  `SparsePoly`, `PolyList`, `ReduceD`, `MergePoly`, `Systems`, `Triangulation`, `FullReduce`, `Rref`,
  `LinSolv`, `CanonicalForm`, `RowOrigin`, `RowKept` are the solver for sparse linear polynomials in
  destructively updated linked lists.
  Main results: the rank check accepts exactly the vectors of the column space (`RankCheck.Check`);
  `triangulate` answers 0 exactly for the systems its contract describes, and the final form is
  the only monic reduced system with the given solutions (`Triangulation.Triangulate`,
  `CanonicalForm.OutputsAgreeIffSolutionsAgree`); what each output row has to do with the input rows
  is stated for every mode (`LinSolv.Solve`, `RowKept.RowKeptIff`).
* **The reset protocol.** `ResetProtocol` is a state machine of a client, a draining server, two
  first-in-first-out channels, a control connection and one asynchronous signal. Results hold in
  every state of every run, through any number of resets. `ResetTrace` reads off the steps of
  a run what was put on the channels and proves that both directions conserve it
  (`ResetTrace.RepliesConserved`). `OxServ` is the variant that defers the signal while its input is
  blocked.
* **The binary codec.** `Bytes`, `BigInt`, `CmoCodec`, `CmoRoundTrip`, `OxStream` say what is on the
  wire and that it is read back, `CmoWire` the numbers and the order of the fields without naming the
  encoder, `CmoStray` what becomes of bytes that are no encoding (`CmoStray.CutExits`);
  `Connection`, `OxSend`, `OxReceive`, `OxReset` are the routines over a buffered connection with a
  negotiated byte order, proved against that specification; `Dump` is the length function and the
  memory dumper, `CmoList` the circular list behind every list object.
* **OpenMath texts.** `OmLexer`, `OmTree`, `OmText`, `OmObject`, `OmPrint`, `OmParser`,
  `OmRoundTrip`, `OmDocument`, `OmNormal`, `OmValue`, `OmImage` are the printer and the reader of the
  XML encoding of OpenMath objects (a subset of section 3.1 of The OpenMath Standard 2.0); `OmReader`
  is the reader as a stateful lexer and recursive-descent parser. Main results: what is printed is read
  back as an explicit normal form with the same value (`OmNormal.PrintedIsRead`,
  `OmValue.PrintedValue`), and the normal forms are exactly what can be read
  (`OmImage.ReadableIff`); the order of attributes and the spaces of a document do not matter
  (`OmDocument.LayoutIrrelevant`).
* **Two compact cores.** `Numeral`, `GmpFake`, `GmpRead`, `GmpText` print and read limb-array
  integers;
  `DoubleHash`, `ContextDic`, `ClassLayout`, `ClassTable` are the double-hashing dictionary, its
  contexts, and the slots of instance variables in classes.

Code that works in place is modelled in place: two-dimensional arrays, heap lists whose nodes are
relinked and freed, buffers, tables and global counters. Such methods are proved against functions
on values, and the laws are proved about those functions.

Where the code does not do what it seems meant to do, the model keeps the code and a theorem states
the exact condition: `FieldFF.MulFFZero`, `LinSolv.ZeroMeansUnsolvableIff`, `Dump.DumpIsWireIff`,
`Dump.WideLimbsIff`, `GmpRead.PrintedReadsBackIff`, `ContextDic.ResolveNearest`,
`ClassLayout.ExtendingSharesIff`, `OxStream.CommandBeforeBallIff`, `OxServ.SignalInCommandIff`,
`OxServ.SignalBeforeDataIff`, `OmImage.StringReadIff`, `RowKept.RowKeptIff`.
`OxServ.SignalInCommandIff` is about a signal inside the last command before the ball,
`OxServ.SignalBeforeDataIff` about one before the object of a last data message: what an object of six words or more does depends on what its later words read
as. A signal inside an earlier message can be harmless, since what is still in front of the ball may
bring the loop back into step (`OxServ.BackInStep`).

Verify with `dafny verify dfyconfig.toml` (Dafny 4.11).

## Model

| member | source | states |
|---|---|---|
| `InvFF.Inv` | src/linsolv/rank_check_ff.c:90-107 | for prime p and 0 < a < p the Euclid loop ends with a value in [0, p) whose product with a is 1 modulo p; 0 gives 0; every 64-bit operation on the way is shown not to overflow |
| `InvFF.ProductFits` | src/linsolv/rank_check_ff.c:158-179 | when (p-1)^2 < 2^63, a product of two entries of size below p, also after adding a third, fits 64 bits |
| `FieldFF.AddFF` | src/linsolv/ff.c:20-30 | the sum of two residues, again in [0, p) |
| `FieldFF.NegFF` | src/linsolv/ff.c:32-42 | the additive inverse in [0, p) |
| `FieldFF.SubFF` | src/linsolv/ff.c:44-54 | the difference in [0, p) |
| `FieldFF.MulFF` | src/linsolv/ff.c:56-67 | the result is the product modulo p if and only if b is nonzero or a is zero: with b alone zero the code returns a |
| `FieldFF.MulFFZero` | src/linsolv/ff.c:61 | the exact condition under which the zero shortcut is right |
| `FieldFF.DivFF` | src/linsolv/ff.c:105-119 | the quotient times the divisor is the dividend; a nonzero dividend gives a nonzero quotient |
| `FieldFF.InverseExists` | src/linsolv/ff.c:83-103 | every residue prime to p has an inverse, so division is always possible |
| `GaussElim.RowX` | src/linsolv/rank_check_ff.c:150-157 | swapping two rows in place is the matrix operation Swap and touches nothing else |
| `GaussElim.RowM` | src/linsolv/rank_check_ff.c:158-168 | scaling a row in place is the matrix operation Scale, every entry reduced to [0, p) |
| `GaussElim.RowA` | src/linsolv/rank_check_ff.c:169-179 | adding a multiple of one row to another in place is the matrix operation AddMul, every entry reduced to [0, p) |
| `GaussElim.TransposeInto` | src/linsolv/rank_check_ff.c:140-149 | the scratch matrix becomes the transpose, the input is unchanged |
| `GaussElim.FindColumn` | src/linsolv/rank_check_ff.c:277-280 | the column scan through the transpose stops at the first column that is not zero in every row, or past the last one |
| `GaussElim.ClearColumn` | src/linsolv/rank_check_ff.c:291-296 | one pivot clears its column in every other row of M while P follows the same operations |
| `GaussElim.PivotStep` | src/linsolv/rank_check_ff.c:276-300 | one round of the elimination keeps P invertible with P*M_orig = M and extends the reduced columns by one, whether or not a pivot is found |
| `GaussElim.GaussElimFF` | src/linsolv/rank_check_ff.c:259-313 | at the end P is invertible, P*M_orig = M modulo p, M is in reduced row echelon form with unit columns exactly at the increasing pivot columns, and rows past the rank are zero |
| `RowOps.ActMul` | src/linsolv/rank_check_ff.c:286-296 | applying a row operation to a product is applying it to the left factor: why P can be carried along |
| `RowOps.ActInvertible` | src/linsolv/rank_check_ff.c:150-179 | every row operation the elimination uses is invertible and keeps invertibility |
| `RowOps.TracksStep` | src/linsolv/rank_check_ff.c:286-296 | P*M_orig = M with P invertible survives the same reversible operation on P and on M |
| `SelfCheck.MatrixMult` | src/linsolv/rank_check_ff.c:198-213 | the product over F_p: entries in [0, p), congruent to the exact product, every 64-bit operation in range |
| `SelfCheck.ProductAssoc` | src/linsolv/rank_check_ff.c:198-213 | the product the program computes is associative: both ways to multiply three matrices give equal entries, the law behind carrying P |
| `SelfCheck.MatrixSub` | src/linsolv/rank_check_ff.c:218-232 | on entries in [0, p) the remainder, with C's sign, is the difference itself |
| `SelfCheck.DiffCheck` | src/linsolv/rank_check_ff.c:462-472 | the comparison finds no difference if and only if P*M_orig = M modulo p |
| `SelfCheck.CheckedElimination` | src/linsolv/rank_check_ff.c:460-472 | the self-check after the elimination never reports an error |
| `RankCheck.PivotColumnsSpan` | src/linsolv/rank_check_ff.c:297-309 | every original column is the combination of the original columns at the pivots whose coefficients stand in the reduced matrix |
| `RankCheck.PivotColumnsIndependent` | src/linsolv/rank_check_ff.c:297-309 | a combination of the original columns at the pivots that vanishes has all coefficients zero |
| `RankCheck.RankTest` | src/linsolv/rank_check_ff.c:502-521 | entries of P*v past the rank are all zero if and only if some x has M_orig*x = v modulo p |
| `RankCheck.TransposeSquare` | src/linsolv/rank_check_ff.c:315-324 | the square matrix is transposed in place |
| `RankCheck.VectMatrixMult` | src/linsolv/rank_check_ff.c:325-336 | each entry is the dot product of the vector with a column, modulo p, without overflow |
| `RankCheck.IsZeroVectFrom` | src/linsolv/rank_check_ff.c:337-344 | answers whether all entries from a position on are zero modulo p |
| `RankCheck.TestRows` | src/linsolv/rank_check_ff.c:508-521 | on the transposed P the loop over the rows of ES2 accepts exactly when every row passes the rank test |
| `RankCheck.Check` | src/linsolv/rank_check_ff.c:452-521 | the program reports a format error exactly when the widths differ, and otherwise accepts exactly when every row of ES2 lies in the column space of the original matrix; the full-rank shortcut agrees |
| `SparsePoly.CanonUnique` | src/linsolv/calc.c:556-609 | a strictly decreasing list without zero coefficients is determined by its coefficient map |
| `SparsePoly.CanonMinus` | src/linsolv/calc.c:576-607 | the merge of two such lists is again strictly decreasing with no zero coefficient |
| `SparsePoly.CoefMinus` | src/linsolv/calc.c:576-607 | the merge computes f - c*g coefficient by coefficient, modulo p |
| `SparsePoly.EvalMinus` | src/linsolv/calc.c:576-607 | and as a function on points |
| `SparsePoly.MinusCancels` | src/linsolv/calc.c:665-673 | subtracting the multiple with equal leading coefficient removes the leading variable |
| `PolyList.Mul1Poly` | src/linsolv/calc.c:441-464 | a fresh list: the first term times every term of the second list, in order |
| `ReduceD.MergeEqual` | src/linsolv/calc.c:580-588 | one step of the merge on equal variables: q1 is kept with the difference, or freed when that is zero; g moves on |
| `ReduceD.MergeFirst` | src/linsolv/calc.c:589-592 | the larger node of f is relinked as it is |
| `ReduceD.MergeSecond` | src/linsolv/calc.c:593-600 | a new node takes the negated multiple of g's term; g's node is not touched |
| `ReduceD.FinishMerge` | src/linsolv/calc.c:602-608 | what is left of f is linked, or what is left of g is multiplied into new nodes; the three ways to end agree with the merge |
| `ReduceD.ReduceD` | src/linsolv/calc.c:556-609 | done in place by relinking and freeing nodes of f, the result is the list of f - c*g; every node of f is either in the result or freed, every other node of the result is new, and all nodes of g are unchanged and unshared |
| `MergePoly.CoefPlus` | src/linsolv/calc.c:115-157 | the sum has the sums of the coefficients modulo p |
| `MergePoly.CanonPlus` | src/linsolv/calc.c:115-157 | the sum is again strictly decreasing with no zero coefficient |
| `MergePoly.PlusCommutes` | src/linsolv/calc.c:115-157 | the order of the two lists does not matter |
| `MergePoly.PlusAssociates` | src/linsolv/calc.c:115-157 | nor does the grouping of three |
| `MergePoly.MergeSum` | src/linsolv/calc.c:131-139 | one step on equal variables: the first node takes the sum or is freed when it vanishes, the second is freed |
| `MergePoly.MergeOther` | src/linsolv/calc.c:144-147 | the larger node of the second list is relinked as it is |
| `MergePoly.FinishSum` | src/linsolv/calc.c:150-155 | what is left of either list is linked; all nodes are accounted for |
| `MergePoly.MergePoly` | src/linsolv/calc.c:115-157 | the list of the sum, built in place without a new node: every node of both lists is in the result or freed, and not both |
| `Systems.TriangularSolve` | src/linsolv/calc.c:646-680 | a system with strictly decreasing leading variables always has a solution |
| `Systems.ReduceEquivalent` | src/linsolv/calc.c:665-673 | reducing a row by the pivot keeps the solutions of the whole system |
| `Systems.ConstMeansUnsolvable` | src/linsolv/calc.c:672 | a nonzero constant row among the reduced ones means the system has no solution |
| `Triangulation.FMaxPos` | src/linsolv/calc.c:632-644 | finds a row with the greatest leading variable, or -1 when all rows are empty |
| `Triangulation.TakePivot` | src/linsolv/calc.c:662-664 | the pivot row moves from the input to the output array, its nodes untouched |
| `Triangulation.ReduceSlotD` | src/linsolv/calc.c:666-673 | one slot is skipped, or reduced by the pivot in place while every other row keeps its nodes and value |
| `Triangulation.ClearPivot` | src/linsolv/calc.c:665-674 | after the pass over the slots no row starts with the pivot's variable; a nonzero constant row stops it and means no solution |
| `Triangulation.Triangulate` | src/linsolv/calc.c:646-680 | returns 0 if and only if all rows are constants or the rows with variables have no solution; otherwise the output has strictly decreasing leading variables and the solutions of the input, in disjoint lists; its rows come from different input rows, and each takes the values of its input row wherever the output rows before it vanish |
| `LinSolv.NormalizeD` | src/linsolv/calc.c:752-763 | divides every coefficient by the leading one in place, also though the leading one changes first |
| `LinSolv.NormalizeAll` | src/linsolv/calc.c:697-699 | every row becomes monic, with the same solutions |
| `FullReduce.ScanReduce` | src/linsolv/calc.c:777-787 | the scan subtracts from the row exactly the multiple of g that removes its variable, relinking behind the node it stands on; no second match can follow |
| `Rref.ReduceRow` | src/linsolv/calc.c:779-787 | a row freed of one leading variable keeps its own leading variable and solutions, and stays free of the others |
| `Rref.FullReduceD` | src/linsolv/calc.c:770-791 | the row is freed of the leading variables of all rows below it; every other row is left as it is, and the row takes its old values wherever the rows below it vanish; this is right because those rows are already mutually reduced |
| `Rref.RrefD` | src/linsolv/calc.c:793-809 | no leading variable occurs in another row, leading terms and solutions are kept, and each row takes its old values wherever the output rows after it vanish, all in place |
| `LinSolv.Solve` | src/linsolv/calc.c:682-724 | the modes from the parsed rows to the output; n = 0 exactly as triangulate says. There is a triangular form whose rows come from different input rows, each with the values of its input row wherever the rows before it vanish: mode 0 returns it, mode 1 returns a reduced form with the same leading terms, whose rows take the values of the triangular ones wherever the output rows after them vanish, and mode 2 the monic reduced form |
| `RowOrigin.TrackedReduce` | src/linsolv/calc.c:665-673 | reducing a slot by the last pivot keeps what ties every slot and every row done to its input row |
| `RowKept.RowFromInput` | src/linsolv/calc.c:700-702 | in mode 1 a row takes the values of its input row wherever the triangular rows before it and the output rows after it vanish |
| `RowKept.ClearedEntails` | src/linsolv/calc.c:793-809 | the reduced rows imply the triangular ones at all assignments, constants included |
| `RowKept.RowKeptIff` | src/linsolv/calc.c:700-702 | wherever only all other output rows vanish, an output row takes the values of an input row if and only if its leading variable has the same coefficient in that input row |
| `RowKept.NoRowKept` | src/linsolv/calc.c:700-702 | which may hold of no input row: x2 + 2*x1 and x2 + 3*x1 are reduced to x2 and x1, and where x2 vanishes x1 is neither of them |
| `RowKept.NoRowKeptOutput` | src/linsolv/calc.c:646-709 | that input, its triangular form and that output are related as the solver promises in mode 1 |
| `CanonicalForm.BasisUnique` | src/linsolv/calc.c:697-702 | two monic reduced systems with the same solutions are equal |
| `CanonicalForm.OutputsAgreeIffSolutionsAgree` | src/linsolv/calc.c:682-724 | for solvable inputs, two runs in mode 2 give identical output if and only if the inputs have the same solutions |
| `LinSolv.ZeroMeansUnsolvableIff` | src/linsolv/calc.c:654-673 | the answer 0 means 'no solution' exactly when the input has no nonzero constant row, only such rows, or no solution already among its other rows |
| `LinSolv.MixedConstantMissed` | src/linsolv/calc.c:654-656 | a concrete input with a nonzero constant row beside another row, for which the answer is not 0 though there is no solution |
| `ResetProtocol.InvStep` | src/ox_toolkit/ox.c:540-549 | every step of client, server, control connection and signal keeps the protocol's invariant |
| `ResetProtocol.RunSafe` | src/ox_math/serv1.c:86-111 | every state of every run, through any number of resets, satisfies the invariant: nothing is lost, duplicated or reordered, a ball is never read where none is expected, and drops are accounted for |
| `ResetProtocol.RunKeeps` | src/ox_math/serv1.c:86-111 | the invariant survives any run from any state that satisfies it |
| `ResetProtocol.OneResetHappens` | src/ox_toolkit/ox.c:540-549 | these statements are not empty: in a concrete run the message under way when the client resets is dropped by that reset, and both sides end idle in the next epoch |
| `ResetProtocol.LaterMessagesSurvive` | src/ox_math/serv1.c:23-35 | a message sent after a reset is not dropped by that reset or an earlier one; the server's record follows the order of sending |
| `ResetProtocol.NoStaleResult` | src/ox_toolkit/ox.c:540-549 | a result the client accepts after a reset answers a message sent after that reset |
| `ResetProtocol.CurrentEpochProcessed` | src/ox_math/serv1.c:57-78 | what the server has taken of the client's current epoch was processed, not dropped |
| `ResetProtocol.OneBallPerReset` | src/ox_math/serv1.c:104-107 | signals are neither lost nor merged: the server has sent one ball for every finished reset and at most one more, and both sides always meet the ball of their own reset |
| `ResetTrace.RunTraced` | src/ox_math/serv1.c:57-111 | every run leaves the state its steps say, read off the steps alone: what each side put on either channel and read from it, with payloads and epochs, the records of both sides, epochs, balls and signal |
| `ResetTrace.RepliesConserved` | src/ox_math/serv1.c:71-78 | the replies sent in a run, payloads and epochs in order, are exactly those the client took or skipped, in that order, followed by those still under way; the results are those taken |
| `ResetTrace.RequestsConserved` | src/ox_math/serv1.c:57-70 | and the messages sent to the server are exactly those it processed or dropped, in that order, followed by those still under way |
| `ResetTrace.ReplyTaken` | src/ox_math/serv1.c:71-78 | a run in which a reply is taken as a result with its payload |
| `ResetTrace.LateReplySkipped` | src/ox_toolkit/ox.c:543-545 | a run in which a late reply is skipped by the reset that follows |
| `Bytes.WordRoundTrip` | src/ox_toolkit/oxf.c:198-227 | four bytes in either order give back the word |
| `Bytes.IntRoundTrip` | src/ox_toolkit/oxf.c:198-227 | and the signed integer, in two's complement |
| `CmoWire.IntOnWire` | src/ox_toolkit/oxf.c:198-209 | in network order the first byte of an integer is the most significant one, in the other order the last; a negative integer is its two's complement |
| `BigInt.CanonicalUnique` | src/ox_toolkit/ox.c:780-796 | digits without a zero at the top are determined by the value |
| `BigInt.WireCanonical` | src/ox_toolkit/ox.c:780-796 | the words sent are the canonical 32-bit words of the value, whatever the limb size: at most one zero word has to be dropped |
| `BigInt.LimbsTransfer` | src/ox_toolkit/ox.c:434-453 | an integer sent by a host with 32- or 64-bit limbs arrives as the same integer, canonical again, on a host with either limb size, odd word counts included |
| `CmoRoundTrip.RoundTrip` | src/ox_toolkit/ox.c:352-432 | decoding the encoding of any object followed by any bytes gives back the object and leaves exactly those bytes, in either byte order |
| `CmoRoundTrip.PrefixFree` | src/ox_toolkit/ox.c:713-778 | different objects differ on the wire and no encoding is a proper beginning of another |
| `CmoWire.TagNumbers` | src/kan96xx/plugin/cmotag.h:16-57 | the number of each kind of object |
| `CmoWire.TagOnWire` | src/ox_toolkit/ox.c:713-719 | the first word of every object is its number |
| `CmoWire.SimpleOnWire` | src/ox_toolkit/ox.c:574-662 | then one integer, or the length and the characters of a string, or one big integer, or the eight bytes of a double, or nothing |
| `CmoWire.FractionOnWire` | src/ox_toolkit/ox.c:664-669 | after the number of a fraction the next big integer is the numerator, the one after it the denominator, and nothing is left |
| `CmoWire.PartsOnWire` | src/ox_toolkit/ox.c:677-703 | the parts of pairs and trees follow one another in the order real and imaginary part, ring and polynomial, arguments and body, or name, attributes and leaves |
| `CmoWire.ListsOnWire` | src/ox_toolkit/ox.c:600-656 | the count comes first, then the ring, the variable or the exponents, then the items one after the other, the exponent of a term before its coefficient |
| `CmoWire.FractionExample` | src/ox_toolkit/ox.c:664-669 | the bytes of 2/3 |
| `CmoWire.TreeExample` | src/ox_toolkit/ox.c:691-697 | the bytes of a tree of three integers |
| `CmoWire.DistributedExample` | src/ox_toolkit/ox.c:613-624 | the bytes of a distributed polynomial |
| `CmoWire.PolyInOneExample` | src/ox_toolkit/ox.c:626-639 | the bytes of a polynomial in one variable |
| `CmoWire.MonomialExample` | src/ox_toolkit/ox.c:646-656 | the bytes of a monomial |
| `CmoWire.MessageExamples` | src/ox_toolkit/ox.c:455-460 | the bytes of a command, a data message and a ball |
| `CmoStray.CutExits` | src/ox_toolkit/ox.c:352-432 | wherever the input ends inside an object, the receiver exits |
| `CmoStray.NegativeList` | src/ox_toolkit/ox.c:200-212 | a negative count is read as an empty list, what follows is left |
| `CmoStray.StringWithZero` | src/ox_toolkit/ox.c:182-192 | a string ends at a zero byte inside it, its other bytes are consumed |
| `CmoStray.UnknownTag` | src/ox_toolkit/ox.c:425-431 | a number without a case is consumed alone |
| `OxStream.ServerDrainStops` | src/ox_math/serv1.c:23-35 | the server's loop skips exactly the messages before the client's ball, even when payload words equal the ball's tag, and leaves exactly what follows it |
| `OxStream.ClientDrainStops` | src/ox_toolkit/ox.c:540-545 | the client's loop does the same on a stream of replies |
| `OxStream.CommandBeforeBallIff` | src/ox_toolkit/ox.c:543-545 | the client's loop reads an object after every header: with a command right before the ball it stops right after the ball if and only if the command's code is the tag of a bare object, whatever follows |
| `OxStream.CommandDerailsClient` | src/ox_toolkit/ox.c:543-545 | with another code and nothing after the ball the client swallows the ball and runs into the end of its input |
| `Connection.HandshakeAgrees` | src/ox_toolkit/oxf.c:270-293 | both ends settle on the same order: the little one when both hosts have it, and network order otherwise |
| `Connection.OxFile.Flush` | src/ox_toolkit/oxf.c:295-301 | everything written so far is on the wire |
| `Connection.OxFile.SetBuffer` | src/ox_toolkit/oxf.c:86-98 | the bytes pending in the old buffer are flushed; the bytes written so far stay the same |
| `Connection.OxFile.Write` | src/ox_toolkit/oxf.c:152-165 | wire followed by buffer grows by exactly the bytes written, in all three branches |
| `Connection.OxFile.SetOpt` | src/ox_toolkit/oxf.c:312-327 | integers and doubles use one order: the host's own, or network order |
| `Connection.OxFile.DetermineByteorderClient` | src/ox_toolkit/oxf.c:270-280 | reads the peer's offer, sends its own, and takes the agreed order |
| `Connection.OxFile.DetermineByteorderServer` | src/ox_toolkit/oxf.c:283-293 | the server's half of the same exchange |
| `Connection.OxFile.SendInt32` | src/ox_toolkit/oxf.c:198-209 | four bytes in the connection's order, whatever the host's |
| `Connection.OxFile.ReceiveInt32` | src/ox_toolkit/oxf.c:213-227 | the integer of the next four bytes, or exit at the end of the input |
| `Connection.OxFile.SendDouble` | src/ox_toolkit/oxf.c:168-178 | the eight bytes in the connection's order |
| `Connection.OxFile.ReceiveDouble` | src/ox_toolkit/oxf.c:181-194 | the eight bytes put back in the host's order |
| `Connection.TransferAfterHandshake` | src/ox_toolkit/oxf.c:270-327 | an object sent after the handshake is decoded to itself, for every pair of byte orders |
| `OxSend.SendMpz` | src/ox_toolkit/ox.c:780-796 | the size and the words from memory, the zero top word dropped, are the encoding of the signed value |
| `OxSend.WireIsWords` | src/ox_toolkit/ox.c:786-790 | the words sent are those of the value and their count carries its sign |
| `OxSend.SendCmo` | src/ox_toolkit/ox.c:713-778 | the bytes written are exactly the encoding of the object, for every tag |
| `OxSend.SendString` | src/ox_toolkit/ox.c:584-592 | the length and the bytes of the string |
| `OxSend.SendList` | src/ox_toolkit/ox.c:600-611 | the length, then every item in order |
| `OxSend.SendItems` | src/ox_toolkit/ox.c:606-609 | the loop over the cells sends the items one after the other |
| `OxSend.SendMonomial32` | src/ox_toolkit/ox.c:646-656 | the exponents, then the coefficient |
| `OxSend.SendDistributed` | src/ox_toolkit/ox.c:613-624 | the length, the ring, then the monomials |
| `OxSend.SendPolyInOne` | src/ox_toolkit/ox.c:626-639 | the length, the variable, then exponent and coefficient of every term |
| `OxSend.SendTree` | src/ox_toolkit/ox.c:691-697 | name, attributes, leaves |
| `OxSend.SendOxTag` | src/ox_toolkit/ox.c:164-168 | a message header takes the next serial number |
| `OxSend.SendOxCommand` | src/ox_toolkit/ox.c:455-460 | one whole command message is on the wire, flushed |
| `OxSend.SendOxCmo` | src/ox_toolkit/ox.c:566-571 | one whole data message is on the wire, flushed |
| `OxReceive.ReceiveMpz` | src/ox_toolkit/ox.c:434-453 | the limbs that hold the words received, the unwritten half limb being zero, have the value sent |
| `OxReceive.ReceiveWords` | src/ox_toolkit/ox.c:449-452 | the words land in memory from the bottom, the rest is untouched |
| `OxReceive.ResizedCount` | src/ox_toolkit/ox.c:442-447 | the signed rounding of the size asks for exactly the limbs the words need |
| `OxReceive.ReceiveString` | src/ox_toolkit/ox.c:182-192 | the string, read in pieces of any size and cut at its first zero byte |
| `OxReceive.ReceiveCmo` | src/ox_toolkit/ox.c:352-356 | the object the decoder specifies, and exactly its bytes are consumed; exit at the end of the input |
| `OxReceive.ReceiveCmoTag` | src/ox_toolkit/ox.c:358-432 | the dispatch on the tag; an unknown tag gives the null object and consumes nothing |
| `OxReceive.ReceiveItems` | src/ox_toolkit/ox.c:206-210 | the loop appends as many items as the length says |
| `OxReceive.ReceiveList` | src/ox_toolkit/ox.c:200-212 | a list; a negative length gives an empty one |
| `OxReceive.ReceiveTerms` | src/ox_toolkit/ox.c:309-314 | the terms of a polynomial in one variable |
| `OxReceive.ReceiveDistributed` | src/ox_toolkit/ox.c:286-299 | a distributed polynomial |
| `OxReset.ReceiveOxTag` | src/ox_toolkit/ox.c:156-161 | the tag of the next message; its serial number is kept |
| `OxReset.SkipToBall` | src/ox_toolkit/ox.c:543-545 | the client's loop does what its specification says, on the real stream |
| `OxReset.SkipAllToBall` | src/ox_math/serv1.c:28-34 | so does the server's |
| `OxReset.ClientReset` | src/ox_toolkit/ox.c:540-549 | the request goes out on the control connection, the input continues exactly after the server's ball, and the client's ball is written (though not flushed) |
| `OxReset.ExchangeOxSyncBall` | src/ox_math/serv1.c:23-35 | the server's ball is written first, and the input continues exactly after the client's |
| `OxReset.ExchangeMeets` | src/ox_toolkit/ox.c:540-549 | over any number of exchanges both ends drop at each reset exactly what the other sent since the reset before, stop exactly at its ball, and lose nothing after the last one |
| `Dump.Cmolen` | src/ox_toolkit/cmolen.c:74-112 | computes the length function by recursion |
| `Dump.CmolenList` | src/ox_toolkit/cmolen.c:46-54 | the loop sums the lengths of the items |
| `Dump.DumpLength` | src/ox_toolkit/dump.c:124-160 | the computed length is exactly the number of bytes dumped, for every object and limb size |
| `Dump.DumpIsWireIff` | src/ox_toolkit/dump.c:124-160 | with 32-bit limbs the dump equals what is sent in network order if and only if every part of the object has a case in the dumper |
| `Dump.WideLimbsIff` | src/ox_toolkit/dump.c:53-61 | with 64-bit limbs the dump of an object equals what is sent in network order if and only if every part has a case in the dumper and every integer inside fits one word |
| `CmoWire.WideDumpExample` | src/ox_toolkit/dump.c:53-61 | of 1 + 7*2^32 + 5*2^64 in two 64-bit limbs the dump keeps the words 1 and 5 |
| `Dump.DumpAgainstWire` | src/ox_toolkit/dump.c:124-160 | when the dump differs from what is sent it is shorter, for either limb size |
| `Dump.ExprIsWireIff` | src/ox_toolkit/dump.c:162-174 | the dump of a data message is what is sent with serial number -1 if and only if every part of its object has a case; that of a command always is |
| `Dump.Dumper.DumpCmo` | src/ox_toolkit/dump.c:124-160 | the buffer grows by exactly the bytes of the object, inside the computed length |
| `Dump.Dumper.DumpMpzOf` | src/ox_toolkit/dump.c:53-61 | the size and the low word of every limb |
| `Dump.Dumper.DumpCells` | src/ox_toolkit/dump.c:86-95 | the loop dumps the items one after the other |
| `Dump.Display` | src/ox_toolkit/bconv.c:12-48 | for a data message, a command or a bare object the buffer sized beforehand is filled exactly |
| `CmoList.Cons` | src/ox_toolkit/cmo.c:55-62 | the new cell stands between the head and the cell before it, and both directions around the ring stay linked |
| `CmoList.List.Append` | src/ox_toolkit/cmo.c:64-76 | the list grows by the new object at its end; the old cells stay in place |
| `CmoList.List.Nth` | src/ox_toolkit/cmo.c:99-110 | the n-th object, nothing past the end, and for a negative n the first cell, which in an empty list is the head itself |
| `CmoList.List.Items` | src/ox_toolkit/ox.c:600-611 | the walk from the first cell to the head meets every item once, in order |
| `CmoList.FromArray` | src/ox_toolkit/cmo.c:186-194 | a list made from an array holds its objects in order |
| `OmLexer.Lex` | src/OpenMath/OM2OXM.java:223-299 | a tag token consumes input, and a text is never empty |
| `OmLexer.LexAtEnd` | src/OpenMath/OM2OXM.java:274-296 | past the end of its input the program reads its own pushed-back end as one more character, again and again |
| `OmTree.LexOpen` | src/OpenMath/OM2OXM.java:237-265 | an opening tag is read as its name in upper case, whatever follows |
| `OmTree.LexLead` | src/OpenMath/OM2OXM.java:201-235 | spaces, tabs and line ends in front of a tag change nothing |
| `OmTree.LexSymbol` | src/OpenMath/OM2OXM.java:237-271 | a symbol's tag is read with the letters outside its quotes in upper case and those inside unchanged, in either order of its attributes and with any spaces between them |
| `OmText.LexText` | src/OpenMath/OM2OXM.java:274-296 | the text in front of a tag is read as that text without the spaces around it, and the tag is left |
| `OmText.SymbolAttributeWords` | src/OpenMath/OM2OXM.java:521-601 | the tokenizer, escapes included, splits the upper-cased attribute of a symbol back into its words, in either order of its attributes, the quoted name and the quoted dictionary among them, when these hold no quote, backslash or line end |
| `OmRoundTrip.SymbolReads` | src/OpenMath/OM2OXM.java:571-601 | a symbol's tag is read as its quoted name, whether that stands before or after the dictionary |
| `OmPrint.PrintIsRender` | src/OpenMath/OM2OXM.java:71-199 | the printer's string concatenation is the rendering of one tree, nested sums of polynomials included |
| `OmRoundTrip.TreeReads` | src/OpenMath/OM2OXM.java:332-519 | the parser reads the rendering of any tree the lexer keeps, its symbols' attributes in either order and any spaces between tags and attributes, followed by anything, as what the tree stands for, and leaves exactly the rest |
| `OmDocument.LayoutIrrelevant` | src/OpenMath/OM2OXM.java:332-519 | the order of a symbol's attributes and the spaces before tags and between attributes change neither the object read nor where reading stops |
| `OmDocument.DocumentReads` | src/OpenMath/OM2OXM.java:312-330 | a whole document in any such layout |
| `OmDocument.CdFirstReads` | src/OpenMath/OM2OXM.java:571-590 | an application with the dictionary in front of the name is read as with the name in front, for literal texts of its tags |
| `OmDocument.CdFirstExample` | src/OpenMath/OM2OXM.java:571-590 | a whole document with the dictionary first: the application of plus to 1 and 2 |
| `OmDocument.SpacedExample` | src/OpenMath/OM2OXM.java:201-235 | the same with spaces, tabs and line ends between its tags and attributes |
| `OmDocument.IntegerRead` | src/OpenMath/OM2OXM.java:603-635 | a minus or none, then decimal digits, or x and capital hexadecimal digits, are read as the number they show |
| `OmDocument.LowBits` | src/OpenMath/OM2OXM.java:494-497 | exponents keep their low 32 bits, in two's complement |
| `OmDocument.OctalEscape` | src/OpenMath/OM2OXM.java:521-601 | a backslash and three octal digits stand for one character |
| `OmDocument.FractionText` | src/OpenMath/OM2OXM.java:111-114 | the literal text of a fraction, the numerator first |
| `OmDocument.DistributedText` | src/OpenMath/OM2OXM.java:129-138 | the literal text of a distributed polynomial, its ring and a monomial |
| `OmDocument.PolynomialText` | src/OpenMath/OM2OXM.java:172-196 | the literal text of a polynomial in one variable with two terms |
| `OmDocument.FloatText` | src/OpenMath/OM2OXM.java:142-149 | the literal text of a floating-point number |
| `OmNormal.IntTextReads` | src/OpenMath/OM2OXM.java:603-635 | the decimal text of every integer is read as that integer |
| `OmNormal.ReadsNorm` | src/OpenMath/OM2OXM.java:71-199 | the tree of an object stands for the object's normal form |
| `OmNormal.PrintedIsRead` | src/OpenMath/OM2OXM.java:311-330 | parsing the printed form of an object, followed by anything, gives its normal form and consumes exactly that form |
| `OmValue.NormValue` | src/OpenMath/OM2OXM.java:171-199 | the normal form denotes the number the object denotes at every point: the tree of sums, products and powers of a recursive polynomial evaluates to the polynomial's value |
| `OmValue.PrintedValue` | src/OpenMath/OM2OXM.java:311-330 | so does the object read back |
| `OmValue.NormTwice` | src/OpenMath/OM2OXM.java:311-330 | a normal form is printable and its own normal form |
| `OmValue.ReadAgain` | src/OpenMath/OM2OXM.java:311-330 | printing what was read and reading it again gives the same object |
| `OmImage.LexedText` | src/OpenMath/OM2OXM.java:274-296 | every text the lexer returns is free of tags and of spaces around it |
| `OmImage.ReadIsStable` | src/OpenMath/OM2OXM.java:311-330 | every object the reader returns, from whatever text, can be printed and is its own normal form |
| `OmImage.ReadPrintRead` | src/OpenMath/OM2OXM.java:311-330 | for every text the reader accepts, reading, printing and reading again gives the same object |
| `OmImage.ReadableIff` | src/OpenMath/OM2OXM.java:311-330 | an object is read from some text if and only if it is its own normal form |
| `OmImage.StringReadIff` | src/OpenMath/OM2OXM.java:83-84 | a string survives printing and reading, up to the spaces around it, if and only if it contains no tag opener: the printer does not escape it |
| `OmImage.VariableReadIff` | src/OpenMath/OM2OXM.java:681-692 | an indeterminate survives if and only if every character of its name is one the reader accepts |
| `OmReader.Reader.ReadTag` | src/OpenMath/OM2OXM.java:246-262 | the loop over a tag's characters computes the specified text and the character that ended it |
| `OmReader.Reader.ReadText` | src/OpenMath/OM2OXM.java:275-295 | the loop over a text does the same |
| `OmReader.Reader.SkipSpaces` | src/OpenMath/OM2OXM.java:205-214 | the spaces are consumed; one character is pushed back, at the end of the input the byte 255 |
| `OmReader.Reader.ReadNextToken` | src/OpenMath/OM2OXM.java:223-299 | the token and the input after it are those of the specification; a token pushed back is returned again |
| `OmReader.Reader.PushBack` | src/OpenMath/OM2OXM.java:216-221 | the last token becomes the next one |
| `OmReader.Reader.ReadObject` | src/OpenMath/OM2OXM.java:332-385 | the recursive descent over the stream, with its token pushback, agrees with the specification in result, failure and input left |
| `OmReader.Reader.ReadObjects` | src/OpenMath/OM2OXM.java:503-518 | likewise for the loop over objects up to an end tag, which is left |
| `OmReader.Reader.ReadTerms` | src/OpenMath/OM2OXM.java:435-461 | likewise for the monomials of a polynomial |
| `OmReader.Reader.ReadMonom` | src/OpenMath/OM2OXM.java:463-501 | likewise for one monomial, whose exponents are cut to 32 bits |
| `OmReader.Reader.ReadWhole` | src/OpenMath/OM2OXM.java:311-330 | likewise for a whole text |
| `GmpFake.Mpz.Set` | src/ox_toolkit/gmp_fake.c:65-77 | copies value and sign, growing when needed and never shrinking; copying onto itself gives zero without a sign, because limbs and sign are cleared first |
| `GmpFake.Mpz.DivideBy` | src/ox_toolkit/gmp_fake.c:116-122 | one division in place: old value = base * new value + remainder |
| `GmpFake.DivideLimb` | src/ox_toolkit/gmp_fake.c:119-121 | the two-limb dividend fits 64 bits, its quotient fits one limb |
| `GmpFake.FillDigits` | src/ox_toolkit/gmp_fake.c:115-124 | the buffer receives the last digits of the value, zeros included |
| `GmpFake.BufferShows` | src/ox_toolkit/gmp_fake.c:109-112 | the buffer length always leaves at least three zeros before the first digit, room for prefix and sign |
| `GmpFake.SkipZeros` | src/ox_toolkit/gmp_fake.c:125-127 | stops at the first digit or at the end |
| `GmpFake.PutPrefix` | src/ox_toolkit/gmp_fake.c:128-136 | prefix and sign never go below the start of the buffer |
| `GmpFake.GetStr` | src/ox_toolkit/gmp_fake.c:98-143 | prints exactly the value: bare zero, or digits after the prefix of the base, and the sign |
| `Numeral.DigitsFit` | src/ox_toolkit/gmp_fake.c:109-110 | three bits a digit (four in base 16) are room enough for any number of n limbs |
| `Numeral.DigitsFill` | src/ox_toolkit/gmp_fake.c:179-180 | a number that needs n limbs has digits for n limbs |
| `Numeral.ReadDigits` | src/ox_toolkit/gmp_fake.c:183-202 | digits read one by one give the number they show |
| `GmpRead.MultiplyAdd` | src/ox_toolkit/gmp_fake.c:194-201 | one digit in place: z becomes (z*base + c) modulo 2^(32*size) |
| `GmpRead.MultiplyLimb` | src/ox_toolkit/gmp_fake.c:197-200 | the product with its carry fits 64 bits and the carry stays below the base |
| `GmpRead.FindStart` | src/ox_toolkit/gmp_fake.c:160-177 | blanks, sign, prefix and the choice of the base |
| `GmpRead.SetStr` | src/ox_toolkit/gmp_fake.c:151-207 | reads the number modulo the limbs the target has; it stays inside text and limbs exactly when the text goes on after the prefix and either no digit is there or the reserved limbs cover those in use; without a digit fewer limbs than the count says may be left, all zero |
| `GmpText.TextReads` | src/ox_toolkit/gmp_fake.c:151-207 | for blanks, a sign or none, a prefix 0x or 0X where the base allows one, digits with letters of either case, and then the end or a character that is no digit: the sign and, modulo the limbs of the target, the number those digits show; in bounds if and only if these limbs are at most those the characters reserve |
| `GmpText.AnyNumberReads` | src/ox_toolkit/gmp_fake.c:151-207 | so every number the target holds is read from its digits, any of their letters as capitals, behind any such blanks, sign and prefix |
| `GmpText.CapitalExample` | src/ox_toolkit/gmp_fake.c:184-187 | 0x1F is 31 |
| `GmpText.OctalExample` | src/ox_toolkit/gmp_fake.c:162-177 | -017 is -15 |
| `GmpText.PrintExamples` | src/ox_toolkit/gmp_fake.c:98-143 | the texts printed for -255, 8 and 0 |
| `GmpRead.PrintedReadsBackIff` | src/ox_toolkit/gmp_fake.c:151-207 | the printed text, read with its base or with base 0 into a target of n limbs, gives sign and value of every number n limbs hold; the reader stays in bounds if and only if n is at most the limbs reserved for the number of digits printed |
| `GmpRead.PrintedReadsBack` | src/ox_toolkit/gmp_fake.c:151-207 | so every number that uses all its limbs is read back in bounds |
| `GmpRead.PaddedOverruns` | src/ox_toolkit/gmp_fake.c:178-181 | and every number of fewer than eight digits held in two limbs or more runs past the one limb reserved |
| `GmpRead.PaddedZeroOverruns` | src/ox_toolkit/gmp_fake.c:178-181 | zero, one digit, among them |
| `DoubleHash.Hash0` | src/k097/dic.c:151-159 | the loop computes the hash function and stays inside the table |
| `DoubleHash.HashIsRemainder` | src/k097/dic.c:151-159 | the first slot is the remainder of the number whose digits to the base 128 are the characters of the key |
| `DoubleHash.StepIs` | src/k097/dic.c:161-164 | the step is between 1 and 8 and makes up the first character to a multiple of 8 |
| `DoubleHash.ProbeInjective` | src/k097/dic.c:37-44 | two probes less than a full turn apart never meet |
| `DoubleHash.ProbeReaches` | src/k097/dic.c:37-44 | a full turn visits every slot |
| `DoubleHash.ProbeReturns` | src/k097/dic.c:40-43 | the probe is back at its start after exactly 1223 steps |
| `DoubleHash.GapMeansAbsent` | src/k097/dic.c:38 | an empty slot on the way means the key is nowhere in the table |
| `DoubleHash.TurnMeansFull` | src/k097/dic.c:41-43 | a full turn without the key means the table is full and lacks it |
| `DoubleHash.InsertKeeps` | src/k097/dic.c:59-62 | filling the gap keeps every key reachable from its own hash |
| `DoubleHash.FullIff` | src/k097/dic.c:41-43 | the table is full exactly when its map holds 1223 keys |
| `ContextDic.Dictionary.Search` | src/k097/dic.c:37-44 | the probing loop finds the slot of the key, or the gap for it, or that the table is full |
| `ContextDic.Dictionary.Put` | src/k097/dic.c:23-64 | a put is a map update, refused for absolutely protected entries and reported for protected ones; the program ends exactly for the empty key and for a new key in a full table |
| `ContextDic.Dictionary.PutAttr` | src/k097/dic.c:116-146 | sets the attribute of one key, reporting a missing one, or that of all words whatever their protection |
| `ContextDic.Dictionary.Find0` | src/k097/dic.c:91-114 | find is look-up in the map |
| `ContextDic.LastPutWins` | src/k097/dic.c:23-64 | after any run of puts a key has the value of its last accepted put, or what it had before |
| `ContextDic.AbsolutelyProtectedStays` | src/k097/dic.c:51-53 | no run of puts changes an absolutely protected entry |
| `ContextDic.FindUser` | src/k097/dic.c:66-89 | look-up goes up the chain of contexts, which ends |
| `ContextDic.ResolveNearest` | src/k097/dic.c:66-89 | it yields the nearest definition if and only if no dictionary before it is full, and ends the program otherwise |
| `ContextDic.ResolveMissing` | src/k097/dic.c:66-89 | a key defined nowhere is reported missing if and only if no dictionary is full |
| `ClassLayout.InvNext` | src/k097/dic.c:351-406 | declaring a class, declaring a variable, closing and returning to the top keep the layout invariant |
| `ClassLayout.NoSharedSlot` | src/k097/dic.c:394-399 | no two variables of a class and the classes above it share a slot |
| `ClassLayout.SlotsFill` | src/k097/dic.c:379-389 | the slots up to a closed class are exactly 1, 2, and so on to its end |
| `ClassLayout.LayoutOfRuns` | src/k097/dic.c:351-452 | so it is after every run in which a class is extended only after its variables were closed |
| `ClassLayout.SlotsOfChain` | src/k097/dic.c:379-399 | the slots along the chain of any class, closed or not, are exactly 1, 2, and so on to its last one |
| `ClassLayout.ExtendingSharesIff` | src/k097/dic.c:363-381 | whatever class is extended: the new class's first variable gets the slot at the start of the count, which is shared with the classes above if and only if it lies between 1 and the last slot of the class extended; a closed class moved the start past its own slots, an open one left it where it was |
| `ClassLayout.ExtendingOpenIff` | src/k097/dic.c:363-381 | while a count is open, extending a class that has not recorded its size shares a slot if and only if the start of the count lies before the end of that class |
| `ClassLayout.ExtendingOpenShares` | src/k097/dic.c:363-378 | so it always does when the current class has variables: the first variables of both classes share a slot |
| `ClassTable.Classes.constructor` | src/k097/dic.c:290-319 | the initial dictionary with its three absolutely protected entries |
| `ClassTable.Classes.DeclareClass` | src/k097/dic.c:427-452 | the globals and tables take the step of the layout model |
| `ClassTable.Classes.ResetVariables` | src/k097/dic.c:363-381 | likewise for the start of the variable count |
| `ClassTable.Classes.PutVariable` | src/k097/dic.c:394-403 | likewise for one variable |
| `ClassTable.Classes.CloseVariables` | src/k097/dic.c:382-392 | likewise for the end of the variables |
| `ClassTable.Classes.ToPrimitiveClass` | src/k097/dic.c:454-458 | likewise for the return to the top class |
| `OxServ.NothingRunsBlocked` | src/ox_ntl/oxserv.h:26-35 | while input is blocked, at any depth, no signal runs the handler; one that came is remembered |
| `OxServ.SignalsMerge` | src/ox_ntl/oxserv.h:26-35 | over a whole blocked stretch the handler runs once at the end of the outermost block if any signal came, however many did, and otherwise not |
| `OxServ.NoneLeftWaiting` | src/ox_ntl/oxserv.h:30-35 | outside blocks no signal is left waiting |
| `OxServ.DrainStops` | src/ox_ntl/oxserv.c:631-641 | started between two messages, the handler consumes exactly up to the ball |
| `OxServ.SignalInCommandIff` | src/ox_ntl/oxserv.c:730-744 | however many bytes of the last command before the ball were read when the signal came, and whatever follows the ball, the handler stops right after the ball if and only if none or all of the command was read |
| `OxServ.SignalInsideMessageMisses` | src/ox_ntl/oxserv.c:730-744 | in particular between the header of the command and its code, for every code: input is not blocked there |
| `OxServ.SignalBeforeDataIff` | src/ox_ntl/oxserv.c:730-744 | a data message blocks input only after its header; a signal in between makes the handler take the first three words of the object for a header and an integer: for an object shorter than six words it stops right after the ball if and only if the object has exactly three, and for a longer one, as long as no round meets the tag of data, if and only if the object is rounds of three words |
| `OxServ.LeftOverIff` | src/ox_ntl/oxserv.c:631-641 | the same for any bytes in front of the ball |
| `OxServ.SignalBeforeShortDataMisses` | src/ox_ntl/oxserv.c:730-744 | in particular an object shorter than three words makes it miss the ball |
| `OxServ.BackInStep` | src/ox_ntl/oxserv.c:730-744 | messages still in front of the ball can bring the handler back into step: one string of four bytes does |
| `OxServ.OxServer.ResetConnection` | src/ox_ntl/oxserv.c:612-645 | blocked, the handler only sets the flag; unblocked, it sends the ball, empties the stack and continues after the client's ball |
| `OxServ.OxServer.UnblockInput` | src/ox_ntl/oxserv.h:30-35 | the end of the outermost block runs a waiting handler, an inner one does not |
| `OxServ.OxServer.ReceiveData` | src/ox_ntl/oxserv.c:731-738 | without a signal the object is pushed; with any number of them it is not, the handler runs once after the object is complete, and the stack is empty |

## Left out

- `OmDocument.DocumentReads`: spaces around the equals sign of an attribute, and inside the brackets of a tag next to its name, which the reader also skips, are not among the layouts.
- Sockets, process start, passwords, file reading and saving, printing of progress, memory exhaustion and byte sizes of allocations: operating-system plumbing.
- `InvFF.Inv`: entries are taken in [0, p) and (p-1)^2 < 2^63; larger moduli overflow in the program.
- `GaussElim.GaussElimFF`: the printed report and the stored files are not modelled; the full-rank shortcut is part of `RankCheck.Check`, the optional self-check of `SelfCheck.CheckedElimination`.
- Characteristic 0, where there is no division, and the copying division `divc_poly`, which no modelled function needs.
- `ReduceD.ReduceD`: freeing a node is modelled as its membership in the set of freed nodes; zero coefficients in the inputs are excluded, since `mul_ff` is wrong on them.
- The parser of linear polynomials: rows enter as lists.
- The numbering of variables is taken as integers without the width of C's int.
- Liveness of the reset protocol: the signal is unmasked before the server waits, so only safety is claimed.
- Reset handlers that send a ball without draining to the client's: the protocol results are about the draining servers.
- Engine calls are arbitrary replies, or arbitrary changes that go through the modelled routines.
- `CmoRoundTrip.RoundTrip`: big floats, whose transfer depends on the internals of another library, are outside the model; a string pointer that is null is not distinguished from the empty string.
- `OxReceive.ReceiveMpz`: the top half limb that the program leaves unwritten for an odd word count is taken as zero, and a host with 64-bit limbs as little-endian.
- `OxReceive.ReceiveMonomial32`: the exponent array is taken to have the length received, though the program calls the constructor without a size.
- `OxReceive.ReceiveCmo`: a negative string length, where C's behaviour is undefined, has no specified outcome; the casts of the program to particular kinds of objects are not checked, as in the program; hooks before and after sending are not set.
- Reads and writes of the operating system are complete, except that a string may arrive in pieces.
- `Dump.Display`: the hexadecimal printing of the buffer.
- `GmpRead.SetStr`: outside the stated bounds the outcome is only reported, since C's behaviour is undefined there.
- `GmpFake.GetStr`: the caller's own buffer is not modelled; the text is returned.
- `ContextDic.Dictionary.Put`: the non-strict mode, a global switch that is on from the start, is not modelled.
- `DoubleHash.Hash0`: keys consist of characters that C sees as non-negative.
- `ClassTable.Classes.DeclareClass`: contexts are referred to by their order of creation instead of by pointer; methods put into class dictionaries and the stack of contexts are left out.
- `CmoList.List.Append`: cells hold the identity of an object; the codec works on sequences of objects instead.
- `MergePoly.MergePoly`: the copying sum `add_poly`, which shares the tail of its argument, the product of polynomials and their parser.
- `OmNormal.PrintedIsRead`: polynomials in one variable with no terms, for which the printer prints nothing, a polynomial in one variable outside a recursive polynomial, which it rejects, and names the reader rejects are outside `Printable`.
- `OmLexer.Lex`: tags turn only ASCII letters to upper case.
- `OmText.SymbolAttributeWords`: the tokenizer belongs to the Java library and is modelled by its documented behaviour.
- `OmReader.Reader.ReadWhole`: every exception of the program is one failure; the characters of a stream are its bytes; the text added to an error message is not read.
- The many small stacks of the servers.
