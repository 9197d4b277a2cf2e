# Algebraic sum-of-products covers (ym-bfo), modelled in Dafny

This project models the core of the ym-bfo library: a manager that stores
sums of products (covers) as bit-packed word buffers, together with the
operations that build, combine and divide them.

**Encoding.** A cube is a sequence of 64-bit words. Variable v takes two
bits in word v / 32: 00 means the variable is absent, 01 is the negative
literal, 10 the positive one, and 11 is a conflict that no well-formed cube
holds. A cover of n cubes sits in a buffer at words c * nb .. c * nb + nb - 1
for cube c. A cover is kept in strictly descending order of cube_compare,
which reads each cube word by word as unsigned numbers.

**Modules.** They follow the program's layers:

- `CubeBits`, `CubeView`, `CubeAlgebra`: the encoding, buffer views, and
  the word-parallel cube operations with their field-by-field meaning.
- `GenTable`: utils/gen_table.py.
- `AlgCount`: the `_count` table it generates, and the byte-wise literal
  count built on it.
- `AlgLiterals`: AlgLiteral, packed as 2 * varid + inv. BfoLiteral has the
  same body member by member and is the same type.
- `CubeBuffer`, `CubeOrder`: copying, comparing and merging cubes in
  buffers; sum and diff as merges.
- `LitOps`, `SopPrint`, `SopText`: literal reads and writes, set_literal,
  print and parse, and the round trip between them.
- `CubeOps`, `CoverProduct`, `CoverDivision`, `CubeSort`: the cube and
  cover operations, and the sort.
- `AlgMgrNew`: the manager of c++-srcs/AlgMgr.cc as a class. It owns the
  variable names and the scratch buffer.
- `AlgCubes`, `AlgCovers`: the objects of include/ym/AlgCube.h,
  AlgLitSet.h and AlgCover.h. Each owns a body and passes it to the
  manager.
- `AlgMgrOld`: the older manager of src/AlgMgr.cc, where it differs from
  the newer one.
- `AlgKernel`: the kernel and co-kernel extraction of src/AlgKernelMgr.cc.

**How operations are proved.** Each manager operation is an imperative
method over arrays. It is proved to leave in its destination the value
that a function of the reference modules computes from the old inputs.
Lemmas then state what those functions mean:

- merge and difference give exactly the cubes of both covers, or of the
  first without the second, in descending order;
- the product holds the pairs without opposed literals;
- division is sound and complete with respect to the algebraic quotient;
- parse(print(cover)) returns the cover's literal lists;
- the sort leaves a descending permutation;
- every kernel that find_kernels records, multiplied by each of its
  co-kernels, is a sub-cover of the input.

**Findings.** Where the code does something other than what it evidently
intends, the member named "as written" models the code. A lemma beside it
exhibits the input that shows the difference. The rest of the model uses
the corrected member.

## Model

| member | source | states |
|---|---|---|
| GenTable.Classify | utils/gen_table.py:14-22 | count(pat) is at most 4, the number of fields of a byte |
| GenTable.ConflictGivesZero | utils/gen_table.py:20-21 | a field holding 11 anywhere in the byte makes count 0, whatever the other fields hold |
| GenTable.NoConflictCountsLiterals | utils/gen_table.py:17-19 | without a field holding 11, count is the number of fields holding 01 or 10 |
| GenTable.ConflictBelowExists | utils/gen_table.py:16-21 | the early-return condition met by field i < k is the existence of a conflict field below k |
| GenTable.Count | utils/gen_table.py:14-22 | the loop with its early return computes Classify(pat) for every byte |
| GenTable.Decimal | utils/gen_table.py:32 | the decimal text of a number is never empty |
| GenTable.RowValues | utils/gen_table.py:29-31 | line y carries sixteen values, each at most 4 |
| GenTable.GenerateTable | utils/gen_table.py:25-35 | sixteen lines are produced and line y is exactly the text the nested loops build for y |
| GenTable.EntriesStep | utils/gen_table.py:32-33 | one turn of the inner loop appends separator, space and the right-aligned value of entry x |
| GenTable.EntriesLayout | utils/gen_table.py:28-33 | entry x sits at characters 4x-1 .. 4x+2, with a comma before every entry but the first |
| GenTable.LineLayout | utils/gen_table.py:26-34 | every line is 66 characters: two spaces, sixteen width-2 entries separated by commas, a trailing comma |
| GenTable.DecodeLineOf | utils/gen_table.py:32 | reading the sixteen values back from a line gives the values it was made from |
| GenTable.DecodeGeneratedLine | utils/gen_table.py:26-34 | line y lists count(16y + x) for x = 0 .. 15 in increasing x |
| AlgCount.CountOf | c++-srcs/AlgMgr.cc:82-107 | the table entry for byte pat is count(pat) of the generator script, at most 4 |
| AlgCount.TableIsGenerated | c++-srcs/AlgMgr.cc:87-102 | entry x of row y of the written table is count(16y + x), for all 256 entries |
| AlgCount.ClassifyFormula | c++-srcs/AlgMgr.cc:87-102 | count of 16y + x depends only on the two fields of x and the two of y |
| AlgCount.WordCountFields | c++-srcs/AlgMgr.cc:113-141 | the byte-by-byte table lookup of literal_num on a conflict-free word counts its literal fields |
| AlgCount.ByteConflict | c++-srcs/AlgMgr.cc:121-138 | a byte holding a conflict field contributes 0 to literal_num |
| AlgCount.ByteLiterals | c++-srcs/AlgMgr.cc:121-138 | a conflict-free byte contributes exactly its literal fields |
| AlgLiterals.Undef | include/ym/AlgLiteral.h:216-220 | the default literal has body 0xfffffffe: variable 0x7fffffff, positive |
| AlgLiterals.Make | include/ym/AlgLiteral.h:207-228 | set(varid, inv) yields variable varid mod 2^31 (the shift drops the top bit) with polarity inv |
| AlgLiterals.MakeRoundTrip | include/ym/AlgLiteral.h:246-267 | a literal is rebuilt from its varid() and is_negative() |
| AlgLiterals.MakeVarId | include/ym/AlgLiteral.h:207-213 | a variable below 2^31 survives the packing |
| AlgLiterals.MakeWraps | include/ym/AlgLiteral.h:207-213 | variable 2^31 packs as variable 0 and 2^31 + 3 as variable 3 |
| AlgLiterals.Index2Literal | include/ym/AlgLiteral.h:238-243 | index2literal(i) has index i |
| AlgLiterals.Index2LiteralRoundTrip | include/ym/AlgLiteral.h:373-378 | index2literal(index()) gives back the literal |
| AlgLiterals.Flip | include/ym/AlgLiteral.h:270-275 | operator~ keeps the variable and inverts the polarity |
| AlgLiterals.FlipInvolution | include/ym/AlgLiteral.h:270-275 | operator~ applied twice is the identity and never fixes a literal |
| AlgLiterals.MakePositive | include/ym/AlgLiteral.h:278-283 | make_positive keeps the variable and is positive |
| AlgLiterals.MakeNegative | include/ym/AlgLiteral.h:286-291 | make_negative keeps the variable and is negative |
| AlgLiterals.MakePolarityIdempotent | include/ym/AlgLiteral.h:278-291 | make_positive and make_negative are idempotent and make_positive fixes a positive literal |
| AlgLiterals.Hash | include/ym/AlgLiteral.h:365-370 | the hash of a literal is its index |
| AlgLiterals.Compare | include/ym/AlgLiteral.h:298-310 | compare is -1, 1 or 0 exactly when the index is smaller, larger or the literals are equal |
| AlgLiterals.CompareOrder | include/ym/AlgLiteral.h:298-362 | == is body equality, compare is antisymmetric and < is transitive |
| AlgLiterals.RelationsAgree | include/ym/AlgLiteral.h:338-362 | >, <= and >= agree with compare |
| CubeBits.ShiftNum | include/ym/AlgMgr.h:717-723 | the shift of a variable is even, at most 62, and 62 exactly for the first variable of a word |
| CubeBits.ShiftIsShiftNum | include/ym/AlgMgr.h:717-723 | the shift applied to the 64-bit word is the _shift_num value |
| CubeBits.CubeSize | include/ym/AlgMgr.h:726-731 | _cube_size is the least number of 32-variable words that holds every variable |
| CubeBits.BlockInCube | include/ym/AlgMgr.h:708-713 | the word _block_pos gives for a variable of the manager lies inside the cube |
| CubeBits.VarFieldIsField | include/ym/AlgMgr.h:573-584 | literal() reads field 31 - v mod 32 of word v / 32 |
| CubeBits.PolMaskField | c++-srcs/AlgMgr.cc:1042-1053 | the pattern add_lit ORs in reads back as the literal's polarity in the field of v and touches no other field |
| CubeBits.ConflictFreeIff | c++-srcs/AlgMgr.cc:881-904 | the mask test of cube_check_product finds exactly the fields holding 11 |
| CubeBits.WordCoversIff | c++-srcs/AlgMgr.cc:908-925 | the containment test on a word holds exactly when every literal of the second word is in the first |
| CubeBits.WordIntersectIff | c++-srcs/AlgMgr.cc:929-946 | the intersection test on a word holds exactly when some field carries a common bit |
| CubeAlgebra.WordProductOk | c++-srcs/AlgMgr.cc:881-904 | the product test on one word passes exactly when no variable appears with opposite polarities |
| CubeAlgebra.ProductOkIff | c++-srcs/AlgMgr.cc:881-904 | cube_check_product on well-formed cubes holds exactly when no word holds an opposed pair |
| CubeAlgebra.StoredPrefix | c++-srcs/AlgMgr.cc:979-989 | what cube_product leaves in its destination cube holds the OR words below the first clashing word and the old words from it on |
| CubeAlgebra.StoredProductOk | c++-srcs/AlgMgr.cc:979-989 | a product without clash leaves the whole OR cube, whatever the destination held |
| CubeAlgebra.ProductWellFormed | c++-srcs/AlgMgr.cc:965-992 | a product the test lets through is a well-formed cube |
| CubeAlgebra.CoversIff | c++-srcs/AlgMgr.cc:908-925 | cube_check_containment holds exactly when every literal of the second cube is in the first |
| CubeAlgebra.CoversTrans | c++-srcs/AlgMgr.cc:908-925 | containment is transitive |
| CubeAlgebra.QuotTimesDivisor | c++-srcs/AlgMgr.cc:996-1018 | the quotient cube_division writes, multiplied back by the divisor, gives the dividend |
| CubeAlgebra.QuotDisjoint | c++-srcs/AlgMgr.cc:996-1018 | the quotient shares no literal with the divisor |
| CubeAlgebra.IntersectsIff | c++-srcs/AlgMgr.cc:929-946 | check_intersect holds exactly when the cubes share a literal, and is symmetric |
| CubeAlgebra.AndCubeCovered | c++-srcs/AlgMgr.cc:584-609 | the word-wise AND common_cube keeps is contained in both operands |
| CubeAlgebra.AndCubeGreatest | c++-srcs/AlgMgr.cc:584-609 | any cube contained in both operands is contained in their AND |
| CubeAlgebra.LitBitIff | c++-srcs/AlgMgr.cc:145-163 | the test (w & pat) == pat of literal_num(lit) holds exactly when the field of v is the literal's polarity |
| CubeAlgebra.LitFieldIff | c++-srcs/AlgMgr.cc:554-580 | the exact-field test of division(lit) holds exactly when the field of v is the literal's polarity |
| CubeAlgebra.LitConflictIff | c++-srcs/AlgMgr.cc:449-484 | setting the literal's bit makes both bits of the field 1 exactly when the field held the opposite literal |
| CubeBuffer.Copy | c++-srcs/AlgMgr.cc:613-628 | copy writes the words of cubes spos .. spos + n - 1 of the source at cube dpos of the destination and changes no other word |
| CubeBuffer.CubeCopy | include/ym/AlgMgr.h:603-612 | cube_copy writes exactly one cube |
| CubeBuffer.CubeAppend | include/ym/AlgMgr.h:603-612 | a cube copied just past the n cubes written extends them by that cube and leaves the words above alone |
| CubeBuffer.KeepCube | c++-srcs/AlgMgr.cc:396-399 | the cube kept by diff is appended even when the source is the destination, since the write cursor never passes the read cursor |
| CubeBuffer.CopyTail | c++-srcs/AlgMgr.cc:367-376 | the closing loops of sum and diff append the remaining cubes of one operand after those already written |
| CubeBuffer.CubeCompareAt | c++-srcs/AlgMgr.cc:855-877 | cube_compare is the lexicographic unsigned comparison of the two cubes' words |
| CubeBuffer.Compare | c++-srcs/AlgMgr.cc:802-826 | compare is CoverCompare of the two covers: cube by cube, then the cover with cubes left over is greater |
| CubeBuffer.MergeCovers | c++-srcs/AlgMgr.cc:347-378 | the three loops of sum write the order merge of the two covers |
| CubeBuffer.MergeOne | c++-srcs/AlgMgr.cc:351-365 | one round of the merge writes the greater cube, or an equal pair once, and keeps the merge invariant |
| CubeBuffer.MergeLoop | c++-srcs/AlgMgr.cc:350-366 | the first loop of sum ends with one operand used up, having written a prefix of the merge |
| CubeBuffer.DiffOne | c++-srcs/AlgMgr.cc:395-407 | one round of diff keeps a greater cube of the first cover, drops an equal pair, passes a smaller cube of the second |
| CubeBuffer.DiffLoop | c++-srcs/AlgMgr.cc:394-408 | the first loop of diff ends with one operand used up, the unread cubes of the first cover untouched |
| CubeOrder.WordOrder | c++-srcs/AlgMgr.cc:866-873 | the word comparison is -1, 0 or 1 and 0 exactly on equal words |
| CubeOrder.CubeCompare | c++-srcs/AlgMgr.cc:855-877 | the cube comparison is -1, 0 or 1 |
| CubeOrder.CompareZeroIff | c++-srcs/AlgMgr.cc:855-877 | cube_compare is 0 exactly on equal cubes |
| CubeOrder.CompareAntisym | c++-srcs/AlgMgr.cc:855-877 | swapping the cubes negates cube_compare |
| CubeOrder.CompareTrans | c++-srcs/AlgMgr.cc:855-877 | cube_compare is transitive, so it is a strict total order |
| CubeOrder.DescHead | include/ym/AlgMgr.h:589-596 | the head of a cover sorted in descending order lies above all of its tail |
| CubeOrder.MergeAdvance | c++-srcs/AlgMgr.cc:350-366 | each of the three branches of the merge loop keeps written-so-far followed by the merge of the rest equal to the whole merge |
| CubeOrder.MergeRest | c++-srcs/AlgMgr.cc:367-376 | once one cover is used up the merge is the rest of the other |
| CubeOrder.MergeMembers | c++-srcs/AlgMgr.cc:334-379 | sum holds exactly the cubes of both operands |
| CubeOrder.MergeDesc | c++-srcs/AlgMgr.cc:334-379 | the sum of two descending covers is descending, so without duplicates |
| CubeOrder.MergeLength | c++-srcs/AlgMgr.cc:334-379 | the sum has at least as many cubes as each operand and at most their total |
| CubeOrder.MergeUniform | c++-srcs/AlgMgr.cc:334-379 | the sum keeps the cube width |
| CubeOrder.DiffAdvance | c++-srcs/AlgMgr.cc:394-408 | each branch of the difference loop keeps its invariant |
| CubeOrder.DiffRest | c++-srcs/AlgMgr.cc:409-413 | once the second cover is used up the difference is the rest of the first |
| CubeOrder.DiffMembers | c++-srcs/AlgMgr.cc:383-416 | on descending covers diff holds exactly the cubes of the first cover that the second lacks |
| CubeOrder.DiffSubset | c++-srcs/AlgMgr.cc:383-416 | only cubes of the first cover reach the difference |
| CubeOrder.DiffDesc | c++-srcs/AlgMgr.cc:383-416 | the difference keeps the descending order of the first cover |
| CubeOrder.CoverCompare | c++-srcs/AlgMgr.cc:802-826 | the cover comparison is -1, 0 or 1 |
| CubeOrder.CoverCompareZeroIff | c++-srcs/AlgMgr.cc:802-826 | compare is 0 exactly on equal covers |
| CubeOrder.CoverCompareAntisym | c++-srcs/AlgMgr.cc:802-826 | swapping the covers negates compare |
| CubeOrder.CoverCompareTrans | c++-srcs/AlgMgr.cc:802-826 | compare is transitive |
| LitOps.HasBitField | c++-srcs/AlgMgr.cc:1022-1038 | the mask test of is_in reads the literal's polarity bit in the field of its variable |
| LitOps.IsIn | c++-srcs/AlgMgr.cc:1022-1038 | is_in is true exactly when the literal's bit is set in its word of the set |
| LitOps.AddLit | c++-srcs/AlgMgr.cc:1042-1053 | add_lit ORs the literal's pattern into its word and changes no other word |
| LitOps.AddLitMembers | c++-srcs/AlgMgr.cc:1042-1053 | after add_lit a literal is in the cube exactly when it was before or is the one added |
| LitOps.Literal | include/ym/AlgMgr.h:573-584 | literal() of a well-formed cube is one of the three polarity codes, never 11 |
| LitOps.LiteralIffIn | include/ym/AlgMgr.h:573-584 | literal() of variable v is the polarity of l exactly when l is in the cube |
| LitOps.CountLitBound | c++-srcs/AlgMgr.cc:145-163 | the literal count is at most the cube count, equal to it exactly when every cube holds the literal, 0 exactly when none does |
| LitOps.CountLitAppend | c++-srcs/AlgMgr.cc:145-163 | the literal count of two covers together is the sum of their counts |
| LitOps.LiteralNumOf | c++-srcs/AlgMgr.cc:145-163 | literal_num(nc, bv, lit) is the number of cubes that hold lit |
| LitOps.WordsCountLits | c++-srcs/AlgMgr.cc:113-141 | on conflict-free words the eight table lookups per word count exactly the literal fields, at most 32 per word |
| LitOps.LiteralNum | c++-srcs/AlgMgr.cc:113-141 | literal_num(nc, bv) is the sum of the table lookups over the nc * nb words |
| LitOps.WordHash | c++-srcs/AlgMgr.cc:844-848 | the four 16-bit chunks of a word XORed fit in 16 bits |
| LitOps.HashAppend | c++-srcs/AlgMgr.cc:830-851 | the hash of two runs of words is the XOR of their hashes |
| LitOps.HashSwap | c++-srcs/AlgMgr.cc:835-837 | the hash does not depend on the order of the cubes |
| LitOps.CoverHash | c++-srcs/AlgMgr.cc:830-851 | hash(nc, bv) is the XOR of the word hashes over the cover and fits in 16 bits |
| LitOps.Runs | c++-srcs/AlgMgr.cc:294-304 | the cube count of parse never exceeds the number of entries |
| LitOps.SetLiteral | c++-srcs/AlgMgr.cc:310-330 | set_literal as written ORs each literal into the cube its cursor names, the cursor moving one cube on every separator |
| LitOps.SetLiteralRuns | c++-srcs/AlgMgr.cc:310-330 | the corrected set_literal moves the cursor only when a literal follows a separator that ended a run, as parse counts cubes |
| LitOps.CursorStep | c++-srcs/AlgMgr.cc:318-321 | one turn of the as-written cursor moves on exactly at a separator |
| LitOps.RunCursorsInBody | c++-srcs/AlgMgr.cc:294-304 | with the corrected cursor every literal lands in one of the cubes parse counted |
| LitOps.RunCursorsFit | c++-srcs/AlgMgr.cc:294-304 | a body of the parsed cube count holds the corrected placement |
| LitOps.CursorsAgree | c++-srcs/AlgMgr.cc:310-330 | on a list with exactly one separator between cubes the two cursors place every literal alike |
| LitOps.LeadingSeparatorOverruns | c++-srcs/AlgMgr.cc:318-321 | for "+a" parse counts one cube, the as-written cursor puts a one cube past it, the corrected one into it |
| LitOps.DoubleSeparatorOverruns | c++-srcs/AlgMgr.cc:318-321 | for "a++b" parse counts two cubes, the as-written cursor leaves the second empty and puts b past the body |
| LitOps.PlaceMembers | c++-srcs/AlgMgr.cc:318-329 | after the placement a literal is in a cube exactly when it was before or some entry put it there |
| LitOps.AndFold | c++-srcs/AlgMgr.cc:584-609 | the common cube of a cover has nb words |
| LitOps.FoldCovered | c++-srcs/AlgMgr.cc:584-609 | each cube of the cover holds every literal of the common cube |
| LitOps.FoldGreatest | c++-srcs/AlgMgr.cc:584-609 | any cube contained in every cube of the cover is contained in the common cube |
| LitOps.FoldZero | c++-srcs/AlgMgr.cc:603-606 | once the running AND is empty it stays empty, so the early break of common_cube is sound |
| LitOps.OrAllZero | c++-srcs/AlgMgr.cc:598-603 | the OR of the words that tmp collects is zero exactly when every word of the running AND is |
| LitOps.CommonCube | c++-srcs/AlgMgr.cc:584-609 | common_cube leaves in cube 0 the AND of all nc1 cubes (of cube 0 alone when nc1 is 0 or 1) and changes nothing else |
| LitOps.CommonOne | c++-srcs/AlgMgr.cc:597-608 | one turn of the outer loop ANDs cube pos in, and an empty result already is the AND of all cubes |
| LitOps.AndInto | c++-srcs/AlgMgr.cc:598-602 | the inner loop ANDs one cube into cube 0 and tmp is the OR of the result |
| SopPrint.FieldOfAt | include/ym/AlgMgr.h:573-584 | the field print reads for variable j of cube c is field 31 - j mod 32 of word j / 32 of that cube |
| SopPrint.CubeOutStep | c++-srcs/AlgMgr.cc:1069-1079 | one step of the inner loop writes the name, the name and a quote, or nothing, and the separator becomes a space after a literal |
| SopPrint.PrintCube | c++-srcs/AlgMgr.cc:1068-1079 | the inner loop writes the literals of one cube in variable order |
| SopPrint.PrintNext | c++-srcs/AlgMgr.cc:1065-1080 | one pass of the outer loop writes the separator and one cube's text |
| SopPrint.PrintCubes | c++-srcs/AlgMgr.cc:1057-1081 | print writes the text of cubes start .. end - 1 |
| SopText.ValidRow | c++-srcs/AlgMgr.cc:200-217 | row y of the table is true exactly at letters, digits and underscore among codes 16y .. 16y + 15 |
| SopText.IsValidChar | c++-srcs/AlgMgr.cc:193-219 | is_validchar holds exactly for letters, digits and underscore |
| SopText.NameLen | c++-srcs/AlgMgr.cc:263-270 | state 1 reads the longest run of name characters |
| SopText.CubeLitsMembers | c++-srcs/AlgMgr.cc:1069-1079 | print lists a literal exactly when its variable is below variable_num and its field holds its polarity |
| SopText.CubeLitsSorted | c++-srcs/AlgMgr.cc:1069 | the literals of a cube are printed in strictly increasing variable order |
| SopText.ScanEndAt | c++-srcs/AlgMgr.cc:238-243 | state 0 at the end of the string or at NUL stops reading |
| SopText.ScanSpaceAt | c++-srcs/AlgMgr.cc:244-248 | state 0 skips whitespace |
| SopText.ScanPlusAt | c++-srcs/AlgMgr.cc:254-259 | state 0 at '+' appends a separator |
| SopText.ScanBadAt | c++-srcs/AlgMgr.cc:260-261 | any other character in state 0 is an error |
| SopText.ScanNameAt | c++-srcs/AlgMgr.cc:263-287 | an unknown name is an error, a quote makes the literal negative and is consumed, otherwise the literal is positive |
| SopText.ScanLit | c++-srcs/AlgMgr.cc:263-287 | the text print writes for one literal is read back as that literal |
| SopText.ScanCube | c++-srcs/AlgMgr.cc:238-287 | a cube's text is read back as its literals |
| SopText.ScanCover | c++-srcs/AlgMgr.cc:225-306 | the text of several cubes is read back as their literals with one separator between each two |
| SopText.FlattenRuns | c++-srcs/AlgMgr.cc:293-305 | the count parse returns for printed cubes is the number of non-empty cubes |
| SopText.BufferTextJoin | c++-srcs/AlgMgr.cc:1057-1081 | print's text is the cube texts joined by " + " |
| SopText.TextRoundTrip | c++-srcs/AlgMgr.cc:225-306 | parsing what print writes gives the cubes' literal lists with separators, and the count of non-empty cubes |
| CubeOps.CubeCheckProduct | c++-srcs/AlgMgr.cc:881-904 | cube_check_product is true exactly when the word-wise union of the two cubes has no field holding 11 |
| CubeOps.CubeCheckContainment | c++-srcs/AlgMgr.cc:908-925 | cube_check_containment is true exactly when every bit of the second cube is set in the first |
| CubeOps.CubeCheckIntersect | c++-srcs/AlgMgr.cc:929-946 | cube_check_intersect is true exactly when the cubes have a common bit |
| CubeOps.CubeClear | c++-srcs/AlgMgr.cc:950-961 | cube_clear makes the cube the empty cube and changes no other word |
| CubeOps.CubeProduct | c++-srcs/AlgMgr.cc:965-992 | cube_product succeeds exactly when the product exists, then writes the OR cube; on failure the destination cube holds the OR words before the first clashing word and its old words from there on; words outside it never change |
| CubeOps.ProductWords | c++-srcs/AlgMgr.cc:979-990 | the word loop of cube_product stops at the first word with an opposed pair, having stored the OR of every word before it (StoredProduct) |
| CubeOps.CubeDivision | c++-srcs/AlgMgr.cc:996-1018 | cube_division succeeds exactly when the dividend contains the divisor, then writes the dividend without the divisor's bits |
| CubeOps.DivisionWords | c++-srcs/AlgMgr.cc:1010-1016 | the word loop of cube_division stops at the first word the divisor is not contained in |
| CoverProduct.ProductsLength | c++-srcs/AlgMgr.cc:433-442 | the product has at most nc1 * nc2 cubes, one per pair |
| CoverProduct.RowMembers | c++-srcs/AlgMgr.cc:437-441 | the cubes one row of the inner loop writes are the products of that cube with the cubes of the second cover it multiplies |
| CoverProduct.ProductsMembers | c++-srcs/AlgMgr.cc:420-445 | the cubes of the product are exactly the products of the pairs without opposed literals |
| CoverProduct.ProductsWellFormed | c++-srcs/AlgMgr.cc:420-445 | every cube of the product has the operands' size and no conflict field |
| CoverProduct.ProductsUnit | include/ym/AlgCover.h:424-433 | the cover of the one empty cube is the unit of the product |
| CoverProduct.ProductStep | c++-srcs/AlgMgr.cc:438-440 | one call of cube_product appends the product exactly when it exists |
| CoverProduct.ProductRow | c++-srcs/AlgMgr.cc:437-441 | the inner loop appends the row products of one cube of the first cover |
| CoverProduct.LoopsNext | c++-srcs/AlgMgr.cc:436-442 | one pass of the outer loop appends the products of one more cube of the first cover |
| CoverProduct.ProductLoops | c++-srcs/AlgMgr.cc:435-444 | the loops of product write the row-order products of the two covers |
| CoverProduct.LitProducts | c++-srcs/AlgMgr.cc:449-484 | the intended result of product(lit) never has more cubes than the operand |
| CoverProduct.ClashIff | c++-srcs/AlgMgr.cc:469-473 | the clash test of product(lit) is the product test with the literal |
| CoverProduct.LitCubeProduct | c++-srcs/AlgMgr.cc:469-477 | the clash test is the product test with the cube of the literal, and adding the literal is that product |
| CoverProduct.LitProductsIsProduct | include/ym/AlgCover.h:814-824 | product(cover, lit) is the product with the one-cube cover of the literal |
| CoverProduct.ProductLit | c++-srcs/AlgMgr.cc:449-484 | the corrected product(lit), each cube copied whole, leaves LitProducts, also in place |
| CoverProduct.ProductLitStep | c++-srcs/AlgMgr.cc:467-481 | one pass of the corrected loop appends the cube with the literal unless it clashes |
| CoverProduct.WrittenProducts | c++-srcs/AlgMgr.cc:474-478 | product(lit) as written keeps at most as many cubes as the operand |
| CoverProduct.WrittenCopy | c++-srcs/AlgMgr.cc:475-478 | the copy loop as written stores word rbase into word wbase nb times, then the literal's word |
| CoverProduct.WrittenLitStep | c++-srcs/AlgMgr.cc:467-481 | one pass as written leaves the buffer alone on a clash and otherwise writes WrittenCube |
| CoverProduct.ProductLitAsWritten | c++-srcs/AlgMgr.cc:449-484 | product(lit) exactly as written, also in place, leaves WrittenProducts of the old covers |
| CoverProduct.WrittenProductsOneWord | c++-srcs/AlgMgr.cc:475-477 | with one word per cube the copy as written is what is meant |
| CoverProduct.ProductLitLosesWords | c++-srcs/AlgMgr.cc:475-477 | with two words per cube the copy as written loses word 1 of the product |
| CoverDivision.FirstCover | c++-srcs/AlgMgr.cc:506-511 | the inner loop of pass one stops at the first divisor cube the dividend cube contains, or runs through all of them |
| CoverDivision.FirstQuotIff | c++-srcs/AlgMgr.cc:505-512 | a dividend cube is marked exactly when some divisor cube divides it, and its quotient has its size |
| CoverDivision.EmittedMembers | c++-srcs/AlgMgr.cc:514-541 | pass two lists a quotient exactly when at least nc2 positions hold it |
| CoverDivision.EmittedDistinct | c++-srcs/AlgMgr.cc:532-540 | pass two never lists a quotient twice, since the later positions holding it are unmarked |
| CoverDivision.DivisionByEmpty | c++-srcs/AlgMgr.cc:505-512 | division by an empty cover finds nothing |
| CoverDivision.DivisionLength | include/ym/AlgCover.h:885-898 | the quotient of nc1 cubes by nc2 cubes has at most nc1 / nc2 cubes, the room operator/ reserves |
| CoverDivision.DivisionSound | c++-srcs/AlgMgr.cc:488-550 | on a dividend without repeated cubes every quotient cube, times every divisor cube, is a cube of the dividend and shares no literal with it |
| CoverDivision.DivisionTimesDivisor | c++-srcs/AlgMgr.cc:488-550 | every product of a quotient cube with a divisor cube is a cube of the dividend |
| CoverDivision.DivisionComplete | c++-srcs/AlgMgr.cc:488-550 | when no divisor cube contains an earlier one, every cube apart from them whose products with all of them lie in the dividend is in the quotient |
| CoverDivision.DivisionIff | c++-srcs/AlgMgr.cc:488-550 | for a dividend without repeats and such a divisor, the quotient holds exactly the cubes that divide the dividend |
| CoverDivision.SortedDivisorAdmitted | c++-srcs/AlgMgr.cc:505-511 | the sorted divisor a b + a, whose cubes contain one another, meets the precondition of DivisionComplete and DivisionIff |
| CoverDivision.QuotOne | c++-srcs/AlgMgr.cc:506-511 | the inner loop of pass one marks the position exactly when a divisor cube divides it and leaves the first quotient in the work buffer |
| CoverDivision.QuotPass | c++-srcs/AlgMgr.cc:504-512 | pass one records, for every position, its mark and first quotient |
| CoverDivision.ScanSame | c++-srcs/AlgMgr.cc:523-531 | the scan from a marked position counts the positions holding its quotient and lists the later ones |
| CoverDivision.Unmark | c++-srcs/AlgMgr.cc:536-539 | the listed positions are unmarked and no other mark changes |
| CoverDivision.EmitPass | c++-srcs/AlgMgr.cc:515-541 | pass two collects the work buffer positions of the emitted quotients, in position order |
| CoverDivision.CopyPass | c++-srcs/AlgMgr.cc:543-547 | pass three copies those cubes to the front of the destination in order |
| CoverDivision.DivisionLoops | c++-srcs/AlgMgr.cc:488-550 | division writes the reference quotient of the old covers at the front of the destination, which may be either operand |
| CoverDivision.DropLit | c++-srcs/AlgMgr.cc:572-573 | the cube division(lit) writes has the dividend's size |
| CoverDivision.LitQuotients | c++-srcs/AlgMgr.cc:554-580 | division(lit) keeps at most as many cubes as the operand |
| CoverDivision.LitQuotientsComplete | c++-srcs/AlgMgr.cc:570-576 | every cube holding the literal, with the literal removed, is in the result |
| CoverDivision.HoldsLitCovers | c++-srcs/AlgMgr.cc:571 | the exact-field test of division(lit) is containment of the literal's cube |
| CoverDivision.DropLitIsQuot | c++-srcs/AlgMgr.cc:572-573 | clearing the literal's field is the cube quotient by the literal's cube |
| CoverDivision.DropLitInjective | c++-srcs/AlgMgr.cc:572-573 | clearing the field forgets nothing of a cube holding the literal |
| CoverDivision.LitQuotientsIsDivision | include/ym/AlgCover.h:952-962 | on distinct well-formed cubes division(lit) is the general division by the one-cube cover of the literal |
| CoverDivision.DivLitStep | c++-srcs/AlgMgr.cc:570-576 | one pass keeps cube r without the literal exactly when it holds the literal |
| CoverDivision.DivisionLit | c++-srcs/AlgMgr.cc:554-580 | division(cover, lit), also in place, leaves LitQuotients of the old cover |
| CoverDivision.DivisionExample1 | c++-srcs/AlgMgr.cc:488-550 | (ab + ac + bc) / (b + c) is a |
| CoverDivision.DivisionExample2 | c++-srcs/AlgMgr.cc:488-550 | (ab + ac + bc) / (b + c') is empty |
| CoverDivision.DivisionExample3 | c++-srcs/AlgMgr.cc:488-550 | (ab + ac + bc) / (ab + bc) is the cover of the one empty cube |
| CubeSort.SwapSeqPerm | include/ym/AlgMgr.h:619-629 | exchanging two cubes keeps the multiset of cubes and their distinctness |
| CubeSort.Rotate3Perm | include/ym/AlgMgr.h:640-653 | rotating three cubes is two exchanges and keeps the multiset of cubes |
| CubeSort.Rotate4Perm | include/ym/AlgMgr.h:666-682 | rotating four cubes keeps the multiset of cubes |
| CubeSort.SwapCubes | include/ym/AlgMgr.h:619-629 | cube_swap through the scratch cube exchanges cubes p and q and changes nothing else in the buffer |
| CubeSort.RotateCubes3 | include/ym/AlgMgr.h:640-653 | cube_rotate3 moves q to p, r to q and the old p to r |
| CubeSort.RotateCubes4 | include/ym/AlgMgr.h:666-682 | cube_rotate4 moves q to p, r to q, s to r and the old p to s |
| CubeSort.TwoLeaves | c++-srcs/AlgMgr.cc:642-652 | the n == 2 case exchanges exactly when the first cube is below, which leaves the pair descending |
| CubeSort.ThreeLeaves | c++-srcs/AlgMgr.cc:653-706 | each of the six leaves of the n == 3 decision tree leaves the three cubes descending |
| CubeSort.FourLeavesLow | c++-srcs/AlgMgr.cc:722-736 | each leaf of the n == 4 tree taken when the first pair's head is below the second's leaves the four cubes descending |
| CubeSort.FourLeavesHigh | c++-srcs/AlgMgr.cc:737-749 | each leaf taken when the first pair's head is above the second's leaves the four cubes descending |
| CubeSort.PairSortedFacts | c++-srcs/AlgMgr.cc:713-720 | putting a pair in order keeps the cubes, orders the pair and leaves the rest alone |
| CubeSort.Sort3Cubes | c++-srcs/AlgMgr.cc:653-706 | the n == 3 case permutes the three cubes into strictly descending order |
| CubeSort.Sort4Cubes | c++-srcs/AlgMgr.cc:707-751 | the n == 4 case permutes the four cubes into strictly descending order |
| CubeSort.MergeDisjoint | c++-srcs/AlgMgr.cc:769-797 | merging two disjoint covers loses and adds no cube |
| CubeSort.DescJoin | c++-srcs/AlgMgr.cc:762-767 | two descending halves whose meeting cubes are in order join into a descending cover |
| CubeSort.SortedJoin | c++-srcs/AlgMgr.cc:765-767 | the early exit leaves a sorted permutation of the range |
| CubeSort.CopyGreater | c++-srcs/AlgMgr.cc:777-787 | one round of the merge loop copies the greater head to the write cursor |
| CubeSort.MergeHeads | c++-srcs/AlgMgr.cc:776-792 | the merge loop ends with one half used up, the written cubes followed by the merge of the rest being the whole merge |
| CubeSort.MergeTail | c++-srcs/AlgMgr.cc:793-795 | the closing loop appends what is left of the first half |
| CubeSort.MergeBack | c++-srcs/AlgMgr.cc:769-797 | the merge writes the merge of the two halves over the range and nothing outside it; the rest of the second half is already in place |
| CubeSort.MergeHalves | c++-srcs/AlgMgr.cc:769-797 | parking the first half in the scratch buffer and merging leaves the range a strictly descending permutation |
| AlgMgrNew.VarName | c++-srcs/AlgMgr.cc:20-32 | the name of an id is a non-empty string of letters a .. z whose last letter is id mod 26 |
| AlgMgrNew.VarNameValue | c++-srcs/AlgMgr.cc:20-32 | reading a generated name as a base-26 numeral gives back its id |
| AlgMgrNew.VarNameLead | c++-srcs/AlgMgr.cc:26-28 | a generated name starts with a only when it is "a" itself |
| AlgMgrNew.VarNameInjective | c++-srcs/AlgMgr.cc:20-32 | different ids get different names |
| AlgMgrNew.GrownLeast | c++-srcs/AlgMgr.cc:1098-1101 | the doubling loop stops at the least size times a power of 2 that reaches the request |
| AlgMgrNew.GeneratedAt | c++-srcs/AlgMgr.cc:50-54 | variable k of a manager built from a count is named by _varname(k) |
| AlgMgrNew.DefaultNameList | c++-srcs/AlgMgr.cc:43-57 | the constructor from a count builds the generated name list and the table from name to id |
| AlgMgrNew.NameMapOf | c++-srcs/AlgMgr.cc:60-71 | the constructor from a name list builds, with emplace, a table mapping each name to its first position |
| AlgMgrNew.NameIndexSnoc | c++-srcs/AlgMgr.cc:66-68 | emplace of a name already present keeps its first position |
| AlgMgrNew.DefaultNames | c++-srcs/AlgMgr.cc:50-54 | every generated name is a valid name and is read back as its own id |
| AlgMgrNew.IndexBounded | c++-srcs/AlgMgr.cc:277-286 | every id in the name table is below 2^31, so the literal built from it keeps its variable |
| AlgMgrNew.ReadName | c++-srcs/AlgMgr.cc:263-270 | state 1 reads the longest run of name characters from the current position |
| AlgMgrNew.CountCubes | c++-srcs/AlgMgr.cc:293-305 | the final loop of parse counts one cube per literal that follows a separator or the start |
| AlgMgrNew.AlgMgr.constructor | c++-srcs/AlgMgr.cc:43-57 | AlgMgr(variable_num) names its variables a, b, ..., z, ba, ... and its table reads each name back as its id |
| AlgMgrNew.AlgMgr.FromNames | c++-srcs/AlgMgr.cc:60-71 | AlgMgr(varname_list) keeps the given names, a repeated name mapping to its first id, and a 128-cube scratch buffer |
| AlgMgrNew.AlgMgr.VarNameOf | include/ym/AlgMgr.h:561-567 | varname(id) is a name the table knows |
| AlgMgrNew.AlgMgr.ResizeBuff | c++-srcs/AlgMgr.cc:1094-1107 | _resize_buff doubles the size until it holds the request and always takes a fresh zeroed buffer |
| AlgMgrNew.AlgMgr.Sum | c++-srcs/AlgMgr.cc:334-379 | sum leaves the order merge of the two old covers at the front of the destination, which may be the first operand |
| AlgMgrNew.AlgMgr.Diff | c++-srcs/AlgMgr.cc:383-416 | diff leaves the cubes of the first old cover that the second lacks, in order, even in place |
| AlgMgrNew.AlgMgr.Product | c++-srcs/AlgMgr.cc:420-445 | product leaves the row-order products of the old covers without opposed pairs, at most nc1 * nc2 cubes, the destination possibly the first operand |
| AlgMgrNew.AlgMgr.ProductLit | c++-srcs/AlgMgr.cc:449-484 | product(lit) exactly as written, also in place: WrittenProducts of the old covers |
| AlgMgrNew.AlgMgr.ProductLitIntended | c++-srcs/AlgMgr.cc:449-484 | product(lit) as intended: LitProducts of the old cover, also in place |
| AlgMgrNew.AlgMgr.Division | c++-srcs/AlgMgr.cc:488-550 | division leaves the reference quotient of the old covers, which DivisionIff characterises |
| AlgMgrNew.AlgMgr.DivisionLit | c++-srcs/AlgMgr.cc:554-580 | division(lit) leaves the cubes holding the literal with it removed, in order, also in place |
| AlgMgrNew.AlgMgr.Parse | c++-srcs/AlgMgr.cc:225-306 | parse gives the literal list of the text with a separator for each '+' and its cube count, or an empty list and 0 on an error |
| AlgMgrNew.AlgMgr.Print | c++-srcs/AlgMgr.cc:1057-1081 | print writes BufferText, which parse reads back (SopText.TextRoundTrip) |
| AlgMgrNew.AlgMgr.CubeSave | include/ym/AlgMgr.h:687-693 | _cube_save copies the cube into cube 0 of the scratch buffer |
| AlgMgrNew.AlgMgr.CubeRestore | include/ym/AlgMgr.h:698-704 | _cube_restore copies cube 0 of the scratch buffer into the cube |
| AlgMgrNew.AlgMgr.CubeSwap | include/ym/AlgMgr.h:619-629 | cube_swap exchanges the two cubes of one buffer |
| AlgMgrNew.AlgMgr.CubeRotate3 | include/ym/AlgMgr.h:640-653 | cube_rotate3 rotates three cubes of one buffer |
| AlgMgrNew.AlgMgr.CubeRotate4 | include/ym/AlgMgr.h:666-682 | cube_rotate4 rotates four cubes of one buffer |
| AlgMgrNew.AlgMgr.Sort2 | c++-srcs/AlgMgr.cc:642-652 | the n == 2 case leaves the two cubes a strictly descending permutation of themselves |
| AlgMgrNew.AlgMgr.Sort3 | c++-srcs/AlgMgr.cc:653-706 | the n == 3 case leaves the three cubes a strictly descending permutation of themselves |
| AlgMgrNew.AlgMgr.Sort4 | c++-srcs/AlgMgr.cc:707-751 | the n == 4 case leaves the four cubes a strictly descending permutation of themselves |
| AlgMgrNew.AlgMgr.SortRange | c++-srcs/AlgMgr.cc:632-798 | _sort leaves cubes start .. end - 1 a strictly descending permutation of themselves and nothing else changed |
| AlgMgrNew.AlgMgr.SortMerge | c++-srcs/AlgMgr.cc:752-797 | both halves sorted, then merged, leave the range sorted |
| AlgMgrNew.AlgMgr.MergeSorted | c++-srcs/AlgMgr.cc:762-797 | the early exit and the merge through the scratch buffer both leave the range sorted |
| AlgMgrNew.AlgMgr.Sort | include/ym/AlgMgr.h:589-596 | sort(n, bv) leaves the n cubes a permutation of the old ones in strictly descending order |
| AlgCubes.ScanBelow | c++-srcs/AlgMgr.cc:274-286 | every literal parse produces names a variable of the manager |
| AlgCubes.ListCubeMembers | include/ym/AlgCube.h:53-61 | the cube built from a one-cube literal list holds exactly the literals of the list |
| AlgCubes.ZeroHasNone | c++-srcs/AlgMgr.cc:950-961 | the cleared cube holds no literal |
| AlgCubes.FieldIffIn | include/ym/AlgCube.h:182-191 | on a well-formed cube has_literal's field test holds exactly when the literal is in the cube |
| AlgCubes.WrittenInPlace | include/ym/AlgCube.h:253-264 | product(lit) as written, in place on one cube, is the intended product, so the cube operator is unaffected by the copy bug |
| AlgCubes.QuotientOfOne | include/ym/AlgCube.h:291-302 | division(lit) of a single cube is its quotient when it holds the literal, nothing otherwise |
| AlgCubes.AlgCube.FromList | include/ym/AlgCube.h:53-61 | AlgCube(mgr, lit_list) holds the literals of the list (corrected set_literal, Findings row c++-srcs/AlgMgr.cc:318-321) |
| AlgCubes.AlgCube.FromLit | include/ym/AlgCube.h:38-48 | AlgCube(mgr, lit) holds that literal alone |
| AlgCubes.AlgCube.FromText | include/ym/AlgCube.h:68-83 | AlgCube(mgr, str) holds the parsed cube when the text names exactly one cube and is empty otherwise (corrected set_literal, Findings row c++-srcs/AlgMgr.cc:318-321) |
| AlgCubes.AlgCube.Internal | include/ym/AlgCube.h:329-335 | the internal constructor keeps the given body |
| AlgCubes.AlgCube.Copy | include/ym/AlgCube.h:108-114 | the copy constructor gives a new body holding the same cube |
| AlgCubes.AlgCube.Assign | include/ym/AlgCube.h:118-137 | operator= leaves this object with src's manager, possibly another one, and a new body holding the cube of src |
| AlgCubes.AlgCube.LiteralNum | include/ym/AlgCube.h:166-170 | literal_num() is the byte-table count of the cube's words |
| AlgCubes.AlgCube.Literal | include/ym/AlgCube.h:173-179 | literal(pos) is a polarity code, never 11 on a well-formed cube |
| AlgCubes.AlgCube.HasLiteral | include/ym/AlgCube.h:182-191 | has_literal(lit) holds exactly when the literal is in the cube |
| AlgCubes.AlgCube.CheckContainment | include/ym/AlgCube.h:197-204 | check_containment holds exactly when every literal of right is in this cube |
| AlgCubes.AlgCube.CheckIntersect | include/ym/AlgCube.h:207-214 | check_intersect holds exactly when the cubes share a literal |
| AlgCubes.AlgCube.Contains | include/ym/AlgCube.h:217-226 | contains(lit_set) is the intersection test with the set |
| AlgCubes.AlgCube.TimesCube | include/ym/AlgCube.h:233-246 | operator*=(cube) leaves the union of the literals, or the empty cube on an opposed pair |
| AlgCubes.AlgCube.TimesLit | include/ym/AlgCube.h:253-264 | operator*=(lit) adds the literal, or empties the cube when it holds the opposite one |
| AlgCubes.AlgCube.QuotientCube | include/ym/AlgCube.h:271-284 | operator/=(cube) removes right's literals, or empties the cube when right is not contained in it |
| AlgCubes.AlgCube.QuotientLit | include/ym/AlgCube.h:291-302 | operator/=(lit) removes the literal, or empties the cube when it lacks it |
| AlgCubes.AlgCube.Hash | include/ym/AlgCube.h:305-309 | hash() is the word hash of the cube |
| AlgCubes.AlgCube.Print | include/ym/AlgCube.h:312-318 | print writes the cube's literals in variable order |
| AlgCubes.Compare | include/ym/AlgCube.h:418-428 | compare is cube_compare of the two bodies |
| AlgCubes.Equal | include/ym/AlgCube.h:434-442 | == holds exactly on equal cubes |
| AlgCubes.NotEqual | include/ym/AlgCube.h:448-456 | != holds exactly on different cubes |
| AlgCubes.Less | include/ym/AlgCube.h:462-470 | < holds exactly when compare is negative |
| AlgCubes.Greater | include/ym/AlgCube.h:476-484 | > holds exactly when right comes before left |
| AlgCubes.LessEq | include/ym/AlgCube.h:490-498 | <= is the negation of > |
| AlgCubes.GreaterEq | include/ym/AlgCube.h:504-512 | >= is the negation of < |
| AlgCubes.Product | include/ym/AlgCube.h:364-372 | operator* gives a new cube, left times right, and leaves left alone |
| AlgCubes.Quotient | include/ym/AlgCube.h:391-399 | operator/ gives a new cube, left divided by right, and leaves left alone |
| AlgCubes.ProductLit | include/ym/AlgCube.h:374-386 | operator*(cube, lit) gives a new cube with the literal added, or the empty cube when it holds the opposite literal |
| AlgCubes.QuotientLit | include/ym/AlgCube.h:401-410 | operator/(cube, lit) gives a new cube without the literal, or the empty cube when it lacks it |
| AlgCubes.AlgLitSet.FromList | include/ym/AlgLitSet.h:124-134 | AlgLitSet(mgr, lit_list) holds the literals of the list (corrected set_literal, Findings row c++-srcs/AlgMgr.cc:318-321) |
| AlgCubes.AlgLitSet.FromLit | include/ym/AlgLitSet.h:139-146 | AlgLitSet(mgr, lit) holds that literal alone |
| AlgCubes.AlgLitSet.Copy | include/ym/AlgLitSet.h:150-156 | the copy constructor holds the same set |
| AlgCubes.AlgLitSet.Assign | include/ym/AlgLitSet.h:161-179 | operator= leaves this object with src's manager, possibly another one, and a new body holding the set of src |
| AlgCubes.AlgLitSet.IsIn | include/ym/AlgLitSet.h:208-213 | is_in holds exactly when the literal is in the set |
| AlgCubes.AlgLitSet.Add | include/ym/AlgLitSet.h:218-225 | += sets the literal's bit and nothing else |
| AlgCubes.Plus | include/ym/AlgLitSet.h:231-237 | operator+ gives a new set with the literal added and leaves the operand alone |
| AlgCubes.AddMembers | include/ym/AlgLitSet.h:218-225 | after += the set holds lit, and any other literal exactly when it did before |
| AlgCubes.BothPolarities | include/ym/AlgLitSet.h:218-225 | a literal set may hold a literal and its opposite, since += makes no conflict check |
| AlgCovers.GetCapacity | include/ym/AlgCover.h:1118-1129 | get_capacity(n) is the least 16 * 2^k that reaches n |
| AlgCovers.NewBody | include/ym/AlgCover.h:1106-1115 | a new body of get_capacity(req) cubes is cleared and has room for req cubes |
| AlgCovers.ListCover | include/ym/AlgCover.h:441-462 | the literal-list constructor builds one cube per run of literals, as many as parse counts |
| AlgCovers.PlacedCover | include/ym/AlgCover.h:441-462 | set_literal on a cleared body of any size with room for the runs leaves the listed cover |
| AlgCovers.ListCoverMembers | include/ym/AlgCover.h:441-462 | cube d of the listed cover holds exactly the literals set_literal puts in cube d |
| AlgCovers.ListCoverComplete | include/ym/AlgCover.h:441-462 | every literal of the list lands in one of the cubes of the listed cover |
| AlgCovers.DescUnique | include/ym/AlgCover.h:415 | two sorted covers with the same cubes are equal, so the sort's result does not depend on the input order |
| AlgCovers.BufferCoverText | include/ym/AlgCover.h:992-997 | what print writes for a body is the text of the cover its cubes form |
| AlgCovers.CountOfCubes | include/ym/AlgCover.h:596-601 | counting the words of the body counts the literals of each cube |
| AlgCovers.CoverCountWords | include/ym/AlgCover.h:596-601 | the literal count of a cover is the literal count over all its words |
| AlgCovers.CopyCubes | include/ym/AlgCover.h:403-416 | resize and cube_copy of each cube object leave the cubes of the objects in order |
| AlgCovers.ListBody | include/ym/AlgCover.h:441-462 | the run count, resize and set_literal leave the listed cover in a body with room for it (corrected set_literal, Findings row c++-srcs/AlgMgr.cc:318-321) |
| AlgCovers.CopyBody | include/ym/AlgCover.h:498-506 | copy into a new body of get_capacity(n) cubes keeps the n cubes |
| AlgCovers.NewSum | include/ym/AlgCover.h:628-641 | sum into a new body of get_capacity(nc1 + nc2) cubes leaves the merge, with room for it |
| AlgCovers.NewDiff | include/ym/AlgCover.h:708-721 | diff into a new body of get_capacity(nc1) cubes leaves the difference |
| AlgCovers.NewProduct | include/ym/AlgCover.h:778-791 | product into a new body of get_capacity(nc1 * nc2) cubes leaves the products, with room for them |
| AlgCovers.NewProductLit | include/ym/AlgCover.h:814-824 | product(lit) into a new body of get_capacity(nc1) cubes, with the copy as intended |
| AlgCovers.NewDivision | include/ym/AlgCover.h:885-898 | division into a new body of get_capacity(nc1 / nc2) cubes leaves the quotient, with room for it |
| AlgCovers.NewDivisionLit | include/ym/AlgCover.h:952-962 | division(lit) into a new body of get_capacity(nc1) cubes leaves LitQuotients |
| AlgCovers.DivideInPlace | include/ym/AlgCover.h:903-915 | division from a body into itself never produces more cubes than the dividend |
| AlgCovers.AlgCover.Value | include/ym/AlgCover.h:588-593 | the cover is its first cube_num cubes, all of the manager's width |
| AlgCovers.AlgCover.Internal | include/ym/AlgCover.h:559-569 | the internal constructor keeps the given count, capacity and body |
| AlgCovers.AlgCover.Dummy | include/ym/AlgCover.h:424-433 | the dummy constructor gives the cover of one empty cube, the constant 1 |
| AlgCovers.AlgCover.FromCubes | include/ym/AlgCover.h:403-416 | the cube-list constructor holds the cubes of the objects, sorted descending |
| AlgCovers.AlgCover.FromLits | include/ym/AlgCover.h:441-462 | the literal-list constructor holds one cube per run, sorted descending, as many as parse counts (corrected set_literal, Findings row c++-srcs/AlgMgr.cc:318-321) |
| AlgCovers.AlgCover.FromText | include/ym/AlgCover.h:467-478 | the text constructor holds the parsed cubes, sorted, and the empty cover when the text does not parse (corrected set_literal, Findings row c++-srcs/AlgMgr.cc:318-321) |
| AlgCovers.AlgCover.Copy | include/ym/AlgCover.h:498-506 | the copy constructor holds the same cubes in a new body |
| AlgCovers.AlgCover.FromCube | include/ym/AlgCover.h:533-541 | AlgCover(cube) is the cover of that one cube |
| AlgCovers.AlgCover.Resize | include/ym/AlgCover.h:1106-1115 | resize never lowers the capacity and takes a new body exactly when get_capacity(req) exceeds it |
| AlgCovers.AlgCover.Assign | include/ym/AlgCover.h:511-527 | operator= leaves this object, with its own manager, holding the cubes of src, which may come from another manager with the same cube size |
| AlgCovers.AlgCover.CubeNum | include/ym/AlgCover.h:588-593 | cube_num() is the number of cubes of the cover |
| AlgCovers.AlgCover.LiteralNum | include/ym/AlgCover.h:596-601 | literal_num() is the total literal count of the cubes |
| AlgCovers.AlgCover.LiteralNumOf | include/ym/AlgCover.h:605-610 | literal_num(lit) is the number of cubes holding lit |
| AlgCovers.AlgCover.Literal | include/ym/AlgCover.h:615-623 | literal(cube_id, var_id) is the field of the variable in that cube, never 11 on a well-formed cube |
| AlgCovers.AlgCover.CommonCube | include/ym/AlgCover.h:980-988 | common_cube() of a non-empty cover is the AND of its cubes, contained in every cube |
| AlgCovers.AlgCover.Plus | include/ym/AlgCover.h:628-641 | operator+ gives a new cover, the order merge of both |
| AlgCovers.AlgCover.PlusCube | include/ym/AlgCover.h:646-659 | operator+(cube) merges the cube in, in a new cover |
| AlgCovers.AlgCover.Minus | include/ym/AlgCover.h:708-721 | operator- gives the cubes of this cover that right lacks |
| AlgCovers.AlgCover.MinusCube | include/ym/AlgCover.h:726-739 | operator-(cube) gives the cover without that cube |
| AlgCovers.AlgCover.Times | include/ym/AlgCover.h:778-791 | operator* gives the products of the pairs without opposed literals |
| AlgCovers.AlgCover.TimesCube | include/ym/AlgCover.h:796-809 | operator*(cube) multiplies every cube by the cube |
| AlgCovers.AlgCover.TimesLit | include/ym/AlgCover.h:814-824 | operator*(lit) multiplies every cube by the literal (corrected copy, Findings row c++-srcs/AlgMgr.cc:475-477) |
| AlgCovers.AlgCover.Quotient | include/ym/AlgCover.h:885-898 | operator/ gives the algebraic quotient by a non-empty cover |
| AlgCovers.AlgCover.QuotientCube | include/ym/AlgCover.h:920-932 | operator/(cube) is the quotient by the one-cube cover |
| AlgCovers.AlgCover.QuotientLit | include/ym/AlgCover.h:952-962 | operator/(lit) gives the cubes holding the literal, with it removed |
| AlgCovers.AlgCover.PlusAssign | include/ym/AlgCover.h:664-681 | += leaves the merge of the old covers, whether or not resize took a new body |
| AlgCovers.AlgCover.PlusCubeAssign | include/ym/AlgCover.h:686-703 | +=(cube) merges the cube in |
| AlgCovers.AlgCover.MinusAssign | include/ym/AlgCover.h:744-756 | -= leaves the difference in the same body, so the cube count never grows |
| AlgCovers.AlgCover.MinusCubeAssign | include/ym/AlgCover.h:761-773 | -=(cube) removes that cube in place |
| AlgCovers.AlgCover.TimesAssign | include/ym/AlgCover.h:829-846 | *= with another cover leaves the products of the old covers |
| AlgCovers.AlgCover.SquareAssign | include/ym/AlgCover.h:829-846 | a *= a as intended leaves the products of the old cover with itself, the second operand read from a copy |
| AlgCovers.AlgCover.TimesCubeAssign | include/ym/AlgCover.h:851-868 | *=(cube) multiplies every cube by the cube |
| AlgCovers.AlgCover.TimesLitAssign | include/ym/AlgCover.h:873-880 | *=(lit) multiplies every cube by the literal in place (corrected copy, Findings row c++-srcs/AlgMgr.cc:475-477) |
| AlgCovers.AlgCover.QuotientAssign | include/ym/AlgCover.h:903-915 | /= leaves the quotient in the same body, so the cube count never grows |
| AlgCovers.AlgCover.QuotientCubeAssign | include/ym/AlgCover.h:937-947 | /=(cube) leaves the quotient by the one cube and returns a copy of it |
| AlgCovers.AlgCover.QuotientLitAssign | include/ym/AlgCover.h:967-975 | /=(lit) leaves the cubes holding the literal, with it removed, in place |
| AlgCovers.AlgCover.Print | include/ym/AlgCover.h:992-997 | print writes the text of the cover |
| AlgCovers.CommonValue | include/ym/AlgCover.h:980-988 | what common_cube leaves in the new cube is the AND of the cubes, contained in each |
| AlgCovers.Compare | include/ym/AlgCover.h:1005-1014 | compare is the cube-by-cube order of the covers |
| AlgCovers.Equal | include/ym/AlgCover.h:1020-1026 | == holds exactly on equal covers |
| AlgCovers.NotEqual | include/ym/AlgCover.h:1032-1038 | != holds exactly on different covers |
| AlgCovers.Less | include/ym/AlgCover.h:1044-1050 | < holds exactly when compare is negative |
| AlgCovers.Greater | include/ym/AlgCover.h:1056-1062 | > holds exactly when right comes before left |
| AlgCovers.LessEq | include/ym/AlgCover.h:1068-1074 | <= is the negation of > |
| AlgCovers.GreaterEq | include/ym/AlgCover.h:1080-1086 | >= is the negation of < |
| AlgCovers.SelfProductAsWritten | include/ym/AlgCover.h:829-846 | a *= a as written, with room: product reads its second operand from the body it writes, a failed cube product still storing its words before the clash, and leaves at most nc * nc cubes |
| AlgCovers.SelfProductFinding | c++-srcs/AlgMgr.cc:436-441 | (a + b) *= (a + b) as written gives a + a b + a b + a b, where the product is a + a b + a b + b |
| AlgCovers.SelfProductTwoWords | c++-srcs/AlgMgr.cc:979-989 | with two words per cube, (a v40 + b v40') *= itself as written gives a v40 + a b v40', where the product is a v40 + b v40' |
| AlgMgrOld.MergeAscMembers | src/AlgMgr.cc:331-374 | the older sum holds exactly the cubes of both covers |
| AlgMgrOld.MergeAscSorted | src/AlgMgr.cc:345-371 | the older sum, taking the smaller head first, merges two ascending covers into an ascending one |
| AlgMgrOld.MergeAscLength | src/AlgMgr.cc:331-374 | the older sum has at most nc1 + nc2 cubes, and at least as many as either operand |
| AlgMgrOld.SumOutOfOrder | src/AlgMgr.cc:345-361 | on two descending one-cube covers, as _sort leaves them, the older sum gives a cover that is not descending |
| AlgMgrOld.AscMergeOne | src/AlgMgr.cc:345-361 | one round of the first loop of sum writes the smaller cube, an equal pair once, and moves past what it wrote |
| AlgMgrOld.AscMergeLoop | src/AlgMgr.cc:345-361 | the first loop of sum stops with one cover used up and the ascending-merge invariant kept |
| AlgMgrOld.AscMergeCovers | src/AlgMgr.cc:345-371 | the three loops of sum leave the ascending merge of the two covers |
| AlgMgrOld.Sum | src/AlgMgr.cc:331-374 | sum copies the first operand to the scratch buffer, then leaves the ascending merge in the destination |
| AlgMgrOld.DiffAscMembers | src/AlgMgr.cc:384-415 | on ascending covers the older diff holds exactly the cubes of the first cover that the second lacks |
| AlgMgrOld.DiffAscSorted | src/AlgMgr.cc:393-412 | the older diff keeps the order of the first cover |
| AlgMgrOld.DiffKeepsCommon | src/AlgMgr.cc:393-407 | on the descending covers (a b + a c + b d) and (a c) the older diff removes nothing, where a c should go |
| AlgMgrOld.DiffAscInvStep | src/AlgMgr.cc:393-407 | one round of the loop of diff keeps its invariant |
| AlgMgrOld.AscDiffOne | src/AlgMgr.cc:393-407 | one round of diff keeps a smaller cube, drops an equal pair, passes a greater cube of the second cover, and leaves later cubes of the first alone |
| AlgMgrOld.AscDiffLoop | src/AlgMgr.cc:393-407 | the first loop of diff stops with one cover used up and the unread cubes of the first operand unchanged |
| AlgMgrOld.Diff | src/AlgMgr.cc:384-415 | diff leaves the ascending difference; the write cursor never passes the read cursor, so the destination may be the first operand |
| AlgMgrOld.Cleared | src/AlgMgr.cc:472-486 | pass one as written records a quotient for every cube, the empty cube where no divisor cube divides it |
| AlgMgrOld.ClearedDivisionAgrees | src/AlgMgr.cc:458-522 | when every dividend cube has a dividing cube the older division agrees with the algebraic quotient |
| AlgMgrOld.ClearedDivisionLength | src/AlgMgr.cc:458-522 | the older division has at most nc1 / nc2 cubes |
| AlgMgrOld.ClearedQuotientFinding | src/AlgMgr.cc:479-483 | (a + b) / (c + c') gives the constant 1 as written, where the quotient is empty |
| AlgMgrOld.ClearNext | src/AlgMgr.cc:472-486 | position i of pass one records its quotient or the empty cube |
| AlgMgrOld.ClearPass | src/AlgMgr.cc:472-486 | pass one records a quotient or the empty cube for every cube of the dividend |
| AlgMgrOld.ClearedEmitNext | src/AlgMgr.cc:490-513 | position i of pass two emits a recorded quotient that appears nc2 times and marks its copies |
| AlgMgrOld.ClearedEmitPass | src/AlgMgr.cc:490-513 | pass two lists the positions of the emitted quotients |
| AlgMgrOld.ClearedDivisionLoops | src/AlgMgr.cc:466-519 | the three passes leave the emitted quotients of the cleared pass one; the destination may be either operand |
| AlgMgrOld.Division | src/AlgMgr.cc:458-522 | division(cover, cover) as written resizes the scratch buffer to nc1 cubes and leaves the cleared division |
| AlgMgrOld.IntPattern | src/AlgMgr.cc:536-541 | the shift of a 32-bit int, where it is defined, gives the 64-bit literal pattern |
| AlgMgrOld.ShiftFits | src/AlgMgr.cc:540 | a code shifted by 2 k places fits an int exactly up to field 15 with code 01 |
| AlgMgrOld.IntPatternDefined | src/AlgMgr.cc:536-541 | the int shift is defined exactly for variables at position 17 .. 31 of their word, and at 16 for a negative literal |
| AlgMgrOld.IntPatternFirstVariable | src/AlgMgr.cc:536-541 | for variable 0 the shift is undefined although the literal's pattern is not zero |
| AlgMgrOld.DivisionLit | src/AlgMgr.cc:531-554 | division(cover, lit) with a 64-bit pattern leaves the cubes holding the literal, with it removed |
| AlgMgrOld.SortAsWritten | src/AlgMgr.cc:617-772 | _sort as written keeps the length of the buffer |
| AlgMgrOld.SortFinding | src/AlgMgr.cc:625-730 | _sort of e + d + c + b + a as written leaves b + a + c + d + e, which is not descending |
| AlgKernel.VarEntriesIff | src/AlgKernelMgr.cc:53-64 | the intended entries of variable v are its literals that occur in two cubes or more, with their counts |
| AlgKernel.VarEntriesAsWrittenIff | src/AlgKernelMgr.cc:53-64 | as written the entries of variable v are its positive literal alone, when it occurs in two cubes or more |
| AlgKernel.VarEntriesPositive | src/AlgKernelMgr.cc:59 | as written the entries of variable v are its intended entries that are positive literals |
| AlgKernel.EntriesStep | src/AlgKernelMgr.cc:53-64 | one more turn of the loop adds exactly the entries of the next variable |
| AlgKernel.EntriesIff | src/AlgKernelMgr.cc:53-64 | the intended candidates are exactly the literals of the cover's variables that occur in two cubes or more, each with its count |
| AlgKernel.EntriesAsWrittenPositive | src/AlgKernelMgr.cc:59 | as written the candidates are the intended ones that are positive literals |
| AlgKernel.EntriesAsWrittenIff | src/AlgKernelMgr.cc:53-64 | as written the candidates are exactly the positive literals that occur in two cubes or more |
| AlgKernel.CandidatesIff | src/AlgKernelMgr.cc:50-64 | tmp_list holds exactly the literals that occur in two cubes or more, with their counts (corrected litn, Findings row src/AlgKernelMgr.cc:59) |
| AlgKernel.PushVar | src/AlgKernelMgr.cc:54-63 | one turn of the loop pushes the entries of variable i |
| AlgKernel.CollectCandidates | src/AlgKernelMgr.cc:50-64 | the loop that fills tmp_list leaves the candidate list (corrected litn, Findings row src/AlgKernelMgr.cc:59) |
| AlgKernel.InsertByCount | src/AlgKernelMgr.cc:32-40 | inserting a candidate adds exactly that candidate to the list |
| AlgKernel.InsertSorted | src/AlgKernelMgr.cc:32-40 | inserting into a list in LitLt order keeps it in order |
| AlgKernel.SortByCount | src/AlgKernelMgr.cc:65 | sort with LitLt gives a permutation of the candidates in ascending count |
| AlgKernel.RecordOk | src/AlgKernelMgr.cc:112-123 | recording a kernel keeps the lists and the hash in step and only extends them |
| AlgKernel.RecordFinds | src/AlgKernelMgr.cc:112-123 | after recording, the hash maps the kernel to its position, its co-kernel cover holds the co-kernel, and the table grew exactly when the kernel was new |
| AlgKernel.RecordCokernels | src/AlgKernelMgr.cc:112-123 | recording changes the co-kernel covers only by the new co-kernel, in the cover of its kernel |
| AlgKernel.TurnOf | src/AlgKernelMgr.cc:89-110 | one literal either passes (empty cofactor or common cube meeting skip_cube) or gives a kernel and a co-kernel of the cover's size |
| AlgKernel.KernelsFromPass | src/AlgKernelMgr.cc:93-103 | a literal that gives nothing leaves the table to the next candidate |
| AlgKernel.KernelsFromTake | src/AlgKernelMgr.cc:105-126 | a literal that gives a kernel has it recorded, the walk goes down into it from pos + 1, then on with the literal added to skip_cube1 |
| AlgKernel.KernelsFromOk | src/AlgKernelMgr.cc:80-128 | the walk keeps the table well formed |
| AlgKernel.Kernels | src/AlgKernelMgr.cc:45-71 | the table find_kernels leaves is well formed |
| AlgKernel.LitQuotientsSource | src/AlgKernelMgr.cc:92 | each cube of cover / lit is a cube of the cover holding lit, with lit dropped |
| AlgKernel.DivisionByCube | src/AlgKernelMgr.cc:106 | each cube of cover1 / ccube, times ccube, is a cube of cover1 |
| AlgKernel.CubeSound | src/AlgKernelMgr.cc:92-110 | each cube of the kernel, times the intended co-kernel, is a cube of the cover |
| AlgKernel.TakeSound | src/AlgKernelMgr.cc:89-110 | the kernel a literal gives, times its co-kernel, lies in the cover |
| AlgKernel.RecordSound | src/AlgKernelMgr.cc:112-123 | recording a kernel with a co-kernel that divides the cover keeps the table sound |
| AlgKernel.KernelsFromSound | src/AlgKernelMgr.cc:80-128 | the walk keeps the table sound while the current co-kernel divides f by the current cover |
| AlgKernel.KernelsSound | src/AlgKernelMgr.cc:45-71 | every kernel find_kernels records is cube-free and, times each cube of its co-kernel cover, is a cube of f |
| AlgKernel.NegativeCandidateFinding | src/AlgKernelMgr.cc:59 | in a'b + a'c the literal a' is an intended candidate, but no candidate as written is a' |
| AlgKernel.KernelIsCubeFree | src/AlgKernelMgr.cc:98-108 | a cofactor divided by its common cube is not empty and has no literal in all of its cubes |
| AlgKernel.CubeFreeExample | src/AlgKernelMgr.cc:99-106 | the common cube of b + c is empty and dividing by it leaves b + c |
| AlgKernel.CofactorExample | src/AlgKernelMgr.cc:92 | the cofactor of a b + a c by a is b + c |
| AlgKernel.CokernelFinding | src/AlgKernelMgr.cc:110 | in a b + a c the literal a gives the kernel b + c; the co-kernel as written is 1, which does not divide, while a does |
| AlgKernel.KernelMgr.constructor | src/AlgKernelMgr.cc:20-23 | a new manager has no kernels and the manager's variables |
| AlgKernel.KernelMgr.KernelNum | include/ym/AlgKernelMgr.h:126-131 | kernel_num() is the number of kernels, which is also that of co-kernel covers |
| AlgKernel.KernelMgr.Kernel | include/ym/AlgKernelMgr.h:135-142 | kernel(pos) is the kernel the hash maps back to pos |
| AlgKernel.KernelMgr.CokernelCover | include/ym/AlgKernelMgr.h:149-156 | cokernel(pos) is a non-empty sorted cover |
| AlgKernel.KernelMgr.Clear | src/AlgKernelMgr.cc:132-141 | _clear as intended leaves no kernel, no co-kernel and an empty hash |
| AlgKernel.KernelMgr.ClearAsWritten | src/AlgKernelMgr.cc:132-141 | _clear as written empties the hash but keeps both lists, so a manager with kernels is left inconsistent |
| AlgKernel.KernelMgr.AddKernel | src/AlgKernelMgr.cc:112-123 | adding a kernel and co-kernel updates the fields as Record does |
| AlgKernel.KernelMgr.FindKernels | src/AlgKernelMgr.cc:45-71 | find_kernels leaves the table Kernels describes, whose kernels are cube-free and divide the cover on well-formed covers |
| AlgKernel.KernelMgr.KernelSub | src/AlgKernelMgr.cc:80-128 | _kernel_sub leaves the table the walk from the current one reaches |
| AlgKernel.KernelMgr.KernelStep | src/AlgKernelMgr.cc:88-127 | one turn of the loop of _kernel_sub moves the walk to the next candidate |

## Left out

- Memory management is not modelled: destructors, delete_body, and the release of old bodies after a compound assignment. Arrays are garbage collected, so an old body is simply dropped. This also hides a fault of AlgCover's operator=: when resize takes a new body, include/ym/AlgCover.h:519-521 hands that new body, not the old one, to delete_body and then copies into it, a use after free that also leaks the old body. AlgCovers.AlgCover.Assign copies into the new body as intended.
- AlgMgrNew.AlgMgr.ResizeBuff: the source takes a new scratch buffer on every call and frees the old one only when it grew (c++-srcs/AlgMgr.cc:1094-1107). The model takes a fresh zeroed buffer each time; the leak of the buffer it replaces is not modelled.
- Output to an ostream becomes a returned string, and is not a stream side effect.
- SopText.IsSpace: isspace is the fixed set of the C locale (space, \t, \n, \v, \f, \r); other locales are not modelled.
- SopText.IsValidChar: characters from code 128 on are read as invalid. The source indexes its 128-entry table with a plain char, which is undefined for those codes.
- Counters of type SizeType and ymuint (cube counts, capacities, list sizes) are unbounded integers, so their 32-bit overflow is not modelled. The literal body is modelled as a bounded 32-bit value, and the variable count stays below 2^31.
- AlgMgrNew.AlgMgr.Sum: requires the destination to differ from the second operand. This excludes `a += a` (include/ym/AlgCover.h:664-681), which the source handles when no growth is needed, because its merge then runs in lockstep.
- AlgCovers.AlgCover.PlusAssign: requires right to be another cover, so `a += a` is not modelled. When resize grows the body, the source reads right.mBody after the resize, so the sum reads its second operand from the new cleared body it is writing. Nothing in the model shows that case.
- AlgMgrNew.AlgMgr.Diff and AlgCovers.AlgCover.MinusAssign: require the destination or body to differ from the second operand. The source's `a -= a` runs in lockstep and gives the empty cover; that case is not modelled.
- AlgMgrNew.AlgMgr.Product and AlgCovers.AlgCover.TimesAssign: require the destination, or the body, to differ from the second operand. The aliased case is the `a *= a` finding below. It is modelled as written by AlgCovers.SelfProductAsWritten and as intended by AlgCovers.AlgCover.SquareAssign.
- AlgCovers.AlgCover.PlusCubeAssign, MinusCubeAssign and TimesCubeAssign: require the cube's body to differ from the cover's body, which always holds in the source because each object owns its body.
- LitOps.CommonCube: requires the destination to differ from the cover. Its only caller, AlgCover::common_cube, passes a new cube.
- AlgCovers.AlgCover.Quotient: requires a non-empty divisor, because operator/ divides nc1 by nc2 to size the result (include/ym/AlgCover.h:885-898).
- CoverDivision.DivisionSound needs a dividend without repeated cubes. CoverDivision.DivisionComplete and CoverDivision.DivisionIff need a divisor in which no cube contains an earlier one (NoLaterCovers), the property the first-success scan of pass one relies on. A sorted divisor has it, since a cube holding every bit of another is not below it; the model does not prove that step for 64-bit words, whose conversion to numbers is beyond the solver here, and shows it on the sorted divisor a b + a (CoverDivision.SortedDivisorAdmitted).
- AlgMgrNew.AlgMgr.Sort and SortRange: require distinct cubes. The source stops at ASSERT_NOT_REACHED on an equal pair.
- AlgMgrNew.AlgMgr.Sort3: resizes the scratch buffer once, before its compares, where the source resizes in each branch. Only the identity of the scratch buffer differs.
- ASSERT_COND checks become requires clauses: equal variable counts, positions inside the cover, literals of known variables. The binary operators of AlgCube and AlgCover ask, as the source does, only that both operands have the same variable count. Only cover compare and the relations built on it need one shared manager, which include/ym/AlgCover.h:1010 asserts. Where an operator hands the other operand's body to this object's manager, the model also asks that it differ from that manager's work buffer. The source guarantees this, since bodies come from new_body.
- The older manager has several functions that are the same as the newer ones line for line. Each is modelled once, by the newer manager's member:
  - parse, set_literal, literal_num, product, common_cube and copy;
  - compare, cube_compare, cube_check_product, cube_check_containment and cube_check_intersect;
  - cube_clear, cube_product, and cube_cofactor (the newer cube_division);
  - print, which is the newer print from position 0.
- The older cube_set (src/AlgMgr.cc:914-976) is compiled out by `#if 0` and is not modelled.
- AlgMgrOld.SortAsWritten: states only that the length is kept. What the small cases do to other ranges is shown by SortFinding.
- AlgKernel: covers are values here, namely the cube sequences the AlgCover operations compute. HashMap.h is not part of this model: the kernel table is a map from cover to position.
- AlgKernel.SortByCount: std::sort leaves the order among equal counts open. The model fixes the order of a stable insertion.
- AlgKernel.KernelMgr.FindKernels: the soundness ensures holds for well-formed cubes. That is, no cube holds a field 11.
- AlgKernel.Times: src/AlgKernelMgr.cc:110 and 125 apply &= to cubes, an operator include/ym/AlgCube.h does not declare; the model reads both as the cube product operator*=.

## Findings

| source | as written | input that shows it | evidently intended | confidence | as-written member | corrected member |
|---|---|---|---|---|---|---|
| c++-srcs/AlgMgr.cc:318-321 | set_literal moves to the next cube on every separator, including a leading one or two in a row | "+a" (one cube for parse, a written one cube past it); "a++b" (b written past the two cubes parse counts) | move only when a literal follows a separator that ended a run, as parse counts cubes | not executed | LitOps.LeadingSeparatorOverruns | LitOps.SetLiteralRuns |
| c++-srcs/AlgMgr.cc:475-477 | product(lit) copies word rbase into word wbase nb times, so words 1 .. nb - 1 of each cube are never written | a cover of more than 32 variables: cube [0, 1] (variable 63 negative) times variable 0 positive | copy every word of the cube | not executed | CoverProduct.ProductLitLosesWords | CoverProduct.ProductLit |
| include/ym/AlgCover.h:829-846 | `a *= a` hands product the body it writes as its second operand | (a + b) *= (a + b) gives a + a b + a b + a b; with two words per cube (a v40 + b v40') *= itself gives a v40 + a b v40' (AlgCovers.SelfProductTwoWords) | the product a + a b + a b + b | not executed | AlgCovers.SelfProductFinding | AlgCovers.AlgCover.SquareAssign |
| src/AlgMgr.cc:345-371 | the older sum takes the smaller head first, an ascending merge, while _sort leaves covers descending | a + b as one-cube covers: the result b, a is not descending | the descending merge of the newer sum | not executed | AlgMgrOld.SumOutOfOrder | AlgMgrNew.AlgMgr.Sum |
| src/AlgMgr.cc:393-407 | the older diff walks descending covers as if ascending | (a b + a c + b d) - a c removes nothing | a b + b d | not executed | AlgMgrOld.DiffKeepsCommon | AlgMgrNew.AlgMgr.Diff |
| src/AlgMgr.cc:479-483 | the older division clears the quotient of each undividable cube, and the cleared cubes count as a quotient | (a + b) / (c + c') gives the constant 1 | the empty quotient | not executed | AlgMgrOld.ClearedQuotientFinding | AlgMgrNew.AlgMgr.Division |
| src/AlgMgr.cc:539-540 | pat << sft shifts a 32-bit int by up to 62 places | any literal of variable 0 (shift 62) | a 64-bit pattern, as in the newer code | not executed | AlgMgrOld.IntPatternFirstVariable | AlgMgrOld.DivisionLit |
| src/AlgMgr.cc:625-730 | the small cases of _sort compare and move cubes 0 .. 3, not start .. end - 1 | e + d + c + b + a ends as b + a + c + d + e | a descending range | not executed | AlgMgrOld.SortFinding | AlgMgrNew.AlgMgr.Sort |
| src/AlgKernelMgr.cc:59 | the second literal of each variable is litn(i, false), the positive one again | a'b + a'c: a' occurs twice but is never a candidate | litn(i, true) | not executed | AlgKernel.NegativeCandidateFinding | AlgKernel.CollectCandidates |
| src/AlgKernelMgr.cc:110 | the co-kernel is ccube & ckcube, without the literal | a b + a c: kernel b + c gets co-kernel 1, which does not divide | ccube times lit times ckcube (a) | not executed | AlgKernel.CokernelFinding | AlgKernel.KernelsSound |
| src/AlgKernelMgr.cc:132-141 | _clear deletes the objects and empties the hash, but keeps both lists | find_kernels on a manager that already holds kernels | empty lists as well | not executed | AlgKernel.KernelMgr.ClearAsWritten | AlgKernel.KernelMgr.Clear |
