# Verified models of PostgreSQL contrib modules

This project models the logic of four contrib modules in Dafny and proves what they promise:

- **fuzzystrmatch**: the weighted Levenshtein distance and its bounded variant, which fills only a sliding band of a
  matrix of which it keeps two rows.
- **btree_gist and intarray**: GiST index keys that lose information (truncated bounds, merged ranges, hashed
  signatures) and must still not lose a row.
- **intarray queries**: the compiler, evaluator and printer of `query_int`, and how GIN plans such a query.
- **hstore**: the packed map format with its operators, its text form, its order and the upgrade of older formats.

Every algorithm that works by loops and updates in the source is a method with loops here, with `array`s where it
works in place (matrix rows, range compression, link patching, signatures, hstore buffers) and classes where it updates
the fields of a structure (the query parser and printer, the hstore parser, the hstore under construction). Each is
proved against a specification that does not mention the algorithm: the least price of an edit script, the rows a
sequential scan returns, the parse tree of a grammar, the union of two maps.

Errors that the source raises are results here (`TooLong`, `SyntaxErr`, `TooComplexErr`, `TooSparse`, `TooLarge`,
`Malformed`, `InvalidValue` and so on). Integers are mathematical; the widths that matter are written out (the 16-bit
link of a query item, 32-bit query values and range ends, the 30-bit positions and two flag bits of an hstore entry,
old hstore entries as bit fields, signature bytes as bit vectors).

## How it is organized

| file | content |
|---|---|
| `EditDistance.dfy` | edit scripts, the least price, the matrix and its laws |
| `Multibyte.dfy`, `Levenshtein.dfy` | encoded characters; both expansions of `levenshtein.c` |
| `Basics.dfy`, `Bytes.dfy`, `Sorting.dfy`, `GistTree.dfy` | shared definitions; byte order; sorting as a sorted permutation; index scans of trees |
| `BtreeVar.dfy` | truncated keys of variable length |
| `RangeCover.dfy`, `IntCompress.dfy`, `IntGist.dfy` | optimal range covers; compression in place; `gist__int_ops` |
| `IntbigGist.dfy` | signatures and `gist__intbig_ops` |
| `QueryGrammar.dfy`, `QueryText.dfy` | grammar and operator stack; tokens |
| `QueryNumber.dfy`, `QuerySpelling.dfy` | what numerals stand for; which texts spell a sentence |
| `QueryItems.dfy`, `QueryPrint.dfy` | links, evaluation and GIN; printing |
| `HstoreFormat.dfy`, `HstoreBuild.dfy`, `HstoreMap.dfy`, `HstorePairs.dfy` | the format; building it in memory; lists as maps; input pairs |
| `HstoreOps.dfy`, `HstoreSearch.dfy`, `HstoreOrder.dfy` | merging operators; search; comparison |
| `HstoreScan.dfy`, `HstoreText.dfy` | parser; input, output and round trip |
| `HstoreGrammar.dfy`, `HstoreErrors.dfy` | the grammar of hstore texts; where refused texts fail |
| `HstoreCompat.dfy` | old formats |

## Findings

- The two halves of a split btree_gist page are truncated to the larger of their two common prefixes. On internal
  pages that can lose a row: `BtreeVar.SplitLosesRow` gives a page for which it does, `BtreeVar.HalfHidesIff` says
  exactly when a half hides a value from some query, and pages of exact leaf keys are never affected
  (`BtreeVar.LeafSplitKeeps`).
- The comment above the truncation speaks of compression only; that it is sound under repeated unions rests on an
  inexact upper bound being at least two bytes longer than the common prefix. The proofs make that invariant explicit
  (`BtreeVar.UnionCovers`).
- "Contained by" searches of integer arrays test internal pages for overlap, which misses empty arrays in both operator
  classes (`IntGist.EmptyArrayMissed`, `IntbigGist.EmptyArrayMissed`). `SearchIsExact` of both modules says exactly
  when, and `NonEmptyAreFound` that nothing else is missed.
- An internal key of `gist__int_ops` with 200 or more elements, one of them 2147483647, is stored as ranges that
  `g_int_decompress` never finishes reading (`IntGist.StoreTopInts`, `IntGist.MaxIsStored`).
- The bounded Levenshtein routine ignores its bound when one string is empty (`Levenshtein.BoundIgnored`,
  `Levenshtein.BoundKeptIff`).
- The 16-bit links of a `query_int` lead to the left operands exactly if no right operand has more than 32767 items
  (`QueryItems.LinksLeadIff`). Longer operands are accepted: for every one of 32768 to 65534 items under a bar the link
  of the last item leads behind the items (`QueryPrint.LongOperandOverruns`), and there are such operands
  (`QueryPrint.LongOperandExists`).
- A small value that `hstoreValidOldFormat` accepts is taken for a new one, and loses its contents, exactly if the
  unused length of a null first value has its top bit set (`HstoreCompat.UpgradeKeepsIff`, with the bytes of one in
  `HstoreCompat.MisreadInput`). The repository has no writer of the old format, so whether one ever left such a length
  is open.

## Model

| member | source | states |
|---|---|---|
| EditDistance.NoCheaperEdits | contrib/fuzzystrmatch/levenshtein.c:214-334 | No sequence of insertions, deletions and substitutions, in any order and anywhere in the string, is cheaper than the last cell of the matrix. |
| EditDistance.EntryIsAffordable | contrib/fuzzystrmatch/levenshtein.c:214-334 | For every cell there is an edit script of that price. |
| EditDistance.CornerIsDistance | contrib/fuzzystrmatch/levenshtein.c:402-402 | The last cell of the matrix is the least price of all edit scripts. |
| EditDistance.OneCharacter | contrib/fuzzystrmatch/levenshtein.c:271-326 | Equal characters cost nothing; different ones cost a substitution, or a deletion and an insertion if that is cheaper. |
| EditDistance.MirrorDistance | contrib/fuzzystrmatch/levenshtein.c:214-334 | Turning the strings round is the same as exchanging the costs of insertions and deletions. |
| EditDistance.TriangleInequality | contrib/fuzzystrmatch/levenshtein.c:214-334 | Going through a third string is never cheaper. |
| EditDistance.ClampingKeepsDistance | contrib/fuzzystrmatch/levenshtein.c:159-160 | Lowering the price of a substitution to that of a deletion and an insertion does not change the distance. |
| EditDistance.DiagonalGrows | contrib/fuzzystrmatch/levenshtein.c:234-244 | Costs never fall along a diagonal, whatever the prices. |
| EditDistance.ResidualIsLowerBound | contrib/fuzzystrmatch/levenshtein.c:155-158 | No distance is below the price of making up for the difference in length. |
| EditDistance.SubstituteAllIsUpperBound | contrib/fuzzystrmatch/levenshtein.c:161-163 | No distance is above that price plus substitutions for the shorter string. |
| Multibyte.CharAtOffset | contrib/fuzzystrmatch/levenshtein.c:196-208 | Stepping through the bytes by character length arrives at character k of the string, for every k. |
| Multibyte.SingleBytes | contrib/fuzzystrmatch/levenshtein.c:188-196 | As many characters as bytes means that every character is one byte. |
| Levenshtein.SameChar | contrib/fuzzystrmatch/fuzzystrmatch.c:158-168 | Comparing the last byte, the length and then the rest is equality of characters. |
| Levenshtein.CacheLengths | contrib/fuzzystrmatch/levenshtein.c:196-208 | The cached lengths are those of the characters of s, and are left out only if all characters of both strings are single bytes. |
| Levenshtein.StepAgrees | contrib/fuzzystrmatch/levenshtein.c:289-300 | A cell computed from neighbours that are exact where useful and too large elsewhere is itself exact where useful and too large elsewhere. |
| Levenshtein.UsefulAbove | contrib/fuzzystrmatch/levenshtein.c:234-244 | Every useful cell has a useful cell up its diagonal, so columns out of the band stay out. |
| Levenshtein.BandGrows | contrib/fuzzystrmatch/levenshtein.c:240-244 | Growing the stop column by one per row never cuts off a useful cell. |
| Levenshtein.UselessRow | contrib/fuzzystrmatch/levenshtein.c:391-393 | Once a row has no useful cell, no later row has one. |
| Levenshtein.InitialStop | contrib/fuzzystrmatch/levenshtein.c:164-184 | The initial stop column keeps every useful cell of the first row. |
| Levenshtein.EasyCases | contrib/fuzzystrmatch/levenshtein.c:118-136 | Empty strings cost insertions or deletions only, whatever the bound, and longer strings than allowed are refused. |
| Levenshtein.LongestAllowed | contrib/fuzzystrmatch/levenshtein.c:118-136 | 255 characters are allowed and 256 are not, except next to an empty string. |
| Levenshtein.FillRow | contrib/fuzzystrmatch/levenshtein.c:271-326 | The inner loop extends agreement with the matrix over the columns it fills and touches no other cell, with the byte pointer at the character of each column. |
| Levenshtein.LevenshteinInternal | contrib/fuzzystrmatch/levenshtein.c:66-403 | The unbounded routine on bytes returns the least price of an edit script on characters, or refuses long strings. |
| Levenshtein.BandedRow | contrib/fuzzystrmatch/levenshtein.c:226-326 | One row of the bounded routine: every useful cell is in the band and exact, every other cell that can be read is too large, cells left of the band hold the bound plus one in both arrays. |
| Levenshtein.SlideStop | contrib/fuzzystrmatch/levenshtein.c:357-367 | Moving the stop column left drops only useless cells. |
| Levenshtein.SlideStart | contrib/fuzzystrmatch/levenshtein.c:369-389 | Moving the start column right drops only useless cells, overwrites them in both arrays, and keeps the byte pointer at the character before the band; if the columns cross, no useful cell is left. |
| Levenshtein.BandedStep | contrib/fuzzystrmatch/levenshtein.c:226-394 | A whole round of the outer loop keeps the band invariant over the swapped rows. |
| Levenshtein.Bounded | contrib/fuzzystrmatch/levenshtein.c:149-402 | The impossible bound, the loose bound, the crossed columns and the last cell all give the distance if it is within the bound and else the bound plus one. |
| Levenshtein.LevenshteinLessEqualInternal | contrib/fuzzystrmatch/levenshtein.c:66-403 | The bounded routine on bytes returns exactly the distance if it is at most the bound and exactly the bound plus one otherwise, except that next to an empty string it returns the distance; a negative bound means none. |
| Levenshtein.BoundKeptIff | contrib/fuzzystrmatch/levenshtein.c:118-125 | It keeps to the bound if and only if both strings have characters, or the price of the one that has exceeds the bound by at most one. |
| Levenshtein.BoundIgnored | contrib/fuzzystrmatch/levenshtein.c:118-125 | Nothing against three characters at unit costs with bound 1 gives 3, where the documented result is 2. |
| Bytes.Between | contrib/btree_gist/btree_utils_var.c:221-266 | Byte order is transitive, and the ends of an interval share no longer prefix than either shares with a string between them. |
| Bytes.CompareSign | contrib/btree_gist/btree_bytea.c:63-70 | A string comes first if it is a proper prefix of the other or has the smaller byte where they first differ; exactly one of less, equal and greater holds. |
| BtreeVar.NodeCpLen | contrib/btree_gist/btree_utils_var.c:108-150 | The loop finds the length of the longest common prefix of the bounds. |
| BtreeVar.BinUnion | contrib/btree_gist/btree_utils_var.c:221-266 | Adding an entry to the accumulated key gives the exact hull of all entries so far. |
| BtreeVar.Union | contrib/btree_gist/btree_utils_var.c:297-333 | The union is the hull of the entries cut two bytes behind its common prefix. |
| BtreeVar.HullUnique | contrib/btree_gist/btree_utils_var.c:221-333 | The entries determine the hull, in whatever order they come. |
| BtreeVar.RoomForCut | contrib/btree_gist/btree_utils_var.c:320-330 | An upper bound with values beyond it is long enough not to be hidden by a longer cut bound of the hull. |
| BtreeVar.UnionCovers | contrib/btree_gist/btree_utils_var.c:297-333 | A union covers every value that an entry covers: not below the lower bound, and not above the upper bound or an extension of an upper bound at least two bytes longer than the common prefix. |
| BtreeVar.PickSplit | contrib/btree_gist/btree_utils_var.c:439-528 | A split sorts the entries, gives each half the hull of its entries, and cuts both to the larger of the two lengths. |
| BtreeVar.HalfHidesIff | contrib/btree_gist/btree_utils_var.c:510-525 | A half hides no value that an entry may have below it from any query under any strategy, if and only if its cut bound does not run past the entry's inexact upper bound by bytes that are not all 255, or the lower bound of its hull is a prefix of the upper one. |
| BtreeVar.HalfSees | contrib/btree_gist/btree_utils_var.c:510-525 | Every half, whatever it overruns, still admits what extends its lower bound when that is a prefix of the upper one. |
| BtreeVar.SplitLosesRow | contrib/btree_gist/btree_utils_var.c:492-525 | Four internal keys that are unions of leaves, and a split of them by the rules of the source, after which a row is in the tree and a search for it returns nothing. |
| BtreeVar.LeafSplitKeeps | contrib/btree_gist/btree_utils_var.c:465-525 | A split of leaf entries loses nothing: each half covers the values that went into it. |
| BtreeVar.LeafExact | contrib/btree_gist/btree_utils_var.c:534-592 | On leaf keys the consistency test is the operator, for all six strategies. |
| BtreeVar.StrategyLaws | contrib/btree_gist/btree_utils_var.c:534-592 | Every operator is what the bytes of value and query say; exactly one of less, equal and greater holds, and the other three are their negations. |
| BtreeVar.NodeAdmitsIff | contrib/btree_gist/btree_utils_var.c:534-592 | The internal test holds exactly if a value between the bounds, or one that extends a bound, satisfies the operator; for strict operators a value equal to the query counts too, and for inequality one between the bounds is needed. |
| BtreeVar.NodeSound | contrib/btree_gist/btree_utils_var.c:534-592 | On internal keys it hides no covered value that satisfies the operator, for all six strategies. |
| BtreeVar.SeenIsFound | contrib/btree_gist/btree_utils_var.c:534-592 | A value that a key covers, or that its shortened bound covers when the lower bound is a prefix of the upper one, is found by every query it satisfies. |
| BtreeVar.BuiltSees | contrib/btree_gist/btree_utils_var.c:108-525 | Keys built by any nesting of unions, and of splits that hide none of their entries, let every value that went into them be found. |
| BtreeVar.SearchIsExact | contrib/btree_gist/btree_utils_var.c:534-592 | Scanning any tree of such keys returns exactly the rows that a sequential scan returns, in the same order, without any recheck. |
| BtreeVar.ScanReturns | contrib/btree_gist/btree_utils_var.c:534-592 | A scan of such a tree returns a row exactly if the tree has it and its bytes compare to those of the query as the operator says. |
| BtreeVar.ScansPartition | contrib/btree_gist/btree_utils_var.c:534-592 | The scans for an operator and for its negation share the rows of the tree out between them, each row as often as it is stored. |
| GistTree.SearchExactIff | contrib/intarray/_int_gist.c:42-105 | For any GiST operator class whose tests are exact on leaves, and any tree: an index scan returns what a sequential scan returns if and only if no row that satisfies the operator lies below an internal key that fails the test. |
| GistTree.PromisedAreFound | contrib/intarray/_int_gist.c:42-105 | If the tests hide none of the promised values, both scans return the same promised rows in the same order, whatever else is in the tree. |
| GistTree.SearchIsExact | contrib/intarray/_int_gist.c:42-105 | If the tests hide nothing on internal pages, an index scan with recheck returns what a sequential scan returns. |
| RangeCover.CoverWeight | contrib/intarray/_int_gist.c:192-247 | A set that covers a list holds at least the elements and the gaps it does not break. |
| RangeCover.FewBroken | contrib/intarray/_int_gist.c:192-247 | A cover by k intervals breaks fewer than k gaps. |
| RangeCover.WidestIsBest | contrib/intarray/_int_gist.c:235-247 | Leaving the widest gaps open is at least as good as any other choice of as many. |
| RangeCover.RangesAreOptimal | contrib/intarray/_int_gist.c:192-247 | Ranges that leave the widest gaps open hold no more integers than any cover by as many intervals. |
| IntCompress.ExpandRanges | contrib/intarray/_int_gist.c:205-222 | The backward expansion in the array itself reads every element before it is overwritten and leaves the consecutive runs as ranges, never merging more than allowed. |
| IntCompress.NarrowestGap | contrib/intarray/_int_gist.c:238-244 | The inner loop finds a narrowest gap. |
| IntCompress.MergeNarrowest | contrib/intarray/_int_gist.c:236-247 | Merging there keeps the ranges those that leave the widest gaps open. |
| IntCompress.CompressRanges | contrib/intarray/_int_gist.c:192-247 | A sorted key of 200 or more distinct integers becomes exactly 100 ranges that leave the 99 widest gaps open. |
| IntCompress.CompressionIsOptimal | contrib/intarray/_int_gist.c:192-247 | The ranges are ascending and disjoint, hold every element, and no cover by at most 100 intervals holds fewer integers. |
| IntGist.InnerIntContains | contrib/intarray/_int_tool.c:14-47 | On sorted arrays without duplicates the merge loop decides set inclusion. |
| IntGist.InnerIntOverlap | contrib/intarray/_int_tool.c:49-76 | On sorted arrays the merge loop decides whether there is a common element. |
| IntGist.IntUnique | contrib/intarray/_int_tool.c:297-317 | Squeezing out duplicates in place leaves the same set, strictly ascending. |
| IntGist.PrepareArr | contrib/intarray/_int.h:36-43 | Sorting and removing duplicates gives the one ascending list of the set. |
| IntGist.GIntUnion | contrib/intarray/_int_gist.c:107-142 | The union has exactly the elements of its entries, strictly ascending. |
| IntGist.InternalSize | contrib/intarray/_int_tool.c:279-294 | The size is the number of distinct integers that the ranges hold, or -1 if that is no int. |
| RangeCover.IntegersGrow | contrib/intarray/_int_tool.c:279-294 | A range behind the others adds exactly its length to the integers held. |
| IntGist.GIntCompress | contrib/intarray/_int_gist.c:183-264 | Short keys are stored as they are, longer ones as their range compression, unless the ranges hold too many integers. |
| IntGist.GIntDecompress | contrib/intarray/_int_gist.c:266-335 | Ranges are read as the ascending list of exactly the integers they hold; the size error is raised exactly if there are too many, and otherwise the loop fails to end exactly if a range ends at the largest int. |
| IntGist.MaxIsStored | contrib/intarray/_int_gist.c:192-247 | A long key is stored as ranges that end at the largest int exactly if that is among its elements. |
| IntGist.StoreTopInts | contrib/intarray/_int_gist.c:320-323 | The 200 largest ints are such a key: it is stored without error, and reading it does not end. |
| IntGist.ReadKeepsAll | contrib/intarray/_int_gist.c:183-335 | Compressing and decompressing a key gives a sorted superset of it without duplicates. |
| IntGist.GIntConsistent | contrib/intarray/_int_gist.c:66-105 | The consistency method for arrays, by the sets of the key and the query. |
| IntGist.ExecConsistent | contrib/intarray/_int_bool.c:310-322 | A Boolean query on a key, with its values looked up by binary search, is its value on a leaf and its over-approximation elsewhere. |
| IntGist.StrategyLaws | contrib/intarray/_int_gist.c:42-105 | Containment and its converse, overlap as a common element, and equality up to the order of elements, told by each other. |
| IntGist.NodeAdmitsIff | contrib/intarray/_int_gist.c:66-105 | The internal test for an array operator holds exactly if some array of elements of the key satisfies the operator, for "contained by" one that is not empty. |
| IntGist.LeafExact | contrib/intarray/_int_gist.c:42-105 | On leaf keys the test is the operator, up to the recheck for equality. |
| IntGist.NodeSound | contrib/intarray/_int_gist.c:42-105 | A key that holds the elements of an array does not hide it, except for empty arrays under "contained by". |
| IntGist.EmptyArrayMissed | contrib/intarray/_int_gist.c:91-98 | A tree built by these methods in which a "contained by" scan misses an empty array. |
| IntGist.BuiltCovers | contrib/intarray/_int_gist.c:107-335 | Keys built by any nesting of union, compression and decompression are sorted and hold the elements of every array that went into them. |
| IntGist.SearchIsExact | contrib/intarray/_int_gist.c:42-335 | Scanning any tree of such keys over arrays of fewer than 200 elements returns exactly the arrays that satisfy the operator, in order; under "contained by" it does so if and only if no empty array lies below an internal key without an element of the query. |
| IntGist.NonEmptyAreFound | contrib/intarray/_int_gist.c:42-335 | Under every strategy, "contained by" included, the non-empty arrays returned are exactly the non-empty arrays that satisfy the operator, whatever empty arrays the tree holds. |
| IntbigGist.MakeSignature | contrib/intarray/_intbig_gist.c:160-166 | The signature has exactly the bits of the hashed elements. |
| IntbigGist.SignatureOfOne | contrib/intarray/_int.h:50-67 | The signature of a single int has the one bit of the value modulo 2016, a negative value taken as unsigned: bit h is bit h modulo 8 of byte h / 8. |
| IntbigGist.CompressLeaf | contrib/intarray/_intbig_gist.c:141-177 | A leaf becomes the signature of its array. |
| IntbigGist.CompressInternal | contrib/intarray/_intbig_gist.c:178-204 | Compression keeps the bits, and a key becomes all-true exactly if it has every bit. |
| IntbigGist.UnionKey | contrib/intarray/_intbig_gist.c:255-266 | The byte loop ORs a signature into the base in place; an all-true key is reported and changes nothing. |
| IntbigGist.GIntbigUnion | contrib/intarray/_intbig_gist.c:268-298 | The union has exactly the bits of its entries. |
| IntbigGist.PickSeeds | contrib/intarray/_intbig_gist.c:354-383 | The seeds are two offsets that are farthest apart among all but the last entry, for any distance; the last one is a seed of a page of two only. |
| IntbigGist.Absorb | contrib/intarray/_intbig_gist.c:448-480 | Adding an entry to a side adds exactly its bits, all-true or not. |
| IntbigGist.PickSplit | contrib/intarray/_intbig_gist.c:327-489 | For any distance and any way to weigh it: each offset is on exactly one side, once, neither side is empty, and each side's key has exactly the bits of its entries. |
| IntbigGist.SideKeyIncludes | contrib/intarray/_intbig_gist.c:327-489 | Each side's key covers every entry of the side, all-true keys included. |
| IntbigGist.SignsEqual | contrib/intarray/_intbig_gist.c:542-552 | Signatures with the same bits have the same bytes. |
| IntbigGist.NoneOutside | contrib/intarray/_intbig_gist.c:581-591 | The test with the complement decides inclusion of bits. |
| IntbigGist.GIntbigConsistent | contrib/intarray/_intbig_gist.c:491-601 | The consistency method for arrays, by the bits of the key. |
| IntbigGist.BoolConsistent | contrib/intarray/_int_bool.c:299-308 | A Boolean query on a signature is its over-approximation on the hashed values, on leaves too. |
| IntbigGist.SignAdmitsIff | contrib/intarray/_intbig_gist.c:491-601 | The internal test of a signature for an array operator holds exactly if some array whose bits it has satisfies the operator, for "contained by" one that is not empty. |
| IntbigGist.KeySound | contrib/intarray/_intbig_gist.c:491-601 | A key with the bits of an array does not hide it, except for empty arrays under "contained by" on internal pages. |
| IntbigGist.BuiltSigns | contrib/intarray/_intbig_gist.c:136-489 | Keys built by any nesting of compression, union and splits have the bits of every array that went into them. |
| IntbigGist.SearchIsExact | contrib/intarray/_intbig_gist.c:136-601 | Scanning any tree of such keys with the recheck returns exactly the arrays that satisfy the operator, in order; under "contained by" it does so if and only if no empty array lies below an internal key without a bit of the query. |
| IntbigGist.NonEmptyAreFound | contrib/intarray/_intbig_gist.c:136-601 | Under every strategy the non-empty arrays returned are exactly the non-empty arrays that satisfy the operator, whatever empty arrays the tree holds. |
| IntbigGist.EmptyArrayMissed | contrib/intarray/_intbig_gist.c:593-594 | A tree built by these methods in which a "contained by" scan misses an empty array. |
| QueryGrammar.Complete | contrib/intarray/_int_bool.c:155-226 | For every sentence of the grammar in which `!` binds tighter than `&`, and `&` tighter than the bar, with left association, the operator stack emits the postfix form of its tree, or reports that the stack of 16 overflows, exactly if it does. |
| QueryGrammar.BangsFit | contrib/intarray/_int_bool.c:150-226 | Sixteen negations of a value fit the stack, and seventeen do not. |
| QueryGrammar.Sound | contrib/intarray/_int_bool.c:155-226 | Whatever token sequence the compiler accepts is a sentence of that grammar, and what is emitted is the postfix form of its tree. |
| QueryGrammar.PostfixUnique | contrib/intarray/_int_bool.c:155-226 | A postfix sequence has one tree. |
| QueryGrammar.Unambiguous | contrib/intarray/_int_bool.c:155-226 | A token sequence has one tree. |
| QueryText.LexOrder | contrib/intarray/_int_bool.c:50-133 | Which token can come in which state of the tokenizer, how it changes the state and the depth of parentheses, and that values are 32-bit integers. |
| QueryText.TokensFollow | contrib/intarray/_int_bool.c:50-133 | The tokens of every text alternate between operands and operators with balanced parentheses up to the end or an error. |
| QueryText.WorkState.GetToken | contrib/intarray/_int_bool.c:50-133 | The state machine delivers the next token of the text and consumes it. |
| QueryText.WorkState.MakePolish | contrib/intarray/_int_bool.c:155-226 | The recursive stack algorithm pushes what the operator-stack specification emits, and fails when and as it fails. |
| QueryNumber.StandsForIff | contrib/intarray/_int_bool.c:95-102 | A numeral is read as a value exactly if it is a way to write it: in base 10, or behind a zero in base 8 up to the first digit 8 or 9, negative behind a minus sign. |
| QueryNumber.OctalReads | contrib/intarray/_int_bool.c:95-102 | Behind a zero every number in base 8 is read back, with either sign, whatever follows from a digit 8 or 9 on. |
| QuerySpelling.SpelledIff | contrib/intarray/_int_bool.c:50-133 | The tokens of a text are those of a sentence if and only if the text is made of them: each behind any number of blanks, values as numerals of at most 15 characters that stand for them and fit 32 bits, blanks at the end. |
| QuerySpelling.InputBySpelling | contrib/intarray/_int_bool.c:479-545 | An accepted text spells the sentence whose tree is compiled; a syntax error means that the text spells no sentence, too complex that it spells none that fits the stack, too many items that it spells one beyond the size limit. |
| QuerySpelling.NumeralInput | contrib/intarray/_int_bool.c:479-545 | A numeral alone compiles to one item with the value it stands for. |
| QuerySpelling.OctalInput | contrib/intarray/_int_bool.c:95-102 | The text 010 compiles to 8. |
| QueryItems.FindOprnd | contrib/intarray/_int_bool.c:442-473 | Back-patching links every operator of the tree to its left operand, visits every item exactly once from last to first, and changes no other item. |
| QueryItems.BqarrIn | contrib/intarray/_int_bool.c:479-545 | An accepted text is a sentence that fits the stack and the size limit, its values are 32-bit integers, and the linked items are those of its tree; a syntax error means that it is no sentence, too complex that it is none that fits, too many items that it is one beyond the size limit. |
| QueryItems.SmallQueriesLink | contrib/intarray/_int.h:121-130 | In queries of at most 32768 items every link fits 16 bits. |
| QueryItems.LinksLeadIff | contrib/intarray/_int_bool.c:442-473 | The links of a compiled query lead to the left operands if and only if no right operand has more than 32767 items. |
| QueryItems.ExecuteIsEval | contrib/intarray/_int_bool.c:268-297 | Evaluating the linked items is evaluating the tree; with negations taken as true it is the over-approximation. |
| QueryItems.EvalLaws | contrib/intarray/_int_bool.c:268-297 | Excluded middle, contradiction, absorption and the laws of De Morgan hold of query values. |
| QueryItems.LooseIsSound | contrib/intarray/_int_bool.c:268-297 | The over-approximation holds on every superset of a set that satisfies the query. |
| QueryItems.CheckConditionArr | contrib/intarray/_int_bool.c:237-257 | The binary search decides membership. |
| QueryItems.ExecuteArr | contrib/intarray/_int_bool.c:237-297 | Evaluation over a sorted array by binary search is the value of the tree on the set of its elements, or its over-approximation. |
| QueryItems.RequiredValueFound | contrib/intarray/_int_bool.c:366-399 | If a query has a required value, every set that satisfies it has one of the query's values. |
| QueryItems.RequiredIff | contrib/intarray/_int_bool.c:366-399 | A value is required exactly if the query, with negations taken as true, fails where no value is present. |
| QueryItems.ValuesInOrder | contrib/intarray/_int_gin.c:24-58 | The values of items are in the order of the items. |
| QueryItems.QueryExtract | contrib/intarray/_int_gin.c:24-58 | The extracted entries are the query's values in item order; default mode is chosen exactly if the query, with negations taken as true, fails where no value is present, and then no array that satisfies the query lacks all of them. |
| QueryItems.GinBoolConsistent | contrib/intarray/_int_bool.c:338-364 | On the presence bits of the extracted entries the result is the value of the query. |
| QueryPrint.DecimalReads | contrib/intarray/_int_bool.c:572-578 | A printed 32-bit value is read back, and fits the eleven bytes reserved for it. |
| QueryPrint.PrintedTokens | contrib/intarray/_int_bool.c:566-640 | The printed text is read as the tokens of a sentence of the grammar. |
| QueryPrint.PrintedFits | contrib/intarray/_int_bool.c:566-640 | That sentence never overflows the operator stack, whatever the tree. |
| QueryPrint.PrintedTree | contrib/intarray/_int_bool.c:566-640 | Its tree is the printed tree with chains of `&` associated to the left. |
| QueryPrint.LeftAssocSame | contrib/intarray/_int_bool.c:566-640 | Reassociating changes neither the value on any array nor the printed text. |
| QueryPrint.RoundTrip | contrib/intarray/_int_bool.c:479-662 | Every printed query is accepted again, means the same on every array, and prints as the same text. |
| QueryPrint.OutAndIn | contrib/intarray/_int_bool.c:479-662 | Output followed by input, as methods: the text of a compiled query is accepted and compiles to a query with the same value on every array and the same text. |
| QueryPrint.InOutIn | contrib/intarray/_int_bool.c:479-662 | Whatever text input accepts, its output is accepted again and compiles to the same tree up to the association of `&`. |
| QueryPrint.LongOperandOverruns | contrib/intarray/_int_bool.c:461-472 | For every operand of 32768 to 65534 items, the text of a disjunction with it on the right is accepted, and the link of its last item leads behind the items. |
| QueryPrint.LongOperandExists | contrib/intarray/_int_bool.c:461-472 | A negation of a balanced conjunction 14 levels deep is such an operand. |
| QueryPrint.Infix.Out | contrib/intarray/_int_bool.c:566-640 | Stepping backwards through the items, without their links, appends the infix text of the tree to the growing buffer without running past it. |
| QueryPrint.BqarrOut | contrib/intarray/_int_bool.c:643-662 | The output function returns the infix text of the query. |
| QueryPrint.AndLetters | contrib/intarray/_int_bool.c:566-640 | A conjunction of 1, 2 and a disjunction of -5 and 60 in the letters that are printed: blanks around operators, parentheses around the disjunction only. |
| QueryPrint.NotLetters | contrib/intarray/_int_bool.c:566-640 | Negations of a value and of a conjunction in the letters that are printed. |
| HstoreFormat.PackedUnique | contrib/hstore/hstore_op.c:1240-1251 | A value is determined by its pairs, down to every entry and flag. |
| HstoreFormat.KeyCmpTransitive | contrib/hstore/hstore_op.c:51-54 | Keys ordered by length and then by bytes are totally ordered. |
| HstoreFormat.KeyCmpSign | contrib/hstore/hstore_op.c:51-54 | A shorter key comes first; of keys of the same length, the one with the smaller byte where they first differ. |
| HstoreFormat.WellFormedIff | contrib/hstore/hstore_io.c:281-303 | Well-formed values are those of the present format and exact size whose keys are in that order. |
| HstoreFormat.LaidStep | contrib/hstore/hstore.h:99-126 | Appending the entries and strings of a pair appends the pair. |
| HstoreBuild.ReadBack | contrib/hstore/hstore.h:23-34 | Flags and positions below 2^30 survive being written as the four bytes of a word. |
| HstoreBuild.WordFields | contrib/hstore/hstore.h:23-30 | The flags and the position of an entry, by the word that its four bytes make up. |
| HstoreBuild.WordOfEntry | contrib/hstore/hstore.h:23-30 | The bytes of an entry make up the word of its position and flags. |
| HstoreBuild.BytesDetermined | contrib/hstore/hstore.h:23-34 | An entry is read from one sequence of four bytes only, so values with the same entries and strings are the same bytes. |
| HstoreBuild.Builder.constructor | contrib/hstore/hstore_op.c:254-271 | A new value has no pairs and room for strings behind the entries of the expected count. |
| HstoreBuild.Builder.CopyItem | contrib/hstore/hstore.h:99-106 | Copying a contiguous key and value adds that pair, null flag included, and advances both pointers. |
| HstoreBuild.Builder.AddItem | contrib/hstore/hstore.h:112-126 | Adding a pair adds its key and value; the value of a null pair is not looked at. |
| HstoreBuild.Builder.Finalize | contrib/hstore/hstore.h:129-140 | The result is a value of exact size with one first flag that holds the pairs added, also when the strings are moved down over unused entries. |
| HstoreMap.SortedUnique | contrib/hstore/hstore_op.c:1076-1080 | Sorted lists of pairs with the same map are the same list. |
| HstoreMap.TakeBoth | contrib/hstore/hstore_op.c:544-552 | For equal keys the merge keeps the second pair, and stays sorted. |
| HstoreMap.PassedAbsent | contrib/hstore/hstore_op.c:333-362 | If the next key comes before what is next in the other sorted list, it is not in that list. |
| HstorePairs.PairLeOrder | contrib/hstore/hstore_io.c:281-303 | The comparison that sorts input pairs is a total preorder. |
| HstorePairs.ComparePairsSign | contrib/hstore/hstore_io.c:281-303 | Pairs are ordered by their keys, and with equal keys what needs freeing comes later. |
| HstorePairs.HstoreUniquePairs | contrib/hstore/hstore_io.c:311-352 | In place, one pair of the input is kept for each key of the input, shorter keys first and then by bytes, one that needs freeing only if all pairs of its key do; the buffer length is what the kept pairs need. |
| HstorePairs.HstorePairs | contrib/hstore/hstore_io.c:375-402 | The pairs are packed in the order given, or refused exactly if they are too large. |
| HstorePairs.HstoreArrayToPairs | contrib/hstore/hstore_op.c:73-125 | The keys are exactly the non-null elements, in strict key order. |
| HstoreOps.Delete | contrib/hstore/hstore_op.c:247-290 | The result is well-formed and its map is the map without the key. |
| HstoreOps.DeleteArray | contrib/hstore/hstore_op.c:293-369 | The result is well-formed and its map is the map without the keys of the array. |
| HstoreOps.DeleteHstore | contrib/hstore/hstore_op.c:372-468 | The result is well-formed and its map is the map without the pairs that the second map has with the same value, null or not. |
| HstoreOps.Concat | contrib/hstore/hstore_op.c:471-565 | The result is well-formed, its keys in order of length and bytes, and its map is the union in which the second map wins; it is refused exactly if both values together are too large. |
| HstoreSearch.HstoreFindKey | contrib/hstore/hstore_op.c:36-71 | From any lower bound below the key the search finds what a full search finds, and the new bound is above no later key. |
| HstoreSearch.PositionUnique | contrib/hstore/hstore_op.c:36-71 | A key has one position. |
| HstoreSearch.BoundCarries | contrib/hstore/hstore_op.c:30-35 | The cached bound is good for every later key of an ascending sequence. |
| HstoreSearch.Contains | contrib/hstore/hstore_op.c:965-1007 | Containment is inclusion of maps. |
| HstoreSearch.ExistsAny | contrib/hstore/hstore_op.c:164-195 | True exactly if the map has one of the keys. |
| HstoreSearch.ExistsAll | contrib/hstore/hstore_op.c:198-229 | True exactly if the map has all of the keys. |
| HstoreSearch.SliceToHstore | contrib/hstore/hstore_op.c:632-691 | The result is well-formed and its map is the map restricted to the keys; it never needs more room than the value. |
| HstoreOrder.HstoreCmp | contrib/hstore/hstore_op.c:1083-1161 | The empty value comes first; otherwise the bytes of the strings decide, then the counts, then the first entry that differs: the smaller end first and, with equal ends, the null last. |
| HstoreOrder.CmpSign | contrib/hstore/hstore_op.c:1083-1161 | The order by fields is the lexicographic order of ranks that the laws below are about. |
| HstoreOrder.CmpIsTotalOrder | contrib/hstore/hstore_op.c:1083-1251 | It is a total order; it is 0 exactly if the maps are equal, and then the values are identical, as hashing the bytes relies on. |
| HstoreScan.HSParser.RunGetVal | contrib/hstore/hstore_io.c:60-173 | The state machine reads the word that recursive descent reads, with its escapes, and stops at the same place or with the same error. |
| HstoreScan.HSParser.ParseHstore | contrib/hstore/hstore_io.c:182-279 | The state machine reads the pairs that recursive descent reads, or reports the same error at the same position. |
| HstoreScan.Letters | contrib/hstore/hstore_io.c:60-279 | The bytes that the parser looks for, as characters, and the six bytes that are blanks. |
| HstoreGrammar.AcceptedIffListed | contrib/hstore/hstore_io.c:60-279 | A text is read as a list of pairs if and only if the grammar of hstore text derives it with exactly these pairs: words in quotes or bare, backslashes, blanks, arrows, commas with one more allowed at the end, and bare null told from quoted. |
| HstoreGrammar.RefusedIffUnlisted | contrib/hstore/hstore_io.c:60-279 | A text is an error exactly if the grammar derives it with no list of pairs. |
| HstoreGrammar.ListUnique | contrib/hstore/hstore_io.c:182-279 | A text has one list of pairs. |
| HstoreGrammar.PairIn | contrib/hstore/hstore_io.c:236-256 | A text of one pair, quoted or bare, means the map with that pair: the value is null exactly if it stands bare and spells null in capital or small letters. |
| HstoreGrammar.SmallNullIn | contrib/hstore/sql/hstore.sql:39-39 | The text aa=>null means a null. |
| HstoreErrors.ErrorIsFirst | contrib/hstore/hstore_io.c:60-279 | A refused text has a syntax error at a position if and only if the bytes before it begin some accepted text and with the byte there they begin none. |
| HstoreErrors.EndIsViable | contrib/hstore/hstore_io.c:60-279 | A refused text ends unexpectedly if and only if it is the beginning of an accepted text. |
| HstoreText.Cpw | contrib/hstore/hstore_io.c:1105-1117 | Copying escapes quotes and backslashes and needs at most two bytes for each. |
| HstoreText.HstoreOut | contrib/hstore/hstore_io.c:1119-1187 | The output is the text of the pairs, written with its final zero byte inside the buffer that was reserved; it is refused exactly if that buffer is too large. |
| HstoreText.ReservedByFields | contrib/hstore/hstore_io.c:1145-1153 | The room reserved is eight bytes for a pair, two for a byte of the strings and two more for a null. |
| HstoreText.PrintedLetters | contrib/hstore/hstore_io.c:1157-1183 | A pair with a text and one with a null in the letters that are printed. |
| HstoreText.EscapedLetters | contrib/hstore/hstore_io.c:1105-1117 | Quotes and backslashes, and only they, are printed behind a backslash. |
| HstoreText.HstoreIn | contrib/hstore/hstore_io.c:406-422 | Input is refused exactly if the text is malformed, else the value is well-formed, its keys in order of length and bytes, has every key of the text and only pairs of the text. |
| HstoreText.RoundTrip | contrib/hstore/hstore_io.c:60-402 | The text of a well-formed value is accepted, and the only value that can be built from it is the value itself, with null told from "NULL"; there is always room for it. |
| HstoreText.OutAndIn | contrib/hstore/hstore_io.c:406-1187 | Output followed by input returns the identical value whenever there is room for the text. |
| HstoreText.AcceptedIffClean | contrib/hstore/hstore_io.c:60-279 | The text of a value is accepted exactly if none of its strings has a zero byte. |
| HstoreText.InputIsClean | contrib/hstore/hstore_io.c:60-279 | No value built from text has a zero byte. |
| HstoreCompat.HstoreValidOldFormat | contrib/hstore/hstore_compat.c:170-229 | The test accepts exactly the values whose keys do not get shorter and whose strings lie one behind the other inside the value, and tells whether there is slop. |
| HstoreCompat.OldWordFields | contrib/hstore/hstore_compat.c:99-106 | The fields of an old entry, by the two words that its eight bytes make up. |
| HstoreCompat.HstoreValidNewFormat | contrib/hstore/hstore_compat.c:118-162 | The test accepts exactly the values with one first flag, ordered positions inside the value, keys that do not get shorter and later keys that are not null, and tells whether there is slop. |
| HstoreCompat.Convert | contrib/hstore/hstore_compat.c:316-344 | Overwriting each old entry with two new ones, in place, yields a value of exact size with the same keys, values and nulls in the same order; it is well-formed exactly if the old keys were in order. |
| HstoreCompat.HstoreUpgrade | contrib/hstore/hstore_compat.c:235-348 | What becomes of a value of each format. |
| HstoreCompat.OldIsConverted | contrib/hstore/hstore_compat.c:249-256 | An old value is converted exactly unless it is small and the length of its first value, being null, has its top bit set. |
| HstoreCompat.UpgradeKeepsIff | contrib/hstore/hstore_compat.c:235-348 | A valid old value keeps its keys, values and nulls if and only if it is not such a value. |
| HstoreCompat.MisreadValue | contrib/hstore/hstore_compat.c:170-256 | Any eight bytes of one old entry with such a length are a valid old value that holds one null pair, and every upgrade of it is the claim of a byte that is not there. |
| HstoreCompat.MisreadInput | contrib/hstore/hstore_compat.c:170-256 | The bytes 0, 0, 0, 128, 1, 0, 0, 0 behind a count of one are such a value. |
| HstoreCompat.PrereleaseIsUpgraded | contrib/hstore/hstore_compat.c:249-308 | A value in the new format without its flag becomes the value it stands for, slop removed, unless it is large and can be taken for an old one. |

## Left out

- Levenshtein.LevenshteinLessEqualInternal: costs are not negative and sums do not overflow 32 bits; the source assumes both without a check.
- Levenshtein.FillRow: the loop for single bytes and the one for multibyte characters are one loop here whose comparison takes either path.
- Multibyte.CharAtOffset: `pg_mblen` is a parameter; strings are valid in their encoding.
- BtreeVar.NodeCpLen: the multibyte case (`eml > 1`) of text keys and the bit string keys are not modelled; the operator class is that of `bytea`.
- BtreeVar.BuiltSees: splits are included only where they hide none of their entries, since the others lose rows.
- IntGist.GIntDecompress: a loop that does not end is the result `Endless`; what the source writes past its buffer meanwhile is not modelled.
- IntGist.SearchIsExact: leaf arrays have fewer than 200 elements, beyond which the source warns; internal keys are those that could be read; splits of pages are not modelled for this operator class.
- QueryItems.ExecuteIsEval: links fit 16 bits; of other queries only where their links lead is stated (see Findings), not what the source reads there.
- QueryItems.ExecuteArr: links fit 16 bits, as for `QueryItems.ExecuteIsEval`.
- QueryItems.RequiredValueFound: links fit 16 bits, as for `QueryItems.ExecuteIsEval`.
- QueryItems.GinBoolConsistent: links fit 16 bits, as for `QueryItems.ExecuteIsEval`.
- IntGist.ExecConsistent: links fit 16 bits, as for `QueryItems.ExecuteIsEval`.
- IntbigGist.BoolConsistent: links fit 16 bits, as for `QueryItems.ExecuteIsEval`.
- QueryText.LexOrder: `strtol` reads a lone minus sign as 0 without an error, as the GNU C library does.
- QueryItems.QueryExtract: only Boolean queries whose links fit 16 bits; the array strategies of GIN are simple dispatch.
- HstoreText.HstoreIn: which of several pairs with the same key survives is not stated, since the sort is not stable.
- HstoreErrors.ErrorIsFirst: texts that come within eight bytes of the largest string allowed are not covered, since what would finish them could be too long.
- HstoreErrors.EndIsViable: the same.
- IntGist.NodeAdmitsIff: for Boolean queries only soundness is stated, since negations are not looked at.
- IntbigGist.SignAdmitsIff: for Boolean queries only soundness is stated, since negations are not looked at.
- HstoreGrammar.AcceptedIffListed: the text is a C string, so it has no zero byte.
- HstoreScan.HSParser.RunGetVal: the growing word buffer is a sequence; `isspace` is that of the C locale.
- HstoreCompat.HstoreValidNewFormat: the entries that the count speaks of are taken to be there, as for `HstoreCompat.HstoreUpgrade`.
- HstoreCompat.HstoreUpgrade: entries are laid out as on little-endian machines with bit fields from the low end; the entries that the count speaks of are taken to be there, since the source reads them without a check; a value without flag whose last position lies behind its end gives `Overrun`, where the source would return a value larger than its memory.
- HstoreFormat.PackedUnique: values are at most 2^30 - 1 bytes, as all values of variable length are.
- Penalty functions (floating point), index builds and page management of GiST.
- Memory management, detoasting, function call interface, error texts.
- hstore conversions to and from records, arrays and JSON, binary input and output, its GIN and GiST support.
- The single-key accessors of hstore (`fetchval`, `exists`, `defined`, `akeys` and the like): direct uses of the search.
- Other contrib modules: ltree, cube, isn, soundex, metaphone, dblink and the rest.
