# A verified model of jsonparser

jsonparser reads and edits JSON without building a document tree. Every operation is a hand-written byte scanner over
integer offsets, and every edit is a splice of bytes. This project models those scanners and splices in Dafny and proves
that they implement what a tree-based library would do: lookup by path, iteration, overwriting, inserting, appending,
deleting, streaming lookup, and the codecs underneath.

How it is built:

- `Bytes`, `Integers`, `Strings`, `Escapes`, `Scanners`, `Paths` model the byte-level code of bytes.go, escape.go,
  path_compiler.go and the token scanners of parser.go. Each loop of the source is a method with a loop, proved equal to
  a short recursive reference definition, and the reference is what the lemmas are about.
- `Decimals`, `Unescaping` and `Grammar` say on their own terms what numerals, numbers and string bodies are read as: decimal
  numbers digit by digit, the pieces of a string, the UTF-8 grammar.
- `Syntax` is a concrete syntax tree that keeps every byte of a text, whitespace included. `Print` gives the text back;
  a document is well-formed when it is the print of a well-formed tree: sections 2 to 7 of RFC 8259, except that strings
  may hold raw control bytes, as every scanner lets them through. `ControlFree` trees have none, which makes them exactly
  those of the RFC, and every edit keeps a tree control-free. `Locate` is backtracking lookup in the tree. `Layout`,
  `Blocks`, `Contexts` say where the parts of a printed tree are and how replacing one changes the text.
- `Lookup` models Get, ArrayEach and the flat key search of parser.go; `TreeValues`, `TreeLookup` and `MixedPaths` prove
  what they return on printed trees, `Indexing` what an index selects, `QuoteStyles` and `QuoteStreams` that single quotes
  are as good as double quotes, `Refusals` and `Truncation` what is returned when there is nothing to find or the text
  breaks off. `Stability` proves that a hit depends only on the bytes before it.
- `Insert`, `Setting`, `SetLaws`, `Growth`, `Coercion`, `SetPaths`, `TrailingCommas`, `Appending`, `AppendMissing`, `Deleting`,
  `DeleteNames`, `DeleteLaws`, `DeleteLimits`, `DeleteExamples` model the edits and prove their laws. What a text denotes,
  layout forgotten and names and strings decoded, is `Abs` in `DeleteLaws`.
- `EachKeys`, `EachKeysErr`, `EachKeyLaws` model the many-path scan and the one that a callback can stop; `Containers`,
  `ContainerLaws` the container lengths and ObjectEach.
- `Streams` reduces a chunked reader to the bytes it delivers and the error that ends them; `Reader` is the streaming
  parser as a class with its sliding window; `ReaderLaws` proves it equal to tree lookup and to the in-memory parser, and
  `BrokenStreams` that it returns nothing that was cut short.

Conventions: a Config carries the two parsing switches (single quotes, unknown escapes); theorems hold for every
configuration unless they name STRICT, the default. Errors are an enumeration. "Plain" paths have no component that
starts with a bracket. A path "leads" to a value when at every object on the way only one member has the wanted name; it
"designates" the value then, and also when it is a path of names and the value is its first match.
A callback that can fail is given by what it returns at the last of the calls made to it so far (`Callbacks`). A path
"strays" when the search for it comes upon a value that the tree does not have at that path.
Slices are values; a method that works on `data[i:]` in the source takes `data` and `i` where no proof needs the slice.

Where the code does not do what one would expect, the model follows the code:

- An index component that falls on a scalar is answered from the next array among the siblings (`MixedPaths`).
- Block ends count one bracket kind, so crossing brackets pass (`Blocks.BlockEndIsWeaker`, `Blocks.BlockEndMatches`).
- Delete decodes the wanted name to find the member, but not to find its value, decodes the names of the document into the
  buffer that may hold the wanted one, takes a name that starts with a bracket for an index, and looks into the first match
  of the rest of the path only. It removes exactly the member that Get finds if and only if its name is not decoded, does
  not start with a bracket, and lies in that first match (`DeleteLimits.DeleteMemberExactly`). `DeleteExamples` has a
  document for each way to fail.
- Set writes missing names as they are. One with an escape in it is read back as another name, and Get at the path then
  finds nothing (`Growth.SetInsertsThenGet`, `Growth.EscapedNameExample`).
- Set at a missing path that strays overwrites the value it comes upon (`SetPaths.SetStrays`), and a missing index is not
  looked at: the new element is the last one of its array (`SetPaths.SetCreatesThenGet`).
- A container length can be returned for an object whose names do not decode; ObjectEach then fails
  (`Containers.UndecodableNameExample`).
- The streaming Get refuses a path with an empty component, the in-memory Get does not (`ReaderLaws.StreamAgrees`).
- parseInt can report overflow for a text that later holds a bad byte (`Integers.ParseInt`).

## Model

| member | source | states |
|---|---|---|
| Integers.ParseInt | bytes.go:9-72 | ok exactly for an optional minus and one or more digits whose value fits int64, and then v is that value (else 0); overflow exactly when some run of leading digits reaches 2^64, or the whole text is an integer out of range |
| Integers.ParseShort | bytes.go:25-38 | at most eighteen digits: the unchecked accumulation cannot wrap and answers as the whole parser must |
| Integers.ParseLong | bytes.go:40-71 | any length and any leading zeros: the uint64 wrap test before each step is exact |
| Integers.ShortBound | bytes.go:25-32 | eighteen digits stay below 10^18, so the fast path is far inside int64 |
| Integers.RejectsOverflow | bytes.go:49-56 | a digit prefix that reaches 2^64 already rules out an int64 value, whatever follows |
| Decimals.WritesExactly | bytes.go:25-71 | the parsers read a text of digits as n if and only if it is n written out in decimal, behind any number of zeros |
| Decimals.IntegersAre | bytes.go:9-72 | an integer text denotes z if and only if it is z written out in decimal behind any zeros, behind a minus for z <= 0 |
| Decimals.AtoiIs | parser.go:575-580 | strconv.Atoi on a 64-bit int accepts exactly the numerals in range with an optional sign, each for its own value |
| Decimals.IndexesAre | parser.go:566-580 | an index component is a numeral in brackets, not negative and in range, and selects the element with that number |
| Decimals.IndexRead | parser.go:566-580 | "[n]" with n in decimal selects element n, and nothing when n does not fit an int |
| Decimals.NegativeIndex | parser.go:566-587 | "[-n]" for n > 0 selects nothing |
| Strings.StringEnd | parser.go:301-372 | the word-at-a-time scan with backslash counting stops where the plain forward scan with an escape flag stops, for every text and quote; the flag says whether a backslash occurs before that position |
| Strings.SkipWords | parser.go:322-340 | the eight-byte prefix loop skips no quote and no backslash |
| Strings.NoZeroLane | parser.go:331-335 | the word trick reports no bit exactly when none of the eight lanes is zero |
| Strings.SwarMiss | parser.go:324-335 | a word without a hit holds none of the sought byte |
| Strings.RunParity | parser.go:356-366 | a maximal run of backslashes before an offset is odd exactly when the offset is escaped |
| Strings.BackslashParity | parser.go:356-366 | the backward loop, two backslashes at a time, decides that parity |
| Strings.StrEndStable | parser.go:301-372 | a found end depends only on the bytes before it |
| Strings.StrEndShift | parser.go:301-372 | scanning a suffix is scanning the whole text, shifted |
| Escapes.Unescape | escape.go:289-336 | the buffer-writing form computes the reference unescaping and fails exactly when an escape is invalid; the front of a large enough buffer is overwritten by what was emitted, even if an invalid escape follows, and the rest of it stays |
| Escapes.UnescapeLoop | escape.go:303-332 | the loop never writes past a buffer of input length: written plus remaining input is at most the input |
| Escapes.UnescapeToUTF8 | escape.go:185-223 | one escape: bytes taken and bytes written are those of the reference, at most the remaining input, and nothing else in the buffer changes |
| Escapes.Escape | escape.go:230-264 | copying plain runs whole and escaping the rest byte by byte gives the concatenation of the escaped bytes between quotes |
| Escapes.EscapeRoundTrip | escape.go:230-336 | for every byte string and configuration, unescaping the body of the escaped string gives the string back |
| Escapes.EscapedEnds | escape.go:230-264 | the string scan behind the first quote of an escaped string stops exactly at its last byte |
| Escapes.SurrogateBijection | escape.go:22-24 | high/low pairs are in bijection with U+10000 to U+10FFFF (section 2.2 of RFC 2781), and combining inverts splitting |
| Escapes.DecodedScalar | escape.go:123-163 | every accepted Unicode escape denotes a scalar value; twelve bytes are taken exactly for a high and a low surrogate; a lone surrogate gives U+FFFD |
| Escapes.UnicodeRoundTrip | escape.go:64-163 | any scalar value written with \u escapes, each digit in either case, as a pair above the basic plane, unescapes to its UTF-8 form |
| Escapes.HexDigitRead | escape.go:64-76 | a byte is read as the digit n if and only if it is the lower-case or the upper-case digit for n |
| Escapes.ScalarDecodes | escape.go:123-163 | the escapes of a scalar value, digits in any case, decode to it and take all their bytes, whatever follows |
| Escapes.EncodeRuneInvertible | escape.go:208-210 | the UTF-8 bytes written for a scalar value determine it (section 3 of RFC 3629) |
| Escapes.EncodeShort | escape.go:123-163 | a six-byte escape writes at most three bytes |
| Unescaping.UnescapedIs | escape.go:165-336 | unescaping yields t if and only if the text splits into pieces that stand for t: plain bytes, the eight short escapes with their bytes, \u escapes, pairs, surrogates without a partner, what the two switches let through, and nothing else |
| Unescaping.Utf8Bijection | escape.go:208-210 | the encodings of the scalar values are exactly the characters of the UTF-8 grammar (section 4 of RFC 3629), so always the shortest form, and each denotes its scalar value |
| Unescaping.EscapeShortest | escape.go:230-264 | Escape writes every byte in the shortest form there is, and takes lower-case digits where the form leaves a choice |
| Scanners.NextToken | parser.go:241-276 | offset of the first byte that is not whitespace, or -1 |
| Scanners.LastToken | parser.go:279-293 | offset of the last byte that is not whitespace, or -1 |
| Scanners.TokenEnd | parser.go:55-66 | offset of the first byte that ends a number or literal, or the length |
| Scanners.FindTokenStart | parser.go:82-93 | offset of the nearest comma with no opening bracket behind it, or 0 |
| Scanners.BlockEnd | parser.go:382-437 | the counting scan with its bulk skips equals the byte-by-byte count of one bracket kind outside strings |
| Scanners.BlockStable | parser.go:382-437 | a found block end depends only on the bytes before it |
| Blocks.StackEndIsBlockEnd | parser.go:382-437 | wherever a stack of both bracket kinds matches, the one-bracket counter ends at the same offset |
| Blocks.StackImpliesBlock | parser.go:382-437 | the counter always equals the brackets of its kind on the stack |
| Blocks.BlockEndIsWeaker | parser.go:423-431 | the converse fails: "[}]" has a block end but no stack match |
| Blocks.BlockEndMatches | parser.go:382-437 | a block end is a stack match if and only if every bracket that opens inside is closed inside by the counter of its own kind, and so on all the way down |
| Blocks.NodeEnds | parser.go:382-437 | both scans end a printed object or array at its closing bracket |
| Syntax.LocateSound | parser.go:445-620 | reference: what the tree search answers is a chain of the tree that spells the path |
| Syntax.LocateFirst | parser.go:445-620 | reference: a chain that spells the path implies an answer, the same chain or an earlier one in document order |
| Grammar.NumbersAre | parser.go:2486-2535 | reference: the numbers of section 6 of RFC 8259 are an optional minus, a decimal numeral without leading zeros, an optional fraction and an optional exponent |
| Grammar.BodiesAre | parser.go:301-372 | reference: the string bodies of section 7 of RFC 8259, with control bytes, are sequences of plain bytes, short escapes and \u escapes with digits in any case |
| Grammar.Whitespace | parser.go:241-250 | whitespace is the four characters of section 2 of RFC 8259 |
| Grammar.Characters | parser.go:241-620 | the codes the scanners compare against are those of the characters and words they are named for |
| Lookup.GetType | parser.go:1581-1653 | type, end and error of the value at an offset; the value is the bytes up to the end, and empty on error |
| Lookup.Get | parser.go:1669-1694 | the search, then the closest value: strings lose their quotes, errors return no value |
| Lookup.SearchKeys | parser.go:445-620 | the loop with bulk skips, level counters and early exits runs the token machine whose steps the tree proofs unfold, on any bytes |
| Lookup.SearchElement | parser.go:566-603 | the index branch: iterate the array, keep the selected element with its quotes put back, search the remaining keys in it |
| Lookup.LevelInRange | parser.go:525-566 | on any bytes keyLevel == level implies 0 <= level < len(keys), so no key index is out of range |
| Lookup.ArrayEach | parser.go:1703-1800 | callbacks in order, offset and error of an iteration over the array at a path |
| Lookup.EachElements | parser.go:1749-1797 | the element loop makes the callbacks of the reference iteration |
| TreeValues.ValueTyped | parser.go:1581-1653 | the type and end found at a printed value are the shape and end of the tree |
| TreeValues.GetValue | parser.go:1682-1691 | Get at or before a printed value returns that value |
| TreeValues.EachArrayAt | parser.go:1703-1800 | iterating a printed array: one error-free callback per element, in order, with its value, type and offset, and success |
| TreeValues.PrimTyped | parser.go:1605-1650 | a printed number or literal is typed by its text and ends at its delimiter |
| TreeLookup.SearchIsTreeSearch | parser.go:445-620 | for paths with no bracket component, on every well-formed document and configuration, duplicates allowed: the offset behind the colon of the first complete match in document order, and -1 exactly when there is none |
| TreeLookup.SearchPlainValue | parser.go:445-620 | the invariant level - 1 <= keyLevel is kept by every value, which is either searched to a hit or passed |
| TreeLookup.GetIsTreeLookup | parser.go:1669-1694 | Get on such paths: value, type and offsets of the located subtree, or not found |
| TreeLookup.SearchFindsLeading | parser.go:563-611 | a path of keys and indexes that leads unambiguously to a value is found there, through string offset correction and recursion |
| TreeLookup.GetFindsLeading | parser.go:1669-1694 | Get on such a path returns that value |
| TreeLookup.DesignatesGot | parser.go:1669-1694 | Get on a path that leads to a value, or a path of names of which it is the first match, duplicates or not, returns that value |
| TreeLookup.SearchMissesPastEnd | parser.go:566-603 | a bracket component that selects no element of the array the path leads to, because it is past the end or no index, is not found |
| TreeLookup.DupFreeLeads | parser.go:445-620 | without duplicate names every path that resolves leads unambiguously |
| TreeLookup.PickedElement | parser.go:573-599 | the element kept by the index branch is the text of the subtree, strings with their quotes |
| Indexing.GetElement | parser.go:566-603 | "[n]" behind a path that leads to an array: Get returns element n, or not found when there is none |
| Indexing.StreamElement | reader_parser.go:324-395 | the streaming Get at such a path: value and type of element n, or not found |
| Indexing.RootElement | parser.go:566-603 | "[n]" on a document that is an array: value and type of element n, in memory and streaming, or not found |
| MixedPaths.SearchIsSeek | parser.go:445-620 | for every path of keys and indexes on documents without duplicate names: exactly what the search returns, including where a counter left behind by a scalar makes it answer from a sibling array |
| MixedPaths.SeekIsLocate | parser.go:525-566 | that is tree lookup unless the path strays; a straying path has no value, yet something is found |
| MixedPaths.SearchIsLookupUnlessStray | parser.go:445-620 | the search is tree lookup if and only if the path does not come upon a scalar where an index is due with an answering array later among the siblings |
| MixedPaths.GetIsLookupUnlessStray | parser.go:1669-1694 | the same for Get, value and type included |
| MixedPaths.StrayExample | parser.go:525-534 | {"a":1,"c":[5]} with path a, [0]: no such value, but the offset of the 5 is returned |
| Stability.SearchStable | parser.go:445-620 | on any bytes, a hit of a plain path depends only on the bytes up to it |
| Stability.SearchAdvances | parser.go:445-620 | such a hit lies strictly behind where the search started |
| Insert.CalcAllocateSpace | parser.go:1179-1219 | exactly the number of bytes the component will have |
| Insert.CreateInsertComponent | parser.go:1128-1176 | a buffer of exactly that size is filled to its last byte with the component |
| Setting.Set | parser.go:1400-1573 | the code, with its prefix walk and result buffer, returns the splice (or refusal) of the reference, whose effect on documents the laws below state |
| SetLaws.GetAfterSet | parser.go:1561-1571 | on arbitrary, even malformed bytes: if Get finds a plain path, overwriting it with any complete string, array or object makes Get return that token |
| SetLaws.GetAfterSetPrimitive | parser.go:1561-1571 | the same for a number or literal, on any bytes: Get reads it back if and only if a delimiter or the end follows the value it took the place of |
| SetLaws.SetTwice | parser.go:1561-1571 | setting the same token twice is setting it once |
| SetLaws.SetReplaces | parser.go:1561-1571 | on well-formed documents exactly the addressed value is replaced, every other byte stays, and the result is well-formed; for paths of names duplicates are allowed |
| SetLaws.SetFrame | parser.go:1561-1571 | value and type at every diverging path that resolves are unchanged by a Set |
| SetLaws.SetThenGet | parser.go:1400-1573 | after a Set, Get at the path returns the new value; repeating the Set changes nothing; for paths of names duplicates are allowed |
| SetLaws.SetStringThenGet | escape.go:266-270 | SetString at such a path, any bytes: Get then returns a string that unescapes to them |
| Contexts.PrintReplaced | parser.go:1561-1571 | replacing a subtree keeps everything around it byte for byte |
| Growth.SetInserts | parser.go:1400-1573 | a missing path of names below an object: the result is the text of the document with the nested chain appended as the last member of that object; well-formed when the missing components are well-formed between quotes |
| Growth.SetInsertsThenGet | parser.go:1400-1573 | when the missing names are well-formed between quotes: Get at the path then returns the value that was set if and only if they have no backslash; otherwise it still finds nothing |
| Growth.EscapedNameExample | parser.go:1144-1146 | setting the name \n, with its backslash, in {} gives {"\n":1}, and Get does not find it |
| Growth.LocateInserted | parser.go:1506-1560 | for the same names: the inserted value is the first match of the path in the new tree if and only if they have no backslash; otherwise the path has no value |
| Growth.ComponentIsMember | parser.go:1128-1176 | the component is the printed nested member, after a comma or inside braces as asked |
| Coercion.SetCoerces | parser.go:1439-1572 | a missing path of names that runs into a scalar or an array: that value is replaced by the nested chain, every other byte stays |
| Coercion.SetCoercesThenGet | parser.go:1400-1573 | when the missing names are well-formed between quotes: Get at the path then returns the value that was set if and only if they have no backslash |
| Coercion.SetRefuses | parser.go:1491-1494 | a root scalar, and a root array for an empty component, make Set return path-not-found |
| Coercion.ComponentIsNest | parser.go:1128-1176 | the component in braces of its own is the printed chain |
| SetPaths.SetCreates | parser.go:1400-1573 | any missing path of names and indexes that does not stray, without duplicate names: a name is added to the object where the path breaks off, an index to the array with elements there, and any other value gives place to the chain of the missing components; every other byte stays |
| SetPaths.SetRefusesPath | parser.go:1491-1494 | for any path, a root scalar, and a root array for an empty name, make Set return path-not-found |
| SetPaths.SetCreatesThenGet | parser.go:1400-1573 | when the missing names are well-formed between quotes and have no backslash: Get at the path then returns the new value if and only if every missing index is the one of the element it created |
| SetPaths.SetStrays | parser.go:1400-1573 | a missing path that strays: the value the search comes upon is overwritten, every other byte stays |
| SetPaths.SetStraysExample | parser.go:525-534 | {"a":1,"c":[5]} and the path a, [0]: Set overwrites the 5 |
| SetPaths.ComponentIsElement | parser.go:1128-1176 | the component of an index is the printed nested element, after a comma or inside brackets of its own |
| SetPaths.CreatedAtTop | parser.go:1439-1504 | nothing of the path exists: append to a root array, replace an empty one or a root object, or insert into the root object |
| SetPaths.CreatedBelow | parser.go:1505-1536 | part of the path exists: insert, append, or replace what is there |
| TrailingCommas.CommaIgnored | parser.go:1463-1490 | Set at an index that a root array does not have: a comma behind the last element, or alone in an empty array, with whitespace behind it, makes no difference to the result |
| Appending.Append | append.go:10-49 | the code with its result buffer equals the reference: splice before the closing bracket, or Set of a one-element array when the path is missing |
| Appending.AppendSplices | append.go:25-48 | at an array: the value goes before the closing bracket, after a comma exactly when there are elements |
| Appending.AppendIsSetPastEnd | append.go:10-49 | for a non-empty array Append gives byte for byte the result of Set at any index past the end |
| Appending.AppendGrows | append.go:10-49 | one Append adds the value as the last element of the array the path designates and keeps the document well-formed |
| Appending.AppendsReadBack | append.go:10-49 | any run of Appends from an empty array is read back by ArrayEach: the appended values, in order; for paths of names duplicates are allowed |
| AppendMissing.AppendCreates | append.go:12-23 | at a path that breaks off anywhere: the text of the document in which the chain of the missing components, down to the array of the one value, is created there |
| AppendMissing.AppendStarts | append.go:12-23 | when the missing components read back: Get at the path then returns the array of the value, and ArrayEach calls back for the value and nothing else |
| AppendMissing.AppendsFromNothing | append.go:10-49 | any run of Appends at a path that does not exist yet is read back by ArrayEach: the appended values, in order |
| AppendMissing.AppendRefuses | append.go:25-32 | at a path that designates a value other than an array: malformed array |
| AppendMissing.AppendRefusesRoot | append.go:12-23 | at a missing path of a document that Set refuses to extend: path not found |
| Deleting.FindKeyStart | parser.go:101-173 | for every wanted name: the offset the reference search finds, in which the wanted name is decoded and, when it lives in the scratch buffer, is overwritten by each string with escapes on the way |
| Deleting.TryName | parser.go:117-155 | the string branch: hit or where to go on, and what the shared buffer has made of the wanted name |
| Deleting.DeleteFound | parser.go:1249-1383 | for every path the code returns the reference cut; when nothing is found the input comes back |
| Deleting.Cut | parser.go:1286-1383 | the comma, bracket and whitespace surgery on the found range |
| DeleteLaws.DeleteMember | parser.go:1249-1383 | deleting a member by a name that neither starts with a bracket nor is decoded (no backslash, or no valid decoding), any position and whitespace: the text of the document without the first member of that name, well-formed, denoting the original document with exactly that member removed |
| DeleteLaws.DeleteElement | parser.go:1249-1383 | deleting an array element: the text of the document without exactly that element, well-formed, denoting the original document with exactly that element removed |
| DeleteLaws.DropDenotes | parser.go:1249-1383 | what the whole document denotes afterwards: the original value with that one entry dropped at its place and nothing else changed |
| DeleteLaws.CutText | parser.go:1286-1383 | in every comma case (followed, only, last) the bytes that stay are the printed container without the entry |
| DeleteNames.ObjectHits | parser.go:101-173 | the name search of a printed object stops only at the name of a member, one whose decoded length is that of the wanted name, or nowhere; without a shared buffer at the first member of that name |
| DeleteNames.KeyFound | parser.go:101-173 | without a shared buffer it finds the quote of the first equal name, stepping over nested blocks |
| DeleteLimits.DeleteMisses | parser.go:112-155 | with a name that does not start with a bracket and is decoded, in the shared buffer or outside it, Delete never yields the document without the member that Get finds |
| DeleteLimits.DeleteBracketName | parser.go:1316-1383 | for a member that Get finds under a name that starts with a bracket, only the value is removed, with the comma behind it; its name and colon stay |
| DeleteLimits.DeleteMemberExactly | parser.go:1249-1383 | Delete removes exactly the member that Get finds if and only if its name neither starts with a bracket nor is decoded and the rest of the path has no earlier match than its container |
| DeleteLimits.CutElsewhere | parser.go:1286-1383 | a cut from the name of one member to the value of another keeps too much or too little |
| DeleteExamples.DeleteNothingExample | parser.go:112-116 | {"a\\b":2} and the name a\b: Get finds the 2, Delete removes nothing |
| DeleteExamples.DeleteBothExample | parser.go:112-155 | {"\\n":1,"a\\b":2} and the name a\b, all names made longer in the same way: Get finds the 2; Delete leaves {} as long as the name has at most 64 bytes, and removes nothing for a longer one |
| DeleteExamples.DeleteBracketExample | parser.go:1316-1383 | {"[0]":1} and the name [0]: Get finds the 1, Delete leaves {"[0]":} |
| DeleteExamples.DeleteTwiceExample | parser.go:1266-1285 | {"a":{},"a":{"b":1}} and the path a, b: Get finds the 1, Delete finds nothing |
| DeleteLimits.DeleteMissing | parser.go:1249-1383 | a path of names that the document does not have, duplicates allowed: the input comes back, not found |
| DeleteLimits.DeleteMissingMixed | parser.go:1249-1383 | the same for paths with indexes that do not stray, without duplicate names |
| DeleteLimits.DeleteMissingIndex | parser.go:1316-1353 | with an index as last component of a missing path nothing is removed if and only if the path does not stray |
| EachKeys.EachKey | parser.go:641-852 | callbacks and result of the loop equal the reference rounds, on any bytes; it terminates although it can step back |
| EachKeysErr.EachKeyErr | parser.go:857-1083 | the calls of EachKey, all of them, or those up to and including the first at which the callback returns an error; that error is returned unless it is io.EOF |
| EachKeysErr.VisitArray | parser.go:1815-1900 | arrayEachErr: the callback gets the elements of ArrayEach, all of them with the same offset and error, or those up to and including the one at which it stops; the count is their number |
| EachKeysErr.ArrayEachErr | parser.go:1807-1810 | any callback: the calls of ArrayEach cut at the first error, which is returned unless it is io.EOF |
| EachKeysErr.EachElementsErr | parser.go:1861-1899 | the element loop of arrayEachErr with its early stop |
| EachKeysErr.ElementCallback.Call | parser.go:1012-1054 | one element: the paths that ask for it are called back for in turn, until a call stops the scan |
| Callbacks.CutsOnce | parser.go:857-1083 | the callback alone settles which calls are made and what the last one returned |
| EachKeysErr.NeverFailing | parser.go:857-1083 | a callback that never fails gets the calls of EachKey |
| EachKeys.EachKeyRound | parser.go:666-849 | one round of the switch: calls, flags, names, level and next offset, which lies ahead of the current one |
| EachKeys.ResumeAfterKey | parser.go:734-748 | where the scan resumes behind a key, with the step back when nothing follows the colon |
| EachKeys.CallForKey | parser.go:711-732 | every unfound path that ends at the key is called back once and flagged |
| EachKeys.CallForArray | parser.go:789-829 | every path that wants an element is called back at most once, in element order |
| EachKeys.IsSameTree | parser.go:623-636 | one list of components is a prefix of the other |
| EachKeyLaws.NoPathTwice | parser.go:641-852 | on any bytes no path index is reported twice |
| EachKeyLaws.EachKeyReports | parser.go:641-852 | well-formed, no duplicate names, every path: exactly the callback that following the tree up to the first index, and searching the selected element on its own, gives, or none |
| EachKeyLaws.ReportedIsLocated | parser.go:641-852 | that is the value at the path if there is one; if not, there is a callback exactly when the search in an element strays or finds something in the bytes of a string |
| EachKeyLaws.EachKeyMisses | parser.go:806-825 | a path without a value gets no callback if and only if it does not stray in that sense; an index past the end, and an element that lacks the rest of the path, give none |
| EachKeyLaws.EachKeyFinds | parser.go:641-852 | well-formed, no duplicate names: each path that resolves gets exactly one callback, with the value and type Get returns, whatever the other paths are |
| EachKeyLaws.EachKeyIsGet | parser.go:641-852 | for plain paths, duplicates allowed: one callback with the results of Get if Get finds the path, none if not |
| EachKeyLaws.EachKeyReturns | parser.go:641-852 | on any bytes: an offset, that of a colon or an opening bracket, if and only if every path has been called back, else -1 |
| EachKeyLaws.KeyCallsAscend | parser.go:711-732 | at one key the paths are called back in the order in which they were given |
| EachKeyLaws.ArrayCallsAscend | parser.go:789-829 | in an array the callbacks go from element to element, and at each element the paths take their turn in order |
| EachKeyLaws.ElementAnswered | parser.go:806-825 | in an array: the element itself, or what a search in its tree, or in the bytes of a string, finds for the rest of the path, or nothing |
| Containers.ValidJSONNumber | parser.go:2486-2535 | accepts exactly the numbers of section 6 of RFC 8259 |
| Containers.CutsForced | parser.go:2486-2535 | a number splits into sign, integer, fraction and exponent in one way only |
| Containers.ValidContainerPrimitive | parser.go:2471-2483 | accepts exactly a number or literal followed by whitespace |
| Containers.ScanContainerLen | parser.go:2255-2463 | the state machine with its bracket stack counts as the phase-by-phase reference |
| Containers.GetContainerLen | parser.go:2175-2252 | length or error of the container at a path |
| Containers.ArrayLenCounts | parser.go:2255-2463 | any bytes: a length n without error means ArrayEach on the path succeeds with exactly n error-free callbacks |
| Containers.ObjectLenCounts | parser.go:2255-2463 | any bytes: a length n without error means ObjectEach succeeds if and only if the escapes of every name decode, and then makes exactly n callbacks; otherwise it fails at a name that does not decode |
| Containers.UndecodableNameExample | parser.go:1972-1980 | {"\x":1} has length 1, and ObjectEach fails without a callback |
| Containers.ObjectEach | parser.go:1909-2024 | any callback: the calls of the reference iteration over the object at a path, all of them with its error, or those up to and including the first at which the callback returns an error |
| ContainerLaws.LenOfContainer | parser.go:2175-2252 | on well-formed documents: the number of entries of the container the path designates, or not found for any other kind of value |
| ContainerLaws.LenIsMatched | parser.go:2255-2463 | on any bytes: a length without an error is that of a container whose brackets, of both kinds, match up to its closing one |
| ContainerLaws.ObjectEachMembers | parser.go:1909-2024 | at a path: one callback per member of the object it designates, in order, with decoded name, value and type; another kind of value is refused |
| Refusals.MissingPath | parser.go:1703-2252 | a path of names that the document does not have: no callback and path-not-found from ArrayEach and ObjectEach, path-not-found from the container lengths |
| Refusals.NotAnArray | parser.go:1722-1747 | ArrayEach at a path that designates another kind of value: no callback, malformed array, and the offset of the value |
| Refusals.BlankText | parser.go:1400-2252 | whitespace alone: what every operation returns |
| Refusals.BareToken | parser.go:1605-1650 | a token that is no string, array or object: the three words, whatever starts like a number, and unknown otherwise |
| Refusals.EditsWithoutPath | parser.go:1244-1404 | without a path, on any bytes, Set returns path-not-found and Delete the empty text |
| Refusals.StreamOfOther | reader_parser.go:116-135 | the streaming ArrayEach on a document that is no array: no callback, malformed array |
| Truncation.TruncatedGet | parser.go:1581-1694 | a text that breaks off inside its string, array or object: Get without a path returns the type, no value, and the error for that type |
| Truncation.TruncatedStream | reader_parser.go:438-552 | the streaming Get on such a text: the error of the stream, or at its end the error for the type of the value or of a string in it |
| Truncation.TruncatedArray | parser.go:1703-1747 | ArrayEach on an array that breaks off before its first element: no callback, malformed JSON |
| Truncation.TruncatedLen | parser.go:2255-2463 | a container that breaks off has no length: the error for its kind |
| Paths.ParsePath | path_compiler.go:17-96 | components or error of the reference grammar |
| Paths.ParseQuotedPathKey | path_compiler.go:99-129 | the decoded key and the offset behind its closing quote, or the error |
| Paths.ParseBracketPathComponent | path_compiler.go:132-158 | a bracket with digits or a star, kept with its brackets |
| Paths.ParseRoundTrip | path_compiler.go:17-158 | any list of written steps (bare keys, quoted keys with any escapes, indexes, stars, the last two with or without a dot), behind "$" or on its own, parses to the list of their components |
| Paths.ParseExactly | path_compiler.go:17-158 | a path parses to a list of components if and only if it is the text of a list of steps that stand for them, behind "$" or on its own; every other text is refused |
| Paths.RefusedExactly | path_compiler.go:17-129 | the error of a refused path: empty path for the empty text, unterminated key if and only if the path is written in steps up to a quote that is never closed, malformed in every other case |
| Paths.EscapedPathRoundTrip | path_compiler.go:17-129 | "$." and any non-empty list of dot-joined Escaped keys parses to that list, whatever bytes the keys hold |
| Paths.PieceHasParts | path_compiler.go:92-94 | a path that parses has at least one part, so the last check never fires |
| Streams.SteadyDelivers | reader_parser.go:622-671 | when only the last read returns an error, alone or with the last bytes, and fewer than 100 reads in a row are empty: exactly the concatenated chunks arrive, then that error or the end |
| Streams.ChunksDoNotMatter | reader_parser.go:609-671 | two readers of the same bytes and the same end give identical Get and ArrayEach results, however they cut them |
| Streams.ReadSome | reader_parser.go:638-658 | a read takes the first bytes off what is still to come, even when the buffer is smaller than the chunk |
| Streams.EmptyReads | reader_parser.go:638-671 | up to 99 reads in a row that return nothing change nothing; the hundredth ends the stream without progress |
| Reader.ReaderParser.constructor | reader_parser.go:37-46 | a new parser is at offset 0 of everything its reader delivers |
| Reader.ReaderParser.ReadMore | reader_parser.go:622-671 | the window grows by what was read, at most one read size beyond the longest retained token; an error is the one that ends the stream |
| Reader.ReaderParser.DiscardConsumed | reader_parser.go:674-681 | drops the consumed bytes and keeps the position in the stream |
| Reader.ReaderParser.PeekByte | reader_parser.go:609-619 | the next byte of the stream or the error that ends it; terminates by remaining bytes and remaining empty reads; a retained token is not moved |
| Reader.ReaderParser.SkipWhitespace | reader_parser.go:593-605 | stops at the next token of the stream |
| Reader.ReaderParser.ScanString | reader_parser.go:482-512 | ends where the plain string scan of the whole stream ends |
| Reader.ReaderParser.ScanComposite | reader_parser.go:515-552 | ends where the mixed-bracket stack match of the whole stream ends, with the right error otherwise |
| Reader.ReaderParser.ScanScalar | reader_parser.go:563-585 | ends at the first delimiter, or at the end of the stream when that is not an error |
| Reader.ReaderParser.CaptureValue | reader_parser.go:438-454 | returns exactly the bytes of the value in the stream; a captured slice is never cut |
| Reader.ReaderParser.ReadObjectKey | reader_parser.go:407-435 | whether the decoded name equals the wanted one, and the position behind it |
| Reader.ReaderParser.FindValue | reader_parser.go:201-228 | found, raw bytes, error and position are those of the reference search of the stream |
| Reader.ReaderParser.FindObjectValue | reader_parser.go:231-321 | the member loop, with backtracking past a name whose value lacks the rest of the path |
| Reader.ReaderParser.FindArrayValue | reader_parser.go:324-395 | the element loop for an index component; any other component skips the array |
| Reader.ReaderParser.Get | reader_parser.go:52-85 | the answer is a function of the delivered bytes and the final error alone; the window stays within one read size of a token of the stream |
| Reader.ReaderParser.ArrayEach | reader_parser.go:116-196 | callbacks and error are a function of the delivered bytes and the final error alone |
| Reader.GetFromBoth | reader_parser.go:52-85 | two parsers over the same bytes and end, other chunks and other window sizes: the same answer |
| ReaderLaws.FindIsLocate | reader_parser.go:201-395 | the streaming search of a printed value is the search in its tree, for every path, duplicates and indexes included |
| ReaderLaws.StreamGetIsTreeLookup | reader_parser.go:52-85 | what the streaming Get returns for every path on every well-formed document and every end of the stream |
| ReaderLaws.StreamAgrees | reader_parser.go:52-85 | plain paths, duplicates allowed, any end of the stream: the same results as the in-memory Get, except exactly for a path with an empty component that the document has, and for a root scalar that the stream breaks off behind |
| ReaderLaws.EmptyComponentExample | reader_parser.go:52-85 | {"":1} and a path of one empty component: the in-memory Get finds the 1, the streaming Get refuses |
| ReaderLaws.StreamAgreesUnlessStray | reader_parser.go:201-321 | paths with indexes, no duplicate names: the same results as the in-memory Get if and only if the path does not stray and the stream does not break off behind a root scalar |
| ReaderLaws.StreamEachElements | reader_parser.go:116-196 | one error-free callback per element of a root array, in order, whatever ends the stream behind it |
| BrokenStreams.BrokenGet | reader_parser.go:52-85 | on any bytes, a stream that breaks off: Get returns the error of the stream, or what it returns on every stream that starts with the same bytes |
| BrokenStreams.BrokenEach | reader_parser.go:116-196 | the same for ArrayEach: the calls made are those made on the longer stream, but for a last one that reports the broken element |
| QuoteStyles.GetEitherWay | parser.go:445-1694 | single quotes allowed, any bytes without a \u escape for a quote: exchange the two kinds of quotes in text and path, and Get answers the same with the quotes exchanged |
| QuoteStyles.EachEitherWay | parser.go:1703-1800 | the same for ArrayEach |
| QuoteStyles.MembersEitherWay | parser.go:1909-2024 | the same for ObjectEach |
| QuoteStreams.StreamEitherWay | reader_parser.go:52-85 | the same for the streaming Get |
| QuoteStreams.QuotedLookup | parser.go:1669-1694 | a document whose strings stand in single quotes: Get on a path of names is lookup in its tree |
| QuoteStreams.SingleQuoteExample | parser.go:481-489 | {'a':1} and the path a: the 1 where single quotes are allowed, not found where they are not |

## Left out

- DeleteLaws.DeleteElement: the path to the array must lead to it without ambiguity; with duplicate names on the way, an index component is not given a meaning.
- DeleteLimits.DeleteMissingMixed: says nothing when the looked-up part of the path strays, because another value is then found.
- Growth.SetInserts: when a missing name is not well-formed between quotes, the written text is given, but not what it denotes.
- Growth.SetInsertsThenGet: says nothing of a missing name with a bare quote or an undefined escape, which makes the result malformed.
- SetPaths.SetCreatesThenGet: documents with duplicate names; there only paths of names are given, in Growth and Coercion. For a missing name with a backslash it says nothing either.
- MixedPaths.SearchIsSeek: documents with duplicate names; there only plain paths are given exactly.
- EachKeyLaws.EachKeyReports: documents with duplicate names; there only plain paths are given, in EachKeyIsGet. Between rounds of the scan the order of the callbacks is given by the reference only.
- TrailingCommas.CommaIgnored: trailing commas below the root, which Set keeps: the new element follows behind another comma.
- QuoteStyles.GetEitherWay: texts that mix both kinds of quotes for strings, and edits, which write double quotes.
- EachKeysErr.EachKeyErr: callbacks whose answer depends on more than the calls made so far.
- Reader.ReaderParser.ReadMore: buffer capacity and reallocation; bufStart does not overflow.
- Real readers, clocks, allocation and running time: a reader is the list of what its reads return.
- Sharing of memory between a result and its input, and callbacks that change the data while it is scanned.
- GetString, GetInt, GetBoolean, GetFloat, GetUint64 and the other typed getters: one type check around Get and a codec.
- Float parsing and the fallback of GetUint64 to the standard library. strconv.Atoi is modelled as a decimal parse with sign and range.
- Wildcard paths (wildcard.go), the CompiledPath methods, aliases.go, config.go, fuzz.go, benchmark/: thin layers over what is modelled, or harnesses.
- bytes_safe.go and bytes_unsafe.go: conversions between strings and byte slices are the identity.
- Error message texts, and which error is returned on malformed input beyond what the references state.
