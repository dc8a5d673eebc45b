# qrc file generator, modelled in Dafny

`gen_qrc_file.py` writes a Qt resource collection (`.qrc`) file from a
list of path specifications. Each specification is a token. It is either
a bare path, or a `;`-separated list of `key:value` items such as
`prefix:/img;lang:fr;path:icons`. Tokens come from the command line and,
optionally, from the lines of a text file. The script works in four steps:

1. It parses every token into a record `{prefix?, alias?, lang?, path}`
   (`parse_pathdata`). A file of tokens is parsed as the set of its
   distinct non-blank stripped lines (`parse_file`).
2. It buckets file records by `(prefix, lang)`. A regular file gives one
   record with the specification's alias. Any other path gives an
   alias-less record for every regular file below it.
3. It sorts each bucket by file name. It then lists the buckets in a
   fixed order:
   - the bucket without prefix and lang;
   - the other prefix-less buckets, by lang;
   - each prefix in ascending order, its lang-less bucket first and then
     its langs.
4. It builds an `RCC` element tree, with one `qresource` element per
   bucket and one `file` element per record.

The model is split into these modules:

- `Text` (text.dfy): the Python string operations the script uses.
  These are `strip`, `lower`, `split` on one character, the substring
  test and the string order used by `sorted`. It also has `SortedKeys`,
  which is `sorted` applied to a set of strings.
- `Files` (files.dfy): the filesystem as a fixed snapshot. It answers
  `exists`, `is_file`, `is_dir` and `rglob('*')`. `Valid` says what
  a real filesystem guarantees of it; the lemmas do not need it and hold
  for every snapshot.
- `PathSpecParser` (path_spec_parser.dfy): `parse_pathdata`, a function
  returning a `Result` whose error tag says why a token was refused. It
  also has a reference reading of the keyed branch and the lemmas that
  tie the two together.
- `PathSpecSyntax` (path_spec_syntax.dfy): the token grammar written
  the other way round. It has the round trip from a specification to
  its token and back, the keys the parser ignores, and the surprising
  results of the substring test.
- `BatchReader` (batch_reader.dfy): `parse_file`, as methods looping
  over the lines and over the set of distinct tokens. `ParseFile`
  visits the set in any order, as the code does. `ParseFileSorted`
  visits it in ascending order instead, which makes the result depend
  only on the non-blank lines of the file (see Findings). It also converts a list of tokens in
  order (`ParseEach`), as argparse does with the positional tokens.
- `ResourceTree` (resource_tree.dfy): the bucketing loop and the
  per-bucket sort of `main`. Each is a method proved against a
  specification function (`Bucketed`, `SortedTree`). Independent
  references and lemmas state what those functions mean.
- `Manifest` (manifest.dfy): the assembly loops of `main`, proved to
  produce `Assemble`. `Assemble` is shown to list every bucket once, in
  the output order, and that order is shown to be the only one possible.
- `QrcTree` (qrc_tree.dfy): the element tree of `gen_qrc_file`, built
  step by step. It is proved to decode back to the document it was
  built from.
- `Generator` (generator.dfy): the pipeline of `main`, from tokens and
  file lines to the element tree, proved to compute `Outcome`, with
  end-to-end lemmas.

## Model

| member | source | states |
|---|---|---|
| Text.StripLeftSuffix | gen_qrc_file.py:13 | what `lstrip` keeps is a suffix of the input that is empty or starts with a non-space character, and everything it drops is whitespace |
| Text.StripRightPrefix | gen_qrc_file.py:13 | what `rstrip` keeps is a prefix of the input that is empty or ends with a non-space character, and everything it drops is whitespace |
| Text.StripEnds | gen_qrc_file.py:13 | a stripped string is empty or has no whitespace at either end, and is no longer than the input |
| Text.StripIsTrimmedSlice | gen_qrc_file.py:13 | `strip` returns a contiguous slice of the input, and everything around that slice is whitespace |
| Text.StripKeeps | gen_qrc_file.py:25 | stripping never introduces a character that was not in the input |
| Text.StripIdempotent | gen_qrc_file.py:59-65 | stripping twice gives what stripping once gives, so the repeated `strip` calls of `parse_file` change nothing |
| Text.Strip | gen_qrc_file.py:13 | `str.strip()`, also called at lines 25, 33, 60 and 65; `StripEnds`, `StripIsTrimmedSlice` and `StripIdempotent` state what it returns |
| Text.Lower | gen_qrc_file.py:19 | `str.lower()`, also called at line 33: the result is as long as the input and lower-cases each character on its own |
| Text.ContainsIff | gen_qrc_file.py:15 | the substring test holds exactly when the pattern occurs at some index |
| Text.Contains | gen_qrc_file.py:15-16 | the `in` test on strings; `ContainsIff` states that it holds exactly when the pattern occurs at some index |
| Text.LowerIdempotent | gen_qrc_file.py:33 | lower-casing a lower-cased string changes nothing |
| Text.LowerKeepsPunctuation | gen_qrc_file.py:16-19 | lower-casing neither adds nor removes a character that is not a letter, such as ':' or ';' |
| Text.Split | gen_qrc_file.py:26 | `split` returns at least one piece, and no piece holds the separator |
| Text.SplitJoin | gen_qrc_file.py:26 | joining the pieces of a split with the separator gives the string back |
| Text.SplitUnique | gen_qrc_file.py:26 | any list of separator-free pieces that joins to `s` is exactly the split of `s` |
| Text.SplitNoSeparator | gen_qrc_file.py:25 | a string without the separator splits into itself alone |
| Text.SplitAfterSeparatorFree | gen_qrc_file.py:25 | splitting `a + sep + b`, with `a` separator-free, gives `a` followed by the pieces of `b` |
| Text.SplitAppend | gen_qrc_file.py:26 | a separator-free last piece appended after a separator is split off as one more piece |
| Text.LexLeReflexive | gen_qrc_file.py:157-158 | every string is at most itself in Python's string order |
| Text.LexLeAntisymmetric | gen_qrc_file.py:157-158 | two strings each at most the other are equal |
| Text.LexLeTransitive | gen_qrc_file.py:157-158 | Python's string order is transitive |
| Text.LexLeTotal | gen_qrc_file.py:157-158 | any two strings are comparable |
| Text.LexLeIsTotalOrder | gen_qrc_file.py:157-158 | the string order is a total order, stated for all strings at once |
| Text.LexLe | gen_qrc_file.py:157-158 | `<=` on `str`, by code point and then by length, used by every `sorted` call (lines 157-158, 169, 175, 184); `LexLeIsTotalOrder` proves it a total order |
| Text.SortedKeys | gen_qrc_file.py:175 | `sorted` of a set of strings holds exactly the set's elements, in strictly ascending order |
| Text.LeastExists | gen_qrc_file.py:175 | every non-empty finite set of strings has a least element |
| PathSpecParser.KeyValuePiecesFromItems | gen_qrc_file.py:24-28 | each key:value piece is the `:`-split of some non-blank stripped `;`-item |
| PathSpecParser.KeyValuePiecesHasItem | gen_qrc_file.py:24-28 | each non-blank `;`-item contributes its `:`-split as a piece |
| PathSpecParser.KeyValuePiecesAppend | gen_qrc_file.py:24-28 | one more item adds its split at the end when it is not blank, and nothing otherwise |
| PathSpecParser.KeyValuePieces | gen_qrc_file.py:24-28 | the list comprehension over the `;`-items; `KeyValuePiecesFromItems`, `KeyValuePiecesHasItem` and `KeyValuePiecesAppend` state that it holds exactly the `:`-splits of the non-blank stripped items, in order |
| PathSpecParser.PieceIsClean | gen_qrc_file.py:25 | no piece of a `;`-free item holds ':' or ';' |
| PathSpecParser.LastValueFound | gen_qrc_file.py:24-28 | a value the dictionary holds for a key comes from some pair with that key |
| PathSpecParser.LastValue | gen_qrc_file.py:24-28 | the lookup in the dictionary built from the pairs, where a later pair overrides an earlier one; `LastValueFound` and `PathSpecSyntax.LastValueOpt` state what it returns |
| PathSpecParser.DictOf | gen_qrc_file.py:24-28 | `dict(pairs)` succeeds exactly when every element has length 2, and fails as malformed otherwise; on success each key maps to the value of its last pair |
| PathSpecParser.LowerPath | gen_qrc_file.py:19 | a path without ':' and ';' stays without them once lower-cased, and is then lower case |
| PathSpecParser.ParseBare | gen_qrc_file.py:15-22 | an accepted bare token names an existing, lower-case path without ':' or ';', with no prefix, alias or lang; a refusal is malformed or not found |
| PathSpecParser.ParseKeyed | gen_qrc_file.py:23-45 | an accepted keyed token names an existing, lower-case path without ':' or ';', and has no alias when the path is a directory |
| PathSpecParser.ParsePathData | gen_qrc_file.py:9-47 | an accepted token names an existing, lower-case path free of ':' and ';', and never puts an alias on a directory |
| PathSpecParser.BareOutcome | gen_qrc_file.py:13-22 | a stripped token without "path" is refused as malformed if it holds ':' or ';'; otherwise its lower-cased text is the path when it exists, with no prefix, alias or lang, and it is refused as not found otherwise |
| PathSpecParser.DictionaryMatchesReference | gen_qrc_file.py:24-46 | reading the dictionary agrees with the reference reading of the pieces in every case, errors included |
| PathSpecParser.KeyedOutcome | gen_qrc_file.py:23-46 | the keyed branch of `parse_pathdata` equals the reference reading of its pieces |
| PathSpecParser.KeyedItemNotPair | gen_qrc_file.py:24-28 | a keyed token fails as malformed as soon as one non-blank item does not split into exactly a key and a value |
| PathSpecParser.PiecesWithoutPath | gen_qrc_file.py:24-28 | items that are all key:value pairs without the key `path` give pieces of that kind |
| PathSpecParser.NoPathPiece | gen_qrc_file.py:30-31 | without a `path` piece there is no path value, and the reference reading gives the missing-path error |
| PathSpecParser.KeyedWithoutPathItem | gen_qrc_file.py:24-31 | a keyed token whose items are all key:value pairs without a `path` key fails with the missing-path error |
| PathSpecSyntax.ItemPieces | gen_qrc_file.py:25 | a clean `key:value` item is already stripped and splits into exactly its key and its value |
| PathSpecSyntax.PiecesOfItems | gen_qrc_file.py:24-28 | clean items give exactly their key/value pairs as pieces |
| PathSpecSyntax.JoinItemsTrimmed | gen_qrc_file.py:13 | a token joined from clean items is non-empty and has no whitespace at either end |
| PathSpecSyntax.LastValueOpt | gen_qrc_file.py:24-28 | appending an optional item sets its key when present and leaves every other lookup as it was |
| PathSpecSyntax.OptFieldClean | gen_qrc_file.py:11-12 | an optional field with a clean key and value gives only clean items |
| PathSpecSyntax.FieldsClean | gen_qrc_file.py:11-12 | a specification with clean values is written with clean items only, the last one being `path` |
| PathSpecSyntax.FieldLookup | gen_qrc_file.py:41-46 | the dictionary of a written specification holds each of its fields under its key, and nothing under any other key |
| PathSpecSyntax.FieldsLookup | gen_qrc_file.py:41-46 | the dictionary of a written specification gives back its path, prefix, alias and lang |
| PathSpecSyntax.ItemsTokenSplits | gen_qrc_file.py:13-26 | a token made of clean items is stripped already, and splits on ';' back into those items |
| PathSpecSyntax.ItemsTokenContains | gen_qrc_file.py:15 | a token whose last item has the key `path` passes the substring test |
| PathSpecSyntax.ItemsTokenPieces | gen_qrc_file.py:24-28 | a token made of clean items splits back into the items' key/value pairs |
| PathSpecSyntax.KeyedTokenRead | gen_qrc_file.py:23-46 | a stripped keyed token whose pieces are all pairs, with a clean existing path, parses to the last value given for each key |
| PathSpecSyntax.ReadBack | gen_qrc_file.py:30-46 | a stripped keyed token whose pairs give the fields of a specification parses to that specification |
| PathSpecSyntax.ItemsRead | gen_qrc_file.py:9-47 | a token written from clean items that end with `path` parses to the specification those items describe |
| PathSpecSyntax.RenderRoundTrip | gen_qrc_file.py:9-47 | writing a renderable specification in the `[prefix:..;][alias:..;][lang:..;]path:..` grammar and parsing it gives the specification back |
| PathSpecSyntax.AppendItemPieces | gen_qrc_file.py:13-28 | appending a clean item to a stripped keyed token keeps it stripped and keyed, and adds one pair at the end of its pieces |
| PathSpecSyntax.KeyedIgnoresPair | gen_qrc_file.py:41-45 | a trailing pair whose key is none of prefix, alias, lang and path does not change the keyed result |
| PathSpecSyntax.UnknownKeyIgnored | gen_qrc_file.py:41-46 | appending an item with any other key leaves the result of `parse_pathdata` unchanged, errors included |
| PathSpecSyntax.SingleItemWithoutColon | gen_qrc_file.py:24-28 | a keyed token that is one item without ':' is malformed |
| PathSpecSyntax.SingleItemWithoutPathKey | gen_qrc_file.py:30-31 | a keyed token that is one item with a key other than `path` fails with the missing-path error |
| PathSpecSyntax.SingleItemDict | gen_qrc_file.py:24-28 | the dictionary of a one-item token maps its key to its value |
| PathSpecSyntax.BarePathContainingPathIsMalformed | gen_qrc_file.py:15-28 | `mypath/x` passes the substring test, goes down the keyed branch and fails as malformed |
| PathSpecSyntax.PathAsValueIsNotPathKey | gen_qrc_file.py:15-31 | `prefix:path` passes the substring test but has no `path` key, so it fails with the missing-path error |
| BatchReader.ParseStripped | gen_qrc_file.py:65 | parsing a stripped line gives what parsing the line gives |
| BatchReader.TokensTrimmed | gen_qrc_file.py:59-63 | every distinct token is non-empty and already stripped |
| BatchReader.DistinctTokensAppend | gen_qrc_file.py:59-63 | one more line adds its stripped text to the set, unless it is blank |
| BatchReader.RepeatOrBlankIgnored | gen_qrc_file.py:59-63 | a blank line, or a line equal to an earlier one once stripped, leaves the set unchanged |
| BatchReader.DistinctTokensConcat | gen_qrc_file.py:59-63 | the set of two runs of lines is the union of their sets, so line order does not matter |
| BatchReader.EnumerationSize | gen_qrc_file.py:64-67 | a list naming each element of a set exactly once is exactly as long as the set |
| BatchReader.CollectTokens | gen_qrc_file.py:57-63 | the set built line by line is the set of distinct non-blank stripped lines |
| BatchReader.ParseTokens | gen_qrc_file.py:64-67 | the loop over a set of non-empty stripped tokens succeeds exactly when every token parses, and then gives one result per token in the order visited, each token once; a failure carries the error of a token that failed |
| BatchReader.ParseFile | gen_qrc_file.py:50-68 | `parse_file` as written, with the set visited in any order: it succeeds exactly when every non-blank line parses, and then gives one record per distinct stripped line; a failure carries the error of some non-blank line |
| BatchReader.LinesAndTokens | gen_qrc_file.py:59-67 | every non-blank line parses exactly when every distinct token does |
| BatchReader.DistinctTokens | gen_qrc_file.py:59-63 | the set comprehension over the lines; `CollectTokens`, `TokensTrimmed`, `DistinctTokensAppend` and `DistinctTokensConcat` state what it holds |
| BatchReader.ParseAll | gen_qrc_file.py:96-97 | parsing a list of tokens in order, stopping at the first failure; `ParseAllOk` and `ParseAllErr` state what it returns |
| BatchReader.ParseAllOk | gen_qrc_file.py:96-97 | parsing in order succeeds exactly when every token parses, and then gives one result per token, in order |
| BatchReader.ParseAllErr | gen_qrc_file.py:96-97 | a failure carries the error of the first token that fails, every earlier token parsing |
| BatchReader.ParseEach | gen_qrc_file.py:96-97 | the loop that converts the tokens one by one computes `ParseAll` |
| BatchReader.FileSpecs | gen_qrc_file.py:50-68 | `parse_file` corrected to take the distinct tokens in ascending order instead of the set's iteration order; `FileSpecsOk`, `FileSpecsErr` and `FileSpecsValues` state what it returns |
| BatchReader.ParseFileSorted | gen_qrc_file.py:50-68 | the loops of `parse_file` visiting the set in ascending order compute `FileSpecs` |
| BatchReader.SortedTokens | gen_qrc_file.py:59-64 | the ascending list of the distinct tokens names each of them exactly once |
| BatchReader.FileSpecsOk | gen_qrc_file.py:50-68 | reading the file succeeds exactly when every non-blank line parses |
| BatchReader.FileSpecsErr | gen_qrc_file.py:50-68 | a failure carries the error of a non-blank line |
| BatchReader.FileSpecsValues | gen_qrc_file.py:50-68 | on success there is one record per distinct stripped line, the j-th being the parse of the j-th token in ascending order |
| BatchReader.FileSpecsLineOrder | gen_qrc_file.py:59-67 | two files with the same non-blank lines once stripped read the same, whatever the order of the lines and however many blank or repeated lines they hold |
| BatchReader.FileSpecsRepeatIgnored | gen_qrc_file.py:59-67 | a blank line, or one equal to an earlier line once stripped, does not change what reading the file gives |
| ResourceTree.FilesAmong | gen_qrc_file.py:149-153 | the records of a walk are exactly alias-less records of the regular files it lists |
| ResourceTree.FilesAmongCounts | gen_qrc_file.py:149-153 | counted with multiplicity, the walk gives each regular file as an alias-less record as often as the walk lists it, and nothing else |
| ResourceTree.Contribution | gen_qrc_file.py:143-153 | the records one specification adds to its bucket; `ResourceTree.ContributionMeaning` states what they are |
| ResourceTree.ContributionMeaning | gen_qrc_file.py:143-153 | a regular file adds exactly one record, with the specification's alias; any other path adds alias-less records of the regular files below it, each as often as the walk lists it; every record names a regular file |
| ResourceTree.BucketedPrefixes | gen_qrc_file.py:135-137 | the outer dictionary has exactly the prefixes of the specifications |
| ResourceTree.AddSpecKeys | gen_qrc_file.py:136-139 | one iteration adds the specification's prefix and lang, through both `setdefault` calls, and no other key |
| ResourceTree.AddSpec | gen_qrc_file.py:135-153 | one iteration of the bucketing loop; `AddSpecKeys` and `AppendContribution` state its effect on the keys and on the bucket |
| ResourceTree.BucketedKeys | gen_qrc_file.py:135-139 | the buckets are exactly the `(prefix, lang)` pairs of the specifications, including pairs that contributed no record |
| ResourceTree.BucketedContents | gen_qrc_file.py:135-153 | each bucket holds the contributions of its specifications in input order, nothing merged or dropped |
| ResourceTree.CollectedConcat | gen_qrc_file.py:135-153 | the bucket of two runs of specifications is the bucket of the first followed by the bucket of the second |
| ResourceTree.CollectedPermutation | gen_qrc_file.py:135-153 | specifications listed in another order give each bucket the same records, counted with multiplicity |
| ResourceTree.BucketsIgnoreOrder | gen_qrc_file.py:135-153 | specifications listed in another order give the same prefixes, the same langs under each prefix, and buckets holding the same records with the same multiplicity |
| ResourceTree.CollectedWithoutKey | gen_qrc_file.py:135-153 | specifications of other pairs contribute nothing to a bucket |
| ResourceTree.AppendContribution | gen_qrc_file.py:143-153 | the `is_file` test and the `rglob` loop append exactly the specification's contribution to the bucket |
| ResourceTree.BuildBuckets | gen_qrc_file.py:133-153 | the bucketing loop builds the buckets of the specifications: the prefixes and pairs of the specifications, each bucket holding its collected records |
| ResourceTree.InsertSorted | gen_qrc_file.py:157-158 | inserting into a list sorted by file name adds the record and keeps the list sorted |
| ResourceTree.SortByFileSorts | gen_qrc_file.py:157-158 | the sort by `file` returns a permutation of its input, in ascending file order |
| ResourceTree.SortByFile | gen_qrc_file.py:157-158 | `sorted(..., key=file)`; `SortByFileSorts`, `SortStable`, `SortSortedUnchanged` and `SortIgnoresOrder` state what it returns |
| ResourceTree.InsertStable | gen_qrc_file.py:157-158 | insertion puts a record before the records with the same file name |
| ResourceTree.SortStable | gen_qrc_file.py:157-158 | the sort is stable: records with the same file name keep their relative order |
| ResourceTree.SortSortedUnchanged | gen_qrc_file.py:157-158 | sorting a list already sorted by file name leaves it unchanged |
| ResourceTree.WithFileCounts | gen_qrc_file.py:157-158 | the records of one file name, taken in order, are the list's records with that name, each as often as in the list |
| ResourceTree.SortedByWithFile | gen_qrc_file.py:157-158 | two lists sorted by file name that hold the same records of each file name in the same order are equal |
| ResourceTree.SortIgnoresOrder | gen_qrc_file.py:157-158 | when no file name occurs twice, sorting two permutations of one list gives the same list |
| ResourceTree.SortedTreeBuckets | gen_qrc_file.py:155-158 | after sorting, the prefixes and langs are unchanged, and each bucket is a sorted permutation of what was appended |
| ResourceTree.SortBuckets | gen_qrc_file.py:155-158 | the loops over prefixes and langs replace every bucket by its sorted copy |
| ResourceTree.SortedTreeIgnoresOrder | gen_qrc_file.py:135-158 | when no bucket would hold a file name twice, specifications listed in another order give the same sorted buckets |
| Manifest.LangGroupsLists | gen_qrc_file.py:183-188 | the lang loop gives exactly one group per listed lang, with that lang's bucket, in ascending lang order |
| Manifest.PrefixBlockLists | gen_qrc_file.py:175-188 | a prefix's groups are exactly its buckets: the lang-less one first, then its langs ascending |
| Manifest.BlocksList | gen_qrc_file.py:175-189 | the prefix loop lists exactly the buckets of the listed prefixes, in output order |
| Manifest.AssembleLists | gen_qrc_file.py:160-189 | the assembled list names every bucket exactly once, with its files, in the output order |
| Manifest.Assemble | gen_qrc_file.py:160-189 | the list of buckets the assembly loops build; `AssembleLists` and `ListingIsUnique` state that it names every bucket once, in the one possible output order |
| Manifest.InOrderUnique | gen_qrc_file.py:160-189 | two lists of the same groups, both in output order, are equal |
| Manifest.ListingIsUnique | gen_qrc_file.py:160-189 | any list of the buckets in output order is the assembled list, so the order is fully determined |
| Manifest.PopNonePrefix | gen_qrc_file.py:160-161 | popping `None` from the outer dictionary leaves the prefixes and their dictionaries alone |
| Manifest.PopNone | gen_qrc_file.py:178-179 | popping `None` from a prefix's dictionary leaves its langs and their buckets alone |
| Manifest.AppendLangs | gen_qrc_file.py:183-188 | the lang loop appends one group per lang, in the given order |
| Manifest.AppendPrefix | gen_qrc_file.py:176-188 | the groups of one prefix are its lang-less group, when there is one, followed by its langs in ascending order |
| Manifest.AppendBlocks | gen_qrc_file.py:175-189 | the prefix loop appends each prefix's groups, in the given order |
| Manifest.AssembleGroups | gen_qrc_file.py:160-189 | the assembly loops produce the assembled list, which lists every bucket exactly once in the output order |
| QrcTree.SetAttr | gen_qrc_file.py:73-83 | `set` makes `get` return the new value for that name, leaves every other name alone, and adds no other attribute |
| QrcTree.FileElement | gen_qrc_file.py:80-84 | a `file` element decodes to its record: the alias attribute only when there is an alias, and the file name as text |
| QrcTree.ResourceElement | gen_qrc_file.py:74-84 | a `qresource` element decodes to its group: prefix and lang only when present, and one `file` child per record in order |
| QrcTree.BuildElementTree | gen_qrc_file.py:71-84 | the `RCC` tree decodes back to exactly the document it was built from |
| QrcTree.ResourceAttributesOnlyWhenPresent | gen_qrc_file.py:76-78 | a well-formed `qresource` has a prefix, or a lang, attribute exactly when its group has one, and no other attribute |
| QrcTree.FileAttributesOnlyWhenPresent | gen_qrc_file.py:82-84 | a well-formed `file` element has an alias attribute exactly when its record has an alias, no other attribute, and the file name as text |
| QrcTree.ResourcesInOrder | gen_qrc_file.py:74-75 | a well-formed tree has one `qresource` child per group, in order |
| QrcTree.FilesInOrder | gen_qrc_file.py:80-81 | a well-formed `qresource` has one `file` child per record, in order |
| Generator.CollectedRecords | gen_qrc_file.py:135-153 | every record in a bucket names a regular file, and a record with an alias comes from a file specification of that bucket with that alias |
| Generator.Output | gen_qrc_file.py:133-189 | the document of a list of specifications; `OutputRecords`, `BuildTree`, `OutputIgnoresOrder` and `FileOrderMatters` state what it holds |
| Generator.FileSpecCollected | gen_qrc_file.py:143-147 | a specification naming a regular file puts its record, with its alias, into its bucket |
| Generator.OutputRecords | gen_qrc_file.py:133-189 | every record written names a regular file; an aliased record comes from a matching file specification; every file specification is written, with its alias, in the group of its prefix and lang |
| Generator.BuildTree | gen_qrc_file.py:133-189 | bucketing, sorting, assembly and tree building give a tree that decodes to the output document of the specifications |
| Generator.OutputIgnoresOrder | gen_qrc_file.py:133-189 | when no bucket would hold a file name twice, specifications listed in another order give the same document |
| Generator.FileOrderMatters | gen_qrc_file.py:64-67 | on a valid snapshot, two lines naming one regular file with aliases `a` and `b` may be visited in either order, and the two orders give different documents |
| Generator.FromFile | gen_qrc_file.py:127-129 | the specifications read with `--file`, none without it; `FileSpecsOk`, `FileSpecsErr` and `FileSpecsValues` state what it returns |
| Generator.Outcome | gen_qrc_file.py:127-191 | `main` with the file's tokens taken in the corrected, ascending order; `OutcomeOk`, `OutcomeTokenErr`, `OutcomeFileErr` and `OutcomeLineOrder` state what it is |
| Generator.OutcomeOk | gen_qrc_file.py:96-131 | the run succeeds exactly when every token parses and, with `--file`, every non-blank line of the file parses |
| Generator.OutcomeTokenErr | gen_qrc_file.py:96-97 | when a token fails, the run fails with the error of the first token that fails, whatever the file holds |
| Generator.OutcomeFileErr | gen_qrc_file.py:127-129 | when every token parses, a failed run has `--file` and carries the error of a non-blank line of the file |
| Generator.OutcomeLineOrder | gen_qrc_file.py:127-191 | two `--file` inputs with the same non-blank lines once stripped give the same result, whatever the order of the lines and however many blank or repeated lines they hold |
| Generator.Generate | gen_qrc_file.py:127-191 | `main` computes `Outcome`: it fails exactly when `Outcome` fails, with the same error, which is the first failing token's when a token fails and a non-blank line's otherwise; on success the tree decodes to the document of the file's specifications, in ascending token order, followed by the tokens' specifications in order |

## Left out

- Command-line parsing (gen_qrc_file.py:94-119): the tokens, the file's
  lines and the version are parameters of `Generator.Generate`. Only
  the order in which argparse converts the positional tokens is kept:
  they are parsed before the file.
- Reading the `--file` text file, and its existence check
  (gen_qrc_file.py:51-58): the file's content is given as a sequence of
  lines.
- The filesystem (gen_qrc_file.py:21, 35, 38, 143, 149-150) is a fixed
  snapshot (`Files.FileSystem`), and no file changes during a run. The
  order of the `rglob` walk is a parameter of the snapshot. The sort
  erases it, except among records with the same file name.
- `Path` normalisation and `as_posix` (gen_qrc_file.py:19, 33, 144,
  152): paths are already-normalised strings, and the path the parser
  returns is the string that is written.
- Writing the XML text through lxml (gen_qrc_file.py:86-91): the model
  stops at the element tree.
- The tree is built as a value rather than by `SubElement` calls on
  shared nodes: each child is built first and then appended.
- `strip` and `lower` cover ASCII only: `strip` removes the ASCII
  whitespace and the separators U+001C to U+001F, and `lower` maps A-Z
  to a-z. The other Unicode whitespace and letters are not modelled.
- Exceptions are error tags in a `Result`, not exception messages. The
  code raises `Exception('path error')` for a bare path with ':' or ';'
  (gen_qrc_file.py:17), for a missing `path` key (line 31) and for a
  path that does not exist (lines 22 and 36). It raises
  `Exception('dir error')` for an alias on a directory (line 39), and
  `dict()` raises `ValueError` when an item does not split into exactly
  two parts (lines 24-28); argparse reports that one as a usage error
  for a positional token. The tags are this model's names for these
  branches: malformed for line 17 and for `dict()`, missing path for
  line 31, not found for lines 22 and 36, and alias on directory for
  line 39.
- A token that contains "path" and whose items are all key:value pairs,
  but that has no `path` key (`prefix:path`), gets the missing-path
  tag. See `PathSpecSyntax.PathAsValueIsNotPathKey`.
- `if pathdata:` (gen_qrc_file.py:130) extends the list with nothing
  when the list is empty, so the model always appends the tokens'
  specifications.
- QrcTree.BuildElementTree: always succeeds. lxml raises `ValueError`
  when an attribute value or the text is not XML-compatible, for
  instance when it holds a control character (gen_qrc_file.py:73, 78,
  83, 84). The model does not check which characters XML allows.
- The order in which Python iterates a set (gen_qrc_file.py:64) depends
  on string hashing, which changes from run to run.
  `BatchReader.ParseFile` picks tokens in any order and returns that
  order as a ghost value; on failure its error is that of some failing
  line, not necessarily the one Python would reach first.
  `Generator.Generate` and `Generator.Outcome` model `main` with the
  corrected, ascending order of `BatchReader.ParseFileSorted`. Whether
  a given run of Python visits the set in ascending order is not
  modelled. `main` as written is covered by `BatchReader.ParseFile`,
  and `Generator.FileOrderMatters` shows where the two differ.

## Findings

| source | as written | input that shows it | evidently intended | confidence | as-written member | corrected member |
|---|---|---|---|---|---|---|
| gen_qrc_file.py:64-67 | the file's distinct tokens are parsed in set iteration order, which changes between runs; the stable sort at lines 157-158 keeps that order among records with the same file name, so the written document can differ from run to run | a `--file` with the lines `alias:a;path:f` and `alias:b;path:f`, where `f` is a regular file | a document that depends only on the arguments and the files | not executed | Generator.FileOrderMatters | BatchReader.ParseFileSorted |

`Generator.FileOrderMatters` shows that both orders are ones
`BatchReader.ParseFile` allows and that they give different
documents. `BatchReader.ParseFileSorted` fixes the order, and
`BatchReader.FileSpecsLineOrder` and `Generator.OutcomeLineOrder` prove
that the result then depends only on which non-blank lines the file
holds once stripped.
