# academicnetworks in Dafny

This project models the core of academicnetworks. That repository builds
co-authorship and subject networks from two kinds of data:

- APS journal metadata, given as XML parsed by `xmltodict`;
- arXiv metadata, scraped over OAI-PMH into CSV files.

The model covers four parts of it:

- **Adjacency folds.** These turn per-paper item lists into weighted
  dict-of-dicts: `getAdjListSimple`, `getAdjListBipartite` and `makeGraph`
  in aps/graphsAPS.py, and `get_adjacency_list` in arxiv/graph.py.
- **The networkx graph loops.** These are `coAuthorsXML`, `pacsXML`,
  `authors2Subjects` and `addCoAuthorGraphs` in aps/processAPSXML.py, and
  `processXML` in processAPSXML.py.
  - The networkx `Graph` becomes the class `Graphs.NxGraph`. It holds a
    node set, a `numPapers` attribute per node and a weight per unordered
    node pair. Its value is the datatype `Graphs.Graph`.
  - Each loop is a method proved against a specification function over
    that value. The counting properties are proved about the function.
- **Field extraction from APS records.** This covers:
  - the three copies of the recursive `processAuthors`;
  - `pacsMatch`, `convertPACS`, `getYear`;
  - the row gates of `getAuthors`, `getAuthorsYears`, `getPACS` and
    `getPACSYears`;
  - `dois2ilocs`, `getCommonPACS` and `isPACSpresent`.

  An `xmltodict` value is the datatype `XmlValue.XValue`: an ordered
  dictionary, a list or a string. An exception the source would raise is
  an `Err` of a `Wrappers.PyError`.
- **String normalisers.** These are `unified_name`, `get_authors`,
  `get_author_series` and `get_all_authors` in arxiv/arxiv.py, and
  `list_cleaner`, the resumption-token rewrite and the year, file-name and
  id rules of `clean_arxiv_data` in scraping/arxiv.py. The last is
  `process_date` in scraping/doi.py. Python's `str` methods are written
  over `seq<char>` in `PyStr`.

Several call sites in the repository cannot run:

- `parseAPS.getPacs` does not exist; only `getPACS` does.
- `arxiv.get_authors` is called with three arguments, but it takes one.
- `arxiv.get_categories` does not exist.

So the folds take their per-paper item lists as an input sequence.

## Model

| member | source | states |
|---|---|---|
| PyStr.RStrip | arxiv/arxiv.py:31 | the result is a prefix of the input, does not end in a stripped character, and only stripped characters were removed |
| PyStr.LStrip | arxiv/arxiv.py:39 | the result is a suffix of the input, does not start with a stripped character, and only stripped characters were removed |
| PyStr.Strip | scraping/arxiv.py:112 | neither end of the result is a stripped character, and the result holds only characters of the input |
| PyStr.StripChars | scraping/arxiv.py:112 | stripping both ends keeps only characters of the input |
| PyStr.Find | scraping/arxiv.py:117 | -1 exactly when the separator does not occur, otherwise its leftmost occurrence |
| PyStr.Split | scraping/arxiv.py:117 | `str.split` gives at least one piece |
| PyStr.SplitPiecesFree | scraping/arxiv.py:117 | no piece of a split holds the separator |
| PyStr.SplitPiecesChars | scraping/arxiv.py:117 | every character of a piece comes from the split string |
| PyStr.SplitJoinRoundTrip | scraping/arxiv.py:117 | joining the pieces of a split with the separator gives the string back |
| PyStr.SplitJoinSingle | scraping/arxiv.py:117 | splitting a join on a one-character glue that no piece holds gives the pieces back |
| PyStr.JoinCreatesNoOccurrence | scraping/arxiv.py:117 | joining pieces free of a separator with a glue character not in it creates no occurrence of the separator |
| PyStr.SingleCharOccurs | arxiv/arxiv.py:31 | a one-character separator occurs exactly when the character is in the string |
| PyStr.BeforeFirstOf | scraping/arxiv.py:23 | the part before the first `c` of `x + c + y` is `x` when `x` has no `c` |
| PyStr.SplitWithout | arxiv/arxiv.py:31 | splitting on a character the string lacks gives the string alone |
| PyStr.JoinEmptyGlueExcludes | arxiv/arxiv.py:42 | `''.join` of pieces without a character has no such character |
| PyStr.JoinEmptyGlueChars | arxiv/arxiv.py:42 | every character of `''.join` comes from a piece |
| PyStr.ReplaceRemoves | scraping/arxiv.py:119-120 | replacing a character by the empty string leaves none of it |
| PyStr.ReplaceKeepsChars | scraping/arxiv.py:119-120 | replacing by the empty string adds no character |
| PyStr.ParseInt | aps/parseAPS.py:204 | `int(s)` succeeds exactly on a non-empty string of decimal digits, with a non-negative value |
| PyStr.NatToString | scraping/arxiv.py:95 | the decimal digits of `n`, one for `n < 10`, two for `10 <= n < 100`, whose value is `n` |
| PyStr.IntToString | scraping/arxiv.py:95 | formatting a non-negative number parses back to it; a negative one starts with '-' |
| PyStr.Pad2 | scraping/arxiv.py:96 | `'{:0>2d}'` gives at least two characters, exactly two below 100, and parses back to the number |
| XmlValue.KeyIndex | aps/parseAPS.py:87 | the position of an entry with key `k` that no earlier entry shares |
| XmlValue.Lookup | aps/parseAPS.py:87 | `d[k]` is the value of the first entry with key `k` |
| XmlValue.Get | aps/processAPSXML.py:42 | `v[k]` succeeds exactly on a dictionary holding `k`; otherwise KeyError, or TypeError for a non-dictionary |
| XmlValue.Iterate | aps/processAPSXML.py:116 | iterating a list gives its items, a string its characters, a dictionary its keys |
| XmlValue.FirstItem | processAPSXML.py:84 | `v[0]` succeeds exactly on a non-empty list or string and is its first item |
| SeqUtil.SetToList | aps/parseAPS.py:184 | `list(set(...))` has no duplicates and the same elements as the set |
| SeqUtil.CountPositive | aps/processAPSXML.py:64-65 | an element occurs a positive number of times exactly when it is in the list |
| AuthorTree.NamePartOf | aps/parseAPS.py:92-105 | a missing given or middle name is "-"; only the initials variant of parseAPS.py can fail |
| AuthorTree.AuthorOf | aps/parseAPS.py:91-111 | the author tuple carries the record's surname, and fails exactly when a name part fails |
| AuthorTree.StringAuthors | aps/processAPSXML.py:114-119 | iterating a string yields authors only for the empty string |
| AuthorTree.ProcessAllAppend | aps/parseAPS.py:113-121 | flattening a concatenation is the concatenation of the flattenings: order is kept |
| AuthorTree.DictAuthor | aps/processAPSXML.py:86-108 | an author dictionary with a surname and no nested `author` gives exactly one author |
| AuthorTree.ProcessAllOfDicts | aps/processAPSXML.py:109-113 | a list of author dictionaries gives one author per dictionary, in order, with its surname |
| AuthorTree.StringGroup | aps/processAPSXML.py:114-119 | a non-empty string inside the tree raises RuntimeError; an empty one gives nothing |
| AuthorTree.DictWithoutSurname | aps/processAPSXML.py:91-92 | a dictionary without a surname contributes no author |
| AuthorTree.MissingPartsAreDashes | aps/processAPSXML.py:93-107 | missing given name, middle name and suffix all become "-" |
| AuthorTree.ListMiddleName | aps/processAPSXML.py:97-102 | a list middle name becomes a tuple; in initials mode it is its first item; processAPSXML.py takes its first item |
| AuthorTree.LeafFailure | aps/parseAPS.py:92-103 | an author leaf fails exactly in initials mode when a present given or middle name has no first item |
| AuthorTree.InitialsOnlyAtTopLevel | aps/parseAPS.py:112-116 | an `author` list is flattened without initials: the flag is not passed to the recursive calls |
| AuthorTree.HashableName | aps/processAPSXML.py:54 | the definition of a hashable name part: a single value must be a string, and a tuple of middle names may hold only strings |
| AuthorTree.HashableAuthor | aps/processAPSXML.py:54 | the definition of a hashable author tuple: each of its four items can be hashed |
| AuthorTree.HashableAuthors | aps/processAPSXML.py:51-54 | the definition of a list `add_node` accepts: every author in it can be hashed |
| AuthorTree.Nested | aps/parseAPS.py:114 | the variant the recursive calls use: parseAPS.py does not pass `authorInitialsOnly` on, so initials apply only at the top level |
| AuthorTree.ProcessAuthors | aps/parseAPS.py:81-122 | the definition of `processAuthors(authgrp)`. A dictionary with `author` is read through that entry, and one with `surname` gives one author tuple. Any other dictionary gives none, and a list is flattened item by item. A non-empty string recurses without end (`RuntimeError`). The copies at aps/processAPSXML.py:83-120 and processAPSXML.py:73-108 are its `ApsXml` and `RootXml` variants |
| AuthorTree.AuthorValue | aps/parseAPS.py:87-116 | the definition of the branch on `authgrp['author']`. A dictionary gives its one author when it has a surname, and none otherwise. A list is flattened, and a string recurses as in `ProcessAuthors`. This holds in all three copies (aps/processAPSXML.py:87-113, processAPSXML.py:77-101) |
| AuthorTree.Single | aps/parseAPS.py:110-111 | the one author tuple of a dictionary, as a one-element list, or the exception from building it |
| AuthorTree.ProcessAll | aps/parseAPS.py:113-121 | the definition of the loop `for a in ...: authorList += processAuthors(a)`: each item's authors in order, with the first exception ending the loop (the same loop is at aps/processAPSXML.py:110-119 and processAPSXML.py:98-107) |
| AuthorTree.Then | aps/parseAPS.py:115-116 | the authors of one item appended to those found before it, with an exception from the earlier part taking precedence |
| Pacs.CodePrefix | aps/processAPSXML.py:127-128 | `int(p.split(".")[0])` succeeds only on a string, with a non-negative value |
| Pacs.PacsMatch | aps/processAPSXML.py:123-132 | 1 exactly when some code's prefix parses into the list, otherwise 0; codes that fail to parse are skipped |
| Pacs.RangeMembers | processAPSXML.py:26-28 | `range(lo, lo + n)` holds exactly the integers from `lo` below `lo + n` |
| Pacs.CodeGroup | aps/processAPSXML.py:25-32 | -1 gives [-1]; a multiple of 10 gives the ten codes from it; any other code gives itself |
| Pacs.PacsList | processAPSXML.py:25-30 | -1 gives the hundred codes 0..99; a multiple of 10 gives the ten codes from it; any other code gives itself |
| Pacs.GroupIsDecade | aps/processAPSXML.py:29-30 | a code is in the group of a multiple of 10 exactly when its tens are that multiple |
| Pacs.PySlice | aps/parseAPS.py:180 | a Python slice is no longer than the string |
| Pacs.ConvertCode | aps/parseAPS.py:178-192 | a converted code is below 10 at level 1 and below 100 at level 2 |
| Pacs.ConvertPacs | aps/parseAPS.py:169-195 | at levels 1 and 2, the converted codes without duplicates, dropping failures; at other levels, the wrapped input unchanged |
| Pacs.LevelCode | aps/processAPSXML.py:176-185 | level 1 gives multiples of 10; a code converts exactly when its prefix parses (levels 1 and 2) or it is a string (other levels) |
| Pacs.Level1Intended | aps/parseAPS.py:171 | the level-1 code is the multiple of 10 at or below the level-2 code |
| Pacs.ExampleCodeSplit | aps/parseAPS.py:171-172 | the prefix of "45.10.Db" is "45" |
| Pacs.Level1AsWritten | aps/parseAPS.py:180 | as written, level 1 turns "45.10.Db" into 4, level 2 into 45; the intended level-1 code is 40 |
| Pacs.Level1IsTensDigit | aps/parseAPS.py:180 | for every two-digit prefix, level 1 as written gives the tens digit; the intended code is ten times that |
| Pacs.CodeMatches | aps/processAPSXML.py:125-129 | one code matches when its prefix before the first `.` parses to a number in the list |
| Pacs.SomeCodeIn | aps/processAPSXML.py:123-132 | the specification of `pacsMatch`: some code of the paper matches |
| Pacs.Wrap | aps/parseAPS.py:174-175 | a value that is not a list is wrapped as a one-item list |
| Pacs.ConvertedSet | aps/parseAPS.py:169-193 | the definition of the codes `convertPACS` keeps at level 1 or 2, as the set behind `list(set(newList))`. Codes that fail to convert are skipped |
| Pacs.PaperCodes | aps/processAPSXML.py:172-186 | the definition of `pacsSet` for one paper: every code that converts at the level |
| ParseAps.DateYear | aps/parseAPS.py:204 | the year of a date entry is non-negative; failures are KeyError, TypeError, AttributeError or ValueError |
| ParseAps.GetYear | aps/parseAPS.py:198-213 | a history that is not a dictionary gives 0; a year is never negative |
| ParseAps.DateRoundTrip | aps/parseAPS.py:204 | the year written at the head of a date is read back |
| ParseAps.YearPriority | aps/parseAPS.py:203-211 | the year comes from `received`, else `published`, else `revised` |
| ParseAps.PyIn | aps/parseAPS.py:40 | `x in v` raises TypeError only when `v` is not a list and `x` not a string |
| ParseAps.IteratedItemIsIn | aps/parseAPS.py:39-40 | every item iterated from a value is `in` it |
| ParseAps.KeepMembers | aps/parseAPS.py:141-144 | the kept codes are exactly those in both lists |
| ParseAps.KeepNoDup | aps/parseAPS.py:141-144 | keeping a sub-list of a duplicate-free list leaves it duplicate-free |
| ParseAps.FilterIn | aps/parseAPS.py:141-144 | the loop keeps the codes in `subsetPACS`, in order |
| ParseAps.CountIn | aps/parseAPS.py:63-69 | the count is the number of kept codes, positive exactly when the lists share a code |
| ParseAps.YearGate | aps/parseAPS.py:30-35 | without `subsetYears` every row passes the year gate |
| ParseAps.YearGateKeepsListedYears | aps/parseAPS.py:30-35 | a row dated to year `y` by its received, published or revised entry passes the year gate exactly when no years are given or `y` is among them |
| ParseAps.CodesGate | aps/parseAPS.py:62-71 | without `subsetPACS` every row passes the code gate |
| ParseAps.GetAuthors | aps/parseAPS.py:18-52 | the authors when the row passes the gates as written, otherwise [] or the gate's exception |
| ParseAps.GetAuthorsIntended | aps/parseAPS.py:21-22 | the authors when the row passes the year gate and shares a code with `subsetPACS` |
| ParseAps.AsWrittenIgnoresSubset | aps/parseAPS.py:38-43 | as written, which non-empty `subsetPACS` is given makes no difference |
| ParseAps.Example45Codes | aps/parseAPS.py:185-193 | "45.10.Db" converts to {45} at level 2 |
| ParseAps.SubsetPacsIgnored | aps/parseAPS.py:36-43 | a row coded 45 passes `subsetPACS=[10]` as written but not as intended |
| ParseAps.IntendedKeepsMatchingRows | aps/parseAPS.py:21-22 | as intended, a row is kept exactly when one of its converted codes is asked for |
| ParseAps.GetAuthorsYears | aps/parseAPS.py:55-78 | the year, with the authors when the row passes the code gate; exceptions propagate |
| ParseAps.GetPacs | aps/parseAPS.py:125-150 | the row's converted codes that pass the year gate and lie in `subsetPACS`, without duplicates |
| ParseAps.GetPacsYears | aps/parseAPS.py:153-166 | the year, with the row's converted codes that lie in `subsetPACS`, without duplicates |
| ParseAps.Dois2Ilocs | aps/parseAPS.py:229-235 | the keys are the DOIs seen; a DOI's value is the index of its last row |
| ParseAps.GetCommonPacs | aps/parseAPS.py:253-261 | the first key with the largest positive count, or none when no count is positive |
| ParseAps.IsPacsPresent | aps/parseAPS.py:264-271 | true exactly when some code of the list is a key |
| ParseAps.Keep | aps/parseAPS.py:140-144 | the definition of the filtering loop: the items of `xs` that are in `ys`, in order |
| ParseAps.AuthorsIf | aps/parseAPS.py:47-52 | the authors of a row that passed its gates, none for one that failed, or the gate's exception |
| ParseAps.SelectedAsWritten | aps/parseAPS.py:27-45 | the definition of the gates of `getAuthors` as written. Line 38 rebinds `subsetPACS`, so the PACS gate asks only for a non-empty code list |
| ParseAps.SelectedIntended | aps/parseAPS.py:18-45 | the gates the docstring of `getAuthors` promises: the year gate, then at least one converted code among `subsetPACS` |
| ParseAps.RowCodes | aps/parseAPS.py:131 | a row's level-2 codes, or the exception from reading `pacscode` |
| Adjacency.AssignOnesAt | aps/graphsAPS.py:14-15 | a new lead's followers all have weight 1, whatever their repetitions |
| Adjacency.IncrementAt | aps/graphsAPS.py:17-21 | each follower gains its number of occurrences; missing followers start from 0 |
| Adjacency.AssignOnesLoop | aps/graphsAPS.py:14-15 | the loop of a new lead meets its specification |
| Adjacency.IncrementLoop | aps/graphsAPS.py:17-21 | the loop of a known lead meets its specification |
| Adjacency.AdjListSimple | aps/graphsAPS.py:3-22 | the dict-of-dicts after all rows is the fold of the row step; `get_adjacency_list` in arxiv/graph.py is the same loop |
| Adjacency.LeadKeys | aps/graphsAPS.py:10-13 | the outer keys are exactly the first items of the non-empty rows |
| Adjacency.PositiveWeights | aps/graphsAPS.py:11-21 | every stored weight is at least 1 |
| Adjacency.RowStepWeight | aps/graphsAPS.py:16-21 | a row whose followers are distinct adds 1 to each lead-follower edge it lists and changes no other edge |
| Adjacency.WeightCountsRows | aps/graphsAPS.py:5-21 | with distinct followers per row, an edge's weight is the number of rows listing that lead and follower (the same fold is arxiv/graph.py:26-43) |
| Adjacency.RepeatedFollower | aps/graphsAPS.py:14-21 | a repeated follower counts 1 in the lead's first row but 2 in a later row |
| Adjacency.BipartiteAsWrittenFails | aps/graphsAPS.py:30-34 | as written, the bipartite fold raises UnboundLocalError when some row has authors and codes, and is empty otherwise |
| Adjacency.AdjListBipartite | aps/graphsAPS.py:25-41 | the corrected bipartite loop meets its specification |
| Adjacency.AdjListBipartiteAsWritten | aps/graphsAPS.py:25-41 | the loop as written, with `p` still bound from the last code loop, raises UnboundLocalError exactly when some row has authors and codes, and is empty otherwise |
| Adjacency.BiStepWeight | aps/graphsAPS.py:36-40 | one author's step adds to that author's edges the occurrences of each code |
| Adjacency.BiAuthorsWeight | aps/graphsAPS.py:31-40 | one row adds occurrences of the author times occurrences of the code |
| Adjacency.BipartiteWeights | aps/graphsAPS.py:27-41 | the final author-code weight is the sum of those products over all rows |
| Adjacency.BipartiteExample | aps/graphsAPS.py:30-34 | one paper by author 1 with code 7 raises as written; corrected, it gives edge weight 1 |
| Adjacency.NoneIfEmpty | aps/graphsAPS.py:54-58 | an empty adjacency map gives None, any other is returned |
| Adjacency.MakeGraph | aps/graphsAPS.py:44-58 | one `what` entry selects the simple fold; two run the bipartite fold as written, so the result is UnboundLocalError when some row has authors and codes and None otherwise; an empty result is None, and any other length raises UnboundLocalError |
| Adjacency.MakeGraphIntended | aps/graphsAPS.py:44-58 | `makeGraph` over the corrected bipartite fold: two `what` entries give the author-to-code counts, the other cases as `MakeGraph` |
| Adjacency.AssignOnes | aps/graphsAPS.py:13-15 | the definition of a new lead's loop: each follower gets weight 1 |
| Adjacency.Increment | aps/graphsAPS.py:17-21 | the definition of a known lead's loop: a new follower gets weight 1 and a known one gains 1 |
| Adjacency.RowStep | aps/graphsAPS.py:10-21 | the definition of one row: nothing for an empty row, `AssignOnes` for a new lead, `Increment` for a known one |
| Adjacency.AdjSimple | aps/graphsAPS.py:3-22 | the definition of `getAdjListSimple`: the rows applied in table order, starting from an empty result |
| Adjacency.CoRows | aps/graphsAPS.py:10-21 | the reference count: the rows with `lead` first and `follow` among the rest |
| Adjacency.BiAuthorsAsWritten | aps/graphsAPS.py:31-40 | one row as written. A new author gets an edge to `p`, which raises `UnboundLocalError` while `p` is unbound. A known author counts the row's codes, after which `p` is bound to the last code |
| Adjacency.BiRowsAsWritten | aps/graphsAPS.py:27-40 | the rows as written, in order, skipping rows that lack authors or codes |
| Adjacency.BipartiteAsWritten | aps/graphsAPS.py:25-41 | the definition of `getAdjListBipartite` as written, from an empty result with `p` unbound |
| Adjacency.HasBothLists | aps/graphsAPS.py:30 | some row has both authors and codes |
| Adjacency.BiAuthors | aps/graphsAPS.py:31-40 | the intended update for one row: every author gains weight 1 towards every code, once per listing |
| Adjacency.BipartiteIntended | aps/graphsAPS.py:25-41 | the intended definition of `getAdjListBipartite`: `BiAuthors` applied to each row that has authors and codes |
| Adjacency.CoOccurrences | aps/graphsAPS.py:27-40 | the reference weight: over the rows, the listings of `a` times the listings of `p` |
| Graphs.AddWeight | aps/processAPSXML.py:144 | adding weight adds both endpoints as nodes and leaves `numPapers` alone |
| Graphs.Link | aps/processAPSXML.py:59-62 | linking adds both endpoints as nodes and leaves `numPapers` alone |
| Graphs.PairEq | aps/processAPSXML.py:59-62 | an unordered pair of distinct nodes equals another exactly in either orientation |
| Graphs.AddWeightAt | aps/processAPSXML.py:143-146 | adding `w` to an edge changes only that unordered pair, by `w` |
| Graphs.LinkAt | aps/processAPSXML.py:59-62 | linking changes only that unordered pair, by 1 |
| Graphs.LinkEdgesOk | aps/processAPSXML.py:59-62 | linking two nodes of the graph keeps every edge between nodes |
| Graphs.LinkAllAt | aps/processAPSXML.py:189-195 | linking a node to a list adds, per pair, the number of times the other end is listed |
| Graphs.LinkAllNodes | aps/processAPSXML.py:189-195 | linking a node to a non-empty list adds the node and the list as nodes |
| Graphs.LinkGridAt | aps/processAPSXML.py:235-240 | linking every x to every y adds, per pair, the product of their occurrences, in both orientations |
| Graphs.LinkGridPapers | aps/processAPSXML.py:235-240 | linking leaves `numPapers` alone |
| Graphs.Assign | processAPSXML.py:55 | `add_edge(u, v, weight=w)` adds the endpoints and that edge's key |
| Graphs.NxGraph.constructor | aps/processAPSXML.py:22 | `nx.Graph()` is empty |
| Graphs.NxGraph.AddNode | aps/processAPSXML.py:227-228 | `add_node` adds the node and changes nothing else |
| Graphs.NxGraph.AddAuthorNode | aps/processAPSXML.py:54 | `add_node(au, {'numPapers': 0})` adds the node with 0 papers |
| Graphs.NxGraph.CountPaper | aps/processAPSXML.py:65 | on a node that has a `numPapers` entry (the only case that does not raise `KeyError`), that entry rises by 1 and nothing else changes |
| Graphs.NxGraph.LinkNodes | aps/processAPSXML.py:59-62 | the edge is created with weight 1 or incremented by 1 |
| Graphs.NxGraph.AddEdgeWeight | aps/processAPSXML.py:143-146 | the edge gains `w`, created if missing |
| Graphs.NxGraph.AddEdge | processAPSXML.py:55 | the edge is set to `w`, whatever it held |
| Graphs.LinkAllLoop | aps/processAPSXML.py:189-195 | the loop linking one node to a list meets its specification |
| Graphs.LinkGridLoop | aps/processAPSXML.py:235-240 | the double loop linking authors to codes meets its specification |
| Graphs.EmptyGraph | aps/processAPSXML.py:22 | `nx.Graph()`: no nodes, no paper counts, no edges |
| Graphs.EdgeW | aps/processAPSXML.py:60 | `G[u][v]['weight']` for either order of the pair, 0 when there is no edge |
| Graphs.EdgesOk | aps/processAPSXML.py:56-62 | every edge joins two nodes of the graph and weighs at least 1 |
| Graphs.LinkAll | aps/processAPSXML.py:189-195 | the definition of linking `px` with each code of the list in turn, without checking that the two differ |
| Graphs.LinkGrid | aps/processAPSXML.py:235-240 | the definition of the double loop that links each author listing with each code listing |
| CoAuthors.AddAuthorsAt | aps/processAPSXML.py:51-54 | the paper's authors become nodes, and a known author's `numPapers` is not reset |
| CoAuthors.AddAuthorsFrame | aps/processAPSXML.py:51-54 | every node keeps a `numPapers` attribute, and edges are untouched |
| CoAuthors.LinkFromAt | aps/processAPSXML.py:57-62 | the inner loop adds to `au`'s edges the occurrences of each co-author |
| CoAuthors.LinkFromKeeps | aps/processAPSXML.py:57-62 | the inner loop keeps edges between nodes and adds no node |
| CoAuthors.LinkPairsAt | aps/processAPSXML.py:56-62 | the double loop adds, per pair, the products of occurrences in both orientations |
| CoAuthors.LinkPairsKeeps | aps/processAPSXML.py:56-62 | the double loop keeps edges between nodes and adds no node |
| CoAuthors.CoStepAt | aps/processAPSXML.py:51-65 | one paper adds 2·count(u)·count(v) to every pair's weight and count(x) to each author's `numPapers`; its authors become nodes |
| CoAuthors.CoStepWeight | aps/processAPSXML.py:56-62 | one paper adds twice the product of the two authors' occurrences to their edge |
| CoAuthors.CoStepPapers | aps/processAPSXML.py:51-65 | one paper adds to each author's `numPapers` its occurrences, and its authors become nodes |
| CoAuthors.LinkFromKeepsNodes | aps/processAPSXML.py:57-62 | linking known nodes adds no node and leaves `numPapers` alone |
| CoAuthors.LinkPairsKeepsNodes | aps/processAPSXML.py:56-62 | linking known nodes adds no node and leaves `numPapers` alone |
| CoAuthors.CoStepKeys | aps/processAPSXML.py:50-65 | one paper keeps the nodes equal to the authors that have a `numPapers` entry |
| CoAuthors.CoStepValid | aps/processAPSXML.py:50-65 | one paper keeps the invariant: the nodes are exactly the authors with a `numPapers` of at least 1, and every edge joins two nodes with a positive weight |
| CoAuthors.ReceivedYearCheck | aps/processAPSXML.py:43-48 | without `years` every row passes; a row fails the year test only through a `received` entry |
| CoAuthors.ReceivedYearGate | aps/processAPSXML.py:43-48 | a row received on a date "<y>-..." passes exactly when no years are given or `y` is among them, and a row without `received` always passes |
| CoAuthors.CoAuthorStep | aps/processAPSXML.py:50-65 | the three loops over one paper's authors meet the one-paper specification; every author reaches the counting loop with a `numPapers` entry, and the nodes stay exactly the authors that have one |
| CoAuthors.AddAuthorsLoop | aps/processAPSXML.py:51-54 | the loop adding new authors meets its specification |
| CoAuthors.LinkPairsLoop | aps/processAPSXML.py:56-62 | the double linking loop meets its specification |
| CoAuthors.CountPapersLoop | aps/processAPSXML.py:64-65 | when every listed author has a `numPapers` entry, each entry rises by that author's number of occurrences, and nothing else changes |
| CoAuthors.LinkFromLoop | aps/processAPSXML.py:57-62 | the inner linking loop meets its specification |
| CoAuthors.CoAuthorGraph | aps/processAPSXML.py:37-65 | started on a graph whose nodes are exactly the authors with a `numPapers` entry (as `nx.Graph()` is), the scan of one code group meets its specification: the graph it leaves, or the exception, including the `TypeError` of `add_node` on an author that cannot be hashed |
| CoAuthors.CoAuthorsXml | aps/processAPSXML.py:1-72 | one fresh graph per requested code, each the scan of its group; an exception is that of the first group whose scan raises |
| CoAuthors.CodeGroups | aps/processAPSXML.py:24-32 | one code group per requested code |
| CoAuthors.NewCoAuthorGraph | aps/processAPSXML.py:34-65 | a fresh graph holding the scan of one group, or the scan's exception |
| CoAuthors.ScanValid | aps/processAPSXML.py:39-65 | a scanned graph keeps the co-author invariant |
| CoAuthors.ScanNodesHashable | aps/processAPSXML.py:51-54 | every node of a graph the scan completes can be hashed |
| CoAuthors.YearBreak | aps/processAPSXML.py:43-48 | a row received outside `years` ends the scan: later rows are ignored |
| CoAuthors.WildcardAcceptsAll | aps/processAPSXML.py:49 | with group [-1] every row in the years is added, whatever its codes, or raises `TypeError` when an author cannot be hashed |
| CoAuthors.ReceivedDateIsDict | aps/processAPSXML.py:44-46 | with `years` given, a `received` entry shaped as `getYear` reads it raises AttributeError |
| CoAuthors.AddListingAt | aps/processAPSXML.py:138-146 | merging one graph adds its weights per unordered pair and its endpoints as nodes |
| CoAuthors.AddListingsAt | aps/processAPSXML.py:138-146 | merging all graphs adds their weights per unordered pair and their endpoints as nodes |
| CoAuthors.AddCoAuthorGraphs | aps/processAPSXML.py:135-147 | the corrected merge loop meets its specification, in a fresh graph |
| CoAuthors.MergedWeights | aps/processAPSXML.py:135-147 | each merged weight is the sum of the input weights, and the nodes are the endpoints |
| CoAuthors.MergeEdgeOriented | aps/processAPSXML.py:143-146 | as written, an edge listed in `resG`'s orientation adds its weight to the pair it joins |
| CoAuthors.MergeListingOriented | aps/processAPSXML.py:139-146 | as written, a listing in `resG`'s orientation adds its listed weights |
| CoAuthors.AsWrittenSumsWhenOriented | aps/processAPSXML.py:137-146 | as written, the merge sums the weights when every graph lists each edge in `resG`'s orientation |
| CoAuthors.SmallerFirstIsOrientation | aps/processAPSXML.py:143 | smaller-end-point-first is an orientation `resG.edges()` can report |
| CoAuthors.MergeOrientationExample | aps/processAPSXML.py:143-146 | as written, with `resG` reporting (1,9), weight 1 listed as (1,9) and weight 2 listed as (9,1) merge to 2, but their sum is 3 |
| CoAuthors.CoValid | aps/processAPSXML.py:50-65 | the invariant of a co-author graph: the nodes are exactly the authors with a `numPapers` entry, each entry is at least 1, and every edge joins two nodes and has a positive weight |
| CoAuthors.AddAuthors | aps/processAPSXML.py:51-54 | the definition of the node loop: each author that is not yet a node becomes one, with `numPapers` 0 |
| CoAuthors.LinkFrom | aps/processAPSXML.py:57-62 | the definition of the inner loop: `au` is linked once to each listing that differs from it |
| CoAuthors.LinkPairs | aps/processAPSXML.py:56-62 | the definition of the double loop: the inner loop runs for each listed author in turn |
| CoAuthors.CoStep | aps/processAPSXML.py:50-65 | the definition of one accepted paper. Its authors become nodes, every ordered pair of distinct listings is linked, and each listing adds one to that author's `numPapers` |
| CoAuthors.CoAuthorScan | aps/processAPSXML.py:37-65 | the definition of the scan for one code group. A missing `pacscode` raises. A received year outside `years` ends the scan (the `break`). A row whose codes match the group (any row, for the group [-1]) goes through `CoStep`. An author that cannot be hashed raises `TypeError` |
| CoAuthors.Built | aps/processAPSXML.py:22-65 | the graph `Graphs[x]` is what the scan of code group `x` produces, starting from `nx.Graph()` |
| CoAuthors.Orientation | aps/processAPSXML.py:139-143 | the definition of the orientation in which `resG.edges()` lists an edge: one of the pair's two orders, and the same whichever order is asked for |
| CoAuthors.MergeEdgeAsWritten | aps/processAPSXML.py:141-146 | one edge merged as written. The weight is added only when `e` is found in the orientation `resG` lists it in. Otherwise `add_edge` overwrites the weight with `w` |
| CoAuthors.MergeListingAsWritten | aps/processAPSXML.py:139-146 | one graph's edge listing merged as written, edge after edge |
| CoAuthors.AddGraphsAsWritten | aps/processAPSXML.py:135-147 | the definition of `addCoAuthorGraphs` as written: the graphs' listings merged in order into an empty result |
| CoAuthors.ListedAs | aps/processAPSXML.py:139-143 | each listed edge already has the orientation `resG` would give it |
| CoAuthors.ListedWeight | aps/processAPSXML.py:139-142 | the reference weight a listing gives a pair: the weights of its edges between `u` and `v`, in either order, summed |
| CoAuthors.TotalWeight | aps/processAPSXML.py:138-146 | the reference weight of a pair: the sum, over the graphs, of each listing's weight for that pair |
| CoAuthors.AddListing | aps/processAPSXML.py:139-146 | the definition of the corrected merge of one listing: each edge's weight is added to its unordered pair |
| CoAuthors.AddListings | aps/processAPSXML.py:137-146 | the definition of the corrected merge: the listings of all graphs added in order |
| CoAuthors.SmallerFirst | aps/processAPSXML.py:139 | one concrete orientation: the smaller end point first |
| SubjectGraphs.PaperCodeSet | aps/processAPSXML.py:173-185 | `pacsSet` is the set of the paper's codes at the level, failures skipped |
| SubjectGraphs.PairFoldAt | aps/processAPSXML.py:188-195 | the pair loop over distinct codes adds 1 to the edge of each pair of them and to no other |
| SubjectGraphs.PairFoldNodes | aps/processAPSXML.py:188-195 | the codes become nodes only when there are at least two |
| SubjectGraphs.PairUp | aps/processAPSXML.py:188-195 | the pair loop meets its specification |
| SubjectGraphs.PaperPairs | aps/processAPSXML.py:173-195 | one paper's codes are deduplicated, then each pair is linked once |
| SubjectGraphs.AllCodedAt | aps/processAPSXML.py:172 | every row holding `pacscode` is checked one at a time |
| SubjectGraphs.AllCodedIff | aps/processAPSXML.py:172 | the rows pass exactly when each holds `pacscode` |
| SubjectGraphs.PacsRowStep | aps/processAPSXML.py:169-195 | after each row, an edge weighs the papers holding both codes, and the nodes are the codes of papers with two or more |
| SubjectGraphs.PacsXml | aps/processAPSXML.py:150-198 | succeeds exactly when every row has `pacscode`; each pair weighs the number of papers with both codes |
| SubjectGraphs.AddNodes | aps/processAPSXML.py:226-233 | adding nodes touches neither edges nor `numPapers` |
| SubjectGraphs.AddNodesLoop | aps/processAPSXML.py:226-233 | the node-adding loop meets its specification |
| SubjectGraphs.RowParts | aps/processAPSXML.py:225-233 | a row is read exactly when it has `pacscode`, its codes can be hashed, its author tree is accepted and its authors can be hashed; an unhashable code raises `TypeError` |
| SubjectGraphs.SubjectScanStep | aps/processAPSXML.py:222-240 | one row's exception ends the scan; otherwise the scan goes on from that row's step |
| SubjectGraphs.Authors2Subjects | aps/processAPSXML.py:201-241 | the loop meets its specification: the scanned graph in a fresh object, or the exception, including the `TypeError` of `add_node` on a code or an author that cannot be hashed |
| SubjectGraphs.SubjectStepAt | aps/processAPSXML.py:235-240 | one row adds count(author)·count(code) to that author-code edge |
| SubjectGraphs.SubjectStepAuthors | aps/processAPSXML.py:231-240 | no row links two authors |
| SubjectGraphs.SubjectStepCodes | aps/processAPSXML.py:226-240 | no row links two codes |
| SubjectGraphs.SubjectScanOk | aps/processAPSXML.py:222-233 | the scan succeeds exactly when every row is read |
| SubjectGraphs.AllParseIff | aps/processAPSXML.py:225-233 | every row is read exactly when `RowParts` reads each row |
| SubjectGraphs.SubjectScanAt | aps/processAPSXML.py:221-241 | an author-code edge weighs the author-code pairings over all rows; author-author and code-code edges stay as they were |
| SubjectGraphs.PairFold | aps/processAPSXML.py:188-195 | the definition of the pair loop: each code is linked once with every code listed before it |
| SubjectGraphs.HasPacsCode | aps/processAPSXML.py:172 | the row has the `pacscode` entry that `r['pacs']['pacscode']` reads |
| SubjectGraphs.AllCoded | aps/processAPSXML.py:168-172 | every row has its `pacscode` entry |
| SubjectGraphs.RowCodes | aps/processAPSXML.py:172-186 | the codes one row gives `pacsXML` at the chosen level |
| SubjectGraphs.PapersWithBoth | aps/processAPSXML.py:168-195 | the reference weight: the number of rows whose codes include both `u` and `v` |
| SubjectGraphs.PairedCodes | aps/processAPSXML.py:186-195 | the codes of the rows that hold at least two codes, which are the only ones the pair loop makes nodes of |
| SubjectGraphs.WeighsPapers | aps/processAPSXML.py:168-195 | each pair's weight is the number of papers that carry both codes |
| SubjectGraphs.SubjectStep | aps/processAPSXML.py:225-240 | the definition of one row of `authors2Subjects`. Its codes, then its authors, become nodes, and each author listing is linked with each code listing |
| SubjectGraphs.SubjectScan | aps/processAPSXML.py:221-241 | the definition of the scan of `authors2Subjects`: the rows in order through `SubjectStep`, with the first exception ending it |
| SubjectGraphs.Pairings | aps/processAPSXML.py:221-240 | the reference weight between author `a` and code `p`: over the rows, the number of listings of `a` times the number of listings of `p` |
| SubjectGraphs.RowPairings | aps/processAPSXML.py:235-240 | the same count for one row, which is 0 for a row that raises |
| SubjectGraphs.AllParse | aps/processAPSXML.py:222-233 | every row has `pacscode` and an author tree `processAuthors` accepts, and its codes and authors can be hashed |
| ProcessXml.RowAccept | processAPSXML.py:39-55 | an accepted row gives its authors, all of which can be hashed; with pacsCode -1 every row with `pacscode` is accepted, and an author that cannot be hashed raises `TypeError` |
| ProcessXml.SetFromLoop | processAPSXML.py:53-55 | a new author's loop meets its specification |
| ProcessXml.RootStepLoop | processAPSXML.py:42-55 | one paper's loop meets its specification |
| ProcessXml.RootScanStep | processAPSXML.py:36-55 | a rejected row changes nothing; an accepted row's step continues the scan; an exception ends it |
| ProcessXml.ProcessXmlGraph | processAPSXML.py:1-62 | the loop meets its specification: the scanned graph in a fresh object, or the exception, including the `TypeError` of `add_node`/`add_edge` on an author that cannot be hashed |
| ProcessXml.LinkFromOk | processAPSXML.py:44-49 | a known author's loop keeps edges between nodes and loses no node |
| ProcessXml.SetFromOk | processAPSXML.py:50-55 | a new author's loop keeps edges between nodes and loses no node |
| ProcessXml.SetFromAt | processAPSXML.py:50-55 | a new author's edges to the paper's other authors become 1 |
| ProcessXml.NoEdgeAtNewNode | processAPSXML.py:50-51 | an author not yet in the graph has no edge |
| ProcessXml.RootPaperAt | processAPSXML.py:42-55 | each endpoint processed adds 1 to an edge with a listed co-author |
| ProcessXml.RootStepAt | processAPSXML.py:41-55 | a paper listing each author once adds exactly 2 to every pair of its authors, and nothing elsewhere |
| ProcessXml.RootScanAt | processAPSXML.py:36-55 | an edge weighs twice the number of accepted papers listing both authors |
| ProcessXml.RootScanOk | processAPSXML.py:36-41 | the scan succeeds exactly when every row is accepted or rejected without an exception |
| ProcessXml.SetFrom | processAPSXML.py:53-55 | the definition of a new author's loop: the edge to each other listing is set to weight 1, overwriting any weight it had |
| ProcessXml.RootPaper | processAPSXML.py:42-55 | the definition of the loop over a paper's authors. An author already among the nodes adds one to its edge with each other listing. A new author is added as a node and its edges are set to 1 |
| ProcessXml.RootStep | processAPSXML.py:41-55 | the definition of one accepted paper: the author loop run over all of its authors |
| ProcessXml.RootScan | processAPSXML.py:35-55 | the definition of the scan in `processXML`. The first exception ends it. Rows that are not accepted are skipped, and each accepted paper goes through `RootStep` |
| ProcessXml.NoRepeats | processAPSXML.py:41-55 | an accepted row lists none of its authors twice |
| ProcessXml.RootPairs | processAPSXML.py:35-55 | the reference weight of a pair: twice the number of accepted papers that list both authors |
| ArxivNames.Tokens | arxiv/arxiv.py:31 | `name.rstrip(' .').split(' ')` gives at least one token |
| ArxivNames.Initials | arxiv/arxiv.py:31 | one initial per token |
| ArxivNames.CleanToken | arxiv/arxiv.py:39 | stripping '-' then '.' only removes characters |
| ArxivNames.UnifiedName | arxiv/arxiv.py:21-42 | a name of at most one character, or an initials request with an empty token, is returned unchanged |
| ArxivNames.TokensHaveNoSpace | arxiv/arxiv.py:31-33 | no token holds a space |
| ArxivNames.UnifiedNameHasNoSpace | arxiv/arxiv.py:36-42 | unless the name is returned unchanged, the unified name holds no space |
| ArxivNames.InitialsAreShort | arxiv/arxiv.py:30-42 | in initials mode, at most one character per token |
| ArxivNames.CleanNameUnchanged | arxiv/arxiv.py:21-42 | a name without spaces and without '-' or '.' at its ends is already unified |
| ArxivNames.GetAuthors | arxiv/arxiv.py:45-56 | None exactly when a name column is missing; otherwise as many authors as the shorter column lists |
| ArxivNames.SurnameOfAuthor | arxiv/arxiv.py:55 | the text before an author's first ',' is the surname paired with it |
| ArxivNames.GetAuthorSeries | arxiv/arxiv.py:59-79 | the counter loop meets its specification |
| ArxivNames.AddAll | arxiv/arxiv.py:88-89 | the inner loop adds every author of the row |
| ArxivNames.GetAllAuthors | arxiv/arxiv.py:82-90 | the set loop meets its specification |
| ArxivNames.AuthorCountsAt | arxiv/arxiv.py:65-77 | the counter holds exactly the listed authors, each mapped to its number of listings |
| ArxivNames.AllAuthorsAt | arxiv/arxiv.py:84-90 | an author is in the set exactly when listed at least once |
| ArxivNames.SeriesIndexIsAllAuthors | arxiv/arxiv.py:59-90 | the counter's keys are the set of all authors |
| ArxivNames.MissingRowSkipped | arxiv/arxiv.py:71-72 | a paper with a missing name column changes neither the counter nor the set |
| ArxivNames.HasEmptyToken | arxiv/arxiv.py:31-35 | some token is empty, so `i[0]` raises `IndexError` |
| ArxivNames.AuthorsOf | arxiv/arxiv.py:71-73 | a row's authors, none when `get_authors` returns `None` |
| ArxivNames.AuthorCounts | arxiv/arxiv.py:59-79 | the definition of the counter of `get_author_series`: each row's authors counted in table order |
| ArxivNames.Occurrences | arxiv/arxiv.py:67-77 | the reference count: how often `a` is listed over all rows |
| ArxivNames.AllAuthors | arxiv/arxiv.py:82-90 | the definition of `get_all_authors`: every author that some row lists |
| ArxivScraping.StripBrackets | scraping/arxiv.py:112 | stripping "['" and "']" only removes characters |
| ArxivScraping.ListCleaner | scraping/arxiv.py:109-122 | a non-string cell comes back as it is; otherwise the cleaned cell holds only the cell's characters, plus '|' when listifying |
| ArxivScraping.ListifyChars | scraping/arxiv.py:117 | listifying adds no character except '|' |
| ArxivScraping.RemoveQuotesChars | scraping/arxiv.py:119-120 | removing quotes adds no character |
| ArxivScraping.PlainCleanerEnds | scraping/arxiv.py:112 | with no options, the result neither starts nor ends with a quote or ']' |
| ArxivScraping.ListifyReplacesSeparator | scraping/arxiv.py:115-117 | no separator is left, and splitting on '|' gives the pieces between separators; joining them back restores the cell when it had no '|' |
| ArxivScraping.RemoveQuotesRemovesAll | scraping/arxiv.py:118-120 | with `remove_quotes` no quote of either kind is left |
| ArxivScraping.NewToken | scraping/arxiv.py:23 | the new token keeps the old token's part before the first '|' and ends with `token` |
| ArxivScraping.HeadHasNoBar | scraping/arxiv.py:23 | the part before the first '|' holds no '|' |
| ArxivScraping.NewTokenTwice | scraping/arxiv.py:21-23 | setting the token twice is setting it once with the second token |
| ArxivScraping.Records.constructor | scraping/arxiv.py:19 | the record iterator starts from the given token |
| ArxivScraping.ArxivScraper.constructor | scraping/arxiv.py:14-19 | the scraper holds the given record iterator |
| ArxivScraping.ArxivScraper.SetResumptionToken | scraping/arxiv.py:21-24 | the iterator's token becomes the rewritten token |
| ArxivScraping.FullYear | scraping/arxiv.py:91-95 | a two-digit year maps into 1981..2080 and keeps its last two digits |
| ArxivScraping.FullYearInjective | scraping/arxiv.py:91-95 | distinct two-digit years map to distinct years |
| ArxivScraping.DefaultYearsSpan | scraping/arxiv.py:46 | the default years are 1990 to 2013, in order |
| ArxivScraping.FileName | scraping/arxiv.py:95 | the file name is "arxiv-" + digits + ".csv" |
| ArxivScraping.FileNameYear | scraping/arxiv.py:95 | the file name's digits are the four-digit year |
| ArxivScraping.IdString | scraping/arxiv.py:87 | the idstring holds no '/' and ends the id |
| ArxivScraping.NewStyleId | scraping/arxiv.py:85-87 | an id without '/' is its own idstring |
| ArxivScraping.SelectedStartsWithYear | scraping/arxiv.py:96 | a selected id's idstring starts with the year's two digits |
| ArxivScraping.SelectionDisjoint | scraping/arxiv.py:90-96 | no id is selected for two different years |
| ArxivScraping.YearRows | scraping/arxiv.py:96 | the rows written for a year are exactly the selected ones |
| ArxivScraping.Listify | scraping/arxiv.py:115-117 | a cleaned cell re-joined with `|` after splitting on the separator |
| ArxivScraping.RemoveQuotes | scraping/arxiv.py:118-120 | both kinds of quote removed from a cleaned cell |
| ArxivScraping.BaseYear | scraping/arxiv.py:91-94 | the century of a two-digit year: 1900 above 80, else 2000 |
| ArxivScraping.Selected | scraping/arxiv.py:96 | the definition of a row's selection for year `y`: its idstring starts with `y` padded to two digits |
| DoiDates.FirstDateParts | scraping/doi.py:29-30 | None exactly when `issued` or `date-parts` is missing (KeyError); an empty `date-parts` raises IndexError |
| DoiDates.ProcessDate | scraping/doi.py:27-38 | without the flag, the parts as found; with it, up to three parts in order with month and day defaulting to 1; a fourth part raises IndexError |

## Left out

- File, XML, CSV and pickle input and output. This covers `xml2pickle`, `reverseCitingCited`, the file reading and `dropna` in the graph builders, `read_all_arxiv_files`, and the concatenating, sorting, column dropping and `to_csv` of `clean_arxiv_data`. The model takes the rows as input sequences, in table order.
- `processLine` and `processAuthorLine` are a single call. The model calls `AuthorTree.ProcessAuthors` on the row's `authgrp` in their place.
- aps/storeData.py is not part of this model, because it only writes files. aps/graphsGeneral.py and igraph/process_graph.py are not part of it either, because they only dispatch to networkx, python-louvain and igraph.
- `entropy` uses floating-point logarithms.
- The network clients are not modelled: `ArxivScraper.__init__` and `scrape` use sickle, and `DOIScraper.get_doi` uses requests. Printing the new token is not modelled either, and neither is the `print pacsList` of processAPSXML.py:32. The scraper holds only its record iterator.
- `nx.from_dict_of_dicts` in `makeGraph` is not modelled. `Adjacency.MakeGraph` returns the dict-of-dicts it would convert.
- Node attributes other than `numPapers`, and the `neighbors` and `has_edge` queries, are not modelled as separate operations. Their effect is folded into `Graphs.NxGraph.LinkNodes`.
- Python's `int()` is modelled on decimal-digit strings only. Surrounding whitespace, signs and underscores are not accepted, though Python accepts them.
- Names and codes are compared as whole values. There is no Unicode case folding or normalisation.
- The broken call sites are not modelled: `parseAPS.getPacs` in aps/graphsAPS.py, the three-argument `get_authors` call, and `get_categories` in arxiv/graph.py. The folds take the item lists directly.
- Pacs.ConvertPacs: does not fix the order of `list(set(...))`, which depends on hashing. Only the absence of duplicates and the elements are stated.
- ParseAps.GetPacs: does not fix the order of the codes, for the same reason.
- ParseAps.GetPacsYears: does not fix the order of the codes, for the same reason.
- SubjectGraphs.PaperPairs: does not fix the order `pacsList` takes, for the same reason. The weights it produces do not depend on that order.
- ProcessXml.RootScanAt: states the pair weights only for rows that list no author twice. A repeated author meets a mixture of the set-to-1 and add-1 branches, and that mixture is not characterised.
- ProcessXml.RootPaperAt: states edge weights only when the paper's author list has no duplicates, for the same reason.
- ParseAps.GetCommonPacs: returns `None` for the initial `''`, and takes the dictionary as its (key, count) pairs in iteration order.
- ParseAps.Dois2Ilocs: takes `iterrows()` as its (index, doi) pairs.
- ArxivScraping.ListCleaner: a non-string cell (a float NaN in the table) is `None`. The `listify` argument is the separator string, and the empty string stands for its default `False`.
- DoiDates.ProcessDate: the `datetime` is its (year, month, day) triple. A date `datetime` would reject, such as month 13, is not rejected.
- CoAuthors.CoAuthorsXml: states its result through the scan of each code group. It does not state that the graphs are distinct objects.
- CoAuthors.AddGraphsAsWritten: takes the orientation in which `resG.edges()` reports an edge as a fixed parameter. In Python 2 that orientation follows the iteration order of `resG`'s adjacency dictionary, which the hashes and the table's size history decide, and it can change as `resG` grows. The listings `G.edges()` gives are likewise inputs, so their orientation is not derived from the graphs either.
- Hashing is modelled only as the `TypeError` that `add_node` and `add_edge` raise on a node holding a list or an `OrderedDict`. The partial graph left behind when that exception propagates is not stated, because the graph is lost with the exception.

## Findings

| source | as written | input that shows it | evidently intended | confidence | as-written member | corrected member |
|---|---|---|---|---|---|---|
| aps/graphsAPS.py:32-34 | for an author not yet in `result`, `result[a][p]` reads `p` before the loop over `pacs` binds it | any row with an author list and a code list, e.g. one paper by author 1 with code 7 | a new author gets weight 1 for every code of the row, as a known author does | high (not executed) | Adjacency.BipartiteAsWrittenFails | Adjacency.BipartiteWeights |
| aps/processAPSXML.py:143-146 | `e in resG.edges()` tests the ordered tuple, so an edge reported the other way round has its weight overwritten, not added | nodes 1 and 9 share a slot of an 8-slot dictionary: one graph whose paper lists 1 before 9 reports (1,9) with weight 1, one listing 9 before 1 reports (9,1) with weight 2, and `resG` reports (1,9) | the merged weight is the sum of the input weights | medium (not executed) | CoAuthors.MergeOrientationExample | CoAuthors.MergedWeights |
| aps/parseAPS.py:180 | level 1 slices `[-2:1]`, keeping only the tens digit | "45.10.Db" gives 4 | 40, as the docstring at line 171 says | high (not executed) | Pacs.Level1AsWritten | Pacs.Level1Intended |
| aps/parseAPS.py:38 | `subsetPACS` is rebound to the row's own codes, so every row with codes passes the PACS gate | a row coded "45.10.Db" with `subsetPACS=[10]` is kept | keep the row only when one of its codes is in `subsetPACS`, as `getAuthorsYears` does | high (not executed) | ParseAps.SubsetPacsIgnored | ParseAps.GetAuthorsIntended |
