# Edge-list graph statistics, modelled in Dafny

The program reads an undirected graph as a text file of edges, one pair of
vertex ids per line. It builds an adjacency map and prints four things:

- the vertex count, which is the largest id plus one;
- the raw number of edges;
- the degree distribution, sorted by degree with the largest first;
- the average degree.

This project models that pipeline with the file I/O removed. It is split into
five modules:

- `Results`: `Option` and `Result`.
- `Parser`: the per-line rule of `read_file`. This module also models the two
  library routines the rule depends on:
  - `str::split_whitespace`, with the full Unicode White_Space set;
  - `u64::from_str`, including:
    - an optional leading `+`;
    - a lone sign counting as an invalid digit;
    - `-` being rejected for an unsigned type;
    - the digit check happening before the checked multiply-and-add;
    - the error kinds `Empty`, `InvalidDigit` and `PosOverflow`.

  A `.unwrap()` on a failed parse becomes an `Err` that names the line and the
  token.
- `Graph`: `clean_data`, written as a fold over the edge list. It produces the
  adjacency map (`map<nat, set<nat>>`) and the running maximum id.
- `Stats`:
  - `degree_distribution` and `average_degree`, written as methods that visit
    the map's keys in an arbitrary order, just as `HashMap` iteration does.
    Their contracts are stated against order-free reference definitions.
  - The descending sort and the report order, as done in `main`.
- `Pipeline`: `main` without the printing, and the source's unit test.

The f64 division `degree_sum as f64 / num_vertices as f64` is modelled as an
exact rational, `Mean`. `None` stands for the NaN of an empty graph.

## Model

The functions that follow the source step by step carry their meaning in the
lemma rows below rather than in rows of their own:

- `Parser.ReadEdges`: ReadEdgesOutcome, ReadOneLine, ReadEdgesAppend and ParsedLineContributes.
- `Parser.Accumulate`: AccumulateComputesValue and AccumulateFirstFailure.
- `Graph.Build`: BuildKeys, BuildNeighbour and BuildSymmetric.
- `Graph.MaxVertexId` and `Graph.CleanData`: VertexCountIsMaxPlusOne and KeysBelowVertexCount.
- `Stats.Bump`: DistributionStep.

| member | source | states |
|---|---|---|
| Parser.Tokens | main.rs:13 | every piece that `split_whitespace` yields is a non-empty run that contains no whitespace |
| Parser.TokensOfLaidOut | main.rs:13 | a line made of tokens laid out with any whitespace runs (possibly empty at the ends, non-empty between tokens) splits into exactly those tokens, so tabs, padding and runs of blanks all separate tokens |
| Parser.SeparatorsRebuildLine | main.rs:13 | every line is its own tokens laid out with whitespace runs around them, nothing lost or added |
| Parser.TokensCharacterised | main.rs:13 | `split_whitespace` yields `ts` if and only if the line is `ts` laid out with whitespace runs that are non-empty between tokens; this pins its result for every line |
| Parser.TabSeparatedTokens | main.rs:13 | the line " 12\t34\r" splits into "12" and "34" |
| Parser.TabSeparatedEdge | main.rs:13-17 | the tab-separated, padded line " 12\t34\r" is the edge (12, 34) |
| Parser.TabSeparatedRead | main.rs:11-20 | a file whose only line is " 12\t34\r" reads as the single edge (12, 34) |
| Parser.TokensOfJoin | main.rs:13 | joining tokens with single spaces and splitting the result again gives back exactly those tokens |
| Parser.TokensKeepNonWhitespace | main.rs:13 | splitting drops exactly the whitespace: concatenating the tokens gives the line with its whitespace characters removed |
| Parser.ParseU64 | main.rs:15-16 | a successful parse of a token is a `u64`, never above 2^64-1 |
| Parser.ParseU64Accepts | main.rs:15-16 | a token parses if and only if, after one optional `+`, it is a non-empty string of ASCII digits whose value is at most 2^64-1; the result is that decimal value; `Empty` is reported exactly for the empty token |
| Parser.AccumulateComputesValue | main.rs:15-16 | the checked digit loop succeeds exactly when the rest is all digits and the whole value fits in `u64`; it then yields the decimal value, and it reports `PosOverflow` when the digits are valid but too large |
| Parser.AccumulateFirstFailure | main.rs:15-16 | the checked digit loop fails at the first problem it meets: an overflow when the leading digits already exceed 2^64-1, even if a non-digit follows; otherwise an invalid digit at the first non-digit |
| Parser.ParseU64Rejects | main.rs:15-16 | the error `u64::from_str` reports is decided by the leading digits after an optional `+`: an overflow when they exceed 2^64-1, otherwise an invalid digit when anything else follows; a token without a leading digit (a lone sign, a `-`, a letter) is an invalid digit |
| Parser.ParseDecimal | main.rs:15-16 | the decimal rendering of `n`, with or without a `+`, parses back to `n` if `n` fits in `u64`; otherwise it overflows |
| Parser.ParseLine | main.rs:13-17 | a line is skipped if and only if it does not have exactly two tokens; a two-token line is an edge if and only if both tokens parse, and the edge is the two parsed values in order; otherwise the line is rejected, naming the first token that fails (the first if it fails, else the second) and that token's error |
| Parser.ReadEdgesOutcome | main.rs:11-20 | reading succeeds if and only if no line is rejected; a failure names a rejected line with its token and error kind, and no earlier line is rejected; a success yields at most one edge per line, and each edge is parsed from some line |
| Parser.ReadEdgesAppend | main.rs:11-20 | reading two blocks of lines one after the other equals reading each block and concatenating the results, with the second block's error line numbers shifted |
| Parser.ReadOneLine | main.rs:13-17 | a file of one line yields nothing if the line is skipped, exactly that line's edge if it parses, and otherwise an error at line 0 naming the line's failing token and its error kind |
| Parser.ParsedLineContributes | main.rs:14-17 | a line that parses, placed anywhere in a file, leaves the success of the read unchanged and contributes its edge exactly at its own place: after the edges of the lines before it and before those of the lines after it |
| Parser.SkippedLineChangesNothing | main.rs:14 | inserting a line that does not have two tokens anywhere changes neither the success of the read nor the edges it yields |
| Parser.ParseRenderedEdge | main.rs:13-17 | a line written as "u v" with `u64` ids parses to the edge (u, v) |
| Parser.ReadRenderedEdges | main.rs:11-20 | writing a list of `u64` edges one per line and reading it back gives the same list |
| Graph.BuildKeys | main.rs:27-31 | the keys of the adjacency map are exactly the ids that occur as an endpoint of some pair |
| Graph.BuildNeighbour | main.rs:29-30 | `v` is a neighbour of `u` if and only if some pair joins `u` and `v`, in either order |
| Graph.BuildSymmetric | main.rs:29-30 | after cleaning, `v` is a neighbour of `u` exactly when `u` is a neighbour of `v` |
| Graph.SameEdgesSameAdjacency | main.rs:27-31 | two edge lists that link the same unordered pairs produce the same map, whatever the order, repetitions or orientation of the pairs |
| Graph.RepeatedEdgeChangesNothing | main.rs:29-30 | adding a pair that is already present, in either orientation, leaves the map unchanged |
| Graph.SelfLoopCountsOnce | main.rs:29-30 | a self-loop `(u, u)` given twice makes `u` its own neighbour, once |
| Graph.VertexCountIsMaxPlusOne | main.rs:26-32 | the vertex count is above every endpoint; it is 1 for no edges; otherwise it is one more than an id that occurs |
| Graph.KeysBelowVertexCount | main.rs:24-32 | every vertex of the map is below the vertex count, so the count is never smaller than the number of vertices in the map |
| Stats.DistributionStep | main.rs:38-41 | counting one more vertex bumps the count of that vertex's degree and changes nothing else |
| Stats.DegreeDistribution | main.rs:36-43 | for any iteration order, the result maps a degree `d` to the number of vertices of degree `d`; it holds exactly the degrees that occur, and every count is at least 1 |
| Stats.DegreeSumRemove | main.rs:47 | the degree sum does not depend on the order of the vertices: any vertex can be counted first |
| Stats.Mean | main.rs:49 | the quotient is undefined (NaN) exactly when the count is zero; otherwise the quotient times the count is the total |
| Stats.AverageDegree | main.rs:46-50 | for any iteration order, the average is undefined exactly for an empty map; otherwise it is the sum of the neighbour-set sizes over the number of vertices |
| Stats.InsertKeepsDescending | main.rs:73 | inserting into a list ordered by descending degree keeps it ordered |
| Stats.InsertKeepsDistinct | main.rs:73 | inserting an entry with a new degree into a list with distinct degrees keeps the degrees distinct |
| Stats.SortByDegree | main.rs:73 | sorting by reversed degree yields a permutation (the same multiset) of the entries, ordered by degree with the largest first |
| Stats.SortKeepsEntries | main.rs:73 | sorting keeps exactly the entries it was given, and distinct degrees stay distinct |
| Stats.CollectEntries | main.rs:72 | collecting the map gives each of its (degree, count) entries exactly once, in some order |
| Stats.ReportOrder | main.rs:71-73 | the printed distribution is strictly descending by degree and holds exactly the map's entries, one per degree |
| Stats.DescendingReportIsUnique | main.rs:72-73 | two strictly descending lists with the same entries are equal, so the printed order does not depend on hash order |
| Stats.ReportTotals | main.rs:36-50 | the counts of the report add up to the number of vertices, and degree times count adds up to the degree sum |
| Pipeline.Statistics | main.rs:71-79 | the printed distribution is strictly descending and lists the distribution's entries; its counts sum to the number of vertices; the printed average is the sum of the neighbour-set sizes over the number of vertices, equal to the report's weighted total over its counts, and it is undefined exactly for an empty map |
| Pipeline.Summarise | main.rs:66-79 | the vertex count is above every id and is one more than an id that occurs; it is 1 for no edges, and never below the number of vertices in the map; the edge count is the raw number of pairs, duplicates included; the distribution lists exactly the map's (degree, count) entries, strictly descending, with counts adding up to the number of vertices; the average is the sum of the neighbour-set sizes over the number of vertices in the map, equal to the degree-weighted total of the distribution over its counts, and it is undefined exactly when there are no edges |
| Pipeline.Analyze | main.rs:64-79 | a run fails exactly when some line is rejected, and it then reports the first such line; otherwise it reports the statistics of exactly the edges read, with everything Summarise promises about them, and at most one edge per line; an empty file gives vertex count 1, no edges, an empty distribution and an undefined average |
| Pipeline.SampleAdjacency | main.rs:58-59 | the test's edges (1,2), (1,3), (2,3), (3,4) clean to vertices 1 to 4 with neighbours {2,3}, {1,3}, {1,2,4} and {3} |
| Pipeline.SampleVertexCount | main.rs:58-59 | the test's edges give the vertex count 5 |
| Pipeline.SampleDistribution | main.rs:58-59 | the test's map has one vertex of degree 3, two of degree 2 and one of degree 1 |
| Pipeline.SampleReport | main.rs:72-73 | the only strictly descending listing of that distribution is (3,1), (2,2), (1,1) |
| Pipeline.SampleRun | main.rs:57-61 | the whole pipeline on the test's edges reports 5 vertices, 4 edges, the distribution (3,1), (2,2), (1,1) and the average 2.0 (8 neighbour entries over 4 vertices), matching the test's assertion |

## Left out

- Opening and reading the file (`File::open`, `BufReader::lines`): the model starts from the lines as strings. I/O errors and invalid UTF-8, which abort the run through `?` and `unwrap`, are not modelled.
- The panic of `.unwrap()` on a token that does not parse: it is modelled as an `Err` that names the line, the token and the error kind. Nothing after a failure is modelled.
- Printing (`println!`) and the number formatting of the report: `Summary` holds the values in the order they are printed.
- Stats.Mean: computes an exact rational rather than an f64. Rounding of `degree_sum as f64`, of `num_vertices as f64` and of the division is not modelled. The source's own test only checks 8 / 4, which is exact.
- Stats.AverageDegree: `usize` overflow of the degree sum is not modelled. The sum is at most twice the number of distinct edges, which cannot exceed memory.
- Graph.CleanData: `max_vertex_id as usize + 1` overflows when some id equals 2^64-1, on a 64-bit target. The model uses unbounded `nat` ids and reports 2^64 for that case.
- Hashing and the iteration order of `HashMap`/`HashSet`: the methods take the keys in an arbitrary order, and the contracts hold for every order.
- Stats.SortByDegree: modelled as a stable insertion sort, not Rust's merge sort. Only its result matters here, and that result is the same for any correct sort because the degrees are distinct keys. Stats.DescendingReportIsUnique shows this.
