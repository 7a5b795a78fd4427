# text-search core, in Dafny

`text-search.js` is a command-line semantic search. It reads a document and splits
it into sentences, one per non-blank line. It embeds each sentence with a feature
model, embeds the query the same way, and scores every sentence vector against the
query vector by cosine similarity (`sim`). It then prints the best `top_k` matches,
three by default.

This project models the three pieces of sequential logic in that script:

- `sentences.dfy` (module `Sentences`): the sentence pipeline,
  `document.split('\n').map(line => line.trim()).filter(line => line.trim().length > 0)`.
  - Trimming removes the ECMAScript WhiteSpace and LineTerminator code points
    (sections 12.2 and 12.3 of ECMA-262), as `String.prototype.trim` does.
  - Splitting follows `String.prototype.split` with a one-character separator.
    The empty document gives one empty line.
- `similarity.dfy` (module `Similarity`): the accumulation loop of `sim`, as a
  method over exact reals.
  - The loop is proved to compute the dot product and the two squared magnitudes.
  - The magnitudes are proved non-negative, and Cauchy–Schwarz holds for the three
    sums.
  - The final `product / (Math.sqrt(mA) * Math.sqrt(mB))` is a caller-supplied
    function `finish` of the three sums.
- `ranking.dfy` (module `Ranking`): the ranking part of `search`.
  - Every score is paired with its index.
  - The pairs are sorted by `(p, q) => q.similarity - p.similarity`. This is a
    stable sort, as ECMA-262 has required of `Array.prototype.sort` since its 2019
    edition, so it is modelled as a stable insertion sort.
  - The result is cut with `slice(0, top_k)`.
  - The proofs cover the result's length, order, tie order, entries and the top-k
    property.

What the code does at its edges, and the model with it:

- `sim` raises no error when the two vectors differ in length. It walks `p.length`
  and reads `q[i]` whatever the length of `q`.
- A zero vector makes the division at text-search.js:49 produce NaN.
- `search` passes `top_k` straight to `slice`, so `top_k = 0` returns `[]`, and so
  does `Rank`.

## Model

| member | source | states |
|---|---|---|
| Sentences.TrimStart | text-search.js:81 | Removes the leading code points that `trim` strips. Its contract is stated by `TrimStartSpec`. |
| Sentences.TrimEnd | text-search.js:81 | Removes the trailing code points that `trim` strips. Its contract is stated by `TrimEndSpec`. |
| Sentences.Trim | text-search.js:81 | `String.prototype.trim`, as `TrimEnd` after `TrimStart`. `TrimIsSlice`, `TrimEnds`, `TrimEmptyIffBlank` and `TrimIdempotent` state what it returns. |
| Sentences.TrimStartSpec | text-search.js:81 | Removing the leading trimmable code points leaves a suffix of the line. What it cuts is blank, and what is left is empty or starts with a non-trimmable code point. |
| Sentences.TrimEndSpec | text-search.js:81 | Removing the trailing trimmable code points leaves a prefix of the line. What it cuts is blank, and what is left is empty or ends with a non-trimmable code point. |
| Sentences.TrimIsSlice | text-search.js:81 | `trim()` returns a contiguous slice of the line, with only trimmable code points before and after it. |
| Sentences.TrimEmptyIffBlank | text-search.js:82 | A trimmed line has length 0 exactly when the line is made only of whitespace and line terminators. |
| Sentences.TrimEnds | text-search.js:81 | A non-empty trimmed line neither starts nor ends with a trimmable code point. |
| Sentences.TrimIdempotent | text-search.js:81-82 | Trimming twice equals trimming once, so the filter's second `trim()` tests the already trimmed line. |
| Sentences.Split | text-search.js:80 | `split('\n')` always yields at least one piece. |
| Sentences.SplitNoSeparator | text-search.js:80 | No piece of `split('\n')` contains `'\n'`. |
| Sentences.JoinSplit | text-search.js:80 | Joining the pieces back with the separator gives the original document. |
| Sentences.SplitJoin | text-search.js:80 | Splitting a join of separator-free pieces gives those pieces back. |
| Sentences.TrimAll | text-search.js:81 | `map(line => line.trim())` keeps the number of lines. |
| Sentences.TrimAllElements | text-search.js:81 | Line k of the mapped sequence is line k of the input, trimmed. |
| Sentences.KeepNonEmpty | text-search.js:82 | `filter(line => line.trim().length > 0)` keeps at most as many lines as it is given. |
| Sentences.KeepNonEmptyPasses | text-search.js:82 | Every line the filter keeps has a non-empty trim. |
| Sentences.KeepNonEmptyLast | text-search.js:81-82 | Mapping and filtering a sequence adds, for its last line, that line trimmed exactly when the line is not blank. |
| Sentences.Sentences | text-search.js:80-82 | There are at most as many sentences as lines. `SentencesWellFormed` and `SentencesOrder` state what the sentences are. |
| Sentences.NonBlankPositionsAscending | text-search.js:82 | The positions of the non-blank lines are valid and strictly ascending. |
| Sentences.NonBlankPositionsNotBlank | text-search.js:82 | Every listed position holds a line that is not blank. |
| Sentences.NonBlankPositionsExact | text-search.js:82 | A line's position is listed exactly when the line is not blank. |
| Sentences.KeepNonEmptyPositions | text-search.js:81-82 | The kept lines are, in order, the trimmed lines at the non-blank positions, one each. |
| Sentences.TrimmedLineWellFormed | text-search.js:81 | A trimmed non-blank line without `'\n'` is non-empty, has no trimmable code point at either end, and has no `'\n'`. |
| Sentences.SentencesWellFormed | text-search.js:80-82 | Every sentence is non-empty, has no leading or trailing whitespace or line terminator, and contains no `'\n'`. |
| Sentences.SentencesOrder | text-search.js:80-82 | Sentence k is the trimmed line at the k-th non-blank position. These positions ascend, so line order is kept, and a line is dropped exactly when it is blank. |
| Similarity.Dot | text-search.js:44-47 | The running sum over the first n positions of the products the loop adds: p[i]q[i] for `product`, p[i]^2 for `mA`, q[i]^2 for `mB`. Its properties are `SquaresNonNegative`, `DotSymmetric` and `CauchySchwarz`. |
| Similarity.SquaresNonNegative | text-search.js:46-47 | A running sum of squares, `mA` or `mB`, is never negative. |
| Similarity.DotSymmetric | text-search.js:45 | The dot product is the same with the two vectors swapped. |
| Similarity.CrossSquaresExpand | text-search.js:44-48 | The sum of (p[i]v - uq[i])^2 equals v^2·mA - 2uv·product + u^2·mB over the same positions, and is never negative. |
| Similarity.CauchySchwarz | text-search.js:44-49 | product^2 <= mA·mB. Over exact reals the cosine at line 49 therefore lies in [-1, 1] when neither magnitude is 0. |
| Similarity.Accumulate | text-search.js:40-48 | After the loop, `product`, `mA` and `mB` are the sums of p[i]q[i], p[i]^2 and q[i]^2 over i < \|p\|. Both magnitudes are non-negative and product^2 <= mA·mB. |
| Similarity.Similarity | text-search.js:40-49 | The value `sim(p, q)` returns: `finish` of the three sums over the positions of `p`. `Sim` computes it, and `SimilaritySymmetric` states its symmetry. |
| Similarity.Sim | text-search.js:40-50 | `sim(p, q)` is `finish` applied to the three sums of the loop. |
| Similarity.SimilaritySymmetric | text-search.js:40-49 | For vectors of equal length, swapping them keeps `product` and exchanges `mA` with `mB`. So `sim` is symmetric for any `finish` that treats its two magnitudes alike. |
| Ranking.Pair | text-search.js:62-65 | `vectors.map((vector, index) => ({ index, similarity }))`: one entry per score, in ascending index order, each carrying the score at its own index. |
| Ranking.Insert | text-search.js:66 | One insertion step of the sort adds exactly the inserted entry, as a multiset. |
| Ranking.SortBySimilarity | text-search.js:66 | The sort returns a permutation of its input. |
| Ranking.InsertRanked | text-search.js:66 | Inserting an entry with a lower index than all entries of a ranked sequence keeps it ranked: similarity descending, index ascending on ties. |
| Ranking.SortRanked | text-search.js:66 | Sorting entries listed in ascending index order ranks them by descending similarity, with ties in ascending index order (stability). |
| Ranking.Rank | text-search.js:59-66 | The result has length min(top_k, \|scores\|), so an empty input gives an empty result. When `top_k` is not given it is `DefaultTopK`, which is 3. |
| Ranking.RankEntries | text-search.js:62-65 | Every returned entry has a valid index, and its similarity is the score at that index. |
| Ranking.RankRanked | text-search.js:66 | The result is ranked: each entry comes before every later one by descending similarity, then ascending index. |
| Ranking.RankOrdered | text-search.js:66 | Similarities are non-increasing, equal similarities come in ascending index order, and no index is returned twice. |
| Ranking.SortedPosition | text-search.js:62-66 | Every input position appears somewhere in the sorted sequence, with its own score. |
| Ranking.RankTopK | text-search.js:66 | Any position left out of the result scores no higher than every returned entry. |
| Ranking.Scores | text-search.js:62-65 | There is one score per document vector. |
| Ranking.Search | text-search.js:59-66 | `search` once the query is encoded: `Rank` of the scores, returning min(top_k, \|vectors\|) matches, with `top_k` 3 by default. |
| Ranking.SearchEntries | text-search.js:59-66 | `search` returns min(top_k, \|vectors\|) matches. Each names a document vector and carries that vector's similarity to the query. |
| Ranking.SortExample | text-search.js:66 | Entries scored 0.9, 0.2 and 0.95 sort as index 2, index 0, index 1. |
| Ranking.RankExample | text-search.js:62-66 | Scores 0.9, 0.2 and 0.95 with top_k = 2 give index 2, then index 0. |

## Left out

- `encode` (text-search.js:17-31) loads an external embedding model and runs it. It is foreign, asynchronous code. Document vectors are a parameter of `Search`.
- The query encoding in `search` (text-search.js:60-61) calls the same model. `Search` takes the query vector directly.
- `Math.sqrt` and the division at text-search.js:49 are floating point. They are the `finish` parameter, so the model says nothing about rounding. In particular, the [-1, 1] bound that `CauchySchwarz` gives holds over exact reals only. In doubles the computed cosine can overshoot: `sim([1,1,1], [1,1,1])` gives 3/(√3·√3) = 1.0000000000000002.
- Zero-magnitude vectors make the division produce NaN, which breaks the sort. Scores here are exact reals, so NaN never occurs in the model.
- Similarity.Sim requires `|p| <= |q|`. With a shorter `q`, the source reads `undefined` and produces NaN.
- Ranking.Rank takes `top_k` as a natural number. A negative `top_k` would make `slice(0, top_k)` drop entries from the end. That case is not modelled.
- Ranking.SortBySimilarity is a pure function on a sequence. The source sorts the freshly built `scores` array in place, but nothing else holds that array, so no aliasing is lost.
- The sort proofs are about the result of a stable sort. Which comparisons the engine makes, and in what order, is not modelled.
- The command line is not modelled: argument handling and `process.exit` (text-search.js:71-77), reading the file (text-search.js:79), timing with `Date.now`, the `console.log` output, and the `Math.round` percentage (text-search.js:84-100).
- JavaScript strings are UTF-16 code units, while a Dafny `char` is a Unicode scalar value. Every code point `trim` removes lies in the Basic Multilingual Plane, so this does not change which characters are trimmed.
