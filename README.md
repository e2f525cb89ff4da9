# Embedding review: verified model

This project models three pieces of a Next.js application in which students and a
language model answer the same prompts, and each conversation is embedded. A
language model grades each conversation Pass or Fail with a short justification,
which the examination page shows. Separately, the embeddings are plotted so that a
reviewer can see student answers that sit close to AI-generated ones.

- `Examination` (`examination.dfy`) models the examination page's
  `extractEvaluationResult`. The page takes the first text between two asterisks of
  an evaluation as its verdict and shows the rest as the full evaluation. Both parts
  are trimmed with JavaScript `trim`. The module also models the call-site default
  for a missing or empty evaluation.
- `FetchEmbeddings` (`fetch_embeddings.dfy`) models the `GET` handler of the
  fetch-embeddings route. It keeps the non-empty array embeddings and fixes the
  reference length from the first one. It projects the survivors to two dimensions:
  PCA for two or more, the raw first two components for exactly one. It then pairs
  conversations with rows, using the handler's literal positional indexing. The
  responses it can produce are "No valid embeddings found", status 500 and success.
- `Review` (`review.dfy`) models the review page:
  - the effective buffer radius `bufferRange || 20`;
  - the buffer circles drawn around AI points;
  - the flagging pass that recolours a student point gold when it lies inside an AI
    point's buffer in screen space, written as a method with loops over an array of
    fills;
  - the slider edit of one AI point's buffer range.
- `Wrappers` holds an `Option` type.

Some source behaviour is modelled as follows:

- **The regular expression.** The lazy regular expression between two asterisks is
  modelled as "the first `*`, then the next `*`". `ReportedMatchIsFirstSegment`
  proves this equal to a leftmost, shortest match predicate.
- **Arrays whose position is looked up.** `includes` compares arrays by identity.
  It is modelled as membership of a position in the filtered `embeddings` list.
- **Failures inside the handler.** A missing coordinate row or a missing first
  message throws inside the handler's `try`. Both become the 500 response.
- **The distance test.** The page's `Math.sqrt(d2) <= r` is modelled as
  `r >= 0 && d2 <= r * r`. `WithinBufferIsDistanceTest` proves the two agree.

## Model

| member | source | states |
|---|---|---|
| Examination.TrimStart | app/examination/page.tsx:18-19 | the leading half of `trim`; specified by Examination.TrimStartIsSuffix and Examination.TrimStartKeepsCount |
| Examination.TrimEnd | app/examination/page.tsx:18-19 | the trailing half of `trim`; specified by Examination.TrimEndIsPrefix and Examination.TrimEndKeepsCount |
| Examination.Trim | app/examination/page.tsx:18-19 | `String.prototype.trim`; specified by Examination.TrimIsCore and Examination.TrimUnique (the white-space-free core, unique) and Examination.TrimKeepsCount |
| Examination.TrimStartIsSuffix | app/examination/page.tsx:18-19 | leading `trim`: the result is a suffix of the input, everything removed is ECMAScript white space or a line terminator, and the result does not start with one |
| Examination.TrimEndIsPrefix | app/examination/page.tsx:18-19 | trailing `trim`: the result is a prefix of the input, everything removed is white space, and the result does not end with white space |
| Examination.TrimIsCore | app/examination/page.tsx:18-19 | `trim` returns the slice between the first and last non-white-space characters (the whole white-space-free core) |
| Examination.CoreUnique | app/examination/page.tsx:18-19 | that core is unique, so any slice with white space only outside it is the trimmed text |
| Examination.TrimUnique | app/examination/page.tsx:18-19 | any slice satisfying the core conditions is exactly `trim` of the string |
| Examination.FindStar | app/examination/page.tsx:16 | the search for the next asterisk returns an asterisk position at or after the start, with no asterisk before it; none means there is none from the start on |
| Examination.ExtractEvaluationResult | app/examination/page.tsx:12-23 | `extractEvaluationResult`; specified by Examination.ResultIsStarredText and Examination.NoMatchKeepsEvaluation against the regex reference, by Examination.ExtractFirstSegment and Examination.ExtractFewerThanTwoStars by the asterisks, and by Examination.ResultHasNoStar and Examination.FullEvaluationKeepsOtherStars |
| Examination.ExtractFirstSegment | app/examination/page.tsx:16-20 | for the first pair of asterisks, the verdict is the trimmed text between them and the full evaluation is the trimmed text with that starred segment removed |
| Examination.ExtractFewerThanTwoStars | app/examination/page.tsx:16-22 | with fewer than two asterisks there is no match: the verdict is empty and the evaluation is returned untrimmed |
| Examination.FirstSegmentExists | app/examination/page.tsx:16 | two or more asterisks always give a first starred segment |
| Examination.OnlyStar | app/examination/page.tsx:16 | a string whose only asterisk is at one position has exactly one asterisk, so the pattern cannot match |
| Examination.FirstSegmentNeedsTwoStars | app/examination/page.tsx:16 | a starred segment needs at least two asterisks |
| Examination.ReportedMatchIsFirstSegment | app/examination/page.tsx:16 | the leftmost, shortest match of the lazy pattern is exactly the segment from the first asterisk to the next one (both directions) |
| Examination.MatchIffTwoStars | app/examination/page.tsx:16-17 | the pattern matches if and only if the evaluation holds at least two asterisks |
| Examination.NoMatchKeepsEvaluation | app/examination/page.tsx:22 | when the pattern does not match, the result is empty and the full evaluation is the input unchanged |
| Examination.ResultIsStarredText | app/examination/page.tsx:16-20 | for the reported match, the result is the trimmed capture group and the full evaluation is the trimmed text with the first match replaced by nothing |
| Examination.TrimStartKeepsCount | app/examination/page.tsx:18-19 | leading `trim` keeps the number of every non-white-space character |
| Examination.TrimEndKeepsCount | app/examination/page.tsx:18-19 | trailing `trim` keeps the number of every non-white-space character |
| Examination.TrimKeepsCount | app/examination/page.tsx:18-19 | `trim` keeps the number of every non-white-space character |
| Examination.NoStarInside | app/examination/page.tsx:16 | the lazy capture group contains no asterisk |
| Examination.TrimKeepsStars | app/examination/page.tsx:18-19 | trimming keeps every asterisk |
| Examination.SegmentResultHasNoStar | app/examination/page.tsx:16-18 | the verdict of a matched evaluation contains no asterisk |
| Examination.ResultHasNoStar | app/examination/page.tsx:12-23 | whatever the evaluation, the verdict never contains an asterisk |
| Examination.CutSegmentStars | app/examination/page.tsx:19 | removing the first starred segment removes exactly two asterisks |
| Examination.SegmentFullKeepsOtherStars | app/examination/page.tsx:19 | the full evaluation of a matched segment keeps every other asterisk |
| Examination.FullEvaluationKeepsOtherStars | app/examination/page.tsx:16-20 | with two or more asterisks the full evaluation has exactly two fewer asterisks than the input (only the first segment is replaced, not all) |
| Examination.MatchedLengthBound | app/examination/page.tsx:16-20 | on a match, verdict and full evaluation together are at least two characters shorter than the input |
| Examination.EmptySegment | app/examination/page.tsx:16-20 | two adjacent asterisks give an empty verdict and drop both asterisks from the full evaluation |
| Examination.ShownVerdict | app/examination/page.tsx:109-111 | a missing or empty evaluation is shown as an empty verdict and empty full evaluation; any other is parsed |
| FetchEmbeddings.ArrayEmbeddings | app/api/fetch-embeddings/route.ts:24-26 | the filtered `embeddings` list is no longer than the input and holds only non-empty arrays; it is empty exactly when no conversation has a non-empty array embedding; its contents are stated by FetchEmbeddings.ArrayEmbeddingsAreOwnVectors |
| FetchEmbeddings.ArrayEmbeddingsFrom | app/api/fetch-embeddings/route.ts:24-26 | from any start position, the k-th filtered embedding is the own embedding of the k-th later conversation that has a non-empty array one |
| FetchEmbeddings.ArrayEmbeddingsAreOwnVectors | app/api/fetch-embeddings/route.ts:24-26 | for every input, `embeddings` has one entry per conversation with a non-empty array embedding, and the k-th is the own embedding of the k-th such conversation, in fetched order |
| FetchEmbeddings.ArrayEmbeddingsStep | app/api/fetch-embeddings/route.ts:24-26 | one step of the filter: a conversation's embedding is kept in front of the rest exactly when it is a non-empty array |
| FetchEmbeddings.Positions | app/api/fetch-embeddings/route.ts:39-41 | an index filter returns, in increasing order, exactly the positions that pass its test, at most one per position in its range |
| FetchEmbeddings.PositionsNone | app/api/fetch-embeddings/route.ts:39-41 | an index filter whose test fails everywhere returns nothing |
| FetchEmbeddings.PositionsAgree | app/api/fetch-embeddings/route.ts:57-58 | two index filters whose tests agree on the common range and fail beyond it return the same positions |
| FetchEmbeddings.IncludedBy | app/api/fetch-embeddings/route.ts:58 | `validEmbeddings.includes(embeddings[index])` by the conversation's unfiltered index, with identity as position in `embeddings`; specified by FetchEmbeddings.KeptIndicesAreRefs |
| FetchEmbeddings.KeptIndices | app/api/fetch-embeddings/route.ts:57-58 | the conversation indices kept by `validEmbeddings.includes(embeddings[index])` are all fetched positions |
| FetchEmbeddings.Pick | app/api/fetch-embeddings/route.ts:39-41 | the valid rows and the kept conversations: one element per position, the k-th being the element at the k-th position |
| FetchEmbeddings.RawCoordinates | app/api/fetch-embeddings/route.ts:72-73 | the raw fallback takes a row's first and second components, 0 when absent |
| FetchEmbeddings.PointOf | app/api/fetch-embeddings/route.ts:59-65 | the point object of one conversation: its id, the row's x and y, its first message and its type; pinned by FetchEmbeddings.BuildPoints, FetchEmbeddings.AlignedPoints and FetchEmbeddings.GetByOwnerUsesOwnEmbedding |
| FetchEmbeddings.BuildPoints | app/api/fetch-embeddings/route.ts:59-65 | points are built if and only if every kept conversation has a row and a first message (otherwise the handler throws), the k-th point from the k-th conversation and row |
| FetchEmbeddings.Respond | app/api/fetch-embeddings/route.ts:81-87 | the response is a success exactly when every point was built, and the 500 "Internal Server Error" response exactly when building threw; a success carries the built points and the `isPCA` flag |
| FetchEmbeddings.EmbeddingLength | app/api/fetch-embeddings/route.ts:38 | the reference length, that of the first filtered embedding, is positive exactly when some conversation has a non-empty array embedding; its use is pinned by FetchEmbeddings.ValidEmbeddingsShareLength and FetchEmbeddings.AlignedKeptConversations |
| FetchEmbeddings.ValidRefsOf | app/api/fetch-embeddings/route.ts:38-41 | the positions of `validEmbeddings` in `embeddings` are exactly those whose embedding has the reference length, increasing; there are no more of them than embeddings, and each is below the number of fetched conversations |
| FetchEmbeddings.ValidEmbeddings | app/api/fetch-embeddings/route.ts:38-41 | `validEmbeddings` has one row per reference position, is no longer than `embeddings`, and holds only non-empty rows |
| FetchEmbeddings.KeptConversations | app/api/fetch-embeddings/route.ts:57-58 | one kept conversation per valid embedding, the k-th being the fetched conversation at the k-th reference position |
| FetchEmbeddings.Project | app/api/fetch-embeddings/route.ts:48-54 | the choice between PCA (two or more rows) and the raw fallback of lines 66-73, which gives one row per input row; pinned by FetchEmbeddings.IsPcaIffTwoValid, FetchEmbeddings.SingleValidEmbeddingIsRaw and FetchEmbeddings.PointsFollowReferences |
| FetchEmbeddings.Get | app/api/fetch-embeddings/route.ts:24-81 | the handler; specified by FetchEmbeddings.NoValidEmbeddingsIff, FetchEmbeddings.IsPcaIffTwoValid, FetchEmbeddings.PointsFollowReferences, FetchEmbeddings.ServerErrorIffNoMessages and, under aligned embeddings, FetchEmbeddings.AlignedPoints |
| FetchEmbeddings.KeptIndicesAreRefs | app/api/fetch-embeddings/route.ts:57-58 | the index filter keeps exactly the reference positions |
| FetchEmbeddings.NoValidEmbeddingsIff | app/api/fetch-embeddings/route.ts:30-35 | the "No valid embeddings found" response, with `success: false` and status 200, is returned exactly when no conversation has a non-empty array embedding |
| FetchEmbeddings.ValidEmbeddingsShareLength | app/api/fetch-embeddings/route.ts:37-41 | the valid list starts with the first embedding and holds exactly the embeddings of its length, all of that length |
| FetchEmbeddings.IsPcaIffTwoValid | app/api/fetch-embeddings/route.ts:45-54 | a successful response says `isPCA` exactly when two or more valid embeddings remain |
| FetchEmbeddings.PointsFollowReferences | app/api/fetch-embeddings/route.ts:57-76 | a successful response has one point per valid embedding; the k-th pairs the k-th coordinate row with the fetched conversation at the k-th reference position |
| FetchEmbeddings.ServerErrorIffNoMessages | app/api/fetch-embeddings/route.ts:57-87 | when PCA, if the handler calls it (two or more valid embeddings), returns one row per input, the 500 "Internal Server Error" response comes exactly when some kept conversation has no messages |
| FetchEmbeddings.SingleValidEmbeddingIsRaw | app/api/fetch-embeddings/route.ts:66-76 | one valid embedding gives one raw point: x its first component, y its second or 0, `isPCA` false |
| FetchEmbeddings.AlignedEmbeddings | app/api/fetch-embeddings/route.ts:24-26 | when every conversation has a non-empty array embedding, `embeddings[k]` is conversation k's own embedding |
| FetchEmbeddings.AlignedKeptConversations | app/api/fetch-embeddings/route.ts:37-58 | in that case the kept conversations are exactly those whose own embedding has the first one's length, in fetched order, each paired with its own embedding |
| FetchEmbeddings.MismatchedLengthNotShown | app/api/fetch-embeddings/route.ts:39-41 | when every conversation has a non-empty array embedding (without that, see FetchEmbeddings.MisalignedWrongLength), a conversation whose embedding length differs from the first gets no point |
| FetchEmbeddings.AlignedPoints | app/api/fetch-embeddings/route.ts:57-76 | in that case the k-th point carries the id, first message and type of the k-th kept conversation and the row computed from its own embedding |
| FetchEmbeddings.MisalignedPairing | app/api/fetch-embeddings/route.ts:57-76 | as written, a conversation without an array embedding shifts the pairing: the next conversation's embedding is drawn under its id |
| FetchEmbeddings.MisalignedWrongLength | app/api/fetch-embeddings/route.ts:38-76 | as written, the same shift draws a conversation whose own embedding has another length at the coordinates computed from the next conversation's embedding, and that next conversation gets no point |
| FetchEmbeddings.OwnersWithLength | app/api/fetch-embeddings/route.ts:57-58 | corrected filter: every kept conversation's own embedding is a non-empty array of the reference length |
| FetchEmbeddings.OwnersWithLengthAreExactlyOwners | app/api/fetch-embeddings/route.ts:57-58 | corrected filter: it keeps every conversation whose own embedding is a non-empty array of the given length and no other, in fetched order |
| FetchEmbeddings.OwnRows | app/api/fetch-embeddings/route.ts:57-76 | corrected handler: the k-th row is the k-th kept conversation's own embedding |
| FetchEmbeddings.GetByOwner | app/api/fetch-embeddings/route.ts:57-76 | the corrected handler; specified by FetchEmbeddings.GetByOwnerUsesOwnEmbedding and FetchEmbeddings.GetByOwnerAgreesWhenAligned |
| FetchEmbeddings.GetByOwnerUsesOwnEmbedding | app/api/fetch-embeddings/route.ts:57-76 | corrected handler: the k-th point is built from the k-th kept conversation and the k-th projected row, that row being the conversation's own embedding, a non-empty array of the reference length |
| FetchEmbeddings.GetByOwnerAgreesWhenAligned | app/api/fetch-embeddings/route.ts:57-76 | when every conversation has a non-empty array embedding, the corrected handler and the handler as written give the same response |
| Review.EffectiveRadius | app/review/page.tsx:131 | `bufferRange || 20`: a missing or zero range gives 20, any other range is used as is, and a non-negative range gives a positive radius |
| Review.SquaredScreenDistance | app/review/page.tsx:155-156 | the squared screen distance is never negative |
| Review.DistanceComparison | app/review/page.tsx:154-158 | for a non-negative distance, `d <= r` holds exactly when `r` is non-negative and `d * d <= r * r` |
| Review.WithinBuffer | app/review/page.tsx:153-158 | one AI candidate of `some`; specified by Review.WithinBufferIsDistanceTest against the page's square-root test |
| Review.WithinBufferIsDistanceTest | app/review/page.tsx:153-158 | the squared test agrees with the page's square-root test against the effective radius for non-student candidates |
| Review.AnyBufferContains | app/review/page.tsx:152-159 | `plotData.some(...)` is true exactly when some point of the plot has the student point inside its buffer |
| Review.BaseFill | app/review/page.tsx:147 | the fill a point is drawn with is never gold, and is green exactly for a student point (red otherwise); the later recolouring is pinned by Review.GoldIffNearAiPoint |
| Review.ColourPoints | app/review/page.tsx:138-166 | the pass returns one fill per point: gold when some student point with the same id lies in an AI buffer, otherwise green or red by type |
| Review.FinalFill | app/review/page.tsx:147-164 | the fill a point ends with; specified by Review.GoldIffNearAiPoint, Review.AiPointStaysRed and Review.NoAiPointsNoFlags, and computed by Review.ColourPoints |
| Review.FlaggedAmongIff | app/review/page.tsx:150-164 | an id is recoloured exactly when some student point with that id lies inside an AI point's buffer |
| Review.GoldIffNearAiPoint | app/review/page.tsx:147-164 | with distinct ids, a point ends gold if and only if it is a student point inside some AI point's buffer; otherwise it keeps its drawn fill |
| Review.AiPointStaysRed | app/review/page.tsx:147-151 | with distinct ids, an AI point always stays red |
| Review.NoAiPointsNoFlags | app/review/page.tsx:150-164 | with no AI point, every point stays green |
| Review.FiveFromDefaultRadiusIsFlagged | app/review/page.tsx:150-164 | a student point 5 pixels from an AI point with no buffer range (radius 20) is flagged gold |
| Review.SquareMonotone | app/review/page.tsx:158 | a larger non-negative radius has a larger square |
| Review.AddingAiPointKeepsFlag | app/review/page.tsx:152-159 | adding a point to the plot never unflags a student point |
| Review.EnlargedPointKeepsContaining | app/review/page.tsx:153-158 | an AI point whose effective radius grows still contains every point it contained |
| Review.EnlargingRadiiKeepsFlag | app/review/page.tsx:152-159 | growing the effective radii never unflags a student point |
| Review.AiPoints | app/review/page.tsx:125 | the AI points are the non-student points, each kept as often as it occurs, and no student point |
| Review.AiPointsOfConcat | app/review/page.tsx:125 | the AI points keep plot order: the filter of a plot in two parts is the filter of the first part followed by that of the second |
| Review.BufferCircles | app/review/page.tsx:123-131 | one circle per AI point, centred on its screen position with its effective radius |
| Review.SetBufferRange | app/review/page.tsx:207-213 | the slider edit sets `bufferRange` to the new value on every point with the edited id and changes nothing else |
| Review.SetBufferRangeIdempotent | app/review/page.tsx:209-213 | repeating the same edit changes nothing more |
| Review.EditedRadius | app/review/page.tsx:198-213 | after an edit to a non-zero value, the edited point's radius (and slider value) is that value |
| Review.WideningEditKeepsFlag | app/review/page.tsx:209-213 | an edit that does not shrink the edited points' radii never unflags a student point |

## Left out

- The MongoDB query of the fetch-embeddings route is not modelled. The fetched
  conversation array is the input, and `_id.toString()` is taken as already done.
- The PCA library is the function parameter `pca`. Its numerics are not modelled:
  the theorems hold for any projection, some only for one that returns one row per
  input row.
- Embedding components and coordinates are unbounded reals. Floating point, `NaN`,
  and non-numeric array entries are not modelled. `validEmbeddings[index][0] || 0`
  takes 0 only when the component is absent: a stored `0` is a `0` either way.
- The d3 scales are the parameters `sx` and `sy`. Rendering, tooltips, click
  selection, transitions and the React state machinery are not modelled.
- The pass colours the d3 point selection and recolours by id (`d.id ===
  studentPoint.id`). Review.ColourPoints models the selection as a fresh array of
  fills, one per plot point. It does not model aliasing with the DOM.
- Examination.IsWhitespace lists the Unicode space separators explicitly. It is
  fixed to that list and does not follow future Unicode versions.
- Strings are Dafny strings, sequences of Unicode scalar values. JavaScript
  strings are sequences of UTF-16 code units. A lone surrogate cannot be
  represented, and the lengths in Examination.MatchedLengthBound count code points,
  not code units. The behaviour of `trim` and of the asterisk search is unchanged,
  because `*` and every white-space character lie in the Basic Multilingual Plane.
- Review.GoldIffNearAiPoint and Review.AiPointStaysRed assume distinct ids. With
  duplicate ids, a point shares the fill of any flagged student point with its id,
  as Review.FlaggedAmongIff states.
- Review.SetBufferRange takes the parsed slider value as an integer. The slider
  bounds (10 to 50) are not imposed, and `parseInt` of the input text is not
  modelled.
- The examination page's fetching and evaluation requests are not part of this
  model. Neither are the chat, evaluate, process, save and fetch-conversations
  routes, or the Next.js configuration.

## Findings

| source | as written | input that shows it | evidently intended | confidence | as-written member | corrected member |
|---|---|---|---|---|---|---|
| app/api/fetch-embeddings/route.ts:57-76 | conversations are filtered by `embeddings[index]`, where `index` is a position in the fetched array but `embeddings` was already filtered, so positions shift after any conversation whose embedding is not an array (the query at lines 14-16 already excludes missing and empty ones) | conversation "a" with a non-array embedding, then "b" with embedding [1, 2]: the single point carries "a"'s id and content at "b"'s coordinates. With "a", then "b" [1, 2], "c" [1, 2, 3] and "d" [4, 5], the reference length is 2, yet "c" is drawn at the coordinates computed from "d"'s embedding and "d" gets no point | each point is built from a conversation and its own embedding | medium, not executed | FetchEmbeddings.MisalignedPairing, FetchEmbeddings.MisalignedWrongLength | FetchEmbeddings.GetByOwnerUsesOwnEmbedding |
