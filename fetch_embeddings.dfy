/**
 * The `GET` handler of the fetch-embeddings route: from the fetched
 * conversations it keeps the non-empty array embeddings, fixes the reference
 * length from the first one, drops every other length, projects the survivors
 * to two dimensions (principal components for two or more, the raw first two
 * components for one) and pairs each retained conversation with a row.
 *
 * The database query is not modelled: the fetched array is the input. The PCA
 * library is the function parameter `pca`.
 */
module FetchEmbeddings {
  import opened Wrappers

  datatype Message = Message(role: string, content: string)

  /** The stored `embeddings` field as the handler sees it. */
  datatype EmbeddingField = Missing | NotAnArray | Vector(components: seq<real>)

  /** A fetched conversation document; `id` is its `_id` already converted with `toString`. */
  datatype Conversation = Conversation(
    id: string,
    messages: seq<Message>,
    embeddings: EmbeddingField,
    isStudentResponse: bool)

  /** One point of the plot data sent to the review page. */
  datatype PlotPoint = PlotPoint(id: string, x: real, y: real, content: string, isStudentResponse: bool)

  /** A row of the two-component projection. */
  type Coordinates = (real, real)

  /** The JSON response of the handler. */
  datatype Response =
    | Plot(data: seq<PlotPoint>, isPCA: bool)
    | NoValidEmbeddings
    | InternalServerError
  {
    /** The HTTP status: 500 from the catch block, the default 200 otherwise. */
    function Status(): nat
    {
      if InternalServerError? then 500 else 200
    }

    /** The `success` field. */
    predicate Success()
    {
      Plot?
    }

    /** The `error` field, absent on success. */
    function Error(): Option<string>
    {
      match this
      case Plot(_, _) => None
      case NoValidEmbeddings => Some("No valid embeddings found")
      case InternalServerError => Some("Internal Server Error")
    }
  }

  /** `Array.isArray(emb) && emb.length > 0`. */
  predicate HasVector(c: Conversation)
  {
    c.embeddings.Vector? && |c.embeddings.components| > 0
  }

  /** Lines 24-26: the embeddings of the fetched conversations that are non-empty arrays, in order. */
  function ArrayEmbeddings(convs: seq<Conversation>): (embs: seq<seq<real>>)
    ensures |embs| <= |convs|
    ensures forall k :: 0 <= k < |embs| ==> |embs[k]| > 0
    ensures embs == [] <==> forall c :: c in convs ==> !HasVector(c)
  {
    if convs == [] then []
    else
      var rest := ArrayEmbeddings(convs[1..]);
      assert forall c :: c in convs[1..] ==> c in convs;
      if HasVector(convs[0]) then [convs[0].embeddings.components] + rest else rest
  }

  /** The test of line 26, by the index of a fetched conversation. */
  function HasVectorAt(convs: seq<Conversation>): nat -> bool
  {
    (i: nat) => i < |convs| && HasVector(convs[i])
  }

  /**
   * Lines 24-26 for every input: `embeddings[k]` is the own embedding of the
   * k-th fetched conversation (from `from` on) whose embedding is a non-empty array.
   */
  lemma {:induction false} ArrayEmbeddingsFrom(convs: seq<Conversation>, from: nat)
    requires from <= |convs|
    ensures var owners := Positions(|convs|, HasVectorAt(convs), from);
      && |ArrayEmbeddings(convs[from..])| == |owners|
      && forall k :: 0 <= k < |owners| ==>
           owners[k] < |convs| && ArrayEmbeddings(convs[from..])[k] == EmbeddingOf(convs[owners[k]])
    decreases |convs| - from
  {
    var owners := Positions(|convs|, HasVectorAt(convs), from);
    assert forall k :: 0 <= k < |owners| ==> owners[k] in owners;
    if from < |convs| {
      ArrayEmbeddingsFrom(convs, from + 1);
      ArrayEmbeddingsStep(convs, from);
      var rest := Positions(|convs|, HasVectorAt(convs), from + 1);
      var embs, restEmbs := ArrayEmbeddings(convs[from..]), ArrayEmbeddings(convs[from + 1..]);
      if HasVector(convs[from]) {
        assert owners == [from] + rest;
        assert embs == [EmbeddingOf(convs[from])] + restEmbs;
        forall k | 0 < k < |owners| ensures embs[k] == EmbeddingOf(convs[owners[k]]) {
          assert embs[k] == restEmbs[k - 1] && owners[k] == rest[k - 1];
        }
      } else {
        assert owners == rest && embs == restEmbs;
      }
    }
  }

  /** One step of the filter of lines 24-26, from position `from`. */
  lemma ArrayEmbeddingsStep(convs: seq<Conversation>, from: nat)
    requires from < |convs|
    ensures ArrayEmbeddings(convs[from..]) ==
      (if HasVector(convs[from]) then [EmbeddingOf(convs[from])] else []) + ArrayEmbeddings(convs[from + 1..])
  {
    assert convs[from..][1..] == convs[from + 1..];
  }

  /** `embeddings` lists, in fetched order, the own embeddings of the conversations that have a non-empty array one. */
  lemma ArrayEmbeddingsAreOwnVectors(convs: seq<Conversation>)
    ensures var owners := Positions(|convs|, HasVectorAt(convs), 0);
      && |ArrayEmbeddings(convs)| == |owners|
      && forall k :: 0 <= k < |owners| ==> owners[k] < |convs| && ArrayEmbeddings(convs)[k] == EmbeddingOf(convs[owners[k]])
  {
    ArrayEmbeddingsFrom(convs, 0);
    assert convs[0..] == convs;
    var owners := Positions(|convs|, HasVectorAt(convs), 0);
    assert forall k :: 0 <= k < |owners| ==> owners[k] in owners;
  }

  predicate StrictlyIncreasing(s: seq<nat>)
  {
    forall a, b :: 0 <= a < b < |s| ==> s[a] < s[b]
  }

  /** The positions `p` with `from <= p < n` that `keep` accepts, in increasing order: an index filter. */
  function Positions(n: nat, keep: nat -> bool, from: nat): (r: seq<nat>)
    requires from <= n
    ensures forall p :: p in r <==> from <= p < n && keep(p)
    ensures StrictlyIncreasing(r)
    ensures |r| <= n - from
    decreases n - from
  {
    if from == n then []
    else
      var rest := Positions(n, keep, from + 1);
      assert forall k :: 0 <= k < |rest| ==> rest[k] in rest;
      if keep(from) then [from] + rest else rest
  }

  /** An index filter that accepts nothing in its range returns nothing. */
  lemma {:induction false} PositionsNone(n: nat, keep: nat -> bool, from: nat)
    requires from <= n
    requires forall p :: from <= p < n ==> !keep(p)
    ensures Positions(n, keep, from) == []
    decreases n - from
  {
    if from < n {
      PositionsNone(n, keep, from + 1);
    }
  }

  /**
   * Two index filters give the same positions when they agree below `m` and
   * the longer one accepts nothing from `m` on.
   */
  lemma {:induction false} PositionsAgree(n: nat, keep: nat -> bool, m: nat, keep': nat -> bool, from: nat)
    requires from <= m <= n
    requires forall p :: from <= p < m ==> keep(p) == keep'(p)
    requires forall p :: m <= p < n ==> !keep(p)
    ensures Positions(n, keep, from) == Positions(m, keep', from)
    decreases m - from
  {
    if from == m {
      PositionsNone(n, keep, from);
    } else {
      PositionsAgree(n, keep, m, keep', from + 1);
    }
  }

  /** The test of line 40, by position. */
  function HasLength(embeddings: seq<seq<real>>, embeddingLength: nat): nat -> bool
  {
    (p: nat) => p < |embeddings| && |embeddings[p]| == embeddingLength
  }

  /**
   * Lines 58 and 69: `validEmbeddings.includes(embeddings[index])` for the
   * index of a conversation in the UNFILTERED fetched array. JavaScript
   * arrays are compared by identity, and the identity of an embedding here is
   * its position in `embeddings`; past the end of `embeddings` the element is
   * `undefined`, which is never included.
   */
  function IncludedBy(refs: seq<nat>, embeddings: seq<seq<real>>): nat -> bool
  {
    (index: nat) => index < |embeddings| && index in refs
  }

  /** The indices of the fetched conversations that the filter of lines 57-58 keeps. */
  function KeptIndices(convs: seq<Conversation>, embeddings: seq<seq<real>>, refs: seq<nat>): (indices: seq<nat>)
    ensures forall k :: 0 <= k < |indices| ==> indices[k] < |convs|
  {
    var indices := Positions(|convs|, IncludedBy(refs, embeddings), 0);
    assert forall k :: 0 <= k < |indices| ==> indices[k] in indices;
    indices
  }

  /**
   * The elements at the given positions, in the order of the positions: the
   * valid rows (lines 39-41) and the conversations the filter of lines 57-58 keeps.
   */
  function Pick<T>(xs: seq<T>, indices: seq<nat>): (picked: seq<T>)
    requires forall k :: 0 <= k < |indices| ==> indices[k] < |xs|
    ensures |picked| == |indices|
    ensures forall k :: 0 <= k < |indices| ==> picked[k] == xs[indices[k]]
  {
    seq(|indices|, k requires 0 <= k < |indices| => xs[indices[k]])
  }

  /** `x || 0` on a number that may be `undefined`: the component if it exists and is not 0, else 0. */
  function ComponentOr0(v: seq<real>, i: nat): real
  {
    if i < |v| && v[i] != 0.0 then v[i] else 0.0
  }

  /** Lines 72-73: the raw fallback coordinates of each retained row. */
  function RawCoordinates(rows: seq<seq<real>>): (coords: seq<Coordinates>)
    ensures |coords| == |rows|
    ensures forall k :: 0 <= k < |rows| ==>
      coords[k].0 == (if |rows[k]| > 0 then rows[k][0] else 0.0) &&
      coords[k].1 == (if |rows[k]| > 1 then rows[k][1] else 0.0)
  {
    seq(|rows|, k requires 0 <= k < |rows| => (ComponentOr0(rows[k], 0), ComponentOr0(rows[k], 1)))
  }

  /** The point for one conversation: its id, the row's two coordinates, its first message and its type. */
  function PointOf(c: Conversation, xy: Coordinates): PlotPoint
    requires c.messages != []
  {
    PlotPoint(c.id, xy.0, xy.1, c.messages[0].content, c.isStudentResponse)
  }

  /**
   * The `map` of lines 59-65 and 70-76: the k-th kept conversation with the
   * k-th coordinate row. A missing row (`undefined[0]`) or an empty `messages`
   * list (`undefined.content`) throws, which is `None` here.
   */
  function BuildPoints(kept: seq<Conversation>, coords: seq<Coordinates>): (r: Option<seq<PlotPoint>>)
    ensures r.Some? <==> |kept| <= |coords| && forall k :: 0 <= k < |kept| ==> kept[k].messages != []
    ensures r.Some? ==> |r.value| == |kept|
    ensures r.Some? ==> forall k :: 0 <= k < |kept| ==> r.value[k] == PointOf(kept[k], coords[k])
  {
    if kept == [] then Some([])
    else if coords == [] || kept[0].messages == [] then None
    else
      assert forall k :: 0 < k < |kept| ==> kept[k] == kept[1..][k - 1];
      match BuildPoints(kept[1..], coords[1..])
      case None => None
      case Some(rest) => Some([PointOf(kept[0], coords[0])] + rest)
  }

  /** `Plot(points, isPCA)` when every point could be built, the 500 response when one threw. */
  function Respond(points: Option<seq<PlotPoint>>, isPCA: bool): (r: Response)
    ensures r.Success() <==> points.Some?
    ensures r.Status() == 500 <==> points.None?
    ensures r.Status() == 500 ==> r.Error() == Some("Internal Server Error")
    ensures points.Some? ==> r.data == points.value && r.isPCA == isPCA
  {
    match points
    case Some(data) => Plot(data, isPCA)
    case None => InternalServerError
  }

  /** The reference length: that of the first non-empty array embedding (line 38). */
  function EmbeddingLength(convs: seq<Conversation>): (len: nat)
    ensures len > 0 <==> ArrayEmbeddings(convs) != []
  {
    var embeddings := ArrayEmbeddings(convs);
    if embeddings == [] then 0 else |embeddings[0]|
  }

  /**
   * Lines 39-41: `validEmbeddings`, held as references: the positions, in
   * `embeddings`, of the embeddings that have the reference length, in order.
   */
  function ValidRefsOf(convs: seq<Conversation>): (refs: seq<nat>)
    ensures forall p: nat :: p in refs <==>
      p < |ArrayEmbeddings(convs)| && |ArrayEmbeddings(convs)[p]| == EmbeddingLength(convs)
    ensures StrictlyIncreasing(refs)
    ensures |refs| <= |ArrayEmbeddings(convs)|
    ensures forall k :: 0 <= k < |refs| ==> refs[k] < |ArrayEmbeddings(convs)| <= |convs|
  {
    var embeddings := ArrayEmbeddings(convs);
    var refs := Positions(|embeddings|, HasLength(embeddings, EmbeddingLength(convs)), 0);
    assert forall k :: 0 <= k < |refs| ==> refs[k] in refs;
    refs
  }

  /** `validEmbeddings`: the embeddings of the reference length, in stored order. */
  function ValidEmbeddings(convs: seq<Conversation>): (rows: seq<seq<real>>)
    ensures |rows| == |ValidRefsOf(convs)| <= |ArrayEmbeddings(convs)|
    ensures forall k :: 0 <= k < |rows| ==> |rows[k]| > 0
  {
    Pick(ArrayEmbeddings(convs), ValidRefsOf(convs))
  }

  /**
   * The conversations that receive a point, in fetched order: the fetched
   * conversations at the reference positions, one per valid embedding.
   */
  function KeptConversations(convs: seq<Conversation>): (kept: seq<Conversation>)
    ensures |kept| == |ValidRefsOf(convs)|
    ensures forall k :: 0 <= k < |kept| ==> kept[k] == convs[ValidRefsOf(convs)[k]]
  {
    var embeddings := ArrayEmbeddings(convs);
    var indices := KeptIndices(convs, embeddings, ValidRefsOf(convs));
    KeptIndicesAreRefs(convs);
    Pick(convs, indices)
  }

  /** The `GET` handler, from the fetched conversations to the response. */
  function Get(convs: seq<Conversation>, pca: seq<seq<real>> -> seq<Coordinates>): Response
  {
    var embeddings := ArrayEmbeddings(convs);
    if |embeddings| == 0 then NoValidEmbeddings
    else
      Respond(BuildPoints(KeptConversations(convs), CoordinatesOf(convs, pca)), |ValidEmbeddings(convs)| >= 2)
  }

  /** Lines 48-54 and 66-73: principal components for two or more rows, the raw first two components otherwise. */
  function Project(rows: seq<seq<real>>, pca: seq<seq<real>> -> seq<Coordinates>): (coords: seq<Coordinates>)
    ensures |rows| < 2 ==> |coords| == |rows|
  {
    if |rows| >= 2 then pca(rows) else RawCoordinates(rows)
  }

  /** The coordinate rows the handler pairs with the kept conversations. */
  function CoordinatesOf(convs: seq<Conversation>, pca: seq<seq<real>> -> seq<Coordinates>): seq<Coordinates>
  {
    Project(ValidEmbeddings(convs), pca)
  }

  /** PCA keeps one two-component row per input row. */
  ghost predicate OneRowPerInput(pca: seq<seq<real>> -> seq<Coordinates>, rows: seq<seq<real>>)
  {
    |pca(rows)| == |rows|
  }

  /**
   * The index filter of lines 57-58 keeps exactly the indices that are
   * references in `validEmbeddings`: every reference is below the number of
   * fetched conversations, so there is one kept conversation per valid embedding.
   */
  lemma KeptIndicesAreRefs(convs: seq<Conversation>)
    ensures KeptIndices(convs, ArrayEmbeddings(convs), ValidRefsOf(convs)) == ValidRefsOf(convs)
  {
    var embeddings := ArrayEmbeddings(convs);
    var refs := ValidRefsOf(convs);
    var L := EmbeddingLength(convs);
    forall p: nat | p < |embeddings| ensures IncludedBy(refs, embeddings)(p) == HasLength(embeddings, L)(p) {
    }
    PositionsAgree(|convs|, IncludedBy(refs, embeddings), |embeddings|, HasLength(embeddings, L), 0);
  }

  /** No non-empty array embedding at all gives the "No valid embeddings found" response, and only that does. */
  lemma NoValidEmbeddingsIff(convs: seq<Conversation>, pca: seq<seq<real>> -> seq<Coordinates>)
    ensures Get(convs, pca) == NoValidEmbeddings <==> forall c :: c in convs ==> !HasVector(c)
    ensures Get(convs, pca) == NoValidEmbeddings ==>
      !Get(convs, pca).Success() && Get(convs, pca).Error() == Some("No valid embeddings found") && Get(convs, pca).Status() == 200
  {
  }

  /**
   * With some array embedding, the valid list is non-empty, starts with the
   * first one, keeps exactly the embeddings of its length, in stored order, and
   * all its members have that length.
   */
  lemma ValidEmbeddingsShareLength(convs: seq<Conversation>)
    requires ArrayEmbeddings(convs) != []
    ensures var valid := ValidEmbeddings(convs);
      && valid != [] && valid[0] == ArrayEmbeddings(convs)[0]
      && (forall k :: 0 <= k < |valid| ==> |valid[k]| == |ArrayEmbeddings(convs)[0]|)
      && (forall v :: v in valid <==> v in ArrayEmbeddings(convs) && |v| == |ArrayEmbeddings(convs)[0]|)
  {
    var embeddings := ArrayEmbeddings(convs);
    var refs := ValidRefsOf(convs);
    var valid := ValidEmbeddings(convs);
    assert 0 in refs;
    assert refs[0] == 0 by {
      var i :| 0 <= i < |refs| && refs[i] == 0;
      assert refs[0] <= refs[i];
    }
    forall v ensures v in valid <==> v in embeddings && |v| == |embeddings[0]| {
      if v in valid {
        var k :| 0 <= k < |valid| && valid[k] == v;
        assert refs[k] in refs;
      }
      if v in embeddings && |v| == |embeddings[0]| {
        var p :| 0 <= p < |embeddings| && embeddings[p] == v;
        assert p in refs;
        var k :| 0 <= k < |refs| && refs[k] == p;
        assert valid[k] == v;
      }
    }
    forall k | 0 <= k < |valid| ensures |valid[k]| == |embeddings[0]| {
      assert refs[k] in refs;
    }
  }

  /** A successful response carries `isPCA` exactly when two or more valid embeddings remain. */
  lemma IsPcaIffTwoValid(convs: seq<Conversation>, pca: seq<seq<real>> -> seq<Coordinates>)
    ensures Get(convs, pca).Plot? ==> (Get(convs, pca).isPCA <==> |ValidEmbeddings(convs)| >= 2)
  {
  }

  /**
   * A successful response has one point per valid embedding; the k-th point
   * takes the k-th coordinate row and the fetched conversation at the k-th
   * reference position (the literal indexing of lines 58 and 69).
   */
  lemma PointsFollowReferences(convs: seq<Conversation>, pca: seq<seq<real>> -> seq<Coordinates>)
    ensures Get(convs, pca).Plot? ==>
      var data := Get(convs, pca).data;
      var refs := ValidRefsOf(convs);
      && |data| == |ValidEmbeddings(convs)|
      && forall k :: 0 <= k < |data| ==>
           refs[k] < |convs| && convs[refs[k]].messages != [] &&
           data[k] == PointOf(convs[refs[k]], CoordinatesOf(convs, pca)[k])
  {
  }

  /**
   * When PCA, wherever the handler calls it, returns one row per input, the request fails with status 500
   * exactly when some kept conversation has no messages; otherwise it succeeds.
   */
  lemma ServerErrorIffNoMessages(convs: seq<Conversation>, pca: seq<seq<real>> -> seq<Coordinates>)
    requires ArrayEmbeddings(convs) != []
    requires |ValidEmbeddings(convs)| >= 2 ==> OneRowPerInput(pca, ValidEmbeddings(convs))
    ensures Get(convs, pca) == InternalServerError <==>
      exists k :: 0 <= k < |KeptConversations(convs)| && KeptConversations(convs)[k].messages == []
    ensures Get(convs, pca) == InternalServerError ==> Get(convs, pca).Status() == 500 && !Get(convs, pca).Success()
  {
  }

  /**
   * With exactly one valid embedding the raw fallback is taken: its point has
   * the first component as x, the second (or 0 when there is none) as y.
   */
  lemma SingleValidEmbeddingIsRaw(convs: seq<Conversation>, pca: seq<seq<real>> -> seq<Coordinates>)
    requires |ValidEmbeddings(convs)| == 1
    requires KeptConversations(convs)[0].messages != []
    ensures var v := ValidEmbeddings(convs)[0]; var c := KeptConversations(convs)[0];
      Get(convs, pca) == Plot([PlotPoint(c.id, v[0], if |v| > 1 then v[1] else 0.0, c.messages[0].content, c.isStudentResponse)], false)
  {
    ValidEmbeddingsShareLength(convs);
  }

  /** Every fetched conversation has a non-empty array embedding: then positions in `embeddings` and in the fetched array coincide. */
  predicate AllHaveVectors(convs: seq<Conversation>)
  {
    forall k :: 0 <= k < |convs| ==> HasVector(convs[k])
  }

  /** A conversation's own embedding, empty when it is not an array. */
  function EmbeddingOf(c: Conversation): seq<real>
  {
    if c.embeddings.Vector? then c.embeddings.components else []
  }

  /** When every conversation has a non-empty array embedding, `embeddings` lists them position by position. */
  lemma {:induction false} AlignedEmbeddings(convs: seq<Conversation>)
    requires AllHaveVectors(convs)
    ensures |ArrayEmbeddings(convs)| == |convs|
    ensures forall k :: 0 <= k < |convs| ==> ArrayEmbeddings(convs)[k] == EmbeddingOf(convs[k])
  {
    if convs != [] {
      AlignedEmbeddings(convs[1..]);
      assert forall k :: 1 <= k < |convs| ==> convs[k] == convs[1..][k - 1];
    }
  }

  /**
   * When every conversation has a non-empty array embedding, the reference
   * length is the first conversation's, the kept conversations are exactly
   * those whose own embedding has that length, in fetched order, and the k-th
   * valid row is the k-th kept conversation's own embedding.
   */
  lemma AlignedKeptConversations(convs: seq<Conversation>)
    requires convs != [] && AllHaveVectors(convs)
    ensures EmbeddingLength(convs) == |EmbeddingOf(convs[0])|
    ensures forall p: nat :: p in ValidRefsOf(convs) <==>
      p < |convs| && |EmbeddingOf(convs[p])| == EmbeddingLength(convs)
    ensures StrictlyIncreasing(ValidRefsOf(convs))
    ensures forall k :: 0 <= k < |KeptConversations(convs)| ==>
      ValidEmbeddings(convs)[k] == EmbeddingOf(KeptConversations(convs)[k]) &&
      |EmbeddingOf(KeptConversations(convs)[k])| == EmbeddingLength(convs)
  {
    AlignedEmbeddings(convs);
    var refs := ValidRefsOf(convs);
    forall k | 0 <= k < |refs| ensures |EmbeddingOf(convs[refs[k]])| == EmbeddingLength(convs) {
      assert refs[k] in refs;
    }
  }

  /** When every conversation has a non-empty array embedding, a conversation of another length gets no point. */
  lemma MismatchedLengthNotShown(convs: seq<Conversation>, pca: seq<seq<real>> -> seq<Coordinates>, i: nat)
    requires convs != [] && AllHaveVectors(convs)
    requires i < |convs| && |EmbeddingOf(convs[i])| != EmbeddingLength(convs)
    ensures forall k :: 0 <= k < |ValidRefsOf(convs)| ==> ValidRefsOf(convs)[k] != i
    ensures Get(convs, pca).Plot? ==>
      forall k :: 0 <= k < |Get(convs, pca).data| ==> Get(convs, pca).data[k].id == convs[ValidRefsOf(convs)[k]].id
  {
    AlignedKeptConversations(convs);
    var refs := ValidRefsOf(convs);
    forall k | 0 <= k < |refs| ensures refs[k] != i {
      assert refs[k] in refs;
    }
    PointsFollowReferences(convs, pca);
  }

  /**
   * When every conversation has a non-empty array embedding, a successful
   * response has one point per valid embedding, in stored order: the k-th point
   * copies the id, first message and type of the k-th kept conversation and
   * takes the k-th reduced or raw row, computed from that conversation's own embedding.
   */
  lemma AlignedPoints(convs: seq<Conversation>, pca: seq<seq<real>> -> seq<Coordinates>)
    requires convs != [] && AllHaveVectors(convs)
    requires Get(convs, pca).Plot?
    ensures var data := Get(convs, pca).data; var kept := KeptConversations(convs);
      && |data| == |kept| == |ValidEmbeddings(convs)|
      && forall k :: 0 <= k < |data| ==>
           && EmbeddingOf(kept[k]) == ValidEmbeddings(convs)[k]
           && kept[k].messages != []
           && data[k] == PlotPoint(kept[k].id, CoordinatesOf(convs, pca)[k].0, CoordinatesOf(convs, pca)[k].1,
                                   kept[k].messages[0].content, kept[k].isStudentResponse)
  {
    AlignedKeptConversations(convs);
    PointsFollowReferences(convs, pca);
  }

  /**
   * The handler as written pairs conversations with rows by their position in
   * the filtered `embeddings` list. A conversation whose stored embedding is
   * not an array shifts that list: here the second conversation's embedding
   * is drawn under the first conversation's id and content, and the second
   * conversation gets no point.
   */
  lemma MisalignedPairing()
    ensures var convs := [
        Conversation("a", [Message("user", "A")], NotAnArray, true),
        Conversation("b", [Message("user", "B")], Vector([1.0, 2.0]), false)];
      Get(convs, (rows: seq<seq<real>>) => []) == Plot([PlotPoint("a", 1.0, 2.0, "A", true)], false)
  {
    var convs := [
        Conversation("a", [Message("user", "A")], NotAnArray, true),
        Conversation("b", [Message("user", "B")], Vector([1.0, 2.0]), false)];
    assert ArrayEmbeddings(convs) == [[1.0, 2.0]] by {
      assert ArrayEmbeddings(convs[1..]) == [[1.0, 2.0]] + ArrayEmbeddings(convs[1..][1..]);
    }
    var refs := ValidRefsOf(convs);
    assert refs == [0] by {
      assert 0 in refs;
    }
    assert ValidEmbeddings(convs) == [[1.0, 2.0]];
    assert KeptConversations(convs)[0] == convs[0];
    SingleValidEmbeddingIsRaw(convs, (rows: seq<seq<real>>) => []);
  }

  /**
   * An input on which the shift draws a conversation of the wrong length: the
   * first embedding is not an array, the third has three components against a
   * reference length of two.
   */
  function ShiftedInput(): seq<Conversation>
  {
    [ Conversation("a", [Message("user", "A")], NotAnArray, true),
      Conversation("b", [Message("user", "B")], Vector([1.0, 2.0]), false),
      Conversation("c", [Message("user", "C")], Vector([1.0, 2.0, 3.0]), true),
      Conversation("d", [Message("user", "D")], Vector([4.0, 5.0]), false) ]
  }

  /** On that input, `embeddings` holds the three array embeddings, in order. */
  lemma ShiftedInputEmbeddings()
    ensures ArrayEmbeddings(ShiftedInput()) == [[1.0, 2.0], [1.0, 2.0, 3.0], [4.0, 5.0]]
  {
    var convs := ShiftedInput();
    assert convs[4..] == [];
    ArrayEmbeddingsStep(convs, 3);
    ArrayEmbeddingsStep(convs, 2);
    ArrayEmbeddingsStep(convs, 1);
    ArrayEmbeddingsStep(convs, 0);
    assert convs[0..] == convs;
  }

  /** On that input, the reference positions are the first and third. */
  lemma ShiftedInputRefs()
    ensures ValidRefsOf(ShiftedInput()) == [0, 2]
  {
    var embeddings := [[1.0, 2.0], [1.0, 2.0, 3.0], [4.0, 5.0]];
    ShiftedInputEmbeddings();
    var keep := HasLength(embeddings, 2);
    assert Positions(3, keep, 2) == [2];
    assert Positions(3, keep, 1) == [2];
    assert Positions(3, keep, 0) == [0, 2];
  }

  /** On that input, `validEmbeddings` holds the second and fourth embeddings, and the first and third conversations are kept. */
  lemma ShiftedInputKeeps()
    ensures ValidEmbeddings(ShiftedInput()) == [[1.0, 2.0], [4.0, 5.0]]
    ensures KeptConversations(ShiftedInput()) == [ShiftedInput()[0], ShiftedInput()[2]]
  {
    var convs := ShiftedInput();
    ShiftedInputEmbeddings();
    ShiftedInputRefs();
    var refs := ValidRefsOf(convs);
    assert Pick(ArrayEmbeddings(convs), refs) == [[1.0, 2.0], [4.0, 5.0]];
    var kept := KeptConversations(convs);
    assert |kept| == 2 && kept[0] == convs[refs[0]] && kept[1] == convs[refs[1]];
  }

  /**
   * The same shift can draw a conversation whose own embedding has the wrong
   * length: on ShiftedInput, the third conversation is drawn at the
   * coordinates PCA computes from the fourth conversation's embedding, and
   * the fourth gets no point.
   */
  lemma MisalignedWrongLength(pca: seq<seq<real>> -> seq<Coordinates>)
    requires |pca([[1.0, 2.0], [4.0, 5.0]])| >= 2
    ensures var convs := ShiftedInput(); var xy := pca([[1.0, 2.0], [4.0, 5.0]]);
      Get(convs, pca) == Plot([PointOf(convs[0], xy[0]), PointOf(convs[2], xy[1])], true)
  {
    var convs := ShiftedInput();
    ShiftedInputKeeps();
    var xy := pca([[1.0, 2.0], [4.0, 5.0]]);
    var points := BuildPoints([convs[0], convs[2]], xy);
    assert points == Some([PointOf(convs[0], xy[0]), PointOf(convs[2], xy[1])]) by {
      assert convs[0].messages != [] && convs[2].messages != [];
      var kept := [convs[0], convs[2]];
      assert kept[0].messages != [] && kept[1].messages != [];
      assert points.Some? && |points.value| == 2;
      assert points.value[0] == PointOf(kept[0], xy[0]) && points.value[1] == PointOf(kept[1], xy[1]);
      assert points.value == [PointOf(kept[0], xy[0]), PointOf(kept[1], xy[1])];
    }
  }

  /** The test of the corrected filter: the conversation's OWN embedding is a non-empty array of the reference length. */
  function OwnEmbeddingHasLength(convs: seq<Conversation>, embeddingLength: nat): nat -> bool
  {
    (i: nat) => i < |convs| && HasVector(convs[i]) && |EmbeddingOf(convs[i])| == embeddingLength
  }

  /** The conversations whose own embedding is valid, in fetched order. */
  function OwnersWithLength(convs: seq<Conversation>, embeddingLength: nat): (kept: seq<Conversation>)
    ensures forall k :: 0 <= k < |kept| ==> HasVector(kept[k]) && |EmbeddingOf(kept[k])| == embeddingLength
  {
    var indices := Positions(|convs|, OwnEmbeddingHasLength(convs, embeddingLength), 0);
    assert forall k :: 0 <= k < |indices| ==> indices[k] in indices;
    Pick(convs, indices)
  }

  /** The handler with each retained conversation paired with its own embedding. */
  function GetByOwner(convs: seq<Conversation>, pca: seq<seq<real>> -> seq<Coordinates>): Response
  {
    var embeddings := ArrayEmbeddings(convs);
    if |embeddings| == 0 then NoValidEmbeddings
    else
      var kept := OwnersWithLength(convs, |embeddings[0]|);
      var rows := OwnRows(kept);
      Respond(BuildPoints(kept, Project(rows, pca)), |rows| >= 2)
  }

  /** Each conversation's own embedding, in order. */
  function OwnRows(kept: seq<Conversation>): (rows: seq<seq<real>>)
    ensures |rows| == |kept|
    ensures forall k :: 0 <= k < |kept| ==> rows[k] == EmbeddingOf(kept[k])
  {
    seq(|kept|, k requires 0 <= k < |kept| => EmbeddingOf(kept[k]))
  }

  /**
   * Whatever the fetched conversations hold, every point of the corrected
   * handler carries the id, content and type of a conversation whose own
   * embedding is a non-empty array of the reference length.
   */
  lemma GetByOwnerUsesOwnEmbedding(convs: seq<Conversation>, pca: seq<seq<real>> -> seq<Coordinates>)
    ensures GetByOwner(convs, pca).Plot? ==>
      var data := GetByOwner(convs, pca).data;
      var kept := OwnersWithLength(convs, EmbeddingLength(convs));
      && |data| == |kept|
      && forall k :: 0 <= k < |data| ==>
           && HasVector(kept[k]) && |EmbeddingOf(kept[k])| == EmbeddingLength(convs)
           && data[k].id == kept[k].id && data[k].isStudentResponse == kept[k].isStudentResponse
           && data[k].content == kept[k].messages[0].content
           && data[k] == PointOf(kept[k], Project(OwnRows(kept), pca)[k])
           && OwnRows(kept)[k] == EmbeddingOf(kept[k])
  {
  }

  /**
   * The corrected filter keeps every conversation whose own embedding is a
   * non-empty array of the given length, and no other, in fetched order: the
   * returned positions are exactly those conversations' indices, increasing.
   */
  lemma OwnersWithLengthAreExactlyOwners(convs: seq<Conversation>, embeddingLength: nat) returns (indices: seq<nat>)
    ensures StrictlyIncreasing(indices)
    ensures forall p: nat :: p in indices <==>
      p < |convs| && HasVector(convs[p]) && |EmbeddingOf(convs[p])| == embeddingLength
    ensures |OwnersWithLength(convs, embeddingLength)| == |indices|
    ensures forall k :: 0 <= k < |indices| ==> indices[k] < |convs| && OwnersWithLength(convs, embeddingLength)[k] == convs[indices[k]]
  {
    indices := Positions(|convs|, OwnEmbeddingHasLength(convs, embeddingLength), 0);
    assert forall k :: 0 <= k < |indices| ==> indices[k] in indices;
  }

  /** When every conversation has a non-empty array embedding, the corrected handler and the handler as written agree. */
  lemma GetByOwnerAgreesWhenAligned(convs: seq<Conversation>, pca: seq<seq<real>> -> seq<Coordinates>)
    requires AllHaveVectors(convs)
    ensures GetByOwner(convs, pca) == Get(convs, pca)
  {
    if convs != [] {
      var embeddings := ArrayEmbeddings(convs);
      var L := EmbeddingLength(convs);
      AlignedEmbeddings(convs);
      forall p: nat | p < |convs| ensures OwnEmbeddingHasLength(convs, L)(p) == HasLength(embeddings, L)(p) {
      }
      PositionsAgree(|convs|, OwnEmbeddingHasLength(convs, L), |embeddings|, HasLength(embeddings, L), 0);
      var kept := OwnersWithLength(convs, L);
      assert kept == KeptConversations(convs);
      AlignedKeptConversations(convs);
      assert OwnRows(kept) == ValidEmbeddings(convs);
    }
  }
}
