// The retrieval side of the summarizer: which texts are embedded, and how
// the neighbours a similarity search returns are turned into context chunks.
// Sentence embedding and the nearest-neighbour index are not modelled: they
// enter as functions passed in, which either give a value or fail.

module Rag {
  import opened Wrappers
  import opened Text
  import opened Sections

  /** How many characters of a section are embedded, and of the query section searched with. */
  const EmbedLimit: nat := 5000
  /** How many characters of a neighbour go into the context. */
  const ChunkLimit: nat := 2000

  const NoSections := "No valid sections for vector store"
  const IndexOutOfRange := "list index out of range"

  // ------------------------------------------------------------ building the store

  /** The texts handed to the embedder: each section's content, cut to its first 5000 characters. */
  function EmbeddingTexts(sections: seq<Section>): (texts: seq<string>)
    ensures |texts| == |sections|
  {
    seq(|sections|, i requires 0 <= i < |sections| => Take(sections[i].content, EmbedLimit))
  }

  /** Text i is the prefix of section i that the embedder sees: all of it when it is short enough. */
  lemma EmbeddingTextsArePrefixes(sections: seq<Section>)
    ensures forall i :: 0 <= i < |sections| ==>
      EmbeddingTexts(sections)[i] <= sections[i].content &&
      |EmbeddingTexts(sections)[i]| == Min(EmbedLimit, |sections[i].content|)
    ensures forall i :: 0 <= i < |sections| && |sections[i].content| <= EmbedLimit ==>
      EmbeddingTexts(sections)[i] == sections[i].content
  {
    forall i | 0 <= i < |sections| && |sections[i].content| <= EmbedLimit
      ensures EmbeddingTexts(sections)[i] == sections[i].content
    {
      var t := EmbeddingTexts(sections)[i];
      assert t <= sections[i].content && |t| == |sections[i].content|;
    }
  }

  /** What `build_vector_store` hands back: the embeddings and the very sections they were computed from. */
  datatype VectorStore<E> = VectorStore(embeddings: seq<E>, sections: seq<Section>)

  /**
   * `build_vector_store`: an empty section list is refused, a failure of
   * the embedder is passed on, and otherwise the sections come back
   * unchanged beside their embeddings, so embedding i belongs to section i.
   */
  function BuildVectorStore<E>(sections: seq<Section>, embed: seq<string> -> Result<seq<E>>): (r: Result<VectorStore<E>>)
    ensures sections == [] ==> r == Err(NoSections)
    ensures r.Ok? <==> sections != [] && embed(EmbeddingTexts(sections)).Ok?
    ensures r.Ok? ==> r.value.sections == sections && embed(EmbeddingTexts(sections)) == Ok(r.value.embeddings)
    ensures sections != [] && embed(EmbeddingTexts(sections)).Err? ==> r == Err(embed(EmbeddingTexts(sections)).error)
  {
    var texts := EmbeddingTexts(sections);
    if texts == [] then Err(NoSections)
    else match embed(texts)
      case Err(e) => Err(e)
      case Ok(embeddings) => Ok(VectorStore(embeddings, sections))
  }

  // ------------------------------------------------------------ retrieval

  /** Python's `xs[i]` on a list of length `n`: the position it reads, negative indices counting from the end. */
  function PyIndex(n: nat, i: int): (r: Option<nat>)
    ensures r.Some? <==> -(n as int) <= i < n
    ensures r.Some? ==> r.value < n && (r.value - i) % n == 0
  {
    if 0 <= i < n then Some(i) else if -(n as int) <= i < 0 then Some(n + i) else None
  }

  /** The neighbour list reads only existing sections. */
  predicate AllInRange(n: nat, neighbours: seq<int>) {
    forall j :: 0 <= j < |neighbours| ==> PyIndex(n, neighbours[j]).Some?
  }

  /** The section a neighbour index reads, when it is in range. */
  function Neighbour(sections: seq<Section>, i: int): (s: Section)
    requires PyIndex(|sections|, i).Some?
  {
    sections[PyIndex(|sections|, i).value]
  }

  /**
   * The list comprehension over the neighbour indices: every index is read
   * (one out of range raises), sections whose content equals `query` are
   * dropped, the others contribute their first 2000 characters.
   */
  function Chunks(sections: seq<Section>, neighbours: seq<int>, query: string): (r: Result<seq<string>>)
    ensures r.Ok? <==> AllInRange(|sections|, neighbours)
    ensures r.Ok? ==> |r.value| <= |neighbours|
    ensures r.Ok? ==> forall i :: 0 <= i < |r.value| ==> |r.value[i]| <= ChunkLimit
  {
    if neighbours == [] then Ok([])
    else match PyIndex(|sections|, neighbours[0])
      case None => Err(IndexOutOfRange)
      case Some(k) =>
        var rest := Chunks(sections, neighbours[1..], query);
        if rest.Err? then rest
        else if sections[k].content != query then Ok([Take(sections[k].content, ChunkLimit)] + rest.value)
        else rest
  }

  /** One more neighbour in front adds its chunk, if kept, in front. */
  lemma ChunksCons(sections: seq<Section>, i: int, tail: seq<int>, query: string)
    requires PyIndex(|sections|, i).Some? && Chunks(sections, tail, query).Ok?
    ensures Chunks(sections, [i] + tail, query) ==
      Ok((if Neighbour(sections, i).content != query then [Take(Neighbour(sections, i).content, ChunkLimit)] else [])
         + Chunks(sections, tail, query).value)
  {
    var ns := [i] + tail;
    assert ns[0] == i && ns[1..] == tail;
    var k := PyIndex(|sections|, i).value;
    assert Neighbour(sections, i) == sections[k];
    var rest := Chunks(sections, tail, query).value;
    if sections[k].content != query {
      assert Chunks(sections, ns, query) == Ok([Take(sections[k].content, ChunkLimit)] + rest);
    } else {
      assert Chunks(sections, ns, query) == Ok(rest);
      assert [] + rest == rest;
    }
  }

  /**
   * `retrieve_relevant_chunks`: search with the query section's first 5000
   * characters for `topK + 1` neighbours, keep the chunks of those whose
   * content differs from that text, and cap the list at `topK`. A failing
   * search or an index out of range gives the empty list.
   */
  function RetrieveRelevantChunks(sections: seq<Section>, querySection: Section, topK: nat,
                                  search: (string, nat) -> Result<seq<int>>): (r: seq<string>)
    ensures |r| <= topK
    ensures forall i :: 0 <= i < |r| ==> |r[i]| <= ChunkLimit
  {
    var query := Take(querySection.content, EmbedLimit);
    match search(query, topK + 1)
      case Err(_) => []
      case Ok(neighbours) =>
        match Chunks(sections, neighbours, query)
          case Err(_) => []
          case Ok(chunks) => Take(chunks, topK)
  }

  lemma AllInRangeTail(n: nat, neighbours: seq<int>)
    requires neighbours != [] && AllInRange(n, neighbours)
    ensures AllInRange(n, neighbours[1..])
  {
    forall j | 0 <= j < |neighbours| - 1 ensures PyIndex(n, neighbours[1..][j]).Some? {
      assert neighbours[1..][j] == neighbours[j + 1];
    }
  }

  function Shift(positions: seq<nat>): (r: seq<nat>)
    ensures |r| == |positions| && forall i :: 0 <= i < |r| ==> r[i] == positions[i] + 1
  {
    seq(|positions|, i requires 0 <= i < |positions| => positions[i] + 1)
  }

  /** The positions in the neighbour list whose section the comprehension keeps. */
  function Kept(sections: seq<Section>, neighbours: seq<int>, query: string): seq<nat>
    requires AllInRange(|sections|, neighbours)
  {
    if neighbours == [] then []
    else
      AllInRangeTail(|sections|, neighbours);
      (if Neighbour(sections, neighbours[0]).content != query then [0] else [])
      + Shift(Kept(sections, neighbours[1..], query))
  }

  lemma {:induction false} KeptIncreasing(sections: seq<Section>, neighbours: seq<int>, query: string)
    requires AllInRange(|sections|, neighbours)
    ensures var P := Kept(sections, neighbours, query);
      && (forall i :: 0 <= i < |P| ==> P[i] < |neighbours|)
      && (forall i, i' :: 0 <= i < i' < |P| ==> P[i] < P[i'])
  {
    if neighbours != [] {
      AllInRangeTail(|sections|, neighbours);
      var tail := neighbours[1..];
      KeptIncreasing(sections, tail, query);
      var Q := Kept(sections, tail, query);
      assert Q == Kept(sections, tail, query);
      var S := Shift(Q);
      var h: seq<nat> := if Neighbour(sections, neighbours[0]).content != query then [0] else [];
      var P := h + S;
      assert P == Kept(sections, neighbours, query);
      forall i | 0 <= i < |P| ensures P[i] < |neighbours| && (i >= |h| ==> P[i] == Q[i - |h|] + 1 > 0) {
        if i >= |h| {
          assert P[i] == S[i - |h|];
        }
      }
      forall i, i' | 0 <= i < i' < |P| ensures P[i] < P[i'] {
        if i >= |h| {
          assert Q[i - |h|] < Q[i' - |h|];
        }
      }
    }
  }

  /** One kept position per chunk. */
  lemma {:induction false} KeptLength(sections: seq<Section>, neighbours: seq<int>, query: string)
    requires AllInRange(|sections|, neighbours)
    ensures Chunks(sections, neighbours, query).Ok?
    ensures |Kept(sections, neighbours, query)| == |Chunks(sections, neighbours, query).value|
  {
    if neighbours != [] {
      AllInRangeTail(|sections|, neighbours);
      KeptLength(sections, neighbours[1..], query);
      assert neighbours == [neighbours[0]] + neighbours[1..];
      ChunksCons(sections, neighbours[0], neighbours[1..], query);
    }
  }

  /** Chunk i comes from the neighbour at kept position i. */
  lemma {:induction false} KeptChunkAt(sections: seq<Section>, neighbours: seq<int>, query: string, i: nat)
    requires AllInRange(|sections|, neighbours)
    requires i < |Kept(sections, neighbours, query)|
    ensures Chunks(sections, neighbours, query).Ok?
    ensures Kept(sections, neighbours, query)[i] < |neighbours|
    ensures i < |Chunks(sections, neighbours, query).value|
    ensures Chunks(sections, neighbours, query).value[i] ==
      Take(Neighbour(sections, neighbours[Kept(sections, neighbours, query)[i]]).content, ChunkLimit)
  {
    var tail := neighbours[1..];
    AllInRangeTail(|sections|, neighbours);
    KeptLength(sections, neighbours, query);
    KeptLength(sections, tail, query);
    assert neighbours == [neighbours[0]] + tail;
    ChunksCons(sections, neighbours[0], tail, query);
    var first := Neighbour(sections, neighbours[0]);
    var h: seq<nat> := if first.content != query then [0] else [];
    var hc: seq<string> := if first.content != query then [Take(first.content, ChunkLimit)] else [];
    if i >= |h| {
      KeptChunkAt(sections, tail, query, i - |h|);
      PickAfter(Kept(sections, neighbours, query), Chunks(sections, neighbours, query).value,
                h, hc, Kept(sections, tail, query), Chunks(sections, tail, query).value, i);
      assert neighbours[Kept(sections, tail, query)[i - |h|] + 1] == tail[Kept(sections, tail, query)[i - |h|]];
    }
  }

  /** Position `i` past a head of `|h|` kept neighbours comes from the tail, one place further on. */
  lemma PickAfter(P: seq<nat>, cs: seq<string>, h: seq<nat>, hc: seq<string>, Q: seq<nat>, rest: seq<string>, i: nat)
    requires |h| == |hc| <= i < |P| && |Q| == |rest|
    requires P == h + Shift(Q) && cs == hc + rest
    ensures i - |h| < |Q| && P[i] == Q[i - |h|] + 1 && cs[i] == rest[i - |h|]
  {
  }

  lemma KeptChunks(sections: seq<Section>, neighbours: seq<int>, query: string)
    requires AllInRange(|sections|, neighbours)
    ensures Chunks(sections, neighbours, query).Ok?
    ensures var P := Kept(sections, neighbours, query);
      var cs := Chunks(sections, neighbours, query).value;
      && |P| == |cs|
      && forall i :: 0 <= i < |P| ==>
           P[i] < |neighbours| && cs[i] == Take(Neighbour(sections, neighbours[P[i]]).content, ChunkLimit)
  {
    KeptLength(sections, neighbours, query);
    forall i | 0 <= i < |Kept(sections, neighbours, query)|
      ensures Kept(sections, neighbours, query)[i] < |neighbours|
      ensures Chunks(sections, neighbours, query).value[i] ==
        Take(Neighbour(sections, neighbours[Kept(sections, neighbours, query)[i]]).content, ChunkLimit)
    {
      KeptChunkAt(sections, neighbours, query, i);
    }
  }

  lemma {:induction false} KeptMembership(sections: seq<Section>, neighbours: seq<int>, query: string)
    requires AllInRange(|sections|, neighbours)
    ensures var P := Kept(sections, neighbours, query);
      forall j :: 0 <= j < |neighbours| ==> (j in P <==> Neighbour(sections, neighbours[j]).content != query)
  {
    if neighbours != [] {
      var tail := neighbours[1..];
      AllInRangeTail(|sections|, neighbours);
      KeptMembership(sections, tail, query);
      var Q := Kept(sections, tail, query);
      var S := Shift(Q);
      var P := Kept(sections, neighbours, query);
      assert 0 !in S;
      forall j | 0 < j < |neighbours|
        ensures j in P <==> Neighbour(sections, neighbours[j]).content != query
      {
        assert neighbours[j] == tail[j - 1];
        if j - 1 in Q {
          var i :| 0 <= i < |Q| && Q[i] == j - 1;
          assert S[i] == j;
        }
        assert j in P <==> j in S;
      }
    }
  }

  /**
   * The chunks are those of the kept neighbours, in neighbour order: there
   * are strictly increasing positions `P` into the neighbour list, a
   * position is among them exactly when its section's content differs from
   * the query, and chunk i is the first 2000 characters of the section at
   * position `P[i]`.
   */
  lemma ChunksFollowNeighbours(sections: seq<Section>, neighbours: seq<int>, query: string)
    returns (P: seq<nat>)
    requires AllInRange(|sections|, neighbours)
    ensures Chunks(sections, neighbours, query).Ok?
    ensures var cs := Chunks(sections, neighbours, query).value;
      && |P| == |cs|
      && (forall i :: 0 <= i < |P| ==> P[i] < |neighbours|)
      && (forall i, i' :: 0 <= i < i' < |P| ==> P[i] < P[i'])
      && (forall i :: 0 <= i < |P| ==> cs[i] == Take(Neighbour(sections, neighbours[P[i]]).content, ChunkLimit))
      && (forall j :: 0 <= j < |neighbours| ==>
            (j in P <==> Neighbour(sections, neighbours[j]).content != query))
  {
    P := Kept(sections, neighbours, query);
    KeptIncreasing(sections, neighbours, query);
    KeptChunks(sections, neighbours, query);
    KeptMembership(sections, neighbours, query);
  }

  /**
   * `r` is the comprehension's answer cut to `topK`, taken from the kept
   * neighbours at positions `P`: the positions are in range and increasing,
   * chunk i is the first 2000 characters of the section at `P[i]`, whose
   * content differs from `query`, no kept neighbour before a taken one is
   * skipped, and fewer than `topK` chunks means every kept neighbour was taken.
   */
  predicate TakesFirstKept(sections: seq<Section>, neighbours: seq<int>, query: string, topK: nat,
                           P: seq<nat>, r: seq<string>)
    requires AllInRange(|sections|, neighbours)
  {
    && |P| == |r| <= topK
    && (forall i :: 0 <= i < |P| ==> P[i] < |neighbours|)
    && (forall i, i' :: 0 <= i < i' < |P| ==> P[i] < P[i'])
    && (forall i :: 0 <= i < |P| ==>
          r[i] == Take(Neighbour(sections, neighbours[P[i]]).content, ChunkLimit) &&
          r[i] <= Neighbour(sections, neighbours[P[i]]).content &&
          Neighbour(sections, neighbours[P[i]]).content != query)
    && (forall i, j :: 0 <= i < |P| && 0 <= j < P[i] && Neighbour(sections, neighbours[j]).content != query ==> j in P)
    && (|P| < topK ==> forall j :: 0 <= j < |neighbours| && Neighbour(sections, neighbours[j]).content != query ==> j in P)
  }

  /** Cutting the comprehension's answer to `topK` keeps exactly the first `topK` kept neighbours. */
  lemma FirstKeptChunks(sections: seq<Section>, neighbours: seq<int>, query: string, topK: nat)
    returns (P: seq<nat>)
    requires AllInRange(|sections|, neighbours)
    ensures Chunks(sections, neighbours, query).Ok?
    ensures var r := Take(Chunks(sections, neighbours, query).value, topK);
      && |r| == Min(topK, |Kept(sections, neighbours, query)|)
      && TakesFirstKept(sections, neighbours, query, topK, P, r)
  {
    var all := ChunksFollowNeighbours(sections, neighbours, query);
    var cs := Chunks(sections, neighbours, query).value;
    KeptLength(sections, neighbours, query);
    var r := Take(cs, topK);
    P := Take(all, topK);
    forall i | 0 <= i < |P|
      ensures Neighbour(sections, neighbours[P[i]]).content != query
    {
      assert P[i] == all[i] && all[i] in all;
    }
    TakeIsPrefixClosed(all, topK);
    forall i, j | 0 <= i < |P| && 0 <= j < P[i] && Neighbour(sections, neighbours[j]).content != query
      ensures j in P
    {
      assert j in all;
    }
    if |P| < topK {
      assert P == all;
    }
  }

  /** The first `k` of increasing positions hold every position of the list below one of theirs. */
  lemma TakeIsPrefixClosed(all: seq<nat>, k: nat)
    requires forall i, i' :: 0 <= i < i' < |all| ==> all[i] < all[i']
    ensures forall i, j :: 0 <= i < |Take(all, k)| && j in all && j < Take(all, k)[i] ==> j in Take(all, k)
  {
    var P := Take(all, k);
    forall i, j | 0 <= i < |P| && j in all && j < P[i]
      ensures j in P
    {
      var m :| 0 <= m < |all| && all[m] == j;
      assert m < i;
      assert P[m] == j;
    }
  }

  /**
   * Which chunks come back: a non-empty answer means the search succeeded
   * with every index in range, and then the answer is the first `topK`
   * chunks of the neighbours whose content differs from the query section's
   * first 5000 characters, in neighbour order, none skipped.
   */
  lemma RetrievedChunksFollowNeighbours(sections: seq<Section>, querySection: Section, topK: nat,
                                        search: (string, nat) -> Result<seq<int>>)
    returns (P: seq<nat>)
    ensures var query := Take(querySection.content, EmbedLimit);
      RetrieveRelevantChunks(sections, querySection, topK, search) != [] ==>
        search(query, topK + 1).Ok? && AllInRange(|sections|, search(query, topK + 1).value)
    ensures var r := RetrieveRelevantChunks(sections, querySection, topK, search);
      var query := Take(querySection.content, EmbedLimit);
      search(query, topK + 1).Ok? && AllInRange(|sections|, search(query, topK + 1).value) ==>
        var ns := search(query, topK + 1).value;
        && |r| == Min(topK, |Kept(sections, ns, query)|)
        && TakesFirstKept(sections, ns, query, topK, P, r)
  {
    P := [];
    var query := Take(querySection.content, EmbedLimit);
    if search(query, topK + 1).Ok? && AllInRange(|sections|, search(query, topK + 1).value) {
      P := FirstKeptChunks(sections, search(query, topK + 1).value, query, topK);
    }
  }

  /**
   * As written, every chunk comes from a section whose content differs from
   * the query section's first 5000 characters, which is all the comprehension
   * compares against.
   */
  lemma RetrievedChunksExcludeQuery(sections: seq<Section>, querySection: Section, topK: nat,
                                    search: (string, nat) -> Result<seq<int>>)
    ensures forall c :: c in RetrieveRelevantChunks(sections, querySection, topK, search) ==>
      exists j :: 0 <= j < |sections| && sections[j].content != Take(querySection.content, EmbedLimit) &&
        c == Take(sections[j].content, ChunkLimit)
  {
    var query := Take(querySection.content, EmbedLimit);
    var r := RetrieveRelevantChunks(sections, querySection, topK, search);
    if search(query, topK + 1).Ok? {
      var ns := search(query, topK + 1).value;
      if Chunks(sections, ns, query).Ok? {
        var cs := Chunks(sections, ns, query).value;
        ChunksExcludeQuery(sections, ns, query);
        assert r == Take(cs, topK);
        assert forall c :: c in r ==> c in cs;
      }
    }
  }

  /** A failing search, or a neighbour index out of range anywhere in the list, gives no context at all. */
  lemma RetrievalFailureIsEmpty(sections: seq<Section>, querySection: Section, topK: nat,
                                search: (string, nat) -> Result<seq<int>>)
    ensures var query := Take(querySection.content, EmbedLimit);
      search(query, topK + 1).Err? ||
      !AllInRange(|sections|, search(query, topK + 1).value)
      ==> RetrieveRelevantChunks(sections, querySection, topK, search) == []
  {
  }

  /**
   * The search pads a short answer with -1, which Python reads as the last
   * section: a book of one section retrieves that section once per padding
   * entry unless it is the query itself.
   */
  lemma PaddingReadsLastSection(sections: seq<Section>, query: string)
    requires sections != []
    ensures var last := sections[|sections| - 1];
      Chunks(sections, [-1, -1], query) ==
        if last.content != query then Ok([Take(last.content, ChunkLimit), Take(last.content, ChunkLimit)]) else Ok([])
  {
    var last := sections[|sections| - 1];
    assert Neighbour(sections, -1) == last;
    ChunksCons(sections, -1, [], query);
    assert [-1] + [] == [-1];
    ChunksCons(sections, -1, [-1], query);
    assert [-1] + [-1] == [-1, -1];
    var t := Take(last.content, ChunkLimit);
    if last.content != query {
      assert [t] + ([t] + []) == [t, t];
    } else {
      var none: seq<string> := [];
      assert none + (none + none) == none;
    }
  }

  // ------------------------------------------------------------ self exclusion

  /** A section of 5001 characters, too long for its whole content to equal the searched text. */
  function LongSection(): Section {
    Section(Named("Chapter 1. "), seq(EmbedLimit + 1, _ => 'a'))
  }

  /** A book of four sections that opens with the long one. */
  function FourSections(): seq<Section> {
    [LongSection(), Section(Named("Chapter 2. "), "b"), Section(Named("Chapter 3. "), "c"), Section(Named("Chapter 4. "), "d")]
  }

  /** A search that ranks the query section first, then the next two sections, as an exact index does for a member. */
  function SelfFirst(query: string, k: nat): Result<seq<int>> {
    Ok([0, 1, 2])
  }

  /**
   * As written, self exclusion compares each neighbour's full content with
   * the query's first 5000 characters, so a query section longer than 5000
   * characters is found among its own neighbours and returned as context,
   * even with `top_k` below the number of other sections. The correction
   * returns the two other sections instead.
   */
  lemma LongQueryRetrievesItself()
    ensures RetrieveRelevantChunks(FourSections(), LongSection(), 2, SelfFirst) ==
      [Take(LongSection().content, ChunkLimit), "b"]
    ensures RetrieveOtherChunks(FourSections(), LongSection(), 2, SelfFirst) == ["b", "c"]
  {
    var book := FourSections();
    var s := LongSection();
    var query := Take(s.content, EmbedLimit);
    assert |query| == EmbedLimit;
    assert s.content != query;
    var c := Take(s.content, ChunkLimit);
    assert Neighbour(book, 0) == s && Neighbour(book, 1).content == "b" && Neighbour(book, 2).content == "c";
    assert Take("b", ChunkLimit) == "b" && Take("c", ChunkLimit) == "c";
    assert [2] + [] == [2] && [1] + [2] == [1, 2] && [0] + [1, 2] == [0, 1, 2];
    assert "b" != query && "c" != query && "b" != s.content && "c" != s.content;
    var none: seq<int> := [];
    assert Chunks(book, none, query) == Ok([]) && Chunks(book, none, s.content) == Ok([]);
    assert ["c"] + [] == ["c"] && ["b"] + ["c"] == ["b", "c"] && [c] + ["b", "c"] == [c, "b", "c"];
    ChunksCons(book, 2, [], query);
    assert Chunks(book, [2], query) == Ok(["c"]);
    ChunksCons(book, 1, [2], query);
    assert Chunks(book, [1, 2], query) == Ok(["b", "c"]);
    ChunksCons(book, 0, [1, 2], query);
    assert Chunks(book, [0, 1, 2], query) == Ok([c, "b", "c"]);
    ChunksCons(book, 2, [], s.content);
    ChunksCons(book, 1, [2], s.content);
    ChunksCons(book, 0, [1, 2], s.content);
    assert Chunks(book, [0, 1, 2], s.content) == Ok(["b", "c"]);
    assert [c, "b", "c"][..2] == [c, "b"];
  }

  /** Retrieval as evidently intended: neighbours are compared with the query section's whole content. */
  function RetrieveOtherChunks(sections: seq<Section>, querySection: Section, topK: nat,
                               search: (string, nat) -> Result<seq<int>>): (r: seq<string>)
    ensures |r| <= topK
    ensures forall i :: 0 <= i < |r| ==> |r[i]| <= ChunkLimit
  {
    var query := Take(querySection.content, EmbedLimit);
    match search(query, topK + 1)
      case Err(_) => []
      case Ok(neighbours) =>
        match Chunks(sections, neighbours, querySection.content)
          case Err(_) => []
          case Ok(chunks) => Take(chunks, topK)
  }

  /** Every chunk kept from `Chunks` comes from a section whose content differs from the query. */
  lemma {:induction false} ChunksExcludeQuery(sections: seq<Section>, neighbours: seq<int>, query: string)
    requires Chunks(sections, neighbours, query).Ok?
    ensures forall c :: c in Chunks(sections, neighbours, query).value ==>
      exists j :: 0 <= j < |sections| && sections[j].content != query && c == Take(sections[j].content, ChunkLimit)
  {
    if neighbours != [] {
      ChunksExcludeQuery(sections, neighbours[1..], query);
    }
  }

  /**
   * With the correction, the query section is never its own context: every
   * chunk comes from a section whose content differs from the query
   * section's, whatever the lengths involved.
   */
  lemma OtherChunksExcludeSelf(sections: seq<Section>, querySection: Section, topK: nat,
                               search: (string, nat) -> Result<seq<int>>)
    ensures forall c :: c in RetrieveOtherChunks(sections, querySection, topK, search) ==>
      exists j :: 0 <= j < |sections| && sections[j].content != querySection.content &&
        c == Take(sections[j].content, ChunkLimit)
  {
    var query := Take(querySection.content, EmbedLimit);
    var r := RetrieveOtherChunks(sections, querySection, topK, search);
    if search(query, topK + 1).Ok? {
      var ns := search(query, topK + 1).value;
      if Chunks(sections, ns, querySection.content).Ok? {
        var cs := Chunks(sections, ns, querySection.content).value;
        ChunksExcludeQuery(sections, ns, querySection.content);
        assert r == Take(cs, topK);
        assert forall c :: c in r ==> c in cs;
      }
    }
  }

  /**
   * The corrected retrieval takes the first `topK` chunks of the neighbours
   * whose content differs from the query section's whole content, in
   * neighbour order, none skipped.
   */
  lemma OtherChunksFollowNeighbours(sections: seq<Section>, querySection: Section, topK: nat,
                                    search: (string, nat) -> Result<seq<int>>)
    returns (P: seq<nat>)
    ensures var query := Take(querySection.content, EmbedLimit);
      RetrieveOtherChunks(sections, querySection, topK, search) != [] ==>
        search(query, topK + 1).Ok? && AllInRange(|sections|, search(query, topK + 1).value)
    ensures var r := RetrieveOtherChunks(sections, querySection, topK, search);
      var query := Take(querySection.content, EmbedLimit);
      search(query, topK + 1).Ok? && AllInRange(|sections|, search(query, topK + 1).value) ==>
        var ns := search(query, topK + 1).value;
        && |r| == Min(topK, |Kept(sections, ns, querySection.content)|)
        && TakesFirstKept(sections, ns, querySection.content, topK, P, r)
  {
    P := [];
    var query := Take(querySection.content, EmbedLimit);
    if search(query, topK + 1).Ok? && AllInRange(|sections|, search(query, topK + 1).value) {
      P := FirstKeptChunks(sections, search(query, topK + 1).value, querySection.content, topK);
    }
  }

  /** For query sections of at most 5000 characters the correction changes nothing. */
  lemma OtherChunksAgreeOnShortQueries(sections: seq<Section>, querySection: Section, topK: nat,
                                       search: (string, nat) -> Result<seq<int>>)
    requires |querySection.content| <= EmbedLimit
    ensures RetrieveOtherChunks(sections, querySection, topK, search) ==
      RetrieveRelevantChunks(sections, querySection, topK, search)
  {
    var query := Take(querySection.content, EmbedLimit);
    assert query == querySection.content;
  }
}
