/**
 * Chunk bookkeeping around the vector store (`app/services/rag.py`): the
 * metadata that `store_chunks` stamps on every chunk, the distance-to-score
 * mapping of `retrieve`, and the sort-and-join of `get_full_text`.
 *
 * The splitter, the embedder and the store are not modelled: the splitter's
 * output and the store's answers are inputs.
 */
module Rag {
  import opened Wrappers
  import opened Text

  /** A metadata value: the pipeline only ever writes strings and integers. */
  datatype MetaValue = Str(s: string) | Int(i: int)

  type Metadata = map<string, MetaValue>

  /** A chunk as the splitter returns it and the store keeps it. */
  datatype Chunk = Chunk(content: string, metadata: Metadata)

  /** Number of hex digits of a document id. */
  const DocIdLength := 12

  predicate IsHexDigit(c: char) {
    '0' <= c <= '9' || 'a' <= c <= 'f'
  }

  /** The hex form of a random UUID: 32 lower-case hex digits. */
  predicate IsUuidHex(s: string) {
    |s| == 32 && forall i :: 0 <= i < |s| ==> IsHexDigit(s[i])
  }

  /** One document per section, with the section as its text and the file
      name as its only metadata, under the key "source". */
  function SourceDocs(sections: seq<string>, filename: string): (r: seq<Chunk>)
    ensures |r| == |sections|
  {
    seq(|sections|, i requires 0 <= i < |sections| => Chunk(sections[i], map["source" := Str(filename)]))
  }

  /** The keys `store_chunks` writes into the metadata of the `i`-th chunk. */
  function Stamp(docId: string, filename: string, i: nat): Metadata {
    map["doc_id" := Str(docId), "filename" := Str(filename), "chunk_index" := Int(i)]
  }

  /** Every chunk with its metadata updated by `Stamp` (keys already
      present are overwritten). */
  function Stamped(chunks: seq<Chunk>, docId: string, filename: string): (r: seq<Chunk>)
    ensures |r| == |chunks|
  {
    seq(|chunks|, i requires 0 <= i < |chunks| => Chunk(chunks[i].content, chunks[i].metadata + Stamp(docId, filename, i)))
  }

  /** After stamping, chunk `i` has index `i`, the shared document id and the
      file name; its text and every other metadata key are unchanged. */
  lemma StampedMetadata(chunks: seq<Chunk>, docId: string, filename: string, i: nat)
    requires i < |chunks|
    ensures var c := Stamped(chunks, docId, filename)[i];
      && c.content == chunks[i].content
      && c.metadata.Keys == chunks[i].metadata.Keys + {"doc_id", "filename", "chunk_index"}
      && c.metadata["chunk_index"] == Int(i)
      && c.metadata["doc_id"] == Str(docId)
      && c.metadata["filename"] == Str(filename)
      && forall k :: k in chunks[i].metadata && k !in {"doc_id", "filename", "chunk_index"} ==>
           c.metadata[k] == chunks[i].metadata[k]
  {
  }

  /** The loop of `store_chunks` that updates each chunk's metadata in place. */
  method StampChunks(chunks: array<Chunk>, docId: string, filename: string)
    modifies chunks
    ensures chunks[..] == Stamped(old(chunks[..]), docId, filename)
  {
    var i := 0;
    while i < chunks.Length
      invariant 0 <= i <= chunks.Length
      invariant chunks[..i] == Stamped(old(chunks[..]), docId, filename)[..i]
      invariant chunks[i..] == old(chunks[..])[i..]
    {
      chunks[i] := Chunk(chunks[i].content, chunks[i].metadata + Stamp(docId, filename, i));
      i := i + 1;
    }
  }

  /** What `store_chunks` leaves in the store and returns. */
  datatype Stored = Stored(docId: string, numChunks: nat, chunks: seq<Chunk>)

  /** The result of `store_chunks`, as a function of the section list, the
      file name, the splitter and the random UUID. */
  function Store(sections: seq<string>, filename: string, split: seq<Chunk> -> seq<Chunk>, uuidHex: string): Stored
    requires IsUuidHex(uuidHex)
  {
    var chunks := split(SourceDocs(sections, filename));
    Stored(uuidHex[..DocIdLength], |chunks|, Stamped(chunks, uuidHex[..DocIdLength], filename))
  }

  /** `store_chunks`: stamp the splitter's chunks and store them under a new
      document id. The stored list is what is handed to the store. */
  method StoreChunks(sections: seq<string>, filename: string, split: seq<Chunk> -> seq<Chunk>, uuidHex: string)
    returns (docId: string, numChunks: nat, stored: seq<Chunk>)
    requires IsUuidHex(uuidHex)
    ensures Stored(docId, numChunks, stored) == Store(sections, filename, split, uuidHex)
    ensures |docId| == DocIdLength && forall i :: 0 <= i < |docId| ==> IsHexDigit(docId[i])
    ensures numChunks == |stored|
    ensures forall i :: 0 <= i < |stored| ==>
      stored[i].metadata["chunk_index"] == Int(i) && stored[i].metadata["doc_id"] == Str(docId)
      && stored[i].metadata["filename"] == Str(filename)
  {
    docId := uuidHex[..DocIdLength];
    var docs := SourceDocs(sections, filename);
    var splitDocs := split(docs);
    var a := new Chunk[|splitDocs|](i requires 0 <= i < |splitDocs| => splitDocs[i]);
    assert a[..] == splitDocs;
    StampChunks(a, docId, filename);
    stored := a[..];
    numChunks := a.Length;
    forall i | 0 <= i < |stored|
      ensures stored[i].metadata["chunk_index"] == Int(i) && stored[i].metadata["doc_id"] == Str(docId)
        && stored[i].metadata["filename"] == Str(filename)
    {
      StampedMetadata(splitDocs, docId, filename, i);
    }
  }

  // ---------------------------------------------------------------------
  // retrieve
  // ---------------------------------------------------------------------

  /** One retrieved chunk: its text, its similarity and its index. */
  datatype Retrieved = Retrieved(text: string, score: real, chunkIndex: MetaValue)

  /** Cosine distance to similarity. */
  function Similarity(distance: real): real {
    1.0 - distance
  }

  /** A hit's chunk index, read from its metadata with 0 when it is absent. */
  function IndexOf(metadata: Metadata): MetaValue {
    if "chunk_index" in metadata then metadata["chunk_index"] else Int(0)
  }

  /** `retrieve`: the store's hits, in the store's order, with the distance
      turned into a similarity. */
  method Retrieve(hits: seq<(Chunk, real)>) returns (chunks: seq<Retrieved>)
    ensures |chunks| == |hits|
    ensures forall i :: 0 <= i < |hits| ==>
      chunks[i] == Retrieved(hits[i].0.content, Similarity(hits[i].1), IndexOf(hits[i].0.metadata))
  {
    chunks := [];
    var i := 0;
    while i < |hits|
      invariant 0 <= i <= |hits|
      invariant |chunks| == i
      invariant forall j :: 0 <= j < i ==>
        chunks[j] == Retrieved(hits[j].0.content, Similarity(hits[j].1), IndexOf(hits[j].0.metadata))
    {
      var (doc, distance) := hits[i];
      var similarity := 1.0 - distance;
      chunks := chunks + [Retrieved(doc.content, similarity, IndexOf(doc.metadata))];
      i := i + 1;
    }
  }

  /** Hits returned nearest first come out most similar first. */
  lemma SimilarityReversesDistance(d1: real, d2: real)
    ensures d1 <= d2 <==> Similarity(d2) <= Similarity(d1)
  {
  }

  /** A hit on a stored chunk reports the position the chunk had in the
      splitter's output. */
  lemma RetrievedIndexIsPosition(chunks: seq<Chunk>, docId: string, filename: string, j: nat)
    requires j < |chunks|
    ensures IndexOf(Stamped(chunks, docId, filename)[j].metadata) == Int(j)
  {
    StampedMetadata(chunks, docId, filename, j);
  }

  // ---------------------------------------------------------------------
  // get_full_text
  // ---------------------------------------------------------------------

  /** A stored text with its metadata, as `zip` pairs them. */
  type Pair = (string, Metadata)

  /** The texts paired with the metadata at the same position; extra items
      of the longer list are dropped. */
  function Zip(documents: seq<string>, metadatas: seq<Metadata>): (r: seq<Pair>)
    ensures |r| == if |documents| <= |metadatas| then |documents| else |metadatas|
    ensures forall i :: 0 <= i < |r| ==> r[i] == (documents[i], metadatas[i])
  {
    var n := if |documents| <= |metadatas| then |documents| else |metadatas|;
    seq(n, i requires 0 <= i < n => (documents[i], metadatas[i]))
  }

  /** The pair's metadata has an integer "chunk_index", its sort key. */
  predicate HasIndex(p: Pair) {
    "chunk_index" in p.1 && p.1["chunk_index"].Int?
  }

  function Key(p: Pair): int
    requires HasIndex(p)
  {
    p.1["chunk_index"].i
  }

  predicate AllIndexed(ps: seq<Pair>) {
    forall i :: 0 <= i < |ps| ==> HasIndex(ps[i])
  }

  /** Non-decreasing by key. */
  predicate Sorted(ps: seq<Pair>)
    requires AllIndexed(ps)
  {
    forall i, j :: 0 <= i < j < |ps| ==> Key(ps[i]) <= Key(ps[j])
  }

  /** Strictly increasing by key. */
  predicate StrictlySorted(ps: seq<Pair>)
    requires AllIndexed(ps)
  {
    forall i, j :: 0 <= i < j < |ps| ==> Key(ps[i]) < Key(ps[j])
  }

  /** Put `p` into `ps` after the last element whose key is not larger,
      so that equal keys keep their order (`list.sort` is stable). */
  function Insert(p: Pair, ps: seq<Pair>): (r: seq<Pair>)
    requires HasIndex(p) && AllIndexed(ps)
    ensures multiset(r) == multiset(ps) + multiset{p}
    decreases |ps|
  {
    if ps == [] then [p]
    else
      var last := ps[|ps| - 1];
      if Key(last) <= Key(p) then ps + [p]
      else
        var init := ps[..|ps| - 1];
        assert ps == init + [last];
        Insert(p, init) + [last]
  }

  /** Every element of a list is indexed exactly when every element of its
      multiset is. */
  lemma IndexedElements(ps: seq<Pair>)
    ensures AllIndexed(ps) <==> forall q :: q in multiset(ps) ==> HasIndex(q)
  {
    if forall q :: q in multiset(ps) ==> HasIndex(q) {
      forall i | 0 <= i < |ps| ensures HasIndex(ps[i]) {
        assert ps[i] in multiset(ps);
      }
    }
  }

  /** Appending an element whose key is at least every key keeps a list
      sorted. */
  lemma SortedSnoc(front: seq<Pair>, last: Pair)
    requires AllIndexed(front) && Sorted(front) && HasIndex(last)
    requires forall q :: q in front ==> HasIndex(q) && Key(q) <= Key(last)
    ensures AllIndexed(front + [last]) && Sorted(front + [last])
  {
    var r := front + [last];
    forall i, j | 0 <= i < j < |r| ensures Key(r[i]) <= Key(r[j]) {
      assert r[i] == front[i];
      if j < |front| {
        assert r[j] == front[j];
      } else {
        assert front[i] in front;
      }
    }
  }

  /** Inserting into a sorted list keeps it sorted. */
  lemma {:induction false} InsertSorted(p: Pair, ps: seq<Pair>)
    requires HasIndex(p) && AllIndexed(ps) && Sorted(ps)
    ensures AllIndexed(Insert(p, ps)) && Sorted(Insert(p, ps))
    decreases |ps|
  {
    if ps != [] {
      var last := ps[|ps| - 1];
      var init := ps[..|ps| - 1];
      if Key(p) < Key(last) {
        InsertSorted(p, init);
        InsertBelowLast(p, ps);
      } else {
        forall q | q in ps ensures HasIndex(q) && Key(q) <= Key(p) {
          var i :| 0 <= i < |ps| && ps[i] == q;
        }
        SortedSnoc(ps, p);
      }
    }
  }

  /** The step of `InsertSorted` where `p` goes in front of the last
      element: the last element stays last and bounds the rest. */
  lemma InsertBelowLast(p: Pair, ps: seq<Pair>)
    requires HasIndex(p) && AllIndexed(ps) && Sorted(ps) && ps != []
    requires Key(p) < Key(ps[|ps| - 1])
    requires AllIndexed(Insert(p, ps[..|ps| - 1])) && Sorted(Insert(p, ps[..|ps| - 1]))
    ensures AllIndexed(Insert(p, ps)) && Sorted(Insert(p, ps))
  {
    var last := ps[|ps| - 1];
    var init := ps[..|ps| - 1];
    var front := Insert(p, init);
    assert Insert(p, ps) == front + [last];
    forall q | q in front ensures HasIndex(q) && Key(q) <= Key(last) {
      assert q in multiset(front);
      if q != p {
        var i :| 0 <= i < |init| && init[i] == q;
        assert ps[i] == q;
      }
    }
    SortedSnoc(front, last);
  }

  /** The order `get_full_text` puts the pairs in: a stable sort by chunk
      index. */
  function SortByIndex(ps: seq<Pair>): (r: seq<Pair>)
    requires AllIndexed(ps)
    ensures AllIndexed(r)
    ensures multiset(r) == multiset(ps)
    decreases |ps|
  {
    if ps == [] then []
    else
      var init := ps[..|ps| - 1];
      assert ps == init + [ps[|ps| - 1]];
      var sortedInit := SortByIndex(init);
      var r := Insert(ps[|ps| - 1], sortedInit);
      IndexedElements(ps);
      IndexedElements(r);
      r
  }

  /** The sort's result is ordered by chunk index. */
  lemma {:induction false} SortByIndexSorted(ps: seq<Pair>)
    requires AllIndexed(ps)
    ensures Sorted(SortByIndex(ps))
    decreases |ps|
  {
    if ps != [] {
      var init := ps[..|ps| - 1];
      SortByIndexSorted(init);
      InsertSorted(ps[|ps| - 1], SortByIndex(init));
    }
  }

  /** Why `get_full_text` can fail: a stored chunk without an integer
      `chunk_index` (a `KeyError`, or a value the model does not order). */
  datatype FullTextError = MissingChunkIndex

  function Texts(ps: seq<Pair>): (r: seq<string>)
    ensures |r| == |ps|
  {
    seq(|ps|, i requires 0 <= i < |ps| => ps[i].0)
  }

  /** `get_full_text`, given what the store returns for the document. */
  function FullText(documents: seq<string>, metadatas: seq<Metadata>): Result<string, FullTextError> {
    var paired := Zip(documents, metadatas);
    if AllIndexed(paired) then Ok(Join(Texts(SortByIndex(paired)), "\n\n"))
    else Err(MissingChunkIndex)
  }

  /** No two stored chunks share an index, and none is stored twice. */
  predicate DistinctKeys(m: multiset<Pair>)
  {
    forall p, q :: p in m && q in m && HasIndex(p) && HasIndex(q) && Key(p) == Key(q) ==> p == q && m[p] == 1
  }

  /** An element found at two positions occurs at least twice. */
  lemma TwoPositions(ps: seq<Pair>, i: nat, j: nat)
    requires i < j < |ps| && ps[i] == ps[j]
    ensures multiset(ps)[ps[i]] >= 2
  {
    assert ps == ps[..j] + [ps[j]] + ps[j + 1..];
    assert ps[i] in ps[..j];
  }

  /** A sorted list of chunks with distinct indices is strictly sorted. */
  lemma StrictWhenDistinct(ps: seq<Pair>)
    requires AllIndexed(ps) && Sorted(ps) && DistinctKeys(multiset(ps))
    ensures StrictlySorted(ps)
  {
    forall i, j | 0 <= i < j < |ps|
      ensures Key(ps[i]) < Key(ps[j])
    {
      if Key(ps[i]) == Key(ps[j]) {
        assert ps[i] in multiset(ps) && ps[j] in multiset(ps);
        TwoPositions(ps, i, j);
      }
    }
  }

  /** A sorted list and a strictly sorted list with the same elements end
      with the same element. */
  lemma SameLast(s: seq<Pair>, t: seq<Pair>)
    requires AllIndexed(s) && AllIndexed(t) && Sorted(s) && StrictlySorted(t)
    requires multiset(s) == multiset(t) && s != []
    ensures |s| == |t| && s[|s| - 1] == t[|t| - 1]
  {
    assert |s| == |multiset(s)| == |t|;
    var n := |s| - 1;
    var x := s[n];
    var y := t[n];
    assert x in multiset(t);
    var j :| 0 <= j < |t| && t[j] == x;
    assert y in multiset(s);
    var k :| 0 <= k < |s| && s[k] == y;
    assert Key(y) <= Key(x) <= Key(y);
  }

  /** A prefix of a (strictly) sorted list is (strictly) sorted. */
  lemma SortedPrefix(s: seq<Pair>, n: nat)
    requires AllIndexed(s) && n <= |s|
    ensures AllIndexed(s[..n])
    ensures Sorted(s) ==> Sorted(s[..n])
    ensures StrictlySorted(s) ==> StrictlySorted(s[..n])
  {
    assert forall i :: 0 <= i < n ==> s[..n][i] == s[i];
  }

  lemma MultisetDropLast(s: seq<Pair>, t: seq<Pair>, x: Pair)
    requires multiset(s + [x]) == multiset(t + [x])
    ensures multiset(s) == multiset(t)
  {
    assert multiset(s + [x]) == multiset(s) + multiset{x};
    assert multiset(t + [x]) == multiset(t) + multiset{x};
    assert multiset(s) == multiset(s + [x]) - multiset{x};
  }

  /** A sorted list equals any strictly sorted list with the same elements. */
  lemma {:induction false} SortedUnique(s: seq<Pair>, t: seq<Pair>)
    requires AllIndexed(s) && AllIndexed(t) && Sorted(s) && StrictlySorted(t)
    requires multiset(s) == multiset(t)
    ensures s == t
    decreases |s|
  {
    if s != [] {
      SameLast(s, t);
      var n := |s| - 1;
      var x := s[n];
      assert s == s[..n] + [x] && t == t[..n] + [x];
      MultisetDropLast(s[..n], t[..n], x);
      SortedPrefix(s, n);
      SortedPrefix(t, n);
      SortedUnique(s[..n], t[..n]);
    }
  }

  /** The full text does not depend on the order in which the store returns
      the chunks, as long as their indices are distinct. */
  lemma FullTextOrderIndependent(d1: seq<string>, m1: seq<Metadata>, d2: seq<string>, m2: seq<Metadata>)
    requires multiset(Zip(d1, m1)) == multiset(Zip(d2, m2))
    requires DistinctKeys(multiset(Zip(d1, m1)))
    ensures FullText(d1, m1) == FullText(d2, m2)
  {
    var p1 := Zip(d1, m1);
    var p2 := Zip(d2, m2);
    IndexedElements(p1);
    IndexedElements(p2);
    if AllIndexed(p1) {
      var s1 := SortByIndex(p1);
      var s2 := SortByIndex(p2);
      SortByIndexSorted(p1);
      SortByIndexSorted(p2);
      StrictWhenDistinct(s1);
      SortedUnique(s2, s1);
    }
  }

  /** The stored chunks paired with their metadata. */
  function Pairs(chunks: seq<Chunk>): (r: seq<Pair>)
    ensures |r| == |chunks|
  {
    seq(|chunks|, i requires 0 <= i < |chunks| => (chunks[i].content, chunks[i].metadata))
  }

  function Contents(chunks: seq<Chunk>): (r: seq<string>)
    ensures |r| == |chunks|
  {
    seq(|chunks|, i requires 0 <= i < |chunks| => chunks[i].content)
  }

  /** Reading back what `store_chunks` stored gives the chunk texts in the
      splitter's order, separated by blank lines, whatever order the store
      returns them in. */
  lemma FullTextAfterStore(chunks: seq<Chunk>, docId: string, filename: string,
                           documents: seq<string>, metadatas: seq<Metadata>)
    requires multiset(Zip(documents, metadatas)) == multiset(Pairs(Stamped(chunks, docId, filename)))
    ensures FullText(documents, metadatas) == Ok(Join(Contents(chunks), "\n\n"))
  {
    var stored := Pairs(Stamped(chunks, docId, filename));
    var returned := Zip(documents, metadatas);
    forall i | 0 <= i < |stored|
      ensures HasIndex(stored[i]) && Key(stored[i]) == i
    {
      StampedMetadata(chunks, docId, filename, i);
    }
    assert StrictlySorted(stored);
    forall i | 0 <= i < |returned|
      ensures HasIndex(returned[i])
    {
      assert returned[i] in multiset(stored);
    }
    var sorted := SortByIndex(returned);
    SortByIndexSorted(returned);
    SortedUnique(sorted, stored);
    assert Texts(stored) == Contents(chunks);
  }
}
