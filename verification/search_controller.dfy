/** `searchNovels`: the blank-query short cut and the merge of the novels
    that match directly with the novels of matching authors. The two
    database queries are inputs. */
module SearchController {
  import opened Wrappers
  import opened JsText
  import opened Documents
  import N = NovelModel

  /** A novel returned by a query, with its identifier. */
  datatype Hit = Hit(id: NovelId, novel: N.Novel)

  function Ids(hits: seq<Hit>): set<NovelId> {
    set k | 0 <= k < |hits| :: hits[k].id
  }

  predicate DistinctIds(hits: seq<Hit>) {
    forall a, b :: 0 <= a < b < |hits| ==> hits[a].id != hits[b].id
  }

  /** `xs` can be obtained from `ys` by deleting elements. */
  predicate Subsequence(xs: seq<Hit>, ys: seq<Hit>)
    decreases |ys|
  {
    || xs == []
    || (ys != [] && ((xs[0] == ys[0] && Subsequence(xs[1..], ys[1..])) || Subsequence(xs, ys[1..])))
  }

  /** The `forEach` that appends each by-author novel unless a novel with
      its id is already in the result. */
  function MergeByAuthor(acc: seq<Hit>, byAuthor: seq<Hit>): (r: seq<Hit>)
    ensures |acc| <= |r| <= |acc| + |byAuthor|
    ensures r[..|acc|] == acc
    ensures Ids(r) == Ids(acc) + Ids(byAuthor)
    ensures forall k :: |acc| <= k < |r| ==> r[k].id !in Ids(acc)
    ensures DistinctIds(acc) ==> DistinctIds(r)
    decreases |byAuthor|
  {
    if byAuthor == [] then acc
    else
      var h := byAuthor[0];
      var next := if h.id in Ids(acc) then acc else acc + [h];
      IdsSnoc(acc, h);
      IdsCons(byAuthor);
      assert Ids(next) == Ids(acc) + {h.id};
      var r := MergeByAuthor(next, byAuthor[1..]);
      assert r[..|acc|] == next[..|acc|];
      assert r[..|next|] == next;
      assert forall k :: |acc| <= k < |r| ==> r[k].id !in Ids(acc) by {
        forall k | |acc| <= k < |r| ensures r[k].id !in Ids(acc) {
          if k < |next| {
            assert r[k] == next[k] == h;
          }
        }
      }
      r
  }

  lemma IdsSnoc(acc: seq<Hit>, h: Hit)
    ensures Ids(acc + [h]) == Ids(acc) + {h.id}
    ensures h.id !in Ids(acc) && DistinctIds(acc) ==> DistinctIds(acc + [h])
  {
    var next := acc + [h];
    assert next[|acc|] == h;
    assert forall k :: 0 <= k < |acc| ==> next[k] == acc[k];
  }

  lemma IdsCons(hits: seq<Hit>)
    requires hits != []
    ensures Ids(hits) == {hits[0].id} + Ids(hits[1..])
  {
    assert forall k :: 1 <= k < |hits| ==> hits[1..][k - 1] == hits[k];
  }

  /** The merge appends by-author novels in their original order, each one a
      novel of that list. */
  lemma {:induction false} MergeKeepsOrder(acc: seq<Hit>, byAuthor: seq<Hit>)
    ensures Subsequence(MergeByAuthor(acc, byAuthor)[|acc|..], byAuthor)
    decreases |byAuthor|
  {
    if byAuthor != [] {
      var h := byAuthor[0];
      var r := MergeByAuthor(acc, byAuthor);
      var xs := r[|acc|..];
      if h.id in Ids(acc) {
        assert r == MergeByAuthor(acc, byAuthor[1..]);
        MergeKeepsOrder(acc, byAuthor[1..]);
        assert xs == [] || Subsequence(xs, byAuthor[1..]);
      } else {
        var next := acc + [h];
        assert r == MergeByAuthor(next, byAuthor[1..]);
        MergeKeepsOrder(next, byAuthor[1..]);
        assert xs[0] == h == byAuthor[0];
        assert xs[1..] == r[|next|..];
        assert Subsequence(xs[1..], byAuthor[1..]);
      }
    }
  }

  /** `searchNovels(q)` given the direct matches and the novels of matching
      authors: a missing or blank query answers the empty list. */
  function SearchNovels(q: Option<string>, matches: seq<Hit>, byAuthor: seq<Hit>): (r: seq<Hit>)
    ensures q.None? || Trim(q.value) == "" ==> r == []
    ensures q.Some? && Trim(q.value) != "" ==>
              && |r| >= |matches| && r[..|matches|] == matches
              && Ids(r) == Ids(matches) + Ids(byAuthor)
              && |r| <= |matches| + |byAuthor|
              && (forall k :: |matches| <= k < |r| ==> r[k].id !in Ids(matches))
              && (DistinctIds(matches) ==> DistinctIds(r))
  {
    if q.None? || q.value == "" || Trim(q.value) == "" then []
    else MergeByAuthor(matches, byAuthor)
  }
}
