/** The modality-ranked retriever: a similarity search over the vector store whose
    results are regrouped so that text comes first, then tables, then OCR text,
    then every other modality in the order it was first met. */
module Retriever {
  import opened Wrappers

  /** Identity of a built vector store; the store itself is outside the model. */
  type StoreHandle = nat

  /** A retrieved document: an identity, its page content, and the `modality`
      entry of its metadata, absent when the metadata has no such key. */
  datatype Doc = Doc(id: nat, content: string, modality: Option<string>)

  /** The retriever `build_retriever` returns: the store it searches, the number of
      neighbours `k` it asks for, and whether it is the reordering `MultiModalRetriever`
      or the plain vector-store retriever. */
  datatype VectorRetriever = VectorRetriever(store: StoreHandle, k: nat, multimodal: bool)

  /** The vector store's similarity query for `k` neighbours (embedding the query,
      then the index search): a list of documents, or the failure of either step.
      Nothing is assumed about the list beyond its order being the search's order;
      in particular the model does not rely on its length or its ranking. */
  type Search = (StoreHandle, string, nat) -> Result<seq<Doc>>

  /** The three modalities emitted first, in this order. */
  const Priority: seq<string> := ["text", "table", "image_ocr"]

  /** `doc.metadata.get("modality", "text")` */
  function ModalityOf(d: Doc): string
  {
    match d.modality
    case None => "text"
    case Some(m) => m
  }

  predicate Distinct(t: seq<string>)
  {
    forall a, b :: 0 <= a < b < |t| ==> t[a] != t[b]
  }

  /** The documents of `s` whose modality is `m`, in their order in `s`. */
  function Group(s: seq<Doc>, m: string): (g: seq<Doc>)
    ensures |g| <= |s|
    ensures forall k :: 0 <= k < |g| ==> ModalityOf(g[k]) == m
  {
    if s == [] then []
    else Group(s[..|s| - 1], m) + (if ModalityOf(s[|s| - 1]) == m then [s[|s| - 1]] else [])
  }

  /** Position of the first document of `s` with modality `m`; `|s|` when there is none. */
  function FirstPos(s: seq<Doc>, m: string): (r: nat)
    ensures r <= |s|
    ensures r < |s| ==> ModalityOf(s[r]) == m
    ensures forall i :: 0 <= i < r ==> ModalityOf(s[i]) != m
  {
    if s == [] then 0 else if ModalityOf(s[0]) == m then 0 else 1 + FirstPos(s[1..], m)
  }

  /** The modalities of `s`, each once, in the order of their first appearance:
      the keys of the `modality_groups` dictionary in insertion order. */
  function Tags(s: seq<Doc>): (t: seq<string>)
    ensures forall i :: 0 <= i < |s| ==> ModalityOf(s[i]) in t
  {
    if s == [] then []
    else
      var t := Tags(s[..|s| - 1]);
      var m := ModalityOf(s[|s| - 1]);
      if m in t then t else t + [m]
  }

  /** The tags of `t` that are not in `Priority`, in order. */
  function Others(t: seq<string>): (o: seq<string>)
    ensures forall m :: m in o <==> m in t && m !in Priority
  {
    if t == [] then []
    else Others(t[..|t| - 1]) + (if t[|t| - 1] in Priority then [] else [t[|t| - 1]])
  }

  /** The order in which the groups are emitted. */
  function TagOrder(s: seq<Doc>): seq<string>
  {
    Priority + Others(Tags(s))
  }

  /** The groups of `s` for the tags `ts`, one after the other. */
  function ConcatGroups(s: seq<Doc>, ts: seq<string>): seq<Doc>
  {
    if ts == [] then [] else ConcatGroups(s, ts[..|ts| - 1]) + Group(s, ts[|ts| - 1])
  }

  /** What `MultiModalRetriever.invoke` returns for the similarity results `s`. */
  function Reordered(s: seq<Doc>): seq<Doc>
  {
    ConcatGroups(s, TagOrder(s))
  }

  /** Position of `m` in `ts`; `|ts|` when absent. */
  function Pos(ts: seq<string>, m: string): (r: nat)
    ensures r <= |ts|
    ensures r < |ts| ==> ts[r] == m
    ensures forall j :: 0 <= j < r ==> ts[j] != m
  {
    if ts == [] then 0 else if ts[0] == m then 0 else 1 + Pos(ts[1..], m)
  }

  /** The place of a modality in the emission order for the results `s`. */
  function Rank(s: seq<Doc>, m: string): nat
  {
    Pos(TagOrder(s), m)
  }

  /** The first loop of `MultiModalRetriever.invoke`: the dictionary from each
      modality to its documents, and its keys in insertion order, which is the
      order a Python dict iterates in. */
  method GroupByModality(results: seq<Doc>) returns (groups: map<string, seq<Doc>>, seen: seq<string>)
    ensures seen == Tags(results)
    ensures forall m :: m in groups <==> m in seen
    ensures forall m :: m in groups ==> groups[m] == Group(results, m)
  {
    groups := map[];
    seen := [];
    for i := 0 to |results|
      invariant seen == Tags(results[..i])
      invariant forall m :: m in groups <==> m in seen
      invariant forall m :: m in groups ==> groups[m] == Group(results[..i], m)
    {
      var d := results[i];
      var m := ModalityOf(d);
      assert results[..i + 1] == results[..i] + [d];
      GroupsStep(groups, results[..i], d);
      if m !in groups {
        seen := seen + [m];
      }
      groups := groups[m := (if m in groups then groups[m] else []) + [d]];
    }
    assert results[..|results|] == results;
  }

  /** The body of `MultiModalRetriever.invoke` after the similarity search. */
  method Reorder(results: seq<Doc>) returns (ordered: seq<Doc>)
    ensures ordered == Reordered(results)
  {
    var groups, seen := GroupByModality(results);
    ordered := [];
    for j := 0 to |Priority|
      invariant ordered == ConcatGroups(results, Priority[..j])
    {
      var m := Priority[j];
      PriorityGroupStep(results, groups, j);
      ordered := ordered + (if m in groups then groups[m] else []);
    }
    assert Priority[..|Priority|] == Priority;
    assert Priority + Others(seen[..0]) == Priority;
    for j := 0 to |seen|
      invariant ordered == ConcatGroups(results, Priority + Others(seen[..j]))
    {
      var m := seen[j];
      OthersGroupStep(results, groups, seen, j);
      if m !in Priority {
        ordered := ordered + groups[m];
      }
    }
    assert seen[..|seen|] == seen;
  }

  /** What the retriever `r` returns for `query`: the search results, reordered when
      `r` is the multimodal retriever; a failing search raises through `invoke`. */
  function Retrieved(r: VectorRetriever, query: string, search: Search): Result<seq<Doc>>
  {
    match search(r.store, query, r.k)
    case Failure(e) => Failure(e)
    case Success(results) => Success(if r.multimodal then Reordered(results) else results)
  }

  /** `retriever.invoke(query)` for either kind of retriever. */
  method RetrieveDocs(r: VectorRetriever, query: string, search: Search) returns (docs: Result<seq<Doc>>)
    ensures docs == Retrieved(r, query, search)
  {
    var found := search(r.store, query, r.k);
    match found
    case Failure(e) =>
      docs := Failure(e);
    case Success(results) =>
      var ordered := results;
      if r.multimodal {
        ordered := Reorder(results);
      }
      docs := Success(ordered);
  }

  /** The `use_multimodal` branch of `build_retriever` over an already built store:
      the retriever asks the store for `topK` neighbours; the plain one returns the
      search's outcome as it is, the multimodal one regroups successful results into a
      permutation of them. */
  function BuildRetriever(store: StoreHandle, topK: nat, useMultimodal: bool): (r: VectorRetriever)
    ensures forall query: string, search: Search :: !useMultimodal ==>
              Retrieved(r, query, search) == search(store, query, topK)
    ensures forall query: string, search: Search :: search(store, query, topK).Failure? ==>
              Retrieved(r, query, search) == search(store, query, topK)
    ensures forall query: string, search: Search :: useMultimodal && search(store, query, topK).Success? ==>
              Retrieved(r, query, search) == Success(Reordered(search(store, query, topK).value))
    ensures forall query: string, search: Search :: search(store, query, topK).Success? ==>
              Retrieved(r, query, search).Success? &&
              multiset(Retrieved(r, query, search).value) == multiset(search(store, query, topK).value)
  {
    var r := VectorRetriever(store, topK, useMultimodal);
    RetrievedPermutes(r);
    r
  }

  // ---------------------------------------------------------------------------
  // Lemmas

  /** A modality no result carries has an empty group. */
  lemma {:induction false} GroupAbsent(s: seq<Doc>, m: string)
    requires m !in Tags(s)
    ensures Group(s, m) == []
  {
    if s != [] {
      SnocStep(s[..|s| - 1], s[|s| - 1]);
      assert s[..|s| - 1] + [s[|s| - 1]] == s;
      GroupAbsent(s[..|s| - 1], m);
    }
  }

  /** Every tag is the modality of some result. */
  lemma {:induction false} TagsOccur(s: seq<Doc>)
    ensures forall m :: m in Tags(s) ==> FirstPos(s, m) < |s|
  {
    if s != [] {
      var p := s[..|s| - 1];
      TagsOccur(p);
      forall x | x in Tags(s) ensures FirstPos(s, x) < |s| {
        if x in Tags(p) {
          var r := FirstPos(p, x);
          assert s[r] == p[r];
        }
      }
    }
  }

  /** Exactly the results of modality `m` are in the group of `m`. */
  lemma {:induction false} GroupMembers(s: seq<Doc>, m: string)
    ensures forall d :: d in Group(s, m) <==> d in s && ModalityOf(d) == m
  {
    if s != [] {
      var p, d := s[..|s| - 1], s[|s| - 1];
      GroupMembers(p, m);
      assert s == p + [d];
    }
  }

  lemma ConcatGroupsStep(s: seq<Doc>, ts: seq<string>, x: string)
    ensures ConcatGroups(s, ts + [x]) == ConcatGroups(s, ts) + Group(s, x)
  {
    assert (ts + [x])[..|ts|] == ts;
  }

  lemma OthersStep(t: seq<string>, x: string)
    ensures Others(t + [x]) == Others(t) + (if x in Priority then [] else [x])
  {
    assert (t + [x])[..|t|] == t;
  }

  /** One pass of the loop over the three named modalities (`modality_groups.get(m, [])`). */
  lemma PriorityGroupStep(results: seq<Doc>, groups: map<string, seq<Doc>>, j: nat)
    requires j < |Priority|
    requires forall m :: m in groups <==> m in Tags(results)
    requires forall m :: m in groups ==> groups[m] == Group(results, m)
    ensures ConcatGroups(results, Priority[..j + 1])
         == ConcatGroups(results, Priority[..j]) + (if Priority[j] in groups then groups[Priority[j]] else [])
  {
    var m := Priority[j];
    assert Priority[..j + 1] == Priority[..j] + [m];
    ConcatGroupsStep(results, Priority[..j], m);
    if m !in groups {
      GroupAbsent(results, m);
    }
  }

  /** One pass of the loop over the dictionary's items, stated against the groups. */
  lemma OthersGroupStep(results: seq<Doc>, groups: map<string, seq<Doc>>, seen: seq<string>, j: nat)
    requires j < |seen|
    requires forall m :: m in groups <==> m in seen
    requires forall m :: m in groups ==> groups[m] == Group(results, m)
    ensures seen[j] in groups
    ensures ConcatGroups(results, Priority + Others(seen[..j + 1]))
         == ConcatGroups(results, Priority + Others(seen[..j])) + (if seen[j] in Priority then [] else groups[seen[j]])
  {
    var m := seen[j];
    assert m in seen;
    assert seen[..j + 1] == seen[..j] + [m];
    OthersStep(seen[..j], m);
    if m !in Priority {
      var ts := Priority + Others(seen[..j]);
      assert ts + [m] == Priority + Others(seen[..j + 1]);
      ConcatGroupsStep(results, ts, m);
    } else {
      assert Others(seen[..j + 1]) == Others(seen[..j]);
    }
  }

  /** Appending one result to the dictionary of groups (`setdefault(...).append`),
      stated against the groups of the results seen so far. */
  lemma GroupsStep(groups: map<string, seq<Doc>>, s: seq<Doc>, d: Doc)
    requires forall m :: m in groups <==> m in Tags(s)
    requires forall m :: m in groups ==> groups[m] == Group(s, m)
    ensures Tags(s + [d]) == if ModalityOf(d) in groups then Tags(s) else Tags(s) + [ModalityOf(d)]
    ensures var m := ModalityOf(d);
            var next := groups[m := (if m in groups then groups[m] else []) + [d]];
            (forall x :: x in next <==> x in Tags(s + [d])) &&
            (forall x :: x in next ==> next[x] == Group(s + [d], x))
  {
    SnocStep(s, d);
    var m := ModalityOf(d);
    if m !in groups {
      GroupAbsent(s, m);
    }
  }

  /** One more result extends its own group and, if its modality is new, the tags. */
  lemma SnocStep(s: seq<Doc>, d: Doc)
    ensures forall m :: Group(s + [d], m) == Group(s, m) + (if ModalityOf(d) == m then [d] else [])
    ensures Tags(s + [d]) == if ModalityOf(d) in Tags(s) then Tags(s) else Tags(s) + [ModalityOf(d)]
  {
    assert (s + [d])[..|s + [d]| - 1] == s;
  }

  /** A result set whose documents all carry modality `m` is its own `m` group. */
  lemma {:induction false} GroupAll(s: seq<Doc>, m: string)
    requires forall i :: 0 <= i < |s| ==> ModalityOf(s[i]) == m
    ensures Group(s, m) == s
  {
    if s != [] {
      GroupAll(s[..|s| - 1], m);
      assert s == s[..|s| - 1] + [s[|s| - 1]];
    }
  }

  lemma {:induction false} GroupAppend(a: seq<Doc>, b: seq<Doc>, m: string)
    ensures Group(a + b, m) == Group(a, m) + Group(b, m)
  {
    if b == [] {
      assert a + b == a;
    } else {
      assert (a + b)[..|a + b| - 1] == a + b[..|b| - 1];
      GroupAppend(a, b[..|b| - 1], m);
    }
  }

  lemma {:induction false} GroupOfGroup(s: seq<Doc>, x: string, m: string)
    ensures Group(Group(s, x), m) == if x == m then Group(s, x) else []
  {
    if s != [] {
      var p, d := s[..|s| - 1], s[|s| - 1];
      var e := if ModalityOf(d) == x then [d] else [];
      assert Group(s, x) == Group(p, x) + e;
      GroupOfGroup(p, x, m);
      GroupAppend(Group(p, x), e, m);
      assert Group(e, m) == if x == m then e else [] by {
        if e != [] {
          assert e[..0] == [];
        }
      }
    }
  }

  lemma {:induction false} GroupOfConcatGroups(s: seq<Doc>, ts: seq<string>, m: string)
    requires Distinct(ts)
    ensures Group(ConcatGroups(s, ts), m) == if m in ts then Group(s, m) else []
  {
    if ts != [] {
      var init, x := ts[..|ts| - 1], ts[|ts| - 1];
      assert Distinct(init);
      GroupOfConcatGroups(s, init, m);
      GroupAppend(ConcatGroups(s, init), Group(s, x), m);
      GroupOfGroup(s, x, m);
      assert m in ts <==> m in init || m == x;
      if m == x {
        assert m !in init;
      }
    }
  }

  lemma {:induction false} ConcatGroupsSnoc(s: seq<Doc>, d: Doc, ts: seq<string>)
    requires Distinct(ts)
    ensures multiset(ConcatGroups(s + [d], ts))
         == multiset(ConcatGroups(s, ts)) + (if ModalityOf(d) in ts then multiset{d} else multiset{})
  {
    if ts != [] {
      var init, x := ts[..|ts| - 1], ts[|ts| - 1];
      assert Distinct(init);
      ConcatGroupsSnoc(s, d, init);
      assert (s + [d])[..|s + [d]| - 1] == s;
      assert ModalityOf(d) in ts <==> ModalityOf(d) in init || ModalityOf(d) == x;
      if ModalityOf(d) == x {
        assert x !in init;
      }
    }
  }

  /** Concatenating the groups of distinct tags that cover every modality of `s`
      rearranges `s` without adding or dropping a document. */
  lemma {:induction false} ConcatGroupsPermutes(s: seq<Doc>, ts: seq<string>)
    requires Distinct(ts)
    requires forall i :: 0 <= i < |s| ==> ModalityOf(s[i]) in ts
    ensures multiset(ConcatGroups(s, ts)) == multiset(s)
  {
    if s == [] {
      ConcatGroupsOfEmpty(ts);
    } else {
      var p, d := s[..|s| - 1], s[|s| - 1];
      ConcatGroupsPermutes(p, ts);
      ConcatGroupsSnoc(p, d, ts);
      assert p + [d] == s;
    }
  }

  /** Over an empty result set every concatenation of groups is empty. */
  lemma {:induction false} ConcatGroupsOfEmpty(ts: seq<string>)
    ensures ConcatGroups([], ts) == []
  {
    if ts != [] {
      ConcatGroupsOfEmpty(ts[..|ts| - 1]);
    }
  }

  lemma {:induction false} OthersOfPriority(t: seq<string>)
    requires forall m :: m in t ==> m in Priority
    ensures Others(t) == []
  {
    if t != [] {
      OthersOfPriority(t[..|t| - 1]);
    }
  }

  lemma {:induction false} OthersDistinct(t: seq<string>)
    requires Distinct(t)
    ensures Distinct(Others(t))
  {
    if t != [] {
      var init := t[..|t| - 1];
      assert Distinct(init);
      OthersDistinct(init);
      assert t[|t| - 1] !in init;
    }
  }

  lemma {:induction false} TagsDistinct(s: seq<Doc>)
    ensures Distinct(Tags(s))
  {
    if s != [] {
      TagsDistinct(s[..|s| - 1]);
    }
  }

  /** The emission order lists every modality of `s` exactly once. */
  lemma TagOrderCovers(s: seq<Doc>)
    ensures Distinct(TagOrder(s))
    ensures forall i :: 0 <= i < |s| ==> ModalityOf(s[i]) in TagOrder(s)
  {
    TagsDistinct(s);
    OthersDistinct(Tags(s));
    var o := Others(Tags(s));
    forall a, b | 0 <= a < b < |TagOrder(s)| ensures TagOrder(s)[a] != TagOrder(s)[b] {
      if b >= 3 {
        assert TagOrder(s)[b] == o[b - 3];
        assert o[b - 3] in o;
        if a >= 3 {
          assert TagOrder(s)[a] == o[a - 3];
        }
      }
    }
    forall i | 0 <= i < |s| ensures ModalityOf(s[i]) in TagOrder(s) {
      var m := ModalityOf(s[i]);
      if m !in Priority {
        assert m in o;
      }
    }
  }

  /** The reordering is a permutation of the similarity results. */
  lemma ReorderedIsPermutation(s: seq<Doc>)
    ensures multiset(Reordered(s)) == multiset(s)
    ensures |Reordered(s)| == |s|
  {
    TagOrderCovers(s);
    ConcatGroupsPermutes(s, TagOrder(s));
    assert |multiset(Reordered(s))| == |multiset(s)|;
  }

  /** Within every modality the results keep their similarity order: filtering the
      output by a modality gives exactly that modality's results, in input order. */
  lemma ReorderedIsStable(s: seq<Doc>)
    ensures forall m :: Group(Reordered(s), m) == Group(s, m)
  {
    TagOrderCovers(s);
    forall m ensures Group(Reordered(s), m) == Group(s, m) {
      GroupOfConcatGroups(s, TagOrder(s), m);
      if m !in TagOrder(s) {
        GroupAbsent(s, m);
      }
    }
  }

  /** A document without a modality entry is emitted with the text documents. */
  lemma UntaggedIsText(s: seq<Doc>, i: nat)
    requires i < |s| && s[i].modality.None?
    ensures s[i] in Group(Reordered(s), "text")
  {
    ReorderedIsStable(s);
    GroupMembers(s, "text");
  }

  lemma PosOfPrefix(init: seq<string>, x: string, m: string)
    requires m in init
    ensures Pos(init + [x], m) == Pos(init, m)
  {
    var r, r' := Pos(init, m), Pos(init + [x], m);
    assert (init + [x])[r] == m;
  }

  lemma PosOfAppended(p: seq<string>, o: seq<string>, m: string)
    requires m !in p
    ensures Pos(p + o, m) == |p| + Pos(o, m)
  {
    assert forall j :: 0 <= j < |p| ==> (p + o)[j] == p[j];
    if Pos(o, m) < |o| {
      assert (p + o)[|p| + Pos(o, m)] == m;
    }
  }

  /** Every document of `c` has one of the tags `ts`. */
  predicate TaggedIn(c: seq<Doc>, ts: seq<string>)
  {
    forall i :: 0 <= i < |c| ==> ModalityOf(c[i]) in ts
  }

  /** Along `c` the position of each document's tag in `ts` never decreases. */
  predicate SortedBy(c: seq<Doc>, ts: seq<string>)
  {
    forall i, j :: 0 <= i < j < |c| ==> Pos(ts, ModalityOf(c[i])) <= Pos(ts, ModalityOf(c[j]))
  }

  lemma SortedAppend(a: seq<Doc>, g: seq<Doc>, ts: seq<string>, v: nat)
    requires SortedBy(a, ts)
    requires forall i :: 0 <= i < |a| ==> Pos(ts, ModalityOf(a[i])) <= v
    requires forall i :: 0 <= i < |g| ==> Pos(ts, ModalityOf(g[i])) == v
    ensures SortedBy(a + g, ts)
  {
    var c := a + g;
    forall i, j | 0 <= i < j < |c| ensures Pos(ts, ModalityOf(c[i])) <= Pos(ts, ModalityOf(c[j])) {
      if j < |a| {
        assert c[i] == a[i] && c[j] == a[j];
      } else if i < |a| {
        assert c[i] == a[i] && c[j] == g[j - |a|];
      } else {
        assert c[i] == g[i - |a|] && c[j] == g[j - |a|];
      }
    }
  }

  lemma TaggedAppend(a: seq<Doc>, g: seq<Doc>, ts: seq<string>, x: string)
    requires ts != [] && TaggedIn(a, ts[..|ts| - 1]) && x == ts[|ts| - 1]
    requires forall i :: 0 <= i < |g| ==> ModalityOf(g[i]) == x
    ensures TaggedIn(a + g, ts)
  {
    var c := a + g;
    forall i | 0 <= i < |c| ensures ModalityOf(c[i]) in ts {
      if i < |a| {
        assert c[i] == a[i];
        assert ModalityOf(a[i]) in ts[..|ts| - 1];
      } else {
        assert c[i] == g[i - |a|];
        assert ts[|ts| - 1] == x;
      }
    }
  }

  /** Appending a new last tag keeps the positions of the documents' tags. */
  lemma SortedExtend(a: seq<Doc>, init: seq<string>, x: string)
    requires Distinct(init + [x])
    requires SortedBy(a, init) && TaggedIn(a, init)
    ensures SortedBy(a, init + [x])
    ensures forall i :: 0 <= i < |a| ==> Pos(init + [x], ModalityOf(a[i])) < |init|
  {
    RanksAfterAppend(init, x);
  }

  /** Along a concatenation of groups of distinct tags, the position of each
      document's tag never decreases. */
  lemma {:induction false} ConcatGroupsRanked(s: seq<Doc>, ts: seq<string>)
    requires Distinct(ts)
    ensures TaggedIn(ConcatGroups(s, ts), ts)
    ensures SortedBy(ConcatGroups(s, ts), ts)
  {
    if ts != [] {
      var init, x := ts[..|ts| - 1], ts[|ts| - 1];
      assert ts == init + [x];
      assert Distinct(init);
      ConcatGroupsRanked(s, init);
      var a, g := ConcatGroups(s, init), Group(s, x);
      RanksAfterAppend(init, x);
      SortedExtend(a, init, x);
      SortedAppend(a, g, ts, |init|);
      TaggedAppend(a, g, ts, x);
    }
  }

  /** Appending a new tag keeps the positions of the old ones and puts it last. */
  lemma RanksAfterAppend(init: seq<string>, x: string)
    requires Distinct(init + [x])
    ensures forall y :: y in init ==> Pos(init + [x], y) == Pos(init, y) < |init|
    ensures Pos(init + [x], x) == |init|
  {
    forall y | y in init ensures Pos(init + [x], y) == Pos(init, y) < |init| {
      PosOfPrefix(init, x, y);
    }
    assert (init + [x])[|init|] == x;
    assert forall j :: 0 <= j < |init| ==> (init + [x])[j] == init[j];
  }

  /** Groups are emitted by rank: no document is followed by one of a lower rank. */
  lemma ReorderedIsRanked(s: seq<Doc>)
    ensures forall i, j :: 0 <= i < j < |Reordered(s)| ==>
              Rank(s, ModalityOf(Reordered(s)[i])) <= Rank(s, ModalityOf(Reordered(s)[j]))
  {
    TagOrderCovers(s);
    ConcatGroupsRanked(s, TagOrder(s));
  }

  predicate ByFirstAppearance(s: seq<Doc>, t: seq<string>)
  {
    forall a, b :: 0 <= a < b < |t| ==> FirstPos(s, t[a]) < FirstPos(s, t[b])
  }

  /** Adding a result moves no earlier first appearance. */
  lemma FirstPosKept(s: seq<Doc>)
    requires s != []
    ensures forall x :: x in Tags(s[..|s| - 1]) ==> FirstPos(s, x) == FirstPos(s[..|s| - 1], x)
  {
    var p := s[..|s| - 1];
    TagsOccur(p);
    forall x | x in Tags(p) ensures FirstPos(s, x) == FirstPos(p, x) {
      FirstPosOfPrefix(s, p, x);
    }
  }

  lemma FirstPosOfPrefix(s: seq<Doc>, p: seq<Doc>, x: string)
    requires p <= s && FirstPos(p, x) < |p|
    ensures FirstPos(s, x) == FirstPos(p, x)
  {
    var r0 := FirstPos(p, x);
    assert s[r0] == p[r0];
    forall i | 0 <= i < r0 ensures ModalityOf(s[i]) != x {
      assert s[i] == p[i];
    }
  }

  /** A modality met for the first time by the last result appears first there. */
  lemma FirstPosNew(s: seq<Doc>)
    requires s != [] && ModalityOf(s[|s| - 1]) !in Tags(s[..|s| - 1])
    ensures FirstPos(s, ModalityOf(s[|s| - 1])) == |s| - 1
  {
    var p := s[..|s| - 1];
    forall i | 0 <= i < |p| ensures ModalityOf(s[i]) != ModalityOf(s[|s| - 1]) {
      assert s[i] == p[i];
    }
  }

  /** Appending a key that appears after all earlier keys keeps the order. */
  lemma ByFirstAppearanceSnoc(s: seq<Doc>, t: seq<string>, x: string)
    requires ByFirstAppearance(s, t)
    requires forall a :: 0 <= a < |t| ==> FirstPos(s, t[a]) < FirstPos(s, x)
    ensures ByFirstAppearance(s, t + [x])
  {
    var t' := t + [x];
    forall a, b | 0 <= a < b < |t'| ensures FirstPos(s, t'[a]) < FirstPos(s, t'[b]) {
      assert t'[a] == t[a];
      if b < |t| {
        assert t'[b] == t[b];
      }
    }
  }

  /** The same keys keep their order when their first appearances do not move. */
  lemma ByFirstAppearanceKept(p: seq<Doc>, s: seq<Doc>, t: seq<string>)
    requires ByFirstAppearance(p, t)
    requires forall x :: x in t ==> FirstPos(s, x) == FirstPos(p, x)
    ensures ByFirstAppearance(s, t)
  {
    forall a, b | 0 <= a < b < |t| ensures FirstPos(s, t[a]) < FirstPos(s, t[b]) {
      assert t[a] in t && t[b] in t;
    }
  }

  lemma {:induction false} TagsByFirstAppearance(s: seq<Doc>)
    ensures ByFirstAppearance(s, Tags(s))
  {
    if s != [] {
      var p, d := s[..|s| - 1], s[|s| - 1];
      TagsByFirstAppearance(p);
      TagsOccur(p);
      FirstPosKept(s);
      var t := Tags(p);
      ByFirstAppearanceKept(p, s, t);
      if ModalityOf(d) !in t {
        FirstPosNew(s);
        forall a | 0 <= a < |t| ensures FirstPos(s, t[a]) < FirstPos(s, ModalityOf(d)) {
          assert t[a] in t;
        }
        ByFirstAppearanceSnoc(s, t, ModalityOf(d));
      }
    }
  }

  lemma {:induction false} OthersByFirstAppearance(s: seq<Doc>, t: seq<string>)
    requires ByFirstAppearance(s, t)
    ensures ByFirstAppearance(s, Others(t))
  {
    if t != [] {
      var init, x := t[..|t| - 1], t[|t| - 1];
      assert ByFirstAppearance(s, init);
      OthersByFirstAppearance(s, init);
      var o := Others(init);
      if x !in Priority {
        var o' := o + [x];
        forall a, b | 0 <= a < b < |o'| ensures FirstPos(s, o'[a]) < FirstPos(s, o'[b]) {
          assert o'[a] == o[a];
          if b < |o| {
            assert o'[b] == o[b];
          } else {
            assert o[a] in o;
            var k :| 0 <= k < |init| && init[k] == o[a];
            assert t[k] == o[a] && t[|t| - 1] == x;
          }
        }
      }
    }
  }

  /** The ranks: text 0, table 1, image_ocr 2, and every other modality of the
      results after those, ordered by where it first appears in the results. */
  lemma RankOrder(s: seq<Doc>)
    ensures Rank(s, "text") == 0 && Rank(s, "table") == 1 && Rank(s, "image_ocr") == 2
    ensures forall m :: m in Tags(s) && m !in Priority ==> 3 <= Rank(s, m) < |TagOrder(s)|
    ensures forall a, b :: a in Tags(s) && a !in Priority && b in Tags(s) && b !in Priority ==>
              (Rank(s, a) < Rank(s, b) <==> FirstPos(s, a) < FirstPos(s, b))
  {
    RankOfNamed(s);
    RankOfOthers(s);
    forall a, b | a in Tags(s) && a !in Priority && b in Tags(s) && b !in Priority
      ensures Rank(s, a) < Rank(s, b) <==> FirstPos(s, a) < FirstPos(s, b)
    {
      OtherRanksByFirstPos(s, a, b);
    }
  }

  lemma OtherRanksByFirstPos(s: seq<Doc>, a: string, b: string)
    requires a in Tags(s) && a !in Priority && b in Tags(s) && b !in Priority
    ensures Rank(s, a) < Rank(s, b) <==> FirstPos(s, a) < FirstPos(s, b)
  {
    var o := Others(Tags(s));
    assert a in o && b in o;
    PosOfAppended(Priority, o, a);
    PosOfAppended(Priority, o, b);
    var pa, pb := Pos(o, a), Pos(o, b);
    assert o[pa] == a && o[pb] == b;
    TagsByFirstAppearance(s);
    OthersByFirstAppearance(s, Tags(s));
    if pa < pb {
      assert FirstPos(s, o[pa]) < FirstPos(s, o[pb]);
    } else if pb < pa {
      assert FirstPos(s, o[pb]) < FirstPos(s, o[pa]);
    }
  }

  lemma RankOfNamed(s: seq<Doc>)
    ensures Rank(s, "text") == 0 && Rank(s, "table") == 1 && Rank(s, "image_ocr") == 2
  {
    var ts := TagOrder(s);
    assert ts[0] == "text" && ts[1] == "table" && ts[2] == "image_ocr";
  }

  lemma RankOfOthers(s: seq<Doc>)
    ensures forall m :: m in Tags(s) && m !in Priority ==> Rank(s, m) == 3 + Pos(Others(Tags(s)), m)
    ensures forall m :: m in Tags(s) && m !in Priority ==> Pos(Others(Tags(s)), m) < |Others(Tags(s))|
  {
    var o := Others(Tags(s));
    forall m | m in Tags(s) && m !in Priority ensures Rank(s, m) == 3 + Pos(o, m) && Pos(o, m) < |o| {
      PosOfAppended(Priority, o, m);
      assert m in o;
    }
  }

  /** The rank of a listed modality locates it in the emission order, and the first
      three ranks are exactly the three named modalities. */
  lemma RankOfMember(s: seq<Doc>, m: string)
    requires m in TagOrder(s)
    ensures Rank(s, m) < |TagOrder(s)| && TagOrder(s)[Rank(s, m)] == m
    ensures m == "text" <==> Rank(s, m) == 0
    ensures m == "table" <==> Rank(s, m) == 1
    ensures m == "image_ocr" <==> Rank(s, m) == 2
    ensures m in Priority <==> Rank(s, m) < 3
  {
    var ts := TagOrder(s);
    var k :| 0 <= k < |ts| && ts[k] == m;
    var r := Rank(s, m);
    assert r <= k;
    RankOfNamed(s);
    assert ts[0] == "text" && ts[1] == "table" && ts[2] == "image_ocr";
    if r >= 3 {
      assert ts[r] == Others(Tags(s))[r - 3];
    }
  }

  /** Group precedence in the output: nothing comes before a text document but
      text, nothing before a table document but text or tables, nothing before an
      image_ocr document but the three named modalities, and after a document of
      any other modality there is no document of the three. */
  lemma ModalityPrecedence(s: seq<Doc>)
    ensures var out := Reordered(s);
            forall i, j :: 0 <= i < j < |out| ==>
              (ModalityOf(out[j]) == "text" ==> ModalityOf(out[i]) == "text") &&
              (ModalityOf(out[j]) == "table" ==> ModalityOf(out[i]) == "text" || ModalityOf(out[i]) == "table") &&
              (ModalityOf(out[j]) == "image_ocr" ==> ModalityOf(out[i]) in Priority) &&
              (ModalityOf(out[i]) !in Priority ==> ModalityOf(out[j]) !in Priority)
  {
    var out := Reordered(s);
    ReorderedIsRanked(s);
    ReorderedIsPermutation(s);
    TagOrderCovers(s);
    forall i | 0 <= i < |out| ensures ModalityOf(out[i]) in TagOrder(s) {
      assert out[i] in multiset(s);
      var k :| 0 <= k < |s| && s[k] == out[i];
    }
    forall i | 0 <= i < |out| {
      RankOfMember(s, ModalityOf(out[i]));
    }
  }

  /** Only `text` is a key when every result is a text document. */
  lemma TagsAllText(s: seq<Doc>)
    requires forall i :: 0 <= i < |s| ==> ModalityOf(s[i]) == "text"
    ensures forall m :: m in Tags(s) ==> m == "text"
  {
    TagsOccur(s);
    forall m | m in Tags(s) ensures m == "text" {
      assert ModalityOf(s[FirstPos(s, m)]) == m;
    }
  }

  lemma {:induction false} ConcatGroupsNone(s: seq<Doc>, ts: seq<string>)
    requires forall k :: 0 <= k < |ts| ==> Group(s, ts[k]) == []
    ensures ConcatGroups(s, ts) == []
    decreases |ts|
  {
    if ts != [] {
      ConcatGroupsNone(s, ts[..|ts| - 1]);
    }
  }

  /** When only the group of `ts[i]` is non-empty, emitting `ts` gives that group. */
  lemma {:induction false} ConcatGroupsOnly(s: seq<Doc>, ts: seq<string>, i: nat)
    requires i < |ts|
    requires forall k :: 0 <= k < |ts| && k != i ==> Group(s, ts[k]) == []
    ensures ConcatGroups(s, ts) == Group(s, ts[i])
    decreases |ts|
  {
    var init := ts[..|ts| - 1];
    if i == |ts| - 1 {
      ConcatGroupsNone(s, init);
    } else {
      ConcatGroupsOnly(s, init, i);
    }
  }

  /** When every result is a text document the order is left exactly as it was. */
  lemma AllTextUnchanged(s: seq<Doc>)
    requires forall i :: 0 <= i < |s| ==> ModalityOf(s[i]) == "text"
    ensures Reordered(s) == s
  {
    TagsAllText(s);
    OthersOfPriority(Tags(s));
    assert TagOrder(s) == Priority;
    GroupAll(s, "text");
    GroupAbsent(s, "table");
    GroupAbsent(s, "image_ocr");
    ConcatGroupsOnly(s, Priority, 0);
  }

  /** The plain retriever hands the similarity results through untouched; the
      multimodal one returns a permutation of them. */
  lemma RetrievedFromSearch(r: VectorRetriever, query: string, search: Search)
    ensures Retrieved(r, query, search).Failure? <==> search(r.store, query, r.k).Failure?
    ensures Retrieved(r, query, search).Failure? ==> Retrieved(r, query, search) == search(r.store, query, r.k)
    ensures !r.multimodal ==> Retrieved(r, query, search) == search(r.store, query, r.k)
    ensures Retrieved(r, query, search).Success? ==>
              multiset(Retrieved(r, query, search).value) == multiset(search(r.store, query, r.k).value)
  {
    if search(r.store, query, r.k).Success? {
      ReorderedIsPermutation(search(r.store, query, r.k).value);
    }
  }

  /** Every query of a retriever gives a permutation of a successful search. */
  lemma RetrievedPermutes(r: VectorRetriever)
    ensures forall query: string, search: Search :: search(r.store, query, r.k).Success? ==>
              Retrieved(r, query, search).Success? &&
              multiset(Retrieved(r, query, search).value) == multiset(search(r.store, query, r.k).value)
  {
    forall query: string, search: Search | search(r.store, query, r.k).Success?
      ensures Retrieved(r, query, search).Success? &&
              multiset(Retrieved(r, query, search).value) == multiset(search(r.store, query, r.k).value)
    {
      RetrievedFromSearch(r, query, search);
    }
  }
}
