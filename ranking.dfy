/** The one-call selection of `filter_and_enrich.py`: the language model
    returns ranked items, and `filter_and_enrich_papers_with_gemini`
    reconciles them with the canonical paper list, enriches the matches in
    place, orders them by returned position and truncates. The model's reply
    is an input. */
module Ranking {
  import opened Common
  import opened Records
  import opened LinkExtractor
  import opened StableSort

  /** One object of the returned JSON list; a field is `None` when the
      object lacks that key. */
  datatype RankItem = RankItem(id: Option<string>, summary: Option<string>, starRating: Option<string>)

  /** What `json.loads(response.text)` produced. A JSON array of objects,
      an empty object or an empty string iterate as `items`; every other
      value makes `item['id']` raise, as does a failed request or parse. */
  datatype RankReply = RankFailed | RankItems(items: seq<RankItem>)

  const NoSummary := "No summary available."
  const NoRating := "\U{2606}\U{2606}\U{2606}\U{2606}\U{2606}"
  /** The default of `sort_order.get(x['id'], 999)`. */
  const MissingRank := 999

  /** Building `enrichment_map` raises unless every item has an `id`. */
  predicate AllIdentified(items: seq<RankItem>)
  {
    forall k :: 0 <= k < |items| ==> items[k].id.Some?
  }

  /** `{item['id']: item for item in results}`: a later item replaces an
      earlier one with the same id. */
  function Lookup(items: seq<RankItem>): map<string, RankItem>
    requires AllIdentified(items)
  {
    if items == [] then map[]
    else
      var last := items[|items| - 1];
      Lookup(items[..|items| - 1])[last.id.value := last]
  }

  /** `{item['id']: index for index, item in enumerate(results)}`. */
  function Positions(items: seq<RankItem>): map<string, int>
    requires AllIdentified(items)
  {
    if items == [] then map[]
    else
      var last := items[|items| - 1];
      Positions(items[..|items| - 1])[last.id.value := |items| - 1]
  }

  /** `items[k]` is the last item with this id. */
  predicate LastWithId(items: seq<RankItem>, id: string, k: int)
  {
    0 <= k < |items| && items[k].id == Some(id) &&
    forall j :: k < j < |items| ==> items[j].id != Some(id)
  }

  /** Both dictionaries have a key for each returned id and no other, and
      both take the LAST item carrying it: its payload and its position. */
  lemma {:induction false} LaterItemWins(items: seq<RankItem>, id: string)
    requires AllIdentified(items)
    ensures id in Lookup(items) <==> exists k :: 0 <= k < |items| && items[k].id == Some(id)
    ensures id in Positions(items) <==> id in Lookup(items)
    ensures id in Lookup(items) ==>
      LastWithId(items, id, Positions(items)[id]) && Lookup(items)[id] == items[Positions(items)[id]]
  {
    if items != [] {
      var n := |items| - 1;
      var init := items[..n];
      assert forall k :: 0 <= k < n ==> init[k] == items[k];
      LaterItemWins(init, id);
      if items[n].id != Some(id) && id in Lookup(init) {
        var k := Positions(init)[id];
        assert LastWithId(init, id, k);
        assert items[k] == init[k];
      }
    }
  }

  /** The reconciliation key of `final_papers.sort`. */
  function SortKey(order: map<string, int>): Paper -> int
  {
    (p: Paper) => if p.id in order then order[p.id] else MissingRank
  }

  /** `data.get(key, default)`. */
  function FieldOr(field: Option<string>, default: string): string
  {
    match field
    case Some(v) => v
    case None => default
  }

  /** The enrichment of one matched paper, with the link `link` found in it. */
  function Enrich(p: Paper, data: RankItem, link: Option<string>): Paper
  {
    p.(aiSummary := Some(FieldOr(data.summary, NoSummary)),
       starRating := Some(FieldOr(data.starRating, NoRating)),
       projectUrl := Some(link))
  }

  /** A paper after the loop: enriched when its id was returned. */
  function Updated(p: Paper, lookup: map<string, RankItem>, link: Paper -> Option<string>): Paper
  {
    if p.id in lookup then Enrich(p, lookup[p.id], link(p)) else p
  }

  /** `final_papers` after the loop: the matched papers, enriched, in input
      order. */
  function Matched(papers: seq<Paper>, lookup: map<string, RankItem>, link: Paper -> Option<string>): seq<Paper>
  {
    if papers == [] then []
    else
      var n := |papers| - 1;
      var init := Matched(papers[..n], lookup, link);
      if papers[n].id in lookup then init + [Updated(papers[n], lookup, link)] else init
  }

  /** `extract_project_url` of the abstract, else of the comment. */
  function RankingLink(p: Paper): Option<string>
  {
    ProjectUrlFor(EnrichPattern, p)
  }

  /** The sorted list before truncation. */
  function Ranked(papers: seq<Paper>, items: seq<RankItem>): seq<Paper>
    requires AllIdentified(items)
  {
    SortBy(Matched(papers, Lookup(items), RankingLink), SortKey(Positions(items)))
  }

  /** The loop of lines 126-140: enrich each matched paper in place and
      append it to `final_papers`. */
  method EnrichMatches(a: array<Paper>, lookup: map<string, RankItem>, link: Paper -> Option<string>)
    returns (final: seq<Paper>)
    modifies a
    ensures forall i :: 0 <= i < a.Length ==> a[i] == Updated(old(a[i]), lookup, link)
    ensures final == Matched(old(a[..]), lookup, link)
  {
    ghost var orig := a[..];
    final := [];
    for i := 0 to a.Length
      invariant forall j :: 0 <= j < i ==> a[j] == Updated(orig[j], lookup, link)
      invariant forall j :: i <= j < a.Length ==> a[j] == orig[j]
      invariant final == Matched(orig[..i], lookup, link)
    {
      assert orig[..i + 1][..i] == orig[..i];
      if a[i].id in lookup {
        var data := lookup[a[i].id];
        a[i] := Enrich(a[i], data, link(a[i]));
        final := final + [a[i]];
      }
    }
    assert orig[..a.Length] == orig;
  }

  /** `filter_and_enrich_papers_with_gemini(papers, ..., limit)["papers"]`. */
  method FilterAndEnrich(a: array<Paper>, reply: RankReply, limit: int) returns (r: seq<Paper>)
    modifies a
    ensures (reply.RankFailed? || !AllIdentified(reply.items)) ==>
      r == PyTake(old(a[..]), limit) && a[..] == old(a[..])
    ensures reply.RankItems? && AllIdentified(reply.items) ==>
      r == PyTake(Ranked(old(a[..]), reply.items), limit) &&
      forall i :: 0 <= i < a.Length ==> a[i] == Updated(old(a[i]), Lookup(reply.items), RankingLink)
  {
    if reply.RankFailed? || !AllIdentified(reply.items) {
      r := PyTake(a[..], limit);
      return;
    }
    var items := reply.items;
    var lookup := Lookup(items);
    var final := EnrichMatches(a, lookup, RankingLink);
    var order := Positions(items);
    final := SortBy(final, SortKey(order));
    r := PyTake(final, limit);
  }

  // ---------------------------------------------------------------------
  // What the reconciliation promises
  // ---------------------------------------------------------------------

  /** Every paper of `Matched` is an input paper whose id was returned,
      enriched with that id's payload, and `Matched` holds one per such
      input paper. */
  lemma {:induction false} MatchedMembers(papers: seq<Paper>, lookup: map<string, RankItem>,
                                          link: Paper -> Option<string>, q: Paper)
    requires q in Matched(papers, lookup, link)
    ensures q.id in lookup
    ensures exists p :: p in papers && p.id == q.id && q == Enrich(p, lookup[p.id], link(p))
  {
    var n := |papers| - 1;
    var init := Matched(papers[..n], lookup, link);
    if q in init {
      MatchedMembers(papers[..n], lookup, link, q);
      var p :| p in papers[..n] && p.id == q.id && q == Enrich(p, lookup[p.id], link(p));
      assert p in papers;
    } else {
      assert papers[n] in papers;
    }
  }

  /** An input paper whose id was returned reaches `Matched`. */
  lemma {:induction false} MatchedComplete(papers: seq<Paper>, lookup: map<string, RankItem>,
                                           link: Paper -> Option<string>, k: nat)
    requires k < |papers| && papers[k].id in lookup
    ensures Updated(papers[k], lookup, link) in Matched(papers, lookup, link)
  {
    var n := |papers| - 1;
    if k < n {
      assert papers[..n][k] == papers[k];
      MatchedComplete(papers[..n], lookup, link, k);
    }
  }

  /** `Matched` has exactly as many papers as the input has papers with a
      returned id. */
  lemma {:induction false} MatchedLength(papers: seq<Paper>, lookup: map<string, RankItem>,
                                         link: Paper -> Option<string>)
    ensures |Matched(papers, lookup, link)| == CountReturned(papers, lookup)
  {
    if papers != [] {
      MatchedLength(papers[..|papers| - 1], lookup, link);
    }
  }

  /** The number of input papers whose id was returned. */
  function CountReturned(papers: seq<Paper>, lookup: map<string, RankItem>): nat
  {
    if papers == [] then 0
    else CountReturned(papers[..|papers| - 1], lookup) + (if papers[|papers| - 1].id in lookup then 1 else 0)
  }

  /** Each output paper comes from an input paper whose id occurs among the
      returned items; it carries the payload of the LAST item with that id,
      with the defaults for missing fields, and the locally extracted link. */
  lemma RankedPaperFromLastItem(papers: seq<Paper>, items: seq<RankItem>, q: Paper)
    requires AllIdentified(items) && q in Ranked(papers, items)
    ensures exists p :: p in papers && p.id == q.id
    ensures q.id in Positions(items) && LastWithId(items, q.id, Positions(items)[q.id])
    ensures var data := items[Positions(items)[q.id]];
      q.aiSummary == Some(FieldOr(data.summary, NoSummary)) &&
      q.starRating == Some(FieldOr(data.starRating, NoRating)) &&
      q.projectUrl == Some(ProjectUrlFor(EnrichPattern, q))
  {
    var lookup := Lookup(items);
    var matched := Matched(papers, lookup, RankingLink);
    assert q in multiset(matched);
    MatchedMembers(papers, lookup, RankingLink, q);
    LaterItemWins(items, q.id);
    var p :| p in papers && p.id == q.id && q == Enrich(p, lookup[p.id], RankingLink(p));
    EnrichKeepsLinkText(p, lookup[p.id], RankingLink(p));
  }

  /** Enrichment touches none of the fields the link is read from. */
  lemma EnrichKeepsLinkText(p: Paper, data: RankItem, link: Option<string>)
    ensures ProjectUrlFor(EnrichPattern, Enrich(p, data, link)) == ProjectUrlFor(EnrichPattern, p)
  {
    var q := Enrich(p, data, link);
    assert q.abstractText == p.abstractText && q.comment == p.comment;
  }

  /** An input paper whose id was not returned has no output paper. */
  lemma UnreturnedPaperDropped(papers: seq<Paper>, items: seq<RankItem>, p: Paper)
    requires AllIdentified(items) && p in papers
    requires forall k :: 0 <= k < |items| ==> items[k].id != Some(p.id)
    ensures forall q :: q in Ranked(papers, items) ==> q.id != p.id
  {
    forall q | q in Ranked(papers, items) ensures q.id != p.id {
      RankedPaperFromLastItem(papers, items, q);
      LaterItemWins(items, q.id);
    }
  }

  /** The output is a permutation of the matched papers ordered by
      returned position, and papers at the same position (input papers
      sharing an id) keep their input order. */
  lemma RankedOrder(papers: seq<Paper>, items: seq<RankItem>, k: int)
    requires AllIdentified(items)
    ensures var key := SortKey(Positions(items));
      var matched := Matched(papers, Lookup(items), RankingLink);
      SortedBy(Ranked(papers, items), key) &&
      multiset(Ranked(papers, items)) == multiset(matched) &&
      WithKey(Ranked(papers, items), key, k) == WithKey(matched, key, k)
  {
    SortByStable(Matched(papers, Lookup(items), RankingLink), SortKey(Positions(items)), k);
  }

  /** ... and it is the only arrangement with those two properties. */
  lemma RankedOrderUnique(papers: seq<Paper>, items: seq<RankItem>, s: seq<Paper>)
    requires AllIdentified(items)
    requires var key := SortKey(Positions(items));
      SortedBy(s, key) &&
      forall k :: WithKey(s, key, k) == WithKey(Matched(papers, Lookup(items), RankingLink), key, k)
    ensures s == Ranked(papers, items)
  {
    StableSortIsSortBy(Matched(papers, Lookup(items), RankingLink), s, SortKey(Positions(items)));
  }

  /** The default position 999 is never used: every sorted paper's id is a
      key of `sort_order`. */
  lemma RankedKeysAreReturnedPositions(papers: seq<Paper>, items: seq<RankItem>, q: Paper)
    requires AllIdentified(items) && q in Ranked(papers, items)
    ensures q.id in Positions(items) && SortKey(Positions(items))(q) == Positions(items)[q.id] < |items|
  {
    RankedPaperFromLastItem(papers, items, q);
  }

  /** At most `limit` papers, and at most as many as input papers matched. */
  lemma RankedLength(papers: seq<Paper>, items: seq<RankItem>, limit: int)
    requires AllIdentified(items)
    ensures var r := PyTake(Ranked(papers, items), limit);
      (limit >= 0 ==> |r| <= limit) && |r| <= CountReturned(papers, Lookup(items)) <= |papers|
  {
    var matched := Matched(papers, Lookup(items), RankingLink);
    MatchedLength(papers, Lookup(items), RankingLink);
    assert |multiset(Ranked(papers, items))| == |multiset(matched)|;
    CountReturnedBound(papers, Lookup(items));
  }

  lemma {:induction false} CountReturnedBound(papers: seq<Paper>, lookup: map<string, RankItem>)
    ensures CountReturned(papers, lookup) <= |papers|
  {
    if papers != [] {
      CountReturnedBound(papers[..|papers| - 1], lookup);
    }
  }
}
