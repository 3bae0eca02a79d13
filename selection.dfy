/** The two-step selection of `filter.py`: `filter_papers` keeps the papers
    whose id the language model returned, and `enrich_with_summaries`
    attaches a project link and the returned summary to each of them. The
    model's replies are inputs. */
module Selection {
  import opened Common
  import opened Records
  import opened LinkExtractor

  // ---------------------------------------------------------------------
  // filter_papers
  // ---------------------------------------------------------------------

  /** What `json.loads(response.text)` produced for the selection request. */
  datatype IdsReply =
    | IdsFailed                  // the request or the parse raised
    | IdList(ids: seq<string>)   // a JSON array, or an object (then its keys)
    | IdText(text: string)       // a JSON string: `in` tests for a substring
    | IdScalar                   // a number, boolean or null: `in` raises

  predicate Parsed(reply: IdsReply)
  {
    reply.IdList? || reply.IdText?
  }

  /** `id in selected_ids` for a reply that supports `in`. */
  predicate Selects(reply: IdsReply, id: string)
    requires Parsed(reply)
  {
    match reply
    case IdList(ids) => id in ids
    case IdText(text) => Contains(text, id)
  }

  /** The prompt `filter_papers` returns: the interests, the limit and the
      one-line-per-paper listing it embeds in its fixed instructions. */
  datatype Prompt = NoPrompt | SelectionPrompt(interests: string, limit: int, listing: string)

  datatype Selection = Selection(papers: seq<Paper>, prompt: Prompt)

  /** The number of papers kept on any failure of the request. */
  const FallbackCount := 5

  function ListingLine(p: Paper): string
  {
    "ID: " + p.id + " | Title: " + p.title
  }

  function Listing(papers: seq<Paper>): string
  {
    Join("\n", seq(|papers|, i requires 0 <= i < |papers| => ListingLine(papers[i])))
  }

  /** The comprehension `[p for p in papers if p['id'] in selected_ids]`. */
  function Keep(papers: seq<Paper>, reply: IdsReply): seq<Paper>
    requires Parsed(reply)
  {
    Filter(papers, (p: Paper) => Selects(reply, p.id))
  }

  /** `filter_papers(papers, user_interests, api_key, limit)`. */
  function FilterPapers(papers: seq<Paper>, interests: string, reply: IdsReply, limit: int): (r: Selection)
    ensures papers == [] ==> r == Selection([], NoPrompt)
    ensures papers != [] ==> r.prompt == SelectionPrompt(interests, limit, Listing(papers))
  {
    if papers == [] then Selection([], NoPrompt)
    else
      var prompt := SelectionPrompt(interests, limit, Listing(papers));
      if Parsed(reply) then Selection(PyTake(Keep(papers, reply), limit), prompt)
      else Selection(PyTake(papers, FallbackCount), prompt)
  }

  /** Whatever the reply, the selection is an input-order subsequence of the
      papers. */
  lemma FilterPapersIsSubsequence(papers: seq<Paper>, interests: string, reply: IdsReply, limit: int)
    ensures IsSubseq(FilterPapers(papers, interests, reply, limit).papers, papers)
  {
    if papers == [] {
    } else if Parsed(reply) {
      var kept := Keep(papers, reply);
      PrefixOfSubseq(kept, papers, |PyTake(kept, limit)|);
    } else {
      SubseqReflexive(papers);
      PrefixOfSubseq(papers, papers, |PyTake(papers, FallbackCount)|);
    }
  }

  lemma {:induction false} SubseqReflexive<T>(s: seq<T>)
    ensures IsSubseq(s, s)
  {
    if s != [] {
      SubseqReflexive(s[1..]);
    }
  }

  /** A parsed reply keeps only papers whose id it returned, at most `limit`
      of them, and every returned paper when they fit in `limit`. */
  lemma FilterPapersKeepsReturnedIds(papers: seq<Paper>, interests: string, reply: IdsReply, limit: int)
    requires Parsed(reply)
    ensures var r := FilterPapers(papers, interests, reply, limit).papers;
      (forall p :: p in r ==> p in papers && Selects(reply, p.id)) &&
      (limit >= 0 ==> |r| <= limit) &&
      (|Keep(papers, reply)| <= limit ==> forall p :: p in papers && Selects(reply, p.id) ==> p in r) &&
      r == PyTake(Keep(papers, reply), limit)
  {
    var kept := Keep(papers, reply);
    var r := FilterPapers(papers, interests, reply, limit).papers;
    if papers != [] {
      assert r == PyTake(kept, limit);
      forall p | p in r ensures p in kept {
        var j :| 0 <= j < |r| && r[j] == p;
        assert kept[j] == p;
      }
    }
  }

  /** On a failed request or an unusable reply, the first five papers come
      back, whatever `limit` is. */
  lemma FilterPapersFallback(papers: seq<Paper>, interests: string, reply: IdsReply, limit: int)
    requires !Parsed(reply)
    ensures var r := FilterPapers(papers, interests, reply, limit).papers;
      |r| == Min(FallbackCount, |papers|) && r == papers[..|r|]
  {
  }

  /** The prompt lists every input paper's id and title. */
  lemma PromptListsEveryPaper(papers: seq<Paper>, interests: string, reply: IdsReply, limit: int, k: nat)
    requires k < |papers|
    ensures Contains(FilterPapers(papers, interests, reply, limit).prompt.listing, ListingLine(papers[k]))
  {
    var lines := seq(|papers|, i requires 0 <= i < |papers| => ListingLine(papers[i]));
    JoinContainsPart("\n", lines, k);
  }

  // ---------------------------------------------------------------------
  // enrich_with_summaries
  // ---------------------------------------------------------------------

  /** What `json.loads(response.text)` produced for the summary request. */
  datatype SummaryReply =
    | SummaryFailed                      // the request or the parse raised, or the value has no `get`
    | Summaries(byId: map<string, string>)

  const MissingSummary := "Could not generate summary."

  /** The first loop: `project_url` from the abstract, else the comment. */
  function WithLink(p: Paper): Paper
  {
    p.(projectUrl := Some(LinkOf(p)))
  }

  function LinkOf(p: Paper): Option<string>
  {
    ProjectUrlFor(FilterPattern, p)
  }

  /** `summaries.get(p['id'], "Could not generate summary.")`. */
  function SummaryFor(byId: map<string, string>, id: string): string
  {
    if id in byId then byId[id] else MissingSummary
  }

  /** One paper after `enrich_with_summaries`. */
  function Enriched(p: Paper, reply: SummaryReply): Paper
  {
    match reply
    case SummaryFailed => WithLink(p)
    case Summaries(byId) => WithLink(p).(aiSummary := Some(SummaryFor(byId, p.id)))
  }

  /** `enrich_with_summaries(papers, ...)`: updates every paper dictionary
      in place, first the links, then, if the reply is usable, the
      summaries. */
  method EnrichWithSummaries(a: array<Paper>, reply: SummaryReply)
    modifies a
    ensures forall i :: 0 <= i < a.Length ==> a[i] == Enriched(old(a[i]), reply)
  {
    if a.Length == 0 {
      return;
    }
    AttachLinks(a, LinkOf);
    match reply
    case SummaryFailed =>
    case Summaries(byId) =>
      AttachSummaries(a, byId);
  }

  /** The first loop of `enrich_with_summaries`, which stores `link(p)` as
      each paper's `project_url`. */
  method AttachLinks(a: array<Paper>, link: Paper -> Option<string>)
    modifies a
    ensures forall i :: 0 <= i < a.Length ==> a[i] == old(a[i]).(projectUrl := Some(link(old(a[i]))))
  {
    for i := 0 to a.Length
      invariant forall j :: 0 <= j < i ==> a[j] == old(a[j]).(projectUrl := Some(link(old(a[j]))))
      invariant forall j :: i <= j < a.Length ==> a[j] == old(a[j])
    {
      a[i] := a[i].(projectUrl := Some(link(a[i])));
    }
  }

  /** The second loop of `enrich_with_summaries`. */
  method AttachSummaries(a: array<Paper>, byId: map<string, string>)
    modifies a
    ensures forall i :: 0 <= i < a.Length ==>
      a[i] == old(a[i]).(aiSummary := Some(SummaryFor(byId, old(a[i]).id)))
  {
    for i := 0 to a.Length
      invariant forall j :: 0 <= j < i ==> a[j] == old(a[j]).(aiSummary := Some(SummaryFor(byId, old(a[j]).id)))
      invariant forall j :: i <= j < a.Length ==> a[j] == old(a[j])
    {
      a[i] := a[i].(aiSummary := Some(SummaryFor(byId, a[i].id)));
    }
  }

  /** The enriched paper is the same paper: only `project_url` and
      `ai_summary` can differ. */
  lemma EnrichedKeepsPaper(p: Paper, reply: SummaryReply)
    ensures var q := Enriched(p, reply);
      q.(projectUrl := p.projectUrl, aiSummary := p.aiSummary) == p
  {
  }

  /** The attached link is present exactly when the pre-filter
      `has_project_link` accepts the paper. */
  lemma EnrichedLinkMatchesPrefilter(p: Paper, reply: SummaryReply)
    ensures Enriched(p, reply).projectUrl.Some?
    ensures Enriched(p, reply).projectUrl.value.Some? <==> HasProjectLink(FilterPattern, p)
  {
  }

  /** A usable reply gives every paper a summary: its own entry, or the
      placeholder; a failed one leaves `ai_summary` as it was. */
  lemma EnrichedSummary(p: Paper, reply: SummaryReply)
    ensures reply.Summaries? && p.id in reply.byId ==> Enriched(p, reply).aiSummary == Some(reply.byId[p.id])
    ensures reply.Summaries? && p.id !in reply.byId ==> Enriched(p, reply).aiSummary == Some(MissingSummary)
    ensures reply.SummaryFailed? ==> Enriched(p, reply).aiSummary == p.aiSummary
  {
  }
}
