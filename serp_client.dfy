/**
  The snippet collector of `serpapi_client.py`: flattening a search response
  into (title, snippet, link) items, and collecting review records for one
  (product, brand) pair from three searches, deduplicated by link and cut off
  at a quota.

  The search itself (`serpapi_search`) is a parameter: a function from the
  query string to either the response or the message of the exception it
  raised. The record timestamp (`time.strftime`) is a parameter too: `clock(k)`
  is the time read when the `k`-th record is appended.
 */
module SerpClient {
  import opened Wrappers
  import Seqs

  /**
    One element of `organic_results`, as far as the code reads it; `None` is a
    missing key or a null value. `queryPreview` is the nested
    `rich_snippet.top.query_preview`.
   */
  datatype OrganicResult = OrganicResult(
    title: Option<string>,
    snippet: Option<string>,
    queryPreview: Option<string>,
    link: Option<string>)

  /** The JSON a search returns; `organicResults` is `None` when the key is absent. */
  datatype SearchResponse = SearchResponse(organicResults: Option<seq<OrganicResult>>)

  /** A flattened search result. */
  datatype Item = Item(title: Option<string>, snippet: string, link: Option<string>)

  /** A collected review, as handed to the persistence layer. */
  datatype ReviewRecord = ReviewRecord(
    brand: string,
    product: string,
    source: string,
    snippet: string,
    title: string,
    link: Option<string>,
    fetchedAt: string)

  type Search = string -> Result<SearchResponse, string>

  /** Python truthiness of an optional string: present and non-empty. */
  predicate Truthy(o: Option<string>)
  {
    o.Some? && o.value != ""
  }

  /** `results.get("organic_results", [])`. */
  function OrganicResults(res: SearchResponse): seq<OrganicResult>
  {
    if res.organicResults.Some? then res.organicResults.value else []
  }

  /**
    The snippet of a result: its own snippet if truthy, else the rich snippet's
    query preview if truthy, else the empty string -- never `None`.
   */
  function SnippetText(r: OrganicResult): (s: string)
    ensures s == "" <==> !Truthy(r.snippet) && !Truthy(r.queryPreview)
    ensures Truthy(r.snippet) ==> Some(s) == r.snippet
    ensures !Truthy(r.snippet) && s != "" ==> Some(s) == r.queryPreview
  {
    if Truthy(r.snippet) then r.snippet.value
    else if Truthy(r.queryPreview) then r.queryPreview.value
    else ""
  }

  /** The items `extract_snippets_from_results` yields: one per organic result, in order. */
  function ExtractItems(res: SearchResponse): seq<Item>
  {
    var rs := OrganicResults(res);
    seq(|rs|, i requires 0 <= i < |rs| => Item(rs[i].title, SnippetText(rs[i]), rs[i].link))
  }

  /** `extract_snippets_from_results`: appends one item per organic result. */
  method ExtractSnippetsFromResults(res: SearchResponse) returns (items: seq<Item>)
    ensures items == ExtractItems(res)
    ensures |items| == |OrganicResults(res)|
    ensures res.organicResults.None? ==> items == []
    ensures forall i :: 0 <= i < |items| ==>
              && items[i].title == OrganicResults(res)[i].title
              && items[i].link == OrganicResults(res)[i].link
              && items[i].snippet == SnippetText(OrganicResults(res)[i])
  {
    var rs := OrganicResults(res);
    items := [];
    for i := 0 to |rs|
      invariant |items| == i
      invariant forall k :: 0 <= k < i ==> items[k] == Item(rs[k].title, SnippetText(rs[k]), rs[k].link)
    {
      var r := rs[i];
      var snippet := if Truthy(r.snippet) then r.snippet.value
                     else if Truthy(r.queryPreview) then r.queryPreview.value
                     else "";
      items := items + [Item(r.title, snippet, r.link)];
    }
  }

  /** The three queries, in the order they are tried: amazon.in, flipkart.com, then unscoped. */
  function Queries(product: string, brand: string): (qs: seq<string>)
    ensures |qs| == 3
    ensures qs[0] != qs[1] && qs[1] != qs[2] && qs[0] != qs[2]
  {
    var stem := product + " " + brand + " reviews";
    assert |stem + " site:amazon.in"| != |stem + " site:flipkart.com"|;
    [stem + " site:amazon.in", stem + " site:flipkart.com", stem]
  }

  /** The items a search contributes: none when it raised. */
  function ItemsOf(r: Result<SearchResponse, string>): seq<Item>
  {
    if r.Ok? then ExtractItems(r.value) else []
  }

  /** All items returned by the queries `qs`, query by query. */
  function Stream(search: Search, qs: seq<string>): seq<Item>
  {
    if qs == [] then [] else Stream(search, qs[..|qs| - 1]) + ItemsOf(search(qs[|qs| - 1]))
  }

  function LinkOf(it: Item): Option<string>
  {
    it.link
  }

  /** The items kept by the `seen_links` loop: the first item for each link value, `None` included. */
  function Kept(items: seq<Item>): seq<Item>
  {
    Seqs.DedupBy(items, LinkOf)
  }

  /**
    The number of records at which collection stops. The check follows the
    append, so even with a quota of zero or less one record is taken.
   */
  function Cap(maxSnippets: int): nat
  {
    if maxSnippets >= 1 then maxSnippets else 1
  }

  function Take<T>(s: seq<T>, n: nat): (r: seq<T>)
    ensures |r| <= n && |r| <= |s| && r == s[..|r|]
    ensures |r| < n ==> r == s
    ensures |s| <= n ==> r == s
  {
    if n <= |s| then s[..n] else s
  }

  /**
    The record dict appended for one item: the brand and product searched
    for, source "snippet", the item's snippet text, link and title (or "" when
    it has none), and the timestamp read when it is appended.
   */
  function ToRecord(it: Item, brand: string, product: string, fetchedAt: string): (r: ReviewRecord)
    ensures r.brand == brand && r.product == product && r.source == "snippet"
    ensures r.snippet == it.snippet && r.link == it.link && r.fetchedAt == fetchedAt
    ensures it.title.None? ==> r.title == ""
    ensures it.title.Some? ==> r.title == it.title.value
  {
    ReviewRecord(brand, product, "snippet", it.snippet,
                 if it.title.Some? then it.title.value else "", it.link, fetchedAt)
  }

  /** The records for `items`; the `k`-th is stamped with `clock(k)`. */
  function Records(items: seq<Item>, brand: string, product: string, clock: nat -> string): seq<ReviewRecord>
  {
    seq(|items|, k requires 0 <= k < |items| => ToRecord(items[k], brand, product, clock(k)))
  }

  /**
    One record per item, in order: the `k`-th record carries the `k`-th item's
    link and snippet text, the brand, the product and source "snippet", and
    the timestamp `clock(k)`.
   */
  lemma RecordsFields(items: seq<Item>, brand: string, product: string, clock: nat -> string, k: nat)
    requires k < |items|
    ensures |Records(items, brand, product, clock)| == |items|
    ensures var rec := Records(items, brand, product, clock)[k];
            && rec.link == items[k].link && rec.snippet == items[k].snippet && rec.fetchedAt == clock(k)
            && rec.brand == brand && rec.product == product && rec.source == "snippet"
  {
    assert Records(items, brand, product, clock)[k] == ToRecord(items[k], brand, product, clock(k));
  }

  lemma RecordsAppend(items: seq<Item>, it: Item, brand: string, product: string, clock: nat -> string)
    ensures Records(items + [it], brand, product, clock) ==
            Records(items, brand, product, clock) + [ToRecord(it, brand, product, clock(|items|))]
  {
  }

  /**
    What every collection result satisfies: at most `cap` records, no two with
    the same link, each tagged with the brand, the product and the source
    "snippet".
   */
  lemma {:induction false} CollectedFacts(items: seq<Item>, cap: nat, brand: string, product: string, clock: nat -> string)
    ensures var r := Records(Take(Kept(items), cap), brand, product, clock);
            && |r| <= cap
            && (forall i, j :: 0 <= i < j < |r| ==> r[i].link != r[j].link)
            && (forall x :: x in r ==> x.brand == brand && x.product == product && x.source == "snippet")
  {
    var k := Kept(items);
    Seqs.DedupDistinct(items, LinkOf);
    var t := Take(k, cap);
    var r := Records(t, brand, product, clock);
    assert forall i :: 0 <= i < |t| ==> t[i] == k[i] && r[i] == ToRecord(t[i], brand, product, clock(i));
    forall i, j | 0 <= i < j < |r|
      ensures r[i].link != r[j].link
    {
      assert LinkOf(k[i]) != LinkOf(k[j]);
    }
  }

  /**
    Collection stops after the `i`-th query: it returned, and the records
    collected by then reach the quota.
   */
  predicate StopsAfter(product: string, brand: string, maxSnippets: int, search: Search, i: nat)
    requires i < 3
  {
    var qs := Queries(product, brand);
    search(qs[i]).Ok? && |Kept(Stream(search, qs[..i + 1]))| >= maxSnippets
  }

  lemma StreamStep(search: Search, qs: seq<string>, i: nat)
    requires i < |qs|
    ensures Stream(search, qs[..i + 1]) == Stream(search, qs[..i]) + ItemsOf(search(qs[i]))
  {
    assert qs[..i + 1][..i] == qs[..i];
  }

  /**
    The state of the collection loop once the items `scanned` have been
    looked at: the records and the seen-set are those of the kept items, and
    the quota is not yet met.
   */
  ghost predicate Collecting(scanned: seq<Item>, seen: set<Option<string>>, collected: seq<ReviewRecord>,
                             cap: nat, brand: string, product: string, clock: nat -> string)
  {
    && |Kept(scanned)| < cap
    && collected == Records(Kept(scanned), brand, product, clock)
    && seen == Seqs.KeysOf(Kept(scanned), LinkOf)
  }

  /** An item whose link was seen changes nothing. */
  lemma SkipSeen(scanned: seq<Item>, it: Item, seen: set<Option<string>>, collected: seq<ReviewRecord>,
                 cap: nat, brand: string, product: string, clock: nat -> string)
    requires Collecting(scanned, seen, collected, cap, brand, product, clock)
    requires it.link in seen
    ensures Collecting(scanned + [it], seen, collected, cap, brand, product, clock)
  {
    Seqs.DedupStep(scanned, it, LinkOf);
  }

  /** An item with a new link is kept: its record is appended and its link is seen. */
  lemma KeepNew(scanned: seq<Item>, it: Item, seen: set<Option<string>>, collected: seq<ReviewRecord>,
                cap: nat, brand: string, product: string, clock: nat -> string)
    requires Collecting(scanned, seen, collected, cap, brand, product, clock)
    requires it.link !in seen
    ensures Kept(scanned + [it]) == Kept(scanned) + [it]
    ensures collected + [ToRecord(it, brand, product, clock(|collected|))] == Records(Kept(scanned + [it]), brand, product, clock)
    ensures seen + {it.link} == Seqs.KeysOf(Kept(scanned + [it]), LinkOf)
  {
    Seqs.DedupStep(scanned, it, LinkOf);
    RecordsAppend(Kept(scanned), it, brand, product, clock);
    Seqs.KeysOfAppend(Kept(scanned), it, LinkOf);
  }

  /**
    The inner loop of `get_reviews_for_brand` over one query's items. Before
    it, the records and the seen-set are those of `Kept(before)`, below the
    cap. It appends the items whose link is new, stopping once the records
    reach the quota; the result is the capped `Kept(before + items)`.
   */
  method CollectNewItems(items: seq<Item>, brand: string, product: string, maxSnippets: int,
                         clock: nat -> string, seenLinks: set<Option<string>>,
                         collected: seq<ReviewRecord>, ghost before: seq<Item>)
    returns (seen': set<Option<string>>, collected': seq<ReviewRecord>)
    requires Collecting(before, seenLinks, collected, Cap(maxSnippets), brand, product, clock)
    ensures collected' == Records(Take(Kept(before + items), Cap(maxSnippets)), brand, product, clock)
    ensures |collected'| >= maxSnippets <==> |Kept(before + items)| >= maxSnippets
    ensures |collected'| < maxSnippets ==>
              Collecting(before + items, seen', collected', Cap(maxSnippets), brand, product, clock)
  {
    ghost var cap := Cap(maxSnippets);
    ghost var scanned := before;
    seen', collected' := seenLinks, collected;
    var j := 0;
    while j < |items|
      invariant 0 <= j <= |items|
      invariant scanned == before + items[..j]
      invariant Collecting(scanned, seen', collected', cap, brand, product, clock)
    {
      var it := items[j];
      var link := it.link;
      assert before + items[..j + 1] == scanned + [it];
      if link in seen' {
        SkipSeen(scanned, it, seen', collected', cap, brand, product, clock);
        scanned := scanned + [it];
        j := j + 1;
        continue;
      }
      KeepNew(scanned, it, seen', collected', cap, brand, product, clock);
      seen' := seen' + {link};
      var title := if it.title.Some? then it.title.value else "";
      collected' := collected' + [ReviewRecord(brand, product, "snippet", it.snippet, title, link, clock(|collected'|))];
      scanned := scanned + [it];
      j := j + 1;
      if |collected'| >= maxSnippets {
        break;
      }
    }
    FinishItems(before, items, j, scanned, seen', collected', cap, maxSnippets, brand, product, clock);
  }

  /** Closing the inner loop: whether it ran out of items or met the quota, the records are the capped kept items. */
  lemma FinishItems(before: seq<Item>, items: seq<Item>, j: nat, scanned: seq<Item>,
                    seen: set<Option<string>>, collected: seq<ReviewRecord>,
                    cap: nat, maxSnippets: int, brand: string, product: string, clock: nat -> string)
    requires j <= |items| && scanned == before + items[..j] && cap == Cap(maxSnippets)
    requires collected == Records(Kept(scanned), brand, product, clock)
    requires |Kept(scanned)| <= cap
    requires j == |items| || |Kept(scanned)| == cap
    requires seen == Seqs.KeysOf(Kept(scanned), LinkOf)
    ensures collected == Records(Take(Kept(before + items), cap), brand, product, clock)
    ensures |collected| >= maxSnippets <==> |Kept(before + items)| >= maxSnippets
    ensures |collected| < maxSnippets ==> Collecting(before + items, seen, collected, cap, brand, product, clock)
  {
    assert before + items == scanned + items[j..];
    Seqs.DedupPrefix(scanned, items[j..], LinkOf);
    if j == |items| {
      assert scanned == before + items;
    }
  }

  /** The "no earlier query met the quota" invariant extends by one query. */
  lemma NoStopStep(product: string, brand: string, maxSnippets: int, search: Search, qi: nat)
    requires qi < 3
    requires forall i :: 0 <= i < qi ==> !StopsAfter(product, brand, maxSnippets, search, i)
    requires !StopsAfter(product, brand, maxSnippets, search, qi)
    ensures forall i :: 0 <= i < qi + 1 ==> !StopsAfter(product, brand, maxSnippets, search, i)
  {
  }

  /**
    `get_reviews_for_brand`. `issued` lists the queries passed to the search,
    in order. The records are the first `Cap(maxSnippets)` items, one per link,
    of what the issued queries returned; a query is issued only while the quota
    is unmet, and a failing search skips just that query.
   */
  method GetReviewsForBrand(product: string, brand: string, maxSnippets: int,
                            search: Search, clock: nat -> string)
    returns (collected: seq<ReviewRecord>, issued: seq<string>)
    ensures 1 <= |issued| <= 3 && issued == Queries(product, brand)[..|issued|]
    ensures forall i :: 0 <= i < |issued| - 1 ==> !StopsAfter(product, brand, maxSnippets, search, i)
    ensures |issued| < 3 ==> StopsAfter(product, brand, maxSnippets, search, |issued| - 1)
    ensures collected == Records(Take(Kept(Stream(search, issued)), Cap(maxSnippets)), brand, product, clock)
    ensures maxSnippets >= 1 ==> |collected| <= maxSnippets
    ensures maxSnippets < 1 ==> |collected| <= 1
    ensures forall i, j :: 0 <= i < j < |collected| ==> collected[i].link != collected[j].link
    ensures forall r :: r in collected ==> r.brand == brand && r.product == product && r.source == "snippet"
    ensures forall i :: 0 <= i < |issued| && search(issued[i]).Err? && i + 1 < 3 ==> i + 1 < |issued|
  {
    var queries := Queries(product, brand);
    collected := [];
    issued := [];
    var seenLinks: set<Option<string>> := {};
    ghost var cap := Cap(maxSnippets);
    var qi := 0;
    while qi < |queries|
      invariant 0 <= qi <= |queries|
      invariant issued == queries[..qi]
      invariant Collecting(Stream(search, issued), seenLinks, collected, cap, brand, product, clock)
      invariant forall i :: 0 <= i < qi ==> !StopsAfter(product, brand, maxSnippets, search, i)
    {
      ghost var before := Stream(search, issued);
      var q := queries[qi];
      issued := issued + [q];
      assert issued == queries[..qi + 1];
      StreamStep(search, queries, qi);
      var res := search(q);
      if res.Err? {
        assert Stream(search, issued) == before;
        assert !StopsAfter(product, brand, maxSnippets, search, qi);
        NoStopStep(product, brand, maxSnippets, search, qi);
        qi := qi + 1;
        continue;
      }
      var items := ExtractSnippetsFromResults(res.value);
      seenLinks, collected := CollectNewItems(items, brand, product, maxSnippets, clock, seenLinks, collected, before);
      if |collected| >= maxSnippets {
        assert StopsAfter(product, brand, maxSnippets, search, qi);
        break;
      }
      assert Stream(search, issued) == before + items;
      assert !StopsAfter(product, brand, maxSnippets, search, qi);
      NoStopStep(product, brand, maxSnippets, search, qi);
      qi := qi + 1;
    }
    CollectedFacts(Stream(search, issued), cap, brand, product, clock);
  }
}
