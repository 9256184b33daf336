/**
  Brand handling in `main.py`: parsing a comma-separated brand list, and
  `infer_brands_from_serp` -- counting title-case tokens of search results,
  ranking them by count, and confirming the top candidates one at a time with
  a language model, as `is_word_a_brand_llm` does.

  The search is the collector's `Search` parameter. The model is a parameter
  `ask`: `ask(word, product)` is the reply content, or the text of the
  exception the call raised.
 */
module BrandInference {
  import opened Wrappers
  import opened Text
  import Seqs
  import SerpClient

  type Ask = (string, string) -> Result<string, string>

  // ---------------------------------------------------------------------------
  // The brand list typed by the user

  function StripEach(ss: seq<string>): (r: seq<string>)
    ensures |r| == |ss| && forall i :: 0 <= i < |ss| ==> r[i] == Strip(ss[i])
  {
    if ss == [] then [] else [Strip(ss[0])] + StripEach(ss[1..])
  }

  /** `[b.strip() for b in brands_input.split(",") if b.strip()]`. */
  function ParseBrands(input: string): seq<string>
  {
    NonEmpty(StripEach(SplitOn(input, {','})))
  }

  /** Each parsed brand is the stripped form of some comma-separated segment, itself stripped and free of commas. */
  lemma ParsedBrandFacts(input: string, b: string)
    requires b in ParseBrands(input)
    ensures Strip(b) == b && NoneOf(b, {','})
    ensures exists seg :: seg in SplitOn(input, {','}) && Strip(seg) == b
  {
    var segs := SplitOn(input, {','});
    var stripped := StripEach(segs);
    assert b in stripped;
    var i :| 0 <= i < |stripped| && stripped[i] == b;
    assert segs[i] in segs;
    StripCharsIdempotent(segs[i], Whitespace);
    StripKeepsNoneOf(segs[i], {','});
  }

  /** Every non-empty stripped segment is a parsed brand. */
  lemma SegmentParsed(input: string, seg: string)
    requires seg in SplitOn(input, {','}) && Strip(seg) != ""
    ensures Strip(seg) in ParseBrands(input)
  {
    var segs := SplitOn(input, {','});
    var i :| 0 <= i < |segs| && segs[i] == seg;
    assert StripEach(segs)[i] == Strip(seg);
  }

  /**
    The parsed brands are exactly the non-empty stripped comma-separated
    segments of the input (whose segments, joined back with commas, give the
    input): each is non-empty, already stripped and free of commas; without a
    comma the whole stripped input is the only candidate.
   */
  lemma ParseBrandsFacts(input: string)
    ensures JoinWith(SplitOn(input, {','}), ',') == input
    ensures forall b :: b in ParseBrands(input) <==>
              b != "" && exists seg :: seg in SplitOn(input, {','}) && Strip(seg) == b
    ensures forall b :: b in ParseBrands(input) ==> Strip(b) == b && NoneOf(b, {','})
    ensures |ParseBrands(input)| <= |SplitOn(input, {','})|
    ensures NoneOf(input, {','}) ==> ParseBrands(input) == if Strip(input) == "" then [] else [Strip(input)]
  {
    JoinSplit(input, ',');
    forall b | b in ParseBrands(input)
      ensures Strip(b) == b && NoneOf(b, {','})
      ensures exists seg :: seg in SplitOn(input, {','}) && Strip(seg) == b
    {
      ParsedBrandFacts(input, b);
    }
    forall seg | seg in SplitOn(input, {','}) && Strip(seg) != ""
      ensures Strip(seg) in ParseBrands(input)
    {
      SegmentParsed(input, seg);
    }
    if NoneOf(input, {','}) {
      SplitNoneOf(input, {','});
    }
  }

  /** Stripping is done segment by segment. */
  lemma {:induction false} StripEachAppend(a: seq<string>, b: seq<string>)
    ensures StripEach(a + b) == StripEach(a) + StripEach(b)
    decreases |a|
  {
    if a == [] {
      assert a + b == b;
    } else {
      assert (a + b)[0] == a[0] && (a + b)[1..] == a[1..] + b;
      StripEachAppend(a[1..], b);
    }
  }

  /**
    A comma splits the brand list into two lists parsed independently and
    concatenated: the order of the segments is kept and a repeated name is
    kept twice.
   */
  lemma ParseBrandsAppend(a: string, b: string)
    ensures ParseBrands(a + [','] + b) == ParseBrands(a) + ParseBrands(b)
  {
    var sa, sb := SplitOn(a, {','}), SplitOn(b, {','});
    SplitAppend(a, ',', b, {','});
    StripEachAppend(sa, sb);
    NonEmptyAppend(StripEach(sa), StripEach(sb));
  }

  /**
    The parsed brands are the non-empty stripped segments in input order,
    repeats included: `idx` lists, increasing, exactly the segments whose
    stripped form is not empty, and the `k`-th brand is the stripped
    `idx[k]`-th segment.
   */
  lemma ParseBrandsOrder(input: string)
    ensures var segs := SplitOn(input, {','});
            var idx := NonEmptyIndices(StripEach(segs));
            && |idx| == |ParseBrands(input)|
            && (forall k :: 0 <= k < |idx| ==> idx[k] < |segs| && ParseBrands(input)[k] == Strip(segs[idx[k]]))
            && (forall k, k' :: 0 <= k < k' < |idx| ==> idx[k] < idx[k'])
            && (forall i :: 0 <= i < |segs| ==> (i in idx <==> Strip(segs[i]) != ""))
  {
    var segs := SplitOn(input, {','});
    var ss := StripEach(segs);
    NonEmptyKeepsOrder(ss);
    var idx := NonEmptyIndices(ss);
    assert ParseBrands(input) == NonEmpty(ss);
    forall k | 0 <= k < |idx|
      ensures idx[k] < |segs| && ParseBrands(input)[k] == Strip(segs[idx[k]])
    {
      assert ss[idx[k]] == Strip(segs[idx[k]]);
    }
    forall i | 0 <= i < |segs|
      ensures i in idx <==> Strip(segs[i]) != ""
    {
      assert ss[i] == Strip(segs[i]);
    }
  }

  // ---------------------------------------------------------------------------
  // Whether the model says a word is a brand

  /**
    `is_word_a_brand_llm` once the model has been asked: false when the model
    is not configured or the call raised, otherwise whether "yes" occurs in the
    stripped, lower-cased reply.
   */
  predicate IsWordABrand(configured: bool, reply: Result<string, string>)
  {
    configured && reply.Ok? && Contains(Lower(Strip(reply.value)), "yes")
  }

  /** The letters `y`, `e`, `s`, in either case, start at position `i` of `a`. */
  predicate YesAt(a: string, i: int)
  {
    0 <= i && i + 3 <= |a| && LowerChar(a[i]) == 'y' && LowerChar(a[i + 1]) == 'e' && LowerChar(a[i + 2]) == 's'
  }

  lemma YesFromOccurrence(a: string, i: int)
    requires OccursAt(Lower(a), "yes", i)
    ensures YesAt(a, i)
  {
    var low := Lower(a);
    assert low[i..i + 3][0] == low[i];
    assert low[i..i + 3][1] == low[i + 1];
    assert low[i..i + 3][2] == low[i + 2];
  }

  lemma OccurrenceFromYes(a: string, i: int)
    requires YesAt(a, i)
    ensures OccursAt(Lower(a), "yes", i)
  {
    var w := Lower(a)[i..i + 3];
    assert |w| == 3 && w[0] == 'y' && w[1] == 'e' && w[2] == 's';
    assert w == "yes";
  }

  /** `"yes" in a.lower()` holds exactly when "yes", in any letter case, occurs in `a`. */
  lemma {:induction false} LowerContainsYes(a: string)
    ensures Contains(Lower(a), "yes") <==> exists i :: YesAt(a, i)
  {
    ContainsIff(Lower(a), "yes");
    if Contains(Lower(a), "yes") {
      var i :| OccursAt(Lower(a), "yes", i);
      YesFromOccurrence(a, i);
    }
    if exists i :: YesAt(a, i) {
      var i :| YesAt(a, i);
      OccurrenceFromYes(a, i);
    }
  }

  /**
    A word is taken for a brand exactly when the model is configured, the call
    succeeds, and "yes" in any letter case occurs in its stripped reply.
   */
  lemma IsWordABrandIff(configured: bool, reply: Result<string, string>)
    ensures IsWordABrand(configured, reply) <==>
            configured && reply.Ok? && exists i :: YesAt(Strip(reply.value), i)
  {
    if reply.Ok? {
      LowerContainsYes(Strip(reply.value));
    }
  }

  // ---------------------------------------------------------------------------
  // Counting candidate tokens

  const StopWords: set<string> := {
    "the", "best", "review", "reviews", "for", "and", "with", "top", "new", "guide", "bluetooth",
    "wireless", "wired", "headphone", "headphones", "earbuds", "earphone", "earphones", "audio",
    "sound", "bass", "noise", "cancelling", "tested", "pro", "plus", "ultra", "max", "edition"
  }

  /** The characters `w.strip('.,!?:;()[]{}')` removes. */
  const Punctuation: set<char> := {'.', ',', '!', '?', ':', ';', '(', ')', '[', ']', '{', '}'}

  /** `set(product.lower().split()).union(stop_words)`. */
  function IgnoreWords(product: string): set<string>
  {
    (set w | w in Words(Lower(product))) + StopWords
  }

  /** A cleaned word is counted: title case, longer than two characters, and not an ignored word. */
  predicate Qualifies(cleaned: string, ignore: set<string>)
  {
    IsTitle(cleaned) && |cleaned| > 2 && Lower(cleaned) !in ignore
  }

  /** `(it.get("title") or "") + " " + (it.get("snippet") or "")`. */
  function ItemText(it: SerpClient.Item): string
  {
    (if it.title.Some? then it.title.value else "") + " " + it.snippet
  }

  /**
    The words of an item's text are the words of its title (none without one)
    followed by the words of its snippet: the joining space never glues a word
    of the title to a word of the snippet.
   */
  lemma ItemTextWords(it: SerpClient.Item)
    ensures Words(ItemText(it)) ==
            (if it.title.Some? then Words(it.title.value) else []) + Words(it.snippet)
  {
    var t := if it.title.Some? then it.title.value else "";
    assert ItemText(it) == t + [' '] + it.snippet;
    WordsAppend(t, ' ', it.snippet);
    if it.title.None? {
      WordsNoSpace("");
    }
  }

  /** The counted tokens among `words`, punctuation stripped, in order. */
  function QualifyingTokens(words: seq<string>, ignore: set<string>): (r: seq<string>)
    ensures forall t :: t in r ==> Qualifies(t, ignore)
  {
    if words == [] then []
    else
      var cleaned := StripChars(words[|words| - 1], Punctuation);
      QualifyingTokens(words[..|words| - 1], ignore) + if Qualifies(cleaned, ignore) then [cleaned] else []
  }

  /** The counted tokens of all items, item by item. */
  function TokenStream(items: seq<SerpClient.Item>, ignore: set<string>): (r: seq<string>)
    ensures forall t :: t in r ==> Qualifies(t, ignore)
  {
    if items == [] then []
    else TokenStream(items[..|items| - 1], ignore) + QualifyingTokens(Words(ItemText(items[|items| - 1])), ignore)
  }

  lemma QualifyingStep(words: seq<string>, j: nat, ignore: set<string>)
    requires j < |words|
    ensures var cleaned := StripChars(words[j], Punctuation);
            QualifyingTokens(words[..j + 1], ignore) ==
            QualifyingTokens(words[..j], ignore) + if Qualifies(cleaned, ignore) then [cleaned] else []
  {
    assert words[..j + 1][..j] == words[..j];
  }

  lemma TokenStreamStep(items: seq<SerpClient.Item>, i: nat, ignore: set<string>)
    requires i < |items|
    ensures TokenStream(items[..i + 1], ignore) ==
            TokenStream(items[..i], ignore) + QualifyingTokens(Words(ItemText(items[i])), ignore)
  {
    assert items[..i + 1][..i] == items[..i];
  }

  /** The identity, as the key under which `Seqs` deduplicates plain tokens. */
  function Id(t: string): string
  {
    t
  }

  /**
    The `tokens` dictionary after the tokens `s` have been counted: its keys,
    in insertion order, are the distinct tokens in order of first occurrence,
    and each maps to its number of occurrences.
   */
  ghost predicate Tallied(s: seq<string>, keys: seq<string>, counts: map<string, nat>)
  {
    && keys == Seqs.DedupBy(s, Id)
    && (forall t :: t in counts <==> t in s)
    && (forall t :: t in counts ==> counts[t] == Seqs.Count(s, t))
  }

  /**
    Counting one more token `c`, after the tokens `start` and then `found`,
    appends it to the keys if it is new and adds one to its count.
   */
  lemma TallyStep(start: seq<string>, found: seq<string>, c: string, keys: seq<string>, counts: map<string, nat>)
    requires Tallied(start + found, keys, counts)
    ensures Tallied(start + (found + [c]), if c in counts then keys else keys + [c],
                    counts[c := (if c in counts then counts[c] else 0) + 1])
  {
    var s := start + found;
    assert start + (found + [c]) == s + [c];
    TallyKeysStep(s, c, keys, counts);
    TallyCountsStep(s, c, counts);
  }

  /** A token is appended to the keys exactly when it has not been counted before. */
  lemma TallyKeysStep(s: seq<string>, c: string, keys: seq<string>, counts: map<string, nat>)
    requires Tallied(s, keys, counts)
    ensures Seqs.DedupBy(s + [c], Id) == if c in counts then keys else keys + [c]
  {
    Seqs.DedupStep(s, c, Id);
    Seqs.DedupKeys(s, Id);
    assert c in counts <==> Id(c) in Seqs.KeysOf(s, Id) by {
      if c in s {
        var i :| 0 <= i < |s| && s[i] == c;
        assert Id(s[i]) == c;
      }
    }
  }

  /** Counting a token adds one to its count and leaves the other counts alone. */
  lemma TallyCountsStep(s: seq<string>, c: string, counts: map<string, nat>)
    requires forall t :: t in counts <==> t in s
    requires forall t :: t in counts ==> counts[t] == Seqs.Count(s, t)
    ensures var counts' := counts[c := (if c in counts then counts[c] else 0) + 1];
            && (forall t :: t in counts' <==> t in s + [c])
            && (forall t :: t in counts' ==> counts'[t] == Seqs.Count(s + [c], t))
  {
    forall t
      ensures Seqs.Count(s + [c], t) == Seqs.Count(s, t) + if c == t then 1 else 0
    {
      Seqs.CountStep(s, c, t);
    }
  }

  /**
    The inner loop of the counting: the words of one item's text, each stripped
    of punctuation and, if it qualifies, counted on top of `keys0`/`counts0`.
   */
  method TallyWords(words: seq<string>, ignore: set<string>, keys0: seq<string>, counts0: map<string, nat>,
                    ghost start: seq<string>)
    returns (keys: seq<string>, counts: map<string, nat>)
    requires Tallied(start, keys0, counts0)
    ensures Tallied(start + QualifyingTokens(words, ignore), keys, counts)
  {
    keys, counts := keys0, counts0;
    ghost var found: seq<string> := [];
    assert start + found == start;
    for j := 0 to |words|
      invariant found == QualifyingTokens(words[..j], ignore)
      invariant Tallied(start + found, keys, counts)
    {
      QualifyingStep(words, j, ignore);
      var cleaned := StripChars(words[j], Punctuation);
      if Qualifies(cleaned, ignore) {
        TallyStep(start, found, cleaned, keys, counts);
        if cleaned !in counts {
          keys := keys + [cleaned];
        }
        counts := counts[cleaned := (if cleaned in counts then counts[cleaned] else 0) + 1];
        found := found + [cleaned];
      }
    }
    assert words[..|words|] == words;
  }

  /**
    The counting loop of `infer_brands_from_serp`: every word of every item's
    text is stripped of punctuation and, if it qualifies, counted.
   */
  method CountTokens(items: seq<SerpClient.Item>, ignore: set<string>)
    returns (keys: seq<string>, counts: map<string, nat>)
    ensures Tallied(TokenStream(items, ignore), keys, counts)
    ensures forall t :: t in counts ==> Qualifies(t, ignore)
    ensures forall i, j :: 0 <= i < j < |keys| ==> keys[i] != keys[j]
  {
    keys, counts := [], map[];
    for i := 0 to |items|
      invariant Tallied(TokenStream(items[..i], ignore), keys, counts)
    {
      var words := Words(ItemText(items[i]));
      keys, counts := TallyWords(words, ignore, keys, counts, TokenStream(items[..i], ignore));
      TokenStreamStep(items, i, ignore);
    }
    assert items[..|items|] == items;
    Seqs.DedupDistinct(TokenStream(items, ignore), Id);
  }

  // ---------------------------------------------------------------------------
  // Ranking: sorted(tokens.items(), key=count, reverse=True)[:15]

  datatype TokenCount = TokenCount(token: string, count: nat)

  /** `tokens.items()`: the pairs in insertion order. */
  function Pairs(keys: seq<string>, counts: map<string, nat>): (r: seq<TokenCount>)
    requires forall t :: t in keys ==> t in counts
    ensures |r| == |keys| && forall i :: 0 <= i < |keys| ==> r[i] == TokenCount(keys[i], counts[keys[i]])
  {
    if keys == [] then [] else [TokenCount(keys[0], counts[keys[0]])] + Pairs(keys[1..], counts)
  }

  /** Places `x`, which came first in the input, before the first element whose count is not greater. */
  function Insert(x: TokenCount, s: seq<TokenCount>): seq<TokenCount>
  {
    if s == [] || s[0].count <= x.count then [x] + s else [s[0]] + Insert(x, s[1..])
  }

  /** A stable sort by descending count, as Python's `sorted(..., reverse=True)`. */
  function SortByCountDesc(s: seq<TokenCount>): seq<TokenCount>
  {
    if s == [] then [] else Insert(s[0], SortByCountDesc(s[1..]))
  }

  predicate CountsDescending(s: seq<TokenCount>)
  {
    forall i, j :: 0 <= i < j < |s| ==> s[i].count >= s[j].count
  }

  /** The elements of `s` with count `n`, in order. */
  function WithCount(s: seq<TokenCount>, n: nat): seq<TokenCount>
  {
    if s == [] then [] else Single(s[0], n) + WithCount(s[1..], n)
  }

  /** Insertion adds `x` and keeps every other element. */
  lemma {:induction false} InsertPermutes(x: TokenCount, s: seq<TokenCount>)
    ensures |Insert(x, s)| == |s| + 1
    ensures multiset(Insert(x, s)) == multiset(s) + multiset{x}
    decreases |s|
  {
    if !(s == [] || s[0].count <= x.count) {
      InsertPermutes(x, s[1..]);
      assert s == [s[0]] + s[1..];
    }
  }

  /** The part of `WithCount` contributed by one element. */
  function Single(y: TokenCount, n: nat): seq<TokenCount>
  {
    if y.count == n then [y] else []
  }

  lemma WithCountCons(y: TokenCount, t: seq<TokenCount>, n: nat)
    ensures WithCount([y] + t, n) == Single(y, n) + WithCount(t, n)
  {
    assert ([y] + t)[0] == y && ([y] + t)[1..] == t;
  }

  /** Insertion places `x` before the other elements with its count. */
  lemma {:induction false} InsertWithCount(x: TokenCount, s: seq<TokenCount>, n: nat)
    ensures WithCount(Insert(x, s), n) == Single(x, n) + WithCount(s, n)
    decreases |s|
  {
    if s == [] || s[0].count <= x.count {
      WithCountCons(x, s, n);
    } else {
      var rest := Insert(x, s[1..]);
      assert Insert(x, s) == [s[0]] + rest;
      InsertWithCount(x, s[1..], n);
      WithCountCons(s[0], rest, n);
      WithCountCons(s[0], s[1..], n);
      assert s == [s[0]] + s[1..];
      calc {
        WithCount(Insert(x, s), n);
        Single(s[0], n) + WithCount(rest, n);
        Single(s[0], n) + (Single(x, n) + WithCount(s[1..], n));
        { assert Single(x, n) == [] || Single(s[0], n) == []; }
        Single(x, n) + (Single(s[0], n) + WithCount(s[1..], n));
      }
    }
  }

  /** Every element of `Insert(x, s)` is `x` or an element of `s`. */
  lemma {:induction false} InsertElements(x: TokenCount, s: seq<TokenCount>, e: TokenCount)
    requires e in Insert(x, s)
    ensures e == x || e in s
    decreases |s|
  {
    if !(s == [] || s[0].count <= x.count) {
      if e != s[0] {
        InsertElements(x, s[1..], e);
      }
    }
  }

  /** Insertion keeps the counts in descending order. */
  lemma {:induction false} InsertSorted(x: TokenCount, s: seq<TokenCount>)
    requires CountsDescending(s)
    ensures CountsDescending(Insert(x, s))
    decreases |s|
  {
    if !(s == [] || s[0].count <= x.count) {
      var rest := Insert(x, s[1..]);
      assert CountsDescending(s[1..]);
      InsertSorted(x, s[1..]);
      forall e | e in rest
        ensures e.count <= s[0].count
      {
        InsertElements(x, s[1..], e);
      }
      var r := [s[0]] + rest;
      assert Insert(x, s) == r;
      forall i, j | 0 <= i < j < |r|
        ensures r[i].count >= r[j].count
      {
        if i == 0 {
          assert r[j] == rest[j - 1] && rest[j - 1] in rest;
        } else {
          assert r[i] == rest[i - 1] && r[j] == rest[j - 1];
        }
      }
    }
  }

  /** The sort is a permutation of its input. */
  lemma {:induction false} SortPermutes(s: seq<TokenCount>)
    ensures |SortByCountDesc(s)| == |s|
    ensures multiset(SortByCountDesc(s)) == multiset(s)
    decreases |s|
  {
    if s != [] {
      SortPermutes(s[1..]);
      InsertPermutes(s[0], SortByCountDesc(s[1..]));
      assert s == [s[0]] + s[1..];
    }
  }

  /** The sort orders by descending count. */
  lemma {:induction false} SortDescending(s: seq<TokenCount>)
    ensures CountsDescending(SortByCountDesc(s))
    decreases |s|
  {
    if s != [] {
      SortDescending(s[1..]);
      InsertSorted(s[0], SortByCountDesc(s[1..]));
    }
  }

  /** The sort keeps the input order of the elements with count `n`. */
  lemma {:induction false} SortStable(s: seq<TokenCount>, n: nat)
    ensures WithCount(SortByCountDesc(s), n) == WithCount(s, n)
    decreases |s|
  {
    if s != [] {
      SortStable(s[1..], n);
      InsertWithCount(s[0], SortByCountDesc(s[1..]), n);
    }
  }

  /** The sort is a permutation, in descending count order, that keeps the input order of equal counts. */
  lemma SortFacts(s: seq<TokenCount>)
    ensures multiset(SortByCountDesc(s)) == multiset(s)
    ensures |SortByCountDesc(s)| == |s|
    ensures CountsDescending(SortByCountDesc(s))
    ensures forall n :: WithCount(SortByCountDesc(s), n) == WithCount(s, n)
  {
    SortPermutes(s);
    SortDescending(s);
    forall n ensures WithCount(SortByCountDesc(s), n) == WithCount(s, n) {
      SortStable(s, n);
    }
  }

  /** Filtering a prefix gives a prefix of the filtered sequence. */
  lemma {:induction false} WithCountPrefix(s: seq<TokenCount>, m: nat, n: nat)
    requires m <= |s|
    ensures |WithCount(s[..m], n)| <= |WithCount(s, n)|
    ensures WithCount(s, n)[..|WithCount(s[..m], n)|] == WithCount(s[..m], n)
    decreases m
  {
    if m > 0 {
      assert s[..m][1..] == s[1..][..m - 1];
      WithCountPrefix(s[1..], m - 1, n);
    }
  }

  /** The first 15 ranked pairs. */
  function Top(keys: seq<string>, counts: map<string, nat>): seq<TokenCount>
    requires forall t :: t in keys ==> t in counts
  {
    var sorted := SortByCountDesc(Pairs(keys, counts));
    if |sorted| <= 15 then sorted else sorted[..15]
  }

  /** `candidate_tokens`: the tokens of the first 15 ranked pairs. */
  function Candidates(keys: seq<string>, counts: map<string, nat>): (r: seq<string>)
    requires forall t :: t in keys ==> t in counts
  {
    var top := Top(keys, counts);
    seq(|top|, i requires 0 <= i < |top| => top[i].token)
  }

  /** Every ranked pair is the pair of a counted token. */
  lemma RankedPairs(keys: seq<string>, counts: map<string, nat>, e: TokenCount)
    requires forall t :: t in keys ==> t in counts
    requires e in SortByCountDesc(Pairs(keys, counts))
    ensures e.token in keys && e.token in counts && e.count == counts[e.token]
  {
    var pairs := Pairs(keys, counts);
    SortPermutes(pairs);
    assert e in multiset(pairs);
    var k :| 0 <= k < |pairs| && pairs[k] == e;
  }

  /** The `i`-th candidate is a counted token with the count of the `i`-th ranked pair. */
  lemma CandidateCounts(keys: seq<string>, counts: map<string, nat>)
    requires forall t :: t in keys ==> t in counts
    ensures var c, top := Candidates(keys, counts), Top(keys, counts);
            && |c| == |top| == (if |keys| <= 15 then |keys| else 15)
            && forall i :: 0 <= i < |c| ==> c[i] in keys && counts[c[i]] == top[i].count
  {
    SortPermutes(Pairs(keys, counts));
    var top := Top(keys, counts);
    var c := Candidates(keys, counts);
    forall i | 0 <= i < |c|
      ensures c[i] in keys && counts[c[i]] == top[i].count
    {
      RankedPairs(keys, counts, top[i]);
    }
  }

  /** Each candidate is a counted token, and the candidates come in non-increasing count order. */
  lemma CandidatesOrdered(keys: seq<string>, counts: map<string, nat>)
    requires forall t :: t in keys ==> t in counts
    ensures var c := Candidates(keys, counts);
            && |c| == (if |keys| <= 15 then |keys| else 15)
            && (forall t :: t in c ==> t in keys)
            && (forall i, j :: 0 <= i < j < |c| ==> counts[c[i]] >= counts[c[j]])
  {
    var sorted := SortByCountDesc(Pairs(keys, counts));
    SortDescending(Pairs(keys, counts));
    CandidateCounts(keys, counts);
    var top := Top(keys, counts);
    var c := Candidates(keys, counts);
    assert forall i :: 0 <= i < |top| ==> top[i] == sorted[i];
    forall t | t in c
      ensures t in keys
    {
      var i :| 0 <= i < |c| && c[i] == t;
    }
  }

  /** No token left out of the candidates has a higher count than a candidate. */
  lemma CandidatesAreTop(keys: seq<string>, counts: map<string, nat>, t: string, u: string)
    requires forall t :: t in keys ==> t in counts
    requires t in keys && t !in Candidates(keys, counts) && u in Candidates(keys, counts)
    ensures u in counts && counts[u] >= counts[t]
  {
    var pairs := Pairs(keys, counts);
    var sorted := SortByCountDesc(pairs);
    SortPermutes(pairs);
    SortDescending(pairs);
    var top := Top(keys, counts);
    var c := Candidates(keys, counts);
    assert top == sorted[..|top|];
    var k :| 0 <= k < |keys| && keys[k] == t;
    assert pairs[k] in multiset(sorted);
    var p :| 0 <= p < |sorted| && sorted[p] == pairs[k];
    var q :| 0 <= q < |c| && c[q] == u;
    RankedPairs(keys, counts, top[q]);
    assert forall i :: 0 <= i < |top| ==> top[i].token == c[i];
    forall i | 0 <= i < |top|
      ensures sorted[i].token != t
    {
      assert top[i] == sorted[i] && c[i] == top[i].token && c[i] in c;
    }
    assert p >= |top|;
    assert sorted[q] == top[q] && q < p;
    assert sorted[q].count >= sorted[p].count;
  }

  /**
    Among the candidates with count `n` are the first-seen tokens with that
    count, in first-seen order.
   */
  lemma CandidatesStable(keys: seq<string>, counts: map<string, nat>, n: nat)
    requires forall t :: t in keys ==> t in counts
    ensures var w := WithCount(Top(keys, counts), n);
            |w| <= |WithCount(Pairs(keys, counts), n)| && WithCount(Pairs(keys, counts), n)[..|w|] == w
  {
    var sorted := SortByCountDesc(Pairs(keys, counts));
    SortStable(Pairs(keys, counts), n);
    var top := Top(keys, counts);
    assert top == sorted[..|top|];
    WithCountPrefix(sorted, |top|, n);
  }

  /**
    The candidates are the (at most) 15 tokens with the highest counts, in
    non-increasing count order; no token left out has a higher count than a
    candidate, and among equal counts the candidates are the first-seen tokens
    in first-seen order.
   */
  lemma CandidatesFacts(keys: seq<string>, counts: map<string, nat>)
    requires forall t :: t in keys ==> t in counts
    ensures var c := Candidates(keys, counts);
            && |c| == (if |keys| <= 15 then |keys| else 15)
            && (forall t :: t in c ==> t in keys)
            && (forall i, j :: 0 <= i < j < |c| ==> counts[c[i]] >= counts[c[j]])
            && (forall t, u :: t in keys && t !in c && u in c ==> counts[u] >= counts[t])
    ensures forall n :: var w := WithCount(Top(keys, counts), n);
                        |w| <= |WithCount(Pairs(keys, counts), n)| && WithCount(Pairs(keys, counts), n)[..|w|] == w
  {
    CandidatesOrdered(keys, counts);
    forall t, u | t in keys && t !in Candidates(keys, counts) && u in Candidates(keys, counts)
      ensures counts[u] >= counts[t]
    {
      CandidatesAreTop(keys, counts, t, u);
    }
    forall n
      ensures var w := WithCount(Top(keys, counts), n);
              |w| <= |WithCount(Pairs(keys, counts), n)| && WithCount(Pairs(keys, counts), n)[..|w|] == w
    {
      CandidatesStable(keys, counts, n);
    }
  }

  // ---------------------------------------------------------------------------
  // Confirming candidates

  /** The model confirms `w` as a brand of `product`. */
  predicate Accepted(w: string, product: string, configured: bool, ask: Ask)
  {
    IsWordABrand(configured, ask(w, product))
  }

  /** `is_word_a_brand_llm(w, product)` as a test on the word alone. */
  function BrandTest(product: string, configured: bool, ask: Ask): string -> bool
  {
    w => Accepted(w, product, configured, ask)
  }

  /** The candidates among `cands` that `accept` confirms, in order. */
  function Confirmed(cands: seq<string>, accept: string -> bool): (r: seq<string>)
    ensures |r| <= |cands|
    ensures forall b :: b in r ==> b in cands && accept(b)
    ensures forall c :: c in cands && accept(c) ==> c in r
  {
    if cands == [] then []
    else
      var last := cands[|cands| - 1];
      Confirmed(cands[..|cands| - 1], accept) + if accept(last) then [last] else []
  }

  /** Confirming the `i`-th candidate brings the confirmed list to `topK`. */
  predicate QuotaMetAt(cands: seq<string>, i: nat, topK: int, accept: string -> bool)
    requires i < |cands|
  {
    accept(cands[i]) && |Confirmed(cands[..i + 1], accept)| >= topK
  }

  /**
    `verified` is a prefix of the candidates, put to the model in order, and
    `brands` the ones it confirmed; only reaching `topK` confirmations stops
    the run before the last candidate.
   */
  ghost predicate ConfirmationRun(cands: seq<string>, topK: int, accept: string -> bool,
                                  brands: seq<string>, verified: seq<string>)
  {
    && |verified| <= |cands| && verified == cands[..|verified|]
    && brands == Confirmed(verified, accept)
    && (forall i :: 0 <= i < |verified| - 1 ==> !QuotaMetAt(cands, i, topK, accept))
    && (|verified| < |cands| ==> |verified| >= 1 && QuotaMetAt(cands, |verified| - 1, topK, accept))
  }

  lemma ConfirmedStep(verified: seq<string>, c: string, accept: string -> bool)
    ensures Confirmed(verified + [c], accept) == Confirmed(verified, accept) + if accept(c) then [c] else []
  {
    assert (verified + [c])[..|verified|] == verified;
  }

  /**
    Confirming is done candidate by candidate: the confirmations of a
    concatenation are those of its parts, in the same order.
   */
  lemma {:induction false} ConfirmedAppend(a: seq<string>, b: seq<string>, accept: string -> bool)
    ensures Confirmed(a + b, accept) == Confirmed(a, accept) + Confirmed(b, accept)
    decreases |b|
  {
    if b == [] {
      assert a + b == a;
    } else {
      var b', c := b[..|b| - 1], b[|b| - 1];
      var last := if accept(c) then [c] else [];
      assert a + b == (a + b') + [c];
      assert b == b' + [c];
      ConfirmedAppend(a, b', accept);
      ConfirmedStep(a + b', c, accept);
      ConfirmedStep(b', c, accept);
      calc {
        Confirmed(a + b, accept);
        Confirmed(a + b', accept) + last;
        (Confirmed(a, accept) + Confirmed(b', accept)) + last;
        Confirmed(a, accept) + (Confirmed(b', accept) + last);
      }
    }
  }

  lemma NoQuotaStep(cands: seq<string>, v: nat, topK: int, accept: string -> bool)
    requires v < |cands|
    requires forall i :: 0 <= i < v ==> !QuotaMetAt(cands, i, topK, accept)
    requires !QuotaMetAt(cands, v, topK, accept)
    ensures forall i :: 0 <= i < v + 1 ==> !QuotaMetAt(cands, i, topK, accept)
  { }

  /**
    The confirmation loop of `infer_brands_from_serp`: the candidates are put
    to the model in order, and the loop stops right after the confirmation
    that reaches `topK` (after the first one when `topK` is not positive).
   */
  method ConfirmBrands(cands: seq<string>, topK: int, accept: string -> bool)
    returns (confirmed: seq<string>, verified: seq<string>)
    ensures ConfirmationRun(cands, topK, accept, confirmed, verified)
    ensures topK >= 1 ==> |confirmed| <= topK
    ensures topK < 1 ==> |confirmed| <= 1
  {
    confirmed := [];
    verified := [];
    while |verified| < |cands|
      invariant |verified| <= |cands| && verified == cands[..|verified|]
      invariant confirmed == Confirmed(verified, accept)
      invariant forall i :: 0 <= i < |verified| ==> !QuotaMetAt(cands, i, topK, accept)
      invariant |confirmed| < topK || confirmed == []
    {
      var candidate := cands[|verified|];
      ghost var v := |verified|;
      assert cands[..v + 1] == verified + [candidate];
      ConfirmedStep(verified, candidate, accept);
      verified := verified + [candidate];
      if accept(candidate) {
        confirmed := confirmed + [candidate];
        if |confirmed| >= topK {
          break;
        }
      }
      assert !QuotaMetAt(cands, v, topK, accept);
      NoQuotaStep(cands, v, topK, accept);
    }
  }

  // ---------------------------------------------------------------------------
  // infer_brands_from_serp

  /** The `tokens` dictionary's counts once the tokens `s` have been counted. */
  function TokenCounts(s: seq<string>): map<string, nat>
  {
    map t | t in s :: Seqs.Count(s, t)
  }

  /** Every first-seen token is a token of the stream. */
  lemma DedupInStream(s: seq<string>)
    ensures forall t :: t in Seqs.DedupBy(s, Id) ==> t in s
  {
    Seqs.DedupKeys(s, Id);
    var keys := Seqs.DedupBy(s, Id);
    forall t | t in keys
      ensures t in s
    {
      var i :| 0 <= i < |keys| && keys[i] == t;
      assert Id(keys[i]) in Seqs.KeysOf(keys, Id);
    }
  }

  /** The candidate tokens `infer_brands_from_serp` derives from the items of its search. */
  function CandidatesFor(product: string, items: seq<SerpClient.Item>): seq<string>
  {
    var stream := TokenStream(items, IgnoreWords(product));
    DedupInStream(stream);
    Candidates(Seqs.DedupBy(stream, Id), TokenCounts(stream))
  }

  /**
    `infer_brands_from_serp(product, top_k)`. `verified` lists the candidates
    put to the model, in order. Without a configured search, or when the
    search raises, nothing is inferred.
   */
  method InferBrands(product: string, topK: int, searchConfigured: bool, modelConfigured: bool,
                     search: SerpClient.Search, ask: Ask)
    returns (brands: seq<string>, verified: seq<string>)
    ensures !searchConfigured || search(product + " reviews").Err? ==> brands == [] && verified == []
    ensures searchConfigured && search(product + " reviews").Ok? ==>
              ConfirmationRun(CandidatesFor(product, SerpClient.ExtractItems(search(product + " reviews").value)),
                              topK, BrandTest(product, modelConfigured, ask), brands, verified)
    ensures topK >= 1 ==> |brands| <= topK
    ensures topK < 1 ==> |brands| <= 1
    ensures forall b :: b in brands ==> b in verified && Accepted(b, product, modelConfigured, ask)
  {
    if !searchConfigured {
      return [], [];
    }
    var res := search(product + " reviews");
    if res.Err? {
      return [], [];
    }
    var items := SerpClient.ExtractSnippetsFromResults(res.value);
    var ignore := IgnoreWords(product);
    var keys, counts := CountTokens(items, ignore);
    ghost var stream := TokenStream(items, ignore);
    assert counts == TokenCounts(stream);
    DedupInStream(stream);
    var candidates := Candidates(keys, counts);
    assert candidates == CandidatesFor(product, SerpClient.ExtractItems(res.value));
    brands, verified := ConfirmBrands(candidates, topK, BrandTest(product, modelConfigured, ask));
  }
}
