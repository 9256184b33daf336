# Brand review collection and labelling, modelled in Dafny

This project models the decision-making core of a product-review analysis tool.
Given a product, the tool finds brands, collects review snippets for each brand
from a web-search API, and labels each snippet with a sentiment model. The
modelled parts are:

- **The snippet collector** (`serpapi_client.py`, module `SerpClient`). It
  flattens a search response into (title, snippet, link) items. For one
  product and brand it issues three queries in order: amazon.in, flipkart.com,
  then unscoped. It keeps the first item for each link value and stops once
  the records reach the quota. A failing query is skipped.
- **The retrying model call** (`mistral_helper.py`, module `MistralRetry`). It
  makes up to `retries` attempts. A rate-limit or capacity error ("429" or
  "capacity" in the message) is retried after a linearly growing wait plus
  jitter. Any other error gives the empty string, and so does running out of
  attempts.
- **Brand handling** (`main.py`, module `BrandInference`). It covers:
  - parsing the comma-separated brand list typed by the user;
  - the yes/no brand check on a model reply;
  - `infer_brands_from_serp`, which filters and counts title-case tokens of
    search results, ranks them by count (stably, highest first), keeps the top
    15, and confirms them one at a time until `top_k` are confirmed.
- **The labeller** (`analyzer.py`, module `Analyzer`). `detect_and_return`
  labels each row. Blank text becomes "unknown" without calling the model.
  Other text is cut to 512 characters and classified; the label is read from
  `out[0]` or `out[0][0]` depending on the output's shape. An exception ends
  the whole call.

Supporting modules:

- `Wrappers` holds `Option` and `Result`.
- `Text` holds the Python string operations the code relies on: `strip`,
  `strip(chars)`, `split(sep)`, `split()`, `lower`, `istitle` and substring
  `in`. Each is restricted to ASCII.
- `Seqs` holds the seen-set deduplication loop and occurrence counting.

Everything outside the program is a parameter of the model:

- **Search.** `search(query)` is the response, or the message of the
  exception it raised.
- **Clock.** `clock(k)` is the timestamp read when the `k`-th record is
  appended.
- **Chat client.** `client(prompt, k)` is the reply to the `k`-th attempt, or
  the exception text.
- **Jitter.** `jitter(k)` is the `random.uniform(0, 3)` value drawn after
  attempt `k`.
- **Brand-check model.** `ask(word, product)` is the model's reply, or the
  exception text.
- **Pipeline.** `classify(text)` is the pipeline's output, or the exception
  text.

Sleeps are not performed. `CallWithRetry` returns the waits it would sleep.
The loops that change state step by step are methods with loop invariants:

- `ExtractSnippetsFromResults`, `CollectNewItems` and `GetReviewsForBrand`;
- `CallWithRetry`;
- `TallyWords`, `CountTokens` and `ConfirmBrands`, which `InferBrands` calls in turn;
- `DetectAndReturn`.

Most methods are proved against a specification function built from the
inputs, and the properties the code promises are lemmas about those
functions. `CallWithRetry` and `ConfirmBrands` state their properties
directly in their postconditions.

Where the code behaves differently from what its docstrings or parameter
names suggest, the model follows the code:

- **Linkless items.** An item without a link is not treated specially: `None`
  is one more key of the seen-set. So the first linkless item is kept and later
  ones are dropped.
- **Linear backoff.** The backoff is linear (`base_wait * attempt` plus
  jitter), although the docstring calls it exponential.
- **Non-positive quota.** The quota check follows the append, and the check
  after each query passes at once. With `max_snippets <= 0`, at most one
  record is collected, and collection stops after the first query that does
  not raise, even when that query returned no item (`Cap`).
- **Non-positive `top_k`.** Likewise, with `top_k <= 0` the confirmation loop
  stops at the first confirmed brand.

## Model

| member | source | states |
|---|---|---|
| Text.StripChars | main.py:106 | `w.strip(chars)` is a contiguous slice of `w`. Every character dropped before or after it is one of `chars`, and the slice neither starts nor ends with one of them. |
| Text.Strip | main.py:70 | `str.strip()` with no argument: `StripChars` with the ASCII whitespace characters, as used on the model reply, on each brand segment (main.py:136) and in the blank test (analyzer.py:30). |
| Text.StripCharsIdempotent | main.py:136 | Stripping an already stripped segment changes nothing, so a parsed brand is its own stripped form. |
| Text.StripKeepsNoneOf | main.py:136 | Stripping only removes characters: a comma-free segment stays comma-free. |
| Text.IsBlankIff | analyzer.py:30 | `not text.strip()` holds exactly when the text is empty or all whitespace. |
| Text.Lower | main.py:70 | `lower()` keeps the length and lowers each letter in place. |
| Text.ContainsIff | main.py:71 | The substring test holds exactly when the pattern occurs at some position of the string. |
| Text.SplitOn | main.py:136 | `split(",")` gives at least one segment, and no segment contains the separator. |
| Text.SplitAppend | main.py:136 | Splitting at a separator splits the text on each side of it independently, one list after the other. |
| Text.JoinSplit | main.py:136 | Joining the segments of `s.split(sep)` with `sep` gives back `s`, so the split loses no character. |
| Text.SplitNoneOf | main.py:136 | Input without a separator splits into itself alone. |
| Text.NonEmpty | main.py:136 | The `if b.strip()` filter keeps no empty string and drops no non-empty one, and never lengthens the list. |
| Text.NonEmptyAppend | main.py:136 | The filter works element by element: filtering a concatenation concatenates the filtered parts, so order and repeats are kept. |
| Text.NonEmptyKeepsOrder | main.py:136 | The kept strings are those at an increasing list of positions, which are exactly the positions of the non-empty strings. |
| Text.Words | main.py:105 | `txt.split()` yields non-empty words without whitespace. |
| Text.WordsNoSpace | main.py:105 | A whitespace-free text is one word, or no word when empty. |
| Text.WordsAppend | main.py:105 | A whitespace character ends a word: the words of the text before it are followed by the words of the text after it. With `WordsNoSpace`, `split()` yields exactly the maximal whitespace-free runs, in order. |
| Text.TitleScanIff | main.py:107 | CPython's one-pass `istitle` scan agrees, from any scan state, with a position-by-position statement of title case. |
| Text.IsTitleIff | main.py:107 | `istitle()` holds exactly when the word has a letter, no capital follows a letter, and every lower-case letter follows a letter. |
| Seqs.DedupKeys | serpapi_client.py:59-74 | After the seen-set loop, the seen-set is the set of links of all items scanned. |
| Seqs.DedupDistinct | serpapi_client.py:70-74 | No two kept items share a link. |
| Seqs.DedupFirstOccurrences | serpapi_client.py:70-74 | The kept items are exactly the first item with each link, in input order. |
| Seqs.DedupPrefix | serpapi_client.py:61-90 | Items kept from earlier queries stay, as a prefix, when later queries add items. |
| Seqs.Count | main.py:108 | A token's count is at most the stream length, and it is zero exactly when the token never occurs. |
| SerpClient.SnippetText | serpapi_client.py:41 | The snippet is the result's own snippet if truthy, else the truthy query preview, else "". It is "" exactly when neither is truthy. |
| SerpClient.ExtractSnippetsFromResults | serpapi_client.py:36-44 | There is one item per organic result, in order, with its title, link and snippet text. A response without `organic_results` yields no items. |
| SerpClient.Queries | serpapi_client.py:53-57 | The three queries are pairwise distinct. |
| SerpClient.Stream | serpapi_client.py:61-69 | The items of the issued queries, in order; a query that raises contributes none. |
| SerpClient.Kept | serpapi_client.py:70-74 | The first item for each link value; `Seqs.DedupFirstOccurrences` states what is kept. |
| SerpClient.ToRecord | serpapi_client.py:75-86 | The record appended for one item has the searched brand and product, source "snippet", the item's snippet text and link, its title or "" when it has none, and the given timestamp. |
| SerpClient.Records | serpapi_client.py:75-86 | The records of a list of kept items, the `k`-th stamped with `clock(k)`; `RecordsFields` states what they hold. |
| SerpClient.RecordsFields | serpapi_client.py:75-86 | There is one record per item, in order. The `k`-th carries the `k`-th item's link and snippet, the brand, the product, source "snippet" and the timestamp `clock(k)`. |
| SerpClient.Cap | serpapi_client.py:87-90 | The number of records at which collection stops: `max_snippets`, or 1 when it is not positive. |
| SerpClient.CollectedFacts | serpapi_client.py:58-93 | A collection holds at most the quota of records, no two with the same link, and each is tagged with the brand, the product and source "snippet". |
| SerpClient.CollectNewItems | serpapi_client.py:70-88 | The item loop leaves exactly the capped first-per-link records of everything scanned so far. The quota is met exactly when the kept items reach it; otherwise the seen-set and records stay in step. |
| SerpClient.GetReviewsForBrand | serpapi_client.py:47-93 | The queries are issued in order. A failing query is skipped, and a later query is issued only while the quota is unmet. The records are the first `Cap(max)` first-per-link items the issued queries returned. They are at most `max` (at most 1 when `max <= 0`), have distinct links, and are tagged with the brand. |
| MistralRetry.IsTransient | mistral_helper.py:28 | The retry test on an error message; `TransientIff` states what it decides. |
| MistralRetry.TransientIff | mistral_helper.py:28 | An error is retried exactly when "429" or "capacity" occurs in its message. |
| MistralRetry.CallWithRetry | mistral_helper.py:15-37 | For a non-negative `base_wait`: at most `retries` attempts are made (none when `retries <= 0`). Every attempt but the last failed transiently, and the loop stops early only on success or a non-transient error. The reply is the stripped content of a successful last attempt, else "". The wait after attempt `k` lies within `[base_wait*k, base_wait*k + 3]`. When every attempt is transient, all `retries` are used and the reply is "". |
| BrandInference.StripEach | main.py:136 | Each segment is stripped in place, one for one. |
| BrandInference.ParsedBrandFacts | main.py:136 | Every parsed brand is the stripped form of a comma-separated segment, and it is itself stripped and comma-free. |
| BrandInference.SegmentParsed | main.py:136 | Every segment that is not blank contributes its stripped form. |
| BrandInference.ParseBrands | main.py:136 | The brand list is the non-empty stripped comma-separated segments; its properties are the lemmas below. |
| BrandInference.StripEachAppend | main.py:136 | Stripping is done segment by segment. |
| BrandInference.ParseBrandsAppend | main.py:136 | A comma splits the input into two lists that parse independently and are concatenated, so segment order and repeated names are kept. |
| BrandInference.ParseBrandsOrder | main.py:136 | The `k`-th brand is the stripped `idx[k]`-th segment, for increasing positions `idx` that are exactly the segments whose stripped form is not empty. |
| BrandInference.ParseBrandsFacts | main.py:136 | The parsed brands are exactly the non-empty stripped segments. There are no more of them than segments, and the segments rejoin to the input. Input without a comma gives its stripped self, or nothing if blank. |
| BrandInference.IsWordABrand | main.py:57-75 | The brand check on a model reply; `IsWordABrandIff` states what it decides. |
| BrandInference.LowerContainsYes | main.py:70-71 | "yes" occurs in the lowered reply exactly when some three consecutive reply characters lower to "yes". |
| BrandInference.IsWordABrandIff | main.py:57-75 | A word is confirmed exactly when the model is configured, the call returned, and the stripped reply has "yes" in any letter case at some position. An unconfigured model or a raised call gives false. |
| BrandInference.IgnoreWords | main.py:94-100 | The words ignored for a product: the lower-cased words of the product and the 29 stop words (`StopWords`). |
| BrandInference.Qualifies | main.py:106-107 | The token test: title case, longer than two characters, and lowered not an ignored word; words are first stripped of the punctuation `.,!?:;()[]{}` (`Punctuation`). |
| BrandInference.ItemText | main.py:104 | The text tokenised for one item: its title or "" when it has none, a space, then its snippet; `ItemTextWords` states what its words are. |
| BrandInference.ItemTextWords | main.py:104-105 | The words of an item's text are the words of its title followed by those of its snippet: the joining space never glues two words together. |
| BrandInference.QualifyingTokens | main.py:105-107 | Every token counted from a text is title case, longer than two characters, and, lowered, neither a stop word nor a product word. |
| BrandInference.TokenStream | main.py:103-107 | Every token counted from all items qualifies in the same way. |
| BrandInference.TallyWords | main.py:105-108 | Counting one item's words extends the tally by exactly that item's qualifying tokens. |
| BrandInference.CountTokens | main.py:102-108 | The `tokens` dictionary's keys are the distinct qualifying tokens in order of first occurrence. Each maps to its number of occurrences, and every key qualifies. |
| BrandInference.Pairs | main.py:110 | `tokens.items()` lists each key with its count, in insertion order. |
| BrandInference.SortByCountDesc | main.py:110 | `sorted(..., key=count, reverse=True)` as an insertion sort; its properties are `SortPermutes`, `SortDescending` and `SortStable`. |
| BrandInference.InsertPermutes | main.py:110 | One insertion step adds exactly the inserted pair. |
| BrandInference.InsertWithCount | main.py:110 | One insertion step puts the inserted pair before the others with its count. |
| BrandInference.InsertSorted | main.py:110 | One insertion step keeps counts in descending order. |
| BrandInference.SortPermutes | main.py:110 | The reverse sort by count is a permutation of the pairs. |
| BrandInference.SortDescending | main.py:110 | The sorted pairs have non-increasing counts. |
| BrandInference.SortStable | main.py:110 | The sort is stable: pairs with equal counts keep their insertion order. |
| BrandInference.SortFacts | main.py:110 | The sort is a stable permutation in descending count order. |
| BrandInference.Top | main.py:110 | The first 15 sorted pairs. |
| BrandInference.Candidates | main.py:110 | The tokens of the first 15 sorted pairs; `CandidatesFacts` states what they are. |
| BrandInference.RankedPairs | main.py:110 | Every ranked pair is a key with its own count. |
| BrandInference.CandidateCounts | main.py:110 | There are `min(|tokens|, 15)` candidates, and the `i`-th is a counted token with the `i`-th ranked count. |
| BrandInference.CandidatesOrdered | main.py:110 | The candidates are counted tokens in non-increasing count order, `min(|tokens|, 15)` of them. |
| BrandInference.CandidatesAreTop | main.py:110 | No token left out of the candidates has a higher count than any candidate. |
| BrandInference.CandidatesStable | main.py:110 | Among the candidates with a given count are the first-seen tokens with that count, in first-seen order. |
| BrandInference.CandidatesFacts | main.py:110 | The candidates are the top 15 tokens by count, ordered and stable, with no better token left out. |
| BrandInference.Confirmed | main.py:113-119 | The confirmed brands are exactly the candidates the model accepts, no more of them than candidates. |
| BrandInference.ConfirmedAppend | main.py:113-119 | Confirmation goes candidate by candidate: the confirmations of a concatenation are those of its parts, in order. |
| BrandInference.ConfirmBrands | main.py:113-121 | Candidates are put to the model in order. The run stops before the last candidate only right after the confirmation that reaches `top_k`. The result is the accepted candidates among those asked, in the order asked: at most `top_k`, or at most one when `top_k <= 0`. |
| BrandInference.InferBrands | main.py:78-121 | With search unconfigured, or when the initial search raises, nothing is inferred and nothing is asked. Otherwise the confirmation run is over the candidates of that search's items. It yields at most `top_k` brands when `top_k >= 1`, and at most one otherwise, each asked and accepted. |
| Analyzer.Truncate | analyzer.py:33 | `text[:512]` is the prefix of length `min(|text|, 512)`. |
| Analyzer.PickLabel | analyzer.py:35-40 | A non-list output gives "unknown", as does a list whose first item is neither a dict nor a list. An empty list raises. |
| Analyzer.PickLabelShapes | analyzer.py:35-40 | A real label comes from the dict at `out[0]` or `out[0][0]`, whichever the shape selects. A dict without `label` raises, at either place; so do an empty inner list and a non-dict at `out[0][0]`. |
| Analyzer.LabelFor | analyzer.py:30-40 | The label of one text, the specification `LabelText` is proved against; `BlankIsUnknown` and `LabelForTruncated` state its properties. |
| Analyzer.BlankIsUnknown | analyzer.py:30-31 | Blank text is labelled "unknown" whatever the pipeline would answer, and the pipeline is not called for it. |
| Analyzer.LabelForTruncated | analyzer.py:30-33 | For a non-blank text of at least 512 characters, appending more characters never changes its label. |
| Analyzer.BlankPrefixReachesPipeline | analyzer.py:30-33 | Blankness is tested on the whole text before truncation. A text whose first 512 characters are whitespace but which is not blank sends those 512 whitespace characters to the pipeline and takes its label, although they alone would be labelled "unknown". |
| Analyzer.Calls | analyzer.py:29-33 | The pipeline is called at most once per row, each time with at most 512 characters. |
| Analyzer.CallsFromRows | analyzer.py:29-33 | Every text the pipeline receives is the truncation of a non-blank row text. |
| Analyzer.Labels | analyzer.py:29-41 | The in-order labelling of the rows, or the first failure; `LabelsSucceed` and `LabelsFail` state its properties. |
| Analyzer.Attempted | analyzer.py:29-41 | No more rows are processed than there are. |
| Analyzer.FailureSticks | analyzer.py:29-42 | Once a row fails, the whole call fails with that error, and no further row is processed. |
| Analyzer.LabelsSucceed | analyzer.py:19-42 | The call succeeds exactly when every row's label can be computed. It then gives one output row per input row, in order, with the row's id and label, and processes every row. |
| Analyzer.LabelsFail | analyzer.py:19-42 | A failing call fails with the error of the first row whose label cannot be computed, and that row is the last processed. |
| Analyzer.LabelText | analyzer.py:30-40 | One loop step, written as statements, gives the label `LabelFor` specifies for the row and the text passed to the pipeline: the truncated text, or nothing when blank. |
| Analyzer.DetectAndReturn | analyzer.py:19-42 | The result is the in-order labelling of all rows, or the first failure. The pipeline inputs are those of the rows processed up to that point. |

## Left out

- Printing, `st.info`, `st.warning`, `st.error` and `st.spinner`: messages to the user have no effect on results.
- `time.sleep` pacing in the collector (0.5–1.2 s between queries) and the backoff sleeps: time is not modelled. `CallWithRetry` returns the waits instead.
- The search parameters `num=10` and `num=20`, engine, language and country: they shape what `search` returns, which is a parameter.
- Calls into `serpapi`, `mistralai`, `transformers`, `torch`, `pandas` and `streamlit`: each is a parameter or left out.
- The `st.cache_data`/`st.cache_resource` caches and `load_pipeline` (`analyzer.py:11-17`): caching and model loading do not change results.
- `db.py`, `ui.py`, `visualize.py`, `scraper.py`, `emotion_model.py` and the rest of `main.py`'s app flow: not part of this model.
- Text.Lower, Text.Strip, Text.Words, Text.IsTitle: ASCII only. Python's Unicode case mapping, Unicode whitespace and Unicode title-case rules are not modelled.
- Analyzer.PickLabel: a `label` value that is not a string is not modelled. Labels are strings.
- SerpClient.SnippetText: an `AttributeError` from a `rich_snippet` or `top` value that is not a dict is not modelled. Both are read as absent.
- MistralRetry.CallWithRetry: a negative `base_wait` is excluded by its precondition. With one, a wait can be negative and `time.sleep` then raises `ValueError` out of the function; that crash is not modelled.
- CallWithRetry, IsWordABrand, Labels: exception types are not distinguished. A failing call is its message, and only what the code reads from it is modelled.
- A missing `id` column or an `id` that `int()` cannot convert, in `detect_and_return`: row ids are integers.
