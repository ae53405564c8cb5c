# CeWL word-list crawler, modelled in Dafny

CeWL (`cewl.py`) builds a password-cracking word list from a web site. It
starts at a seed URL and crawls depth-first. Each link it follows costs one
unit of depth. The crawl keeps a `visited` set, so no URL is fetched twice.
It only reads pages whose status is 200 and whose Content-Type mentions
"text" or "html". The visible text of such a page is split on whitespace.
Each token keeps only its letters and digits, tokens shorter than the
minimum length are dropped, and the rest are lower-cased. Once the crawl
finishes, the words are sorted. When the user picked no output file, the
non-empty stripped lines of word lists already found on disk are merged in.
The merged list is then sorted and de-duplicated. A shared stop flag can
cut the crawl short at any time.

The model is functional. `Crawler.Crawl` and `Crawler.CrawlHrefs` are
mutually recursive functions. They thread an immutable `State` holding the
visited set, the word set, the log of fetched URLs and a count of crawl
calls entered. The network and the HTML parser become the oracle
`Env.fetch`. `urljoin` becomes the oracle `Env.join`. The stop flag is
`StopFlag`: the first call entry that sees the flag set, or never. The flag
is only read on entry to a call and a `threading.Event` is not cleared while
a crawl runs, so this is all the crawl can observe.

Modules:

| file | module | what |
|---|---|---|
| wrappers.dfy | Wrappers | `Option` |
| text.dfy | Text | Python whitespace, `str.strip`, ASCII `lower`/`isalnum`, substring test |
| tokenizer.dfy | Tokenizer | `split()`, the alphanumeric filter, the words of a page |
| links.dfy | Links | which anchors are followed |
| order.dfy | Order | Python string order, `sorted(set(...))` |
| crawler.dfy | Crawler | `crawl_website` and its inner `crawl` |
| crawl_properties.dfy | CrawlProperties | no refetching, depth bound, word set, cancellation |
| merge.dfy | Wordlist | merging pre-existing word lists |
| seed.dfy | Seed | normalising the typed URL |
| session.dfy | Session | one press of "Start": seed, crawl, merge |

Where a page has no Content-Type header, the crawler's own lookup falls back
to `""` (`headers.get("Content-Type", "")`, cewl.py:30). The oracle therefore
supplies `""` in that case.

With a minimum length of 0 or less, a token with no letter or digit
(such as `!`) contributes the empty word, as `Tokenizer.EmptyWordAtMinimumZero`
shows. The written list then holds a blank line, which a later merge drops,
so `Wordlist.MergeReadsBackOutput` assumes the list has no empty word.

`crawl_website` returns a list, so the worker always takes the
`sorted(set(words))` branch (cewl.py:218). The `sorted(words)` branch for
a set (cewl.py:216) is dead code, and both branches compute the same list.

## Model

| member | source | states |
|---|---|---|
| Text.Lower | cewl.py:30 | the result has the input's length and each character lower-cased; letters and digits come out as lower-case letters and digits |
| Text.ContainsOccurs | cewl.py:31 | `sub in s` holds exactly when `sub` occurs in `s` at some offset |
| Text.Strip | cewl.py:40 | the result has no whitespace at either end; it is empty exactly when the input is all whitespace; an input with no edge whitespace comes back unchanged |
| Text.StripLeftSpec | cewl.py:40 | stripping the left end removes exactly the leading whitespace and leaves nothing or a non-whitespace first character |
| Text.StripRightSpec | cewl.py:40 | stripping the right end removes exactly the trailing whitespace and leaves nothing or a non-whitespace last character |
| Text.StripIsSlice | cewl.py:40 | the result is the contiguous piece of the input that starts where the leading whitespace ends |
| Text.StripDropsOnlySpace | cewl.py:40 | everything removed before and after that piece is whitespace |
| Text.StripIdempotent | cewl.py:157 | stripping twice is stripping once |
| Tokenizer.Tokens | cewl.py:35 | every token of `split()` is non-empty and holds no whitespace |
| Tokenizer.TokensSplit | cewl.py:35 | a whitespace character separates tokens: the tokens of `a c b` are the tokens of `a` followed by those of `b` |
| Tokenizer.TokensOfWord | cewl.py:35 | a non-empty run without whitespace is exactly one token |
| Tokenizer.TokensOfSpace | cewl.py:35 | whitespace alone yields no tokens |
| Tokenizer.Clean | cewl.py:36 | the filtered token consists of letters and digits, is no longer than the token, and equals the token when the token is all letters and digits |
| Tokenizer.CleanAppend | cewl.py:36 | filtering distributes over concatenation |
| Tokenizer.CleanChar | cewl.py:36 | a single character is kept exactly when it is a letter or digit |
| Tokenizer.PageWords | cewl.py:35-38 | every word is lower-case letters and digits, at least the minimum length, and comes from one token of the text whose filtered form is long enough; conversely every such token contributes its word |
| Tokenizer.PageWordsSplit | cewl.py:34-38 | the words of text joined by whitespace are the union of the words of each side |
| Tokenizer.PageWordsOfOneToken | cewl.py:35-38 | text consisting of one long-enough token contributes exactly that token's word |
| Tokenizer.EmptyWordAtMinimumZero | cewl.py:36-38 | with a minimum length of 0 or less, a token without letters or digits contributes the empty word |
| Tokenizer.PageWordsOfAlnumToken | cewl.py:35-38 | an alphanumeric token at least the minimum length contributes exactly its lower-cased self |
| Links.ResolveOne | cewl.py:40-50 | an anchor is followed only to an http(s) URL; a stripped absolute href is followed verbatim without consulting `join`; otherwise it is followed exactly when `join` succeeds with an http(s) URL, and then to that URL |
| Links.FollowedLinks | cewl.py:39-50 | a page never yields more followed links than it has anchors |
| Links.FollowedLinksMembership | cewl.py:39-50 | a URL is followed from a page exactly when some anchor of the page resolves to it |
| Links.AbsoluteLinksKept | cewl.py:40-42 | when every href is absolute http(s), the followed links are the stripped hrefs in document order, whatever `join` does |
| Links.MailtoDropped | cewl.py:43-50 | a `mailto:` anchor is dropped when the join does not make it http(s) |
| Order.LessIrreflexive | cewl.py:55 | no string is below itself |
| Order.LessAsymmetric | cewl.py:55 | string order is asymmetric |
| Order.LessTransitive | cewl.py:55 | string order is transitive |
| Order.LessTotal | cewl.py:55 | any two different strings are ordered one way or the other |
| Order.SortedHasNoDuplicates | cewl.py:55 | a strictly sorted list has no repeats |
| Order.Insert | cewl.py:55 | inserting into a strictly sorted list keeps it strictly sorted and adds exactly that element |
| Order.SortDedup | cewl.py:218 | `sorted(set(xs))` is strictly sorted and holds exactly the elements of `xs` |
| Order.SortedUnique | cewl.py:218 | two strictly sorted lists with the same elements are equal, so the sorted output depends only on its elements |
| Order.SortSet | cewl.py:55 | `sorted(words)` of a set is strictly sorted and holds exactly the set's elements |
| Crawler.Accepted | cewl.py:30-32 | a response passes the gate exactly when its status is 200 and the lower-cased Content-Type contains "text" or "html" at some offset |
| Crawler.Crawl | cewl.py:21-52 | a call only adds to the visited set, the word set and the fetch log; a call that returns at its entry checks (stop flag, negative depth, visited URL) leaves them alone; well-formed words stay well-formed |
| Crawler.CrawlHrefs | cewl.py:39-50 | the anchor loop only adds to the accumulators and keeps words well-formed |
| Crawler.Run | cewl.py:54 | the crawl from the seed on empty accumulators collects only well-formed words, and visits, fetches and collects nothing when the flag was set before the start or the maximum depth is negative |
| Crawler.CrawlWebsite | cewl.py:17-55 | the result is strictly sorted and duplicate-free, its elements are exactly the crawl's word set, every element is a well-formed word, and it is empty when the flag was set before the start or the depth is negative |
| CrawlProperties.CrawlSkippedPage | cewl.py:26-32 | on a failed fetch or a rejected response a call marks the URL and adds no words and no links |
| CrawlProperties.CrawlFetchesUrlFirst | cewl.py:24-28 | a call that passes the entry checks marks its URL visited and fetches it before anything else |
| CrawlProperties.CrawlConsistent | cewl.py:24-28 | a call keeps the visited set equal to the set of fetched URLs and the fetch log free of repeats |
| CrawlProperties.HrefsConsistent | cewl.py:39-50 | the anchor loop keeps the same invariant |
| CrawlProperties.RunFetchesEachUrlOnce | cewl.py:24-28 | no URL is fetched twice in a crawl, and the visited URLs are exactly the fetched ones |
| CrawlProperties.RunWordsWellFormed | cewl.py:35-38 | every collected word is lower-case letters and digits and at least the minimum length |
| CrawlProperties.RunReturnsAtOnce | cewl.py:22-25 | a flag set before the start, or a negative maximum depth, yields no visits, no fetches and no words |
| CrawlProperties.RunRejectedSeed | cewl.py:30-32 | a seed whose fetch fails or whose response is rejected yields no words and no further fetches |
| CrawlProperties.RunFetchesSeedFirst | cewl.py:54 | otherwise the seed is the first URL fetched |
| CrawlProperties.ReachAllMembership | cewl.py:42 | a URL is within `n` links of a list of links exactly when it is within `n` links of one of them |
| CrawlProperties.ReachStep | cewl.py:42-48 | a URL is within `m + 1` links of `u` exactly when it is `u` or within `m` links of a link followed from `u` |
| CrawlProperties.CrawlWithin | cewl.py:24-48 | every URL a call fetches is within `depth` followed links of the call's URL |
| CrawlProperties.HrefsWithin | cewl.py:39-50 | the anchor loop of a page fetched at `depth` fetches only URLs within `depth - 1` links of the page's followed links |
| CrawlProperties.RunWithinDepth | cewl.py:54 | every fetched URL is within `maxDepth` followed links of the seed |
| CrawlProperties.HrefsAtDepthZero | cewl.py:42-48 | the links of a page fetched at depth 0 are crawled at depth -1 and change nothing |
| CrawlProperties.RunDepthZero | cewl.py:24-54 | with `maxDepth = 0` only the seed is fetched and only its words are collected, or nothing when the flag was set before the start |
| CrawlProperties.TraceWordsAppend | cewl.py:38 | the words of two logs joined are the union of their words |
| CrawlProperties.CrawlWords | cewl.py:33-38 | a call adds exactly the words of the pages it fetches |
| CrawlProperties.HrefsWords | cewl.py:39-50 | the same for the anchor loop |
| CrawlProperties.RunWordsExact | cewl.py:33-55 | the word set of a crawl is exactly the union of the words of the pages it fetched |
| CrawlProperties.CancelSimulates | cewl.py:22-23 | a call under a stop flag either does what the uncancelled call does or has stopped and is behind it |
| CrawlProperties.CancelHrefsSimulates | cewl.py:22-23 | the same for the anchor loop |
| CrawlProperties.RunCancelledIsPrefix | cewl.py:22-23 | cancelling only cuts a crawl short: its visits, words and fetch log are a prefix or subset of the uncancelled crawl's |
| Wordlist.LineWords | cewl.py:206-208 | each kept line is non-empty and has no edge whitespace, and no more words come out than lines went in |
| Wordlist.FileWords | cewl.py:204-211 | every word from the files is non-empty and has no edge whitespace |
| Wordlist.LineWordsMembership | cewl.py:206-208 | a word comes from a file's lines exactly when it is non-empty and some line strips to it |
| Wordlist.FileWordsMembership | cewl.py:204-211 | a word comes from the files exactly when it is non-empty and some line of some file strips to it, including a file whose read failed part-way |
| Wordlist.Merge | cewl.py:202-218 | the output is strictly sorted and duplicate-free, and holds exactly the crawled words and the file words |
| Wordlist.MergeDeterminedByWords | cewl.py:218 | any strictly sorted list of the same words is the output |
| Wordlist.MergeIdempotent | cewl.py:218 | merging the output again with no files changes nothing |
| Wordlist.MergeNoFiles | cewl.py:218 | with no files, an already strictly sorted crawl list is the output |
| Wordlist.StripNewline | cewl.py:207 | a non-empty word with no edge whitespace reads back from its line with the newline stripped |
| Wordlist.LineWordsCons | cewl.py:206-208 | a line contributes its stripped self ahead of the later lines' words, or nothing when it strips to empty |
| Wordlist.LineWordsOfWrittenList | cewl.py:206-208 | writing such words one per line and reading the lines back gives the same words |
| Wordlist.Lines | cewl.py:224-225 | one line per word, each the word followed by a newline |
| Wordlist.MergeReadsBackOutput | cewl.py:224-225 | re-reading a written output as a pre-existing list with no new words reproduces it, provided it has no empty word |
| Seed.NormalizeSeed | cewl.py:157-162 | no URL exactly when the field is blank; otherwise an http(s) URL with no edge whitespace that ends with the stripped input, exactly the stripped input when that already names an http(s) scheme, and exactly `http://` followed by the stripped input when it does not |
| Seed.NormalizeSeedIdempotent | cewl.py:157-162 | normalising the normalised URL again changes nothing |
| Seed.NotHttpByFirst | cewl.py:161 | a string not starting with `h` names no http(s) scheme |
| Seed.NormalizeUpperCaseScheme | cewl.py:161-162 | the scheme test is case-sensitive: `HTTP://x` becomes `http://HTTP://x` |
| Session.StartCrawl | cewl.py:156-218 | a blank URL starts nothing; otherwise the output is strictly sorted and duplicate-free, holds exactly the crawled words and the file words, and every element is a well-formed word or a file word |

## Left out

- `requests.get`, its timeout and every exception it raises (cewl.py:27-28, 51-52) are the oracle `Env.fetch`. It returns `None` for a failed request.
- BeautifulSoup `get_text(separator=" ")` and `find_all("a", href=True)` (cewl.py:33-34, 39) are also supplied by `Env.fetch`, as the page's text and href sequence.
- An exception raised after some words of a page were added (cewl.py:51-52) is not modelled. The oracle either yields a whole page or `None`.
- Python's `RecursionError` on very deep recursion is not modelled.
- `urljoin` (cewl.py:46) is the oracle `Env.join`. It returns `None` where the library raises (cewl.py:49-50).
- Tokenizer.Clean: keeps ASCII letters and digits only, while Python's `isalnum` also keeps non-ASCII letters and digits. The Unicode character tables are not part of this model.
- Text.Lower: lower-cases ASCII letters only. Python's `lower` follows the full Unicode case mapping, which can change a string's length.
- The stop flag is observed only through `StopFlag`. Threads, the GUI and the `after` callbacks (cewl.py:82-281) are not modelled.
- `find_txt_files_under_home` (cewl.py:57-79) walks the file system. The model receives its result as the `files` argument of `Session.StartCrawl`.
- Reading the files is also outside the model. Each read arrives as a `FileRead`, with the lines read before any error.
- The 20-file log listing and every log message are not modelled.
- Parsing the depth and minimum length with `int` (cewl.py:166-171) is not modelled. The model takes integers.
- Writing the output file is not modelled, and neither is the Save-As prompt with its host-and-timestamp file name (cewl.py:220-241). `Wordlist.Lines` only describes the lines written.
- Determinism and repeatability hold trivially because the model is functional. They are not stated separately.
