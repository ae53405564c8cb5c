/** One press of "Start" (cewl.py:156-218): normalise the typed URL, crawl
    from it, and merge the crawled words with the pre-existing word lists. */
module Session {
  import opened Wrappers
  import opened Text
  import opened Tokenizer
  import opened Order
  import opened Crawler
  import opened Wordlist
  import opened Seed

  /** `None` when the URL field is blank and no crawl starts; otherwise the
      sorted, duplicate-free list the session writes out. The list of
      pre-existing files is empty when an output path was chosen up front. */
  method StartCrawl(env: Env, input: string, maxDepth: int, files: seq<FileRead>) returns (out: Option<seq<string>>)
    ensures out.None? <==> AllSpace(input)
    ensures out.Some? ==> StrictlySorted(out.value) && NoDuplicates(out.value)
    ensures out.Some? ==> forall w :: w in out.value <==>
              w in Run(env, NormalizeSeed(input).value, maxDepth).words || w in FileWords(files)
    ensures out.Some? ==> forall w :: w in out.value ==> IsWord(w, env.minLen) || w in FileWords(files)
  {
    match NormalizeSeed(input)
    case None =>
      out := None;
    case Some(seed) =>
      var words := CrawlWebsite(env, seed, maxDepth);
      out := Some(Merge(words, files));
  }

}
