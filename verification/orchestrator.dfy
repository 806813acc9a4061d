/**
 * main.py: deciding whether a crawl is complete, and what the entry point
 * does next: process an existing progress file, run the crawl and process
 * its result, or stop.
 */
module Orchestrator {
  import opened Records
  import Config

  /**
   * The part of the crawler's saved state the entry point reads: the pages
   * done so far and the page count found, both per search term.
   */
  datatype CrawlState = CrawlState(completedPages: map<string, set<int>>, totalPages: map<string, int>)

  /** `len(state.completed_pages.get(term, set()))` */
  function PagesDone(state: CrawlState, term: string): nat {
    if term in state.completedPages then |state.completedPages[term]| else 0
  }

  /** A term is finished when its page count is known and at least that many pages are done. */
  predicate TermComplete(state: CrawlState, term: string) {
    term in state.totalPages && PagesDone(state, term) >= state.totalPages[term]
  }

  /** The crawl is complete when there is a state and every search term is finished. */
  predicate Complete(state: Option<CrawlState>) {
    state.Some? && forall k :: 0 <= k < |Config.SearchTerms| ==> TermComplete(state.value, Config.SearchTerms[k])
  }

  /**
   * `check_completion_status`: false without a state; otherwise the terms
   * are checked in order and the first one whose page count is unknown or
   * not yet reached makes the answer false.
   */
  method CheckCompletionStatus(state: Option<CrawlState>) returns (complete: bool)
    ensures complete <==> Complete(state)
  {
    if state.None? {
      return false;
    }
    var s := state.value;
    var terms := Config.SearchTerms;
    var k := 0;
    while k < |terms|
      invariant 0 <= k <= |terms|
      invariant forall j :: 0 <= j < k ==> TermComplete(s, terms[j])
    {
      var term := terms[k];
      var completed := PagesDone(s, term);
      if term !in s.totalPages || completed < s.totalPages[term] {
        return false;
      }
      k := k + 1;
    }
    return true;
  }

  /** Finishing more pages never makes a complete crawl incomplete. */
  lemma CompletionMonotone(state: CrawlState, more: CrawlState)
    requires Complete(Some(state))
    requires more.totalPages == state.totalPages
    requires forall t :: t in state.completedPages ==> t in more.completedPages && state.completedPages[t] <= more.completedPages[t]
    ensures Complete(Some(more))
  {
    forall k | 0 <= k < |Config.SearchTerms|
      ensures TermComplete(more, Config.SearchTerms[k])
    {
      var t := Config.SearchTerms[k];
      assert TermComplete(state, t);
      if t in state.completedPages {
        SubsetCardinality(state.completedPages[t], more.completedPages[t]);
      }
    }
  }

  /** A search term whose page count is unknown keeps the crawl incomplete, whatever pages are done. */
  lemma UnknownTotalIncomplete(state: CrawlState, k: nat)
    requires k < |Config.SearchTerms| && Config.SearchTerms[k] !in state.totalPages
    ensures !Complete(Some(state))
  {
  }

  /** A search term with no pages recorded counts as having none done. */
  lemma NoPagesRecorded(state: CrawlState, term: string)
    requires term !in state.completedPages
    ensures TermComplete(state, term) <==> term in state.totalPages && state.totalPages[term] <= 0
  {
  }

  /** Only the configured search terms matter: states that agree on them are equally complete. */
  lemma OtherTermsIrrelevant(s1: CrawlState, s2: CrawlState)
    requires forall t :: t in Config.SearchTerms ==>
      && PagesDone(s1, t) == PagesDone(s2, t)
      && (t in s1.totalPages <==> t in s2.totalPages)
      && (t in s1.totalPages ==> s1.totalPages[t] == s2.totalPages[t])
    ensures Complete(Some(s1)) <==> Complete(Some(s2))
  {
    assert forall k :: 0 <= k < |Config.SearchTerms| ==> Config.SearchTerms[k] in Config.SearchTerms;
  }

  lemma SubsetCardinality(a: set<int>, b: set<int>)
    requires a <= b
    ensures |a| <= |b|
  {
    assert b == a + (b - a);
  }

  /** How the call to the crawler ended. */
  datatype ScrapeOutcome =
    | Finished(state: Option<CrawlState>)  // `scraper.run()` returned this state
    | Interrupted                          // KeyboardInterrupt: `state` stays None
    | Crashed                              // any other exception: the entry point returns

  /** What the entry point goes on to do. */
  datatype Action =
    | ProcessExisting   // process-only mode: the crawl is not run at all
    | ProcessScraped    // the crawl completed: process the progress file
    | ReportIncomplete  // the crawl stopped short: tell the user how to resume
    | Stop              // nothing more to do

  /** `len(sys.argv) > 1 and sys.argv[1] == '--process-only'` */
  predicate ProcessOnlyFlag(argv: seq<string>) {
    |argv| > 1 && argv[1] == "--process-only"
  }

  /**
   * The control flow of `main`, with its environment given: whether the
   * progress file exists before and after the crawl, the command line, and
   * how the crawl ended (used only when the crawl is run).
   */
  function Decide(progressBefore: bool, argv: seq<string>, scrape: ScrapeOutcome, progressAfter: bool): (a: Action)
    ensures a == ProcessExisting <==> progressBefore && ProcessOnlyFlag(argv)
  {
    if progressBefore && ProcessOnlyFlag(argv) then ProcessExisting
    else
      match scrape
      case Crashed => Stop
      case Interrupted => Stop
      case Finished(state) =>
        if state.None? then Stop
        else if Complete(state) && progressAfter then ProcessScraped
        else ReportIncomplete
  }

  /**
   * The crawl's result is processed exactly when process-only mode was not
   * chosen, the crawl returned a state covering every search term, and the
   * progress file exists afterwards; an interrupted or failed crawl is never
   * processed.
   */
  lemma ProcessScrapedOnlyWhenComplete(progressBefore: bool, argv: seq<string>, scrape: ScrapeOutcome, progressAfter: bool)
    ensures Decide(progressBefore, argv, scrape, progressAfter) == ProcessScraped <==>
      && !(progressBefore && ProcessOnlyFlag(argv))
      && scrape.Finished? && Complete(scrape.state) && progressAfter
  {
  }

  /** In process-only mode with an existing progress file, how a crawl would have ended makes no difference. */
  lemma ProcessOnlyIgnoresCrawl(argv: seq<string>, s1: ScrapeOutcome, s2: ScrapeOutcome, after1: bool, after2: bool)
    requires ProcessOnlyFlag(argv)
    ensures Decide(true, argv, s1, after1) == Decide(true, argv, s2, after2) == ProcessExisting
  {
  }
}
