/** The decisions the userscript takes for the tweets on the page:
    `scanExistingTweets`, `restoreTranslation`, `translateTweet`, and the
    asynchronous completion of the request `translateTweet` sends. The page
    is a sequence of element handles; the answer of the remote service is
    an input to the completion step. */
module Timeline {
  import opened Wrappers
  import opened JsString
  import Store
  import Scanner
  import DeepSeekApi

  /** One tweet element as the core sees it. The first three fields are the
      host page's content and never change; `fragment` is the text of the
      attached `.deepseek-translation` block, `loading` the number of
      `.deepseek-loading` indicators inside. */
  datatype Element = Element(
    statusLinks: seq<Str>,
    dataTweetId: Option<Str>,
    texts: seq<Str>,
    fragment: Option<Str>,
    loading: nat)

  /** A request `translateTweet` has sent and whose answer has not arrived. */
  datatype Request = Request(element: nat, id: Str, text: Str, apiKey: Str, prompt: Str, showLoading: bool)

  /** The stored values, every element created so far (handles are indices),
      the handles the scan selectors find on the page, in scan order, and the
      requests in flight. */
  datatype World = World(gm: Store.Gm, dom: seq<Element>, page: seq<nat>, pending: seq<Request>)

  predicate Placed(dom: seq<Element>, page: seq<nat>, pending: seq<Request>)
  {
    (forall i | 0 <= i < |page| :: page[i] < |dom|) &&
    (forall k | 0 <= k < |pending| :: pending[k].element < |dom|)
  }

  predicate WellFormed(w: World)
  {
    Placed(w.dom, w.page, w.pending)
  }

  const FailurePrefix: Str := Lit("翻译失败: ")
  const MissingApiKeyMessage: Str := Lit("请先配置API密钥")

  function TweetId(e: Element): Option<Str>
  {
    Scanner.GetTweetId(e.statusLinks, e.dataTweetId)
  }

  /** The ID is truthy: present and not empty. */
  predicate HasId(e: Element)
  {
    TweetId(e).Some? && TweetId(e).value != []
  }

  function TweetText(e: Element): Option<Str>
  {
    Scanner.GetTweetText(e.texts)
  }

  function AutoTranslate(w: World): bool
  {
    Store.GetConfig(w.gm.config).autoTranslate
  }

  /** `GM_getValue('translation_' + id)`, with an absent value as `''`. */
  function Cached(w: World, id: Str): Str
  {
    Store.Translation(w.gm, id).GetOr([])
  }

  predicate SameContent(a: Element, b: Element)
  {
    a.statusLinks == b.statusLinks && a.dataTweetId == b.dataTweetId && a.texts == b.texts
  }

  /** What every step of a scan keeps: the page, the elements' content, the
      configuration and the cached translations; the processed set and the
      requests in flight only grow, and every new request is for a
      processed ID. */
  ghost predicate Extends(w: World, r: World)
  {
    WellFormed(r) && r.page == w.page && |r.dom| == |w.dom| &&
    r.gm == w.gm.(translatedTweets := r.gm.translatedTweets) &&
    (forall g | 0 <= g < |w.dom| :: SameContent(r.dom[g], w.dom[g])) &&
    (forall x | Store.IsProcessed(w.gm, x) :: Store.IsProcessed(r.gm, x)) &&
    w.pending <= r.pending &&
    (forall k | |w.pending| <= k < |r.pending| :: Store.IsProcessed(r.gm, r.pending[k].id))
  }

  /** `r` differs from `w` at most in element `h`. */
  predicate OthersUnchanged(w: World, r: World, h: nat)
    requires |r.dom| == |w.dom|
  {
    forall g | 0 <= g < |w.dom| && g != h :: r.dom[g] == w.dom[g]
  }

  /** `r` is a well-formed state of the same page as `w`. */
  predicate SamePage(w: World, r: World)
  {
    WellFormed(r) && r.page == w.page && |r.dom| == |w.dom|
  }

  /** `translateTweet(tweet, id)` up to the moment the request is sent (or
      the synchronous failure is shown). */
  function Translate(w: World, h: nat, id: Str): (r: World)
    requires WellFormed(w) && h < |w.dom|
    ensures SamePage(w, r)
  {
    var config := Store.GetConfig(w.gm.config);
    var e := w.dom[h];
    var text := TweetText(e);
    if !config.autoTranslate then w
    else if text.None? || |text.value| < 5 then w
    else if Store.IsProcessed(w.gm, id) && e.fragment.Some? then w
    else
      var m := Marked(w, h, id);
      Dispatched(m, h, id, text.value, Store.DecryptedApiKey(m.gm.config))
  }

  /** The tweet's ID joins the processed set and, when the configuration
      asks for it, the loading indicator is added to the element. */
  function Marked(w: World, h: nat, id: Str): (r: World)
    requires WellFormed(w) && h < |w.dom|
    ensures SamePage(w, r)
  {
    var config := Store.GetConfig(w.gm.config);
    var e := w.dom[h];
    var gm := w.gm.(translatedTweets := Store.IdsWith(w.gm.translatedTweets, id));
    var shown := if config.showLoading then e.(loading := e.loading + 1) else e;
    w.(gm := gm, dom := w.dom[h := shown])
  }

  /** With no API key the failure is shown at once and the indicator
      removed; otherwise the request for `text` is sent. */
  function Dispatched(w: World, h: nat, id: Str, text: Str, apiKey: Str): (r: World)
    requires WellFormed(w) && h < |w.dom|
    ensures SamePage(w, r)
  {
    var config := Store.GetConfig(w.gm.config);
    if apiKey == [] then
      w.(dom := w.dom[h := w.dom[h].(loading := 0, fragment := Some(FailurePrefix + MissingApiKeyMessage))])
    else
      w.(pending := w.pending + [Request(h, id, text, apiKey, config.prompt, config.showLoading)])
  }

  /** `restoreTranslation(tweet)`: show the cached translation, or translate
      again when there is none. */
  function Restore(w: World, h: nat): (r: World)
    requires WellFormed(w) && h < |w.dom| && HasId(w.dom[h])
    ensures SamePage(w, r)
  {
    var e := w.dom[h];
    var id := TweetId(e).value;
    if TweetText(e).None? then w
    else if Cached(w, id) != [] then w.(dom := w.dom[h := e.(fragment := Some(Cached(w, id)))])
    else Translate(w, h, id)
  }

  /** One element of the `forEach` in `scanExistingTweets`. */
  function ScanItem(w: World, h: nat): (r: World)
    requires WellFormed(w) && h < |w.dom|
    ensures SamePage(w, r)
  {
    var e := w.dom[h];
    if HasId(e) && e.fragment.None? then
      if Store.IsProcessed(w.gm, TweetId(e).value) then Restore(w, h)
      else Translate(w, h, TweetId(e).value)
    else w
  }

  /** The elements `hs` scanned in order. */
  function ScanItems(w: World, hs: seq<nat>): (r: World)
    requires WellFormed(w) && forall i | 0 <= i < |hs| :: hs[i] < |w.dom|
    ensures SamePage(w, r)
    decreases |hs|
  {
    if hs == [] then w
    else
      var mid := ScanItems(w, hs[..|hs| - 1]);
      ScanItem(mid, hs[|hs| - 1])
  }

  /** `scanExistingTweets()`. */
  function Scan(w: World): (r: World)
    requires WellFormed(w)
    ensures SamePage(w, r)
  {
    if !AutoTranslate(w) then w else ScanItems(w, w.page)
  }

  /** `translateTweet` touches only its own element, keeps the cached
      translations, only adds to the processed set and the requests, and
      sends requests for processed IDs only. */
  lemma TranslateExtends(w: World, h: nat, id: Str)
    requires WellFormed(w) && h < |w.dom|
    ensures Extends(w, Translate(w, h, id)) && OthersUnchanged(w, Translate(w, h, id), h)
  {
    var r := Translate(w, h, id);
    var config := Store.GetConfig(w.gm.config);
    var e := w.dom[h];
    var text := TweetText(e);
    if !config.autoTranslate || text.None? || |text.value| < 5 || (Store.IsProcessed(w.gm, id) && e.fragment.Some?) {
      assert r == w;
    } else {
      var m := Marked(w, h, id);
      assert r == Dispatched(m, h, id, text.value, Store.DecryptedApiKey(m.gm.config));
      MarkedExtends(w, h, id);
      DispatchedExtends(m, h, id, text.value, Store.DecryptedApiKey(m.gm.config));
      ExtendsTransitive(w, m, r);
    }
  }

  lemma MarkedExtends(w: World, h: nat, id: Str)
    requires WellFormed(w) && h < |w.dom|
    ensures var m := Marked(w, h, id);
      Extends(w, m) && OthersUnchanged(w, m, h) && Store.IsProcessed(m.gm, id)
  {
    var m := Marked(w, h, id);
    Store.SaveGrows(w.gm.translatedTweets, id);
    assert m.gm == w.gm.(translatedTweets := Store.IdsWith(w.gm.translatedTweets, id));
    assert m.pending == w.pending && m.page == w.page;
    assert SameContent(m.dom[h], w.dom[h]);
  }

  lemma ExtendsTransitive(a: World, b: World, c: World)
    requires Extends(a, b) && Extends(b, c)
    ensures Extends(a, c)
  {
    assert forall k | |a.pending| <= k < |b.pending| :: c.pending[k] == b.pending[k];
  }

  lemma DispatchedExtends(w: World, h: nat, id: Str, text: Str, apiKey: Str)
    requires WellFormed(w) && h < |w.dom| && Store.IsProcessed(w.gm, id)
    ensures var r := Dispatched(w, h, id, text, apiKey);
      Extends(w, r) && OthersUnchanged(w, r, h) && SameContent(r.dom[h], w.dom[h])
  {
  }

  lemma ScanItemExtends(w: World, h: nat)
    requires WellFormed(w) && h < |w.dom|
    ensures Extends(w, ScanItem(w, h)) && OthersUnchanged(w, ScanItem(w, h), h)
  {
    var e := w.dom[h];
    if HasId(e) && e.fragment.None? {
      TranslateExtends(w, h, TweetId(e).value);
    }
  }

  lemma {:induction false} ScanItemsExtends(w: World, hs: seq<nat>)
    requires WellFormed(w) && forall i | 0 <= i < |hs| :: hs[i] < |w.dom|
    ensures Extends(w, ScanItems(w, hs))
    decreases |hs|
  {
    if hs != [] {
      var mid := ScanItems(w, hs[..|hs| - 1]);
      ScanItemsExtends(w, hs[..|hs| - 1]);
      ScanItemExtends(mid, hs[|hs| - 1]);
    }
  }

  /** The answer to request `k` arrives: the rest of `translateTweet`. */
  function Complete(w: World, k: nat, response: DeepSeekApi.Response): (r: World)
    requires WellFormed(w) && k < |w.pending|
    ensures WellFormed(r) && r.page == w.page && |r.dom| == |w.dom|
    ensures r.pending == w.pending[..k] + w.pending[k + 1..]
    ensures r.gm.config == w.gm.config && r.gm.translatedTweets == w.gm.translatedTweets
    ensures OthersUnchanged(w, r, w.pending[k].element)
  {
    var req := w.pending[k];
    var rest := w.pending[..k] + w.pending[k + 1..];
    var e := w.dom[req.element];
    match DeepSeekApi.Outcome(req.apiKey, response)
    case Ok(t) =>
      var cleared := if req.showLoading then e.(loading := 0) else e;
      if t != [] then
        w.(gm := w.gm.(records := w.gm.records[req.id := t]),
           dom := w.dom[req.element := cleared.(fragment := Some(t))], pending := rest)
      else w.(dom := w.dom[req.element := cleared], pending := rest)
    case Err(m) =>
      w.(dom := w.dom[req.element := e.(loading := 0, fragment := Some(FailurePrefix + m))], pending := rest)
  }

  /** The host page replaces the element in slot `i` by a new one with the
      same content and none of the userscript's additions. */
  function Rerendered(w: World, i: nat): (r: World)
    requires WellFormed(w) && i < |w.page|
    ensures WellFormed(r) && |r.dom| == |w.dom| + 1 && |r.page| == |w.page| && r.page[i] == |w.dom|
    ensures SameContent(r.dom[|w.dom|], w.dom[w.page[i]])
    ensures r.dom[|w.dom|].fragment.None? && r.dom[|w.dom|].loading == 0
  {
    var e := w.dom[w.page[i]];
    w.(dom := w.dom + [e.(fragment := None, loading := 0)], page := w.page[i := |w.dom|])
  }

  /** The close button of a translation block removes it. */
  function Closed(w: World, h: nat): (r: World)
    requires WellFormed(w) && h < |w.dom|
    ensures WellFormed(r) && |r.dom| == |w.dom| && r.dom[h].fragment.None? && OthersUnchanged(w, r, h)
  {
    w.(dom := w.dom[h := w.dom[h].(fragment := None)])
  }

  /** Every cached translation and every request in flight belongs to a
      processed ID. */
  predicate Consistent(w: World)
  {
    (forall id | id in w.gm.records :: Store.IsProcessed(w.gm, id)) &&
    (forall k | 0 <= k < |w.pending| :: Store.IsProcessed(w.gm, w.pending[k].id))
  }

  /** Scanning one more element of `hs` is one more `ScanItem`. */
  lemma ScanItemsStep(w: World, hs: seq<nat>, i: nat)
    requires WellFormed(w) && forall j | 0 <= j < |hs| :: hs[j] < |w.dom|
    requires i < |hs|
    ensures ScanItems(w, hs[..i + 1]) == ScanItem(ScanItems(w, hs[..i]), hs[i])
  {
    assert hs[..i + 1][..i] == hs[..i];
  }

  /** With automatic translation off a scan changes nothing. */
  lemma ScanDisabledChangesNothing(w: World)
    requires WellFormed(w) && !AutoTranslate(w)
    ensures Scan(w) == w
  {
  }

  /** An element that already shows a translation block, or has no ID,
      triggers no work when it is scanned: no request, no marking, no
      change anywhere; and a whole scan leaves such an element alone. */
  lemma {:induction false} ScanSparesElement(w: World, hs: seq<nat>, h: nat)
    requires WellFormed(w) && forall i | 0 <= i < |hs| :: hs[i] < |w.dom|
    requires h < |w.dom| && (w.dom[h].fragment.Some? || !HasId(w.dom[h]))
    ensures ScanItem(w, h) == w
    ensures ScanItems(w, hs).dom[h] == w.dom[h]
    decreases |hs|
  {
    if hs != [] {
      ScanSparesElement(w, hs[..|hs| - 1], h);
      ScanItemExtends(ScanItems(w, hs[..|hs| - 1]), hs[|hs| - 1]);
    }
  }

  /** The invariant `Consistent` holds across a scan and across the
      completion of a request. */
  lemma ScanKeepsConsistent(w: World)
    requires WellFormed(w) && Consistent(w)
    ensures Consistent(Scan(w))
  {
    var r := Scan(w);
    if AutoTranslate(w) {
      ScanItemsExtends(w, w.page);
    }
    forall k | 0 <= k < |r.pending|
      ensures Store.IsProcessed(r.gm, r.pending[k].id)
    {
      if k < |w.pending| {
        assert r.pending[k] == w.pending[k];
      }
    }
  }

  lemma CompleteKeepsConsistent(w: World, k: nat, response: DeepSeekApi.Response)
    requires WellFormed(w) && k < |w.pending| && Consistent(w)
    ensures Consistent(Complete(w, k, response))
  {
    var r := Complete(w, k, response);
    assert Store.IsProcessed(w.gm, w.pending[k].id);
    forall j | 0 <= j < |r.pending|
      ensures Store.IsProcessed(r.gm, r.pending[j].id)
    {
      if j < k {
        assert r.pending[j] == w.pending[j];
      } else {
        assert r.pending[j] == w.pending[j + 1];
      }
    }
  }

  /** Clearing the cache while a request is in flight breaks `Consistent`:
      the successful answer stores a translation for an ID that is no longer
      processed. */
  lemma ClearThenCompleteOrphansRecord(w: World, deletionAvailable: bool, k: nat, content: Str)
    requires WellFormed(w) && k < |w.pending| && w.pending[k].apiKey != [] && Trim(content) != []
    ensures var r := Complete(w.(gm := Store.Cleared(w.gm, deletionAvailable)), k,
                              DeepSeekApi.Loaded(DeepSeekApi.OkStatus, DeepSeekApi.Completion(content)));
      w.pending[k].id in r.gm.records && !Store.IsProcessed(r.gm, w.pending[k].id) && !Consistent(r)
  {
    var id := w.pending[k].id;
    Store.ClearResetsProcessed(w.gm, deletionAvailable, id);
  }

  /** A scan after a cache clear does not bring back translations already
      shown: elements with a translation block keep it unchanged. */
  lemma ClearedScanKeepsShown(w: World, deletionAvailable: bool, h: nat)
    requires WellFormed(w) && h < |w.dom| && w.dom[h].fragment.Some?
    ensures Scan(w.(gm := Store.Cleared(w.gm, deletionAvailable))).dom[h] == w.dom[h]
  {
    var c := w.(gm := Store.Cleared(w.gm, deletionAvailable));
    if AutoTranslate(c) {
      ScanSparesElement(c, c.page, h);
    }
  }

  /** `translateTweet` on an element without usable text does nothing, not
      even mark the ID. With text, the ID is marked processed first; then a
      missing API key shows the failure block at once and sends nothing,
      while a present key sends exactly one request for this element, ID and
      text. */
  lemma TranslateOutcome(w: World, h: nat, id: Str)
    requires WellFormed(w) && h < |w.dom| && AutoTranslate(w)
    requires !(Store.IsProcessed(w.gm, id) && w.dom[h].fragment.Some?)
    ensures TweetText(w.dom[h]).None? ==> Translate(w, h, id) == w
    ensures TweetText(w.dom[h]).Some? ==>
      var r := Translate(w, h, id);
      var apiKey := Store.DecryptedApiKey(w.gm.config);
      Store.IsProcessed(r.gm, id) &&
      (apiKey == [] ==>
         (r.pending == w.pending &&
          r.dom[h].fragment == Some(FailurePrefix + MissingApiKeyMessage) && r.dom[h].loading == 0)) &&
      (apiKey != [] ==>
         (|r.pending| == |w.pending| + 1 &&
          r.pending[|w.pending|].element == h && r.pending[|w.pending|].id == id &&
          Some(r.pending[|w.pending|].text) == TweetText(w.dom[h]) &&
          r.pending[|w.pending|].apiKey == apiKey &&
          r.dom[h].fragment == w.dom[h].fragment))
  {
    if TweetText(w.dom[h]).Some? {
      Scanner.TweetTextIsTrimmed(w.dom[h].texts);
      Store.SaveGrows(w.gm.translatedTweets, id);
    }
  }

  /** A processed element without a translation block whose translation is
      cached gets the cached text shown and no request is sent. */
  lemma CachedTranslationRestored(w: World, h: nat)
    requires WellFormed(w) && h < |w.dom| && HasId(w.dom[h]) && w.dom[h].fragment.None?
    requires Store.IsProcessed(w.gm, TweetId(w.dom[h]).value)
    requires TweetText(w.dom[h]).Some? && Cached(w, TweetId(w.dom[h]).value) != []
    ensures ScanItem(w, h).pending == w.pending
    ensures ScanItem(w, h).dom[h].fragment == Some(Cached(w, TweetId(w.dom[h]).value))
  {
  }

  /** The answer to a request: a non-empty translation is cached under the
      request's ID and shown; an empty one is neither; an error is shown as
      the failure block with the error's message and nothing is cached. */
  lemma CompleteOutcome(w: World, k: nat, response: DeepSeekApi.Response)
    requires WellFormed(w) && k < |w.pending|
    ensures var req := w.pending[k];
      var r := Complete(w, k, response);
      match DeepSeekApi.Outcome(req.apiKey, response)
      case Ok(t) =>
        (t != [] ==> r.gm.records == w.gm.records[req.id := t] && r.dom[req.element].fragment == Some(t)) &&
        (t == [] ==> r.gm.records == w.gm.records && r.dom[req.element].fragment == w.dom[req.element].fragment)
      case Err(m) =>
        r.gm.records == w.gm.records && r.dom[req.element].fragment == Some(FailurePrefix + m) &&
        r.dom[req.element].loading == 0
  {
  }

  /** The conditions under which scanning element `h` sends a request for
      `x`: automatic translation on, the element shows no block, its ID is
      `x`, it has text, nothing is cached for `x` and an API key is stored. */
  predicate WillRequest(w: World, h: nat, x: Str)
    requires WellFormed(w) && h < |w.dom|
  {
    AutoTranslate(w) && w.dom[h].fragment.None? && TweetId(w.dom[h]) == Some(x) && x != [] &&
    TweetText(w.dom[h]).Some? && Cached(w, x) == [] && Store.DecryptedApiKey(w.gm.config) != []
  }

  lemma ScanItemRequests(w: World, h: nat, x: Str)
    requires WellFormed(w) && h < |w.dom| && WillRequest(w, h, x)
    ensures var r := ScanItem(w, h);
      |r.pending| == |w.pending| + 1 && r.pending[|w.pending|].id == x &&
      r.pending[|w.pending|].element == h && r.dom[h].fragment.None? && Store.IsProcessed(r.gm, x)
  {
    TranslateOutcome(w, h, x);
  }

  /** Marking the ID before the request is sent is not single-flight: when
      two scan steps meet an element with ID `x` and no block before the
      answer arrives (the same element scanned again, `h1 == h2`, or two
      elements sharing the ID), two requests for `x` are in flight. */
  lemma NoSingleFlight(w: World, h1: nat, h2: nat, x: Str)
    requires WellFormed(w) && h1 < |w.dom| && h2 < |w.dom|
    requires WillRequest(w, h1, x) && WillRequest(w, h2, x)
    ensures var r := ScanItem(ScanItem(w, h1), h2);
      |r.pending| == |w.pending| + 2 && r.pending[|w.pending|].id == x && r.pending[|w.pending| + 1].id == x
  {
    ScanItemRequests(w, h1, x);
    ScanItemExtends(w, h1);
    var mid := ScanItem(w, h1);
    assert mid.dom[h2].fragment.None? && SameContent(mid.dom[h2], w.dom[h2]);
    assert WillRequest(mid, h2, x);
    ScanItemRequests(mid, h2, x);
  }

  /** A failed item is skipped by later scans while its failure block is
      shown, but once the host page re-creates its element the next scan
      sends a new request for it. */
  lemma RetryAfterRerender(w: World, i: nat, x: Str, message: Str)
    requires WellFormed(w) && i < |w.page|
    requires w.dom[w.page[i]].fragment == Some(FailurePrefix + message)
    requires AutoTranslate(w) && TweetId(w.dom[w.page[i]]) == Some(x) && x != []
    requires TweetText(w.dom[w.page[i]]).Some? && Cached(w, x) == [] && Store.DecryptedApiKey(w.gm.config) != []
    ensures ScanItem(w, w.page[i]) == w
    ensures var r := ScanItem(Rerendered(w, i), |w.dom|);
      |r.pending| == |w.pending| + 1 && r.pending[|w.pending|].id == x
  {
    var w1 := Rerendered(w, i);
    assert TweetId(w1.dom[|w.dom|]) == Some(x);
    assert TweetText(w1.dom[|w.dom|]) == TweetText(w.dom[w.page[i]]);
    assert Cached(w1, x) == [];
    ScanItemRequests(w1, |w.dom|, x);
  }

  /** The page: the elements, the scan order, the requests in flight and the
      store they read and write. */
  class Page {
    const store: Store.Storage
    var dom: seq<Element>
    var page: seq<nat>
    var pending: seq<Request>

    function State(): World
      reads this, store
    {
      World(store.State(), dom, page, pending)
    }

    predicate Valid()
      reads this
    {
      Placed(dom, page, pending)
    }

    constructor (store: Store.Storage, dom: seq<Element>, page: seq<nat>)
      requires Placed(dom, page, [])
      ensures this.store == store && Valid()
      ensures State() == World(store.State(), dom, page, [])
    {
      this.store := store;
      this.dom := dom;
      this.page := page;
      this.pending := [];
    }

    /** `translateTweet(tweet, id)` up to the request. */
    method TranslateTweet(h: nat, id: Str)
      requires Valid() && h < |dom|
      modifies this, store
      ensures Valid() && State() == Translate(old(State()), h, id)
    {
      var config := store.Configuration();
      if !config.autoTranslate {
        return;
      }
      var text := TweetText(dom[h]);
      if text.None? || |text.value| < 5 {
        return;
      }
      if store.IsTweetTranslated(id) && dom[h].fragment.Some? {
        return;
      }
      MarkTweet(h, id);
      DispatchTweet(h, id, text.value);
    }

    /** The ID is saved as processed and the loading indicator shown. */
    method MarkTweet(h: nat, id: Str)
      requires Valid() && h < |dom|
      modifies this, store
      ensures Valid() && State() == Marked(old(State()), h, id)
    {
      ghost var m := Marked(State(), h, id);
      var showLoading := store.Configuration().showLoading;
      var e := dom[h];
      assert m.gm == store.State().(translatedTweets := Store.IdsWith(store.translatedTweets, id));
      assert m.dom == if showLoading then dom[h := e.(loading := e.loading + 1)] else dom;
      assert m.page == page && m.pending == pending;
      store.SaveTranslatedTweet(id);
      if showLoading {
        dom := dom[h := e.(loading := e.loading + 1)];
      }
      assert store.State() == m.gm && dom == m.dom;
    }

    /** The key is read and decrypted; without one the failure is shown,
        otherwise the request is sent. */
    method DispatchTweet(h: nat, id: Str, text: Str)
      requires Valid() && h < |dom|
      modifies this
      ensures Valid() && State() == Dispatched(old(State()), h, id, text, Store.DecryptedApiKey(store.config))
    {
      var apiKey := store.GetDecryptedApiKey();
      if apiKey == [] {
        dom := dom[h := dom[h].(loading := 0, fragment := Some(FailurePrefix + MissingApiKeyMessage))];
        return;
      }
      var config := store.Configuration();
      pending := pending + [Request(h, id, text, apiKey, config.prompt, config.showLoading)];
    }

    /** `restoreTranslation(tweet)`. */
    method RestoreTranslation(h: nat)
      requires Valid() && h < |dom| && HasId(dom[h])
      modifies this, store
      ensures Valid() && State() == Restore(old(State()), h)
    {
      var id := TweetId(dom[h]).value;
      var text := TweetText(dom[h]);
      if text.None? {
        return;
      }
      var cached := store.CachedTranslation(id);
      if cached.Some? && cached.value != [] {
        dom := dom[h := dom[h].(fragment := Some(cached.value))];
      } else {
        TranslateTweet(h, id);
      }
    }

    /** `scanExistingTweets()`. */
    method ScanExistingTweets()
      requires Valid()
      modifies this, store
      ensures Valid() && State() == Scan(old(State()))
    {
      var config := store.Configuration();
      if !config.autoTranslate {
        return;
      }
      ghost var start := State();
      var i := 0;
      while i < |page|
        invariant 0 <= i <= |page| && Valid()
        invariant page == start.page && |dom| == |start.dom|
        invariant State() == ScanItems(start, page[..i])
      {
        ScanItemsStep(start, page, i);
        ScanTweet(page[i]);
        i := i + 1;
      }
      assert page[..i] == start.page;
    }

    /** One element of the `forEach` in `scanExistingTweets`: a tweet with
        an ID and no translation shown is restored when processed and
        translated otherwise. */
    method ScanTweet(h: nat)
      requires Valid() && h < |dom|
      modifies this, store
      ensures Valid() && State() == ScanItem(old(State()), h)
    {
      var e := dom[h];
      var id := TweetId(e);
      if id.Some? && id.value != [] && e.fragment.None? {
        if store.IsTweetTranslated(id.value) {
          RestoreTranslation(h);
        } else {
          TranslateTweet(h, id.value);
        }
      }
    }

    /** The answer to request `k` arrives. */
    method OnResponse(k: nat, response: DeepSeekApi.Response)
      requires Valid() && k < |pending|
      modifies this, store
      ensures Valid() && State() == Complete(old(State()), k, response)
    {
      var req := pending[k];
      pending := pending[..k] + pending[k + 1..];
      var outcome := DeepSeekApi.Outcome(req.apiKey, response);
      match outcome
      case Ok(t) =>
        if req.showLoading {
          dom := dom[req.element := dom[req.element].(loading := 0)];
        }
        if t != [] {
          store.SaveTranslation(req.id, t);
          dom := dom[req.element := dom[req.element].(fragment := Some(t))];
        }
      case Err(m) =>
        dom := dom[req.element := dom[req.element].(loading := 0, fragment := Some(FailurePrefix + m))];
    }

    /** The host page re-creates the element in slot `i`. */
    method Rerender(i: nat)
      requires Valid() && i < |page|
      modifies this
      ensures Valid() && State() == Rerendered(old(State()), i)
    {
      var e := dom[page[i]];
      page := page[i := |dom|];
      dom := dom + [e.(fragment := None, loading := 0)];
    }

    /** The close button of the translation block of element `h`. */
    method CloseTranslation(h: nat)
      requires Valid() && h < |dom|
      modifies this
      ensures Valid() && State() == Closed(old(State()), h)
    {
      dom := dom[h := dom[h].(fragment := None)];
    }
  }
}
