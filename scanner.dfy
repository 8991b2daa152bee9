/** Reading a tweet element: its status ID (`getTweetId`) and its text
    (`getTweetText`). Both are first-match searches. */
module Scanner {
  import opened Wrappers
  import opened JsString

  const StatusPrefix: Str := Lit("/status/")

  /** The regular expression `/\/status\/(\d+)/` matches at position `p`. */
  predicate MatchesAt(href: Str, p: nat)
  {
    p + |StatusPrefix| < |href| &&
    href[p..p + |StatusPrefix|] == StatusPrefix &&
    IsDigit(href[p + |StatusPrefix|])
  }

  /** `d` is a non-empty run of digits starting at `start` in `s` that
      cannot be extended: what greedy `(\d+)` captures there. */
  predicate IsMaximalRunAt(s: Str, start: nat, d: Str)
  {
    d != [] && start + |d| <= |s| && s[start..start + |d|] == d &&
    (forall k | 0 <= k < |d| :: IsDigit(d[k])) &&
    (start + |d| < |s| ==> !IsDigit(s[start + |d|]))
  }

  /** The longest prefix of `s` made of digits. */
  function DigitRun(s: Str): (r: Str)
    ensures |r| <= |s| && r == s[..|r|]
    ensures forall k | 0 <= k < |r| :: IsDigit(r[k])
    ensures |r| < |s| ==> !IsDigit(s[|r|])
  {
    if s == [] || !IsDigit(s[0]) then [] else [s[0]] + DigitRun(s[1..])
  }

  /** The leftmost match at or after `p`. */
  function FirstMatch(href: Str, p: nat): (r: Option<nat>)
    ensures r.Some? ==> p <= r.value && MatchesAt(href, r.value)
    ensures r.Some? ==> forall q: nat | p <= q < r.value :: !MatchesAt(href, q)
    ensures r.None? ==> forall q: nat | p <= q :: !MatchesAt(href, q)
    decreases |href| - p
  {
    if p >= |href| then None
    else if MatchesAt(href, p) then Some(p)
    else FirstMatch(href, p + 1)
  }

  /** `match[1]` of `href.match(/\/status\/(\d+)/)`, or None when there
      is no match. */
  function StatusId(href: Str): Option<Str>
  {
    match FirstMatch(href, 0)
    case None => None
    case Some(p) => Some(DigitRun(href[p + |StatusPrefix|..]))
  }

  /** `StatusId` finds the maximal digit run after the leftmost `/status/`
      that is followed by a digit, and finds nothing only when there is no
      such `/status/`. */
  lemma StatusIdFindsLeftmost(href: Str)
    ensures StatusId(href).None? <==> forall p: nat :: !MatchesAt(href, p)
    ensures StatusId(href).Some? ==> exists p: nat ::
      (MatchesAt(href, p) &&
       (forall q: nat | q < p :: !MatchesAt(href, q)) &&
       IsMaximalRunAt(href, p + |StatusPrefix|, StatusId(href).value))
  {
    match FirstMatch(href, 0)
    case None =>
    case Some(p) =>
      var start := p + |StatusPrefix|;
      var d := DigitRun(href[start..]);
      assert href[start..][..|d|] == href[start..start + |d|];
      assert IsMaximalRunAt(href, start, d);
  }

  /** The ID taken from the first link, in document order, whose `href`
      matches. */
  function LinkId(hrefs: seq<Str>): Option<Str>
  {
    if hrefs == [] then None
    else if StatusId(hrefs[0]).Some? then StatusId(hrefs[0])
    else LinkId(hrefs[1..])
  }

  lemma {:induction false} LinkIdFindsFirst(hrefs: seq<Str>)
    ensures LinkId(hrefs).None? <==> forall i | 0 <= i < |hrefs| :: StatusId(hrefs[i]).None?
    ensures LinkId(hrefs).Some? ==> exists i | 0 <= i < |hrefs| ::
      LinkId(hrefs) == StatusId(hrefs[i]) && forall j | 0 <= j < i :: StatusId(hrefs[j]).None?
  {
    if hrefs != [] && StatusId(hrefs[0]).None? {
      var tail := hrefs[1..];
      LinkIdFindsFirst(tail);
      if LinkId(tail).Some? {
        var i :| 0 <= i < |tail| && LinkId(tail) == StatusId(tail[i]) &&
                 forall j | 0 <= j < i :: StatusId(tail[j]).None?;
        assert LinkId(hrefs) == StatusId(hrefs[i + 1]);
        assert forall j | 0 <= j < i + 1 :: StatusId(hrefs[j]).None? by {
          forall j | 0 <= j < i + 1
            ensures StatusId(hrefs[j]).None?
          {
            if j > 0 {
              assert hrefs[j] == tail[j - 1];
            }
          }
        }
      } else {
        forall i | 0 <= i < |hrefs|
          ensures StatusId(hrefs[i]).None?
        {
          if i > 0 {
            assert hrefs[i] == tail[i - 1];
          }
        }
      }
    }
  }

  /** `getTweetId(tweet)`: the ID from the element's status links, else the
      `data-tweet-id` of the closest enclosing element that has one. */
  function GetTweetId(hrefs: seq<Str>, dataTweetId: Option<Str>): (id: Option<Str>)
    ensures id.None? <==> LinkId(hrefs).None? && dataTweetId.None?
    ensures LinkId(hrefs).Some? ==> id == LinkId(hrefs)
    ensures id.Some? && LinkId(hrefs).None? ==> id == dataTweetId
  {
    if LinkId(hrefs).Some? then LinkId(hrefs) else dataTweetId
  }

  /** When some link matches, `getTweetId` returns that link's ID without
      consulting `data-tweet-id`: the maximal digit run after the leftmost
      `/status/` of the first matching link, never empty and made of digits
      only. */
  lemma LinkIdIsNumeric(hrefs: seq<Str>, dataTweetId: Option<Str>)
    requires LinkId(hrefs).Some?
    ensures GetTweetId(hrefs, dataTweetId) == LinkId(hrefs)
    ensures var id := GetTweetId(hrefs, dataTweetId);
      id.Some? && id.value != [] && forall k | 0 <= k < |id.value| :: IsDigit(id.value[k])
    ensures exists i, p: nat | 0 <= i < |hrefs| ::
      (forall j | 0 <= j < i :: StatusId(hrefs[j]).None?) &&
      MatchesAt(hrefs[i], p) && (forall q: nat | q < p :: !MatchesAt(hrefs[i], q)) &&
      IsMaximalRunAt(hrefs[i], p + |StatusPrefix|, GetTweetId(hrefs, dataTweetId).value)
  {
    LinkIdFindsFirst(hrefs);
    var i :| 0 <= i < |hrefs| && LinkId(hrefs) == StatusId(hrefs[i]) &&
             forall j | 0 <= j < i :: StatusId(hrefs[j]).None?;
    StatusIdFindsLeftmost(hrefs[i]);
    var p: nat :| MatchesAt(hrefs[i], p) && (forall q: nat | q < p :: !MatchesAt(hrefs[i], q)) &&
                  IsMaximalRunAt(hrefs[i], p + |StatusPrefix|, StatusId(hrefs[i]).value);
  }

  /** `text && text.length > 5` on the trimmed text. */
  predicate IsLong(text: Str)
  {
    |Trim(text)| > 5
  }

  /** `getTweetText(tweet)`. `texts` lists the `textContent` of every
      element matched by the first selector, then by the second. */
  function GetTweetText(texts: seq<Str>): (text: Option<Str>)
    ensures text.Some? ==> |text.value| > 5
    ensures text.None? ==> forall i | 0 <= i < |texts| :: |Trim(texts[i])| <= 5
  {
    if texts == [] then None
    else if IsLong(texts[0]) then Some(Trim(texts[0]))
    else GetTweetText(texts[1..])
  }

  /** The text found is the first one, in selector order, whose trimmed
      form is longer than five code units; there is none only when no text
      is that long. */
  lemma {:induction false} GetTweetTextFindsFirst(texts: seq<Str>)
    ensures GetTweetText(texts).None? <==> forall i | 0 <= i < |texts| :: !IsLong(texts[i])
    ensures GetTweetText(texts).Some? ==> exists i | 0 <= i < |texts| ::
      IsLong(texts[i]) && GetTweetText(texts).value == Trim(texts[i]) &&
      forall j | 0 <= j < i :: !IsLong(texts[j])
  {
    if texts != [] && !IsLong(texts[0]) {
      var tail := texts[1..];
      GetTweetTextFindsFirst(tail);
      if GetTweetText(tail).Some? {
        var i :| 0 <= i < |tail| && IsLong(tail[i]) && GetTweetText(tail).value == Trim(tail[i]) &&
                 forall j | 0 <= j < i :: !IsLong(tail[j]);
        assert texts[i + 1] == tail[i];
        assert forall j | 0 <= j < i + 1 :: !IsLong(texts[j]) by {
          forall j | 0 <= j < i + 1
            ensures !IsLong(texts[j])
          {
            if j > 0 {
              assert texts[j] == tail[j - 1];
            }
          }
        }
      } else {
        forall i | 0 <= i < |texts|
          ensures !IsLong(texts[i])
        {
          if i > 0 {
            assert texts[i] == tail[i - 1];
          }
        }
      }
    }
  }

  /** The text found is longer than five code units and has no surrounding
      white space. */
  lemma TweetTextIsTrimmed(texts: seq<Str>)
    requires GetTweetText(texts).Some?
    ensures var t := GetTweetText(texts).value;
      |t| > 5 && !IsTrimmable(t[0]) && !IsTrimmable(t[|t| - 1])
  {
    GetTweetTextFindsFirst(texts);
    var i :| 0 <= i < |texts| && IsLong(texts[i]) && GetTweetText(texts).value == Trim(texts[i]) &&
             forall j | 0 <= j < i :: !IsLong(texts[j]);
    TrimStripsSpace(texts[i]);
  }
}
