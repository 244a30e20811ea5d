/**
 * The URL helpers of the scraper: cutting a Weather Underground history URL
 * after its `/date` segment, checking its shape, and building one URL per day.
 */
module Urls {
  import opened Wrappers
  import opened Calendar

  /** The literal text the history-URL pattern starts with. */
  const HistoryPrefix: string := "https://www.wunderground.com/history/daily/"
  /** The origin a valid URL must start with. */
  const Origin: string := "https://www.wunderground.com/"
  /** The segment a history URL is cut after. */
  const DateSegment: string := "/date"

  /** `w` occurs in `s` at index `i`. */
  predicate OccursAt(s: string, w: string, i: nat) {
    i + |w| <= |s| && s[i..i + |w|] == w
  }

  /** Python's `w in s`. */
  predicate Contains(s: string, w: string) {
    exists i: nat | i <= |s| :: OccursAt(s, w, i)
  }

  /** Python's `s.startswith(w)`. */
  predicate StartsWith(s: string, w: string) {
    OccursAt(s, w, 0)
  }

  /** No line break in `s[i..j]` (the regex `.` matches any character but a line break). */
  predicate NoNewline(s: string, i: nat, j: nat)
    requires i <= j <= |s|
  {
    forall k :: i <= k < j ==> s[k] != '\n'
  }

  /**
   * `validate_url`: the URL contains `history`, `daily` and `date` and starts
   * with the Weather Underground origin.
   */
  predicate ValidateUrl(url: string) {
    Contains(url, "history") && Contains(url, "daily") && Contains(url, "date") && StartsWith(url, Origin)
  }

  /** The first occurrence of `w` in `s` at or after `i`. */
  function FindFrom(s: string, w: string, i: nat): (r: Option<nat>)
    requires i <= |s|
    ensures r.Some? ==> i <= r.value && OccursAt(s, w, r.value)
    ensures forall j :: i <= j && (r.None? || j < r.value) ==> !OccursAt(s, w, j)
    decreases |s| - i
  {
    if OccursAt(s, w, i) then Some(i)
    else if i == |s| then None
    else FindFrom(s, w, i + 1)
  }

  /**
   * `url[a..b]` is what `https://www\.wunderground\.com/history/daily/.+?/date`
   * matches when the search tries index `a`: the prefix at `a`, then at least
   * one character and no line break, then the first `/date` that follows.
   */
  ghost predicate IsMatch(url: string, a: nat, b: nat) {
    var c := a + |HistoryPrefix|;
    && OccursAt(url, HistoryPrefix, a)
    && c + 1 + |DateSegment| <= b <= |url|
    && OccursAt(url, DateSegment, b - |DateSegment|)
    && NoNewline(url, c, b - |DateSegment|)
    && forall j :: c + 1 <= j < b - |DateSegment| ==> !OccursAt(url, DateSegment, j)
  }

  /** No match at `a` when no `/date` follows the prefix at least one character later. */
  lemma NoMatchWithoutSegment(url: string, a: nat)
    requires a + |HistoryPrefix| + 1 <= |url|
    requires forall j :: a + |HistoryPrefix| + 1 <= j ==> !OccursAt(url, DateSegment, j)
    ensures forall b: nat :: !IsMatch(url, a, b)
  {
  }

  /** No match at `a` when a line break comes before the first `/date` after the prefix. */
  lemma NoMatchAcrossNewline(url: string, a: nat, j: nat)
    requires a + |HistoryPrefix| <= j <= |url|
    requires !NoNewline(url, a + |HistoryPrefix|, j)
    requires forall j' :: a + |HistoryPrefix| + 1 <= j' < j ==> !OccursAt(url, DateSegment, j')
    ensures forall b: nat :: !IsMatch(url, a, b)
  {
  }

  /** Where the pattern's match starting at `a` ends, if there is one. */
  function MatchEndAt(url: string, a: nat): (r: Option<nat>)
    ensures r.Some? <==> exists b: nat :: IsMatch(url, a, b)
    ensures r.Some? ==> IsMatch(url, a, r.value)
  {
    var c := a + |HistoryPrefix|;
    if !OccursAt(url, HistoryPrefix, a) || c + 1 > |url| then
      None
    else
      match FindFrom(url, DateSegment, c + 1)
      case None =>
        NoMatchWithoutSegment(url, a);
        None
      case Some(j) =>
        if NoNewline(url, c, j) then
          assert IsMatch(url, a, j + |DateSegment|);
          Some(j + |DateSegment|)
        else
          NoMatchAcrossNewline(url, a, j);
          None
  }

  /** `re.search`: the match at the leftmost index `a >= p` where there is one. */
  function SearchHistoryMatch(url: string, p: nat): (r: Option<(nat, nat)>)
    requires p <= |url|
    ensures r.Some? ==> p <= r.value.0 && IsMatch(url, r.value.0, r.value.1)
    ensures forall a, b :: p <= a && (r.None? || a < r.value.0) ==> !IsMatch(url, a, b)
    decreases |url| - p
  {
    match MatchEndAt(url, p)
    case Some(b) => Some((p, b))
    case None => if p == |url| then None else SearchHistoryMatch(url, p + 1)
  }

  /**
   * `strip_url_after_date`: the leftmost match of the history pattern, which
   * drops whatever precedes the prefix and whatever follows the first `/date`;
   * the URL unchanged when nothing matches.
   */
  function StripUrlAfterDate(url: string): (r: string)
    ensures |r| <= |url|
    ensures r != url ==> StartsWith(r, HistoryPrefix) && |HistoryPrefix| + 1 + |DateSegment| <= |r|
  {
    match SearchHistoryMatch(url, 0)
    case None => url
    case Some((a, b)) => url[a..b]
  }

  /** The cut is the leftmost match, and the URL itself when the pattern matches nowhere. */
  lemma StripIsLeftmostMatch(url: string)
    ensures (forall a: nat, b: nat :: !IsMatch(url, a, b)) ==> StripUrlAfterDate(url) == url
    ensures (exists a: nat, b: nat :: IsMatch(url, a, b)) ==>
      exists a: nat, b: nat :: IsMatch(url, a, b) && StripUrlAfterDate(url) == url[a..b]
        && forall a': nat, b': nat :: a' < a ==> !IsMatch(url, a', b')
  {
    match SearchHistoryMatch(url, 0)
    case None =>
    case Some((a, b)) =>
      assert IsMatch(url, a, b) && StripUrlAfterDate(url) == url[a..b];
  }

  /** An occurrence inside a slice is an occurrence in the whole, shifted by the slice's start. */
  lemma OccursInSlice(url: string, w: string, a: nat, b: nat, j: nat)
    requires a <= b <= |url| && j + |w| <= b - a
    ensures OccursAt(url[a..b], w, j) <==> OccursAt(url, w, a + j)
  {
    var s1, s2 := url[a..b][j..j + |w|], url[a + j..a + j + |w|];
    forall k | 0 <= k < |w| ensures s1[k] == s2[k] {
      assert url[a..b][j + k] == url[a + j + k];
    }
    assert s1 == s2;
  }

  /** A match is a whole match of itself: the cut URL starts with the prefix and ends with its first `/date`. */
  lemma MatchIsSelfMatch(url: string, a: nat, b: nat)
    requires IsMatch(url, a, b)
    ensures IsMatch(url[a..b], 0, |url[a..b]|)
  {
    var r := url[a..b];
    var c := |HistoryPrefix|;
    var e := b - a - |DateSegment|;
    OccursInSlice(url, HistoryPrefix, a, b, 0);
    OccursInSlice(url, DateSegment, a, b, e);
    assert NoNewline(r, c, e) by {
      forall k | c <= k < e ensures r[k] != '\n' {
        assert r[k] == url[a + k];
      }
    }
    forall j | c + 1 <= j < e ensures !OccursAt(r, DateSegment, j) {
      OccursInSlice(url, DateSegment, a, b, j);
    }
  }

  /** The lazy `.+?` leaves one possible match per starting index. */
  lemma MatchUnique(url: string, a: nat, b1: nat, b2: nat)
    requires IsMatch(url, a, b1) && IsMatch(url, a, b2)
    ensures b1 == b2
  {
  }

  /** Cutting a URL a second time changes nothing. */
  lemma StripIdempotent(url: string)
    ensures StripUrlAfterDate(StripUrlAfterDate(url)) == StripUrlAfterDate(url)
  {
    match SearchHistoryMatch(url, 0)
    case None =>
    case Some((a, b)) =>
      var r := url[a..b];
      MatchIsSelfMatch(url, a, b);
      var m := SearchHistoryMatch(r, 0);
      assert m.Some? && m.value.0 == 0;
      MatchUnique(r, 0, m.value.1, b - a);
      assert r[0..b - a] == r;
  }

  /** A URL that starts with the history prefix names the origin, `history` and `daily`. */
  lemma HistoryPrefixParts(r: string)
    requires StartsWith(r, HistoryPrefix)
    ensures StartsWith(r, Origin) && Contains(r, "history") && Contains(r, "daily")
  {
    assert r[..|Origin|] == HistoryPrefix[..|Origin|];
    assert r[29..36] == HistoryPrefix[29..36];
    assert OccursAt(r, "history", 29);
    assert r[37..42] == HistoryPrefix[37..42];
    assert OccursAt(r, "daily", 37);
  }

  /** A URL that ends with `/date` contains `date`. */
  lemma DateSegmentPart(r: string)
    requires |r| >= |DateSegment| && OccursAt(r, DateSegment, |r| - |DateSegment|)
    ensures Contains(r, "date")
  {
    var e := |r| - |DateSegment|;
    assert r[e + 1..e + 5] == r[e..e + 5][1..];
    assert OccursAt(r, "date", e + 1);
  }

  /** When the pattern matches somewhere (here at `a`..`b`), whatever the cut keeps passes the validation. */
  lemma StripResultValid(url: string, a: nat, b: nat)
    requires IsMatch(url, a, b)
    ensures ValidateUrl(StripUrlAfterDate(url))
  {
    StripIsWholeMatch(url, a, b);
    WholeMatchValid(StripUrlAfterDate(url));
  }

  /** When the pattern matches somewhere, the cut URL is matched by the pattern from end to end. */
  lemma StripIsWholeMatch(url: string, a: nat, b: nat)
    requires IsMatch(url, a, b)
    ensures IsMatch(StripUrlAfterDate(url), 0, |StripUrlAfterDate(url)|)
  {
    var m := SearchHistoryMatch(url, 0);
    assert m.Some?;
    var r := url[m.value.0..m.value.1];
    assert StripUrlAfterDate(url) == r;
    MatchIsSelfMatch(url, m.value.0, m.value.1);
  }

  /** A URL the pattern matches from end to end passes the validation. */
  lemma WholeMatchValid(r: string)
    requires IsMatch(r, 0, |r|)
    ensures ValidateUrl(r)
  {
    HistoryPrefixParts(r);
    DateSegmentPart(r);
  }

  /** A URL the pattern matches from its first character is cut to that match, which passes the validation. */
  lemma StripAtStart(url: string, b: nat)
    requires IsMatch(url, 0, b)
    ensures StripUrlAfterDate(url) == url[..b]
    ensures ValidateUrl(url[..b])
  {
    var m := MatchEndAt(url, 0);
    MatchUnique(url, 0, m.value, b);
    assert SearchHistoryMatch(url, 0) == Some((0, b));
    MatchIsSelfMatch(url, 0, b);
    assert url[0..b] == url[..b];
    WholeMatchValid(url[..b]);
  }

  /** A history URL with a day after its `/date` segment is cut just after `/date`, and then passes the validation. */
  lemma StripExample()
    ensures StripUrlAfterDate(HistoryPrefix + "KLGA" + DateSegment + "/2024-1-2") == HistoryPrefix + "KLGA" + DateSegment
    ensures ValidateUrl(HistoryPrefix + "KLGA" + DateSegment)
  {
    var url := HistoryPrefix + "KLGA" + DateSegment + "/2024-1-2";
    assert |HistoryPrefix| == 43;
    assert url[..52] == HistoryPrefix + "KLGA" + DateSegment;
    ExampleMatch(url);
    StripAtStart(url, 52);
  }

  /** The example URL matches from index 0 to the end of its `/date`. */
  lemma ExampleMatch(url: string)
    requires url == HistoryPrefix + "KLGA" + DateSegment + "/2024-1-2"
    ensures IsMatch(url, 0, 52)
  {
    var head := HistoryPrefix + "KLGA";
    assert |HistoryPrefix| == 43 && |head| == 47;
    assert url == head + DateSegment + "/2024-1-2";
    assert url[0..43] == HistoryPrefix;
    assert url[47..52] == DateSegment;
    forall j | 44 <= j < 47 ensures !OccursAt(url, DateSegment, j) {
      assert url[j] == "KLGA"[j - 43];
      assert url[j..j + 5][0] == url[j] != '/';
    }
    forall k | 43 <= k < 47 ensures url[k] != '\n' {
      assert url[k] == "KLGA"[k - 43];
    }
  }

  /** A word in `url` is still in `url` behind any text. */
  lemma ContainsBehind(head: string, url: string, w: string)
    requires Contains(url, w)
    ensures Contains(head + url, w)
  {
    var i: nat :| i <= |url| && OccursAt(url, w, i);
    assert (head + url)[|head| + i..|head| + i + |w|] == url[i..i + |w|];
    assert OccursAt(head + url, w, |head| + i);
  }

  /**
   * `validate_url` tests only `startswith` and `in`: a valid URL stays valid
   * behind any text that opens with the origin, such as the origin itself.
   */
  lemma ValidateUrlIgnoresLeadingText(head: string, url: string)
    requires StartsWith(head, Origin) && ValidateUrl(url)
    ensures ValidateUrl(head + url)
  {
    ContainsBehind(head, url, "history");
    ContainsBehind(head, url, "daily");
    ContainsBehind(head, url, "date");
    assert (head + url)[0..|Origin|] == head[0..|Origin|];
  }

  /**
   * The example history URL passes the validation; the same URL behind text
   * whose first character is not `h` fails it, since the origin must open the URL.
   */
  lemma ValidateUrlCases(junk: string)
    requires |junk| > 0 && junk[0] != 'h'
    ensures ValidateUrl(HistoryPrefix + "KLGA" + DateSegment)
    ensures !ValidateUrl(junk + HistoryPrefix + "KLGA" + DateSegment)
  {
    StripExample();
    NotOpenedByOrigin(junk + HistoryPrefix + "KLGA" + DateSegment);
  }

  /** A URL whose first character is not that of the origin fails the validation. */
  lemma NotOpenedByOrigin(url: string)
    requires |url| > 0 && url[0] != 'h'
    ensures !ValidateUrl(url)
  {
    assert Origin[0] == 'h';
    if |Origin| <= |url| {
      assert url[..|Origin|][0] == url[0];
    }
  }

  /** The page URL for one day: `f"{url_template}/{date_str}"`. */
  function DayUrl(template: string, d: Date): (u: string)
    requires Valid(d)
    ensures |u| == |template| + 11 && u[..|template| + 1] == template + "/"
  {
    template + "/" + IsoDate(d)
  }

  /** The day a page URL was built for can be read back from its tail. */
  lemma DayUrlRoundTrip(template: string, d: Date)
    requires Valid(d)
    ensures |DayUrl(template, d)| == |template| + 11
    ensures DayUrl(template, d)[..|template| + 1] == template + "/"
    ensures ParseIsoDate(DayUrl(template, d)[|template| + 1..]) == Some(d)
  {
    IsoDateRoundTrip(d);
    assert DayUrl(template, d)[|template| + 1..] == IsoDate(d);
  }

  /**
   * The per-day URLs of a run: None when the start date is after the end
   * date (the run stops there), otherwise one URL per day from start to end.
   */
  function PlanUrls(template: string, start: Date, end: Date): (r: Option<seq<string>>)
    requires Valid(start) && Valid(end)
    ensures r.None? <==> Ordinal(end) < Ordinal(start)
  {
    LeIffOrdinalLe(start, end);
    if !Le(start, end) then
      None
    else
      var ds := DateList(start, end);
      Some(seq(|ds|, i requires 0 <= i < |ds| => DayUrl(template, ds[i])))
  }

  /**
   * For start <= end there are (end - start).days + 1 URLs, and URL i is the
   * template, a slash and the date i days after start.
   */
  lemma PlanUrlsShape(template: string, start: Date, end: Date)
    requires Valid(start) && Valid(end) && Le(start, end)
    ensures PlanUrls(template, start, end).Some?
    ensures |PlanUrls(template, start, end).value| == DaysBetween(start, end) + 1
    ensures Ordinal(start) + |PlanUrls(template, start, end).value| <= MaxOrdinal + 1
    ensures forall i: nat :: i < |PlanUrls(template, start, end).value| ==>
      PlanUrls(template, start, end).value[i] == DayUrl(template, AddDays(start, i))
  {
    LeIffOrdinalLe(start, end);
    OrdinalBounds(end);
    forall i: nat | i < |PlanUrls(template, start, end).value|
      ensures PlanUrls(template, start, end).value[i] == DayUrl(template, AddDays(start, i))
    {
      var ds := DateList(start, end);
      OrdinalInjective(ds[i], AddDays(start, i));
    }
  }

  /** No day is fetched twice: the URLs of a run are pairwise distinct. */
  lemma PlanUrlsDistinct(template: string, start: Date, end: Date)
    requires Valid(start) && Valid(end) && Le(start, end)
    ensures PlanUrls(template, start, end).Some?
    ensures forall i, j :: 0 <= i < j < |PlanUrls(template, start, end).value| ==>
      PlanUrls(template, start, end).value[i] != PlanUrls(template, start, end).value[j]
  {
    var ds := DateList(start, end);
    var us := PlanUrls(template, start, end).value;
    forall i, j | 0 <= i < j < |us|
      ensures us[i] != us[j]
    {
      DayUrlRoundTrip(template, ds[i]);
      DayUrlRoundTrip(template, ds[j]);
      assert Ordinal(ds[i]) < Ordinal(ds[j]);
    }
  }
}
