/** Stage 1, seeking_alpha/download_index.py: crawl the listing pages 1, 2, ...
    and collect the article references not yet in the ledger, until a page
    brings nothing new. Fetching a page is replaced by its outcome, given as
    input: `pages[i - 1]` is page `i`'s body, or `None` when the download
    failed after all retries; pages past the end of `pages` fail to download. */
module DownloadIndex {
  import opened Common
  import opened Ledger

  /** Sanity bound on the number of listing pages visited. */
  const MaxPages: nat := 10000
  /** Sanity bound on the number of distinct references on one page. */
  const MaxIdsPerPage: nat := 55
  /** `URL_PATTERN_START`: a quote followed by the article path prefix. */
  const UrlPatternStart: string := "'/article/"
  /** `URL_PATTERN_END`. */
  const UrlPatternEnd: string := "'"
  const ArticlePrefix: string := "/article/"

  // ---------------------------------------------------------------------------
  // extract_ids (download_index.py:54-68)
  // ---------------------------------------------------------------------------

  /** What the scan of `extract_ids` yields from index `start` on: `None` when
      it reaches a marker with no closing quote after it (the `assert q > p`),
      otherwise the references between each marker it reaches and the next
      quote. After each reference it resumes just past the closing quote. */
  function Scan(content: string, start: nat): (r: Option<set<string>>)
    requires start <= |content|
    decreases |content| - start
  {
    var p := Find(content, UrlPatternStart, start);
    if p < 0 then Some({})
    else
      var q := Find(content, UrlPatternEnd, p + 1);
      if q <= p then None
      else Join({content[p + 1..q]}, Scan(content, q + 1))
  }

  /** The references already gathered, joined with the outcome of the rest
      of the scan: nothing when the rest fails. */
  function Join(ids: set<string>, rest: Option<set<string>>): (r: Option<set<string>>) {
    match rest
    case None => None
    case Some(more) => Some(ids + more)
  }

  /** The scan yields nothing more once no marker is left. */
  lemma ScanNoMarker(content: string, start: nat)
    requires start <= |content| && Find(content, UrlPatternStart, start) < 0
    ensures Scan(content, start) == Some({})
  {
  }

  /** The scan fails when the next marker has no closing quote. */
  lemma ScanUnclosedMarker(content: string, start: nat)
    requires start <= |content| && Find(content, UrlPatternStart, start) >= 0
    requires var p := Find(content, UrlPatternStart, start); Find(content, UrlPatternEnd, p + 1) <= p
    ensures Scan(content, start) == None
  {
  }

  /** When the scan from `start` finds a marker and its closing quote, it
      yields the quoted reference together with whatever the scan past that
      quote yields. */
  lemma ScanFoundId(content: string, start: nat, p: int, q: int, ids: set<string>,
                    outcome: Option<set<string>>)
    requires start <= |content|
    requires p == Find(content, UrlPatternStart, start) && p >= 0
    requires q == Find(content, UrlPatternEnd, p + 1) && q > p
    requires outcome == Join(ids, Scan(content, start))
    ensures Remains(content, q + 1, ids + {content[p + 1..q]}, outcome)
  {
    ScanStep(content, start, p, q);
    var rest := Scan(content, q + 1);
    if rest.Some? {
      assert ids + ({content[p + 1..q]} + rest.value) == (ids + {content[p + 1..q]}) + rest.value;
    }
  }

  /** `extract_ids`: a `while True` loop that advances `start` past each
      closing quote and adds the quoted text to `ids`. */
  method ExtractIds(content: string) returns (r: Option<set<string>>)
    ensures r == Scan(content, 0)
  {
    var ids: set<string> := {};
    var start: nat := 0;
    ghost var outcome := Scan(content, 0);
    JoinNothingGathered(outcome);
    while true
      invariant Remains(content, start, ids, outcome)
      decreases |content| - start
    {
      var p := Find(content, UrlPatternStart, start);
      if p < 0 {
        ScanNoMarker(content, start);
        JoinNothingLeft(ids);
        break;
      }
      var q := Find(content, UrlPatternEnd, p + 1);
      if !(q > p) {
        ScanUnclosedMarker(content, start);
        return None;
      }
      ScanFoundId(content, start, p, q, ids, outcome);
      ids := ids + {content[p + 1..q]};
      start := q + 1;
    }
    return Some(ids);
  }

  /** Loop invariant of `extract_ids`: the whole outcome is what was gathered
      so far joined with what the scan from `start` yields. */
  predicate Remains(content: string, start: int, ids: set<string>, outcome: Option<set<string>>) {
    0 <= start <= |content| && outcome == Join(ids, Scan(content, start))
  }

  lemma JoinNothingGathered(rest: Option<set<string>>)
    ensures Join({}, rest) == rest
  {
    if rest.Some? {
      assert {} + rest.value == rest.value;
    }
  }

  lemma JoinNothingLeft(ids: set<string>)
    ensures Join(ids, Some({})) == Some(ids)
  {
    assert ids + {} == ids;
  }

  /** A marker at `p` whose closing quote is at `q`: no quote lies between. */
  predicate QuotedAt(content: string, p: int, q: int) {
    && OccursAt(content, UrlPatternStart, p)
    && p < q < |content|
    && content[q] == '\''
    && forall k :: p < k < q ==> content[k] != '\''
  }

  /** A marker at `m` with no quote anywhere after it. */
  predicate Unclosed(content: string, m: int) {
    && OccursAt(content, UrlPatternStart, m)
    && forall k :: m < k < |content| ==> content[k] != '\''
  }

  /** `content.find("'", from)` in terms of characters. */
  lemma QuoteSearch(content: string, from: nat)
    ensures var q := Find(content, UrlPatternEnd, from);
      && (q == -1 ==> forall k :: from <= k < |content| ==> content[k] != '\'')
      && (q != -1 ==> from <= q < |content| && content[q] == '\'' &&
                      forall k :: from <= k < q ==> content[k] != '\'')
  {
    var q := Find(content, UrlPatternEnd, from);
    FindIsFirst(content, UrlPatternEnd, from);
    forall k | from <= k < |content| && (q == -1 || k < q)
      ensures content[k] != '\''
    {
      assert !OccursAt(content, UrlPatternEnd, k);
      assert content[k..k + 1] == [content[k]];
    }
    if q != -1 {
      assert content[q..q + 1] == UrlPatternEnd;
    }
  }

  /** A marker is a quote followed by nine characters that are not quotes. */
  lemma MarkerChars(content: string, p: int)
    requires OccursAt(content, UrlPatternStart, p)
    ensures p + 10 <= |content| && content[p] == '\''
    ensures content[p + 1..p + 10] == ArticlePrefix
    ensures forall k :: p < k < p + 10 ==> content[k] != '\''
  {
    assert content[p..p + 10] == UrlPatternStart;
    forall k | p < k < p + 10 ensures content[k] != '\'' {
      assert content[k] == content[p..p + 10][k - p];
    }
    assert content[p] == content[p..p + 10][0];
    assert content[p + 1..p + 10] == content[p..p + 10][1..];
  }

  /** Every extracted reference is the text between a marker's quote and the
      next quote after it. */
  lemma {:induction false} ScanIdIsQuoted(content: string, start: nat, ids: set<string>, id: string)
    requires start <= |content|
    requires Scan(content, start) == Some(ids) && id in ids
    ensures QuotedFrom(content, start, id)
    decreases |content| - start
  {
    var p := Find(content, UrlPatternStart, start);
    var q := Find(content, UrlPatternEnd, p + 1);
    var rest := ScanHasId(content, start, ids, p, q);
    if id in rest {
      ScanIdIsQuoted(content, q + 1, rest, id);
      QuotedFromEarlier(content, start, q + 1, id);
    } else {
      FirstIdIsQuoted(content, start, p, q, id);
    }
  }

  /** `id` sits between a marker's quote at or after `start` and the next
      quote. */
  ghost predicate QuotedFrom(content: string, start: nat, id: string) {
    exists p, q :: start <= p && QuotedAt(content, p, q) && id == content[p + 1..q]
  }

  lemma FirstIdIsQuoted(content: string, start: nat, p: int, q: int, id: string)
    requires start <= |content|
    requires p == Find(content, UrlPatternStart, start) && p >= 0
    requires q == Find(content, UrlPatternEnd, p + 1) && q > p
    requires id == content[p + 1..q]
    ensures QuotedFrom(content, start, id)
  {
    FoundIdIsQuoted(content, start, p, q);
  }

  lemma QuotedFromEarlier(content: string, start: nat, later: nat, id: string)
    requires start <= later && QuotedFrom(content, later, id)
    ensures QuotedFrom(content, start, id)
  {
  }

  /** A reference the scan yields is the one found first, or one found after
      its closing quote. */
  lemma ScanHasId(content: string, start: nat, ids: set<string>, p: int, q: int)
    returns (rest: set<string>)
    requires start <= |content|
    requires Scan(content, start) == Some(ids) && ids != {}
    requires p == Find(content, UrlPatternStart, start)
    requires q == Find(content, UrlPatternEnd, p + 1)
    ensures p >= 0 && q > p && Scan(content, q + 1) == Some(rest)
    ensures ids == {content[p + 1..q]} + rest
  {
    assert p >= 0 && q > p;
    ScanStep(content, start, p, q);
    rest := Scan(content, q + 1).value;
  }

  /** The marker and quote a scan step finds delimit a quoted reference. */
  lemma FoundIdIsQuoted(content: string, start: nat, p: int, q: int)
    requires start <= |content|
    requires p == Find(content, UrlPatternStart, start) && p >= 0
    requires q == Find(content, UrlPatternEnd, p + 1) && q > p
    ensures start <= p && QuotedAt(content, p, q)
  {
    FindIsFirst(content, UrlPatternStart, start);
    QuoteSearch(content, p + 1);
  }

  /** A quoted reference starts with the article path and holds no quote. */
  lemma QuotedIdShape(content: string, p: int, q: int)
    requires QuotedAt(content, p, q)
    ensures StartsWith(content[p + 1..q], ArticlePrefix)
    ensures '\'' !in content[p + 1..q]
  {
    MarkerChars(content, p);
    assert q >= p + 10;
    assert content[p + 1..q][..9] == content[p + 1..p + 10];
    var id := content[p + 1..q];
    forall k | 0 <= k < |id| ensures id[k] != '\'' {
      assert id[k] == content[p + 1 + k];
    }
  }

  /** Every reference `extract_ids` returns starts with `/article/`, holds no
      quote, and sat between a marker's quote and the next quote. */
  lemma ExtractedIdsWellFormed(content: string, ids: set<string>)
    requires Scan(content, 0) == Some(ids)
    ensures forall id :: id in ids ==> StartsWith(id, ArticlePrefix) && '\'' !in id
    ensures forall id :: id in ids ==>
      exists p, q :: QuotedAt(content, p, q) && id == content[p + 1..q]
  {
    forall id | id in ids
      ensures StartsWith(id, ArticlePrefix) && '\'' !in id
      ensures exists p, q :: QuotedAt(content, p, q) && id == content[p + 1..q]
    {
      ScanIdIsQuoted(content, 0, ids, id);
      var p, q :| 0 <= p && QuotedAt(content, p, q) && id == content[p + 1..q];
      QuotedIdShape(content, p, q);
    }
  }

  /** The scan fails only at a marker that has no quote anywhere after it. */
  lemma {:induction false} ScanFailsOnlyAtUnclosedMarker(content: string, start: nat)
    requires start <= |content|
    requires Scan(content, start) == None
    ensures exists m :: start <= m && Unclosed(content, m)
    decreases |content| - start
  {
    var p := Find(content, UrlPatternStart, start);
    FindIsFirst(content, UrlPatternStart, start);
    var q := Find(content, UrlPatternEnd, p + 1);
    QuoteSearch(content, p + 1);
    if q <= p {
      assert Unclosed(content, p);
    } else {
      ScanFailsOnlyAtUnclosedMarker(content, q + 1);
    }
  }

  /** A marker with no quote after it makes the scan fail, unless its own
      quote is the closing quote of the reference extracted just before it
      (then the scan resumes past that quote and never sees the marker). */
  lemma {:induction false} UnclosedMarkerFailsOrCloses(content: string, start: nat, m: int)
    requires start <= m && start <= |content|
    requires Unclosed(content, m)
    ensures Scan(content, start) == None ||
      exists p :: start <= p < m && QuotedAt(content, p, m) && content[p + 1..m] in Scan(content, start).value
    decreases |content| - start
  {
    MarkerFoundBefore(content, start, m);
    var p := Find(content, UrlPatternStart, start);
    if p == m {
      UnclosedHasNoQuote(content, m);
      ScanUnclosedMarker(content, start);
    } else {
      QuoteNoLaterThan(content, p, m);
      var q := Find(content, UrlPatternEnd, p + 1);
      ScanStep(content, start, p, q);
      if q < m {
        UnclosedMarkerFailsOrCloses(content, q + 1, m);
        if Scan(content, q + 1).Some? {
          var p' :| q + 1 <= p' < m && QuotedAt(content, p', m) && content[p' + 1..m] in Scan(content, q + 1).value;
          assert start <= p';
        }
      }
    }
  }

  /** A marker closed by a quote is extracted, unless its own quote is the
      closing quote of the reference extracted just before it (then the scan
      resumes past that quote and never sees the marker). */
  lemma {:induction false} ClosedMarkerExtractedOrCloses(content: string, start: nat, ids: set<string>,
                                                         m: int, q: int)
    requires start <= m && start <= |content|
    requires QuotedAt(content, m, q) && Scan(content, start) == Some(ids)
    ensures content[m + 1..q] in ids || ClosesEarlier(content, start, m, ids)
    decreases |content| - start
  {
    MarkerFoundBefore(content, start, m);
    var p := Find(content, UrlPatternStart, start);
    if p == m {
      FirstMarkerExtracted(content, start, ids, m, q);
    } else {
      QuoteNoLaterThan(content, p, m);
      var q' := Find(content, UrlPatternEnd, p + 1);
      var rest := ScanSplit(content, start, ids, p, q');
      if q' < m {
        ClosedMarkerExtractedOrCloses(content, q' + 1, rest, m, q);
        if content[m + 1..q] !in rest {
          ClosesEarlierFrom(content, start, q' + 1, m, rest, ids);
        }
      } else {
        assert start <= p < m && QuotedAt(content, p, m) && content[p + 1..m] in ids;
      }
    }
  }

  /** The quote at `m` closes a reference that starts at or after `start` and
      is among `ids`. */
  ghost predicate ClosesEarlier(content: string, start: nat, m: int, ids: set<string>) {
    exists p :: start <= p < m && QuotedAt(content, p, m) && content[p + 1..m] in ids
  }

  lemma ClosesEarlierFrom(content: string, start: nat, later: nat, m: int, ids: set<string>, more: set<string>)
    requires start <= later && ids <= more && ClosesEarlier(content, later, m, ids)
    ensures ClosesEarlier(content, start, m, more)
  {
  }

  /** The marker the scan finds first, when closed, is extracted. */
  lemma FirstMarkerExtracted(content: string, start: nat, ids: set<string>, m: int, q: int)
    requires start <= |content| && Scan(content, start) == Some(ids)
    requires Find(content, UrlPatternStart, start) == m && QuotedAt(content, m, q)
    ensures content[m + 1..q] in ids
  {
    QuoteSearch(content, m + 1);
    assert Find(content, UrlPatternEnd, m + 1) == q;
    ScanStep(content, start, m, q);
  }

  /** A scan step splits the references into the first one and the rest. */
  lemma ScanSplit(content: string, start: nat, ids: set<string>, p: int, q: int)
    returns (rest: set<string>)
    requires start <= |content| && Scan(content, start) == Some(ids)
    requires p == Find(content, UrlPatternStart, start) && p >= 0
    requires q == Find(content, UrlPatternEnd, p + 1) && q > p
    ensures q + 1 <= |content| && Scan(content, q + 1) == Some(rest)
    ensures ids == {content[p + 1..q]} + rest
  {
    ScanStep(content, start, p, q);
    rest := Scan(content, q + 1).value;
  }

  /** The marker search from `start` stops at or before a marker at `m`. */
  lemma MarkerFoundBefore(content: string, start: nat, m: int)
    requires start <= m && OccursAt(content, UrlPatternStart, m)
    ensures var p := Find(content, UrlPatternStart, start);
      start <= p <= m && OccursAt(content, UrlPatternStart, p)
  {
    FindIsFirst(content, UrlPatternStart, start);
  }

  /** No closing quote is found for an unclosed marker. */
  lemma UnclosedHasNoQuote(content: string, m: int)
    requires Unclosed(content, m)
    ensures Find(content, UrlPatternEnd, m + 1) == -1
  {
    QuoteSearch(content, m + 1);
  }

  /** The quote closing a marker at `p` comes no later than the quote of a
      later marker at `m`, and is that quote when no quote lies between. */
  lemma QuoteNoLaterThan(content: string, p: int, m: int)
    requires OccursAt(content, UrlPatternStart, p) && p < m
    requires OccursAt(content, UrlPatternStart, m)
    ensures var q := Find(content, UrlPatternEnd, p + 1);
      p < q <= m && (q == m ==> QuotedAt(content, p, m))
  {
    MarkerChars(content, m);
    QuoteSearch(content, p + 1);
  }

  /** One step of the scan: a marker at `p` closed by the quote at `q`. */
  lemma ScanStep(content: string, start: nat, p: int, q: int)
    requires start <= |content|
    requires p == Find(content, UrlPatternStart, start) && p >= 0
    requires q == Find(content, UrlPatternEnd, p + 1) && q > p
    ensures Scan(content, start) == Join({content[p + 1..q]}, Scan(content, q + 1))
  {
    assert Find(content, UrlPatternStart, start) == p;
  }

  /** A page body that lists the references quoted one after another. */
  function Render(ids: seq<string>): (content: string) {
    if ids == [] then "" else "'" + ids[0] + "'" + Render(ids[1..])
  }

  /** A reference in the expected shape: the article path, and no quote. */
  predicate WellFormedId(id: string) {
    StartsWith(id, ArticlePrefix) && '\'' !in id
  }

  /** A quoted well-formed reference at `start` is extracted, and the scan
      resumes just past its closing quote. */
  lemma ScanQuotedItem(content: string, start: nat, id: string)
    requires WellFormedId(id)
    requires start + |id| + 2 <= |content|
    requires content[start] == '\'' && content[start + |id| + 1] == '\''
    requires content[start + 1..start + |id| + 1] == id
    ensures Scan(content, start) == match Scan(content, start + |id| + 2)
      case None => None case Some(rest) => Some({id} + rest)
  {
    MarkerOfItem(content, start, id);
    QuoteOfItem(content, start, id);
  }

  lemma MarkerOfItem(content: string, start: nat, id: string)
    requires StartsWith(id, ArticlePrefix)
    requires start + |id| + 2 <= |content|
    requires content[start] == '\''
    requires content[start + 1..start + |id| + 1] == id
    ensures Find(content, UrlPatternStart, start) == start
  {
    assert content[start..start + 10] == UrlPatternStart by {
      assert content[start..start + 10] == [content[start]] + content[start + 1..start + |id| + 1][..9];
    }
    FindIsFirstOccurrence(content, UrlPatternStart, start, start);
  }

  lemma QuoteOfItem(content: string, start: nat, id: string)
    requires '\'' !in id
    requires start + |id| + 2 <= |content|
    requires content[start + |id| + 1] == '\''
    requires content[start + 1..start + |id| + 1] == id
    ensures Find(content, UrlPatternEnd, start + 1) == start + |id| + 1
  {
    var q := start + |id| + 1;
    forall k | start + 1 <= k < q ensures content[k] != '\'' {
      assert content[k] == content[start + 1..start + |id| + 1][k - start - 1];
    }
    QuoteSearch(content, start + 1);
  }

  /** A scan that starts at the end of the text finds nothing. */
  lemma ScanAtEnd(content: string)
    ensures Scan(content, |content|) == Some({})
  {
    assert Find(content, UrlPatternStart, |content|) == -1;
  }

  /** Where the first item of a rendered listing sits. */
  lemma RenderedFirstItem(content: string, start: nat, ids: seq<string>)
    requires ids != []
    requires start <= |content| && content[start..] == Render(ids)
    ensures start + |ids[0]| + 2 <= |content|
    ensures content[start] == '\'' && content[start + |ids[0]| + 1] == '\''
    ensures content[start + 1..start + |ids[0]| + 1] == ids[0]
    ensures content[start + |ids[0]| + 2..] == Render(ids[1..])
  {
    var id := ids[0];
    var tail := content[start..];
    assert tail == "'" + id + "'" + Render(ids[1..]);
    assert content[start] == tail[0];
    assert content[start + |id| + 1] == tail[|id| + 1];
    assert content[start + 1..start + |id| + 1] == tail[1..|id| + 1];
    assert content[start + |id| + 2..] == tail[|id| + 2..];
  }

  lemma ElementsCons(ids: seq<string>)
    requires ids != []
    ensures Elements(ids) == {ids[0]} + Elements(ids[1..])
  {
    assert ids == [ids[0]] + ids[1..];
  }

  lemma ScanItemThenRest(content: string, start: nat, id: string, rest: set<string>)
    requires WellFormedId(id)
    requires start + |id| + 2 <= |content|
    requires content[start] == '\'' && content[start + |id| + 1] == '\''
    requires content[start + 1..start + |id| + 1] == id
    requires Scan(content, start + |id| + 2) == Some(rest)
    ensures Scan(content, start) == Some({id} + rest)
  {
    ScanQuotedItem(content, start, id);
  }

  /** `content` from `start` on is the items of `ids`, each quoted, back to back. */
  predicate QuotedListAt(content: string, start: nat, ids: seq<string>)
    decreases ids
  {
    if ids == [] then start == |content|
    else
      && start + |ids[0]| + 2 <= |content|
      && content[start] == '\'' && content[start + |ids[0]| + 1] == '\''
      && content[start + 1..start + |ids[0]| + 1] == ids[0]
      && QuotedListAt(content, start + |ids[0]| + 2, ids[1..])
  }

  lemma {:induction false} RenderedIsQuotedList(content: string, start: nat, ids: seq<string>)
    requires start <= |content| && content[start..] == Render(ids)
    ensures QuotedListAt(content, start, ids)
    decreases ids
  {
    if ids != [] {
      RenderedFirstItem(content, start, ids);
      RenderedIsQuotedList(content, start + |ids[0]| + 2, ids[1..]);
    }
  }

  lemma {:induction false} ScanQuotedList(content: string, start: nat, ids: seq<string>)
    requires forall id :: id in ids ==> WellFormedId(id)
    requires start <= |content| && QuotedListAt(content, start, ids)
    ensures Scan(content, start) == Some(Elements(ids))
    decreases ids
  {
    if ids == [] {
      ScanAtEnd(content);
      assert Elements(ids) == {};
    } else {
      var id := ids[0];
      assert id in ids;
      ScanQuotedList(content, start + |id| + 2, ids[1..]);
      ScanItemThenRest(content, start, id, Elements(ids[1..]));
      ElementsCons(ids);
    }
  }

  /** Round trip: the scan of a rendered listing yields exactly the rendered
      references, whenever each is well formed. */
  lemma ScanRender(ids: seq<string>)
    requires forall id :: id in ids ==> WellFormedId(id)
    ensures Scan(Render(ids), 0) == Some(Elements(ids))
  {
    RenderedIsQuotedList(Render(ids), 0, ids);
    ScanQuotedList(Render(ids), 0, ids);
  }

  // ---------------------------------------------------------------------------
  // The page loop of main (download_index.py:88-105)
  // ---------------------------------------------------------------------------

  /** The download outcome of page `i` (1-based). */
  function PageAt(pages: seq<Option<string>>, i: nat): (page: Option<string>) {
    if 1 <= i <= |pages| then pages[i - 1] else None
  }

  /** The references page `i` yields, or none when it cannot be read. */
  function PageIds(pages: seq<Option<string>>, i: nat): (ids: set<string>) {
    match PageAt(pages, i)
    case None => {}
    case Some(content) => match Scan(content, 0) case None => {} case Some(ids) => ids
  }

  /** What one visited page does to the crawl. */
  datatype Step = Abort(fault: Fault) | Halt | Next(newIds: set<string>)

  /** One iteration of the page loop: a failed download aborts or is skipped,
      a page with too many references aborts, an empty page or a page whose
      references are all in `oldIds` stops the loop, and any other page adds
      its references that are not in `oldIds`. */
  function Visit(oldIds: set<string>, newIds: set<string>, page: Option<string>,
                 terminateOnFailures: bool): (s: Step)
    ensures s.Next? ==> newIds <= s.newIds && (s.newIds - newIds) !! oldIds
    ensures s == Halt ==> page.Some?
  {
    match page
    case None => if terminateOnFailures then Abort(FetchFailed) else Next(newIds)
    case Some(content) =>
      match Scan(content, 0)
      case None => Abort(UnclosedMarker)
      case Some(pageIds) =>
        if |pageIds| > MaxIdsPerPage then Abort(TooManyIds)
        else if |pageIds| == 0 then Halt
        else if pageIds <= oldIds then Halt
        else Next(newIds + (pageIds - oldIds))
  }

  /** After the loop: a run that found nothing new is fatal. */
  function Finish(newIds: set<string>): (r: Result<set<string>>)
    ensures r.Success? <==> newIds != {}
    ensures r.Success? ==> r.value == newIds
  {
    if |newIds| > 0 then Success(newIds) else Failure(NothingNew)
  }

  /** The crawl from page `i` on, with `newIds` gathered so far. */
  function CrawlFrom(oldIds: set<string>, pages: seq<Option<string>>, terminateOnFailures: bool,
                     i: nat, newIds: set<string>): (r: Result<set<string>>)
    requires 1 <= i
    ensures r.Success? ==> newIds <= r.value && r.value != {}
    ensures r.Failure? ==> r.error in {FetchFailed, UnclosedMarker, TooManyIds, NothingNew}
    decreases MaxPages + 1 - i
  {
    if i > MaxPages then Finish(newIds)
    else match Visit(oldIds, newIds, PageAt(pages, i), terminateOnFailures)
      case Abort(f) => Failure(f)
      case Halt => Finish(newIds)
      case Next(n) => CrawlFrom(oldIds, pages, terminateOnFailures, i + 1, n)
  }

  function Crawl(oldIds: set<string>, pages: seq<Option<string>>, terminateOnFailures: bool): (r: Result<set<string>>)
    ensures r.Success? ==> r.value != {}
  {
    CrawlFrom(oldIds, pages, terminateOnFailures, 1, {})
  }

  /** The references a successful crawl returns are new (none is in the
      ledger loaded at start), there is at least one, they include everything
      gathered before page `i`, and each of the others was on a page visited
      from `i` on. */
  lemma {:induction false} CrawlFromResult(oldIds: set<string>, pages: seq<Option<string>>, t: bool,
                                           i: nat, newIds: set<string>, ids: set<string>)
    requires 1 <= i && newIds !! oldIds
    requires CrawlFrom(oldIds, pages, t, i, newIds) == Success(ids)
    ensures newIds <= ids && ids !! oldIds && ids != {}
    ensures forall x :: x in ids && x !in newIds ==> exists j :: i <= j <= MaxPages && x in PageIds(pages, j)
    decreases MaxPages + 1 - i
  {
    if i <= MaxPages {
      match Visit(oldIds, newIds, PageAt(pages, i), t)
      case Halt =>
      case Next(n) =>
        CrawlFromResult(oldIds, pages, t, i + 1, n, ids);
        forall x | x in ids && x !in newIds
          ensures exists j :: i <= j <= MaxPages && x in PageIds(pages, j)
        {
          if x !in n {
            var j :| i + 1 <= j <= MaxPages && x in PageIds(pages, j);
          } else {
            assert x in PageIds(pages, i);
          }
        }
    }
  }

  lemma CrawlResult(oldIds: set<string>, pages: seq<Option<string>>, t: bool, ids: set<string>)
    requires Crawl(oldIds, pages, t) == Success(ids)
    ensures ids != {} && ids !! oldIds
    ensures forall x :: x in ids ==> exists j :: 1 <= j <= MaxPages && x in PageIds(pages, j)
  {
    CrawlFromResult(oldIds, pages, t, 1, {}, ids);
  }

  /** A visited page that yields no reference ends the crawl at once with
      what was gathered so far, whatever the later pages hold. */
  lemma EmptyPageStops(oldIds: set<string>, pages: seq<Option<string>>, t: bool,
                       i: nat, newIds: set<string>, content: string)
    requires 1 <= i <= MaxPages
    requires PageAt(pages, i) == Some(content) && Scan(content, 0) == Some({})
    ensures CrawlFrom(oldIds, pages, t, i, newIds) == Finish(newIds)
  {
  }

  /** A visited page with at most 55 references stops the crawl exactly when
      all of its references are in the ledger loaded at start; otherwise the
      crawl goes on to the next page with the page's unknown references
      added, even when some of them were already known. */
  lemma KnownPageStopsOtherwiseMerge(oldIds: set<string>, pages: seq<Option<string>>, t: bool,
                                     i: nat, newIds: set<string>, content: string, pageIds: set<string>)
    requires 1 <= i <= MaxPages
    requires PageAt(pages, i) == Some(content) && Scan(content, 0) == Some(pageIds)
    requires 0 < |pageIds| <= MaxIdsPerPage
    ensures Visit(oldIds, newIds, PageAt(pages, i), t) == Halt <==> pageIds <= oldIds
    ensures pageIds <= oldIds ==> CrawlFrom(oldIds, pages, t, i, newIds) == Finish(newIds)
    ensures !(pageIds <= oldIds) ==>
      CrawlFrom(oldIds, pages, t, i, newIds) == CrawlFrom(oldIds, pages, t, i + 1, newIds + (pageIds - oldIds))
  {
  }

  /** A merge keeps the gathered references disjoint from the ledger and only
      ever adds to them. */
  lemma MergeKeepsNewIdsNew(oldIds: set<string>, newIds: set<string>, page: Option<string>,
                            t: bool, next: set<string>)
    requires newIds !! oldIds
    requires Visit(oldIds, newIds, page, t) == Next(next)
    ensures newIds <= next && next !! oldIds
    ensures page.Some? ==> next - newIds <= PageIds([page], 1) - oldIds
  {
  }

  /** A page that cannot be downloaded ends the run when failures are fatal
      and is otherwise skipped with nothing gathered. */
  lemma FailedDownload(oldIds: set<string>, pages: seq<Option<string>>, t: bool,
                       i: nat, newIds: set<string>)
    requires 1 <= i <= MaxPages && PageAt(pages, i) == None
    ensures t ==> CrawlFrom(oldIds, pages, t, i, newIds) == Failure(FetchFailed)
    ensures !t ==> CrawlFrom(oldIds, pages, t, i, newIds) == CrawlFrom(oldIds, pages, t, i + 1, newIds)
  {
  }

  /** A page with more than 55 distinct references ends the run. */
  lemma TooManyIdsIsFatal(oldIds: set<string>, pages: seq<Option<string>>, t: bool,
                          i: nat, newIds: set<string>, content: string, pageIds: set<string>)
    requires 1 <= i <= MaxPages
    requires PageAt(pages, i) == Some(content) && Scan(content, 0) == Some(pageIds)
    requires |pageIds| > MaxIdsPerPage
    ensures CrawlFrom(oldIds, pages, t, i, newIds) == Failure(TooManyIds)
  {
  }

  /** The stop test looks only at the ledger loaded at start: two identical
      pages of unknown references in a row do not stop the crawl, which goes
      on to page 3. */
  lemma IdenticalPagesDoNotStop(oldIds: set<string>, pages: seq<Option<string>>, t: bool,
                                content: string, pageIds: set<string>)
    requires PageAt(pages, 1) == Some(content) && PageAt(pages, 2) == Some(content)
    requires Scan(content, 0) == Some(pageIds)
    requires 0 < |pageIds| <= MaxIdsPerPage && !(pageIds <= oldIds)
    ensures Crawl(oldIds, pages, t) == CrawlFrom(oldIds, pages, t, 3, pageIds - oldIds)
  {
    assert CrawlFrom(oldIds, pages, t, 1, {}) == CrawlFrom(oldIds, pages, t, 2, pageIds - oldIds);
    assert (pageIds - oldIds) + (pageIds - oldIds) == pageIds - oldIds;
  }

  /** A first page with new references followed by a page whose references
      are all in the ledger: the run returns exactly the first page's new
      references. */
  lemma CatchUpAfterOnePage(oldIds: set<string>, pages: seq<Option<string>>, t: bool,
                            first: string, second: string, ids1: set<string>, ids2: set<string>)
    requires PageAt(pages, 1) == Some(first) && Scan(first, 0) == Some(ids1)
    requires PageAt(pages, 2) == Some(second) && Scan(second, 0) == Some(ids2)
    requires 0 < |ids1| <= MaxIdsPerPage && 0 < |ids2| <= MaxIdsPerPage
    requires !(ids1 <= oldIds) && ids2 <= oldIds
    ensures Crawl(oldIds, pages, t) == Success(ids1 - oldIds)
  {
    assert CrawlFrom(oldIds, pages, t, 1, {}) == CrawlFrom(oldIds, pages, t, 2, {} + (ids1 - oldIds));
    assert {} + (ids1 - oldIds) == ids1 - oldIds;
    assert |ids1 - oldIds| > 0 by {
      var x :| x in ids1 && x !in oldIds;
    }
  }

  /** An empty first page, which the script's docstring names as the only
      page expected to hold no new references (download_index.py:11-12): the
      loop stops with nothing gathered, and the final
      `assert len(new_ids) > 0` makes the run fail. */
  lemma EmptyFirstPageIsFatal(oldIds: set<string>, pages: seq<Option<string>>, t: bool, content: string)
    requires PageAt(pages, 1) == Some(content) && Scan(content, 0) == Some({})
    ensures Crawl(oldIds, pages, t) == Failure(NothingNew)
  {
  }

  /** Pages past page 10000 are never visited. */
  lemma {:induction false} CrawlFromIgnoresPagesBeyondMax(oldIds: set<string>, pages: seq<Option<string>>,
                                                        t: bool, i: nat, newIds: set<string>)
    requires 1 <= i && |pages| > MaxPages
    ensures CrawlFrom(oldIds, pages, t, i, newIds) == CrawlFrom(oldIds, pages[..MaxPages], t, i, newIds)
    decreases MaxPages + 1 - i
  {
    if i <= MaxPages {
      assert PageAt(pages, i) == PageAt(pages[..MaxPages], i);
      match Visit(oldIds, newIds, PageAt(pages, i), t)
      case Next(n) => CrawlFromIgnoresPagesBeyondMax(oldIds, pages, t, i + 1, n);
      case _ =>
    }
  }

  lemma CrawlIgnoresPagesBeyondMax(oldIds: set<string>, pages: seq<Option<string>>, t: bool)
    requires |pages| > MaxPages
    ensures Crawl(oldIds, pages, t) == Crawl(oldIds, pages[..MaxPages], t)
  {
    CrawlFromIgnoresPagesBeyondMax(oldIds, pages, t, 1, {});
  }

  /** The page loop of `main`: pages 1 to 10000 in order, with `continue` on
      a skipped download and `break` on an empty or fully known page. */
  method CrawlPages(oldIds: set<string>, pages: seq<Option<string>>, terminateOnFailures: bool)
    returns (r: Result<set<string>>)
    ensures r == Crawl(oldIds, pages, terminateOnFailures)
  {
    var newIds: set<string> := {};
    for i := 1 to MaxPages + 1
      invariant Crawl(oldIds, pages, terminateOnFailures) == CrawlFrom(oldIds, pages, terminateOnFailures, i, newIds)
    {
      var page := PageAt(pages, i);
      if page.None? {
        if terminateOnFailures {
          return Failure(FetchFailed);
        }
        continue;
      }
      var extracted := ExtractIds(page.value);
      if extracted.None? {
        return Failure(UnclosedMarker);
      }
      var pageIds := extracted.value;
      if |pageIds| > MaxIdsPerPage {
        return Failure(TooManyIds);
      }
      if |pageIds| == 0 {
        break;
      }
      if pageIds <= oldIds {
        break;
      }
      newIds := newIds + (pageIds - oldIds);
    }
    if |newIds| > 0 {
      r := Success(newIds);
    } else {
      r := Failure(NothingNew);
    }
  }

  /** `main`: load the ledger, refuse to overwrite an existing output file
      (`outputExists` stands for `os.path.isfile` on the timestamped name),
      crawl, and return the references written to the new ledger file. */
  method Run(idDir: seq<LedgerFile>, outputExists: bool, pages: seq<Option<string>>,
             terminateOnFailures: bool) returns (r: Result<set<string>>)
    ensures outputExists ==> r == Failure(OutputExists)
    ensures !outputExists ==> r == Crawl(LedgerIds(idDir), pages, terminateOnFailures)
    ensures r.Success? ==> r.value != {} && r.value !! LedgerIds(idDir)
  {
    var oldIds := LoadOldIds(idDir);
    if outputExists {
      return Failure(OutputExists);
    }
    r := CrawlPages(oldIds, pages, terminateOnFailures);
    if r.Success? {
      CrawlResult(oldIds, pages, terminateOnFailures, r.value);
    }
  }
}
