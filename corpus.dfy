/**
 * The corpus builder: for each category (in the order of the taxonomy), walk
 * its subcategories and their member pages, keep ordinary articles that are
 * not list pages, extract them, and store each accepted record under its
 * title, until the category's quota is reached. A later record for the same
 * title replaces the earlier one.
 */
module Corpus {
  import opened Sections
  import opened Articles

  /** The two title fragments that mark list pages ("list of ..." in German). */
  const ListMarkerOf: string := "Liste von"
  const ListMarkerDe: string := "Liste d"

  predicate StartsWith(s: string, prefix: string) {
    |prefix| <= |s| && s[..|prefix|] == prefix
  }

  /** Python's `sub in s` on strings: case-sensitive substring test. */
  predicate Contains(s: string, sub: string)
    decreases |s|
  {
    StartsWith(s, sub) || (|s| > 0 && Contains(s[1..], sub))
  }

  /** `sub` occurs in `s` at offset `i`. */
  ghost predicate OccursAt(s: string, sub: string, i: int) {
    0 <= i && i + |sub| <= |s| && s[i..i + |sub|] == sub
  }

  /** `Contains` holds exactly when `sub` occurs at some offset of `s`. */
  lemma {:induction false} ContainsIff(s: string, sub: string)
    ensures Contains(s, sub) <==> exists i :: OccursAt(s, sub, i)
    decreases |s|
  {
    if Contains(s, sub) && !StartsWith(s, sub) {
      ContainsIff(s[1..], sub);
      var i :| OccursAt(s[1..], sub, i);
      assert s[i + 1..i + 1 + |sub|] == s[1..][i..i + |sub|];
      assert OccursAt(s, sub, i + 1);
    } else if StartsWith(s, sub) {
      assert OccursAt(s, sub, 0);
    }
    if i :| OccursAt(s, sub, i) && i > 0 {
      assert s[1..][i - 1..i - 1 + |sub|] == s[i..i + |sub|];
      assert OccursAt(s[1..], sub, i - 1);
      ContainsIff(s[1..], sub);
    }
  }

  /** An ordinary article (namespace 0) whose title marks no list page. */
  predicate IsArticle(page: Page) {
    page.ns == 0 && !Contains(page.title, ListMarkerOf) && !Contains(page.title, ListMarkerDe)
  }

  /** The per-article settings passed through the builder unchanged. */
  datatype Settings = Settings(excluded: seq<string>, minLength: int, maxLength: int)

  /** The category quota as the counter test `counter >= maxArticles` applies it. */
  function Quota(maxArticles: int): nat
  {
    if maxArticles < 0 then 0 else maxArticles
  }

  /** What one member page yields: a record if it passes the filter and extraction succeeds. */
  function Pick(settings: Settings, category: string, page: Page): (r: Option<Record>)
    ensures r.Some? <==> (IsArticle(page) && page.existing &&
                          Slice(RawText(page, settings.excluded), settings.minLength, settings.maxLength) != [])
    ensures r.Some? ==> WellFormed(r.value) && r.value.category == category
    ensures r.Some? ==> r.value.text == Slice(RawText(page, settings.excluded), settings.minLength, settings.maxLength)
    ensures !IsArticle(page) ==> r == None
  {
    if IsArticle(page) then GetArticle(page, category, settings.excluded, settings.minLength, settings.maxLength)
    else None
  }

  type Entry = (string, Record)

  /** The (title, record) pairs a list of pages yields, in order, ignoring the quota. */
  function Picks(settings: Settings, category: string, pages: seq<Page>): seq<Entry>
    decreases |pages|
  {
    if pages == [] then []
    else
      var last := pages[|pages| - 1];
      var before := Picks(settings, category, pages[..|pages| - 1]);
      match Pick(settings, category, last)
      case Some(r) => before + [(last.title, r)]
      case None => before
  }

  /** All member pages of a list of subcategories, subcategory by subcategory. */
  function PagesOf(members: string -> seq<Page>, subcategories: seq<string>): seq<Page>
    decreases |subcategories|
  {
    if subcategories == [] then []
    else PagesOf(members, subcategories[..|subcategories| - 1]) + members(subcategories[|subcategories| - 1])
  }

  /** The first `n` elements of `xs` (all of them if there are fewer). */
  function Take<T>(xs: seq<T>, n: nat): (r: seq<T>)
    ensures r <= xs
    ensures |r| == if |xs| < n then |xs| else n
  {
    if |xs| <= n then xs else xs[..n]
  }

  /** The entries one category accepts: its candidates in crawl order, cut at the quota. */
  function Accepted(members: string -> seq<Page>, category: string, subcategories: seq<string>, settings: Settings, quota: nat): seq<Entry>
  {
    Take(Picks(settings, category, PagesOf(members, subcategories)), quota)
  }

  /** The entries of all categories, category by category. */
  function AllAccepted(members: string -> seq<Page>, categories: seq<(string, seq<string>)>, settings: Settings, quota: nat): seq<Entry>
    decreases |categories|
  {
    if categories == [] then []
    else
      var last := categories[|categories| - 1];
      AllAccepted(members, categories[..|categories| - 1], settings, quota)
      + Accepted(members, last.0, last.1, settings, quota)
  }

  /** Writing entries into a dictionary one after another. */
  function InsertAll(m: map<string, Record>, entries: seq<Entry>): map<string, Record>
    decreases |entries|
  {
    if entries == [] then m
    else
      var last := entries[|entries| - 1];
      InsertAll(m, entries[..|entries| - 1])[last.0 := last.1]
  }

  /** The corpus the builder produces: every accepted entry written in crawl order. */
  function BuiltCorpus(members: string -> seq<Page>, categories: seq<(string, seq<string>)>, settings: Settings, quota: nat): map<string, Record>
  {
    InsertAll(map[], AllAccepted(members, categories, settings, quota))
  }

  /**
   * The pages whose filter the builder evaluated for one category form the
   * shortest prefix of the category's pages after which the quota is met
   * (or all of them): the crawl stops as soon as the counter reaches it.
   */
  ghost predicate StopsAtQuota(settings: Settings, category: string, pages: seq<Page>, examined: seq<Page>, quota: nat) {
    && examined <= pages
    && (examined == pages || |Picks(settings, category, examined)| >= quota)
    && forall n :: 0 <= n < |examined| ==> |Picks(settings, category, examined[..n])| < quota
  }

  // ---------------------------------------------------------------------
  // Facts about the specification functions
  // ---------------------------------------------------------------------

  /** Every entry a list of pages yields comes from an article among them, under its own title. */
  lemma {:induction false} PicksFrom(settings: Settings, category: string, pages: seq<Page>, e: Entry)
    requires e in Picks(settings, category, pages)
    ensures exists page :: (page in pages && page.title == e.0 && IsArticle(page) &&
      GetArticle(page, category, settings.excluded, settings.minLength, settings.maxLength) == Some(e.1))
    decreases |pages|
  {
    var last := pages[|pages| - 1];
    var init := pages[..|pages| - 1];
    if e in Picks(settings, category, init) {
      PicksFrom(settings, category, init, e);
      var page :| page in init && page.title == e.0 && IsArticle(page) &&
        GetArticle(page, category, settings.excluded, settings.minLength, settings.maxLength) == Some(e.1);
      assert page in pages;
    } else {
      assert last in pages;
    }
  }

  /** The entries of a prefix of the pages are a prefix of the entries of all of them. */
  lemma {:induction false} PicksPrefix(settings: Settings, category: string, pages: seq<Page>, longer: seq<Page>)
    requires pages <= longer
    ensures Picks(settings, category, pages) <= Picks(settings, category, longer)
    decreases |longer|
  {
    if |pages| < |longer| {
      assert pages <= longer[..|longer| - 1];
      PicksPrefix(settings, category, pages, longer[..|longer| - 1]);
    } else {
      assert pages == longer;
    }
  }

  /** Every entry of the whole run was accepted by one of the categories. */
  lemma {:induction false} AllAcceptedFrom(members: string -> seq<Page>, categories: seq<(string, seq<string>)>, settings: Settings, quota: nat, e: Entry)
    requires e in AllAccepted(members, categories, settings, quota)
    ensures exists i :: 0 <= i < |categories| && e in Accepted(members, categories[i].0, categories[i].1, settings, quota)
    decreases |categories|
  {
    var n := |categories| - 1;
    var init := categories[..n];
    if e in AllAccepted(members, init, settings, quota) {
      AllAcceptedFrom(members, init, settings, quota, e);
      var i :| 0 <= i < |init| && e in Accepted(members, init[i].0, init[i].1, settings, quota);
      assert init[i] == categories[i];
    } else {
      assert e in Accepted(members, categories[n].0, categories[n].1, settings, quota);
    }
  }

  /** Every entry one category accepts is a well-formed record of that category, from one of its articles. */
  lemma AcceptedFrom(members: string -> seq<Page>, category: string, subcategories: seq<string>, settings: Settings, quota: nat, e: Entry)
    requires e in Accepted(members, category, subcategories, settings, quota)
    ensures WellFormed(e.1) && e.1.category == category
    ensures exists page :: (page in PagesOf(members, subcategories) && page.title == e.0 && IsArticle(page) &&
      GetArticle(page, category, settings.excluded, settings.minLength, settings.maxLength) == Some(e.1))
  {
    PicksFrom(settings, category, PagesOf(members, subcategories), e);
  }

  /** The keys written are exactly the titles of the entries (besides the keys already there). */
  lemma {:induction false} InsertAllKeys(m: map<string, Record>, entries: seq<Entry>)
    ensures InsertAll(m, entries).Keys == m.Keys + set e | e in entries :: e.0
    decreases |entries|
  {
    if entries != [] {
      var init := entries[..|entries| - 1];
      InsertAllKeys(m, init);
      assert entries == init + [entries[|entries| - 1]];
      assert (set e | e in entries :: e.0) == (set e | e in init :: e.0) + {entries[|entries| - 1].0};
    }
  }

  /** Last writer wins: a title holds the record of its last entry. */
  lemma {:induction false} InsertAllLast(m: map<string, Record>, entries: seq<Entry>, j: nat)
    requires j < |entries|
    requires forall j' :: j < j' < |entries| ==> entries[j'].0 != entries[j].0
    ensures entries[j].0 in InsertAll(m, entries) && InsertAll(m, entries)[entries[j].0] == entries[j].1
    decreases |entries|
  {
    if j < |entries| - 1 {
      var init := entries[..|entries| - 1];
      InsertAllLast(m, init, j);
    }
  }

  /** Every value in the dictionary was written by some entry, unless it was there before. */
  lemma {:induction false} InsertAllFrom(m: map<string, Record>, entries: seq<Entry>, k: string)
    requires k in InsertAll(m, entries)
    ensures (k, InsertAll(m, entries)[k]) in entries || (k in m && InsertAll(m, entries)[k] == m[k])
    decreases |entries|
  {
    if entries != [] {
      var init := entries[..|entries| - 1];
      var last := entries[|entries| - 1];
      if k != last.0 {
        InsertAllFrom(m, init, k);
        if (k, InsertAll(m, init)[k]) in init {
          var j :| 0 <= j < |init| && init[j] == (k, InsertAll(m, init)[k]);
          assert entries[j] == init[j];
        }
      }
    }
  }

  /**
   * Every key of the corpus is the title of an ordinary, non-list article
   * of some category's subcategories, and its value is a well-formed record
   * that extraction produced for that page under that category.
   */
  lemma CorpusEntries(members: string -> seq<Page>, categories: seq<(string, seq<string>)>, settings: Settings, quota: nat, title: string)
    requires title in BuiltCorpus(members, categories, settings, quota)
    ensures var r := BuiltCorpus(members, categories, settings, quota)[title];
      WellFormed(r) &&
      exists i, page :: 0 <= i < |categories| && page in PagesOf(members, categories[i].1) &&
        page.title == title && page.ns == 0 &&
        !Contains(title, ListMarkerOf) && !Contains(title, ListMarkerDe) &&
        r.category == categories[i].0 &&
        GetArticle(page, categories[i].0, settings.excluded, settings.minLength, settings.maxLength) == Some(r)
  {
    var r := BuiltCorpus(members, categories, settings, quota)[title];
    InsertAllFrom(map[], AllAccepted(members, categories, settings, quota), title);
    AllAcceptedFrom(members, categories, settings, quota, (title, r));
    var i :| 0 <= i < |categories| && (title, r) in Accepted(members, categories[i].0, categories[i].1, settings, quota);
    AcceptedFrom(members, categories[i].0, categories[i].1, settings, quota, (title, r));
  }

  /** Titles of a list of entries. */
  ghost function Titles(entries: seq<Entry>): set<string> {
    set e | e in entries :: e.0
  }

  lemma {:induction false} TitlesBound(entries: seq<Entry>)
    ensures |Titles(entries)| <= |entries|
    decreases |entries|
  {
    if entries != [] {
      var init := entries[..|entries| - 1];
      TitlesBound(init);
      assert entries == init + [entries[|entries| - 1]];
      assert Titles(entries) == Titles(init) + {entries[|entries| - 1].0};
    }
  }

  /** The titles whose record names category `category`. */
  ghost function KeysOf(corpus: map<string, Record>, category: string): set<string> {
    set k | k in corpus && corpus[k].category == category
  }

  /**
   * No category ends up with more records than its quota: one category
   * accepts at most `quota` entries, and records of a category can only have
   * been written by that category (category labels are the distinct keys of
   * the taxonomy).
   */
  lemma CorpusQuota(members: string -> seq<Page>, categories: seq<(string, seq<string>)>, settings: Settings, quota: nat, i: nat)
    requires i < |categories|
    requires forall a, b :: 0 <= a < b < |categories| ==> categories[a].0 != categories[b].0
    ensures |Accepted(members, categories[i].0, categories[i].1, settings, quota)| <= quota
    ensures |KeysOf(BuiltCorpus(members, categories, settings, quota), categories[i].0)| <= quota
  {
    var corpus := BuiltCorpus(members, categories, settings, quota);
    var category := categories[i].0;
    var accepted := Accepted(members, category, categories[i].1, settings, quota);
    forall k | k in KeysOf(corpus, category)
      ensures k in Titles(accepted)
    {
      var r := corpus[k];
      InsertAllFrom(map[], AllAccepted(members, categories, settings, quota), k);
      AllAcceptedFrom(members, categories, settings, quota, (k, r));
      var i' :| 0 <= i' < |categories| && (k, r) in Accepted(members, categories[i'].0, categories[i'].1, settings, quota);
      AcceptedFrom(members, categories[i'].0, categories[i'].1, settings, quota, (k, r));
      assert categories[i'].0 == category;
      assert i' == i;
    }
    assert KeysOf(corpus, category) <= Titles(accepted);
    TitlesBound(accepted);
    SubsetCardinality(KeysOf(corpus, category), Titles(accepted));
  }

  lemma SubsetCardinality(a: set<string>, b: set<string>)
    requires a <= b
    ensures |a| <= |b|
  {
    assert b == a + (b - a);
  }

  /**
   * When a title is accepted again later in the run (under the same or a
   * later category), the corpus keeps the later record.
   */
  lemma CorpusLastWriterWins(members: string -> seq<Page>, categories: seq<(string, seq<string>)>, settings: Settings, quota: nat, j: nat)
    requires j < |AllAccepted(members, categories, settings, quota)|
    requires var all := AllAccepted(members, categories, settings, quota);
      forall j' :: j < j' < |all| ==> all[j'].0 != all[j].0
    ensures var e := AllAccepted(members, categories, settings, quota)[j];
      e.0 in BuiltCorpus(members, categories, settings, quota) && BuiltCorpus(members, categories, settings, quota)[e.0] == e.1
  {
    InsertAllLast(map[], AllAccepted(members, categories, settings, quota), j);
  }

  /** With quota 2 and one subcategory of five accepted articles, exactly the first two are kept. */
  lemma AcceptedQuotaExample(members: string -> seq<Page>, category: string, sub: string, settings: Settings)
    requires |Picks(settings, category, members(sub))| == 5
    ensures Accepted(members, category, [sub], settings, 2) == Picks(settings, category, members(sub))[..2]
  {
    assert [sub][..0] == [];
    assert PagesOf(members, [sub]) == members(sub);
  }

  /** When every page yields a record, there is one entry per page. */
  lemma {:induction false} PicksEveryPage(settings: Settings, category: string, pages: seq<Page>)
    requires forall p :: p in pages ==> Pick(settings, category, p).Some?
    ensures |Picks(settings, category, pages)| == |pages|
    decreases |pages|
  {
    if pages != [] {
      var init := pages[..|pages| - 1];
      assert forall p :: p in init ==> p in pages;
      assert pages[|pages| - 1] in pages;
      PicksEveryPage(settings, category, init);
    }
  }

  /**
   * With quota 2 and a subcategory of five pages that would all be
   * accepted, the scan examines the first two pages and stops: the other
   * three are never looked at.
   */
  lemma QuotaStopExample(settings: Settings, category: string, pages: seq<Page>, examined: seq<Page>)
    requires |pages| == 5 && forall p :: p in pages ==> Pick(settings, category, p).Some?
    requires StopsAtQuota(settings, category, pages, examined, 2)
    ensures examined == pages[..2]
  {
    assert examined == pages[..|examined|];
    if |examined| >= 2 {
      var two := examined[..2];
      assert forall p :: p in two ==> p in pages;
      PicksEveryPage(settings, category, two);
    }
    assert forall p :: p in examined ==> p in pages;
    PicksEveryPage(settings, category, examined);
  }

  // ---------------------------------------------------------------------
  // The builder
  // ---------------------------------------------------------------------

  /**
   * Builds the corpus. `members` stands for the encyclopedia client's
   * membership listing of a subcategory; `categories` is the taxonomy in its
   * insertion order. The ghost result `examined` records, per category, the
   * member pages whose filter was evaluated.
   */
  method GenerateCategories(members: string -> seq<Page>, categories: seq<(string, seq<string>)>,
                            excluded: seq<string>, maxArticles: int, minLength: int, maxLength: int)
    returns (articles: map<string, Record>, ghost examined: seq<seq<Page>>)
    ensures articles == BuiltCorpus(members, categories, Settings(excluded, minLength, maxLength), Quota(maxArticles))
    ensures |examined| == |categories|
    ensures forall i :: 0 <= i < |categories| ==>
      StopsAtQuota(Settings(excluded, minLength, maxLength), categories[i].0,
                   PagesOf(members, categories[i].1), examined[i], Quota(maxArticles))
    ensures forall title :: title in articles ==> WellFormed(articles[title]) && !Contains(title, ListMarkerOf) && !Contains(title, ListMarkerDe)
  {
    ghost var settings := Settings(excluded, minLength, maxLength);
    ghost var quota := Quota(maxArticles);
    articles := map[];
    examined := [];
    var idx := 0;
    while idx < |categories|
      invariant idx <= |categories|
      invariant articles == InsertAll(map[], AllAccepted(members, categories[..idx], settings, quota))
      invariant |examined| == idx
      invariant forall i :: 0 <= i < idx ==>
        StopsAtQuota(settings, categories[i].0, PagesOf(members, categories[i].1), examined[i], quota)
    {
      var (categoryName, subcategories) := categories[idx];
      ghost var done := AllAccepted(members, categories[..idx], settings, quota);
      ghost var seen;
      articles, seen := FillCategory(members, categoryName, subcategories, excluded, maxArticles, minLength, maxLength, articles);
      InsertAllAppend(map[], done, Accepted(members, categoryName, subcategories, settings, quota));
      assert categories[..idx + 1][..idx] == categories[..idx];
      forall i | 0 <= i < idx + 1
        ensures StopsAtQuota(settings, categories[i].0, PagesOf(members, categories[i].1), (examined + [seen])[i], quota)
      {
        if i < idx {
          assert (examined + [seen])[i] == examined[i];
        }
      }
      examined := examined + [seen];
      idx := idx + 1;
    }
    assert categories[..idx] == categories;
    forall title | title in articles
      ensures WellFormed(articles[title]) && !Contains(title, ListMarkerOf) && !Contains(title, ListMarkerDe)
    {
      CorpusEntries(members, categories, settings, quota, title);
    }
  }

  /**
   * The body of the builder's loop for one category: walk the subcategories
   * and their member pages with a counter that starts at zero, stop as soon
   * as it reaches `maxArticles`, and write every accepted record into
   * `articles`. The ghost result `seen` is the list of pages whose filter
   * was evaluated.
   */
  method FillCategory(members: string -> seq<Page>, categoryName: string, subcategories: seq<string>,
                      excluded: seq<string>, maxArticles: int, minLength: int, maxLength: int,
                      articles: map<string, Record>)
    returns (filled: map<string, Record>, ghost seen: seq<Page>)
    ensures filled == InsertAll(articles, Accepted(members, categoryName, subcategories,
                                                   Settings(excluded, minLength, maxLength), Quota(maxArticles)))
    ensures StopsAtQuota(Settings(excluded, minLength, maxLength), categoryName,
                         PagesOf(members, subcategories), seen, Quota(maxArticles))
  {
    ghost var settings := Settings(excluded, minLength, maxLength);
    ghost var quota := Quota(maxArticles);
    filled := articles;
    seen := [];
    var articleCounter := 0;
    var j := 0;
    while j < |subcategories|
      invariant j <= |subcategories|
      invariant seen <= PagesOf(members, subcategories)
      invariant articleCounter < quota ==> seen == PagesOf(members, subcategories[..j])
      invariant Progress(settings, categoryName, quota, articles, seen, articleCounter, filled)
    {
      if articleCounter >= maxArticles {
        break;
      }
      var pages := members(subcategories[j]);
      ghost var before := seen;
      var k := 0;
      assert pages[..k] == [];
      while k < |pages|
        invariant k <= |pages|
        invariant seen == before + pages[..k]
        invariant Progress(settings, categoryName, quota, articles, seen, articleCounter, filled)
      {
        if articleCounter >= maxArticles {
          break;
        }
        var page := pages[k];
        VisitStep(settings, categoryName, quota, articles, seen, articleCounter, filled, page);
        // list pages and pages outside the article namespace are skipped
        if IsArticle(page) {
          var article := GetArticle(page, categoryName, excluded, minLength, maxLength);
          if article.Some? {
            filled := filled[page.title := article.value];
            articleCounter := articleCounter + 1;
          }
        }
        TakeOneMore(before, pages, k);
        seen := seen + [page];
        k := k + 1;
      }
      PagesOfPrefix(members, subcategories, j);
      PagesOfStep(members, subcategories, j);
      PrefixOfPrefix(before, pages, k, PagesOf(members, subcategories));
      assert k == |pages| ==> pages[..k] == pages;
      j := j + 1;
    }
    CategoryDone(members, categoryName, subcategories, settings, quota, articles, seen, articleCounter, filled, j);
  }

  /** A prefix of `a + b` extends `a` by a prefix of `b`; it stays a prefix of anything `a + b` is a prefix of. */
  lemma PrefixOfPrefix<T>(a: seq<T>, b: seq<T>, k: nat, c: seq<T>)
    requires k <= |b| && a + b <= c
    ensures a + b[..k] <= c
  {
  }

  /** The first `n` elements agree for a sequence and any extension of it. */
  lemma TakeOfPrefix<T>(xs: seq<T>, ys: seq<T>, n: nat)
    requires xs <= ys && n <= |xs|
    ensures Take(xs, n) == Take(ys, n)
  {
  }

  /**
   * The state of the scan of one category after the pages `seen`: the
   * counter is the number of entries accepted so far, `filled` holds them,
   * and before every page of `seen` the counter was still below the quota.
   */
  ghost predicate Progress(settings: Settings, category: string, quota: nat, start: map<string, Record>,
                           seen: seq<Page>, counter: int, filled: map<string, Record>)
  {
    && counter == |Take(Picks(settings, category, seen), quota)|
    && filled == InsertAll(start, Take(Picks(settings, category, seen), quota))
    && forall n :: 0 <= n < |seen| ==> |Picks(settings, category, seen[..n])| < quota
  }

  /** Examining one more page while the counter is below the quota. */
  lemma VisitStep(settings: Settings, category: string, quota: nat, start: map<string, Record>,
                  seen: seq<Page>, counter: int, filled: map<string, Record>, page: Page)
    requires Progress(settings, category, quota, start, seen, counter, filled)
    requires counter < quota
    ensures match Pick(settings, category, page)
      case Some(r) => Progress(settings, category, quota, start, seen + [page], counter + 1, filled[page.title := r])
      case None => Progress(settings, category, quota, start, seen + [page], counter, filled)
  {
    forall n | 0 <= n < |seen| + 1
      ensures |Picks(settings, category, (seen + [page])[..n])| < quota
    {
      if n < |seen| {
        assert (seen + [page])[..n] == seen[..n];
      } else {
        assert (seen + [page])[..n] == seen;
      }
    }
    assert (seen + [page])[..|seen|] == seen;
  }

  /**
   * When the scan of one category ends, either because every subcategory was
   * walked below the quota or because the quota was met, the entries
   * written for it are exactly the category's accepted entries.
   */
  lemma CategoryDone(members: string -> seq<Page>, category: string, subcategories: seq<string>,
                     settings: Settings, quota: nat, start: map<string, Record>,
                     seen: seq<Page>, counter: int, filled: map<string, Record>, j: nat)
    requires Progress(settings, category, quota, start, seen, counter, filled)
    requires seen <= PagesOf(members, subcategories)
    requires j <= |subcategories|
    requires counter < quota ==> j == |subcategories| && seen == PagesOf(members, subcategories[..j])
    ensures filled == InsertAll(start, Accepted(members, category, subcategories, settings, quota))
    ensures StopsAtQuota(settings, category, PagesOf(members, subcategories), seen, quota)
  {
    var all := PagesOf(members, subcategories);
    if counter < quota {
      assert subcategories[..j] == subcategories;
    } else {
      PicksPrefix(settings, category, seen, all);
      TakeOfPrefix(Picks(settings, category, seen), Picks(settings, category, all), quota);
    }
  }

  lemma PagesOfStep(members: string -> seq<Page>, subcategories: seq<string>, j: nat)
    requires j < |subcategories|
    ensures PagesOf(members, subcategories[..j + 1]) == PagesOf(members, subcategories[..j]) + members(subcategories[j])
  {
    assert subcategories[..j + 1][..j] == subcategories[..j];
  }

  lemma TakeOneMore<T>(a: seq<T>, xs: seq<T>, k: nat)
    requires k < |xs|
    ensures a + xs[..k + 1] == a + xs[..k] + [xs[k]]
  {
  }

  /** Writing two lists of entries one after the other is writing their concatenation. */
  lemma {:induction false} InsertAllAppend(m: map<string, Record>, a: seq<Entry>, b: seq<Entry>)
    ensures InsertAll(m, a + b) == InsertAll(InsertAll(m, a), b)
    decreases |b|
  {
    if b == [] {
      assert a + b == a;
    } else {
      var n := |b| - 1;
      assert (a + b)[..|a + b| - 1] == a + b[..n];
      InsertAllAppend(m, a, b[..n]);
    }
  }

  /** The pages of the first `j + 1` subcategories are a prefix of the pages of all of them. */
  lemma {:induction false} PagesOfPrefix(members: string -> seq<Page>, subcategories: seq<string>, j: nat)
    requires j < |subcategories|
    ensures PagesOf(members, subcategories[..j]) + members(subcategories[j]) <= PagesOf(members, subcategories)
    decreases |subcategories|
  {
    var n := |subcategories| - 1;
    assert subcategories[..j + 1][..j] == subcategories[..j];
    if j < n {
      PagesOfPrefix(members, subcategories[..n], j);
      assert subcategories[..n][..j] == subcategories[..j];
    } else {
      assert subcategories[..n] == subcategories[..j];
    }
  }
}
