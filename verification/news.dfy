/**
 The news registry (`NewsDataManager`): an ordered list of articles, newest first,
 with lookup by id, two filters, and insertion at the head.

 The wall-clock time (`Date.now()`, `new Date()`) is an explicit argument, in
 milliseconds since the epoch.
 */
module NewsData {
  import opened Wrappers
  import opened Filtering

  datatype Article = Article(
    id: int,
    title: string,
    content: string,
    image: string,
    category: string,
    author: string,
    date: int,
    views: int,
    featured: bool)

  const HourMs: int := 60 * 60 * 1000

  /** The three seed articles, with placeholder texts, dated 3, 5 and 7 hours before `now`. */
  function InitializeNews(now: int): (news: seq<Article>)
    ensures |news| == 3
    ensures news[0].id == 1 && news[1].id == 2 && news[2].id == 3
    ensures news[0].featured && !news[1].featured && news[2].featured
    ensures forall i :: 0 <= i < |news| ==> news[i].date < now
  {
    [ Article(1, "Historic opening win", "The national team won the opening match...",
              "opening.jpg", "Football", "Author A", now - 3 * HourMs, 1250, true),
      Article(2, "Champions League upset", "The Champions League saw a major upset...",
              "upset.jpg", "Champions League", "Author B", now - 5 * HourMs, 890, false),
      Article(3, "New basketball star", "A young player steals the spotlight...",
              "star.jpg", "Basketball", "Author C", now - 7 * HourMs, 2100, true) ]
  }

  /** The argument of `getNews(id = null)`: omitted or `null`, a number, or a string. */
  datatype IdArg = NoId | NumId(n: int) | TextId(s: string)

  /** JavaScript truthiness of the argument: `null`, `0` and `""` are falsy. */
  predicate Truthy(arg: IdArg) {
    match arg
    case NoId => false
    case NumId(n) => n != 0
    case TextId(s) => s != ""
  }

  /** What `getNews` hands back: the whole list, one article, or `undefined`. */
  datatype Lookup = All(items: seq<Article>) | Found(article: Article) | NotFound

  /** `find` with `item.id === id`: the first position carrying `id`. */
  function FindById(news: seq<Article>, id: int): (r: Option<nat>)
    ensures r.Some? ==> r.value < |news| && news[r.value].id == id
    ensures r.Some? ==> forall j :: 0 <= j < r.value ==> news[j].id != id
    ensures r.None? ==> forall j :: 0 <= j < |news| ==> news[j].id != id
  {
    FirstIndex(news, (a: Article) => a.id == id)
  }

  /** `getNews`: a falsy argument returns the whole list; a number returns the first
      article with that id, or `undefined`; a non-empty string never equals a numeric
      id under `===`, so it finds nothing. */
  function GetNews(news: seq<Article>, arg: IdArg): (r: Lookup)
    ensures !Truthy(arg) ==> r == All(news)
    ensures arg.TextId? && Truthy(arg) ==> r == NotFound
    ensures arg.NumId? && Truthy(arg) ==>
      && !r.All?
      && (r.Found? ==> exists i :: 0 <= i < |news| && news[i] == r.article && r.article.id == arg.n
                                  && forall j :: 0 <= j < i ==> news[j].id != arg.n)
      && (r.NotFound? <==> forall j :: 0 <= j < |news| ==> news[j].id != arg.n)
  {
    if !Truthy(arg) then All(news)
    else
      match arg
      case NumId(n) =>
        (match FindById(news, n)
         case Some(i) => assert news[i].id == n; Found(news[i])
         case None => NotFound)
      case _ => NotFound
  }

  /** `getFeaturedNews`: the featured articles, in list order. */
  function FeaturedNews(news: seq<Article>): (r: seq<Article>)
    ensures forall a :: a in r <==> a in news && a.featured
    ensures IsSubsequence(r, news)
  {
    Filter(news, (a: Article) => a.featured)
  }

  /** `getNewsByCategory`: the articles whose category is exactly `category`, in list order. */
  function NewsByCategory(news: seq<Article>, category: string): (r: seq<Article>)
    ensures forall a :: a in r <==> a in news && a.category == category
    ensures IsSubsequence(r, news)
  {
    Filter(news, (a: Article) => a.category == category)
  }

  /** Both filters are idempotent. */
  lemma FiltersIdempotent(news: seq<Article>, category: string)
    ensures FeaturedNews(FeaturedNews(news)) == FeaturedNews(news)
    ensures NewsByCategory(NewsByCategory(news, category), category) == NewsByCategory(news, category)
  {
    FilterIdempotent(news, (a: Article) => a.featured);
    FilterIdempotent(news, (a: Article) => a.category == category);
  }

  /** Both filters return the unique order-preserving subsequence that keeps exactly the
      qualifying articles, each as often as it occurs in the list. */
  lemma FiltersExact(news: seq<Article>, category: string, featured: seq<Article>, inCategory: seq<Article>)
    requires IsSubsequence(featured, news)
    requires forall a :: multiset(featured)[a] == if a.featured then multiset(news)[a] else 0
    requires IsSubsequence(inCategory, news)
    requires forall a :: multiset(inCategory)[a] == if a.category == category then multiset(news)[a] else 0
    ensures featured == FeaturedNews(news)
    ensures inCategory == NewsByCategory(news, category)
  {
    FilterUnique(news, (a: Article) => a.featured, featured);
    FilterUnique(news, (a: Article) => a.category == category, inCategory);
  }

  /** What `addNews` leaves behind and the record it stored. */
  datatype Added = Added(news: seq<Article>, stored: Article)

  /** `addNews`: the item gets id `|news| + 1`, date `now` and zero views, and is put at
      the head; every older article moves one place back unchanged. */
  function AddNews(news: seq<Article>, item: Article, now: int): (out: Added)
    ensures |out.news| == |news| + 1
    ensures out.news[0] == out.stored
    ensures out.stored.id == |news| + 1 && out.stored.date == now && out.stored.views == 0
    ensures out.stored.(id := item.id, date := item.date, views := item.views) == item
    ensures forall i :: 0 <= i < |news| ==> out.news[i + 1] == news[i]
  {
    var stored := item.(id := |news| + 1, date := now, views := 0);
    Added([stored] + news, stored)
  }

  /** One call of `addNews`: the caller's item and the time of the call. */
  datatype Submission = Submission(item: Article, now: int)

  /** The list after seeding at `seedTime` and then adding `subs` in order. */
  function NewsAfter(seedTime: int, subs: seq<Submission>): seq<Article>
    decreases |subs|
  {
    if |subs| == 0 then InitializeNews(seedTime)
    else
      var last := subs[|subs| - 1];
      AddNews(NewsAfter(seedTime, subs[..|subs| - 1]), last.item, last.now).news
  }

  /** The id layout such a list has: `n, n-1, ..., 4` from the head, then the seeds `1, 2, 3`. */
  ghost predicate IdLayout(news: seq<Article>) {
    && |news| >= 3
    && news[|news| - 3].id == 1 && news[|news| - 2].id == 2 && news[|news| - 1].id == 3
    && forall i :: 0 <= i < |news| - 3 ==> news[i].id == |news| - i
  }

  /** `addNews` preserves the layout. */
  lemma AddNewsLayout(news: seq<Article>, item: Article, now: int)
    requires IdLayout(news)
    ensures IdLayout(AddNews(news, item, now).news)
  {
  }

  lemma {:induction false} NewsAfterLayout(seedTime: int, subs: seq<Submission>)
    ensures |NewsAfter(seedTime, subs)| == 3 + |subs|
    ensures IdLayout(NewsAfter(seedTime, subs))
    decreases |subs|
  {
    if |subs| != 0 {
      var prefix, last := subs[..|subs| - 1], subs[|subs| - 1];
      NewsAfterLayout(seedTime, prefix);
      AddNewsLayout(NewsAfter(seedTime, prefix), last.item, last.now);
    }
  }

  /** The set of ids in the list. */
  ghost function Ids(news: seq<Article>): set<int> {
    set i | 0 <= i < |news| :: news[i].id
  }

  /** Ids in `1..|news|`, no id twice, and every id of `1..|news|` present. */
  ghost predicate ExactIds(news: seq<Article>) {
    && (forall i :: 0 <= i < |news| ==> 1 <= news[i].id <= |news|)
    && (forall i, j :: 0 <= i < j < |news| ==> news[i].id != news[j].id)
    && (forall k :: k in Ids(news) <==> 1 <= k <= |news|)
  }

  /** The layout has exact ids. */
  lemma LayoutIds(news: seq<Article>)
    requires IdLayout(news)
    ensures ExactIds(news)
  {
    var n := |news|;
    forall i | 0 <= i < n ensures 1 <= news[i].id <= n && (news[i].id <= 3 <==> i >= n - 3) {
      if i >= n - 3 {
        assert news[i].id == i - n + 4;
      }
    }
    forall i, j | 0 <= i < j < n ensures news[i].id != news[j].id {
      if j >= n - 3 {
        if i >= n - 3 {
          assert news[i].id == i - n + 4 && news[j].id == j - n + 4;
        }
      }
    }
    forall k | 1 <= k <= n ensures k in Ids(news) {
      var i := if k <= 3 then n - 4 + k else n - k;
      assert news[i].id == k;
    }
  }

  /** Seeding followed only by additions keeps the ids exact. */
  lemma NewsAfterIds(seedTime: int, subs: seq<Submission>)
    ensures ExactIds(NewsAfter(seedTime, subs))
  {
    NewsAfterLayout(seedTime, subs);
    LayoutIds(NewsAfter(seedTime, subs));
  }

  /** In a list with exact ids, every id `1..|news|` finds its one article, any other
      non-zero number finds nothing, and a falsy argument returns the whole list. */
  lemma GetNewsOnExactIds(news: seq<Article>, k: int)
    requires ExactIds(news)
    ensures GetNews(news, NoId) == All(news) && GetNews(news, NumId(0)) == All(news)
    ensures 1 <= k <= |news| ==>
      && GetNews(news, NumId(k)).Found?
      && GetNews(news, NumId(k)).article.id == k
      && forall j :: 0 <= j < |news| && news[j].id == k ==> news[j] == GetNews(news, NumId(k)).article
    ensures k != 0 && !(1 <= k <= |news|) ==> GetNews(news, NumId(k)) == NotFound
  {
    if 1 <= k <= |news| {
      assert k in Ids(news);
      var i :| 0 <= i < |news| && news[i].id == k;
      var found := FindById(news, k);
      assert found.Some?;
      forall j | 0 <= j < |news| && news[j].id == k ensures j == found.value {
        assert !(j < found.value);
        assert !(found.value < j);
      }
    }
  }

  /** Hence, after seeding and any number of additions, `getNews(k)` for `1 <= k <= |news|`
      returns the unique article with id `k`. */
  lemma GetNewsAfterAdds(seedTime: int, subs: seq<Submission>, k: int)
    ensures var news := NewsAfter(seedTime, subs);
      && GetNews(news, NoId) == All(news)
      && GetNews(news, NumId(0)) == All(news)
      && (1 <= k <= |news| ==>
            && GetNews(news, NumId(k)).Found?
            && GetNews(news, NumId(k)).article.id == k
            && forall j :: 0 <= j < |news| && news[j].id == k ==> news[j] == GetNews(news, NumId(k)).article)
      && (k != 0 && !(1 <= k <= |news|) ==> GetNews(news, NumId(k)) == NotFound)
  {
    NewsAfterIds(seedTime, subs);
    GetNewsOnExactIds(NewsAfter(seedTime, subs), k);
  }
}
