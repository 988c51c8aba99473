/** The article service as functions on an immutable snapshot of the
    repository: each operation gives its result and the repository after it. */
module ArticleSpec {
  import opened Domain

  /** The article table, keyed by id, and the id the repository hands out next. */
  datatype Store = Store(articles: map<int, Article>, nextId: int)

  /** What a call returns together with the repository it leaves behind. */
  datatype Outcome<+T> = Outcome(result: Result<T>, store: Store)

  /** The first id the repository generates. */
  const FirstId := 1

  /** Every stored article carries the key it is stored under. */
  ghost predicate KeysMatch(t: map<int, Article>)
  {
    forall k :: k in t ==> t[k].id == k
  }

  /** The repository invariant: keys match ids, and every id was handed out
      before `nextId`, so `nextId` is free. */
  ghost predicate Valid(s: Store)
  {
    && KeysMatch(s.articles)
    && FirstId <= s.nextId
    && forall k :: k in s.articles ==> FirstId <= k < s.nextId
  }

  /** Key `k` is absent from both tables or maps to the same article in both. */
  ghost predicate SameEntry(t: map<int, Article>, t': map<int, Article>, k: int)
  {
    (k in t <==> k in t') && (k in t ==> t[k] == t'[k])
  }

  /** The empty repository. */
  function Empty(): (s: Store)
    ensures Valid(s) && s.articles == map[]
  {
    Store(map[], FirstId)
  }

  /** The stored articles whose ids lie in [lo, hi), in ascending id order. */
  function InIdOrder(t: map<int, Article>, lo: int, hi: int): (r: seq<Article>)
    requires KeysMatch(t)
    ensures forall i :: 0 <= i < |r| ==> r[i].id in t && t[r[i].id] == r[i] && lo <= r[i].id < hi
    ensures forall k :: lo <= k < hi && k in t ==> t[k] in r
    ensures forall i, j :: 0 <= i < j < |r| ==> r[i].id < r[j].id
    decreases hi - lo
  {
    if hi <= lo then []
    else if lo in t then [t[lo]] + InIdOrder(t, lo + 1, hi)
    else InIdOrder(t, lo + 1, hi)
  }

  /** Succeeds exactly when the caller is the article's author. */
  function AuthorizeArticleAuthor(article: Article, userName: string): (r: Result<()>)
    ensures r.Ok? <==> article.author == userName
    ensures r.Err? ==> r.error == NotAuthorized
  {
    if article.author == userName then Ok(()) else Err(NotAuthorized)
  }

  /** Stores a new article built from the request, owned by `userName`,
      under a fresh id; nothing already stored changes. */
  function Save(s: Store, request: AddArticleRequest, userName: string): (o: Outcome<Article>)
    requires Valid(s)
    ensures Valid(o.store)
    ensures o.result.Ok?
    ensures o.result.value.id !in s.articles
    ensures o.result.value.title == request.title && o.result.value.content == request.content
    ensures o.result.value.author == userName
    ensures o.store.articles == s.articles[o.result.value.id := o.result.value]
  {
    var article := request.ToEntity(s.nextId, userName);
    Outcome(Ok(article), Store(s.articles[article.id := article], s.nextId + 1))
  }

  /** Every stored article exactly once, in ascending id order. */
  function FindAll(s: Store): (r: seq<Article>)
    requires Valid(s)
    ensures forall a :: a in r ==> a.id in s.articles && s.articles[a.id] == a
    ensures forall k :: k in s.articles ==> s.articles[k] in r
    ensures forall i, j :: 0 <= i < j < |r| ==> r[i].id < r[j].id
  {
    InIdOrder(s.articles, FirstId, s.nextId)
  }

  /** The article stored under `id`, or NotFound. */
  function FindById(s: Store, id: int): (r: Result<Article>)
    ensures r.Ok? <==> id in s.articles
    ensures r.Ok? ==> r.value == s.articles[id]
    ensures r.Err? ==> r.error == NotFound(id)
    ensures Valid(s) && r.Ok? ==> r.value.id == id
  {
    if id in s.articles then Ok(s.articles[id]) else Err(NotFound(id))
  }

  /** Looks the article up, then checks authorship, then removes it. */
  function DeleteById(s: Store, id: int, userName: string): (o: Outcome<()>)
    ensures id !in s.articles ==> o == Outcome(Err(NotFound(id)), s)
    ensures id in s.articles && s.articles[id].author != userName ==> o == Outcome(Err(NotAuthorized), s)
    ensures o.result.Ok? <==> id in s.articles && s.articles[id].author == userName
    ensures o.result.Err? ==> o.store == s
    ensures o.result.Ok? ==> id !in o.store.articles && o.store.nextId == s.nextId
    ensures forall k :: k != id ==> SameEntry(s.articles, o.store.articles, k)
    ensures Valid(s) ==> Valid(o.store)
  {
    match FindById(s, id)
    case Err(e) => Outcome(Err(e), s)
    case Ok(article) =>
      match AuthorizeArticleAuthor(article, userName)
      case Err(e) => Outcome(Err(e), s)
      case Ok(_) => Outcome(Ok(()), Store(s.articles - {id}, s.nextId))
  }

  /** Looks the article up, then checks authorship, then rewrites its title
      and content, keeping its id and author. */
  function Update(s: Store, id: int, request: UpdateArticleRequest, userName: string): (o: Outcome<Article>)
    ensures id !in s.articles ==> o == Outcome(Err(NotFound(id)), s)
    ensures id in s.articles && s.articles[id].author != userName ==> o == Outcome(Err(NotAuthorized), s)
    ensures o.result.Ok? <==> id in s.articles && s.articles[id].author == userName
    ensures o.result.Err? ==> o.store == s
    ensures o.result.Ok? ==>
      && o.result.value.id == s.articles[id].id
      && o.result.value.author == s.articles[id].author
      && o.result.value.title == request.title
      && o.result.value.content == request.content
      && o.store == Store(s.articles[id := o.result.value], s.nextId)
    ensures forall k :: k != id ==> SameEntry(s.articles, o.store.articles, k)
    ensures Valid(s) ==> Valid(o.store)
  {
    match FindById(s, id)
    case Err(e) => Outcome(Err(e), s)
    case Ok(article) =>
      match AuthorizeArticleAuthor(article, userName)
      case Err(e) => Outcome(Err(e), s)
      case Ok(_) =>
        var updated := article.Update(request.title, request.content);
        Outcome(Ok(updated), Store(s.articles[id := updated], s.nextId))
  }
}
