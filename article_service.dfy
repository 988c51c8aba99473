/** The article service as an object over the repository's table, which
    its methods change in place. Each method is proved against the
    function of the same name in ArticleSpec. */
module Service {
  import opened Domain
  import ArticleSpec

  class ArticleService {
    /** The repository's article table, keyed by id. */
    var articles: map<int, Article>
    /** The id the repository generates for the next saved article. */
    var nextId: int

    /** The repository as a value, for stating contracts against ArticleSpec. */
    function State(): ArticleSpec.Store
      reads this
    {
      ArticleSpec.Store(articles, nextId)
    }

    ghost predicate Valid()
      reads this
    {
      ArticleSpec.Valid(State())
    }

    /** A service over an empty repository. */
    constructor ()
      ensures Valid() && articles == map[]
    {
      articles := map[];
      nextId := ArticleSpec.FirstId;
    }

    /** Stores the request as a new article owned by `userName` and returns it. */
    method Save(request: AddArticleRequest, userName: string) returns (saved: Article)
      requires Valid()
      modifies this
      ensures Valid()
      ensures ArticleSpec.Save(old(State()), request, userName) == ArticleSpec.Outcome(Ok(saved), State())
      ensures saved.id !in old(articles) && articles == old(articles)[saved.id := saved]
      ensures saved.title == request.title && saved.content == request.content && saved.author == userName
    {
      saved := request.ToEntity(nextId, userName);
      articles := articles[saved.id := saved];
      nextId := nextId + 1;
    }

    /** Every stored article exactly once, in ascending id order. */
    function FindAll(): (r: seq<Article>)
      reads this
      requires Valid()
      ensures forall a :: a in r ==> a.id in articles && articles[a.id] == a
      ensures forall k :: k in articles ==> articles[k] in r
      ensures forall i, j :: 0 <= i < j < |r| ==> r[i].id < r[j].id
    {
      ArticleSpec.FindAll(State())
    }

    /** The article stored under `id`, or NotFound. */
    function FindById(id: int): (r: Result<Article>)
      reads this
      ensures r.Ok? <==> id in articles
      ensures r.Ok? ==> r.value == articles[id]
      ensures r.Err? ==> r.error == NotFound(id)
    {
      ArticleSpec.FindById(State(), id)
    }

    /** Removes the article when it exists and `userName` is its author;
        otherwise fails with NotFound or NotAuthorized, in that order, and
        changes nothing. */
    method DeleteById(id: int, userName: string) returns (r: Result<()>)
      requires Valid()
      modifies this
      ensures Valid()
      ensures ArticleSpec.DeleteById(old(State()), id, userName) == ArticleSpec.Outcome(r, State())
      ensures r.Err? ==> unchanged(this)
      ensures r.Ok? ==> articles == old(articles) - {id} && nextId == old(nextId)
    {
      var found := FindById(id);
      if found.Err? {
        return Err(found.error);
      }
      var authorized := ArticleSpec.AuthorizeArticleAuthor(found.value, userName);
      if authorized.Err? {
        return authorized;
      }
      articles := articles - {id};
      r := Ok(());
    }

    /** Rewrites the title and content of the article when it exists and
        `userName` is its author, and returns it; otherwise fails with
        NotFound or NotAuthorized, in that order, and changes nothing. */
    method Update(id: int, request: UpdateArticleRequest, userName: string) returns (r: Result<Article>)
      requires Valid()
      modifies this
      ensures Valid()
      ensures ArticleSpec.Update(old(State()), id, request, userName) == ArticleSpec.Outcome(r, State())
      ensures r.Err? ==> unchanged(this)
      ensures r.Ok? ==> articles == old(articles)[id := r.value] && nextId == old(nextId)
    {
      var found := FindById(id);
      if found.Err? {
        return Err(found.error);
      }
      var article := found.value;
      var authorized := ArticleSpec.AuthorizeArticleAuthor(article, userName);
      if authorized.Err? {
        return Err(authorized.error);
      }
      article := article.Update(request.title, request.content);
      articles := articles[id := article];
      r := Ok(article);
    }
  }
}
