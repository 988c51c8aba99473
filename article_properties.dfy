/** Properties of the article service that relate several calls: a call
    followed by a lookup, and whole sequences of requests. */
module ArticleProperties {
  import opened Domain
  import opened ArticleSpec

  /** A saved article is found under its id and listed by FindAll. */
  lemma SaveThenFind(s: Store, request: AddArticleRequest, userName: string)
    requires Valid(s)
    ensures var o := Save(s, request, userName);
      && FindById(o.store, o.result.value.id) == Ok(o.result.value)
      && o.result.value in FindAll(o.store)
  {
  }

  /** After a successful delete the id is gone: a lookup fails with
      NotFound and FindAll no longer lists an article with that id. */
  lemma DeleteThenFind(s: Store, id: int, userName: string)
    requires Valid(s)
    requires DeleteById(s, id, userName).result.Ok?
    ensures var o := DeleteById(s, id, userName);
      && FindById(o.store, id) == Err(NotFound(id))
      && forall a :: a in FindAll(o.store) ==> a.id != id
  {
  }

  /** After a successful update a lookup returns the updated article. */
  lemma UpdateThenFind(s: Store, id: int, request: UpdateArticleRequest, userName: string)
    requires Update(s, id, request, userName).result.Ok?
    ensures var o := Update(s, id, request, userName);
      && FindById(o.store, id) == o.result
      && o.result.value.title == request.title && o.result.value.content == request.content
  {
  }

  /** Absence is decided before authorship: on a missing id the caller's
      name makes no difference to either operation. */
  lemma NotFoundIgnoresCaller(s: Store, id: int, request: UpdateArticleRequest, name1: string, name2: string)
    requires id !in s.articles
    ensures DeleteById(s, id, name1) == DeleteById(s, id, name2)
    ensures Update(s, id, request, name1) == Update(s, id, request, name2)
  {
  }

  /** A state-changing request, with the name of the user who makes it. */
  datatype Call =
    | SaveCall(addRequest: AddArticleRequest, userName: string)
    | DeleteCall(id: int, userName: string)
    | UpdateCall(id: int, updateRequest: UpdateArticleRequest, userName: string)

  /** The repository after one request; failed requests leave it as it was. */
  function Apply(s: Store, c: Call): (r: Store)
    requires Valid(s)
    ensures Valid(r)
    ensures r.nextId >= s.nextId
  {
    match c
    case SaveCall(request, userName) => Save(s, request, userName).store
    case DeleteCall(id, userName) => DeleteById(s, id, userName).store
    case UpdateCall(id, request, userName) => Update(s, id, request, userName).store
  }

  /** The repository after the requests in order. */
  function Run(s: Store, calls: seq<Call>): (r: Store)
    requires Valid(s)
    ensures Valid(r)
    decreases |calls|
  {
    if calls == [] then s
    else
      Run(Apply(s, calls[0]), calls[1..])
  }

  /** One request never changes the id or the author of an article that
      survives it. */
  lemma ApplyKeepsIdAndAuthor(s: Store, c: Call, k: int)
    requires Valid(s)
    requires k in s.articles && k in Apply(s, c).articles
    ensures Apply(s, c).articles[k].id == s.articles[k].id
    ensures Apply(s, c).articles[k].author == s.articles[k].author
  {
  }

  /** However many requests run, an article that is still there has the
      id and the author it had before them. */
  lemma {:induction false} RunKeepsIdAndAuthor(s: Store, calls: seq<Call>, k: int)
    requires Valid(s)
    requires k in s.articles && k in Run(s, calls).articles
    ensures Run(s, calls).articles[k].id == s.articles[k].id
    ensures Run(s, calls).articles[k].author == s.articles[k].author
    decreases |calls|
  {
    if calls != [] {
      var s' := Apply(s, calls[0]);
      assert Run(s, calls) == Run(s', calls[1..]);
      if k in s'.articles {
        ApplyKeepsIdAndAuthor(s, calls[0], k);
        RunKeepsIdAndAuthor(s', calls[1..], k);
      } else {
        RunDoesNotReuseIds(s', calls[1..], k);
      }
    }
  }

  /** A delete or update of article `k` made in the name of `who`. */
  predicate ActsOn(c: Call, who: string, k: int)
  {
    (c.DeleteCall? || c.UpdateCall?) && c.userName == who && c.id == k
  }

  /** Ids below nextId that are absent stay absent: the repository never
      hands an id out twice. */
  lemma {:induction false} RunDoesNotReuseIds(s: Store, calls: seq<Call>, k: int)
    requires Valid(s)
    requires k !in s.articles && k < s.nextId
    ensures k !in Run(s, calls).articles
    decreases |calls|
  {
    if calls != [] {
      var s' := Apply(s, calls[0]);
      assert Run(s, calls) == Run(s', calls[1..]);
      assert k !in s'.articles && k < s'.nextId by {
        match calls[0]
        case SaveCall(request, userName) =>
        case DeleteCall(id, userName) =>
          if k != id { assert SameEntry(s.articles, DeleteById(s, id, userName).store.articles, k); }
        case UpdateCall(id, request, userName) =>
          if k != id { assert SameEntry(s.articles, Update(s, id, request, userName).store.articles, k); }
      }
      RunDoesNotReuseIds(s', calls[1..], k);
    }
  }

  /** One request that is not a delete or update of `k` by `who` leaves
      article `k` of `who` as it was. */
  lemma ApplyKeepsOthersArticles(s: Store, c: Call, who: string, k: int)
    requires Valid(s)
    requires !ActsOn(c, who, k)
    requires k in s.articles && s.articles[k].author == who
    ensures k in Apply(s, c).articles && Apply(s, c).articles[k] == s.articles[k]
  {
  }

  /** The author-only rule over whole histories: if no request in the run
      deletes or rewrites article `k` in the name of its author `who`, then
      `k` is still there with the same title and content, whatever anyone
      else requested. */
  lemma {:induction false} OnlyAuthorChangesArticle(s: Store, calls: seq<Call>, who: string, k: int)
    requires Valid(s)
    requires forall i :: 0 <= i < |calls| ==> !ActsOn(calls[i], who, k)
    requires k in s.articles && s.articles[k].author == who
    ensures k in Run(s, calls).articles && Run(s, calls).articles[k] == s.articles[k]
    decreases |calls|
  {
    if calls != [] {
      var s' := Apply(s, calls[0]);
      assert Run(s, calls) == Run(s', calls[1..]);
      ApplyKeepsOthersArticles(s, calls[0], who, k);
      OnlyAuthorChangesArticle(s', calls[1..], who, k);
    }
  }
}
