# Article service of a blog backend, in Dafny

This project models the article service of a small Spring blog backend
(`ArticleService`). The service is a layer over a repository table of
articles keyed by id. Each article has an id, a title, a content and an
author name. The service offers five operations:

- `save` stores a new article built from the request and owned by the caller.
- `findAll` lists every stored article.
- `findById` returns one article or fails with "not found".
- `deleteById` and `update` look the article up, then check that the caller
  is its author, and only then delete it or rewrite its title and content.

The model has four modules:

- `Domain` (`domain.dfy`): the `Article` entity, the two request bodies,
  the error kinds `NotFound(id)` and `NotAuthorized`, and `Result`.
- `ArticleSpec` (`article_spec.dfy`): every operation as a function on a
  `Store` value, which holds the table and the next id to hand out. Each
  function's contract states what the source promises: the order of the
  checks, the author-only rule, and that a failed call changes nothing and
  a successful delete or update touches only its own id.
- `Service` (`article_service.dfy`): class `ArticleService`, whose fields
  `articles` (a map) and `nextId` are changed in place by `Save`,
  `DeleteById` and `Update`. Each method is proved equal to its
  `ArticleSpec` function. `FindAll` and `FindById` are read-only functions.
- `ArticleProperties` (`article_properties.dfy`): a call followed by a
  lookup, and histories of requests. Over any sequence of requests, an
  article keeps its id and its author. An article survives unchanged when
  no request in the sequence deletes or rewrites that article in its author's name.

The caller's name, which the source reads from the ambient security
context, is an explicit `userName` parameter. The source throws one
exception type with two messages ("not found", "not authorized"); the
model has two error kinds. The model follows the code's "not authorized" message
(`ArticleService.java:55`) and calls that failure `NotAuthorized`.
Generated ids come from a counter starting at 1, which stands in for the
database's id generator. Every contract that depends on it is named under
"## Left out".

## Model

| member | source | states |
|---|---|---|
| `ArticleSpec.Save` | src/main/java/me/leehoseung/service/ArticleService.java:20-22 | the new article has a fresh id, the request's title and content and the caller as author; the table gains exactly that entry; the repository invariant is kept |
| `Service.ArticleService.Save` | src/main/java/me/leehoseung/service/ArticleService.java:20-22 | changing the table in place matches `ArticleSpec.Save`; the returned article is the stored one; older entries are untouched |
| `ArticleSpec.InIdOrder` | src/main/java/me/leehoseung/service/ArticleService.java:24-26 | the articles with ids in a range: each is stored under its own id, every stored one in the range is included, ids strictly ascend |
| `ArticleSpec.FindAll` | src/main/java/me/leehoseung/service/ArticleService.java:24-26 | lists exactly the stored articles, each once, in ascending id order |
| `Service.ArticleService.FindAll` | src/main/java/me/leehoseung/service/ArticleService.java:24-26 | the same promise about the object's table; as a function it cannot change the table |
| `ArticleSpec.FindById` | src/main/java/me/leehoseung/service/ArticleService.java:28-31 | succeeds iff the id is stored, with the stored article, which carries that id; otherwise fails with NotFound(id) |
| `Service.ArticleService.FindById` | src/main/java/me/leehoseung/service/ArticleService.java:28-31 | the same promise about the object's table, without changing it |
| `ArticleSpec.AuthorizeArticleAuthor` | src/main/java/me/leehoseung/service/ArticleService.java:52-57 | passes iff the caller's name equals the article's author; otherwise fails with NotAuthorized |
| `ArticleSpec.DeleteById` | src/main/java/me/leehoseung/service/ArticleService.java:33-39 | absent id gives NotFound for every caller; a non-author gets NotAuthorized; success iff present and the caller is the author; a failure changes nothing; success removes that id and no other entry changes |
| `Service.ArticleService.DeleteById` | src/main/java/me/leehoseung/service/ArticleService.java:33-39 | the in-place removal matches `ArticleSpec.DeleteById`; a failure leaves the object unchanged |
| `ArticleSpec.Update` | src/main/java/me/leehoseung/service/ArticleService.java:41-50 | same check order and author-only rule as delete; success returns the article with the request's title and content and the old id and author, stored under the same id; no other entry changes; a failure changes nothing |
| `Service.ArticleService.Update` | src/main/java/me/leehoseung/service/ArticleService.java:41-50 | the in-place rewrite matches `ArticleSpec.Update`; a failure leaves the object unchanged |
| `ArticleProperties.NotFoundIgnoresCaller` | src/main/java/me/leehoseung/service/ArticleService.java:33-46 | on an absent id, delete and update give the same outcome whoever calls: absence is decided before authorship |
| `ArticleProperties.SaveThenFind` | src/test/java/me/leehoseung/controller/ArticleApiControllerTest.java:69-73 | a saved article is found under its id and is listed by findAll |
| `ArticleProperties.DeleteThenFind` | src/test/java/me/leehoseung/controller/ArticleApiControllerTest.java:141-147 | after a successful delete, lookup of the id fails with NotFound and findAll lists no article with that id |
| `ArticleProperties.UpdateThenFind` | src/test/java/me/leehoseung/controller/ArticleApiControllerTest.java:170-181 | after a successful update, lookup returns the article with the request's title and content |
| `ArticleProperties.RunDoesNotReuseIds` | src/main/java/me/leehoseung/service/ArticleService.java:20-22 | an id that was handed out and is now absent stays absent over any sequence of requests |
| `ArticleProperties.RunKeepsIdAndAuthor` | src/main/java/me/leehoseung/service/ArticleService.java:41-49 | over any sequence of requests, an article that is still stored has the id and author it had before |
| `ArticleProperties.OnlyAuthorChangesArticle` | src/main/java/me/leehoseung/service/ArticleService.java:52-56 | if no request in a sequence deletes or updates article k in the name of its author, k is still stored, unchanged, whatever other users request |

## Left out

- The HTTP controllers (`ArticleController`, `ArticleViewController`) are not part of this model: they route requests and choose status codes and views, with no rule of their own. `ArticleController` calls `save` with one argument while the service takes two; the model follows the service.
- `UserService` is not part of this model: it passes data to its repository and hashes passwords with a library call that is not shown.
- Token issuance and validation (JWT, RFC 7519) are not part of this model: they are done by libraries that are not shown.
- The ambient security context that supplies the caller's name is replaced by an explicit `userName` parameter.
- Transactions and concurrent requests are not modelled: each call is one atomic step on a sequential table.
- The exception messages ("not found: " + id, "not found : " + id, "not authorized") are not modelled; only the error kind and the id are.
- Ids are unbounded integers: the 64-bit range of Java's `long` and overflow of the id generator are not modelled. Id generation is a counter standing for the database's own.
- The entity is a value in the table: the source returns the same mutable object it stores, so later changes to one show in the other. The model returns an equal value instead.
- A null author is not modelled: the author is always a string, so the author check never fails with a null dereference.
- ArticleProperties.RunDoesNotReuseIds and ArticleProperties.RunKeepsIdAndAuthor: assume that the database never hands out an id twice. The source leaves id generation to `articleRepository.save`, whose code is not part of this model. The model's counter has that property, and both lemmas depend on it. Without it, a deleted id could come back with a new author.
- Domain.Article.Update and Domain.AddArticleRequest.ToEntity: the Java `Article.update` and `AddArticleRequest.toEntity` are not part of this model. Their behaviour is assumed from their names and call sites. `update` replaces only title and content. `toEntity` copies title and content and sets the caller as author. The "keeps id and author" clause of `ArticleSpec.Update` and `ArticleProperties.RunKeepsIdAndAuthor` rely on the first of these.
- ArticleSpec.FindAll: the source calls `articleRepository.findAll()` without a sort, so it promises no order. The model chooses ascending id order. The ordering clause of `FindAll` (and of `Service.ArticleService.FindAll`) is a choice of the model, not a promise of the source.
