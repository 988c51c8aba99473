/** The values the article service works with: the stored entity, the two
    request bodies and the two ways a call can fail. */
module Domain {

  /** A blog article as the repository stores it. `author` is the name of
      the user who created it; the model never lets it be null. */
  datatype Article = Article(id: int, title: string, content: string, author: string)
  {
    /** The entity's own update: new title and content, same id and author. */
    function Update(newTitle: string, newContent: string): Article
    {
      this.(title := newTitle, content := newContent)
    }
  }

  /** Body of a request that creates an article. */
  datatype AddArticleRequest = AddArticleRequest(title: string, content: string)
  {
    /** The entity built from the request, once the repository has chosen its id. */
    function ToEntity(id: int, userName: string): Article
    {
      Article(id, title, content, userName)
    }
  }

  /** Body of a request that rewrites an article. */
  datatype UpdateArticleRequest = UpdateArticleRequest(title: string, content: string)

  /** The two failures of the service. The source throws the same exception
      type for both and tells them apart only by its message. */
  datatype Error = NotFound(id: int) | NotAuthorized

  datatype Result<+T> = Ok(value: T) | Err(error: Error)
}
