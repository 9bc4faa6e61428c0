/** The request bodies of the create and update operations. */
module SaveArticle {
  import opened Wrappers
  import opened Primitives
  import opened Model

  /** The body of a create request: a title is always present; body and author may be null. */
  datatype CreateArticle = CreateArticle(title: string, body: Option<string>, authorId: Option<Long>)
  {
    /** `CreateArticle.toEntity`: a new, unpersisted article carrying the request's fields. */
    function ToEntity(): (a: Article)
      ensures a.title == title && a.body == body && a.authorId == authorId
      ensures a.IsNew() && a.createdAt == None && a.updatedAt == None
    {
      Article(title := title, body := body, authorId := authorId)
    }
  }

  /** The body of an update request: every field may be null, meaning "leave as it is". */
  datatype UpdateArticle = UpdateArticle(title: Option<string>, body: Option<string>, authorId: Option<Long>)

  /** The request that names no field. */
  const NoChange: UpdateArticle := UpdateArticle(None, None, None)

  /** Requests built from different bodies give different entities: `ToEntity` loses nothing. */
  lemma ToEntityInjective(c: CreateArticle, d: CreateArticle)
    requires c.ToEntity() == d.ToEntity()
    ensures c == d
  {
  }
}
