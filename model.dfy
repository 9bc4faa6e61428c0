/** The persistent `Article` entity and the audit timestamps it inherits from `BaseEntity`. */
module Model {
  import opened Wrappers
  import opened Primitives

  /** A `LocalDateTime`, left opaque: only its order is used, as a count of clock ticks. */
  type Timestamp = int

  /** An article row. Every field is a `var` in the entity, so the service changes an
      article by building an updated copy of this record. The defaults are the
      constructor's: an article that has not been persisted has id 0, no body, no
      author, and no timestamps until the store's auditing fills them in. */
  datatype Article = Article(
    id: Long := 0,
    title: string,
    body: Option<string> := None,
    authorId: Option<Long> := None,
    createdAt: Option<Timestamp> := None,
    updatedAt: Option<Timestamp> := None)
  {
    /** Spring Data's rule for a primitive id: 0 means "not yet persisted", so a save inserts. */
    predicate IsNew()
    {
      id == 0
    }

    /** `Article.equals`: the same instance, or another `Article` with the same id.
        `Article` is final, so a `javaClass` match means `other` is an `Article`. */
    predicate Equals(other: Any)
    {
      if other == AnArticle(this) then true
      else if !other.AnArticle? then false
      else id == other.article.id
    }

    /** `Article.hashCode`: the id's `Long.hashCode`. */
    function HashCode(): Int
    {
      LongHashCode(id)
    }
  }

  /** What `equals(other: Any?)` can be handed: null, an `Article`, or a value of another class. */
  datatype Any = Null | AnArticle(article: Article) | NotAnArticle

  /** Equality holds exactly when the ids agree, whatever the other fields hold. */
  lemma EqualsIffSameId(a: Article, b: Article)
    ensures a.Equals(AnArticle(b)) <==> a.id == b.id
  {
  }

  /** No article equals null or a value of another class. */
  lemma EqualsOnlyArticles(a: Article)
    ensures !a.Equals(Null) && !a.Equals(NotAnArticle)
  {
  }

  /** `equals` is an equivalence relation on articles. */
  lemma EqualsIsEquivalence(a: Article, b: Article, c: Article)
    ensures a.Equals(AnArticle(a))
    ensures a.Equals(AnArticle(b)) ==> b.Equals(AnArticle(a))
    ensures a.Equals(AnArticle(b)) && b.Equals(AnArticle(c)) ==> a.Equals(AnArticle(c))
  {
  }

  /** Changing the title, body, author or timestamps keeps an article equal to what it was. */
  lemma EqualsIgnoresContent(a: Article, title: string, body: Option<string>, authorId: Option<Long>)
    ensures a.Equals(AnArticle(a.(title := title, body := body, authorId := authorId)))
  {
  }

  /** `hashCode` agrees with `equals`. */
  lemma HashCodeConsistent(a: Article, b: Article)
    requires a.Equals(AnArticle(b))
    ensures a.HashCode() == b.HashCode()
  {
  }

  /** An article built with only a title takes every default. */
  lemma ConstructorDefaults(title: string)
    ensures Article(title := title).IsNew()
    ensures Article(title := title).body == None && Article(title := title).authorId == None
    ensures Article(title := title).createdAt == None && Article(title := title).updatedAt == None
  {
  }
}
