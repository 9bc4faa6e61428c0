/** `ArticleService`: the business operations over the article repository. */
module Service {
  import opened Wrappers
  import opened Primitives
  import opened Text
  import opened Model
  import opened SaveArticle
  import opened Repository

  /** The single domain error, raised by `get` and `update` for a missing id. */
  datatype ArticleNotFound = ArticleNotFound(message: string)

  /** The error for a missing id, with the message the service builds. */
  function NotFound(id: Long): ArticleNotFound
  {
    ArticleNotFound("No article found (id: " + Decimal(id as int) + ")")
  }

  /** The message names the requested id. */
  lemma NotFoundMentionsId(id: Long)
    ensures Contains(NotFound(id).message, Decimal(id as int))
  {
    ContainsInfix("No article found (id: ", Decimal(id as int), ")");
  }

  /** Different ids give different messages, so the message identifies the id. */
  lemma NotFoundIdentifiesId(a: Long, b: Long)
    requires NotFound(a) == NotFound(b)
    ensures a == b
  {
    var prefix := "No article found (id: ";
    var ma, mb := NotFound(a).message, NotFound(b).message;
    assert |Decimal(a as int)| == |ma| - |prefix| - 1 == |Decimal(b as int)|;
    assert Decimal(a as int) == ma[|prefix|..|ma| - 1];
    assert Decimal(b as int) == mb[|prefix|..|mb| - 1];
    DecimalInjective(a as int, b as int);
  }

  /** The partial-update merge: each field the request names overwrites the article's;
      each null field leaves it as it was. */
  function Patched(a: Article, u: UpdateArticle): Article
  {
    a.(title := if u.title.Some? then u.title.value else a.title,
       body := if u.body.Some? then u.body else a.body,
       authorId := if u.authorId.Some? then u.authorId else a.authorId)
  }

  /** Field by field: present fields overwrite, absent fields are kept, and the id and
      timestamps are not touched. */
  lemma PatchedFields(a: Article, u: UpdateArticle)
    ensures Patched(a, u).id == a.id
    ensures Patched(a, u).createdAt == a.createdAt && Patched(a, u).updatedAt == a.updatedAt
    ensures u.title.Some? ==> Patched(a, u).title == u.title.value
    ensures u.title.None? ==> Patched(a, u).title == a.title
    ensures u.body.Some? ==> Patched(a, u).body == u.body
    ensures u.body.None? ==> Patched(a, u).body == a.body
    ensures u.authorId.Some? ==> Patched(a, u).authorId == u.authorId
    ensures u.authorId.None? ==> Patched(a, u).authorId == a.authorId
  {
  }

  /** A request that names no field changes nothing. */
  lemma PatchedNoChange(a: Article)
    ensures Patched(a, NoChange) == a
  {
  }

  /** Applying the same request twice is the same as applying it once. */
  lemma PatchedIdempotent(a: Article, u: UpdateArticle)
    ensures Patched(Patched(a, u), u) == Patched(a, u)
  {
  }

  /** An updated article is still equal to the original under the id-only `equals`. */
  lemma PatchedKeepsIdentity(a: Article, u: UpdateArticle)
    ensures Patched(a, u).Equals(AnArticle(a))
  {
  }

  /** What `getAll(title)` selects: every id when the filter is null or empty, and
      otherwise exactly the ids of the articles whose title contains it. */
  lemma SelectedByGetAll(store: map<Long, Article>, title: Option<string>)
    ensures title.None? || title.value == [] ==> Selected(store, title) == store.Keys
    ensures title.Some? ==> forall k :: k in Selected(store, title) <==> k in store && Contains(store[k].title, title.value)
  {
    SelectedEmptyPattern(store);
  }

  /** Every article a filtered listing returns is also in the unfiltered listing. */
  lemma FilteredWithinAll(store: map<Long, Article>, filtered: seq<Article>, all: seq<Article>, title: string)
    requires Lists(filtered, store, Selected(store, Some(title)))
    requires Lists(all, store, store.Keys)
    ensures forall i :: 0 <= i < |filtered| ==> filtered[i] in all
    ensures |filtered| <= |all|
  {
    forall i | 0 <= i < |filtered| ensures filtered[i] in all {
      var k := filtered[i].id;
      var j :| 0 <= j < |all| && all[j].id == k;
      assert all[j] == store[k] == filtered[i];
    }
    ListsLength(filtered, store, Selected(store, Some(title)));
    ListsLength(all, store, store.Keys);
    SubsetCount(Selected(store, Some(title)), store.Keys);
  }

  class ArticleService {
    const repository: ArticleRepository

    constructor (repository: ArticleRepository)
      ensures this.repository == repository
    {
      this.repository := repository;
    }

    /** `get`: the article with that id, or `ArticleNotFound` naming the id. */
    method Get(id: Long) returns (r: Result<Article, ArticleNotFound>)
      requires repository.Valid()
      ensures id in repository.articles ==> r == Ok(repository.articles[id])
      ensures id !in repository.articles ==> r == Err(NotFound(id))
    {
      var found := repository.FindById(id);
      if found.None? {
        r := Err(NotFound(id));
      } else {
        r := Ok(found.value);
      }
    }

    /** `getAll`: with a null or empty title every stored article, otherwise exactly the
        stored articles whose title contains it; each once, in store order. */
    method GetAll(title: Option<string>) returns (r: seq<Article>)
      requires repository.Valid()
      ensures Lists(r, repository.articles, Selected(repository.articles, title))
      ensures title.None? || title.value == [] ==> |r| == |repository.articles|
    {
      if title.None? || |title.value| == 0 {
        r := repository.FindAll();
        SelectedEmptyPattern(repository.articles);
        ListsLength(r, repository.articles, repository.articles.Keys);
      } else {
        r := repository.FindAllByTitleContains(title.value);
      }
    }

    /** `create`: stores the request as a new article and returns it with its new id and
        both timestamps set; the table grows by exactly that one row. */
    method Create(createArticle: CreateArticle, now: Timestamp) returns (r: Article)
      requires repository.Valid()
      requires |repository.articles| < MAX_LONG
      modifies repository
      ensures repository.Valid()
      ensures 0 < r.id && r.id !in old(repository.articles)
      ensures r.title == createArticle.title && r.body == createArticle.body && r.authorId == createArticle.authorId
      ensures r.createdAt == Some(now) && r.updatedAt == Some(now)
      ensures repository.articles == old(repository.articles)[r.id := r]
      ensures |repository.articles| == |old(repository.articles)| + 1
    {
      r := repository.Save(createArticle.ToEntity(), now);
    }

    /** `update`: for a missing id, `ArticleNotFound` and no change; otherwise the stored
        article with the request's present fields written over it, saved with a new
        last-modified time; no other row changes. */
    method Update(id: Long, updateArticle: UpdateArticle, now: Timestamp) returns (r: Result<Article, ArticleNotFound>)
      requires repository.Valid()
      modifies repository
      ensures repository.Valid()
      ensures id !in old(repository.articles) ==>
        r == Err(NotFound(id)) && repository.articles == old(repository.articles)
      ensures id in old(repository.articles) ==>
        r == Ok(Patched(old(repository.articles[id]), updateArticle).(updatedAt := Some(now))) &&
        repository.articles == old(repository.articles)[id := r.value]
      ensures repository.articles.Keys == old(repository.articles.Keys)
      ensures forall k :: k in old(repository.articles) && k != id ==> repository.articles[k] == old(repository.articles[k])
    {
      var found := repository.FindById(id);
      if found.None? {
        r := Err(NotFound(id));
        return;
      }
      var article := found.value;
      if updateArticle.title.Some? {
        article := article.(title := updateArticle.title.value);
      }
      if updateArticle.body.Some? {
        article := article.(body := updateArticle.body);
      }
      if updateArticle.authorId.Some? {
        article := article.(authorId := updateArticle.authorId);
      }
      var saved := repository.Save(article, now);
      r := Ok(saved);
    }

    /** `delete`: removes the article with that id; a missing id is not an error. */
    method Delete(id: Long)
      requires repository.Valid()
      modifies repository
      ensures repository.Valid()
      ensures repository.articles == old(repository.articles) - {id}
      ensures id in old(repository.articles) ==> |repository.articles| == |old(repository.articles)| - 1
      ensures id !in old(repository.articles) ==> repository.articles == old(repository.articles)
    {
      repository.DeleteById(id);
    }
  }
}
