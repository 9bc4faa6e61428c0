/** Client code that runs the service's test flows against the model and proves the
    outcomes those tests check. */
module Scenarios {
  import opened Wrappers
  import opened Primitives
  import opened Text
  import opened Model
  import opened SaveArticle
  import opened Repository
  import opened Service

  lemma NotContainsTwo(s: string)
    requires '2' !in s
    ensures !Contains(s, "2")
  {
    ContainsChar(s, '2');
  }

  /** Three articles titled "title 1" to "title 3": filtering on "2" finds one of
      them, and no filter finds all three. */
  method GetAllScenario() returns (keyword2: nat, all: nat)
    ensures keyword2 == 1 && all == 3
  {
    var repository := new ArticleRepository();
    var service := new ArticleService(repository);
    var a1 := repository.Save(Article(title := "title 1", body := Some("body1"), authorId := Some(1234)), 0);
    var a2 := repository.Save(Article(title := "title 2", body := Some("body2"), authorId := Some(1234)), 0);
    var a3 := repository.Save(Article(title := "title 3", body := Some("body3"), authorId := Some(1234)), 0);
    var store := repository.articles;
    assert store == map[a1.id := a1, a2.id := a2, a3.id := a3];
    assert store.Keys == {a1.id, a2.id, a3.id};

    var found := service.GetAll(Some("2"));
    var everything := service.GetAll(None);

    ContainsInfix("title ", "2", "");
    assert "title " + "2" + "" == "title 2";
    NotContainsTwo("title 1");
    NotContainsTwo("title 3");
    assert store[a1.id].title == "title 1" && store[a2.id].title == "title 2" && store[a3.id].title == "title 3";
    assert Selected(store, Some("2")) == {a2.id};
    ListsLength(found, store, Selected(store, Some("2")));
    keyword2, all := |found|, |everything|;
  }

  /** Create, then get by the returned id: the count grows by one and the fetched
      article carries the request's title, body and author, with equal timestamps. */
  method CreateThenGet(service: ArticleService, request: CreateArticle, now: Timestamp) returns (fetched: Article)
    requires service.repository.Valid()
    requires |service.repository.articles| < MAX_LONG
    modifies service.repository
    ensures |service.repository.articles| == |old(service.repository.articles)| + 1
    ensures fetched.title == request.title && fetched.body == request.body && fetched.authorId == request.authorId
    ensures fetched.createdAt.Some? && fetched.createdAt == fetched.updatedAt
  {
    var prev := service.repository.Count();
    var created := service.Create(request, now);
    var current := service.repository.Count();
    assert current == prev + 1;
    var got := service.Get(created.id);
    fetched := got.value;
  }

  /** Save an article, then update all three fields: reading it back shows the new values. */
  method UpdateScenario(service: ArticleService, now: Timestamp, later: Timestamp) returns (read: Article)
    requires service.repository.Valid()
    requires |service.repository.articles| < MAX_LONG
    modifies service.repository
    ensures read.title == "update title" && read.body == Some("update body") && read.authorId == Some(9999)
    ensures read.createdAt == Some(now) && read.updatedAt == Some(later)
  {
    var article := service.repository.Save(Article(title := "title", body := Some("body"), authorId := Some(1234)), now);
    var updated := service.Update(article.id, UpdateArticle(Some("update title"), Some("update body"), Some(9999)), later);
    var found := service.repository.FindById(article.id);
    read := found.value;
  }

  /** Save an article and delete it: the table is as it was, and the id is no longer found. */
  method DeleteAfterSave(service: ArticleService, now: Timestamp)
    requires service.repository.Valid()
    requires |service.repository.articles| < MAX_LONG
    modifies service.repository
    ensures service.repository.Valid()
    ensures service.repository.articles == old(service.repository.articles)
  {
    var before := service.repository.Count();
    var article := service.repository.Save(Article(title := "title", body := Some("body"), authorId := Some(1234)), now);
    service.Delete(article.id);
    var after := service.repository.Count();
    assert service.repository.articles == old(service.repository.articles);
    assert before == after;
    var got := service.Get(article.id);
    assert got.Err?;
  }

  /** Deleting twice: neither call fails, and the second changes nothing. */
  method DeleteTwice(service: ArticleService, id: Long)
    requires service.repository.Valid()
    modifies service.repository
    ensures service.repository.Valid()
    ensures service.repository.articles == old(service.repository.articles) - {id}
  {
    service.Delete(id);
    ghost var once := service.repository.articles;
    service.Delete(id);
    assert service.repository.articles == once;
  }

  /** A missing id: `get` and `update` both report it, and `update` changes nothing. */
  method MissingId(service: ArticleService, id: Long, request: UpdateArticle, now: Timestamp)
    returns (got: Result<Article, ArticleNotFound>, updated: Result<Article, ArticleNotFound>)
    requires service.repository.Valid()
    requires id !in service.repository.articles
    modifies service.repository
    ensures got == Err(NotFound(id)) && updated == Err(NotFound(id))
    ensures service.repository.articles == old(service.repository.articles)
  {
    got := service.Get(id);
    updated := service.Update(id, request, now);
  }
}
