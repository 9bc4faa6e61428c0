/** An in-memory stand-in for the `ArticleRepository` persistence interface: the table
    of articles is a map from id to row. Its contracts are the behaviour the service
    relies on from the reactive store, since the repository's own code is not part of
    this model. */
module Repository {
  import opened Wrappers
  import opened Primitives
  import opened Text
  import opened Model

  /** The ids of the stored articles whose title contains `pattern`; with no pattern, every id. */
  ghost function Selected(store: map<Long, Article>, pattern: Option<string>): set<Long>
  {
    set k | k in store && (pattern.None? || Contains(store[k].title, pattern.value))
  }

  /** `r` lists the stored articles whose ids are `ids`, each exactly once, in an order
      the store chooses. */
  ghost predicate Lists(r: seq<Article>, store: map<Long, Article>, ids: set<Long>)
  {
    && (forall i :: 0 <= i < |r| ==> r[i].id in ids && r[i].id in store && store[r[i].id] == r[i])
    && (forall i, j :: 0 <= i < j < |r| ==> r[i].id != r[j].id)
    && (forall k :: k in ids ==> exists i :: 0 <= i < |r| && r[i].id == k)
  }

  /** A listing has one element per selected id. */
  lemma {:induction false} ListsLength(r: seq<Article>, store: map<Long, Article>, ids: set<Long>)
    requires Lists(r, store, ids)
    ensures |r| == |ids|
  {
    if |r| == 0 {
      assert ids == {};
    } else {
      var last := r[|r| - 1];
      var rest := r[..|r| - 1];
      forall k | k in ids - {last.id} ensures exists i :: 0 <= i < |rest| && rest[i].id == k {
        var i :| 0 <= i < |r| && r[i].id == k;
        assert rest[i].id == k;
      }
      assert Lists(rest, store, ids - {last.id});
      ListsLength(rest, store, ids - {last.id});
    }
  }

  /** An empty pattern selects every stored article, just as no pattern does. */
  lemma SelectedEmptyPattern(store: map<Long, Article>)
    ensures Selected(store, Some([])) == Selected(store, None) == store.Keys
  {
    forall k | k in store ensures Contains(store[k].title, []) {
      ContainsEmpty(store[k].title);
    }
  }

  /** Listing one more stored article, not yet listed, extends the listed ids by its id. */
  lemma ListsExtend(r: seq<Article>, store: map<Long, Article>, ids: set<Long>, k: Long)
    requires Lists(r, store, ids)
    requires k in store && store[k].id == k && k !in ids
    ensures Lists(r + [store[k]], store, ids + {k})
  {
    var r' := r + [store[k]];
    forall j | j in ids + {k} ensures exists i :: 0 <= i < |r'| && r'[i].id == j {
      if j == k {
        assert r'[|r|].id == j;
      } else {
        var i :| 0 <= i < |r| && r[i].id == j;
        assert r'[i].id == j;
      }
    }
  }

  /** The positive ids up to `n`. */
  ghost function PositiveUpTo(n: Long): set<Long>
    decreases n
  {
    if n <= 0 then {} else PositiveUpTo(n - 1) + {n}
  }

  lemma {:induction false} PositiveUpToMembers(n: Long, x: Long)
    ensures x in PositiveUpTo(n) <==> 0 < x <= n
    decreases n
  {
    if n > 0 {
      PositiveUpToMembers(n - 1, x);
    }
  }

  lemma {:induction false} PositiveUpToCount(n: Long)
    requires 0 <= n
    ensures |PositiveUpTo(n)| == n as int
    decreases n
  {
    if n > 0 {
      PositiveUpToMembers(n - 1, n);
      PositiveUpToCount(n - 1);
    }
  }

  lemma {:induction false} SubsetCount<T>(a: set<T>, b: set<T>)
    requires a <= b
    ensures |a| <= |b|
    decreases a
  {
    if a != {} {
      var x :| x in a;
      SubsetCount(a - {x}, b - {x});
    }
  }

  /** A table with fewer rows than there are positive Long values leaves a positive id free. */
  lemma FreeIdExists(used: set<Long>)
    requires |used| < MAX_LONG
    ensures exists x: Long :: 0 < x && x !in used
  {
    var all := PositiveUpTo(MAX_LONG as Long);
    PositiveUpToCount(MAX_LONG as Long);
    if all <= used {
      SubsetCount(all, used);
      assert false;
    }
    var x :| x in all && x !in used;
    PositiveUpToMembers(MAX_LONG as Long, x);
  }

  class ArticleRepository {
    /** The article table, keyed by id. */
    var articles: map<Long, Article>

    /** Every row is stored under its own id, and no persisted row has the "new" id 0. */
    ghost predicate Valid()
      reads this
    {
      forall k :: k in articles ==> articles[k].id == k && k != 0
    }

    /** An empty table. */
    constructor ()
      ensures Valid() && articles == map[]
    {
      articles := map[];
    }

    /** `findById`: the row with that id, or null when there is none. */
    method FindById(id: Long) returns (r: Option<Article>)
      requires Valid()
      ensures r.Some? <==> id in articles
      ensures r.Some? ==> r.value == articles[id] && r.value.id == id
    {
      if id in articles {
        r := Some(articles[id]);
      } else {
        r := None;
      }
    }

    /** A scan of the table that keeps the rows whose title contains `pattern`, or
        every row when there is no pattern. */
    method Scan(pattern: Option<string>) returns (r: seq<Article>)
      requires Valid()
      ensures Lists(r, articles, Selected(articles, pattern))
    {
      var unseen := articles.Keys;
      r := [];
      while unseen != {}
        invariant unseen <= articles.Keys
        invariant Lists(r, articles, Selected(articles, pattern) - unseen)
        decreases unseen
      {
        var k :| k in unseen;
        if pattern.None? || Contains(articles[k].title, pattern.value) {
          ListsExtend(r, articles, Selected(articles, pattern) - unseen, k);
          assert Selected(articles, pattern) - (unseen - {k}) == (Selected(articles, pattern) - unseen) + {k};
          r := r + [articles[k]];
        } else {
          assert Selected(articles, pattern) - (unseen - {k}) == Selected(articles, pattern) - unseen;
        }
        unseen := unseen - {k};
      }
      assert Selected(articles, pattern) - unseen == Selected(articles, pattern);
    }

    /** `findAll`: every row, each once. */
    method FindAll() returns (r: seq<Article>)
      requires Valid()
      ensures Lists(r, articles, articles.Keys)
    {
      r := Scan(None);
      SelectedEmptyPattern(articles);
    }

    /** `findAllByTitleContains`: exactly the rows whose title contains `title`, each once. */
    method FindAllByTitleContains(title: string) returns (r: seq<Article>)
      requires Valid()
      ensures Lists(r, articles, Selected(articles, Some(title)))
    {
      r := Scan(Some(title));
    }

    /** `count`: the number of rows. */
    method Count() returns (n: nat)
      ensures n == |articles|
    {
      n := |articles|;
    }

    /** `save`: a new article (id 0) is inserted under a fresh positive id with both
        timestamps set to `now`; any other article overwrites the row with its id and
        has its last-modified time set to `now`, its creation time left as it was. */
    method Save(a: Article, now: Timestamp) returns (saved: Article)
      requires Valid()
      requires a.IsNew() ==> |articles| < MAX_LONG
      modifies this
      ensures Valid()
      ensures a.IsNew() ==> 0 < saved.id && saved.id !in old(articles)
      ensures a.IsNew() ==> saved == a.(id := saved.id, createdAt := Some(now), updatedAt := Some(now))
      ensures !a.IsNew() ==> saved == a.(updatedAt := Some(now))
      ensures articles == old(articles)[saved.id := saved]
    {
      if a.IsNew() {
        FreeIdExists(articles.Keys);
        var newId: Long :| 0 < newId && newId !in articles;
        saved := a.(id := newId, createdAt := Some(now), updatedAt := Some(now));
      } else {
        saved := a.(updatedAt := Some(now));
      }
      articles := articles[saved.id := saved];
    }

    /** `deleteById`: removes the row with that id; a missing id leaves the table as it is. */
    method DeleteById(id: Long)
      requires Valid()
      modifies this
      ensures Valid()
      ensures articles == old(articles) - {id}
    {
      articles := articles - {id};
    }
  }
}
