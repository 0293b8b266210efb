/**
 * The state of the search dialog: `SearchModal` in components/search.tsx and
 * its near copy `Search` in apps/docs/components/search.tsx, which keep the
 * same state and run the same effects. The full-text engine is a parameter:
 * a ranking that picks the hits for a term among some documents, best first.
 * Each effect is applied at once, in the call that changes what it depends on.
 */
module SearchSession {
  import opened Strings
  import opened SearchText

  /** A loaded search index: the documents of the index file. */
  datatype Database = Database(documents: seq<SearchResult>)

  /** The engine's ranking: the hits for a term among the given documents. */
  type Ranking = (seq<SearchResult>, string) -> seq<SearchResult>

  /** The `limit` of both searches. */
  const Limit: nat := 10

  /** The documents the `where: { locale }` filter lets through, in order. */
  function WithLocale(documents: seq<SearchResult>, locale: string): (r: seq<SearchResult>)
    ensures |r| <= |documents|
    ensures forall k :: 0 <= k < |r| ==> r[k].locale == locale && r[k] in documents
    ensures forall d :: d in documents && d.locale == locale ==> d in r
  {
    if documents == [] then []
    else
      var rest := WithLocale(documents[1..], locale);
      assert forall d :: d in documents[1..] ==> d in documents;
      if documents[0].locale == locale then [documents[0]] + rest else rest
  }

  /**
   * The filter keeps the order of the documents: filtering two runs of
   * documents one after the other is filtering each, and a single document
   * stays exactly when it has the locale.
   */
  lemma {:induction false} WithLocaleConcat(a: seq<SearchResult>, b: seq<SearchResult>, locale: string)
    ensures WithLocale(a + b, locale) == WithLocale(a, locale) + WithLocale(b, locale)
    ensures |a| == 1 ==> WithLocale(a, locale) == if a[0].locale == locale then a else []
  {
    if a != [] {
      assert (a + b)[0] == a[0];
      assert (a + b)[1..] == a[1..] + b;
      WithLocaleConcat(a[1..], b, locale);
      var head := if a[0].locale == locale then [a[0]] else [];
      assert WithLocale(a, locale) == head + WithLocale(a[1..], locale);
      assert WithLocale(a + b, locale) == head + WithLocale(a[1..] + b, locale);
      ConcatAssoc(head, WithLocale(a[1..], locale), WithLocale(b, locale));
      if |a| == 1 {
        assert a[1..] == [];
        assert a == [a[0]];
      }
    } else {
      assert a + b == b;
    }
  }

  /** One search: the first `Limit` ranked hits, among the documents of `locale` when one is given. */
  function Search(rank: Ranking, db: Database, term: string, locale: Option<string>): (hits: seq<SearchResult>)
    ensures |hits| <= Limit
    ensures var pool := if locale.Some? then WithLocale(db.documents, locale.value) else db.documents;
      |hits| == Min(|rank(pool, term)|, Limit) && hits == rank(pool, term)[..|hits|]
  {
    var pool := if locale.Some? then WithLocale(db.documents, locale.value) else db.documents;
    var ranked := rank(pool, term);
    if |ranked| <= Limit then ranked else ranked[..Limit]
  }

  /** What the search effect settles on for a database, a query and the reader's locale. */
  function ResultsFor(rank: Ranking, locale: string, db: Option<Database>, query: string): seq<SearchResult> {
    if db.None? || Trim(query) == [] then []
    else
      var localeHits := Search(rank, db.value, query, Some(locale));
      if |localeHits| == 0 then Search(rank, db.value, query, None) else localeHits
  }

  /** There are never more than `Limit` results. */
  lemma ResultsBounded(rank: Ranking, locale: string, db: Option<Database>, query: string)
    ensures |ResultsFor(rank, locale, db, query)| <= Limit
  {
  }

  /**
   * No index or a blank query gives no results. Otherwise the results are
   * the hits in the reader's locale, or the hits in every locale exactly
   * when the reader's locale has none.
   */
  lemma ResultsFallback(rank: Ranking, locale: string, db: Option<Database>, query: string)
    ensures db.None? || IsBlank(query) ==> ResultsFor(rank, locale, db, query) == []
    ensures db.Some? && !IsBlank(query) ==>
      var localeHits, allHits := Search(rank, db.value, query, Some(locale)), Search(rank, db.value, query, None);
      && (localeHits == [] ==> ResultsFor(rank, locale, db, query) == allHits)
      && (localeHits != [] ==> ResultsFor(rank, locale, db, query) == localeHits)
  {
    TrimEmpty(query);
  }

  /** The results are empty exactly when there is no index, the query is blank, or no locale has a hit. */
  lemma ResultsEmpty(rank: Ranking, locale: string, db: Option<Database>, query: string)
    ensures ResultsFor(rank, locale, db, query) == [] <==>
      db.None? || IsBlank(query) ||
      (Search(rank, db.value, query, Some(locale)) == [] && Search(rank, db.value, query, None) == [])
  {
    TrimEmpty(query);
  }

  /** The engine only returns documents it was given. */
  ghost predicate Selects(rank: Ranking) {
    forall pool: seq<SearchResult>, term: string, k :: 0 <= k < |rank(pool, term)| ==> rank(pool, term)[k] in pool
  }

  /** The locale badge: a result from another locale than the reader's. */
  predicate ShowsLocaleBadge(locale: string, r: SearchResult) {
    r.locale != locale
  }

  /**
   * With an engine that only returns documents it was given, every result is
   * a document of the index, and no result carries a locale badge unless the
   * reader's locale had no hit.
   */
  lemma ResultsFromIndex(rank: Ranking, locale: string, db: Option<Database>, query: string)
    requires Selects(rank)
    ensures var r := ResultsFor(rank, locale, db, query);
      && (forall k :: 0 <= k < |r| ==> r[k] in db.value.documents)
      && (db.Some? && Search(rank, db.value, query, Some(locale)) != [] ==>
            forall k :: 0 <= k < |r| ==> !ShowsLocaleBadge(locale, r[k]))
  {
    var r := ResultsFor(rank, locale, db, query);
    if r != [] {
      var pool := WithLocale(db.value.documents, locale);
      var hits := Search(rank, db.value, query, Some(locale));
      if hits != [] {
        assert r == hits;
        forall k | 0 <= k < |r| ensures r[k] in db.value.documents && r[k].locale == locale {
          assert r[k] == rank(pool, query)[k];
          assert r[k] in pool;
        }
      } else {
        forall k | 0 <= k < |r| ensures r[k] in db.value.documents {
          assert r[k] == rank(db.value.documents, query)[k];
        }
      }
    }
  }

  /** The dialog's state: whether it is open, the query, the results, the loading flag and the index. */
  class SearchModal {
    const locale: string
    const rank: Ranking
    var open: bool
    var query: string
    var results: seq<SearchResult>
    var loading: bool
    var db: Option<Database>

    /** The results are what the search effect gives for the index and query, and a closed dialog keeps no query. */
    ghost predicate Valid()
      reads this
    {
      results == ResultsFor(rank, locale, db, query) && (!open ==> query == [])
    }

    /** A closed dialog with an empty query, no results and no index. */
    constructor (locale: string, rank: Ranking)
      ensures Valid()
      ensures this.locale == locale && this.rank == rank
      ensures !open && query == [] && results == [] && !loading && db.None?
    {
      this.locale := locale;
      this.rank := rank;
      open := false;
      query := [];
      results := [];
      loading := false;
      db := None;
    }

    /** `setOpen(true)`; opening a dialog without an index starts loading it. */
    method Open()
      requires Valid()
      modifies this
      ensures Valid() && |results| <= Limit
      ensures open && query == old(query) && results == old(results) && db == old(db)
      ensures loading == (old(loading) || (!old(open) && db.None?))
    {
      if !open {
        open := true;
        if db.None? {
          loading := true;
        }
      }
      ResultsBounded(rank, locale, db, query);
    }

    /** The keyboard shortcut: the key `k` with the meta or control key opens the dialog. */
    method KeyDown(metaKey: bool, ctrlKey: bool, key: string)
      requires Valid()
      modifies this
      ensures Valid()
      ensures open == (old(open) || ((metaKey || ctrlKey) && key == "k"))
      ensures query == old(query) && results == old(results) && db == old(db)
      ensures loading == (old(loading) || (!old(open) && open && db.None?))
    {
      if (metaKey || ctrlKey) && key == "k" {
        Open();
      }
    }

    /** The index file was read and loaded: the index is set, loading ends and the search effect runs. */
    method LoadSucceeded(documents: seq<SearchResult>)
      requires Valid()
      modifies this
      ensures Valid() && |results| <= Limit
      ensures db == Some(Database(documents)) && !loading
      ensures open == old(open) && query == old(query)
      ensures results == ResultsFor(rank, locale, db, query)
    {
      db := Some(Database(documents));
      loading := false;
      results := ResultsFor(rank, locale, db, query);
      ResultsBounded(rank, locale, db, query);
    }

    /** Fetching or loading the index failed: loading ends and nothing else changes. */
    method LoadFailed()
      requires Valid()
      modifies this
      ensures Valid()
      ensures !loading
      ensures open == old(open) && query == old(query) && results == old(results) && db == old(db)
    {
      loading := false;
    }

    /** Typing in the dialog's input, which exists only while the dialog is open. */
    method SetQuery(q: string)
      requires Valid() && open
      modifies this
      ensures Valid() && |results| <= Limit
      ensures query == q && results == ResultsFor(rank, locale, db, q)
      ensures open && loading == old(loading) && db == old(db)
    {
      query := q;
      results := ResultsFor(rank, locale, db, q);
      ResultsBounded(rank, locale, db, q);
    }

    /** `setOpen(false)`; the reset effect clears the query and the results and keeps the index. */
    method Close()
      requires Valid()
      modifies this
      ensures Valid()
      ensures !open && query == [] && results == []
      ensures loading == old(loading) && db == old(db)
    {
      open := false;
      query := [];
      results := [];
      TrimEmpty([]);
    }

    /** `navigateToResult`: the page to go to, under the reader's locale; the dialog closes. */
    method Select(r: SearchResult) returns (target: string)
      requires Valid()
      modifies this
      ensures target == NavigationTarget(locale, r)
      ensures Valid()
      ensures !open && query == [] && results == []
      ensures loading == old(loading) && db == old(db)
    {
      target := NavigationTarget(locale, r);
      Close();
    }
  }
}
