/** The stored document of the record store: the three record kinds (Anime, View, Review),
    each owning its children's id-keyed map, the name catalog of that scope and the scope's
    id counter; the error kinds the store raises; the invariants every operation keeps; and
    the id-chain resolution that every handle performs before touching data. */
module Records {
  import opened Formats

  datatype Option<T> = None | Some(value: T)

  /** The exceptions raised by the store, one constructor per Python exception class. */
  datatype Error =
    | WrongDatabase         // unsupported edition or version of a document
    | IndexError            // the version list is shorter than the check reads
    | RepeatedAnimeTitle    // a title or alias collides in the global catalog
    | RepeatedViewTitle     // a view title collides within its anime
    | RepeatedReviewTitle   // a review title collides within its view
    | AnimeRemoved          // stale anime handle
    | ViewRemoved           // stale view handle
    | ReviewRemoved         // stale review handle
    | StringFormat          // a month or date string of the wrong shape
    | NotAvailableRanking   // a ranking outside 0..10
    | TypeError             // `x in None`; a non-month entry given to the duration setter
    | AttributeError        // `None.remove(x)`
    | ValueError            // `list.remove(x)` with x absent
    | KeyError              // a dict lookup of a missing key

  datatype Result<T> = Ok(value: T) | Err(error: Error)

  datatype Outcome = Done | Failed(error: Error)

  datatype ReviewRec = ReviewRec(
    title: string,
    item: Option<string>,
    episodeRange: Option<seq<string>>,
    ranking: Option<int>,
    comment: Option<string>)

  datatype ViewRec = ViewRec(
    title: string,
    isNew: Option<bool>,
    timesView: Option<int>,
    source: Option<string>,
    episodeRange: Option<seq<string>>,
    duration: Option<seq<string>>,
    lastEpisodeDate: Option<string>,
    reviews: map<nat, ReviewRec>,
    reviewCatalog: map<string, nat>,
    lastReviewId: nat)

  datatype AnimeRec = AnimeRec(
    title: string,
    aliases: seq<string>,
    tags: seq<string>,
    views: map<nat, ViewRec>,
    viewCatalog: map<string, nat>,
    lastViewId: nat)

  // ---------------------------------------------------------------- sequences

  predicate Distinct(s: seq<string>) { forall i, j :: 0 <= i < j < |s| ==> s[i] != s[j] }

  function Elems(s: seq<string>): set<string> { set x | x in s }

  /** Python's `set(xs)` listed back as a sequence; the model keeps first occurrences in order. */
  function Dedup(s: seq<string>): (r: seq<string>)
    ensures Distinct(r)
    ensures forall x :: x in r <==> x in s
    ensures |r| <= |s|
  {
    if s == [] then []
    else
      var r := Dedup(s[..|s| - 1]);
      if s[|s| - 1] in r then r else r + [s[|s| - 1]]
  }

  /** The index of the first occurrence of x in s. */
  function FirstIndex(s: seq<string>, x: string): (k: nat)
    requires x in s
    ensures k < |s| && s[k] == x && x !in s[..k]
  {
    if s[0] == x then 0 else 1 + FirstIndex(s[1..], x)
  }

  /** Python's `list.remove(x)` on a list holding x: the first occurrence goes. */
  function RemoveFirst(s: seq<string>, x: string): (r: seq<string>)
    requires x in s
    ensures |r| == |s| - 1
    ensures multiset(r) == multiset(s) - multiset{x}
  {
    var k := FirstIndex(s, x);
    assert s == s[..k] + [x] + s[k + 1..];
    s[..k] + s[k + 1..]
  }

  /** Where each element of `RemoveFirst(s, x)` comes from in s. */
  lemma RemoveFirstIndexing(s: seq<string>, x: string)
    requires x in s
    ensures forall i :: 0 <= i < |RemoveFirst(s, x)| ==>
      RemoveFirst(s, x)[i] == if i < FirstIndex(s, x) then s[i] else s[i + 1]
  {
    var k := FirstIndex(s, x);
    assert RemoveFirst(s, x) == s[..k] + s[k + 1..];
  }

  lemma RemoveFirstOfDistinct(s: seq<string>, x: string)
    requires x in s && Distinct(s)
    ensures Distinct(RemoveFirst(s, x))
    ensures Elems(RemoveFirst(s, x)) == Elems(s) - {x}
  {
    RemoveFirstKeepsDistinct(s, x);
    RemoveFirstElems(s, x);
  }

  lemma RemoveFirstKeepsDistinct(s: seq<string>, x: string)
    requires x in s && Distinct(s)
    ensures Distinct(RemoveFirst(s, x))
  {
    var k := FirstIndex(s, x);
    var r := RemoveFirst(s, x);
    RemoveFirstIndexing(s, x);
    forall i, j | 0 <= i < j < |r| ensures r[i] != r[j] {
      var i', j' := if i < k then i else i + 1, if j < k then j else j + 1;
      assert r[i] == s[i'] && r[j] == s[j'] && i' < j';
    }
  }

  lemma RemoveFirstElems(s: seq<string>, x: string)
    requires x in s && Distinct(s)
    ensures Elems(RemoveFirst(s, x)) == Elems(s) - {x}
  {
    var k := FirstIndex(s, x);
    var r := RemoveFirst(s, x);
    RemoveFirstIndexing(s, x);
    forall y | y in r ensures y in s && y != x {
      var j :| 0 <= j < |r| && r[j] == y;
      var j' := if j < k then j else j + 1;
      assert s[j'] == y && j' != k;
    }
    forall y | y in s && y != x ensures y in r {
      var j :| 0 <= j < |s| && s[j] == y;
      assert r[if j < k then j else j - 1] == y;
    }
  }

  /** `if x in lst: return` then `lst.append(x)` on a stored list that may be None:
      `x in None` raises TypeError; a present x changes nothing; otherwise x goes at the end. */
  function AddOnce(lst: Option<seq<string>>, x: string): (r: Result<seq<string>>)
    ensures r.Err? <==> lst.None?
    ensures r.Err? ==> r.error == TypeError
    ensures r.Ok? ==> x in r.value && Elems(r.value) == Elems(lst.value) + {x}
    ensures r.Ok? ==> (r.value == lst.value <==> x in lst.value)
    ensures r.Ok? && x !in lst.value ==> |r.value| == |lst.value| + 1 && r.value[..|lst.value|] == lst.value
  {
    if lst.None? then Err(TypeError)
    else if x in lst.value then Ok(lst.value)
    else
      assert (lst.value + [x])[..|lst.value|] == lst.value;
      Ok(lst.value + [x])
  }

  /** `lst.remove(x)` on a stored list that may be None: `None.remove` raises AttributeError,
      an absent x raises ValueError, otherwise the first occurrence goes. */
  function RemoveOnce(lst: Option<seq<string>>, x: string): (r: Result<seq<string>>)
    ensures r.Err? <==> lst.None? || x !in lst.value
    ensures r.Err? ==> r.error == (if lst.None? then AttributeError else ValueError)
    ensures r.Ok? ==> multiset(r.value) == multiset(lst.value) - multiset{x}
  {
    if lst.None? then Err(AttributeError)
    else if x !in lst.value then Err(ValueError)
    else Ok(RemoveFirst(lst.value, x))
  }

  /** Removing what was just appended gives the list back. */
  lemma RemoveOnceUndoesAddOnce(lst: seq<string>, x: string)
    requires x !in lst
    ensures RemoveOnce(Some(AddOnce(Some(lst), x).value), x) == Ok(lst)
  {
    var s := lst + [x];
    assert AddOnce(Some(lst), x).value == s;
    var k := FirstIndex(s, x);
    assert k == |lst|;
    assert s[..k] == lst && s[k + 1..] == [];
    assert RemoveFirst(s, x) == lst;
  }

  /** Adding an element keeps a duplicate-free list duplicate-free. */
  lemma AddOnceKeepsDistinct(lst: seq<string>, x: string)
    requires Distinct(lst)
    ensures Distinct(AddOnce(Some(lst), x).value)
  {
  }

  // ---------------------------------------------------------------- catalogs

  /** The catalog is exactly the index of the names each live id owns: every key points to an
      id that owns it, and every name of every live id is a key pointing to that id. It follows
      that no name is owned by two ids. */
  ghost predicate Indexes(owners: map<nat, set<string>>, catalog: map<string, nat>)
  {
    && (forall n :: n in catalog ==> catalog[n] in owners && n in owners[catalog[n]])
    && (forall id, n :: id in owners && n in owners[id] ==> n in catalog && catalog[n] == id)
  }

  /** The names under which an anime is found: its title and each alias. */
  function Names(a: AnimeRec): set<string> { {a.title} + Elems(a.aliases) }

  ghost function NameOwners(animes: map<nat, AnimeRec>): map<nat, set<string>>
  {
    map id | id in animes :: Names(animes[id])
  }

  ghost function ViewTitles(views: map<nat, ViewRec>): map<nat, set<string>>
  {
    map id | id in views :: {views[id].title}
  }

  ghost function ReviewTitles(reviews: map<nat, ReviewRec>): map<nat, set<string>>
  {
    map id | id in reviews :: {reviews[id].title}
  }

  /** I2: no name is held by two live ids. */
  lemma IndexedNamesDisjoint(owners: map<nat, set<string>>, catalog: map<string, nat>, i: nat, j: nat)
    requires Indexes(owners, catalog)
    requires i in owners && j in owners && i != j
    ensures owners[i] !! owners[j]
  {
    forall n | n in owners[i] ensures n !in owners[j] {
      assert catalog[n] == i;
    }
  }

  /** I5: the catalog is determined by the live entities; two catalogs indexing them are equal. */
  lemma IndexDetermined(owners: map<nat, set<string>>, c1: map<string, nat>, c2: map<string, nat>)
    requires Indexes(owners, c1) && Indexes(owners, c2)
    ensures c1 == c2
  {
    forall n | n in c1 ensures n in c2 && c2[n] == c1[n] {
      assert n in owners[c1[n]];
    }
    forall n | n in c2 ensures n in c1 {
      assert n in owners[c2[n]];
    }
  }

  /** Registering a new id whose names are all free. */
  lemma IndexInsert(owners: map<nat, set<string>>, catalog: map<string, nat>, id: nat, names: set<string>, catalog': map<string, nat>)
    requires Indexes(owners, catalog) && id !in owners
    requires forall n :: n in names ==> n !in catalog
    requires forall n :: n in catalog' <==> n in catalog || n in names
    requires forall n :: n in catalog' ==> catalog'[n] == if n in names then id else catalog[n]
    ensures Indexes(owners[id := names], catalog')
  {
    var o := owners[id := names];
    forall n | n in catalog' ensures catalog'[n] in o && n in o[catalog'[n]] {
      if n !in names {
        assert catalog[n] != id;
      }
    }
  }

  /** Dropping an id together with all of its names. */
  lemma IndexRemove(owners: map<nat, set<string>>, catalog: map<string, nat>, id: nat, catalog': map<string, nat>)
    requires Indexes(owners, catalog) && id in owners
    requires forall n :: n in catalog' <==> n in catalog && n !in owners[id]
    requires forall n :: n in catalog' ==> catalog'[n] == catalog[n]
    ensures Indexes(owners - {id}, catalog')
  {
    var o := owners - {id};
    forall n | n in catalog' ensures catalog'[n] in o && n in o[catalog'[n]] {
      assert catalog[n] != id;
    }
    forall i, n | i in o && n in o[i] ensures n in catalog' && catalog'[n] == i {
      IndexedNamesDisjoint(owners, catalog, i, id);
    }
  }

  /** Replacing the names of a live id by a set of names that are free or already its own. */
  lemma IndexReplace(owners: map<nat, set<string>>, catalog: map<string, nat>, id: nat, names: set<string>, catalog': map<string, nat>)
    requires Indexes(owners, catalog) && id in owners
    requires forall n :: n in names && n in catalog ==> catalog[n] == id
    requires forall n :: n in catalog' <==> n in names || (n in catalog && n !in owners[id])
    requires forall n :: n in catalog' ==> catalog'[n] == if n in names then id else catalog[n]
    ensures Indexes(owners[id := names], catalog')
  {
    var o := owners[id := names];
    forall n | n in catalog' ensures catalog'[n] in o && n in o[catalog'[n]] {
      if n !in names {
        assert catalog[n] != id;
      }
    }
    forall i, n | i in o && n in o[i] ensures n in catalog' && catalog'[n] == i {
      if i != id {
        IndexedNamesDisjoint(owners, catalog, i, id);
        assert catalog[n] == i;
      }
    }
  }

  // ---------------------------------------------------------------- invariants

  ghost predicate IdsUpTo(ids: set<nat>, last: nat) { forall id :: id in ids ==> 0 < id <= last }

  /** I6. */
  ghost predicate ReviewValid(r: ReviewRec)
  {
    r.ranking.Some? ==> IsAvailableRanking(r.ranking.value)
  }

  ghost predicate AllMonths(months: seq<string>) { forall i :: 0 <= i < |months| ==> IsMonthString(months[i]) }

  /** I4, I5, I7, I8 within one view. */
  ghost predicate ViewValid(v: ViewRec)
  {
    && IdsUpTo(v.reviews.Keys, v.lastReviewId)
    && Indexes(ReviewTitles(v.reviews), v.reviewCatalog)
    && (v.duration.Some? ==> AllMonths(v.duration.value))
    && (v.lastEpisodeDate.Some? ==> IsDateString(v.lastEpisodeDate.value))
    && (forall id :: id in v.reviews ==> ReviewValid(v.reviews[id]))
  }

  /** I1, I3, I5, I8 within one anime. */
  ghost predicate AnimeValid(a: AnimeRec)
  {
    && a.title !in a.aliases
    && Distinct(a.aliases)
    && IdsUpTo(a.views.Keys, a.lastViewId)
    && Indexes(ViewTitles(a.views), a.viewCatalog)
    && (forall id :: id in a.views ==> ViewValid(a.views[id]))
  }

  /** The store invariant: ids up to the counter, the global catalog indexes every title and
      alias, every anime record valid. */
  ghost predicate StoreValid(animes: map<nat, AnimeRec>, last: nat, catalog: map<string, nat>)
  {
    && IdsUpTo(animes.Keys, last)
    && Indexes(NameOwners(animes), catalog)
    && (forall id :: id in animes ==> AnimeValid(animes[id]))
  }

  // ---------------------------------------------------------------- resolution

  /** Anime `_checking_existence`: the id must still be a key of the anime map. */
  function ResolveAnime(animes: map<nat, AnimeRec>, id: nat): (r: Result<AnimeRec>)
    ensures r.Ok? <==> id in animes
    ensures r.Ok? ==> r.value == animes[id]
    ensures r.Err? ==> r.error == AnimeRemoved
  {
    if id !in animes then Err(AnimeRemoved) else Ok(animes[id])
  }

  /** View `_checking_existence`: the anime id, then the view id; a broken link is ViewRemoved. */
  function ResolveView(animes: map<nat, AnimeRec>, aid: nat, vid: nat): (r: Result<ViewRec>)
    ensures r.Ok? <==> aid in animes && vid in animes[aid].views
    ensures r.Ok? ==> r.value == animes[aid].views[vid]
    ensures r.Err? ==> r.error == ViewRemoved
  {
    if aid !in animes then Err(ViewRemoved)
    else if vid !in animes[aid].views then Err(ViewRemoved)
    else Ok(animes[aid].views[vid])
  }

  /** Review `_checking_existence`: anime, view, review, in that order; any broken link is ReviewRemoved. */
  function ResolveReview(animes: map<nat, AnimeRec>, aid: nat, vid: nat, rid: nat): (r: Result<ReviewRec>)
    ensures r.Ok? <==> aid in animes && vid in animes[aid].views && rid in animes[aid].views[vid].reviews
    ensures r.Ok? ==> r.value == animes[aid].views[vid].reviews[rid]
    ensures r.Err? ==> r.error == ReviewRemoved
  {
    if aid !in animes then Err(ReviewRemoved)
    else if vid !in animes[aid].views then Err(ReviewRemoved)
    else if rid !in animes[aid].views[vid].reviews then Err(ReviewRemoved)
    else Ok(animes[aid].views[vid].reviews[rid])
  }

  /** Destroying an anime leaves every handle below it stale: no descendant is reachable. */
  lemma RemovedAnimeOrphansDescendants(animes: map<nat, AnimeRec>, aid: nat, vid: nat, rid: nat)
    ensures ResolveAnime(animes - {aid}, aid) == Err(AnimeRemoved)
    ensures ResolveView(animes - {aid}, aid, vid) == Err(ViewRemoved)
    ensures ResolveReview(animes - {aid}, aid, vid, rid) == Err(ReviewRemoved)
  {
  }

  // ---------------------------------------------------------------- writing back

  /** The anime map with view `vid` of anime `aid` replaced by `v`. */
  function WithView(animes: map<nat, AnimeRec>, aid: nat, vid: nat, v: ViewRec): (r: map<nat, AnimeRec>)
    requires aid in animes
    ensures r.Keys == animes.Keys
  {
    animes[aid := animes[aid].(views := animes[aid].views[vid := v])]
  }

  /** The anime map with review `rid` of view `vid` of anime `aid` replaced by `rv`. */
  function WithReview(animes: map<nat, AnimeRec>, aid: nat, vid: nat, rid: nat, rv: ReviewRec): (r: map<nat, AnimeRec>)
    requires aid in animes && vid in animes[aid].views
    ensures r.Keys == animes.Keys
  {
    var v := animes[aid].views[vid];
    WithView(animes, aid, vid, v.(reviews := v.reviews[rid := rv]))
  }

  /** The empty store is valid whatever its counter. */
  lemma EmptyStoreValid(last: nat)
    ensures StoreValid(map[], last, map[])
  {
    assert NameOwners(map[]) == map[];
  }

  /** A name absent from a valid catalog is carried by no live anime. */
  lemma UnlistedNameIsFree(animes: map<nat, AnimeRec>, last: nat, catalog: map<string, nat>, name: string)
    requires StoreValid(animes, last, catalog) && name !in catalog
    ensures forall id :: id in animes ==> name !in Names(animes[id])
  {
    forall id | id in animes ensures name !in Names(animes[id]) {
      assert NameOwners(animes)[id] == Names(animes[id]);
    }
  }

  /** Storing a valid record under the next id, with its names registered, keeps the store valid. */
  lemma StoreValidInsertAnime(animes: map<nat, AnimeRec>, last: nat, catalog: map<string, nat>, rec: AnimeRec, catalog': map<string, nat>)
    requires StoreValid(animes, last, catalog) && AnimeValid(rec)
    requires forall n :: n in Names(rec) ==> n !in catalog
    requires forall n :: n in catalog' <==> n in catalog || n in Names(rec)
    requires forall n :: n in catalog' ==> catalog'[n] == if n in Names(rec) then last + 1 else catalog[n]
    ensures StoreValid(animes[last + 1 := rec], last + 1, catalog')
  {
    IndexInsert(NameOwners(animes), catalog, last + 1, Names(rec), catalog');
    assert NameOwners(animes[last + 1 := rec]) == NameOwners(animes)[last + 1 := Names(rec)];
  }

  /** Every name of a live anime is listed in a valid catalog under that anime's id. */
  lemma OwnNamesListed(animes: map<nat, AnimeRec>, last: nat, catalog: map<string, nat>, id: nat)
    requires StoreValid(animes, last, catalog) && id in animes
    ensures forall n :: n in Names(animes[id]) ==> n in catalog && catalog[n] == id
  {
    assert NameOwners(animes)[id] == Names(animes[id]);
  }

  /** Giving a live anime a new set of names that are free or already its own, with the
      catalog re-pointed accordingly, keeps the store valid. */
  lemma StoreValidReplaceNames(animes: map<nat, AnimeRec>, last: nat, catalog: map<string, nat>, id: nat, rec: AnimeRec, catalog': map<string, nat>)
    requires StoreValid(animes, last, catalog) && id in animes && AnimeValid(rec)
    requires forall n :: n in Names(rec) && n in catalog ==> catalog[n] == id
    requires forall n :: n in catalog' <==> n in Names(rec) || (n in catalog && n !in Names(animes[id]))
    requires forall n :: n in catalog' ==> catalog'[n] == if n in Names(rec) then id else catalog[n]
    ensures StoreValid(animes[id := rec], last, catalog')
  {
    assert NameOwners(animes)[id] == Names(animes[id]);
    IndexReplace(NameOwners(animes), catalog, id, Names(rec), catalog');
    assert NameOwners(animes[id := rec]) == NameOwners(animes)[id := Names(rec)];
  }

  /** Removing a live anime and all of its names keeps the store valid. */
  lemma StoreValidRemoveAnime(animes: map<nat, AnimeRec>, last: nat, catalog: map<string, nat>, id: nat)
    requires StoreValid(animes, last, catalog) && id in animes
    ensures StoreValid(animes - {id}, last, catalog - Names(animes[id]))
  {
    assert NameOwners(animes)[id] == Names(animes[id]);
    IndexRemove(NameOwners(animes), catalog, id, catalog - Names(animes[id]));
    assert NameOwners(animes - {id}) == NameOwners(animes) - {id};
  }

  lemma StoreValidReplaceAnime(animes: map<nat, AnimeRec>, last: nat, catalog: map<string, nat>, id: nat, rec: AnimeRec)
    requires StoreValid(animes, last, catalog) && id in animes
    requires Names(rec) == Names(animes[id]) && AnimeValid(rec)
    ensures StoreValid(animes[id := rec], last, catalog)
  {
    assert NameOwners(animes[id := rec]) == NameOwners(animes);
  }

  lemma AnimeValidReplaceView(a: AnimeRec, vid: nat, v: ViewRec)
    requires AnimeValid(a) && vid in a.views
    requires v.title == a.views[vid].title && ViewValid(v)
    ensures AnimeValid(a.(views := a.views[vid := v]))
  {
    assert ViewTitles(a.views[vid := v]) == ViewTitles(a.views);
  }

  lemma ViewValidReplaceReview(v: ViewRec, rid: nat, r: ReviewRec)
    requires ViewValid(v) && rid in v.reviews
    requires r.title == v.reviews[rid].title && ReviewValid(r)
    ensures ViewValid(v.(reviews := v.reviews[rid := r]))
  {
    assert ReviewTitles(v.reviews[rid := r]) == ReviewTitles(v.reviews);
  }

  /** Writing back a valid view under its old title keeps the store valid. */
  lemma WithViewValid(animes: map<nat, AnimeRec>, last: nat, catalog: map<string, nat>, aid: nat, vid: nat, v: ViewRec)
    requires StoreValid(animes, last, catalog) && aid in animes && vid in animes[aid].views
    requires v.title == animes[aid].views[vid].title && ViewValid(v)
    ensures StoreValid(WithView(animes, aid, vid, v), last, catalog)
  {
    AnimeValidReplaceView(animes[aid], vid, v);
    StoreValidReplaceAnime(animes, last, catalog, aid, animes[aid].(views := animes[aid].views[vid := v]));
  }

  /** Writing back a valid review under its old title keeps the store valid. */
  lemma WithReviewValid(animes: map<nat, AnimeRec>, last: nat, catalog: map<string, nat>, aid: nat, vid: nat, rid: nat, rv: ReviewRec)
    requires StoreValid(animes, last, catalog) && aid in animes && vid in animes[aid].views
    requires rid in animes[aid].views[vid].reviews
    requires rv.title == animes[aid].views[vid].reviews[rid].title && ReviewValid(rv)
    ensures StoreValid(WithReview(animes, aid, vid, rid, rv), last, catalog)
  {
    var v := animes[aid].views[vid];
    ViewValidReplaceReview(v, rid, rv);
    WithViewValid(animes, last, catalog, aid, vid, v.(reviews := v.reviews[rid := rv]));
  }

  // ---------------------------------------------------------------- titled children

  /** Renaming the owner of a single title to a free title. */
  lemma IndexRenameSingle(owners: map<nat, set<string>>, catalog: map<string, nat>, id: nat, was: string, t: string)
    requires Indexes(owners, catalog) && id in owners && owners[id] == {was} && t !in catalog
    ensures Indexes(owners[id := {t}], (catalog - {was})[t := id])
  {
    IndexReplace(owners, catalog, id, {t}, (catalog - {was})[t := id]);
  }

  /** Renaming one review of a view to a title no other review has keeps the view valid. */
  lemma ViewValidRenameReview(v: ViewRec, rid: nat, t: string)
    requires ViewValid(v) && rid in v.reviews && t !in v.reviewCatalog
    ensures ViewValid(v.(reviews := v.reviews[rid := v.reviews[rid].(title := t)],
                         reviewCatalog := (v.reviewCatalog - {v.reviews[rid].title})[t := rid]))
  {
    var o := ReviewTitles(v.reviews);
    IndexRenameSingle(o, v.reviewCatalog, rid, v.reviews[rid].title, t);
    assert ReviewTitles(v.reviews[rid := v.reviews[rid].(title := t)]) == o[rid := {t}];
  }

  /** Storing a valid review with a free title under the view's next id keeps the view valid. */
  lemma ViewValidInsertReview(v: ViewRec, rv: ReviewRec)
    requires ViewValid(v) && ReviewValid(rv) && rv.title !in v.reviewCatalog
    ensures ViewValid(v.(reviews := v.reviews[v.lastReviewId + 1 := rv],
                         reviewCatalog := v.reviewCatalog[rv.title := v.lastReviewId + 1],
                         lastReviewId := v.lastReviewId + 1))
  {
    var id := v.lastReviewId + 1;
    IndexInsert(ReviewTitles(v.reviews), v.reviewCatalog, id, {rv.title}, v.reviewCatalog[rv.title := id]);
    assert ReviewTitles(v.reviews[id := rv]) == ReviewTitles(v.reviews)[id := {rv.title}];
  }

  /** Dropping a review together with its title keeps the view valid. */
  lemma ViewValidRemoveReview(v: ViewRec, rid: nat)
    requires ViewValid(v) && rid in v.reviews
    ensures ViewValid(v.(reviews := v.reviews - {rid}, reviewCatalog := v.reviewCatalog - {v.reviews[rid].title}))
  {
    IndexRemove(ReviewTitles(v.reviews), v.reviewCatalog, rid, v.reviewCatalog - {v.reviews[rid].title});
    assert ReviewTitles(v.reviews - {rid}) == ReviewTitles(v.reviews) - {rid};
  }

  /** Renaming one view of an anime to a title no other view has keeps the anime valid. */
  lemma AnimeValidRenameView(a: AnimeRec, vid: nat, t: string)
    requires AnimeValid(a) && vid in a.views && t !in a.viewCatalog
    ensures AnimeValid(a.(views := a.views[vid := a.views[vid].(title := t)],
                          viewCatalog := (a.viewCatalog - {a.views[vid].title})[t := vid]))
  {
    var o := ViewTitles(a.views);
    IndexRenameSingle(o, a.viewCatalog, vid, a.views[vid].title, t);
    assert ViewTitles(a.views[vid := a.views[vid].(title := t)]) == o[vid := {t}];
  }

  /** Dropping a view together with its title keeps the anime valid. */
  lemma AnimeValidRemoveView(a: AnimeRec, vid: nat)
    requires AnimeValid(a) && vid in a.views
    ensures AnimeValid(a.(views := a.views - {vid}, viewCatalog := a.viewCatalog - {a.views[vid].title}))
  {
    IndexRemove(ViewTitles(a.views), a.viewCatalog, vid, a.viewCatalog - {a.views[vid].title});
    assert ViewTitles(a.views - {vid}) == ViewTitles(a.views) - {vid};
  }
}
