/** Operations of a review handle (AnDson_personal_api/review.py). A handle is a ReviewRef: the
    database and the id chain anime, view, review. Every operation except the episode-range
    setter first resolves the chain and raises ReviewRemoved when any link is gone. */
module Reviews {
  import opened Formats
  import opened Records
  import opened Store

  /** A handle on a review: the database and the ids of its anime, its view and itself. */
  datatype ReviewRef = ReviewRef(db: Database, animeId: nat, viewId: nat, reviewId: nat)

  /** `Review.__eq__`: same database object and the same three ids. */
  function SameReview(a: ReviewRef, b: ReviewRef): (r: bool)
    ensures r <==> a == b
  {
    a.db == b.db && a.animeId == b.animeId && a.viewId == b.viewId && a.reviewId == b.reviewId
  }

  /** `Review._checking_existence` succeeds. */
  predicate Live(r: ReviewRef)
    reads r.db
  {
    ResolveReview(r.db.animes, r.animeId, r.viewId, r.reviewId).Ok?
  }

  /** The view the review belongs to. */
  function ParentOf(r: ReviewRef): ViewRec
    reads r.db
    requires Live(r)
  {
    r.db.animes[r.animeId].views[r.viewId]
  }

  /** The stored record of a live review. */
  function ReviewOf(r: ReviewRef): ReviewRec
    reads r.db
    requires Live(r)
  {
    ParentOf(r).reviews[r.reviewId]
  }

  /** The `title` getter: the title under which the view's review catalog lists this review. */
  function GetTitle(r: ReviewRef): (res: Result<string>)
    reads r.db
    requires r.db.Valid()
    ensures res.Err? <==> !Live(r)
    ensures res.Err? ==> res.error == ReviewRemoved
    ensures res.Ok? ==> res.value in ParentOf(r).reviewCatalog && ParentOf(r).reviewCatalog[res.value] == r.reviewId
  {
    var found := ResolveReview(r.db.animes, r.animeId, r.viewId, r.reviewId);
    if found.Err? then Err(found.error)
    else
      assert ViewValid(ParentOf(r));
      assert ReviewTitles(ParentOf(r).reviews)[r.reviewId] == {found.value.title};
      Ok(found.value.title)
  }

  /** The `item` getter. */
  function GetItem(r: ReviewRef): (res: Result<Option<string>>)
    reads r.db
    ensures res.Err? <==> !Live(r)
    ensures res.Err? ==> res.error == ReviewRemoved
    ensures res.Ok? ==> res.value == ReviewOf(r).item
  {
    var found := ResolveReview(r.db.animes, r.animeId, r.viewId, r.reviewId);
    if found.Err? then Err(found.error) else Ok(found.value.item)
  }

  /** The `episode_range` getter: `tuple(None)` raises TypeError when no range is stored. */
  function GetEpisodeRange(r: ReviewRef): (res: Result<seq<string>>)
    reads r.db
    ensures res.Err? <==> !Live(r) || ReviewOf(r).episodeRange.None?
    ensures res.Err? ==> res.error == if Live(r) then TypeError else ReviewRemoved
    ensures res.Ok? ==> Some(res.value) == ReviewOf(r).episodeRange
  {
    var found := ResolveReview(r.db.animes, r.animeId, r.viewId, r.reviewId);
    if found.Err? then Err(found.error)
    else if found.value.episodeRange.None? then Err(TypeError)
    else Ok(found.value.episodeRange.value)
  }

  /** The `ranking` getter: a stored ranking is always in 0..10. */
  function GetRanking(r: ReviewRef): (res: Result<Option<int>>)
    reads r.db
    requires r.db.Valid()
    ensures res.Err? <==> !Live(r)
    ensures res.Err? ==> res.error == ReviewRemoved
    ensures res.Ok? ==> res.value == ReviewOf(r).ranking
    ensures res.Ok? && res.value.Some? ==> 0 <= res.value.value <= 10
  {
    var found := ResolveReview(r.db.animes, r.animeId, r.viewId, r.reviewId);
    if found.Err? then Err(found.error)
    else
      assert ViewValid(ParentOf(r));
      Ok(found.value.ranking)
  }

  /** The `comment` getter. */
  function GetComment(r: ReviewRef): (res: Result<Option<string>>)
    reads r.db
    ensures res.Err? <==> !Live(r)
    ensures res.Err? ==> res.error == ReviewRemoved
    ensures res.Ok? ==> res.value == ReviewOf(r).comment
  {
    var found := ResolveReview(r.db.animes, r.animeId, r.viewId, r.reviewId);
    if found.Err? then Err(found.error) else Ok(found.value.comment)
  }

  /** The `title` setter: the same title is a no-op; a title another review of the view holds
      raises RepeatedReviewTitle; otherwise the old title key is dropped and the new one maps
      to this review. */
  method SetTitle(r: ReviewRef, t: string) returns (res: Outcome)
    requires r.db.Valid()
    modifies r.db
    ensures r.db.Valid()
    ensures r.db.catalog == old(r.db.catalog) && r.db.lastAnimeId == old(r.db.lastAnimeId)
    ensures !old(Live(r)) ==> res == Failed(ReviewRemoved) && unchanged(r.db)
    ensures old(Live(r)) ==>
      var v := old(ParentOf(r));
      var rv := v.reviews[r.reviewId];
      if t == rv.title then res == Done && unchanged(r.db)
      else if t in v.reviewCatalog then res == Failed(RepeatedReviewTitle) && unchanged(r.db)
      else
        && res == Done
        && r.db.animes == WithView(old(r.db.animes), r.animeId, r.viewId,
             v.(reviews := v.reviews[r.reviewId := rv.(title := t)],
                reviewCatalog := (v.reviewCatalog - {rv.title})[t := r.reviewId]))
        && GetTitle(r) == Ok(t)
  {
    var db := r.db;
    var found := ResolveReview(db.animes, r.animeId, r.viewId, r.reviewId);
    if found.Err? {
      return Failed(found.error);
    }
    var rv := found.value;
    if rv.title == t {
      return Done;
    }
    var v := db.animes[r.animeId].views[r.viewId];
    if t in v.reviewCatalog {
      return Failed(RepeatedReviewTitle);
    }
    var v' := v.(reviews := v.reviews[r.reviewId := rv.(title := t)],
                 reviewCatalog := (v.reviewCatalog - {rv.title})[t := r.reviewId]);
    ViewValidRenameReview(v, r.reviewId, t);
    WithViewValid(db.animes, db.lastAnimeId, db.catalog, r.animeId, r.viewId, v');
    db.animes := WithView(db.animes, r.animeId, r.viewId, v');
    res := Done;
  }

  /** The `item` setter: any string or None is stored. */
  method SetItem(r: ReviewRef, item: Option<string>) returns (res: Outcome)
    requires r.db.Valid()
    modifies r.db
    ensures r.db.Valid()
    ensures r.db.catalog == old(r.db.catalog) && r.db.lastAnimeId == old(r.db.lastAnimeId)
    ensures !old(Live(r)) ==> res == Failed(ReviewRemoved) && unchanged(r.db)
    ensures old(Live(r)) ==>
      && res == Done
      && r.db.animes == WithReview(old(r.db.animes), r.animeId, r.viewId, r.reviewId, old(ReviewOf(r)).(item := item))
      && GetItem(r) == Ok(item)
  {
    var db := r.db;
    var found := ResolveReview(db.animes, r.animeId, r.viewId, r.reviewId);
    if found.Err? {
      return Failed(found.error);
    }
    var rv := found.value.(item := item);
    WithReviewValid(db.animes, db.lastAnimeId, db.catalog, r.animeId, r.viewId, r.reviewId, rv);
    db.animes := WithReview(db.animes, r.animeId, r.viewId, r.reviewId, rv);
    res := Done;
  }

  /** The `episode_range` setter. It never calls the existence check (the call lacks its
      parentheses), so on a removed review it writes into a detached record: no error, and
      the store is unchanged. */
  method SetEpisodeRange(r: ReviewRef, range: seq<string>) returns (res: Outcome)
    requires r.db.Valid()
    modifies r.db
    ensures r.db.Valid() && res == Done
    ensures r.db.catalog == old(r.db.catalog) && r.db.lastAnimeId == old(r.db.lastAnimeId)
    ensures !old(Live(r)) ==> unchanged(r.db)
    ensures old(Live(r)) ==>
      && r.db.animes == WithReview(old(r.db.animes), r.animeId, r.viewId, r.reviewId, old(ReviewOf(r)).(episodeRange := Some(range)))
      && GetEpisodeRange(r) == Ok(range)
  {
    var db := r.db;
    res := Done;
    var found := ResolveReview(db.animes, r.animeId, r.viewId, r.reviewId);
    if found.Ok? {
      var rv := found.value.(episodeRange := Some(range));
      WithReviewValid(db.animes, db.lastAnimeId, db.catalog, r.animeId, r.viewId, r.reviewId, rv);
      db.animes := WithReview(db.animes, r.animeId, r.viewId, r.reviewId, rv);
    }
  }

  /** `episode_range_add`: an episode already listed is a no-op, a new one is appended; with no
      range stored, `x in None` raises TypeError. */
  method EpisodeRangeAdd(r: ReviewRef, episode: string) returns (res: Outcome)
    requires r.db.Valid()
    modifies r.db
    ensures r.db.Valid()
    ensures r.db.catalog == old(r.db.catalog) && r.db.lastAnimeId == old(r.db.lastAnimeId)
    ensures !old(Live(r)) ==> res == Failed(ReviewRemoved) && unchanged(r.db)
    ensures old(Live(r)) ==>
      var rv := old(ReviewOf(r));
      var added := AddOnce(rv.episodeRange, episode);
      if added.Err? then res == Failed(added.error) && unchanged(r.db)
      else
        && res == Done
        && r.db.animes == WithReview(old(r.db.animes), r.animeId, r.viewId, r.reviewId, rv.(episodeRange := Some(added.value)))
  {
    var db := r.db;
    var found := ResolveReview(db.animes, r.animeId, r.viewId, r.reviewId);
    if found.Err? {
      return Failed(found.error);
    }
    var added := AddOnce(found.value.episodeRange, episode);
    if added.Err? {
      return Failed(added.error);
    }
    var rv := found.value.(episodeRange := Some(added.value));
    WithReviewValid(db.animes, db.lastAnimeId, db.catalog, r.animeId, r.viewId, r.reviewId, rv);
    db.animes := WithReview(db.animes, r.animeId, r.viewId, r.reviewId, rv);
    res := Done;
  }

  /** `episode_range_remove`: `list.remove` on the stored range; None raises AttributeError and
      an episode that is not listed raises ValueError. */
  method EpisodeRangeRemove(r: ReviewRef, episode: string) returns (res: Outcome)
    requires r.db.Valid()
    modifies r.db
    ensures r.db.Valid()
    ensures r.db.catalog == old(r.db.catalog) && r.db.lastAnimeId == old(r.db.lastAnimeId)
    ensures !old(Live(r)) ==> res == Failed(ReviewRemoved) && unchanged(r.db)
    ensures old(Live(r)) ==>
      var rv := old(ReviewOf(r));
      var removed := RemoveOnce(rv.episodeRange, episode);
      if removed.Err? then res == Failed(removed.error) && unchanged(r.db)
      else
        && res == Done
        && r.db.animes == WithReview(old(r.db.animes), r.animeId, r.viewId, r.reviewId, rv.(episodeRange := Some(removed.value)))
  {
    var db := r.db;
    var found := ResolveReview(db.animes, r.animeId, r.viewId, r.reviewId);
    if found.Err? {
      return Failed(found.error);
    }
    var removed := RemoveOnce(found.value.episodeRange, episode);
    if removed.Err? {
      return Failed(removed.error);
    }
    var rv := found.value.(episodeRange := Some(removed.value));
    WithReviewValid(db.animes, db.lastAnimeId, db.catalog, r.animeId, r.viewId, r.reviewId, rv);
    db.animes := WithReview(db.animes, r.animeId, r.viewId, r.reviewId, rv);
    res := Done;
  }

  /** The `ranking` setter: None, or an integer in 0..10; anything else raises
      NotAvailableRanking and changes nothing. */
  method SetRanking(r: ReviewRef, ranking: Option<int>) returns (res: Outcome)
    requires r.db.Valid()
    modifies r.db
    ensures r.db.Valid()
    ensures r.db.catalog == old(r.db.catalog) && r.db.lastAnimeId == old(r.db.lastAnimeId)
    ensures !old(Live(r)) ==> res == Failed(ReviewRemoved) && unchanged(r.db)
    ensures old(Live(r)) ==>
      if ranking.Some? && !(0 <= ranking.value <= 10) then res == Failed(NotAvailableRanking) && unchanged(r.db)
      else
        && res == Done
        && r.db.animes == WithReview(old(r.db.animes), r.animeId, r.viewId, r.reviewId, old(ReviewOf(r)).(ranking := ranking))
        && GetRanking(r) == Ok(ranking)
  {
    var db := r.db;
    var found := ResolveReview(db.animes, r.animeId, r.viewId, r.reviewId);
    if found.Err? {
      return Failed(found.error);
    }
    if ranking.Some? && !IsAvailableRanking(ranking.value) {
      return Failed(NotAvailableRanking);
    }
    var rv := found.value.(ranking := ranking);
    WithReviewValid(db.animes, db.lastAnimeId, db.catalog, r.animeId, r.viewId, r.reviewId, rv);
    db.animes := WithReview(db.animes, r.animeId, r.viewId, r.reviewId, rv);
    res := Done;
  }

  /** The `comment` setter: any string or None is stored. */
  method SetComment(r: ReviewRef, comment: Option<string>) returns (res: Outcome)
    requires r.db.Valid()
    modifies r.db
    ensures r.db.Valid()
    ensures r.db.catalog == old(r.db.catalog) && r.db.lastAnimeId == old(r.db.lastAnimeId)
    ensures !old(Live(r)) ==> res == Failed(ReviewRemoved) && unchanged(r.db)
    ensures old(Live(r)) ==>
      && res == Done
      && r.db.animes == WithReview(old(r.db.animes), r.animeId, r.viewId, r.reviewId, old(ReviewOf(r)).(comment := comment))
      && GetComment(r) == Ok(comment)
  {
    var db := r.db;
    var found := ResolveReview(db.animes, r.animeId, r.viewId, r.reviewId);
    if found.Err? {
      return Failed(found.error);
    }
    var rv := found.value.(comment := comment);
    WithReviewValid(db.animes, db.lastAnimeId, db.catalog, r.animeId, r.viewId, r.reviewId, rv);
    db.animes := WithReview(db.animes, r.animeId, r.viewId, r.reviewId, rv);
    res := Done;
  }

  /** `destroy` as intended: the title leaves the view's review catalog and the review leaves
      the view's review map; the handle is stale afterwards. */
  method Destroy(r: ReviewRef) returns (res: Outcome)
    requires r.db.Valid()
    modifies r.db
    ensures r.db.Valid()
    ensures r.db.catalog == old(r.db.catalog) && r.db.lastAnimeId == old(r.db.lastAnimeId)
    ensures !old(Live(r)) ==> res == Failed(ReviewRemoved) && unchanged(r.db)
    ensures old(Live(r)) ==>
      var v := old(ParentOf(r));
      && res == Done
      && r.db.animes == WithView(old(r.db.animes), r.animeId, r.viewId,
           v.(reviews := v.reviews - {r.reviewId}, reviewCatalog := v.reviewCatalog - {v.reviews[r.reviewId].title}))
      && !Live(r)
  {
    var db := r.db;
    var found := ResolveReview(db.animes, r.animeId, r.viewId, r.reviewId);
    if found.Err? {
      return Failed(found.error);
    }
    var v := db.animes[r.animeId].views[r.viewId];
    var v' := v.(reviews := v.reviews - {r.reviewId}, reviewCatalog := v.reviewCatalog - {found.value.title});
    ViewValidRemoveReview(v, r.reviewId);
    WithViewValid(db.animes, db.lastAnimeId, db.catalog, r.animeId, r.viewId, v');
    db.animes := WithView(db.animes, r.animeId, r.viewId, v');
    res := Done;
  }

  /** `destroy` as written: the title is popped from the view's review catalog, then
      `self._view["reviews"]` subscripts the View handle itself, which raises TypeError. The
      review stays in the map, now without a catalog entry. */
  method DestroyAsWritten(r: ReviewRef) returns (res: Outcome)
    requires r.db.Valid()
    modifies r.db
    ensures r.db.catalog == old(r.db.catalog) && r.db.lastAnimeId == old(r.db.lastAnimeId)
    ensures !old(Live(r)) ==> res == Failed(ReviewRemoved) && unchanged(r.db)
    ensures old(Live(r)) ==>
      var v := old(ParentOf(r));
      && res == Failed(TypeError)
      && r.db.animes == WithView(old(r.db.animes), r.animeId, r.viewId,
           v.(reviewCatalog := v.reviewCatalog - {v.reviews[r.reviewId].title}))
  {
    var db := r.db;
    var found := ResolveReview(db.animes, r.animeId, r.viewId, r.reviewId);
    if found.Err? {
      return Failed(found.error);
    }
    var v := db.animes[r.animeId].views[r.viewId];
    db.animes := WithView(db.animes, r.animeId, r.viewId, v.(reviewCatalog := v.reviewCatalog - {found.value.title}));
    res := Failed(TypeError);
  }

  /** What `destroy` as written leaves behind: the review is still stored, but its title is no
      longer in the catalog, so the view no longer satisfies its invariant. */
  lemma {:induction false} DestroyAsWrittenBreaksView(v: ViewRec, rid: nat)
    requires ViewValid(v) && rid in v.reviews
    ensures !ViewValid(v.(reviewCatalog := v.reviewCatalog - {v.reviews[rid].title}))
  {
    var t := v.reviews[rid].title;
    var v' := v.(reviewCatalog := v.reviewCatalog - {t});
    assert ReviewTitles(v'.reviews)[rid] == {t};
    assert t !in v'.reviewCatalog;
  }
}
