/** Operations of a view handle (AnDson_personal_api/view.py). A handle is a ViewRef: the
    database and the id chain anime, view. Every operation first resolves the chain and raises
    ViewRemoved when either link is gone. The view's review catalog is kept with the view's
    record, and the anime's view catalog with the anime's record. */
module Views {
  import opened Formats
  import opened Records
  import opened Store
  import Reviews

  /** A handle on a view: the database and the ids of its anime and itself. */
  datatype ViewRef = ViewRef(db: Database, animeId: nat, viewId: nat)

  /** `View.__eq__`: same database object, same anime id, same view id. */
  function SameView(a: ViewRef, b: ViewRef): (r: bool)
    ensures r <==> a == b
  {
    a.db == b.db && a.animeId == b.animeId && a.viewId == b.viewId
  }

  /** `View._checking_existence` succeeds. */
  predicate Live(v: ViewRef)
    reads v.db
  {
    ResolveView(v.db.animes, v.animeId, v.viewId).Ok?
  }

  /** The anime the view belongs to. */
  function ParentOf(v: ViewRef): AnimeRec
    reads v.db
    requires Live(v)
  {
    v.db.animes[v.animeId]
  }

  /** The stored record of a live view. */
  function ViewOf(v: ViewRef): ViewRec
    reads v.db
    requires Live(v)
  {
    ParentOf(v).views[v.viewId]
  }

  // ---------------------------------------------------------------- getters

  /** The `title` getter: the title under which the anime's view catalog lists this view. */
  function GetTitle(v: ViewRef): (r: Result<string>)
    reads v.db
    requires v.db.Valid()
    ensures r.Err? <==> !Live(v)
    ensures r.Err? ==> r.error == ViewRemoved
    ensures r.Ok? ==> r.value in ParentOf(v).viewCatalog && ParentOf(v).viewCatalog[r.value] == v.viewId
  {
    var found := ResolveView(v.db.animes, v.animeId, v.viewId);
    if found.Err? then Err(found.error)
    else
      assert AnimeValid(ParentOf(v));
      assert ViewTitles(ParentOf(v).views)[v.viewId] == {found.value.title};
      Ok(found.value.title)
  }

  /** The `is_new` getter. */
  function GetIsNew(v: ViewRef): (r: Result<Option<bool>>)
    reads v.db
    ensures r.Err? <==> !Live(v)
    ensures r.Err? ==> r.error == ViewRemoved
    ensures r.Ok? ==> r.value == ViewOf(v).isNew
  {
    var found := ResolveView(v.db.animes, v.animeId, v.viewId);
    if found.Err? then Err(found.error) else Ok(found.value.isNew)
  }

  /** The `times_view` getter. */
  function GetTimesView(v: ViewRef): (r: Result<Option<int>>)
    reads v.db
    ensures r.Err? <==> !Live(v)
    ensures r.Err? ==> r.error == ViewRemoved
    ensures r.Ok? ==> r.value == ViewOf(v).timesView
  {
    var found := ResolveView(v.db.animes, v.animeId, v.viewId);
    if found.Err? then Err(found.error) else Ok(found.value.timesView)
  }

  /** The `source` getter. */
  function GetSource(v: ViewRef): (r: Result<Option<string>>)
    reads v.db
    ensures r.Err? <==> !Live(v)
    ensures r.Err? ==> r.error == ViewRemoved
    ensures r.Ok? ==> r.value == ViewOf(v).source
  {
    var found := ResolveView(v.db.animes, v.animeId, v.viewId);
    if found.Err? then Err(found.error) else Ok(found.value.source)
  }

  /** The `episode_range` getter: `tuple(None)` raises TypeError when no range is stored. */
  function GetEpisodeRange(v: ViewRef): (r: Result<seq<string>>)
    reads v.db
    ensures r.Err? <==> !Live(v) || ViewOf(v).episodeRange.None?
    ensures r.Err? ==> r.error == if Live(v) then TypeError else ViewRemoved
    ensures r.Ok? ==> Some(r.value) == ViewOf(v).episodeRange
  {
    var found := ResolveView(v.db.animes, v.animeId, v.viewId);
    if found.Err? then Err(found.error)
    else if found.value.episodeRange.None? then Err(TypeError)
    else Ok(found.value.episodeRange.value)
  }

  /** The `duration` getter: `tuple(None)` raises TypeError when no duration is stored; a
      stored duration holds month strings only. */
  function GetDuration(v: ViewRef): (r: Result<seq<string>>)
    reads v.db
    requires v.db.Valid()
    ensures r.Err? <==> !Live(v) || ViewOf(v).duration.None?
    ensures r.Err? ==> r.error == if Live(v) then TypeError else ViewRemoved
    ensures r.Ok? ==> Some(r.value) == ViewOf(v).duration
    ensures r.Ok? ==> forall i :: 0 <= i < |r.value| ==> IsMonthString(r.value[i])
  {
    var found := ResolveView(v.db.animes, v.animeId, v.viewId);
    if found.Err? then Err(found.error)
    else if found.value.duration.None? then Err(TypeError)
    else
      assert AnimeValid(ParentOf(v));
      Ok(found.value.duration.value)
  }

  /** The `last_episode_date` getter: a stored date is always a date string. */
  function GetLastEpisodeDate(v: ViewRef): (r: Result<Option<string>>)
    reads v.db
    requires v.db.Valid()
    ensures r.Err? <==> !Live(v)
    ensures r.Err? ==> r.error == ViewRemoved
    ensures r.Ok? ==> r.value == ViewOf(v).lastEpisodeDate
    ensures r.Ok? && r.value.Some? ==> IsDateString(r.value.value)
  {
    var found := ResolveView(v.db.animes, v.animeId, v.viewId);
    if found.Err? then Err(found.error)
    else
      assert AnimeValid(ParentOf(v));
      Ok(found.value.lastEpisodeDate)
  }

  // ---------------------------------------------------------------- setters

  /** The `title` setter: the same title is a no-op; a title another view of the anime holds
      raises RepeatedViewTitle; otherwise the old title key is dropped from the anime's view
      catalog and the new one maps to this view. */
  method SetTitle(v: ViewRef, t: string) returns (r: Outcome)
    requires v.db.Valid()
    modifies v.db
    ensures v.db.Valid()
    ensures v.db.catalog == old(v.db.catalog) && v.db.lastAnimeId == old(v.db.lastAnimeId)
    ensures !old(Live(v)) ==> r == Failed(ViewRemoved) && unchanged(v.db)
    ensures old(Live(v)) ==>
      var a := old(ParentOf(v));
      var w := a.views[v.viewId];
      if t == w.title then r == Done && unchanged(v.db)
      else if t in a.viewCatalog then r == Failed(RepeatedViewTitle) && unchanged(v.db)
      else
        && r == Done
        && v.db.animes == old(v.db.animes)[v.animeId :=
             a.(views := a.views[v.viewId := w.(title := t)],
                viewCatalog := (a.viewCatalog - {w.title})[t := v.viewId])]
        && GetTitle(v) == Ok(t)
  {
    var db := v.db;
    var found := ResolveView(db.animes, v.animeId, v.viewId);
    if found.Err? {
      return Failed(found.error);
    }
    var w := found.value;
    if w.title == t {
      return Done;
    }
    var a := db.animes[v.animeId];
    if t in a.viewCatalog {
      return Failed(RepeatedViewTitle);
    }
    var a' := a.(views := a.views[v.viewId := w.(title := t)],
                 viewCatalog := (a.viewCatalog - {w.title})[t := v.viewId]);
    AnimeValidRenameView(a, v.viewId, t);
    StoreValidReplaceAnime(db.animes, db.lastAnimeId, db.catalog, v.animeId, a');
    db.animes := db.animes[v.animeId := a'];
    r := Done;
  }

  /** Writes back a view record whose title and reviews are those of the live view. */
  method WriteBack(v: ViewRef, w: ViewRec)
    requires v.db.Valid() && Live(v) && ViewValid(w) && w.title == ViewOf(v).title
    modifies v.db
    ensures v.db.Valid()
    ensures v.db.catalog == old(v.db.catalog) && v.db.lastAnimeId == old(v.db.lastAnimeId)
    ensures v.db.animes == WithView(old(v.db.animes), v.animeId, v.viewId, w)
    ensures Live(v) && ViewOf(v) == w
  {
    var db := v.db;
    WithViewValid(db.animes, db.lastAnimeId, db.catalog, v.animeId, v.viewId, w);
    db.animes := WithView(db.animes, v.animeId, v.viewId, w);
  }

  /** The `is_new` setter: True, False or None is stored. */
  method SetIsNew(v: ViewRef, value: Option<bool>) returns (r: Outcome)
    requires v.db.Valid()
    modifies v.db
    ensures v.db.Valid()
    ensures v.db.catalog == old(v.db.catalog) && v.db.lastAnimeId == old(v.db.lastAnimeId)
    ensures !old(Live(v)) ==> r == Failed(ViewRemoved) && unchanged(v.db)
    ensures old(Live(v)) ==>
      && r == Done
      && v.db.animes == WithView(old(v.db.animes), v.animeId, v.viewId, old(ViewOf(v)).(isNew := value))
      && GetIsNew(v) == Ok(value)
  {
    var found := ResolveView(v.db.animes, v.animeId, v.viewId);
    if found.Err? {
      return Failed(found.error);
    }
    WriteBack(v, found.value.(isNew := value));
    r := Done;
  }

  /** The `times_view` setter: an integer or None is stored. */
  method SetTimesView(v: ViewRef, value: Option<int>) returns (r: Outcome)
    requires v.db.Valid()
    modifies v.db
    ensures v.db.Valid()
    ensures v.db.catalog == old(v.db.catalog) && v.db.lastAnimeId == old(v.db.lastAnimeId)
    ensures !old(Live(v)) ==> r == Failed(ViewRemoved) && unchanged(v.db)
    ensures old(Live(v)) ==>
      && r == Done
      && v.db.animes == WithView(old(v.db.animes), v.animeId, v.viewId, old(ViewOf(v)).(timesView := value))
      && GetTimesView(v) == Ok(value)
  {
    var found := ResolveView(v.db.animes, v.animeId, v.viewId);
    if found.Err? {
      return Failed(found.error);
    }
    WriteBack(v, found.value.(timesView := value));
    r := Done;
  }

  /** The `source` setter: a string or None is stored. */
  method SetSource(v: ViewRef, value: Option<string>) returns (r: Outcome)
    requires v.db.Valid()
    modifies v.db
    ensures v.db.Valid()
    ensures v.db.catalog == old(v.db.catalog) && v.db.lastAnimeId == old(v.db.lastAnimeId)
    ensures !old(Live(v)) ==> r == Failed(ViewRemoved) && unchanged(v.db)
    ensures old(Live(v)) ==>
      && r == Done
      && v.db.animes == WithView(old(v.db.animes), v.animeId, v.viewId, old(ViewOf(v)).(source := value))
      && GetSource(v) == Ok(value)
  {
    var found := ResolveView(v.db.animes, v.animeId, v.viewId);
    if found.Err? {
      return Failed(found.error);
    }
    WriteBack(v, found.value.(source := value));
    r := Done;
  }

  /** The `episode_range` setter: a list of episodes or None is stored. */
  method SetEpisodeRange(v: ViewRef, value: Option<seq<string>>) returns (r: Outcome)
    requires v.db.Valid()
    modifies v.db
    ensures v.db.Valid()
    ensures v.db.catalog == old(v.db.catalog) && v.db.lastAnimeId == old(v.db.lastAnimeId)
    ensures !old(Live(v)) ==> r == Failed(ViewRemoved) && unchanged(v.db)
    ensures old(Live(v)) ==>
      && r == Done
      && v.db.animes == WithView(old(v.db.animes), v.animeId, v.viewId, old(ViewOf(v)).(episodeRange := value))
      && (value.Some? ==> GetEpisodeRange(v) == Ok(value.value))
  {
    var found := ResolveView(v.db.animes, v.animeId, v.viewId);
    if found.Err? {
      return Failed(found.error);
    }
    WriteBack(v, found.value.(episodeRange := value));
    r := Done;
  }

  /** `episode_range_add`: an episode already listed is a no-op, a new one is appended; with no
      range stored, `x in None` raises TypeError. */
  method EpisodeRangeAdd(v: ViewRef, episode: string) returns (r: Outcome)
    requires v.db.Valid()
    modifies v.db
    ensures v.db.Valid()
    ensures v.db.catalog == old(v.db.catalog) && v.db.lastAnimeId == old(v.db.lastAnimeId)
    ensures !old(Live(v)) ==> r == Failed(ViewRemoved) && unchanged(v.db)
    ensures old(Live(v)) ==>
      var w := old(ViewOf(v));
      var added := AddOnce(w.episodeRange, episode);
      if added.Err? then r == Failed(added.error) && unchanged(v.db)
      else r == Done && v.db.animes == WithView(old(v.db.animes), v.animeId, v.viewId, w.(episodeRange := Some(added.value)))
  {
    var found := ResolveView(v.db.animes, v.animeId, v.viewId);
    if found.Err? {
      return Failed(found.error);
    }
    var added := AddOnce(found.value.episodeRange, episode);
    if added.Err? {
      return Failed(added.error);
    }
    WriteBack(v, found.value.(episodeRange := Some(added.value)));
    r := Done;
  }

  /** `episode_range_remove`: `list.remove` on the stored range; None raises AttributeError and
      an episode that is not listed raises ValueError. */
  method EpisodeRangeRemove(v: ViewRef, episode: string) returns (r: Outcome)
    requires v.db.Valid()
    modifies v.db
    ensures v.db.Valid()
    ensures v.db.catalog == old(v.db.catalog) && v.db.lastAnimeId == old(v.db.lastAnimeId)
    ensures !old(Live(v)) ==> r == Failed(ViewRemoved) && unchanged(v.db)
    ensures old(Live(v)) ==>
      var w := old(ViewOf(v));
      var removed := RemoveOnce(w.episodeRange, episode);
      if removed.Err? then r == Failed(removed.error) && unchanged(v.db)
      else r == Done && v.db.animes == WithView(old(v.db.animes), v.animeId, v.viewId, w.(episodeRange := Some(removed.value)))
  {
    var found := ResolveView(v.db.animes, v.animeId, v.viewId);
    if found.Err? {
      return Failed(found.error);
    }
    var removed := RemoveOnce(found.value.episodeRange, episode);
    if removed.Err? {
      return Failed(removed.error);
    }
    WriteBack(v, found.value.(episodeRange := Some(removed.value)));
    r := Done;
  }

  /** The per-entry check of the `duration` setter: every entry must be a month string. */
  method CheckMonths(months: seq<string>) returns (ok: bool)
    ensures ok <==> AllMonths(months)
  {
    var i := 0;
    while i < |months|
      invariant 0 <= i <= |months|
      invariant forall k :: 0 <= k < i ==> IsMonthString(months[k])
    {
      if !IsMonthString(months[i]) {
        return false;
      }
      i := i + 1;
    }
    return true;
  }

  /** The `duration` setter: None is stored; a list is stored in order only when every entry
      is a month string, and otherwise TypeError is raised and nothing changes. */
  method SetDuration(v: ViewRef, value: Option<seq<string>>) returns (r: Outcome)
    requires v.db.Valid()
    modifies v.db
    ensures v.db.Valid()
    ensures v.db.catalog == old(v.db.catalog) && v.db.lastAnimeId == old(v.db.lastAnimeId)
    ensures !old(Live(v)) ==> r == Failed(ViewRemoved) && unchanged(v.db)
    ensures old(Live(v)) ==>
      if value.Some? && exists i :: 0 <= i < |value.value| && !IsMonthString(value.value[i]) then
        r == Failed(TypeError) && unchanged(v.db)
      else
        && r == Done
        && v.db.animes == WithView(old(v.db.animes), v.animeId, v.viewId, old(ViewOf(v)).(duration := value))
        && (value.Some? ==> GetDuration(v) == Ok(value.value))
  {
    var found := ResolveView(v.db.animes, v.animeId, v.viewId);
    if found.Err? {
      return Failed(found.error);
    }
    if value.Some? {
      var ok := CheckMonths(value.value);
      if !ok {
        return Failed(TypeError);
      }
    }
    WriteBack(v, found.value.(duration := value));
    r := Done;
  }

  /** `duration_add`: a non-month string raises StringFormat; then, with no duration stored,
      `x in None` raises TypeError; a month already listed is a no-op; otherwise it is
      appended. */
  method DurationAdd(v: ViewRef, month: string) returns (r: Outcome)
    requires v.db.Valid()
    modifies v.db
    ensures v.db.Valid()
    ensures v.db.catalog == old(v.db.catalog) && v.db.lastAnimeId == old(v.db.lastAnimeId)
    ensures !old(Live(v)) ==> r == Failed(ViewRemoved) && unchanged(v.db)
    ensures old(Live(v)) ==>
      var w := old(ViewOf(v));
      var added := AddOnce(w.duration, month);
      if !IsMonthString(month) then r == Failed(StringFormat) && unchanged(v.db)
      else if added.Err? then r == Failed(added.error) && unchanged(v.db)
      else r == Done && v.db.animes == WithView(old(v.db.animes), v.animeId, v.viewId, w.(duration := Some(added.value)))
  {
    var found := ResolveView(v.db.animes, v.animeId, v.viewId);
    if found.Err? {
      return Failed(found.error);
    }
    if !IsMonthString(month) {
      return Failed(StringFormat);
    }
    var added := AddOnce(found.value.duration, month);
    if added.Err? {
      return Failed(added.error);
    }
    assert AnimeValid(ParentOf(v));
    WriteBack(v, found.value.(duration := Some(added.value)));
    r := Done;
  }

  /** `duration_remove`: `list.remove` on the stored duration; None raises AttributeError and
      a month that is not listed raises ValueError. */
  method DurationRemove(v: ViewRef, month: string) returns (r: Outcome)
    requires v.db.Valid()
    modifies v.db
    ensures v.db.Valid()
    ensures v.db.catalog == old(v.db.catalog) && v.db.lastAnimeId == old(v.db.lastAnimeId)
    ensures !old(Live(v)) ==> r == Failed(ViewRemoved) && unchanged(v.db)
    ensures old(Live(v)) ==>
      var w := old(ViewOf(v));
      var removed := RemoveOnce(w.duration, month);
      if removed.Err? then r == Failed(removed.error) && unchanged(v.db)
      else r == Done && v.db.animes == WithView(old(v.db.animes), v.animeId, v.viewId, w.(duration := Some(removed.value)))
  {
    var found := ResolveView(v.db.animes, v.animeId, v.viewId);
    if found.Err? {
      return Failed(found.error);
    }
    var removed := RemoveOnce(found.value.duration, month);
    if removed.Err? {
      return Failed(removed.error);
    }
    assert AnimeValid(ParentOf(v));
    RemovePreservesMonths(found.value.duration.value, month);
    WriteBack(v, found.value.(duration := Some(removed.value)));
    r := Done;
  }

  /** Removing an entry from a list of month strings leaves a list of month strings. */
  lemma RemovePreservesMonths(months: seq<string>, month: string)
    requires AllMonths(months) && month in months
    ensures AllMonths(RemoveFirst(months, month))
  {
    var k := FirstIndex(months, month);
    assert RemoveFirst(months, month) == months[..k] + months[k + 1..];
  }

  /** The `last_episode_date` setter: None or a date string is stored; any other string raises
      StringFormat and changes nothing. */
  method SetLastEpisodeDate(v: ViewRef, value: Option<string>) returns (r: Outcome)
    requires v.db.Valid()
    modifies v.db
    ensures v.db.Valid()
    ensures v.db.catalog == old(v.db.catalog) && v.db.lastAnimeId == old(v.db.lastAnimeId)
    ensures !old(Live(v)) ==> r == Failed(ViewRemoved) && unchanged(v.db)
    ensures old(Live(v)) ==>
      if value.Some? && !IsDateString(value.value) then r == Failed(StringFormat) && unchanged(v.db)
      else
        && r == Done
        && v.db.animes == WithView(old(v.db.animes), v.animeId, v.viewId, old(ViewOf(v)).(lastEpisodeDate := value))
        && GetLastEpisodeDate(v) == Ok(value)
  {
    var found := ResolveView(v.db.animes, v.animeId, v.viewId);
    if found.Err? {
      return Failed(found.error);
    }
    if value.Some? && !IsDateString(value.value) {
      return Failed(StringFormat);
    }
    WriteBack(v, found.value.(lastEpisodeDate := value));
    r := Done;
  }

  // ---------------------------------------------------------------- reviews

  /** `add_review`: a ranking outside 0..10 raises NotAvailableRanking, then a title the view
      already has raises RepeatedReviewTitle; neither changes anything. Otherwise the review
      counter goes up by one, the new record is stored under it and its title is registered. */
  method AddReview(v: ViewRef, title: string, item: Option<string>, range: Option<seq<string>>,
                   ranking: Option<int>, comment: Option<string>) returns (r: Result<Reviews.ReviewRef>)
    requires v.db.Valid()
    modifies v.db
    ensures v.db.Valid()
    ensures v.db.catalog == old(v.db.catalog) && v.db.lastAnimeId == old(v.db.lastAnimeId)
    ensures !old(Live(v)) ==> r == Err(ViewRemoved) && unchanged(v.db)
    ensures old(Live(v)) ==>
      var w := old(ViewOf(v));
      var id := w.lastReviewId + 1;
      if ranking.Some? && !(0 <= ranking.value <= 10) then r == Err(NotAvailableRanking) && unchanged(v.db)
      else if title in w.reviewCatalog then r == Err(RepeatedReviewTitle) && unchanged(v.db)
      else
        && r == Ok(Reviews.ReviewRef(v.db, v.animeId, v.viewId, id))
        && (forall rid :: rid in w.reviews ==> rid < id)
        && v.db.animes == WithView(old(v.db.animes), v.animeId, v.viewId,
             w.(reviews := w.reviews[id := ReviewRec(title, item, range, ranking, comment)],
                reviewCatalog := w.reviewCatalog[title := id],
                lastReviewId := id))
        && Reviews.Live(r.value) && Reviews.ReviewOf(r.value).title == title
  {
    var found := ResolveView(v.db.animes, v.animeId, v.viewId);
    if found.Err? {
      return Err(found.error);
    }
    if ranking.Some? && !IsAvailableRanking(ranking.value) {
      return Err(NotAvailableRanking);
    }
    var w := found.value;
    if title in w.reviewCatalog {
      return Err(RepeatedReviewTitle);
    }
    var id := w.lastReviewId + 1;
    var rv := ReviewRec(title, item, range, ranking, comment);
    ViewValidInsertReview(w, rv);
    WriteBack(v, w.(reviews := w.reviews[id := rv], reviewCatalog := w.reviewCatalog[title := id], lastReviewId := id));
    r := Ok(Reviews.ReviewRef(v.db, v.animeId, v.viewId, id));
  }

  /** `get_review`: a handle on the review with the given title, or None when the view has no
      review of that title. */
  function GetReview(v: ViewRef, title: string): (r: Result<Option<Reviews.ReviewRef>>)
    reads v.db
    requires v.db.Valid()
    ensures r.Err? <==> !Live(v)
    ensures r.Err? ==> r.error == ViewRemoved
    ensures r.Ok? && r.value.Some? ==>
      var h := r.value.value;
      h.db == v.db && h.animeId == v.animeId && h.viewId == v.viewId
      && Reviews.Live(h) && Reviews.ReviewOf(h).title == title
    ensures r.Ok? ==> (r.value.None? <==> forall rid :: rid in ViewOf(v).reviews ==> ViewOf(v).reviews[rid].title != title)
  {
    var found := ResolveView(v.db.animes, v.animeId, v.viewId);
    if found.Err? then Err(found.error)
    else
      var w := found.value;
      assert AnimeValid(ParentOf(v)) && ViewValid(w);
      if title in w.reviewCatalog then
        var rid := w.reviewCatalog[title];
        assert rid in ReviewTitles(w.reviews) && title in ReviewTitles(w.reviews)[rid];
        assert rid in w.reviews && w.reviews[rid].title == title;
        assert w == ViewOf(v);
        Ok(Some(Reviews.ReviewRef(v.db, v.animeId, v.viewId, w.reviewCatalog[title])))
      else
        assert forall rid :: rid in w.reviews ==> title !in ReviewTitles(w.reviews)[rid];
        Ok(None)
  }

  /** `get_all_reviews`: one handle per stored review, in the order the reviews were added. */
  method GetAllReviews(v: ViewRef) returns (r: Result<seq<Reviews.ReviewRef>>)
    requires v.db.Valid()
    ensures r.Err? <==> !Live(v)
    ensures r.Err? ==> r.error == ViewRemoved
    ensures r.Ok? ==> forall k :: 0 <= k < |r.value| ==>
      r.value[k].db == v.db && r.value[k].animeId == v.animeId && r.value[k].viewId == v.viewId && Reviews.Live(r.value[k])
    ensures r.Ok? ==> forall rid :: rid in ViewOf(v).reviews ==> Reviews.ReviewRef(v.db, v.animeId, v.viewId, rid) in r.value
    ensures r.Ok? ==> forall i, j :: 0 <= i < j < |r.value| ==> r.value[i].reviewId < r.value[j].reviewId
  {
    var found := ResolveView(v.db.animes, v.animeId, v.viewId);
    if found.Err? {
      return Err(found.error);
    }
    var w := found.value;
    assert AnimeValid(ParentOf(v)) && ViewValid(w);
    var handles: seq<Reviews.ReviewRef> := [];
    var id := 1;
    while id <= w.lastReviewId
      invariant 1 <= id <= w.lastReviewId + 1
      invariant forall k :: 0 <= k < |handles| ==>
        handles[k] == Reviews.ReviewRef(v.db, v.animeId, v.viewId, handles[k].reviewId)
        && handles[k].reviewId in w.reviews && handles[k].reviewId < id
      invariant forall rid :: rid in w.reviews && rid < id ==> Reviews.ReviewRef(v.db, v.animeId, v.viewId, rid) in handles
      invariant forall i, j :: 0 <= i < j < |handles| ==> handles[i].reviewId < handles[j].reviewId
    {
      if id in w.reviews {
        handles := handles + [Reviews.ReviewRef(v.db, v.animeId, v.viewId, id)];
      }
      id := id + 1;
    }
    r := Ok(handles);
  }

  /** `clear_views`, which clears the view's reviews: the review map and the review catalog
      become empty and the review counter stays, so later review ids are fresh. */
  method ClearReviews(v: ViewRef) returns (r: Outcome)
    requires v.db.Valid()
    modifies v.db
    ensures v.db.Valid()
    ensures v.db.catalog == old(v.db.catalog) && v.db.lastAnimeId == old(v.db.lastAnimeId)
    ensures !old(Live(v)) ==> r == Failed(ViewRemoved) && unchanged(v.db)
    ensures old(Live(v)) ==>
      && r == Done
      && v.db.animes == WithView(old(v.db.animes), v.animeId, v.viewId, old(ViewOf(v)).(reviews := map[], reviewCatalog := map[]))
      && (forall t :: GetReview(v, t) == Ok(None))
  {
    var found := ResolveView(v.db.animes, v.animeId, v.viewId);
    if found.Err? {
      return Failed(found.error);
    }
    assert AnimeValid(ParentOf(v));
    assert ReviewTitles(map[]) == map[];
    WriteBack(v, found.value.(reviews := map[], reviewCatalog := map[]));
    r := Done;
  }

  /** `destroy` as intended: the title leaves the anime's view catalog and the view leaves the
      anime's view map; the handle and every review handle below it are stale afterwards. */
  method Destroy(v: ViewRef) returns (r: Outcome)
    requires v.db.Valid()
    modifies v.db
    ensures v.db.Valid()
    ensures v.db.catalog == old(v.db.catalog) && v.db.lastAnimeId == old(v.db.lastAnimeId)
    ensures !old(Live(v)) ==> r == Failed(ViewRemoved) && unchanged(v.db)
    ensures old(Live(v)) ==>
      var a := old(ParentOf(v));
      && r == Done
      && v.db.animes == old(v.db.animes)[v.animeId :=
           a.(views := a.views - {v.viewId}, viewCatalog := a.viewCatalog - {a.views[v.viewId].title})]
      && !Live(v)
      && (forall rid :: !Reviews.Live(Reviews.ReviewRef(v.db, v.animeId, v.viewId, rid)))
  {
    var db := v.db;
    var found := ResolveView(db.animes, v.animeId, v.viewId);
    if found.Err? {
      return Failed(found.error);
    }
    var a := db.animes[v.animeId];
    var a' := a.(views := a.views - {v.viewId}, viewCatalog := a.viewCatalog - {found.value.title});
    AnimeValidRemoveView(a, v.viewId);
    StoreValidReplaceAnime(db.animes, db.lastAnimeId, db.catalog, v.animeId, a');
    db.animes := db.animes[v.animeId := a'];
    r := Done;
  }

  /** `destroy` as written: the title is popped from the anime's view catalog, then
      `self._anime["views"]` subscripts the Anime handle itself, which raises TypeError. The
      view stays in the map, now without a catalog entry. */
  method DestroyAsWritten(v: ViewRef) returns (r: Outcome)
    requires v.db.Valid()
    modifies v.db
    ensures v.db.catalog == old(v.db.catalog) && v.db.lastAnimeId == old(v.db.lastAnimeId)
    ensures !old(Live(v)) ==> r == Failed(ViewRemoved) && unchanged(v.db)
    ensures old(Live(v)) ==>
      var a := old(ParentOf(v));
      && r == Failed(TypeError)
      && v.db.animes == old(v.db.animes)[v.animeId := a.(viewCatalog := a.viewCatalog - {a.views[v.viewId].title})]
  {
    var db := v.db;
    var found := ResolveView(db.animes, v.animeId, v.viewId);
    if found.Err? {
      return Failed(found.error);
    }
    var a := db.animes[v.animeId];
    db.animes := db.animes[v.animeId := a.(viewCatalog := a.viewCatalog - {found.value.title})];
    r := Failed(TypeError);
  }

  /** What `destroy` as written leaves behind: the view is still stored, but its title is no
      longer in the catalog, so the anime no longer satisfies its invariant. */
  lemma {:induction false} DestroyAsWrittenBreaksAnime(a: AnimeRec, vid: nat)
    requires AnimeValid(a) && vid in a.views
    ensures !AnimeValid(a.(viewCatalog := a.viewCatalog - {a.views[vid].title}))
  {
    var t := a.views[vid].title;
    var a' := a.(viewCatalog := a.viewCatalog - {t});
    assert ViewTitles(a'.views)[vid] == {t};
    assert t !in a'.viewCatalog;
  }
}
