/** Operations of an anime handle (AnDson_personal_api/anime.py). A handle is an AnimeRef: the
    database and the anime id. Every operation except the tags setter first checks that the id
    is still live and otherwise raises AnimeRemoved without touching anything. */
module Animes {
  import opened Records
  import opened Store

  /** `Anime._checking_existence`. */
  predicate Live(a: AnimeRef)
    reads a.db
  {
    ResolveAnime(a.db.animes, a.id).Ok?
  }

  /** `Anime._checking_existence` as written: it looks the id up in the `animes` section
      itself rather than in its record map. */
  predicate LiveAsWritten(a: AnimeRef)
  {
    AnimeIdKey(a.id) in AnimesSectionKeys
  }

  /** As written, every anime handle counts as removed, even one whose record is stored. */
  lemma EveryAnimeRemovedAsWritten(a: AnimeRef)
    ensures !LiveAsWritten(a)
  {
  }

  /** The `title` getter: the live anime's title, which the catalog lists under its id. */
  function GetTitle(a: AnimeRef): (r: Result<string>)
    reads a.db
    requires a.db.Valid()
    ensures r.Err? <==> !Live(a)
    ensures r.Err? ==> r.error == AnimeRemoved
    ensures r.Ok? ==> r.value in a.db.catalog && a.db.catalog[r.value] == a.id
    ensures r.Ok? ==> r.value !in a.db.animes[a.id].aliases
  {
    var found := ResolveAnime(a.db.animes, a.id);
    if found.Err? then Err(found.error)
    else
      OwnNamesListed(a.db.animes, a.db.lastAnimeId, a.db.catalog, a.id);
      Ok(found.value.title)
  }

  /** The `aliases` getter: distinct names, none of them the title, each listed under this anime. */
  function GetAliases(a: AnimeRef): (r: Result<seq<string>>)
    reads a.db
    requires a.db.Valid()
    ensures r.Err? <==> !Live(a)
    ensures r.Err? ==> r.error == AnimeRemoved
    ensures r.Ok? ==> r.value == a.db.animes[a.id].aliases
    ensures r.Ok? ==> Distinct(r.value) && a.db.animes[a.id].title !in r.value
    ensures r.Ok? ==> forall x :: x in r.value ==> x in a.db.catalog && a.db.catalog[x] == a.id
  {
    var found := ResolveAnime(a.db.animes, a.id);
    if found.Err? then Err(found.error)
    else
      OwnNamesListed(a.db.animes, a.db.lastAnimeId, a.db.catalog, a.id);
      Ok(found.value.aliases)
  }

  /** The `tags` getter. */
  function GetTags(a: AnimeRef): (r: Result<seq<string>>)
    reads a.db
    ensures r.Err? <==> !Live(a)
    ensures r.Err? ==> r.error == AnimeRemoved
    ensures r.Ok? ==> r.value == a.db.animes[a.id].tags
  {
    var found := ResolveAnime(a.db.animes, a.id);
    if found.Err? then Err(found.error) else Ok(found.value.tags)
  }

  /** The `title` setter: the same title is a no-op; a name already in the catalog (another
      anime's title or alias, or one of this anime's own aliases) raises RepeatedAnimeTitle;
      otherwise the old title key is dropped and the new one maps to the same id. */
  method SetTitle(a: AnimeRef, newTitle: string) returns (r: Outcome)
    requires a.db.Valid()
    modifies a.db
    ensures a.db.Valid() && a.db.lastAnimeId == old(a.db.lastAnimeId)
    ensures !old(Live(a)) ==> r == Failed(AnimeRemoved) && unchanged(a.db)
    ensures old(Live(a)) ==>
      var rec := old(a.db.animes[a.id]);
      if newTitle == rec.title then r == Done && unchanged(a.db)
      else if newTitle in old(a.db.catalog) then r == Failed(RepeatedAnimeTitle) && unchanged(a.db)
      else
        && r == Done
        && a.db.animes == old(a.db.animes)[a.id := rec.(title := newTitle)]
        && a.db.catalog == (old(a.db.catalog) - {rec.title})[newTitle := a.id]
  {
    var db := a.db;
    var found := ResolveAnime(db.animes, a.id);
    if found.Err? {
      return Failed(found.error);
    }
    var rec := found.value;
    if rec.title == newTitle {
      return Done;
    }
    if newTitle in db.catalog {
      return Failed(RepeatedAnimeTitle);
    }
    var renamed := rec.(title := newTitle);
    var cat := (db.catalog - {rec.title})[newTitle := a.id];
    OwnNamesListed(db.animes, db.lastAnimeId, db.catalog, a.id);
    StoreValidReplaceNames(db.animes, db.lastAnimeId, db.catalog, a.id, renamed, cat);
    db.animes := db.animes[a.id := renamed];
    db.catalog := cat;
    r := Done;
  }

  /** The uniqueness loop of the aliases setter: each new alias must be absent from the
      catalog unless it is one of the anime's current aliases. */
  method AliasesAvailable(catalog: map<string, nat>, aliases: seq<string>, own: seq<string>) returns (ok: bool)
    ensures ok <==> forall x :: x in aliases && x in catalog ==> x in own
  {
    var i := 0;
    while i < |aliases|
      invariant 0 <= i <= |aliases|
      invariant forall k :: 0 <= k < i ==> aliases[k] in catalog ==> aliases[k] in own
    {
      if aliases[i] in catalog && aliases[i] !in own {
        return false;
      }
      i := i + 1;
    }
    return true;
  }

  /** The `aliases` setter: the new aliases are deduplicated; the title among them raises, and
      so does any alias in the catalog that is not already one of this anime's aliases. Otherwise
      the old alias keys are popped and the new ones registered under this id. */
  method SetAliases(a: AnimeRef, newAliases: seq<string>) returns (r: Outcome)
    requires a.db.Valid()
    modifies a.db
    ensures a.db.Valid() && a.db.lastAnimeId == old(a.db.lastAnimeId)
    ensures !old(Live(a)) ==> r == Failed(AnimeRemoved) && unchanged(a.db)
    ensures old(Live(a)) ==>
      var rec := old(a.db.animes[a.id]);
      if rec.title in newAliases || exists x :: x in newAliases && x in old(a.db.catalog) && x !in rec.aliases then
        r == Failed(RepeatedAnimeTitle) && unchanged(a.db)
      else
        && r == Done
        && a.db.animes == old(a.db.animes)[a.id := rec.(aliases := Dedup(newAliases))]
        && a.db.catalog == (old(a.db.catalog) - Elems(rec.aliases)) + (map x | x in Elems(newAliases) :: a.id)
  {
    var db := a.db;
    var found := ResolveAnime(db.animes, a.id);
    if found.Err? {
      return Failed(found.error);
    }
    var rec := found.value;
    var unique := Dedup(newAliases);
    if rec.title in unique {
      return Failed(RepeatedAnimeTitle);
    }
    var available := AliasesAvailable(db.catalog, unique, rec.aliases);
    if !available {
      return Failed(RepeatedAnimeTitle);
    }
    OwnNamesListed(db.animes, db.lastAnimeId, db.catalog, a.id);
    var cat := UnregisterAll(db.catalog, rec.aliases);
    assert Elems(unique) == Elems(newAliases);
    cat := RegisterAll(cat, unique, a.id);
    var realiased := rec.(aliases := unique);
    StoreValidReplaceNames(db.animes, db.lastAnimeId, db.catalog, a.id, realiased, cat);
    db.animes := db.animes[a.id := realiased];
    db.catalog := cat;
    r := Done;
  }

  /** `add_alias`: an alias this anime already has is a no-op; any other name in the catalog,
      this anime's title included, raises; otherwise the alias is appended and registered. */
  method AddAlias(a: AnimeRef, alias: string) returns (r: Outcome)
    requires a.db.Valid()
    modifies a.db
    ensures a.db.Valid() && a.db.lastAnimeId == old(a.db.lastAnimeId)
    ensures !old(Live(a)) ==> r == Failed(AnimeRemoved) && unchanged(a.db)
    ensures old(Live(a)) ==>
      var rec := old(a.db.animes[a.id]);
      if alias in rec.aliases then r == Done && unchanged(a.db)
      else if alias in old(a.db.catalog) then r == Failed(RepeatedAnimeTitle) && unchanged(a.db)
      else
        && r == Done
        && a.db.animes == old(a.db.animes)[a.id := rec.(aliases := rec.aliases + [alias])]
        && a.db.catalog == old(a.db.catalog)[alias := a.id]
  {
    var db := a.db;
    var found := ResolveAnime(db.animes, a.id);
    if found.Err? {
      return Failed(found.error);
    }
    var rec := found.value;
    OwnNamesListed(db.animes, db.lastAnimeId, db.catalog, a.id);
    if alias in db.catalog {
      if alias in rec.aliases {
        return Done;
      }
      return Failed(RepeatedAnimeTitle);
    }
    var extended := rec.(aliases := rec.aliases + [alias]);
    var cat := db.catalog[alias := a.id];
    StoreValidReplaceNames(db.animes, db.lastAnimeId, db.catalog, a.id, extended, cat);
    db.animes := db.animes[a.id := extended];
    db.catalog := cat;
    r := Done;
  }

  /** `remove_alias`: `list.remove` raises ValueError for an alias the anime does not have
      (nothing changes); otherwise the alias leaves the list and the catalog. */
  method RemoveAlias(a: AnimeRef, alias: string) returns (r: Outcome)
    requires a.db.Valid()
    modifies a.db
    ensures a.db.Valid() && a.db.lastAnimeId == old(a.db.lastAnimeId)
    ensures !old(Live(a)) ==> r == Failed(AnimeRemoved) && unchanged(a.db)
    ensures old(Live(a)) ==>
      var rec := old(a.db.animes[a.id]);
      if alias !in rec.aliases then r == Failed(ValueError) && unchanged(a.db)
      else
        && r == Done
        && a.db.animes == old(a.db.animes)[a.id := rec.(aliases := RemoveFirst(rec.aliases, alias))]
        && a.db.catalog == old(a.db.catalog) - {alias}
  {
    var db := a.db;
    var found := ResolveAnime(db.animes, a.id);
    if found.Err? {
      return Failed(found.error);
    }
    var rec := found.value;
    if alias !in rec.aliases {
      return Failed(ValueError);
    }
    var shrunk := rec.(aliases := RemoveFirst(rec.aliases, alias));
    RemoveFirstOfDistinct(rec.aliases, alias);
    OwnNamesListed(db.animes, db.lastAnimeId, db.catalog, a.id);
    var cat := db.catalog - {alias};
    StoreValidReplaceNames(db.animes, db.lastAnimeId, db.catalog, a.id, shrunk, cat);
    db.animes := db.animes[a.id := shrunk];
    db.catalog := cat;
    r := Done;
  }

  /** The `tags` setter stores the tags as given. It never calls the existence check (the call
      lacks its parentheses), so on a removed anime it writes into a detached record: no error,
      and the store is unchanged. */
  method SetTags(a: AnimeRef, tags: seq<string>) returns (r: Outcome)
    requires a.db.Valid()
    modifies a.db
    ensures a.db.Valid() && r == Done
    ensures a.db.catalog == old(a.db.catalog) && a.db.lastAnimeId == old(a.db.lastAnimeId)
    ensures !old(Live(a)) ==> unchanged(a.db)
    ensures old(Live(a)) ==> a.db.animes == old(a.db.animes)[a.id := old(a.db.animes[a.id]).(tags := tags)]
  {
    var db := a.db;
    r := Done;
    if Live(a) {
      var rec := db.animes[a.id];
      StoreValidReplaceAnime(db.animes, db.lastAnimeId, db.catalog, a.id, rec.(tags := tags));
      db.animes := db.animes[a.id := rec.(tags := tags)];
    }
  }

  /** `add_tag`: a tag already present is a no-op; otherwise it is appended at the end. */
  method AddTag(a: AnimeRef, tag: string) returns (r: Outcome)
    requires a.db.Valid()
    modifies a.db
    ensures a.db.Valid()
    ensures a.db.catalog == old(a.db.catalog) && a.db.lastAnimeId == old(a.db.lastAnimeId)
    ensures !old(Live(a)) ==> r == Failed(AnimeRemoved) && unchanged(a.db)
    ensures old(Live(a)) ==>
      var rec := old(a.db.animes[a.id]);
      r == Done &&
      if tag in rec.tags then unchanged(a.db)
      else a.db.animes == old(a.db.animes)[a.id := rec.(tags := rec.tags + [tag])]
  {
    var db := a.db;
    var found := ResolveAnime(db.animes, a.id);
    if found.Err? {
      return Failed(found.error);
    }
    var rec := found.value;
    r := Done;
    if tag in rec.tags {
      return;
    }
    StoreValidReplaceAnime(db.animes, db.lastAnimeId, db.catalog, a.id, rec.(tags := rec.tags + [tag]));
    db.animes := db.animes[a.id := rec.(tags := rec.tags + [tag])];
  }

  /** `remove_tag`: `list.remove` raises ValueError for an absent tag; otherwise the first
      occurrence goes. */
  method RemoveTag(a: AnimeRef, tag: string) returns (r: Outcome)
    requires a.db.Valid()
    modifies a.db
    ensures a.db.Valid()
    ensures a.db.catalog == old(a.db.catalog) && a.db.lastAnimeId == old(a.db.lastAnimeId)
    ensures !old(Live(a)) ==> r == Failed(AnimeRemoved) && unchanged(a.db)
    ensures old(Live(a)) ==>
      var rec := old(a.db.animes[a.id]);
      if tag !in rec.tags then r == Failed(ValueError) && unchanged(a.db)
      else r == Done && a.db.animes == old(a.db.animes)[a.id := rec.(tags := RemoveFirst(rec.tags, tag))]
  {
    var db := a.db;
    var found := ResolveAnime(db.animes, a.id);
    if found.Err? {
      return Failed(found.error);
    }
    var rec := found.value;
    if tag !in rec.tags {
      return Failed(ValueError);
    }
    StoreValidReplaceAnime(db.animes, db.lastAnimeId, db.catalog, a.id, rec.(tags := RemoveFirst(rec.tags, tag)));
    db.animes := db.animes[a.id := rec.(tags := RemoveFirst(rec.tags, tag))];
    r := Done;
  }

  /** `destory`: the title and every alias are popped from the catalog and the id from the
      anime map; the catalog still indexes exactly the remaining animes. Views and reviews
      below become unreachable with it. */
  method Destroy(a: AnimeRef) returns (r: Outcome)
    requires a.db.Valid()
    modifies a.db
    ensures a.db.Valid() && a.db.lastAnimeId == old(a.db.lastAnimeId)
    ensures !old(Live(a)) ==> r == Failed(AnimeRemoved) && unchanged(a.db)
    ensures old(Live(a)) ==>
      && r == Done
      && a.db.animes == old(a.db.animes) - {a.id}
      && a.db.catalog == old(a.db.catalog) - Names(old(a.db.animes[a.id]))
  {
    var db := a.db;
    var found := ResolveAnime(db.animes, a.id);
    if found.Err? {
      return Failed(found.error);
    }
    var rec := found.value;
    OwnNamesListed(db.animes, db.lastAnimeId, db.catalog, a.id);
    var cat := db.catalog - {rec.title};
    cat := UnregisterAll(cat, rec.aliases);
    assert cat == db.catalog - Names(rec);
    StoreValidRemoveAnime(db.animes, db.lastAnimeId, db.catalog, a.id);
    db.animes := db.animes - {a.id};
    db.catalog := cat;
    r := Done;
  }
}
