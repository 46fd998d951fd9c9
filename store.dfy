/** The root of the store (AnDson_personal_api/database.py): the document's version check, the
    rebuild of the global name catalog, and the Database object that owns the anime map, the
    anime id counter and the global catalog of titles and aliases. */
module Store {
  import opened Formats
  import opened Records

  const SupportedEdition: string := "AnDson Personal"

  /** The version a new document is written with. */
  const CurrentVersion: seq<int> := [1, 0, 0]

  /** `_version_check`: the edition must match; then version[0], version[1], version[2] are
      read in turn, stopping at the first one out of range. IndexError is raised only when the
      list ends before that first failing component is reached. */
  function VersionCheck(edition: string, version: seq<int>): (r: Outcome)
    ensures r == Done <==>
      edition == SupportedEdition && |version| >= 3 && version[0] == 1 && version[1] <= 0 && version[2] <= 0
    ensures r.Failed? ==> r.error == WrongDatabase || r.error == IndexError
    ensures r == Failed(IndexError) <==>
      edition == SupportedEdition &&
      (|version| == 0 || (version[0] == 1 && (|version| == 1 || (version[1] <= 0 && |version| == 2))))
    ensures edition != SupportedEdition ==> r == Failed(WrongDatabase)
  {
    if edition != SupportedEdition then Failed(WrongDatabase)
    else if |version| < 1 then Failed(IndexError)
    else if version[0] != 1 then Failed(WrongDatabase)
    else if |version| < 2 then Failed(IndexError)
    else if version[1] > 0 then Failed(WrongDatabase)
    else if |version| < 3 then Failed(IndexError)
    else if version[2] > 0 then Failed(WrongDatabase)
    else Done
  }

  /** A new document passes the check that loading applies. */
  lemma NewDocumentPassesVersionCheck()
    ensures VersionCheck(SupportedEdition, CurrentVersion) == Done
  {
  }

  /** No name is carried by two animes of the map. */
  ghost predicate NamesDisjoint(animes: map<nat, AnimeRec>)
  {
    forall i, j :: i in animes && j in animes && i != j ==> Names(animes[i]) !! Names(animes[j])
  }

  /** `_get_anime_name_catalog`: every title and alias of every anime becomes a key mapped to its
      anime's id. When two animes share a name, the one visited last wins; when names are
      disjoint, the result is exactly the index of the live animes. */
  method NameCatalogOf(animes: map<nat, AnimeRec>) returns (catalog: map<string, nat>)
    ensures forall n :: n in catalog ==> catalog[n] in animes && n in Names(animes[catalog[n]])
    ensures forall id, n :: id in animes && n in Names(animes[id]) ==> n in catalog
    ensures NamesDisjoint(animes) ==> Indexes(NameOwners(animes), catalog)
  {
    catalog := map[];
    var todo := animes.Keys;
    while todo != {}
      invariant todo <= animes.Keys
      invariant forall n :: n in catalog ==> catalog[n] in animes && catalog[n] !in todo && n in Names(animes[catalog[n]])
      invariant forall id, n :: id in animes && id !in todo && n in Names(animes[id]) ==> n in catalog
      invariant NamesDisjoint(animes) ==>
        forall id, n :: id in animes && id !in todo && n in Names(animes[id]) ==> catalog[n] == id
      decreases todo
    {
      var id :| id in todo;
      var a := animes[id];
      catalog := catalog[a.title := id];
      var i := 0;
      while i < |a.aliases|
        invariant 0 <= i <= |a.aliases|
        invariant forall n :: n in catalog ==>
          catalog[n] in animes && (catalog[n] !in todo || catalog[n] == id) && n in Names(animes[catalog[n]])
        invariant forall j, n :: j in animes && j !in todo && n in Names(animes[j]) ==> n in catalog
        invariant a.title in catalog && catalog[a.title] == id
        invariant forall k :: 0 <= k < i ==> a.aliases[k] in catalog && catalog[a.aliases[k]] == id
        invariant NamesDisjoint(animes) ==>
          forall j, n :: j in animes && j !in todo && n in Names(animes[j]) ==> catalog[n] == j
      {
        catalog := catalog[a.aliases[i] := id];
        i := i + 1;
      }
      todo := todo - {id};
    }
    if NamesDisjoint(animes) {
      forall n | n in catalog ensures catalog[n] in NameOwners(animes) && n in NameOwners(animes)[catalog[n]] {
      }
    }
  }

  /** The uniqueness checks of `create_anime`: the title, then each alias in turn, must be
      absent from the catalog. */
  method NamesFree(catalog: map<string, nat>, title: string, aliases: seq<string>) returns (free: bool)
    ensures free <==> title !in catalog && forall x :: x in aliases ==> x !in catalog
  {
    if title in catalog {
      return false;
    }
    var i := 0;
    while i < |aliases|
      invariant 0 <= i <= |aliases|
      invariant forall k :: 0 <= k < i ==> aliases[k] !in catalog
    {
      if aliases[i] in catalog {
        return false;
      }
      i := i + 1;
    }
    return true;
  }

  /** The registration loops of `create_anime` and of the aliases setter: each name in turn
      is mapped to `id`; other entries are kept. */
  method RegisterAll(catalog: map<string, nat>, names: seq<string>, id: nat) returns (cat: map<string, nat>)
    ensures forall n :: n in cat <==> n in catalog || n in names
    ensures forall n :: n in cat ==> cat[n] == if n in names then id else catalog[n]
    ensures cat == catalog + (map n | n in Elems(names) :: id)
  {
    cat := catalog;
    var i := 0;
    while i < |names|
      invariant 0 <= i <= |names|
      invariant forall n :: n in cat <==> n in catalog || n in names[..i]
      invariant forall n :: n in cat ==> cat[n] == if n in names[..i] then id else catalog[n]
    {
      assert names[..i + 1] == names[..i] + [names[i]];
      cat := cat[names[i] := id];
      i := i + 1;
    }
    assert names[..i] == names;
    var added := map n | n in Elems(names) :: id;
    assert cat.Keys == (catalog + added).Keys;
  }

  /** The removal loops of the aliases setter and of `destory`: each name in turn is popped.
      Popping an absent key raises KeyError in the source, so callers pass listed, distinct names. */
  method UnregisterAll(catalog: map<string, nat>, names: seq<string>) returns (cat: map<string, nat>)
    requires Distinct(names)
    requires forall i :: 0 <= i < |names| ==> names[i] in catalog
    ensures cat == catalog - Elems(names)
  {
    cat := catalog;
    var i := 0;
    while i < |names|
      invariant 0 <= i <= |names|
      invariant cat == catalog - Elems(names[..i])
    {
      assert names[i] in cat by {
        assert forall k :: 0 <= k < i ==> names[k] != names[i];
      }
      assert Elems(names[..i + 1]) == Elems(names[..i]) + {names[i]} by {
        assert names[..i + 1] == names[..i] + [names[i]];
      }
      cat := cat - {names[i]};
      i := i + 1;
    }
    assert names[..i] == names;
  }

  /** A handle on an anime: the database it belongs to and the anime's id. */
  datatype AnimeRef = AnimeRef(db: Database, id: nat)

  /** `Anime.__eq__`: same database object and same id. */
  function SameAnime(a: AnimeRef, b: AnimeRef): (r: bool)
    ensures r <==> a == b
  {
    a.db == b.db && a.id == b.id
  }

  /** The keys of the document's `animes` section: the id counter and the record map. The
      anime records themselves sit one level further down, in the record map. */
  datatype SectionKey = LastAnimeIdKey | AnimeObjectsKey | AnimeIdKey(id: nat)

  const AnimesSectionKeys: set<SectionKey> := {LastAnimeIdKey, AnimeObjectsKey}

  /** `Anime(database, anime_id)` as written: the constructor reads `anime_id` from the `animes`
      section itself rather than from its record map, so it raises KeyError for every id,
      whether or not an anime is stored under it. */
  function AnimeHandleAsWritten(db: Database, id: nat): (r: Result<AnimeRef>)
    ensures r == Err(KeyError)
  {
    if AnimeIdKey(id) in AnimesSectionKeys then Ok(AnimeRef(db, id)) else Err(KeyError)
  }

  /** The catalog `create_anime` builds: the title and every alias map to the new id. */
  lemma CatalogWithNewAnime(catalog: map<string, nat>, title: string, aliases: seq<string>, id: nat,
                            names: set<string>, cat: map<string, nat>)
    requires names == {title} + Elems(aliases)
    requires cat == catalog[title := id] + (map n | n in Elems(aliases) :: id)
    ensures forall n :: n in cat <==> n in catalog || n in names
    ensures forall n :: n in cat ==> cat[n] == if n in names then id else catalog[n]
  {
  }

  /** What `create_anime` as written leaves behind when it raises KeyError: the anime is stored
      under a fresh id, the store is valid with it, and its title is taken, so the same call
      repeated is rejected with RepeatedAnimeTitle although the first one reported failure. */
  lemma {:induction false} CreateAsWrittenCommits(animes: map<nat, AnimeRec>, last: nat, catalog: map<string, nat>,
                                                  title: string, aliases: seq<string>, tags: seq<string>,
                                                  rec: AnimeRec, cat: map<string, nat>)
    requires StoreValid(animes, last, catalog)
    requires title !in aliases && title !in catalog && forall x :: x in aliases ==> x !in catalog
    requires rec == AnimeRec(title, Dedup(aliases), tags, map[], map[], 0)
    requires cat == catalog[title := last + 1] + (map n | n in Elems(aliases) :: last + 1)
    ensures last + 1 !in animes
    ensures StoreValid(animes[last + 1 := rec], last + 1, cat)
    ensures title in cat && cat[title] == last + 1
  {
    assert Elems(Dedup(aliases)) == Elems(aliases);
    assert AnimeValid(rec) by {
      assert ViewTitles(map[]) == map[];
    }
    CatalogWithNewAnime(catalog, title, aliases, last + 1, Names(rec), cat);
    StoreValidInsertAnime(animes, last, catalog, rec, cat);
  }

  class Database {
    var animes: map<nat, AnimeRec>
    var lastAnimeId: nat
    var catalog: map<string, nat>

    ghost predicate Valid()
      reads this
    {
      StoreValid(animes, lastAnimeId, catalog)
    }

    /** `Database()` without a file: an empty document at the current version, and the catalog
        rebuilt from it. */
    constructor ()
      ensures Valid()
      ensures animes == map[] && catalog == map[] && lastAnimeId == 0
    {
      var c := NameCatalogOf(map[]);
      assert c == map[];
      animes := map[];
      lastAnimeId := 0;
      catalog := c;
      assert NameOwners(map[]) == map[];
    }

    /** `create_anime`: the aliases are deduplicated; the title among the aliases, or the title
        or any alias already in the catalog, raises RepeatedAnimeTitle and changes nothing.
        Otherwise the counter goes up by one, the new record is stored under the new id, and
        the title and every alias are registered under that id. */
    method CreateAnime(title: string, aliases: seq<string>, tags: seq<string>) returns (r: Result<AnimeRef>)
      requires Valid()
      modifies this
      ensures Valid()
      ensures r.Err? <==> title in aliases || title in old(catalog) || exists x :: x in aliases && x in old(catalog)
      ensures r.Err? ==> r.error == RepeatedAnimeTitle && unchanged(this)
      ensures r.Ok? ==>
        && lastAnimeId == old(lastAnimeId) + 1
        && r.value == AnimeRef(this, lastAnimeId)
        && animes == old(animes)[lastAnimeId := AnimeRec(title, Dedup(aliases), tags, map[], map[], 0)]
        && catalog == old(catalog)[title := lastAnimeId] + (map n | n in Elems(aliases) :: lastAnimeId)
        && (forall id :: id in old(animes) ==> id < lastAnimeId)
    {
      var unique := Dedup(aliases);
      if title in unique {
        return Err(RepeatedAnimeTitle);
      }
      var free := NamesFree(catalog, title, unique);
      if !free {
        return Err(RepeatedAnimeTitle);
      }
      var rec := AnimeRec(title, unique, tags, map[], map[], 0);
      var id := lastAnimeId + 1;
      var cat := RegisterAll(catalog[title := id], unique, id);
      assert ViewTitles(map[]) == map[];
      StoreValidInsertAnime(animes, lastAnimeId, catalog, rec, cat);
      assert Elems(unique) == Elems(aliases);
      lastAnimeId := id;
      animes := animes[id := rec];
      catalog := cat;
      r := Ok(AnimeRef(this, id));
    }

    /** `create_anime` as written: the checks and the commit are those of CreateAnime, but the
        closing `Anime(self, self._last_anime_id)` raises KeyError (AnimeHandleAsWritten). A
        call whose names are free therefore stores the record, registers its names and then
        raises KeyError instead of returning a handle. */
    method CreateAnimeAsWritten(title: string, aliases: seq<string>, tags: seq<string>) returns (r: Result<AnimeRef>)
      requires Valid()
      modifies this
      ensures Valid() && r.Err?
      ensures r.error == RepeatedAnimeTitle <==>
        title in aliases || title in old(catalog) || exists x :: x in aliases && x in old(catalog)
      ensures r.error == RepeatedAnimeTitle ==> unchanged(this)
      ensures r.error != RepeatedAnimeTitle ==>
        && r.error == KeyError
        && lastAnimeId == old(lastAnimeId) + 1
        && animes == old(animes)[lastAnimeId := AnimeRec(title, Dedup(aliases), tags, map[], map[], 0)]
        && catalog == old(catalog)[title := lastAnimeId] + (map n | n in Elems(aliases) :: lastAnimeId)
    {
      r := CreateAnime(title, aliases, tags);
      if r.Ok? {
        r := AnimeHandleAsWritten(this, r.value.id);
      }
    }

    /** `get_anime` as written: a listed name reaches `Anime(...)`, which raises KeyError; an
        unlisted name gives None. */
    function GetAnimeAsWritten(name: string): (r: Result<Option<AnimeRef>>)
      reads this
      requires Valid()
      ensures r.Err? <==> exists id :: id in animes && name in Names(animes[id])
      ensures r.Err? ==> r.error == KeyError
      ensures r.Ok? ==> r.value == None
    {
      if name in catalog then
        assert catalog[name] in NameOwners(animes);
        Err(AnimeHandleAsWritten(this, catalog[name]).error)
      else
        UnlistedNameIsFree(animes, lastAnimeId, catalog, name);
        Ok(None)
    }

    /** `get_all_animes` as written: the first stored anime reaches `Anime(...)`, which raises
        KeyError; only an empty store gives the empty tuple. */
    method GetAllAnimesAsWritten() returns (r: Result<seq<AnimeRef>>)
      requires Valid()
      ensures r.Err? <==> animes != map[]
      ensures r.Err? ==> r.error == KeyError
      ensures r.Ok? ==> r.value == []
    {
      var id := 1;
      while id <= lastAnimeId
        invariant 1 <= id <= lastAnimeId + 1
        invariant forall j :: j in animes ==> id <= j
      {
        if id in animes {
          var made := AnimeHandleAsWritten(this, id);
          if made.Err? {
            return Err(made.error);
          }
        }
        id := id + 1;
      }
      assert animes.Keys == {};
      r := Ok([]);
    }

    /** `get_anime`: a handle on the anime carrying `name` as title or alias, if any. */
    function GetAnime(name: string): (r: Option<AnimeRef>)
      reads this
      requires Valid()
      ensures r.Some? ==> r.value.db == this && r.value.id in animes && name in Names(animes[r.value.id])
      ensures r.None? <==> forall id :: id in animes ==> name !in Names(animes[id])
    {
      if name in catalog then
        assert catalog[name] in NameOwners(animes);
        Some(AnimeRef(this, catalog[name]))
      else
        UnlistedNameIsFree(animes, lastAnimeId, catalog, name);
        None
    }

    /** `get_all_animes`: one handle per live anime, in the order the animes were created. */
    method GetAllAnimes() returns (handles: seq<AnimeRef>)
      requires Valid()
      ensures forall k :: 0 <= k < |handles| ==> handles[k].db == this && handles[k].id in animes
      ensures forall id :: id in animes ==> AnimeRef(this, id) in handles
      ensures forall i, j :: 0 <= i < j < |handles| ==> handles[i].id < handles[j].id
    {
      handles := [];
      var id := 1;
      while id <= lastAnimeId
        invariant 1 <= id <= lastAnimeId + 1
        invariant forall k :: 0 <= k < |handles| ==> handles[k].db == this && handles[k].id in animes && handles[k].id < id
        invariant forall j :: j in animes && j < id ==> AnimeRef(this, j) in handles
        invariant forall i, j :: 0 <= i < j < |handles| ==> handles[i].id < handles[j].id
      {
        if id in animes {
          handles := handles + [AnimeRef(this, id)];
        }
        id := id + 1;
      }
    }

    /** `clear_anime`: every anime and every catalog entry goes; the counter stays, so ids
        handed out later are still fresh. */
    method ClearAnime()
      requires Valid()
      modifies this
      ensures Valid()
      ensures animes == map[] && catalog == map[] && lastAnimeId == old(lastAnimeId)
    {
      catalog := map[];
      animes := map[];
      EmptyStoreValid(lastAnimeId);
    }
  }
}
