# AnDson personal record store, in Dafny

AnDson_personal_api keeps a personal anime log as one nested document with three levels:

- **Animes.** An anime has a title, aliases and tags.
- **Views.** A view is one watch-through of an anime. It has optional fields: is-new, times viewed, source, episode range, a duration as a list of `yyyy-mm` months, and the date of the last episode.
- **Reviews.** A review sits under a view. It has a title, and optionally an item, an episode range, a ranking in 0..10 and a comment.

Each level keeps three things:

- a map from ids to its children;
- a counter that hands out fresh ids and is never reset;
- a catalog from names to ids. It is global for anime titles and aliases, per anime for view titles, and per view for review titles.

Users hold *handles*, not data. A handle is a database and a chain of ids. On every access it walks the chain again and raises a "removed" error when a link is gone.

## What the model contains

- `Formats` (formats.dfy) holds the three validators: month strings, date strings and rankings. Each string check is characterised both ways, as the text of a year, month and day in range.
- `Records` (records.dfy) holds:
  - the three record kinds and the error kinds;
  - list helpers: Python's `set(...)`, `list.remove`, and add-if-absent / remove on lists that may be None;
  - the catalog invariant `Indexes`: every key points to a live id owning that name, and every owned name is a key pointing to its owner;
  - the store invariant built on it (`StoreValid`, `AnimeValid`, `ViewValid`, `ReviewValid`);
  - the id-chain resolution;
  - one lemma per kind of catalog edit, showing that the edit keeps the invariant.
- `Store` (store.dfy) holds:
  - the document version check and the catalog rebuild;
  - the `Database` class. Its fields are the anime map, the anime counter and the global catalog. Its methods cover creation, lookup, listing and clearing. Beside each of creation, lookup and listing sits an as-written variant that reproduces the KeyError the handle constructor raises (see Findings).
- `Animes`, `Views` and `Reviews` (anime.dfy, view.dfy, review.dfy) hold the handle operations. Each state-changing operation is a method that `modifies` the database. Except for the two as-written destroys (`Views.DestroyAsWritten`, `Reviews.DestroyAsWritten`), which break it on purpose, it keeps `Valid()` and states the whole new state for each outcome: stale handle, rejected argument, no-op, or success.

Errors are values: `Result`/`Outcome` carry one `Error` constructor per exception the code raises. The code reads the view catalog from the Anime handle and the review catalog from the View handle. The model keeps them in the anime and view records instead. By `Records.IndexDetermined`, a catalog that satisfies the invariant is the one a rebuild from the records would produce.

## Model

| member | source | states |
|---|---|---|
| Formats.IsMonthString | AnDson_personal_api/_funcs.py:4-14 | the month check; an accepted string has the `dddd-dd` shape and is the canonical text of the year and month it spells |
| Formats.IsDateString | AnDson_personal_api/_funcs.py:16-31 | the date check; an accepted string has the `dddd-dd-dd` shape and is the canonical text of the year, month and day it spells |
| Formats.IsAvailableRanking | AnDson_personal_api/_funcs.py:33-34 | accepted exactly on the eleven grades 0..10 |
| Formats.NumeralRoundTrip | AnDson_personal_api/_funcs.py:8 | `int()` of the zero-padded numeral of n gives n back |
| Formats.NumeralOfValue | AnDson_personal_api/_funcs.py:21-22 | a digit string is the padded numeral of its own `int()` value, so reading a field loses nothing |
| Formats.MonthTextAccepted | AnDson_personal_api/_funcs.py:6-10 | the text of any year 0..9999 and month 1..12 is an accepted month string |
| Formats.MonthStringCharacterization | AnDson_personal_api/_funcs.py:4-14 | a string is accepted exactly when it is `dddd-dd` with the month in 1..12 (both directions) |
| Formats.MonthOutOfRangeRejected | AnDson_personal_api/_funcs.py:8-12 | month fields 00 and 13..99 are rejected even when the shape matches |
| Formats.DateTextAccepted | AnDson_personal_api/_funcs.py:18-25 | the text of any year, month 1..12 and day 1..31 is an accepted date string |
| Formats.DateStringCharacterization | AnDson_personal_api/_funcs.py:16-31 | a string is accepted exactly when it is `dddd-dd-dd` with the month in 1..12 and the day in 1..31 (both directions) |
| Formats.CalendarNotChecked | AnDson_personal_api/_funcs.py:24-25 | "2023-02-31" is accepted: days are only range-checked |
| Formats.DatePrefixIsMonth | AnDson_personal_api/_funcs.py:18-23 | the first seven characters of an accepted date form an accepted month |
| Records.Dedup | AnDson_personal_api/database.py:102 | `set(aliases)`: duplicate-free, same members, never longer |
| Records.RemoveFirst | AnDson_personal_api/anime.py:120 | `list.remove`: one element shorter, exactly one occurrence of x gone |
| Records.RemoveFirstOfDistinct | AnDson_personal_api/anime.py:119-121 | removing a listed alias keeps the aliases duplicate-free and drops exactly that name |
| Records.AddOnce | AnDson_personal_api/view.py:140-142 | add-if-absent: TypeError on a None list, unchanged when present, otherwise old list as prefix plus x |
| Records.RemoveOnce | AnDson_personal_api/view.py:151 | `remove` on a stored list: AttributeError on None, ValueError when absent, otherwise one x fewer |
| Records.RemoveOnceUndoesAddOnce | AnDson_personal_api/view.py:140-151 | removing an episode that was just added gives the list back |
| Records.AddOnceKeepsDistinct | AnDson_personal_api/anime.py:147-149 | add-if-absent keeps a duplicate-free list duplicate-free |
| Records.IndexedNamesDisjoint | AnDson_personal_api/database.py:103-112 | under the catalog invariant no name belongs to two live entities |
| Records.IndexDetermined | AnDson_personal_api/database.py:17-27 | two catalogs indexing the same live entities are equal, so the maintained catalog is the rebuilt one |
| Records.ResolveAnime | AnDson_personal_api/anime.py:24-26 | an anime handle resolves exactly when its id is in the record map, otherwise AnimeRemoved |
| Records.ResolveView | AnDson_personal_api/view.py:27-31 | a view handle resolves exactly when its anime and view ids are live, otherwise ViewRemoved |
| Records.ResolveReview | AnDson_personal_api/review.py:27-33 | a review handle resolves exactly when all three ids are live, otherwise ReviewRemoved |
| Records.RemovedAnimeOrphansDescendants | AnDson_personal_api/anime.py:173-181 | once an anime is gone, no view or review handle under it resolves |
| Records.UnlistedNameIsFree | AnDson_personal_api/database.py:139-142 | a name missing from a valid catalog is the title or alias of no anime |
| Records.EmptyStoreValid | AnDson_personal_api/database.py:151-157 | an empty store is valid whatever the counter, so clearing keeps the invariant |
| Records.StoreValidInsertAnime | AnDson_personal_api/database.py:116-129 | storing a record under counter+1 and registering its free names keeps the store valid |
| Records.OwnNamesListed | AnDson_personal_api/anime.py:40-43 | every title and alias of a live anime is a catalog key pointing to it |
| Records.StoreValidReplaceNames | AnDson_personal_api/anime.py:58-60 | replacing an anime's names by free or own names, with the catalog re-pointed, keeps the store valid |
| Records.StoreValidRemoveAnime | AnDson_personal_api/anime.py:177-181 | dropping an anime with all its names keeps the catalog equal to the index of the rest |
| Records.ViewValidRenameReview | AnDson_personal_api/review.py:69-71 | renaming a review to a free title, catalog key moved, keeps the view valid |
| Records.ViewValidInsertReview | AnDson_personal_api/view.py:276-278 | a valid review with a free title stored under counter+1 keeps the view valid |
| Records.ViewValidRemoveReview | AnDson_personal_api/review.py:161-163 | dropping a review and its title keeps the view valid |
| Records.AnimeValidRenameView | AnDson_personal_api/view.py:65-67 | renaming a view to a free title, catalog key moved, keeps the anime valid |
| Records.AnimeValidRemoveView | AnDson_personal_api/view.py:316-318 | dropping a view and its title keeps the anime valid |
| Store.VersionCheck | AnDson_personal_api/database.py:10-15 | accepted exactly for edition "AnDson Personal", version[0] = 1, version[1] ≤ 0, version[2] ≤ 0; a wrong edition is WrongDatabase; IndexError exactly when the list ends before the first failing component (`[2]` is WrongDatabase, `[1]` is IndexError) |
| Store.NewDocumentPassesVersionCheck | AnDson_personal_api/database.py:49-54 | the document a new database starts with passes the version check |
| Store.NameCatalogOf | AnDson_personal_api/database.py:17-27 | every key is a title or alias of the anime it maps to; every title and alias is a key; with disjoint names the result is exactly the index |
| Store.Database.constructor | AnDson_personal_api/database.py:45-58 | a new database is valid, with no animes, an empty catalog and counter 0 |
| Store.NamesFree | AnDson_personal_api/database.py:106-112 | true exactly when the title and every alias are absent from the catalog |
| Store.RegisterAll | AnDson_personal_api/database.py:127-129 | every given name maps to the id; other entries are kept |
| Store.UnregisterAll | AnDson_personal_api/anime.py:90-91 | exactly the given names leave the catalog; the same pop loop serves `destory` at anime.py:178-180 |
| Store.SameAnime | AnDson_personal_api/anime.py:29-34 | handles are equal exactly when database and id agree |
| Store.Database.CreateAnime | AnDson_personal_api/database.py:80-132 | rejected (RepeatedAnimeTitle, no change) exactly when the title is an alias or the title or an alias is already listed; otherwise counter+1, the record stored under it, earlier ids smaller, catalog gains title and aliases |
| Store.AnimeHandleAsWritten | AnDson_personal_api/anime.py:18-22 | as written, building a handle raises KeyError for every id, live or not (see Findings) |
| Store.CreateAsWrittenCommits | AnDson_personal_api/database.py:123-132 | what the as-written create leaves behind: the record under a fresh id, a valid store, and the title taken, so repeating the call is rejected |
| Store.Database.CreateAnimeAsWritten | AnDson_personal_api/database.py:80-132 | as written: the same rejections with no change; otherwise the record is stored, its names registered and the counter raised, and then KeyError instead of a handle |
| Store.Database.GetAnimeAsWritten | AnDson_personal_api/database.py:134-142 | as written: KeyError exactly when some anime carries the name, otherwise None |
| Store.Database.GetAllAnimesAsWritten | AnDson_personal_api/database.py:144-149 | as written: KeyError exactly when the store holds an anime, otherwise the empty tuple |
| Store.Database.GetAnime | AnDson_personal_api/database.py:134-142 | a handle on a live anime carrying the name, or None exactly when no anime carries it |
| Store.Database.GetAllAnimes | AnDson_personal_api/database.py:144-149 | one live handle per live anime, in increasing id order |
| Store.Database.ClearAnime | AnDson_personal_api/database.py:151-157 | animes and catalog empty, counter kept, store valid |
| Animes.EveryAnimeRemovedAsWritten | AnDson_personal_api/anime.py:24-26 | the existence check as written fails for every id (see Findings) |
| Animes.GetTitle | AnDson_personal_api/anime.py:40-43 | AnimeRemoved when stale; otherwise a catalog key pointing to this anime and not one of its aliases |
| Animes.GetAliases | AnDson_personal_api/anime.py:63-66 | AnimeRemoved when stale; otherwise the stored aliases in stored order, which are duplicate-free, exclude the title and are each listed under this anime |
| Animes.GetTags | AnDson_personal_api/anime.py:124-127 | AnimeRemoved when stale; otherwise the stored tags |
| Animes.SetTitle | AnDson_personal_api/anime.py:45-60 | stale: AnimeRemoved; same title: no-op; any listed name, own aliases included: RepeatedAnimeTitle, no change; else old key out, new key to this id, record renamed |
| Animes.AliasesAvailable | AnDson_personal_api/anime.py:82-87 | true exactly when every new alias is unlisted or already one of the anime's aliases |
| Animes.SetAliases | AnDson_personal_api/anime.py:68-93 | rejects the title among the aliases and a listed alias that is not an old alias; otherwise the old alias keys are replaced by the deduplicated new ones |
| Animes.AddAlias | AnDson_personal_api/anime.py:96-111 | own alias: no-op; any other listed name: RepeatedAnimeTitle; else appended and listed under this id |
| Animes.RemoveAlias | AnDson_personal_api/anime.py:113-121 | an alias the anime lacks: ValueError, no change; else removed from the list and the catalog |
| Animes.SetTags | AnDson_personal_api/anime.py:129-137 | stores the tags on a live anime; on a removed anime succeeds without changing the store |
| Animes.AddTag | AnDson_personal_api/anime.py:139-149 | a present tag: no-op; else appended at the end |
| Animes.RemoveTag | AnDson_personal_api/anime.py:151-158 | an absent tag: ValueError, no change; else the first occurrence removed |
| Animes.Destroy | AnDson_personal_api/anime.py:173-181 | the record and exactly its names leave the store, which stays valid |
| Reviews.SameReview | AnDson_personal_api/review.py:36-45 | handles are equal exactly when database and the three ids agree |
| Reviews.GetTitle | AnDson_personal_api/review.py:51-54 | ReviewRemoved when stale; otherwise the key the view's catalog lists for this review |
| Reviews.GetItem | AnDson_personal_api/review.py:74-77 | ReviewRemoved when stale; otherwise the stored item |
| Reviews.GetEpisodeRange | AnDson_personal_api/review.py:88-91 | ReviewRemoved when stale, TypeError when no range is stored, otherwise the range |
| Reviews.GetRanking | AnDson_personal_api/review.py:127-130 | ReviewRemoved when stale; otherwise the stored ranking, always within 0..10 |
| Reviews.GetComment | AnDson_personal_api/review.py:143-146 | ReviewRemoved when stale; otherwise the stored comment |
| Reviews.SetTitle | AnDson_personal_api/review.py:56-71 | same title: no-op; a title of the view's catalog: RepeatedReviewTitle, no change; else catalog key moved and record renamed |
| Reviews.SetItem | AnDson_personal_api/review.py:79-85 | stores the item verbatim on a live review; the getter returns it |
| Reviews.SetEpisodeRange | AnDson_personal_api/review.py:93-101 | stores the range on a live review; on a removed one succeeds without changing the store |
| Reviews.EpisodeRangeAdd | AnDson_personal_api/review.py:103-115 | the stored range becomes its add-if-absent update; TypeError on None |
| Reviews.EpisodeRangeRemove | AnDson_personal_api/review.py:117-124 | the stored range loses the episode; AttributeError on None, ValueError when absent |
| Reviews.SetRanking | AnDson_personal_api/review.py:132-140 | a ranking outside 0..10: NotAvailableRanking, no change; else stored |
| Reviews.SetComment | AnDson_personal_api/review.py:148-154 | stores the comment verbatim on a live review; the getter returns it |
| Reviews.Destroy | AnDson_personal_api/review.py:157-163 | the review and its title leave the view; the handle is stale afterwards |
| Reviews.DestroyAsWritten | AnDson_personal_api/review.py:157-163 | as written: the title leaves the catalog, then TypeError; the review stays |
| Reviews.DestroyAsWrittenBreaksView | AnDson_personal_api/review.py:162-163 | the state left by the as-written destroy violates the view invariant |
| Views.SameView | AnDson_personal_api/view.py:34-41 | handles are equal exactly when database and both ids agree |
| Views.GetTitle | AnDson_personal_api/view.py:47-50 | ViewRemoved when stale; otherwise the key the anime's view catalog lists for this view |
| Views.GetIsNew | AnDson_personal_api/view.py:70-73 | ViewRemoved when stale; otherwise the stored flag |
| Views.GetTimesView | AnDson_personal_api/view.py:84-87 | ViewRemoved when stale; otherwise the stored count |
| Views.GetSource | AnDson_personal_api/view.py:98-101 | ViewRemoved when stale; otherwise the stored source |
| Views.GetEpisodeRange | AnDson_personal_api/view.py:112-115 | ViewRemoved when stale, TypeError when no range is stored, otherwise the range |
| Views.GetDuration | AnDson_personal_api/view.py:154-157 | ViewRemoved when stale, TypeError when none stored, otherwise months that all pass the month check |
| Views.GetLastEpisodeDate | AnDson_personal_api/view.py:201-204 | ViewRemoved when stale; a stored date always passes the date check |
| Views.SetTitle | AnDson_personal_api/view.py:52-67 | same title: no-op; a title of the anime's view catalog: RepeatedViewTitle, no change; else catalog key moved and record renamed |
| Views.SetIsNew | AnDson_personal_api/view.py:75-81 | stores the flag or None; the getter returns it |
| Views.SetTimesView | AnDson_personal_api/view.py:89-95 | stores the count or None; the getter returns it |
| Views.SetSource | AnDson_personal_api/view.py:103-109 | stores the source or None; the getter returns it |
| Views.SetEpisodeRange | AnDson_personal_api/view.py:117-128 | stores the range or None; the getter returns a stored range |
| Views.EpisodeRangeAdd | AnDson_personal_api/view.py:130-142 | the stored range becomes its add-if-absent update; TypeError on None |
| Views.EpisodeRangeRemove | AnDson_personal_api/view.py:144-151 | the stored range loses the episode; AttributeError on None, ValueError when absent |
| Views.CheckMonths | AnDson_personal_api/view.py:165-169 | true exactly when every entry passes the month check |
| Views.SetDuration | AnDson_personal_api/view.py:159-172 | a list with any non-month entry: TypeError, no change; else stored in order (or None) |
| Views.DurationAdd | AnDson_personal_api/view.py:174-189 | a non-month: StringFormat; None stored: TypeError; present: no-op; else appended |
| Views.DurationRemove | AnDson_personal_api/view.py:191-198 | the stored duration loses the month; AttributeError on None, ValueError when absent |
| Views.RemovePreservesMonths | AnDson_personal_api/view.py:198 | removing from a list of months leaves a list of months |
| Views.SetLastEpisodeDate | AnDson_personal_api/view.py:206-214 | a non-date string: StringFormat, no change; else the date or None stored |
| Views.AddReview | AnDson_personal_api/view.py:228-281 | bad ranking: NotAvailableRanking; listed title: RepeatedReviewTitle, no change; else counter+1, record stored under it, earlier ids smaller, title listed, live handle returned |
| Views.GetReview | AnDson_personal_api/view.py:283-293 | a live handle on the review with that title, or None exactly when no review has it |
| Views.GetAllReviews | AnDson_personal_api/view.py:295-301 | one live handle per stored review, in increasing id order |
| Views.ClearReviews | AnDson_personal_api/view.py:303-309 | reviews and review catalog empty, counter kept; every title lookup then gives None |
| Views.Destroy | AnDson_personal_api/view.py:312-318 | the view and its title leave the anime; the view and every review handle under it are stale |
| Views.DestroyAsWritten | AnDson_personal_api/view.py:312-318 | as written: the title leaves the catalog, then TypeError; the view stays |
| Views.DestroyAsWrittenBreaksAnime | AnDson_personal_api/view.py:317-318 | the state left by the as-written destroy violates the anime invariant |

## Left out

- File and JSON I/O: loading, saving and the file-path branch of `Database()` are not modelled. The load path amounts to `Store.VersionCheck` followed by `Store.NameCatalogOf`. JSON's string keys for ids are not modelled either.
- Several processes sharing one file: the code does nothing to coordinate them, so there is nothing to model.
- `__hash__`: it hashes Python object identities. Handle equality is modelled on the database and the id chain.
- Cached record references: handles are modelled as id chains that resolve on every access. So the model does not capture a write through a stale handle's cached dict, except for the two setters that skip the existence check, where the write is modelled as landing in a detached record.
- Per-handle catalogs: the review catalog that each View handle rebuilds is modelled as part of the view record. The view catalog, which the Anime class never defines although views use it, is modelled as part of the anime record. Two handles on the same view can therefore never disagree.
- `isinstance` checks and their TypeErrors: Dafny's static types take their place.
- Regular-expression details: `\d` also matches non-ASCII digits, and `$` accepts a trailing newline. The validators are modelled over ASCII digits with no newline.
- The order of Python's `set(...)`: `Records.Dedup` keeps first occurrences in order. Only the members are promised.
- The view and review exception classes do not exist in exceptions.py, so view.py and review.py cannot be imported as written. The model assumes they exist.
- There is no operation that creates or looks up a view, because the source has none. View handles are taken as given.
- Removing an absent alias, tag, episode or month raises ValueError in the code (`list.remove`). The docstrings promise a no-op. The model follows the code.
- Renaming an anime to one of its own aliases is rejected by the code, although a name owned by the same anime could be allowed. The model follows the code.
- A view or review handle whose anime is gone reports ViewRemoved or ReviewRemoved, not the first missing level. The model follows the code.
- Animes.GetAliases, Views.GetDuration and Views.GetEpisodeRange return sequences where the source returns tuples.

## Findings

| source | as written | input that shows it | evidently intended | confidence | as-written member | corrected member |
|---|---|---|---|---|---|---|
| AnDson_personal_api/anime.py:22-25 | the handle constructor reads `_raw_dict["animes"][id]` and the existence check looks there too, but that section only holds the counter and the record map; `destory` pops the same wrong section at line 181 | `create_anime` with free names: it raises the counter, stores the record and registers the title and aliases (database.py:123-129), then raises KeyError at anime.py:22 when it builds the handle at database.py:132; `get_anime` on a listed name and `get_all_animes` on a non-empty store raise KeyError the same way. Line 181 would also raise KeyError after the catalog is purged, though the existence check at line 177 already raises AnimeRemoved | look the id up in `_raw_dict["animes"]["_anime_objects"]`, as database.py:124 and view.py:28 do | high, not executed | Store.Database.CreateAnimeAsWritten | Store.Database.CreateAnime |
| AnDson_personal_api/view.py:317-318 | pops the view title from the anime's catalog, then subscripts the Anime handle, which raises TypeError. As written, line 317 raises AttributeError first, because Anime defines no `_view_title_catalog`; the pop-then-TypeError sequence happens once the view catalog this model keeps with the anime record is in place | `destroy()` on any live view: the view stays stored with no catalog entry | pop the view id from the anime's view map as well | high, not executed | Views.DestroyAsWritten | Views.Destroy |
| AnDson_personal_api/review.py:162-163 | pops the review title from the view's catalog, then subscripts the View handle, which raises TypeError | `destroy()` on any live review: the review stays stored with no catalog entry | pop the review id from the view's review map as well | high, not executed | Reviews.DestroyAsWritten | Reviews.Destroy |
