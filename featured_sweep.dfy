/** The `update_featured_photos` management command: phase 1 features
    popular photos, phase 2 retires FeaturedPhoto rows older than 30 days
    and unfeatures their photos.  Every write is a `save()`, so the
    post_save receiver runs after each photo write. */
module FeaturedSweep {
  import opened Results
  import opened Models
  import opened Store
  import opened Signals

  /** The bound of phase 1's `likes__gte` lookup.  A lookup on a
      many-to-many field compares the related rows' primary keys, so the
      filter asks for a liking user whose id is at least 10, not for ten
      likes. */
  const LIKER_ID_BOUND: nat := 10

  /** The age after which a FeaturedPhoto row is retired. */
  const DEMOTE_AFTER: int := 30 * DAY

  /** Phase 1's filter. */
  predicate Popular(p: Photo)
  {
    p.isApproved && !p.isFeatured && exists u :: u in p.likes && u >= LIKER_ID_BOUND
  }

  function PopularIds(photos: map<nat, Photo>): set<nat>
  {
    set id | id in photos && Popular(photos[id])
  }

  /** Phase 2's filter. */
  predicate Stale(row: FeaturedPhoto, now: int)
  {
    row.isActive && row.featuredFrom < now - DEMOTE_AFTER
  }

  function StaleRows(rows: map<nat, FeaturedPhoto>, now: int): set<nat>
  {
    set k | k in rows && Stale(rows[k], now)
  }

  predicate HasStaleRow(rows: map<nat, FeaturedPhoto>, p: nat, now: int)
  {
    exists k | k in rows :: rows[k].photo == p && Stale(rows[k], now)
  }

  /** The photos of the given rows. */
  function PhotosOf(rows: map<nat, FeaturedPhoto>, keys: set<nat>): set<nat>
  {
    set k | k in keys && k in rows :: rows[k].photo
  }

  function Deactivate(row: FeaturedPhoto): FeaturedPhoto
  {
    row.(isActive := false)
  }

  /** The photos table after the command: phase 1 features the popular
      photos, then phase 2 unfeatures the photos of the stale rows. */
  function SweptPhotos(photos: map<nat, Photo>, rows: map<nat, FeaturedPhoto>, now: int): map<nat, Photo>
  {
    UpdateWhere(UpdateWhere(photos, PopularIds(photos), FeaturePhoto), PhotosOf(rows, StaleRows(rows, now)), UnfeaturePhoto)
  }

  /** The rows that existed before the command, after it. */
  function SweptRows(rows: map<nat, FeaturedPhoto>, now: int): map<nat, FeaturedPhoto>
  {
    UpdateWhere(rows, StaleRows(rows, now), Deactivate)
  }

  /** A photo ends the command featured exactly when it has no stale row
      and was featured or popular; nothing but the flag changes. */
  lemma SweptPhotosMeaning(photos: map<nat, Photo>, rows: map<nat, FeaturedPhoto>, now: int)
    ensures SweptPhotos(photos, rows, now).Keys == photos.Keys
    ensures forall id :: id in photos ==>
      SweptPhotos(photos, rows, now)[id]
        == photos[id].(isFeatured := !HasStaleRow(rows, id, now) && (photos[id].isFeatured || Popular(photos[id])))
  {
    forall id | id in photos
      ensures id in PhotosOf(rows, StaleRows(rows, now)) <==> HasStaleRow(rows, id, now)
    {
      if HasStaleRow(rows, id, now) {
        var k :| k in rows && rows[k].photo == id && Stale(rows[k], now);
        assert k in StaleRows(rows, now);
      }
    }
  }

  /** Stale rows end inactive, every other row is untouched, and no stale
      row is left. */
  lemma SweptRowsMeaning(rows: map<nat, FeaturedPhoto>, now: int)
    ensures SweptRows(rows, now).Keys == rows.Keys
    ensures forall k :: k in rows ==>
      SweptRows(rows, now)[k] == if Stale(rows[k], now) then rows[k].(isActive := false) else rows[k]
    ensures StaleRows(SweptRows(rows, now), now) == {}
  {
  }

  // ---------------------------------------------------------------------
  // Phase 1

  /** The state after the popular photos in `done` were saved as featured:
      old rows untouched, each new row active from `now` and made for one
      of those photos that had none. */
  ghost predicate Phase1(db: Database, photos0: map<nat, Photo>, rows0: map<nat, FeaturedPhoto>, done: set<nat>, now: int)
    reads db
  {
    && db.Valid()
    && db.photos == UpdateWhere(photos0, done, FeaturePhoto)
    && (forall k :: k in rows0 ==> k in db.featured && db.featured[k] == rows0[k])
    && (forall k :: k in db.featured && k !in rows0 ==>
          && db.featured[k] == FeaturedPhoto(db.featured[k].photo, now, None, true)
          && db.featured[k].photo in done
          && !HasRow(rows0, db.featured[k].photo))
    && (forall p :: p in done ==> HasRow(db.featured, p))
  }

  /** One pass of phase 1's loop: `photo.is_featured = True; photo.save()`. */
  method FeatureOne(db: Database, id: nat, now: int, ghost photos0: map<nat, Photo>,
                    ghost rows0: map<nat, FeaturedPhoto>, ghost done: set<nat>)
    requires Phase1(db, photos0, rows0, done, now) && id in photos0 && id !in done
    modifies db`photos, db`featured, db`nextFeaturedId
    ensures Phase1(db, photos0, rows0, done + {id}, now)
  {
    ghost var before := db.featured;
    UpdateWhereAddOne(photos0, done, id, FeaturePhoto);
    SavePhoto(db, id, FeaturePhoto(db.photos[id]), now);
    forall p | p in done
      ensures HasRow(db.featured, p)
    {
      var k :| k in before && before[k].photo == p;
      assert db.featured[k].photo == p;
    }
  }

  // ---------------------------------------------------------------------
  // Phase 2

  /** The state after the stale rows in `done` were retired. */
  ghost predicate Phase2(db: Database, photos1: map<nat, Photo>, rows1: map<nat, FeaturedPhoto>, done: set<nat>)
    reads db
  {
    && db.Valid()
    && db.featured == UpdateWhere(rows1, done, Deactivate)
    && db.photos == UpdateWhere(photos1, PhotosOf(rows1, done), UnfeaturePhoto)
  }

  /** A photo whose only row is inactive has no row to deactivate. */
  lemma DeactivatedNoop(rows: map<nat, FeaturedPhoto>, k: nat)
    requires OnePerPhoto(rows) && k in rows && !rows[k].isActive
    ensures Deactivated(rows, rows[k].photo) == rows
  {
    var r := Deactivated(rows, rows[k].photo);
    forall j | j in rows
      ensures r[j] == rows[j]
    {
      if j != k && rows[j].photo == rows[k].photo {
        assert false;
      }
    }
  }

  lemma PhotosOfStep(rows: map<nat, FeaturedPhoto>, done: set<nat>, k: nat)
    requires k in rows
    ensures PhotosOf(rows, done + {k}) == PhotosOf(rows, done) + {rows[k].photo}
  {
  }

  /** One pass of phase 2's loop: `featured.is_active = False;
      featured.save(); featured.photo.is_featured = False;
      featured.photo.save()`. */
  method DemoteOne(db: Database, k: nat, now: int, ghost photos1: map<nat, Photo>,
                   ghost rows1: map<nat, FeaturedPhoto>, ghost done: set<nat>)
    requires Phase2(db, photos1, rows1, done) && k in rows1 && k !in done
    requires rows1.Keys == db.featured.Keys && photos1.Keys == db.photos.Keys
    modifies db`photos, db`featured, db`nextFeaturedId
    ensures Phase2(db, photos1, rows1, done + {k})
    ensures rows1.Keys == db.featured.Keys && photos1.Keys == db.photos.Keys
  {
    var row := db.featured[k];
    UpdateWhereAddOne(rows1, done, k, Deactivate);
    db.SaveFeaturedRow(k, Deactivate(row));
    var p := row.photo;
    DeactivatedNoop(db.featured, k);
    PhotosOfStep(rows1, done, k);
    UpdateWhereAddOne(photos1, PhotosOf(rows1, done), p, UnfeaturePhoto);
    SavePhoto(db, p, UnfeaturePhoto(db.photos[p]), now);
  }

  // ---------------------------------------------------------------------
  // The command

  /** Rows phase 1 creates are dated `now`, so phase 2 finds exactly the
      stale rows that existed before the command. */
  lemma Phase1KeepsStaleRows(db: Database, photos0: map<nat, Photo>, rows0: map<nat, FeaturedPhoto>, done: set<nat>, now: int)
    requires Phase1(db, photos0, rows0, done, now)
    ensures StaleRows(db.featured, now) == StaleRows(rows0, now)
    ensures PhotosOf(db.featured, StaleRows(rows0, now)) == PhotosOf(rows0, StaleRows(rows0, now))
  {
  }

  /** Phase 1: every popular photo, as the filter found them when the loop
      began, is saved as featured. */
  method FeaturePopular(db: Database, now: int)
    requires db.Valid()
    modifies db`photos, db`featured, db`nextFeaturedId
    ensures Phase1(db, old(db.photos), old(db.featured), PopularIds(old(db.photos)), now)
  {
    ghost var photos0, rows0 := db.photos, db.featured;
    var todo := PopularIds(db.photos);
    ghost var popular := todo;
    ghost var done: set<nat> := {};
    UpdateWhereNothing(photos0, FeaturePhoto);
    while todo != {}
      invariant todo <= popular && done == popular - todo
      invariant Phase1(db, photos0, rows0, done, now)
      decreases |todo|
    {
      var id :| id in todo;
      TakeOne(popular, todo, done, id);
      ghost var before := done;
      todo := todo - {id};
      done := done + {id};
      FeatureOne(db, id, now, photos0, rows0, before);
    }
    TakeOne(popular, todo, done, 0);
  }

  /** Phase 2: every stale row, as the filter found them when the loop
      began, is retired together with its photo. */
  method RetireStale(db: Database, now: int)
    requires db.Valid()
    modifies db`photos, db`featured, db`nextFeaturedId
    ensures Phase2(db, old(db.photos), old(db.featured), StaleRows(old(db.featured), now))
  {
    ghost var photos1, rows1 := db.photos, db.featured;
    var stale := StaleRows(db.featured, now);
    ghost var retired: set<nat> := {};
    UpdateWhereNothing(rows1, Deactivate);
    assert PhotosOf(rows1, {}) == {};
    UpdateWhereNothing(photos1, UnfeaturePhoto);
    ghost var all := stale;
    while stale != {}
      invariant stale <= all && retired == all - stale
      invariant all <= rows1.Keys
      invariant Phase2(db, photos1, rows1, retired)
      invariant rows1.Keys == db.featured.Keys && photos1.Keys == db.photos.Keys
      decreases |stale|
    {
      var k :| k in stale;
      TakeOne(all, stale, retired, k);
      ghost var before := retired;
      stale := stale - {k};
      retired := retired + {k};
      DemoteOne(db, k, now, photos1, rows1, before);
    }
    TakeOne(all, stale, retired, 0);
  }

  /** `Command.handle` at time `now`. */
  method Handle(db: Database, now: int)
    requires db.Valid()
    modifies db`photos, db`featured, db`nextFeaturedId
    ensures db.Valid()
    ensures db.photos == SweptPhotos(old(db.photos), old(db.featured), now)
    ensures forall k :: k in old(db.featured) ==> k in db.featured && db.featured[k] == SweptRows(old(db.featured), now)[k]
    ensures forall k :: k in db.featured && k !in old(db.featured) ==>
      && db.featured[k] == FeaturedPhoto(db.featured[k].photo, now, None, true)
      && db.featured[k].photo in PopularIds(old(db.photos))
      && !HasRow(old(db.featured), db.featured[k].photo)
    ensures forall p :: p in PopularIds(old(db.photos)) ==> HasRow(db.featured, p)
  {
    ghost var photos0, rows0 := db.photos, db.featured;
    FeaturePopular(db, now);
    Phase1KeepsStaleRows(db, photos0, rows0, PopularIds(photos0), now);
    ghost var photos1, rows1 := db.photos, db.featured;
    RetireStale(db, now);
    Phase2Result(db, photos0, rows0, PopularIds(photos0), photos1, rows1, now);
  }

  /** The two phases together give the swept tables. */
  lemma Phase2Result(db: Database, photos0: map<nat, Photo>, rows0: map<nat, FeaturedPhoto>, popular: set<nat>,
                     photos1: map<nat, Photo>, rows1: map<nat, FeaturedPhoto>, now: int)
    requires popular == PopularIds(photos0)
    requires photos1 == UpdateWhere(photos0, popular, FeaturePhoto)
    requires forall k :: k in rows0 ==> k in rows1 && rows1[k] == rows0[k]
    requires forall k :: k in rows1 && k !in rows0 ==> rows1[k].featuredFrom == now && !HasRow(rows0, rows1[k].photo)
    requires StaleRows(rows1, now) == StaleRows(rows0, now)
    requires PhotosOf(rows1, StaleRows(rows0, now)) == PhotosOf(rows0, StaleRows(rows0, now))
    requires db.featured == UpdateWhere(rows1, StaleRows(rows1, now), Deactivate)
    requires db.photos == UpdateWhere(photos1, PhotosOf(rows1, StaleRows(rows1, now)), UnfeaturePhoto)
    ensures db.photos == SweptPhotos(photos0, rows0, now)
    ensures forall k :: k in rows0 ==> k in db.featured && db.featured[k] == SweptRows(rows0, now)[k]
    ensures forall k :: k in db.featured && k !in rows0 ==> db.featured[k] == rows1[k]
  {
  }

  // ---------------------------------------------------------------------
  // Running the command twice

  /** The command is not idempotent.  A featured photo with a stale row is
      demoted by one run; if it still passes phase 1's filter, the next run
      features it again, but its existing row, now inactive, is neither
      reactivated nor replaced, so it stays featured with no active row. */
  lemma SecondRunRefeatures(photos: map<nat, Photo>, rows: map<nat, FeaturedPhoto>, now: int, later: int, p: nat)
    requires OnePerPhoto(rows) && p in photos && HasStaleRow(rows, p, now)
    requires photos[p].isApproved && exists u :: u in photos[p].likes && u >= LIKER_ID_BOUND
    ensures var photos1, rows1 := SweptPhotos(photos, rows, now), SweptRows(rows, now);
      && !photos1[p].isFeatured
      && p in PopularIds(photos1)
      && HasRow(rows1, p) && !HasActiveRow(rows1, p)
      && SweptPhotos(photos1, rows1, later)[p].isFeatured
      && !HasActiveRow(SweptRows(rows1, later), p)
  {
    SweptPhotosMeaning(photos, rows, now);
    SweptRowsMeaning(rows, now);
    var photos1, rows1 := SweptPhotos(photos, rows, now), SweptRows(rows, now);
    var k :| k in rows && rows[k].photo == p && Stale(rows[k], now);
    assert rows1[k].photo == p;
    assert !HasActiveRow(rows1, p) by {
      forall j | j in rows1 && rows1[j].photo == p
        ensures !rows1[j].isActive
      {
        assert j == k;
      }
    }
    assert !HasStaleRow(rows1, p, later);
    SweptPhotosMeaning(photos1, rows1, later);
    SweptRowsMeaning(rows1, later);
  }
}
