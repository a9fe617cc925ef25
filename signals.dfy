/** The two signal receivers that keep FeaturedPhoto rows in step with
    photos, and the two ORM operations that fire them: `Photo.save()`
    (post_save) and `photo.likes.add/remove` (m2m_changed). */
module Signals {
  import opened Results
  import opened Models
  import opened Store

  /** Likes a photo needs before the m2m receiver features it. */
  const LIKE_THRESHOLD: nat := 10

  datatype M2MAction = PreAdd | PostAdd | PreRemove | PostRemove | PreClear | PostClear

  /** The FeaturedPhoto table after `get_or_create(photo=p, defaults={'is_active': True})`
      with `next` the key the table's sequence would hand out. */
  function WithRowFor(rows: map<nat, FeaturedPhoto>, next: nat, p: nat, now: int): (r: map<nat, FeaturedPhoto>)
    requires next !in rows
    ensures HasRow(r, p)
    ensures forall k :: k in rows ==> k in r && r[k] == rows[k]
    ensures forall k :: k in r && k !in rows ==> k == next && r[k] == FeaturedPhoto(p, now, None, true)
    ensures HasRow(rows, p) <==> r == rows
  {
    if HasRow(rows, p) then rows
    else
      var r := rows[next := FeaturedPhoto(p, now, None, true)];
      assert r[next].photo == p;
      r
  }

  /** Repeating `get_or_create` for the same photo changes nothing more:
      repeated saves never add a second row. */
  lemma WithRowForIdempotent(rows: map<nat, FeaturedPhoto>, next: nat, next': nat, p: nat, now: int, now': int)
    requires next !in rows
    requires next' !in WithRowFor(rows, next, p, now)
    ensures WithRowFor(WithRowFor(rows, next, p, now), next', p, now') == WithRowFor(rows, next, p, now)
  {
  }

  lemma WithRowForKeepsOnePerPhoto(rows: map<nat, FeaturedPhoto>, next: nat, p: nat, now: int)
    requires next !in rows && OnePerPhoto(rows)
    ensures OnePerPhoto(WithRowFor(rows, next, p, now))
  {
    if !HasRow(rows, p) {
      var r := WithRowFor(rows, next, p, now);
      forall a, b | a in r && b in r && a != b
        ensures r[a].photo != r[b].photo
      {
        if a == next {
          assert rows[b].photo != p;
        } else if b == next {
          assert rows[a].photo != p;
        }
      }
    }
  }

  /** The FeaturedPhoto table after `filter(photo=p).update(is_active=False)`. */
  function Deactivated(rows: map<nat, FeaturedPhoto>, p: nat): (r: map<nat, FeaturedPhoto>)
    ensures r.Keys == rows.Keys
    ensures !HasActiveRow(r, p)
    ensures forall k :: k in rows && rows[k].photo != p ==> r[k] == rows[k]
    ensures forall k :: k in rows && rows[k].photo == p ==> r[k] == rows[k].(isActive := false)
  {
    map k | k in rows :: if rows[k].photo == p then rows[k].(isActive := false) else rows[k]
  }

  /** `get_or_create` on the photo's FeaturedPhoto row; `created` is its
      second result. */
  method GetOrCreateFeatured(db: Database, p: nat, now: int) returns (created: bool)
    requires db.Valid() && p in db.photos
    modifies db`featured, db`nextFeaturedId
    ensures db.Valid()
    ensures created <==> !HasRow(old(db.featured), p)
    ensures db.featured == WithRowFor(old(db.featured), old(db.nextFeaturedId), p, now)
    ensures db.nextFeaturedId == if created then old(db.nextFeaturedId) + 1 else old(db.nextFeaturedId)
  {
    created := !HasRow(db.featured, p);
    WithRowForKeepsOnePerPhoto(db.featured, db.nextFeaturedId, p, now);
    if created {
      db.featured := db.featured[db.nextFeaturedId := FeaturedPhoto(p, now, None, true)];
      db.nextFeaturedId := db.nextFeaturedId + 1;
    }
  }

  /** `handle_featured_photo`, the post_save receiver for photos. */
  method HandleFeaturedPhoto(db: Database, p: nat, now: int)
    requires db.Valid() && p in db.photos
    modifies db`featured, db`nextFeaturedId
    ensures db.Valid()
    ensures db.featured == if db.photos[p].isFeatured
                           then WithRowFor(old(db.featured), old(db.nextFeaturedId), p, now)
                           else Deactivated(old(db.featured), p)
    ensures db.nextFeaturedId >= old(db.nextFeaturedId)
  {
    if db.photos[p].isFeatured {
      var _ := GetOrCreateFeatured(db, p, now);
    } else {
      db.featured := Deactivated(db.featured, p);
    }
  }

  /** `photo.save()` for the existing photo `p`: writes every field of the
      in-memory record, then post_save runs `handle_featured_photo`. */
  method SavePhoto(db: Database, p: nat, photo: Photo, now: int)
    requires db.Valid() && p in db.photos
    modifies db`photos, db`featured, db`nextFeaturedId
    ensures db.Valid()
    ensures db.photos == old(db.photos)[p := photo]
    ensures db.featured == if photo.isFeatured
                           then WithRowFor(old(db.featured), old(db.nextFeaturedId), p, now)
                           else Deactivated(old(db.featured), p)
    ensures db.nextFeaturedId >= old(db.nextFeaturedId)
  {
    db.photos := db.photos[p := photo];
    HandleFeaturedPhoto(db, p, now);
  }

  /** `photo.save()` for a photo not yet stored: the row gets the table's
      next key, then post_save runs `handle_featured_photo`. */
  method InsertPhoto(db: Database, photo: Photo, now: int) returns (p: nat)
    requires db.Valid()
    modifies db`photos, db`nextPhotoId, db`featured, db`nextFeaturedId
    ensures db.Valid()
    ensures p !in old(db.photos) && p == old(db.nextPhotoId) && db.nextPhotoId == p + 1
    ensures db.photos == old(db.photos)[p := photo]
    ensures db.featured == if photo.isFeatured
                           then WithRowFor(old(db.featured), old(db.nextFeaturedId), p, now)
                           else old(db.featured)
  {
    p := db.nextPhotoId;
    assert !HasRow(db.featured, p);
    assert Deactivated(db.featured, p) == db.featured;
    db.photos := db.photos[p := photo];
    db.nextPhotoId := db.nextPhotoId + 1;
    HandleFeaturedPhoto(db, p, now);
  }

  /** `update_featured_status`, the m2m_changed receiver on Photo.likes. */
  method UpdateFeaturedStatus(db: Database, p: nat, action: M2MAction, now: int)
    requires db.Valid() && p in db.photos
    modifies db`photos, db`featured, db`nextFeaturedId
    ensures db.Valid()
    ensures var before := old(db.photos)[p];
      if action == PostAdd && TotalLikes(before.likes) >= LIKE_THRESHOLD && !before.isFeatured then
        && db.photos == old(db.photos)[p := before.(isFeatured := true)]
        && db.featured == WithRowFor(old(db.featured), old(db.nextFeaturedId), p, now)
      else
        && db.photos == old(db.photos)
        && db.featured == old(db.featured)
        && db.nextFeaturedId == old(db.nextFeaturedId)
  {
    if action == PostAdd {
      var photo := db.photos[p];
      if TotalLikes(photo.likes) >= LIKE_THRESHOLD && !photo.isFeatured {
        photo := photo.(isFeatured := true);
        SavePhoto(db, p, photo, now);
        var _ := GetOrCreateFeatured(db, p, now);
        WithRowForIdempotent(old(db.featured), old(db.nextFeaturedId), db.nextFeaturedId, p, now, now);
      }
    }
  }

  /** `photo.likes.add(user)`: inserts into the relation and fires
      m2m_changed with pre_add and post_add (never post_save). */
  method AddLike(db: Database, p: nat, user: nat, now: int)
    requires db.Valid() && p in db.photos
    modifies db`photos, db`featured, db`nextFeaturedId
    ensures db.Valid()
    ensures var added := old(db.photos)[p].(likes := old(db.photos)[p].likes + {user});
      if TotalLikes(added.likes) >= LIKE_THRESHOLD && !added.isFeatured then
        && db.photos == old(db.photos)[p := added.(isFeatured := true)]
        && db.featured == WithRowFor(old(db.featured), old(db.nextFeaturedId), p, now)
      else
        && db.photos == old(db.photos)[p := added]
        && db.featured == old(db.featured)
        && db.nextFeaturedId == old(db.nextFeaturedId)
  {
    UpdateFeaturedStatus(db, p, PreAdd, now);
    db.photos := db.photos[p := db.photos[p].(likes := db.photos[p].likes + {user})];
    UpdateFeaturedStatus(db, p, PostAdd, now);
  }

  /** `photo.likes.remove(user)`: the receiver ignores removals. */
  method RemoveLike(db: Database, p: nat, user: nat, now: int)
    requires db.Valid() && p in db.photos
    modifies db`photos, db`featured, db`nextFeaturedId
    ensures db.Valid()
    ensures db.photos == old(db.photos)[p := old(db.photos)[p].(likes := old(db.photos)[p].likes - {user})]
    ensures db.featured == old(db.featured) && db.nextFeaturedId == old(db.nextFeaturedId)
  {
    UpdateFeaturedStatus(db, p, PreRemove, now);
    db.photos := db.photos[p := db.photos[p].(likes := db.photos[p].likes - {user})];
    UpdateFeaturedStatus(db, p, PostRemove, now);
  }
}
