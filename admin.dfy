/** The admin site's bulk actions and overridden hooks.  A bulk action is
    `queryset.update(...)`: one SQL UPDATE over the selected rows that
    calls no `save()` and so fires no signal. */
module Admin {
  import opened Results
  import opened Models
  import opened Store

  // ---------------------------------------------------------------------
  // CustomUserAdmin

  /** `make_representative`: returns the number of rows updated. */
  method MakeRepresentative(db: Database, selected: set<nat>) returns (updated: nat)
    requires db.Valid()
    modifies db`users
    ensures db.Valid()
    ensures updated == |selected * old(db.users).Keys|
    ensures db.users == UpdateWhere(old(db.users), selected, Promoted)
  {
    updated := |selected * db.users.Keys|;
    db.SetUsers(UpdateWhere(db.users, selected, Promoted));
  }

  /** `remove_representative`. */
  method RemoveRepresentative(db: Database, selected: set<nat>) returns (updated: nat)
    requires db.Valid()
    modifies db`users
    ensures db.Valid()
    ensures updated == |selected * old(db.users).Keys|
    ensures db.users == UpdateWhere(old(db.users), selected, Demoted)
  {
    updated := |selected * db.users.Keys|;
    db.SetUsers(UpdateWhere(db.users, selected, Demoted));
  }

  /** After `make_representative`, every selected user is a representative
      and nothing else about any user changed. */
  lemma MakeRepresentativeEffect(users: map<nat, User>, selected: set<nat>)
    ensures var after := UpdateWhere(users, selected, Promoted);
      forall k :: k in users ==>
        && (k in selected ==> after[k].isRepresentative && after[k].userType == Representative)
        && after[k].(isRepresentative := users[k].isRepresentative, userType := users[k].userType) == users[k]
  {
  }

  /** Either action repeated does nothing more, and removing after making
      representatives is the same as removing alone. */
  lemma RepresentativeActionsCompose(users: map<nat, User>, selected: set<nat>)
    ensures UpdateWhere(UpdateWhere(users, selected, Promoted), selected, Promoted) == UpdateWhere(users, selected, Promoted)
    ensures UpdateWhere(UpdateWhere(users, selected, Demoted), selected, Demoted) == UpdateWhere(users, selected, Demoted)
    ensures UpdateWhere(UpdateWhere(users, selected, Promoted), selected, Demoted) == UpdateWhere(users, selected, Demoted)
  {
    UpdateWhereIdempotent(users, selected, Promoted);
    UpdateWhereIdempotent(users, selected, Demoted);
    UpdateWhereOverwritten(users, selected, Promoted, Demoted);
  }

  // ---------------------------------------------------------------------
  // CategoryAdmin

  const DUPLICATE_CATEGORY: string := "Category with this Name already exists."

  /** `save_model`: the signed-in staff user becomes the creator when the
      form leaves `created_by` empty. */
  function WithCreator(c: Category, user: nat): (r: Category)
    ensures r.createdBy.Some?
    ensures c.createdBy.Some? ==> r == c
    ensures c.createdBy.None? ==> r == c.(createdBy := Some(user))
  {
    if c.createdBy.None? then c.(createdBy := Some(user)) else c
  }

  const REQUIRED: string := "This field is required."

  /** The category form's errors, in the order the form records them: the
      required `created_by` (a non-blank foreign key) while the fields are
      cleaned, then the unique check on `name`. */
  function CategoryFormErrors(categories: map<nat, Category>, id: Option<nat>, c: Category): (errs: seq<FieldError>)
    ensures FieldError("created_by", REQUIRED) in errs <==> c.createdBy.None?
    ensures FieldError("name", DUPLICATE_CATEGORY) in errs <==> NameTakenByOther(categories, c.name, id)
    ensures errs == [] <==> c.createdBy.Some? && !NameTakenByOther(categories, c.name, id)
  {
    (if c.createdBy.None? then [FieldError("created_by", REQUIRED)] else [])
    + (if NameTakenByOther(categories, c.name, id) then [FieldError("name", DUPLICATE_CATEGORY)] else [])
  }

  /** The admin add (`id` None) or change form for a category.  The form
      refuses an empty creator before `save_model` runs, so the creator
      `save_model` would fill in is never needed and the row is stored as
      the form gives it. */
  method SaveCategory(db: Database, user: nat, id: Option<nat>, c: Category) returns (r: Result<nat>)
    requires db.Valid()
    modifies db`categories, db`nextCategoryId
    ensures db.Valid()
    ensures id.Some? && id.value !in old(db.categories) ==> r == Err(NotFound)
    ensures (id.None? || id.value in old(db.categories)) && CategoryFormErrors(old(db.categories), id, c) != [] ==>
      r == Err(ValidationError(CategoryFormErrors(old(db.categories), id, c)))
    ensures r.Ok? <==> (id.None? || id.value in old(db.categories)) && c.createdBy.Some?
                       && !NameTakenByOther(old(db.categories), c.name, id)
    ensures r.Err? ==> db.categories == old(db.categories) && db.nextCategoryId == old(db.nextCategoryId)
    ensures r.Ok? ==>
      && (if id.Some? then r.value == id.value else r.value !in old(db.categories))
      && db.categories == old(db.categories)[r.value := c]
  {
    if id.Some? && id.value !in db.categories {
      return Err(NotFound);
    }
    var errs := CategoryFormErrors(db.categories, id, c);
    if errs != [] {
      return Err(ValidationError(errs));
    }
    var row := WithCreator(c, user);
    if id.Some? {
      db.SaveCategory(id.value, row);
      r := Ok(id.value);
    } else {
      var k := db.InsertCategory(row);
      r := Ok(k);
    }
  }

  // ---------------------------------------------------------------------
  // PhotoAdmin and DocumentAdmin

  /** `approve_photos`. */
  method ApprovePhotos(db: Database, selected: set<nat>) returns (updated: nat)
    requires db.Valid()
    modifies db`photos
    ensures db.Valid()
    ensures updated == |selected * old(db.photos).Keys|
    ensures db.photos == UpdateWhere(old(db.photos), selected, ApprovePhoto)
  {
    updated := |selected * db.photos.Keys|;
    db.SetPhotos(UpdateWhere(db.photos, selected, ApprovePhoto));
  }

  /** `feature_photos`: only the flag; no FeaturedPhoto row is created,
      which the frame (the featured table is not modified) shows. */
  method FeaturePhotos(db: Database, selected: set<nat>) returns (updated: nat)
    requires db.Valid()
    modifies db`photos
    ensures db.Valid()
    ensures updated == |selected * old(db.photos).Keys|
    ensures db.photos == UpdateWhere(old(db.photos), selected, FeaturePhoto)
  {
    updated := |selected * db.photos.Keys|;
    db.SetPhotos(UpdateWhere(db.photos, selected, FeaturePhoto));
  }

  /** `unfeature_photos`: the rows' FeaturedPhoto entries stay active. */
  method UnfeaturePhotos(db: Database, selected: set<nat>) returns (updated: nat)
    requires db.Valid()
    modifies db`photos
    ensures db.Valid()
    ensures updated == |selected * old(db.photos).Keys|
    ensures db.photos == UpdateWhere(old(db.photos), selected, UnfeaturePhoto)
  {
    updated := |selected * db.photos.Keys|;
    db.SetPhotos(UpdateWhere(db.photos, selected, UnfeaturePhoto));
  }

  /** Because the bulk update skips the post_save receiver, a photo that
      had an active FeaturedPhoto row keeps it after being unfeatured. */
  lemma UnfeatureKeepsActiveRows(photos: map<nat, Photo>, featured: map<nat, FeaturedPhoto>, selected: set<nat>, p: nat)
    requires p in photos && p in selected && HasActiveRow(featured, p)
    ensures var after := UpdateWhere(photos, selected, UnfeaturePhoto);
      !after[p].isFeatured && HasActiveRow(featured, p)
  {
  }

  /** `approve_documents`. */
  method ApproveDocuments(db: Database, selected: set<nat>) returns (updated: nat)
    requires db.Valid() && db.FilesAllowed()
    modifies db`documents
    ensures db.Valid() && db.FilesAllowed()
    ensures updated == |selected * old(db.documents).Keys|
    ensures db.documents == UpdateWhere(old(db.documents), selected, ApproveDocument)
  {
    updated := |selected * db.documents.Keys|;
    db.SetDocuments(UpdateWhere(db.documents, selected, ApproveDocument));
  }

  // ---------------------------------------------------------------------
  // CommentAdmin

  const PREVIEW_LENGTH := 50

  /** `content_preview`: the first 50 characters and an ellipsis when the
      comment is longer, else the whole comment. */
  function ContentPreview(content: string): (r: string)
    ensures |content| <= PREVIEW_LENGTH ==> r == content
    ensures |content| > PREVIEW_LENGTH ==> |r| == PREVIEW_LENGTH + 3 && r[..PREVIEW_LENGTH] == content[..PREVIEW_LENGTH]
    ensures |content| > PREVIEW_LENGTH ==> r[PREVIEW_LENGTH..] == "..."
  {
    if |content| > PREVIEW_LENGTH then content[..PREVIEW_LENGTH] + "..." else content
  }

  /** A preview is never longer than 53 characters, and previewing a
      preview changes nothing. */
  lemma ContentPreviewStable(content: string)
    ensures |ContentPreview(content)| <= PREVIEW_LENGTH + 3
    ensures ContentPreview(ContentPreview(content)) == ContentPreview(content)
  {
    var r := ContentPreview(content);
    if |content| > PREVIEW_LENGTH {
      assert r[..PREVIEW_LENGTH] + "..." == r;
    }
  }

  // ---------------------------------------------------------------------
  // RepresentativeRequestAdmin

  /** The review as an assignment to a selection of requests. */
  function ReviewAs(status: RequestStatus, reviewer: nat): RepresentativeRequest -> RepresentativeRequest
  {
    (q: RepresentativeRequest) => Reviewed(q, status, reviewer)
  }

  /** The users of the selected requests. */
  function Requesters(requests: map<nat, RepresentativeRequest>, selected: set<nat>): set<nat>
  {
    set k | k in selected && k in requests :: requests[k].user
  }

  /** The body of the `approve_requests` loop for one request: save the
      request as approved, then its user as promoted.  Stated against the
      table states before the loop and the requests handled so far. */
  method ApproveOne(db: Database, reviewer: nat, id: nat, ghost requests0: map<nat, RepresentativeRequest>,
                    ghost users0: map<nat, User>, ghost done: set<nat>)
    requires db.Valid() && id in requests0 && id !in done
    requires db.requests == UpdateWhere(requests0, done, ReviewAs(Approved, reviewer))
    requires db.users == UpdateWhere(users0, Requesters(requests0, done), Promoted)
    modifies db`requests, db`users
    ensures db.Valid()
    ensures db.requests == UpdateWhere(requests0, done + {id}, ReviewAs(Approved, reviewer))
    ensures db.users == UpdateWhere(users0, Requesters(requests0, done + {id}), Promoted)
  {
    var q := db.requests[id];
    UpdateWhereAddOne(requests0, done, id, ReviewAs(Approved, reviewer));
    RequestersStep(requests0, done, id);
    UpdateWhereAddOne(users0, Requesters(requests0, done), q.user, Promoted);
    db.SaveRequest(id, ReviewAs(Approved, reviewer)(q));
    db.SaveUser(q.user, Promoted(db.users[q.user]));
  }

  /** `approve_requests`: one save of each selected request, then one save
      of its user, in the queryset's (unspecified) order.  Returns the
      count reported to the admin. */
  method ApproveRequests(db: Database, reviewer: nat, selected: set<nat>) returns (count: nat)
    requires db.Valid()
    modifies db`requests, db`users
    ensures db.Valid()
    ensures count == |selected * old(db.requests).Keys|
    ensures db.requests == UpdateWhere(old(db.requests), selected, ReviewAs(Approved, reviewer))
    ensures db.users == UpdateWhere(old(db.users), Requesters(old(db.requests), selected), Promoted)
  {
    count := |selected * db.requests.Keys|;
    var todo := selected * db.requests.Keys;
    ghost var done: set<nat> := {};
    ghost var requests0, users0 := db.requests, db.users;
    ghost var all := selected * requests0.Keys;
    UpdateWhereNothing(requests0, ReviewAs(Approved, reviewer));
    UpdateWhereNothing(users0, Promoted);
    assert Requesters(requests0, {}) == {};
    while todo != {}
      invariant todo <= all && done == all - todo
      invariant db.Valid()
      invariant db.requests == UpdateWhere(requests0, done, ReviewAs(Approved, reviewer))
      invariant db.users == UpdateWhere(users0, Requesters(requests0, done), Promoted)
      decreases |todo|
    {
      var id :| id in todo;
      TakeOne(all, todo, done, id);
      ghost var before := done;
      todo := todo - {id};
      done := done + {id};
      ApproveOne(db, reviewer, id, requests0, users0, before);
    }
    TakeOne(all, todo, done, 0);
    SelectionWithinTable(requests0, selected, ReviewAs(Approved, reviewer));
    RequestersWithinTable(requests0, selected);
  }

  lemma RequestersWithinTable(requests: map<nat, RepresentativeRequest>, selected: set<nat>)
    ensures Requesters(requests, selected * requests.Keys) == Requesters(requests, selected)
  {
  }

  lemma RequestersStep(requests: map<nat, RepresentativeRequest>, done: set<nat>, id: nat)
    requires id in requests
    ensures Requesters(requests, done + {id}) == Requesters(requests, done) + {requests[id].user}
  {
  }

  /** `reject_requests`: one UPDATE; the requesters are not touched. */
  method RejectRequests(db: Database, reviewer: nat, selected: set<nat>) returns (updated: nat)
    requires db.Valid()
    modifies db`requests
    ensures db.Valid()
    ensures updated == |selected * old(db.requests).Keys|
    ensures db.requests == UpdateWhere(old(db.requests), selected, ReviewAs(Rejected, reviewer))
  {
    updated := |selected * db.requests.Keys|;
    db.SetRequests(UpdateWhere(db.requests, selected, ReviewAs(Rejected, reviewer)));
  }

  /** Neither admin action on requests stamps `reviewed_at`. */
  lemma ReviewKeepsReviewedAt(requests: map<nat, RepresentativeRequest>, selected: set<nat>, status: RequestStatus, reviewer: nat)
    ensures var after := UpdateWhere(requests, selected, ReviewAs(status, reviewer));
      forall k :: k in requests ==>
        && after[k].reviewedAt == requests[k].reviewedAt
        && (k in selected ==> after[k].status == status && after[k].reviewedBy == Some(reviewer))
  {
  }
}
