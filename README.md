# UoG Fasil 360 core, modelled in Dafny

This project models the `core` application of UoG Fasil 360, a Django REST
campus portal. Users share photos, rewards and documents. Those three kinds
of record can be liked, and items with enough likes are featured.
Representatives are promoted through a request workflow.

The model replaces the ORM with one `Database` object (`store.dfy`). It holds
one `map` per table, from primary key to record, and the next key of each
table's sequence. `Valid()` collects the schema's constraints:
- keys below the sequence;
- unique email, username and category name;
- one generic `Like` per (user, content type, object);
- one `FeaturedPhoto` row per photo;
- requests point at stored users.

Document files that pass the extension validator are tracked by a separate
predicate, `FilesAllowed()`. Time is an integer number of seconds, passed in
as `now`.

| file | models |
|---|---|
| `results.dfy` | `Option`, `Result` and the API's error kinds |
| `models.dfy` | the record types, the field defaults, `total_likes`, the uniqueness constraints, the file-extension validator |
| `text.dfy` | the `icontains` lookup: ASCII lower-casing and a substring scan, proved equal to a reference definition |
| `store.dfy` | the `Database` class: inserts, saves and bulk `UPDATE`s that keep `Valid()` |
| `signals.dfy` | `Photo.save()` with its post_save receiver; `photo.likes.add/remove` with the m2m_changed receiver |
| `views.dfy` | list visibility, search, the three like toggles, comment and like creation, the request decisions, record creation, registration |
| `featured_sweep.dfy` | the `update_featured_photos` command, phase by phase |
| `admin.dfy` | the admin actions and hooks |
| `permissions.dfy`, `managers.dfy`, `serializers.dfy` | the permission classes, the custom managers, the serializers' rules and computed fields |

Methods change the `Database` in place. Each is stated against a function of
the old state. Examples:
- `UpdateWhere` describes a bulk update.
- `WithRowFor` describes `get_or_create`.
- `Deactivated` describes a filtered update.
- `SweptPhotos` and `SweptRows` describe the whole sweep.

The properties are lemmas about those functions.

Loops over query results walk a `set` of keys and pick each element with
`:|`. The database's iteration order is therefore left open, and each loop
is proved correct for every order.

Several things one might expect of such a portal do not hold in the code.
The model follows the code:
- **Featured does not mean "has an active row".** `get_or_create` never
  reactivates an inactive row. The admin's bulk feature and unfeature actions
  skip post_save. See `Admin.UnfeatureKeepsActiveRows` and
  `FeaturedSweep.SecondRunRefeatures`.
- **The sweep is not idempotent.** A photo demoted in one run comes back in
  the next if it still passes phase 1's filter.
- **The like actions do not check approval.** They use the per-record
  many-to-many `likes` sets, not the generic `Like` table. The photo action
  features an unapproved photo at 10 likes.
- **Phase 1's `likes__gte=10` compares the liking users' primary keys**, not
  a like count. It is modelled literally as "some liker has id ≥ 10".
- **Requests have no state machine.** `approve` and `reject` overwrite
  whatever status the request has. Neither sets `reviewed_at`. Status and
  admin notes are client-writable on creation.
- **A duplicate generic `Like` is an integrity error**, not a silent no-op.
- **Comment creation validates before `perform_create` runs.** The
  serializer's `content_type` field accepts only a content type's key. A key
  written as plain decimal digits therefore never reaches the server-error
  branch of `perform_create`; other spellings are discussed under "Left out".
- **Approving and rejecting requests is not staff-only.** The view set's
  `get_permissions` answers IsAuthenticated for these actions, so the
  IsAdminUser named on them is never consulted. A signed-in user may decide
  any request `get_queryset` shows them, their own included, and approving
  their own makes them a representative (`Views.SelfApprovalPromotes`).
- **The like actions are open to anonymous users.** `get_permissions`
  answers AllowAny for `like`. An anonymous request gets 404 for a missing
  record, and otherwise a server error, because `likes.add` refuses the
  anonymous user before anything is written.
- **Registration compares the email as sent, but stores it normalised.**
  `create_user` lower-cases the part after the last '@'. An address that
  differs from a stored one only in the domain's case passes the unique
  validator and then breaks the unique column (`Views.DomainCaseRegistration`).
- **Field errors are reported together.** Registration reports a taken
  username and a taken email in one response. The admin's category form
  reports a missing creator and a taken name together. Its required
  `created_by` means `save_model` never needs to fill in the creator.

## Model

| member | source | states |
|---|---|---|
| Models.DocumentTypeByName | core/models.py:92-97 | the document-type choice stored under a name, inverse of the stored value on all four types |
| Models.KindByModelName | core/views.py:251 | the content type stored under a model name, inverse of `ModelName` |
| Models.Toggled | core/views.py:132-137 | after a toggle the user is in the likes exactly when they were not before; every other user is unchanged |
| Models.ToggleTwice | core/views.py:132-137 | toggling twice restores the likes set |
| Models.ToggleCount | core/models.py:68-69 | a toggle moves `total_likes` by exactly one: down when the user had liked, up otherwise |
| Models.TotalLikes | core/models.py:68-69 | the count is zero exactly when nobody likes the record |
| Models.InsertLikeKeepsUnique | core/models.py:147-148 | a like row for a (user, type, object) not yet liked keeps the table unique |
| Models.LastIndexOf | core/models.py:102-105 | the position of the last occurrence of a character, or -1, with no later occurrence |
| Models.AllowedSuffixEndsName | core/models.py:104 | an accepted extension is the name's tail after a dot that is not the name's first character |
| Models.SuffixShape | core/models.py:104 | the extension is lower-case, follows a dot that is neither the name's first character nor followed by another dot |
| Models.AllowedExtensionLength | core/models.py:102-105 | an accepted file has an extension of three or four letters |
| Text.OccursImpliesContains | core/views.py:357 | every occurrence by the reference definition is found by the scan |
| Text.ContainsImpliesOccurs | core/views.py:357 | whatever the scan finds is an occurrence |
| Text.ContainsIffOccurs | core/views.py:357 | the substring scan agrees with the reference definition, both directions |
| Text.EmptyQueryMatchesAll | core/views.py:350-357 | an empty query matches every field |
| Text.QueryCaseIrrelevant | core/views.py:357 | lower-casing the query first changes no match |
| Text.ExactMatchIsCaseInsensitiveMatch | core/views.py:357 | a case-sensitive occurrence is also an `icontains` match |
| Store.Database.InsertUser | core/models.py:15 | a new user gets the next key; an email or username already taken is refused by the precondition, and uniqueness is kept |
| Store.Database.InsertCategory | core/models.py:33 | a new category gets the next key and keeps names unique |
| Store.Database.InsertDocument | core/models.py:102-105 | a new document with an allowed file gets the next key and keeps every file allowed |
| Store.Database.InsertLike | core/models.py:147-148 | a new generic like gets the next key and keeps (user, type, object) unique |
| Store.Database.SaveFeaturedRow | core/models.py:172 | saving a FeaturedPhoto row for the same photo keeps one row per photo |
| Store.UpdateWhere | core/admin.py:36 | `queryset.update`: same keys, the selected rows rewritten by the assignment, the others untouched |
| Signals.WithRowFor | core/signals.py:30-33 | `get_or_create`: a row for the photo exists afterwards; an existing row is left exactly as it was; otherwise one new active row dated now |
| Signals.WithRowForIdempotent | core/signals.py:30-33 | repeated `get_or_create` for one photo adds no second row |
| Signals.WithRowForKeepsOnePerPhoto | core/models.py:172 | `get_or_create` keeps one row per photo |
| Signals.Deactivated | core/signals.py:34-36 | every row of the photo becomes inactive and no other row changes |
| Signals.GetOrCreateFeatured | core/signals.py:30-33 | creates a row exactly when the photo had none, and the table becomes `WithRowFor` |
| Signals.HandleFeaturedPhoto | core/signals.py:24-36 | a featured photo gets its row (inactive rows stay inactive); an unfeatured one has all its rows deactivated |
| Signals.SavePhoto | core/signals.py:24-36 | `save()` writes the record, then the post_save receiver's effect on the FeaturedPhoto table |
| Signals.InsertPhoto | core/signals.py:24-36 | a new photo gets the next key; it gets a FeaturedPhoto row only if created featured |
| Signals.UpdateFeaturedStatus | core/signals.py:6-22 | only post_add acts: with ≥ 10 likes on an unfeatured photo it features it and ensures its row; every other case changes nothing |
| Signals.AddLike | core/signals.py:11-22 | `likes.add`: the user joins the likes; the photo is featured with a row if that makes ≥ 10 likes on an unfeatured photo |
| Signals.RemoveLike | core/signals.py:11 | `likes.remove`: the user leaves the likes and featured state is untouched |
| Permissions.IsOwnerOrReadOnly | core/permissions.py:6-19 | safe methods always allowed; an allowed write comes from a signed-in user |
| Permissions.FirstOwnerAttributeDecides | core/permissions.py:12-17 | for writes the first present attribute among uploaded_by, user, awarded_by alone decides |
| Permissions.NoOwnerAttributeDeniesWrites | core/permissions.py:19 | an object with no owner attribute is never writable |
| Permissions.AnonymousOnlyReads | core/permissions.py:6-19 | an anonymous request is allowed exactly the safe methods |
| Permissions.CommentAndCategoryWrites | core/permissions.py:12-19 | a comment is writable exactly by its author; a category by nobody |
| Permissions.AdminOrRepresentativeIsUnion | core/permissions.py:25-35 | IsAdminOrRepresentative holds exactly for representatives and staff |
| Permissions.IsRepresentative | core/permissions.py:21-27 | anonymous users never pass; a signed-in user passes exactly when a representative |
| Permissions.IsAdminOrRepresentative | core/permissions.py:28-35 | passes exactly when IsRepresentative or IsAdminUser does |
| Permissions.IsAdminUser | core/views.py:26 | anonymous users never pass; a signed-in user passes exactly when staff |
| Managers.Featured | core/managers.py:5-6 | exactly the featured and approved photos |
| Managers.ByBatch | core/managers.py:8-9 | exactly the approved photos whose category's batch is the argument, both directions |
| Managers.RecentPhotos | core/managers.py:11-15 | exactly the approved photos created no earlier than `days` days before now |
| Managers.ByType | core/managers.py:18-19 | approved documents of the given stored type |
| Managers.RecentDocuments | core/managers.py:21-25 | exactly the approved documents created no earlier than `days` days before now |
| Managers.RecentMonotone | core/managers.py:11-25 | a longer look-back never selects fewer records |
| Managers.ByTypePartitionsApproved | core/managers.py:18-19 | an approved document is selected by exactly the by_type call for its own type |
| Serializers.ValidateRegistration | core/serializers.py:18-21 | rejected with the password error exactly when the two passwords differ |
| Serializers.NewUser | core/serializers.py:23-26 | the stored account takes the model defaults (student, not representative, not verified, not staff, active), the username as sent and the email normalised |
| Serializers.CreateKeepsRegistrationFields | core/serializers.py:23-26 | a validated registration keeps every field but `password2`, with the email in normal form |
| Serializers.NormalizeEmail | core/serializers.py:25 | `create_user`'s normalisation: the same length, the part up to the last '@' kept, the rest lower-cased; no '@': unchanged |
| Serializers.NormalizeKeepsLastAt | core/serializers.py:25 | normalising leaves the last '@' where it was |
| Serializers.NormalizeEmailIdempotent | core/serializers.py:25 | a normalised address is its own normal form |
| Serializers.DomainCaseCollides | core/models.py:15 | two distinct addresses differing only in the domain's case are stored as the same value |
| Serializers.ValidateLogin | core/serializers.py:32-44 | missing field, then failed credentials, then disabled account, else the user, in that order |
| Serializers.LoginSucceedsIff | core/serializers.py:36-44 | login succeeds exactly with both fields present and an active authenticated account |
| Serializers.UserHasLiked | core/serializers.py:81-85 | false without a signed-in request user; with one, true exactly when that user is in the likes |
| Serializers.UserHasLikedFlipsOnToggle | core/serializers.py:81-85 | a toggle by the request user flips `user_has_liked` |
| Serializers.CommentsCountAfterInsert | core/serializers.py:87-91 | one more comment raises exactly its own target's count, by one |
| Serializers.CommentsOn | core/serializers.py:87-91 | exactly the comments whose content type and object id are the object's |
| Serializers.CommentsCount | core/serializers.py:87-91 | at most the number of comments, and zero exactly when none targets the object |
| Serializers.ImageUrl | core/serializers.py:121-124 | None exactly when the reward has no image, else the storage URL |
| Views.PhotoQueryset | core/views.py:103-122 | for each photo, both directions: listed to anonymous users when approved, to signed-in non-staff when approved or their own, always for staff and other actions; and with a batch, only when its category has that batch |
| Views.DocumentQueryset | core/views.py:204-218 | the same visibility rule for documents, with no batch filter |
| Views.ListVisibilityGrowsWithRole | core/views.py:107-115 | anonymous ⊆ signed-in ⊆ staff for both lists |
| Views.AnonymousBatchListIsByBatch | core/views.py:117-120 | the anonymous batch list is the manager's by_batch |
| Views.FeaturedViewIsManagerFeatured | core/views.py:146-148 | the featured endpoint is the manager's featured set, narrowed to by_batch with a batch |
| Views.FeaturedView | core/views.py:146-148 | the featured endpoint shows only featured, approved photos |
| Views.CommentQueryset | core/views.py:244-259 | both parameters with a known type: exactly the comments on that object; an unknown type: none; otherwise all |
| Views.CommentListMatchesCount | core/views.py:249-255 | an object's comment list is as long as its `comments_count` |
| Views.RequestQueryset | core/views.py:304-307 | staff see every request, others exactly their own |
| Views.SearchShowsOnlyPublicItems | core/views.py:356-377 | search returns no photo or document the anonymous list hides |
| Views.EmptySearchReturnsEverythingPublic | core/views.py:350-377 | an empty query with no category returns every approved photo and document and every reward |
| Views.SearchDocumentTypeFilter | core/views.py:375-376 | a document-type category narrows documents as by_type does; other categories do not |
| Views.SearchPhotoCategoryFilter | core/views.py:360-361 | a non-empty category keeps exactly the matches in the category of that name |
| Views.SearchIgnoresQueryCase | core/views.py:357 | the query's letter case does not change the results |
| Views.SearchFindsVerbatimTitle | core/views.py:356-359 | an approved photo whose title contains the query is found |
| Views.Search | core/views.py:349-379 | the photos are exactly the approved photos matching the query and category, the rewards exactly the rewards matching the query, the documents exactly the approved documents matching the query and type |
| Views.SearchPhotos | core/views.py:356-361 | exactly the approved photos whose title or description contains the query case-insensitively, narrowed to the named category when one is given |
| Views.SearchRewards | core/views.py:365-367 | exactly the rewards whose student name or achievement contains the query |
| Views.SearchDocuments | core/views.py:371-376 | exactly the approved documents whose title or description contains the query case-insensitively, narrowed to the named type when it is a known type |
| Views.TogglePhotoLike | core/views.py:132-137 | remove or add the like; on an add reaching 10 likes the signal features the photo and creates its row |
| Views.ToggleAndFeature | core/views.py:132-144 | the likes toggled, the message and the new count returned, the photo featured (never unfeatured) at ≥ 10 likes, with its row |
| Views.LikePhoto | core/views.py:98-144 | not in the action's queryset: 404 for everyone; anonymous otherwise: a server error with nothing written; a signed-in user: the toggle and featuring above, with no approval check |
| Views.LikeReward | core/views.py:164-189 | 404 for a missing reward; anonymous otherwise: a server error; else the toggle with its message and count, nothing else changed |
| Views.LikeDocument | core/views.py:199-235 | 404 for a missing document; anonymous otherwise: a server error; else the toggle, also on unapproved documents |
| Views.LikeRewardTwice | core/views.py:182-187 | two likes by the same user leave the reward as it was |
| Views.PerformCreateComment | core/views.py:261-285 | unresolved content type: server error; missing object: the "error" validation error; otherwise the comment is stored |
| Views.CreateComment | core/views.py:261-285 | no server error for a decimal key; a key that is not a content type is a field error; a missing object the "error" validation error; otherwise stored |
| Views.CreateLike | core/views.py:287-293 | a second like for the same target is an integrity error; the target's existence is not checked |
| Views.ApproveRequest | core/views.py:299-325 | anonymous: 401; a request outside the caller's queryset: 404; otherwise, whatever the prior status, the request is approved with the caller as reviewer and its user promoted |
| Views.RejectRequest | core/views.py:299-333 | anonymous: 401; outside the caller's queryset: 404; otherwise rejected with the caller as reviewer; the users table is not touched |
| Views.SelfApprovalPromotes | core/views.py:299-323 | a signed-in non-staff user approving their own request becomes a representative, reviewed by themselves |
| Views.OthersCannotApprove | core/views.py:304-307 | a non-staff user approving someone else's request changes nothing |
| Views.CreateRequest | core/views.py:309-310 | the request is stored for the request user, pending and with empty notes unless the client says otherwise |
| Views.NewPhoto | core/serializers.py:93-95 | the uploader is the request user whatever was sent; not featured, not approved, general, no likes by default |
| Views.CreatePhoto | core/views.py:124-125 | an unknown category is refused with DRF's message quoting the key; a new photo gets its FeaturedPhoto row only if created featured |
| Views.CreateReward | core/views.py:164-175 | only staff or representatives create rewards, awarded by themselves |
| Views.CreateDocument | core/views.py:220-221 | a disallowed file extension is refused with the validator's message; documents are approved by default and uploaded by the request user |
| Views.Register | core/views.py:28-44 | a taken username and a taken email reported together, in field order; then a password mismatch; then an email whose normal form is taken is an integrity error; otherwise a new student account |
| Views.RegistrationFieldErrors | core/serializers.py:13-16 | the username error is present exactly when the username is taken, the email error exactly when the email is; with both, username first |
| Views.DomainCaseRegistration | core/serializers.py:23-26 | with "a@example.com" stored, registering "a@EXAMPLE.COM" is refused by the database and stores nothing |
| Admin.MakeRepresentative | core/admin.py:35-38 | exactly the selected users promoted; returns how many rows matched |
| Admin.RemoveRepresentative | core/admin.py:40-43 | exactly the selected users demoted; returns how many rows matched |
| Admin.MakeRepresentativeEffect | core/admin.py:35-37 | selected users are representatives, and nothing else about any user changes |
| Admin.RepresentativeActionsCompose | core/admin.py:35-42 | both actions are idempotent, and removing after making is removing |
| Admin.WithCreator | core/admin.py:52-55 | the creator is set to the admin only when unset |
| Admin.CategoryFormErrors | core/models.py:33-37 | the required-creator error exactly when `created_by` is empty, the duplicate-name error exactly when another row has the name |
| Admin.SaveCategory | core/admin.py:52-55 | add or change a category: a missing row is not found; a missing creator and a name used by another row are reported together; otherwise the row is stored as the form gives it |
| Admin.ApprovePhotos | core/admin.py:78-80 | only `is_approved` of the selected photos set |
| Admin.FeaturePhotos | core/admin.py:83-85 | only `is_featured` of the selected photos set; the FeaturedPhoto table is not touched |
| Admin.UnfeaturePhotos | core/admin.py:88-90 | only `is_featured` of the selected photos cleared; the FeaturedPhoto table is not touched |
| Admin.UnfeatureKeepsActiveRows | core/admin.py:88-90 | an unfeatured photo keeps its active FeaturedPhoto row |
| Admin.ApproveDocuments | core/admin.py:125-127 | only `is_approved` of the selected documents set |
| Admin.ContentPreview | core/admin.py:137-138 | the content itself up to 50 characters, else its first 50 and "..." |
| Admin.ContentPreviewStable | core/admin.py:137-138 | a preview is at most 53 characters and previewing it again changes nothing |
| Admin.ApproveOne | core/admin.py:157-166 | one loop pass: the request saved approved, then its user promoted |
| Admin.ApproveRequests | core/admin.py:156-168 | every selected request approved by the reviewer and every requester promoted, in any order; returns the count |
| Admin.RejectRequests | core/admin.py:171-173 | every selected request rejected by the reviewer; users not touched |
| Admin.ReviewKeepsReviewedAt | core/admin.py:156-173 | both actions set status and reviewer but never `reviewed_at` |
| FeaturedSweep.SweptPhotosMeaning | core/management/commands/update_featured_photos.py:8-36 | a photo ends featured exactly when it has no stale row and was featured or popular; only the flag changes |
| FeaturedSweep.SweptRowsMeaning | core/management/commands/update_featured_photos.py:23-33 | stale rows end inactive, other rows untouched, none stale left |
| FeaturedSweep.FeatureOne | core/management/commands/update_featured_photos.py:16-18 | one phase-1 pass: the photo saved featured; old rows untouched, a new row only for a photo without one |
| FeaturedSweep.DemoteOne | core/management/commands/update_featured_photos.py:29-33 | one phase-2 pass: the row saved inactive, then its photo saved unfeatured |
| FeaturedSweep.Phase1KeepsStaleRows | core/management/commands/update_featured_photos.py:24-27 | rows phase 1 creates are never stale, so phase 2 finds the stale rows that existed before |
| FeaturedSweep.FeaturePopular | core/management/commands/update_featured_photos.py:10-21 | every photo phase 1's filter selects ends featured, with a row |
| FeaturedSweep.RetireStale | core/management/commands/update_featured_photos.py:23-36 | every stale row ends inactive and its photo unfeatured |
| FeaturedSweep.Handle | core/management/commands/update_featured_photos.py:8-36 | the photos become `SweptPhotos`, old rows `SweptRows`, new rows are active from now for popular photos that had none |
| FeaturedSweep.Phase2Result | core/management/commands/update_featured_photos.py:8-36 | the two phases compose to the swept tables |
| FeaturedSweep.SecondRunRefeatures | core/management/commands/update_featured_photos.py:10-33 | a demoted photo still passing the filter is featured again by the next run, with no active row |

## Left out

- JWT issuance in `register` and `login` is a call into a library. The response carries only the model's result.
- Django's `authenticate` is a parameter of `Serializers.ValidateLogin`.
- File storage, `image.url` and the admin's HTML previews are left out. A file is its stored name, and a URL is a parameter `storageUrl`.
- Routing (`core/urls.py`) and the DRF filter, search-filter, ordering and pagination backends are left out. Lists are sets of keys, so result order is not modelled.
- `core/middleware.py` is inert: it saves `last_activity` without assigning it. This model leaves it out.
- `users/models.py` is not part of this model. The users app's profile model has no behaviour.
- Concurrency, transactions and rollback are not modelled. Each operation runs alone and to completion, which is stronger than the code guarantees for the read-then-write toggle and the approve-then-promote pair.
- Unicode case folding is not modelled: `icontains` is modelled with ASCII lower-casing.
- Content-type parsing (the digit-or-name branches in `perform_create`) is not modelled. It becomes "resolves to a kind or not", and only the core's models are kinds.
- Views.CommentQueryset: the `object_id` parameter is taken already parsed as a number. A known type name with a non-numeric `object_id` such as "abc" makes the filter raise ValueError, which the `except` does not catch: a server error the model cannot express. The list endpoint's filter backend also reads `content_type` and `object_id` itself, as a ContentType primary key and a number. A model name in `content_type` is therefore refused with a 400 there. CommentQueryset and CommentListMatchesCount describe `get_queryset` alone.
- Views.CreateComment: "never a server error" holds only for a content type written as plain decimal digits. The serializer also accepts a key such as " 3" or "+3", which `isdigit()` rejects. Such a key takes the name branch and raises DoesNotExist. The `except` clause then fails on the unbound `model_class`, which is a server error.
- The content-type field's error message is a placeholder. DRF's text quotes the value as sent, and the model does not carry it.
- Serializers.NormalizeEmail: the `strip()` inside `normalize_email` is not modelled. DRF's field has already trimmed the value. Unicode lower-casing of the domain is modelled as ASCII lower-casing.
- Views.Register: the unique validator and the column compare emails exactly, as a case-sensitive collation does. The username's Unicode normalisation in `create_user` is not modelled.
- Serializer field validation is modelled only where it consults the database or the file name: related-field keys, unique columns and the extension validator. Blank, length, email-syntax and choice checks on the other fields are left out.
- `created_at`, `updated_at`, `date_joined`, `last_activity` and `profile_views` are not modelled, except `created_at` where a filter reads it.
- The generic `update`, `partial_update` and `destroy` endpoints, `profile`, `active` and the category endpoints are framework CRUD and are not modelled. One consequence is not captured. The `get_permissions` of the category, photo, reward and document view sets lists only create, update and destroy. A PATCH (`partial_update`) on those four view sets therefore falls through to AllowAny and is open to every caller, anonymous included. On a photo it can set `is_approved` and `is_featured`, and its save runs the post_save receiver.
- Phase 1's `likes__gte=10` joins through the likes table without `distinct()`, so the query yields a photo once per liker with id ≥ 10. The repeats only save and print again, and the model visits each photo once.
- The FeaturedPhoto admin's `list_editable` and the admin change forms other than the category's are not modelled.
- Views.RequestQueryset: defined for signed-in users only, because the view's IsAuthenticated permission refuses anonymous requests before `get_queryset` runs.
- Views.CreateRequest: requires that the request's user is a stored user, which the authentication layer guarantees.
- FeaturedSweep.Handle: states the new FeaturedPhoto rows and the photos table, but not the sequence value `nextFeaturedId`.
- Signals.HandleFeaturedPhoto: states only that the FeaturedPhoto sequence does not go back, not its exact new value.
