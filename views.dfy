/** The API view sets: which rows each list shows, the search endpoint,
    and the custom actions (like toggles, comment creation, the
    representative-request decisions, record creation). */
module Views {
  import opened Results
  import opened Models
  import opened Store
  import opened Signals
  import Text
  import Managers
  import Permissions
  import Serializers

  /** The view-set action a request is dispatched to. */
  datatype ViewAction = List | Retrieve | Create | Update | PartialUpdate | Destroy | LikeAction | FeaturedAction

  // =====================================================================
  // Visibility (get_queryset)

  /** The `batch` filter of the photo list: no filter when the parameter
      is absent or empty, otherwise the category's batch must equal it. */
  predicate InBatch(categories: map<nat, Category>, p: Photo, batch: string)
  {
    batch == "" || Managers.CategoryBatch(categories, p) == Some(batch)
  }

  /** `PhotoViewSet.get_queryset`; `batch` is the query parameter, "" when
      absent. */
  function PhotoQueryset(photos: map<nat, Photo>, categories: map<nat, Category>, action: ViewAction, actor: Actor, batch: string): (r: set<nat>)
    ensures r <= photos.Keys
    ensures action == List && actor.Anonymous? ==>
      forall id :: id in photos ==> (id in r <==> photos[id].isApproved && InBatch(categories, photos[id], batch))
    ensures action == List && actor.Member? && !actor.user.isStaff ==>
      forall id :: id in photos ==>
        (id in r <==> (photos[id].isApproved || photos[id].uploadedBy == actor.id) && InBatch(categories, photos[id], batch))
    ensures action != List || (actor.Member? && actor.user.isStaff) ==>
      forall id :: id in photos ==> (id in r <==> InBatch(categories, photos[id], batch))
    ensures action == List && actor.Anonymous? && batch == "" ==> r == Managers.ApprovedPhotos(photos)
    ensures (action != List || (actor.Member? && actor.user.isStaff)) && batch == "" ==> r == photos.Keys
  {
    var listed :=
      if action == List && actor.Anonymous? then Managers.ApprovedPhotos(photos)
      else if action == List && actor.Member? && !actor.user.isStaff then
        set id | id in photos && (photos[id].isApproved || photos[id].uploadedBy == actor.id)
      else photos.Keys;
    if batch != "" then set id | id in listed && Managers.CategoryBatch(categories, photos[id]) == Some(batch)
    else listed
  }

  /** `DocumentViewSet.get_queryset`. */
  function DocumentQueryset(documents: map<nat, Document>, action: ViewAction, actor: Actor): (r: set<nat>)
    ensures r <= documents.Keys
    ensures action == List && actor.Anonymous? ==> r == Managers.ApprovedDocuments(documents)
    ensures action == List && actor.Member? && !actor.user.isStaff ==>
      forall id :: id in documents ==> (id in r <==> documents[id].isApproved || documents[id].uploadedBy == actor.id)
    ensures action != List || (actor.Member? && actor.user.isStaff) ==> r == documents.Keys
  {
    if action == List && actor.Anonymous? then Managers.ApprovedDocuments(documents)
    else if action == List && actor.Member? && !actor.user.isStaff then
      set id | id in documents && (documents[id].isApproved || documents[id].uploadedBy == actor.id)
    else documents.Keys
  }

  /** Anonymous users see no more than signed-in users, who see no more than
      staff. */
  lemma ListVisibilityGrowsWithRole(photos: map<nat, Photo>, categories: map<nat, Category>, documents: map<nat, Document>,
                                    member: Actor, staff: Actor, batch: string)
    requires member.Member? && staff.Member? && staff.user.isStaff
    ensures PhotoQueryset(photos, categories, List, Anonymous, batch) <= PhotoQueryset(photos, categories, List, member, batch)
    ensures PhotoQueryset(photos, categories, List, member, batch) <= PhotoQueryset(photos, categories, List, staff, batch)
    ensures DocumentQueryset(documents, List, Anonymous) <= DocumentQueryset(documents, List, member)
    ensures DocumentQueryset(documents, List, member) <= DocumentQueryset(documents, List, staff)
  {
  }

  /** With a batch parameter, the anonymous photo list is exactly the
      manager's `by_batch`. */
  lemma AnonymousBatchListIsByBatch(photos: map<nat, Photo>, categories: map<nat, Category>, batch: string)
    requires batch != ""
    ensures PhotoQueryset(photos, categories, List, Anonymous, batch) == Managers.ByBatch(photos, categories, Some(batch))
  {
  }

  /** `PhotoViewSet.featured`: the action is not `list`, so only the batch
      filter of get_queryset applies before the featured-and-approved one. */
  function FeaturedView(photos: map<nat, Photo>, categories: map<nat, Category>, actor: Actor, batch: string): (r: set<nat>)
    ensures r <= Managers.Featured(photos)
  {
    set id | id in PhotoQueryset(photos, categories, FeaturedAction, actor, batch) && photos[id].isFeatured && photos[id].isApproved
  }

  /** The featured endpoint shows every user the manager's `featured()`,
      narrowed to `by_batch` when a batch is given. */
  lemma FeaturedViewIsManagerFeatured(photos: map<nat, Photo>, categories: map<nat, Category>, actor: Actor, batch: string)
    ensures batch == "" ==> FeaturedView(photos, categories, actor, batch) == Managers.Featured(photos)
    ensures batch != "" ==> FeaturedView(photos, categories, actor, batch)
                            == Managers.Featured(photos) * Managers.ByBatch(photos, categories, Some(batch))
  {
  }

  /** `CommentViewSet.get_queryset`; `contentType` is the query parameter
      ("" when absent), `objectId` the parsed object_id parameter. */
  function CommentQueryset(comments: map<nat, Comment>, contentType: string, objectId: Option<nat>): (r: set<nat>)
    ensures r <= comments.Keys
    ensures contentType == "" || objectId.None? ==> r == comments.Keys
    ensures contentType != "" && objectId.Some? && KindByModelName(contentType).None? ==> r == {}
    ensures contentType != "" && objectId.Some? && KindByModelName(contentType).Some? ==>
      forall id :: id in comments ==>
        (id in r <==> comments[id].contentType == KindByModelName(contentType).value && comments[id].objectId == objectId.value)
  {
    if contentType != "" && objectId.Some? then
      match KindByModelName(contentType)
      case None => {}
      case Some(kind) => Serializers.CommentsOn(comments, kind, objectId.value)
    else comments.Keys
  }

  /** Listing the comments of one object yields as many as that object's
      `comments_count`. */
  lemma CommentListMatchesCount(comments: map<nat, Comment>, kind: TargetKind, objectId: nat)
    ensures |CommentQueryset(comments, ModelName(kind), Some(objectId))| == Serializers.CommentsCount(comments, kind, objectId)
  {
    assert ModelName(kind) != "";
  }

  /** `RepresentativeRequestViewSet.get_queryset` for a signed-in user
      (the view's permission turns anonymous requests away first). */
  function RequestQueryset(requests: map<nat, RepresentativeRequest>, actor: Actor): (r: set<nat>)
    requires actor.Member?
    ensures actor.user.isStaff ==> r == requests.Keys
    ensures !actor.user.isStaff ==> forall id :: id in requests ==> (id in r <==> requests[id].user == actor.id)
  {
    if actor.user.isStaff then requests.Keys
    else set id | id in requests && requests[id].user == actor.id
  }

  // =====================================================================
  // Search (SearchViewSet.list)

  datatype SearchResult = SearchResult(photos: set<nat>, rewards: set<nat>, documents: set<nat>)

  function CategoryName(categories: map<nat, Category>, p: Photo): Option<string>
  {
    if p.category in categories then Some(categories[p.category].name) else None
  }

  /** The photo part of the search: approved photos whose title or
      description contains the query, in the named category if one is given. */
  function SearchPhotos(photos: map<nat, Photo>, categories: map<nat, Category>, q: string, category: string): (r: set<nat>)
    ensures r <= Managers.ApprovedPhotos(photos)
    ensures forall id :: id in photos ==>
      (id in r <==> photos[id].isApproved
                    && (Text.ContainsCI(photos[id].title, q) || Text.ContainsCI(photos[id].description, q))
                    && (category == "" || CategoryName(categories, photos[id]) == Some(category)))
  {
    var matched := set id | id in photos && (Text.ContainsCI(photos[id].title, q) || Text.ContainsCI(photos[id].description, q))
                                        && photos[id].isApproved;
    if category != "" then set id | id in matched && CategoryName(categories, photos[id]) == Some(category)
    else matched
  }

  /** The reward part: every reward whose student name or achievement
      contains the query, with no approval filter and no category. */
  function SearchRewards(rewards: map<nat, Reward>, q: string): (r: set<nat>)
    ensures r <= rewards.Keys
    ensures forall id :: id in rewards ==>
      (id in r <==> Text.ContainsCI(rewards[id].studentName, q) || Text.ContainsCI(rewards[id].achievement, q))
  {
    set id | id in rewards && (Text.ContainsCI(rewards[id].studentName, q) || Text.ContainsCI(rewards[id].achievement, q))
  }

  /** The document part: approved matches, narrowed to a type only when the
      category is one of the four type names. */
  function SearchDocuments(documents: map<nat, Document>, q: string, category: string): (r: set<nat>)
    ensures r <= Managers.ApprovedDocuments(documents)
    ensures forall id :: id in documents ==>
      (id in r <==> documents[id].isApproved
                    && (Text.ContainsCI(documents[id].title, q) || Text.ContainsCI(documents[id].description, q))
                    && (DocumentTypeByName(category).None? || DocumentTypeName(documents[id].documentType) == category))
  {
    var matched := set id | id in documents && (Text.ContainsCI(documents[id].title, q) || Text.ContainsCI(documents[id].description, q))
                                           && documents[id].isApproved;
    if DocumentTypeByName(category).Some? then set id | id in matched && DocumentTypeName(documents[id].documentType) == category
    else matched
  }

  /** `SearchViewSet.list` with parameters `q` and `category` ("" when absent). */
  function Search(photos: map<nat, Photo>, categories: map<nat, Category>, rewards: map<nat, Reward>,
                  documents: map<nat, Document>, q: string, category: string): (r: SearchResult)
    ensures r.photos <= Managers.ApprovedPhotos(photos) && r.documents <= Managers.ApprovedDocuments(documents)
    ensures r.rewards <= rewards.Keys
    ensures forall id :: id in photos ==>
      (id in r.photos <==> photos[id].isApproved
                           && (Text.ContainsCI(photos[id].title, q) || Text.ContainsCI(photos[id].description, q))
                           && (category == "" || CategoryName(categories, photos[id]) == Some(category)))
    ensures forall id :: id in rewards ==>
      (id in r.rewards <==> Text.ContainsCI(rewards[id].studentName, q) || Text.ContainsCI(rewards[id].achievement, q))
    ensures forall id :: id in documents ==>
      (id in r.documents <==> documents[id].isApproved
                              && (Text.ContainsCI(documents[id].title, q) || Text.ContainsCI(documents[id].description, q))
                              && (DocumentTypeByName(category).None? || DocumentTypeName(documents[id].documentType) == category))
  {
    SearchResult(SearchPhotos(photos, categories, q, category), SearchRewards(rewards, q), SearchDocuments(documents, q, category))
  }

  /** Search never reveals a photo or document the anonymous list hides;
      rewards are searched without any approval filter. */
  lemma SearchShowsOnlyPublicItems(photos: map<nat, Photo>, categories: map<nat, Category>, rewards: map<nat, Reward>,
                                  documents: map<nat, Document>, q: string, category: string)
    ensures var r := Search(photos, categories, rewards, documents, q, category);
      && r.photos <= PhotoQueryset(photos, categories, List, Anonymous, "")
      && r.documents <= DocumentQueryset(documents, List, Anonymous)
      && r.rewards <= rewards.Keys
  {
  }

  /** An empty query with no category returns every approved photo and
      document and every reward. */
  lemma EmptySearchReturnsEverythingPublic(photos: map<nat, Photo>, categories: map<nat, Category>, rewards: map<nat, Reward>,
                                           documents: map<nat, Document>)
    ensures var r := Search(photos, categories, rewards, documents, "", "");
      && r.photos == PhotoQueryset(photos, categories, List, Anonymous, "")
      && r.rewards == rewards.Keys
      && r.documents == DocumentQueryset(documents, List, Anonymous)
  {
    forall s: string { Text.EmptyQueryMatchesAll(s); }
  }

  /** A document-type category narrows the documents to that type, exactly
      as `by_type` does; any other category leaves them as with no category. */
  lemma SearchDocumentTypeFilter(documents: map<nat, Document>, q: string, category: string)
    ensures DocumentTypeByName(category).Some? ==>
      SearchDocuments(documents, q, category) == SearchDocuments(documents, q, "") * Managers.ByType(documents, category)
    ensures DocumentTypeByName(category).None? ==>
      SearchDocuments(documents, q, category) == SearchDocuments(documents, q, "")
  {
  }

  /** A non-empty category keeps only photos of the category with that name. */
  lemma SearchPhotoCategoryFilter(photos: map<nat, Photo>, categories: map<nat, Category>, q: string, category: string)
    requires category != ""
    ensures forall id :: id in SearchPhotos(photos, categories, q, category) <==>
      id in SearchPhotos(photos, categories, q, "") && CategoryName(categories, photos[id]) == Some(category)
  {
  }

  /** The query's letter case never matters. */
  lemma SearchIgnoresQueryCase(photos: map<nat, Photo>, categories: map<nat, Category>, rewards: map<nat, Reward>,
                               documents: map<nat, Document>, q: string, category: string)
    ensures Search(photos, categories, rewards, documents, Text.Lower(q), category)
         == Search(photos, categories, rewards, documents, q, category)
  {
    forall s: string ensures Text.ContainsCI(s, Text.Lower(q)) == Text.ContainsCI(s, q) {
      Text.QueryCaseIrrelevant(s, q);
    }
  }

  /** An approved photo whose title contains the query verbatim is found. */
  lemma SearchFindsVerbatimTitle(photos: map<nat, Photo>, categories: map<nat, Category>, q: string, id: nat)
    requires id in photos && photos[id].isApproved && Text.Contains(photos[id].title, q)
    ensures id in SearchPhotos(photos, categories, q, "")
  {
    Text.ExactMatchIsCaseInsensitiveMatch(photos[id].title, q);
  }

  // =====================================================================
  // Like toggles

  datatype LikeResponse = LikeResponse(message: string, totalLikes: nat)

  function ToggleMessage(wasLiked: bool): string
  {
    if wasLiked then "Like removed" else "Liked"
  }

  /** The toggle of `PhotoViewSet.like`: `likes.remove` when the user
      already likes the photo, else `likes.add`, whose m2m receiver may
      feature the photo at once. */
  method TogglePhotoLike(db: Database, p: nat, user: nat, now: int)
    requires db.Valid() && p in db.photos
    modifies db`photos, db`featured, db`nextFeaturedId
    ensures db.Valid()
    ensures var before := old(db.photos)[p];
      var likes := Toggled(before.likes, user);
      var promoted := user !in before.likes && TotalLikes(likes) >= LIKE_THRESHOLD && !before.isFeatured;
      && db.photos == old(db.photos)[p := before.(likes := likes, isFeatured := before.isFeatured || promoted)]
      && db.featured == (if promoted then WithRowFor(old(db.featured), old(db.nextFeaturedId), p, now) else old(db.featured))
      && (!promoted ==> db.nextFeaturedId == old(db.nextFeaturedId))
  {
    if user in db.photos[p].likes {
      RemoveLike(db, p, user, now);
    } else {
      AddLike(db, p, user, now);
    }
  }

  /** `PhotoViewSet.like`: toggle the request user's like, then feature the
      photo if it has at least LIKE_THRESHOLD likes (never unfeature it).
      The view's `get_permissions` answers AllowAny for this action, so an
      anonymous request is not refused up front: `get_object` may still
      give 404, and otherwise `likes.add` fails on the anonymous user (a
      TypeError, before any signal or write), which is a server error. */
  method LikePhoto(db: Database, actor: Actor, p: nat, batch: string, now: int) returns (r: Result<LikeResponse>)
    requires db.Valid()
    modifies db`photos, db`featured, db`nextFeaturedId
    ensures db.Valid()
    ensures p !in PhotoQueryset(old(db.photos), db.categories, LikeAction, actor, batch) ==> r == Err(NotFound)
    ensures actor.Anonymous? && p in PhotoQueryset(old(db.photos), db.categories, LikeAction, actor, batch) ==> r == Err(ServerError)
    ensures r.Err? ==> db.photos == old(db.photos) && db.featured == old(db.featured)
                       && db.nextFeaturedId == old(db.nextFeaturedId)
    ensures r.Ok? <==> actor.Member? && p in PhotoQueryset(old(db.photos), db.categories, LikeAction, actor, batch)
    ensures r.Ok? ==>
      var before := old(db.photos)[p];
      var likes := Toggled(before.likes, actor.id);
      && r.value == LikeResponse(ToggleMessage(actor.id in before.likes), TotalLikes(likes))
      && db.photos == old(db.photos)[p := before.(likes := likes, isFeatured := before.isFeatured || TotalLikes(likes) >= LIKE_THRESHOLD)]
      && db.featured == if TotalLikes(likes) >= LIKE_THRESHOLD
                        then WithRowFor(old(db.featured), old(db.nextFeaturedId), p, now)
                        else old(db.featured)
  {
    if p !in PhotoQueryset(db.photos, db.categories, LikeAction, actor, batch) {
      return Err(NotFound);
    }
    if actor.Anonymous? {
      return Err(ServerError);
    }
    var response := ToggleAndFeature(db, p, actor.id, now);
    r := Ok(response);
  }

  /** The body of `PhotoViewSet.like` once the photo is found: the toggle,
      then `is_featured = True; save()` at LIKE_THRESHOLD likes or more. */
  method ToggleAndFeature(db: Database, p: nat, user: nat, now: int) returns (response: LikeResponse)
    requires db.Valid() && p in db.photos
    modifies db`photos, db`featured, db`nextFeaturedId
    ensures db.Valid()
    ensures var before := old(db.photos)[p];
      var likes := Toggled(before.likes, user);
      && response == LikeResponse(ToggleMessage(user in before.likes), TotalLikes(likes))
      && db.photos == old(db.photos)[p := before.(likes := likes, isFeatured := before.isFeatured || TotalLikes(likes) >= LIKE_THRESHOLD)]
      && db.featured == if TotalLikes(likes) >= LIKE_THRESHOLD
                        then WithRowFor(old(db.featured), old(db.nextFeaturedId), p, now)
                        else old(db.featured)
  {
    var message := ToggleMessage(user in db.photos[p].likes);
    TogglePhotoLike(db, p, user, now);
    ghost var f1, n1 := db.featured, db.nextFeaturedId;
    if TotalLikes(db.photos[p].likes) >= LIKE_THRESHOLD {
      SavePhoto(db, p, db.photos[p].(isFeatured := true), now);
      if f1 != old(db.featured) {
        WithRowForIdempotent(old(db.featured), old(db.nextFeaturedId), n1, p, now, now);
      }
    }
    response := LikeResponse(message, TotalLikes(db.photos[p].likes));
  }

  /** `RewardViewSet.like`: the same toggle, with no featuring, and the same
      AllowAny permission (anonymous: 404 or a server error). */
  method LikeReward(db: Database, actor: Actor, id: nat) returns (r: Result<LikeResponse>)
    requires db.Valid()
    modifies db`rewards
    ensures db.Valid()
    ensures id !in old(db.rewards) ==> r == Err(NotFound)
    ensures actor.Anonymous? && id in old(db.rewards) ==> r == Err(ServerError)
    ensures r.Err? ==> db.rewards == old(db.rewards)
    ensures r.Ok? <==> actor.Member? && id in old(db.rewards)
    ensures r.Ok? ==>
      var before := old(db.rewards)[id];
      var likes := Toggled(before.likes, actor.id);
      && r.value == LikeResponse(ToggleMessage(actor.id in before.likes), TotalLikes(likes))
      && db.rewards == old(db.rewards)[id := before.(likes := likes)]
  {
    if id !in db.rewards {
      return Err(NotFound);
    }
    if actor.Anonymous? {
      return Err(ServerError);
    }
    var reward := db.rewards[id];
    var message := ToggleMessage(actor.id in reward.likes);
    db.SaveReward(id, reward.(likes := Toggled(reward.likes, actor.id)));
    r := Ok(LikeResponse(message, TotalLikes(db.rewards[id].likes)));
  }

  /** `DocumentViewSet.like`: the same toggle and AllowAny permission;
      unapproved documents can be liked, since the list filter applies to
      `list` only. */
  method LikeDocument(db: Database, actor: Actor, id: nat) returns (r: Result<LikeResponse>)
    requires db.Valid() && db.FilesAllowed()
    modifies db`documents
    ensures db.Valid() && db.FilesAllowed()
    ensures id !in old(db.documents) ==> r == Err(NotFound)
    ensures actor.Anonymous? && id in old(db.documents) ==> r == Err(ServerError)
    ensures r.Err? ==> db.documents == old(db.documents)
    ensures r.Ok? <==> actor.Member? && id in old(db.documents)
    ensures r.Ok? ==>
      var before := old(db.documents)[id];
      var likes := Toggled(before.likes, actor.id);
      && r.value == LikeResponse(ToggleMessage(actor.id in before.likes), TotalLikes(likes))
      && db.documents == old(db.documents)[id := before.(likes := likes)]
  {
    if id !in DocumentQueryset(db.documents, LikeAction, actor) {
      return Err(NotFound);
    }
    if actor.Anonymous? {
      return Err(ServerError);
    }
    var document := db.documents[id];
    var message := ToggleMessage(actor.id in document.likes);
    db.SaveDocument(id, document.(likes := Toggled(document.likes, actor.id)));
    r := Ok(LikeResponse(message, TotalLikes(db.documents[id].likes)));
  }

  /** Two reward likes by the same user leave the reward as it was. */
  method LikeRewardTwice(db: Database, actor: Actor, id: nat)
    requires db.Valid() && actor.Member? && id in db.rewards
    modifies db`rewards
    ensures db.rewards == old(db.rewards)
  {
    ghost var before := db.rewards[id];
    var first := LikeReward(db, actor, id);
    assert first.Ok?;
    var second := LikeReward(db, actor, id);
    assert second.Ok?;
    ToggleTwice(before.likes, actor.id);
    assert db.rewards[id] == before;
  }

  // =====================================================================
  // Generic comments and likes

  const INVALID_TARGET: string := "Invalid content type or object ID"

  /** Stands for the related-field error DRF reports on `content_type`
      when the value is not a content type's key.  DRF's own text quotes
      the value as sent (see InvalidPkMessage), or reads "Incorrect type.
      Expected pk value, received str." for a non-numeric value; the model
      receives only whether the value resolved, so this is a placeholder. */
  const CONTENT_TYPE_REFUSED: string := "Invalid pk - object does not exist."

  /** The decimal digits of a key, as it is written in a request. */
  function Decimal(n: nat): (s: string)
    ensures |s| >= 1 && forall i :: 0 <= i < |s| ==> '0' <= s[i] <= '9'
    ensures n < 10 <==> |s| == 1
    decreases n
  {
    if n < 10 then [('0' as int + n) as char] else Decimal(n / 10) + [('0' as int + n % 10) as char]
  }

  /** DRF's message for a related key that names no row. */
  function InvalidPkMessage(value: string): string
  {
    "Invalid pk \"" + value + "\" - object does not exist."
  }

  /** `CommentViewSet.perform_create` as written, for the signed-in `user`.
      `kind` is what the request's `content_type` resolves to (None: the
      lookup raised DoesNotExist).  That exception reaches the `except`
      clause while `model_class` is still unbound, so it surfaces as a
      server error; only a missing object becomes the ValidationError. */
  method PerformCreateComment(db: Database, user: nat, content: string, kind: Option<TargetKind>, objectId: nat, now: int)
    returns (r: Result<nat>)
    requires db.Valid()
    modifies db`comments, db`nextCommentId
    ensures db.Valid()
    ensures kind.None? ==> r == Err(ServerError)
    ensures kind.Some? && !db.ObjectExists(kind.value, objectId) ==> r == Err(Invalid("error", INVALID_TARGET))
    ensures r.Ok? <==> kind.Some? && db.ObjectExists(kind.value, objectId)
    ensures r.Err? ==> db.comments == old(db.comments)
                       && db.nextCommentId == old(db.nextCommentId)
    ensures r.Ok? ==> r.value == old(db.nextCommentId) && r.value !in old(db.comments)
                      && db.comments == old(db.comments)[r.value := Comment(user, content, kind.value, objectId, now)]
  {
    if kind.None? {
      return Err(ServerError);
    }
    if !db.ObjectExists(kind.value, objectId) {
      return Err(Invalid("error", INVALID_TARGET));
    }
    var id := db.InsertComment(Comment(user, content, kind.value, objectId, now));
    r := Ok(id);
  }

  /** The comment `create` request: the serializer's `content_type` field
      accepts only the key of an existing content type, and it is checked
      before `perform_create` runs, so a key given as plain decimal digits
      never reaches the server-error branch above. */
  method CreateComment(db: Database, actor: Actor, content: string, contentType: Option<TargetKind>, objectId: nat, now: int)
    returns (r: Result<nat>)
    requires db.Valid()
    modifies db`comments, db`nextCommentId
    ensures db.Valid()
    ensures r != Err(ServerError)
    ensures actor.Anonymous? ==> r == Err(NotAuthenticated)
    ensures actor.Member? && contentType.None? ==> r == Err(Invalid("content_type", CONTENT_TYPE_REFUSED))
    ensures actor.Member? && contentType.Some? && !db.ObjectExists(contentType.value, objectId) ==>
      r == Err(Invalid("error", INVALID_TARGET))
    ensures r.Ok? <==> actor.Member? && contentType.Some? && db.ObjectExists(contentType.value, objectId)
    ensures r.Err? ==> db.comments == old(db.comments)
                       && db.nextCommentId == old(db.nextCommentId)
    ensures r.Ok? ==> r.value !in old(db.comments)
                      && db.comments == old(db.comments)[r.value := Comment(actor.id, content, contentType.value, objectId, now)]
  {
    if actor.Anonymous? {
      return Err(NotAuthenticated);
    }
    if contentType.None? {
      return Err(Invalid("content_type", CONTENT_TYPE_REFUSED));
    }
    r := PerformCreateComment(db, actor.id, content, contentType, objectId, now);
  }

  /** `LikeViewSet` `create`: the generic Like row.  The serializer checks
      that `content_type` is a content type's key, but not that the target
      exists; with `user` read-only it adds no unique-together validator, so
      the database's unique (user, content type, object) constraint refuses
      a second row. */
  method CreateLike(db: Database, actor: Actor, contentType: Option<TargetKind>, objectId: nat, now: int) returns (r: Result<nat>)
    requires db.Valid()
    modifies db`likes, db`nextLikeId
    ensures db.Valid()
    ensures actor.Anonymous? ==> r == Err(NotAuthenticated)
    ensures actor.Member? && contentType.None? ==> r == Err(Invalid("content_type", CONTENT_TYPE_REFUSED))
    ensures actor.Member? && contentType.Some? && HasLike(old(db.likes), actor.id, contentType.value, objectId) ==>
      r == Err(IntegrityError)
    ensures r.Ok? <==> actor.Member? && contentType.Some? && !HasLike(old(db.likes), actor.id, contentType.value, objectId)
    ensures r.Err? ==> db.likes == old(db.likes)
                       && db.nextLikeId == old(db.nextLikeId)
    ensures r.Ok? ==> r.value !in old(db.likes) && db.likes == old(db.likes)[r.value := Like(actor.id, contentType.value, objectId, now)]
  {
    if actor.Anonymous? {
      return Err(NotAuthenticated);
    }
    if contentType.None? {
      return Err(Invalid("content_type", CONTENT_TYPE_REFUSED));
    }
    if HasLike(db.likes, actor.id, contentType.value, objectId) {
      return Err(IntegrityError);
    }
    var id := db.InsertLike(Like(actor.id, contentType.value, objectId, now));
    r := Ok(id);
  }

  // =====================================================================
  // Representative requests

  // `get_permissions` answers IsAuthenticated for every action other than
  // update, partial_update and destroy, so the IsAdminUser named on the
  // approve and reject actions is never consulted: any signed-in user may
  // decide any request `get_queryset` shows them, their own included.

  /** `RepresentativeRequestViewSet.approve`: whatever the request's current
      status, mark it approved by the request user and promote its
      requester. */
  method ApproveRequest(db: Database, actor: Actor, id: nat) returns (r: Result<string>)
    requires db.Valid()
    modifies db`requests, db`users
    ensures db.Valid()
    ensures actor.Anonymous? ==> r == Err(NotAuthenticated)
    ensures actor.Member? && id !in RequestQueryset(old(db.requests), actor) ==> r == Err(NotFound)
    ensures r.Ok? <==> actor.Member? && id in RequestQueryset(old(db.requests), actor)
    ensures r.Err? ==> db.requests == old(db.requests) && db.users == old(db.users)
    ensures r.Ok? ==>
      var q := old(db.requests)[id];
      && r.value == "Request approved successfully"
      && db.requests == old(db.requests)[id := Reviewed(q, Approved, actor.id)]
      && db.users == old(db.users)[q.user := Promoted(old(db.users)[q.user])]
  {
    if actor.Anonymous? {
      return Err(NotAuthenticated);
    }
    if id !in RequestQueryset(db.requests, actor) {
      return Err(NotFound);
    }
    var q := db.requests[id];
    db.SaveRequest(id, Reviewed(q, Approved, actor.id));
    db.SaveUser(q.user, Promoted(db.users[q.user]));
    r := Ok("Request approved successfully");
  }

  /** `RepresentativeRequestViewSet.reject`: the request only; the user is
      never touched. */
  method RejectRequest(db: Database, actor: Actor, id: nat) returns (r: Result<string>)
    requires db.Valid()
    modifies db`requests
    ensures db.Valid()
    ensures actor.Anonymous? ==> r == Err(NotAuthenticated)
    ensures actor.Member? && id !in RequestQueryset(old(db.requests), actor) ==> r == Err(NotFound)
    ensures r.Ok? <==> actor.Member? && id in RequestQueryset(old(db.requests), actor)
    ensures r.Err? ==> db.requests == old(db.requests)
    ensures r.Ok? ==>
      && r.value == "Request rejected"
      && db.requests == old(db.requests)[id := Reviewed(old(db.requests)[id], Rejected, actor.id)]
  {
    if actor.Anonymous? {
      return Err(NotAuthenticated);
    }
    if id !in RequestQueryset(db.requests, actor) {
      return Err(NotFound);
    }
    db.SaveRequest(id, Reviewed(db.requests[id], Rejected, actor.id));
    r := Ok("Request rejected");
  }

  /** A signed-in user who is not staff can approve their own request and so
      make themselves a representative, reviewed by themselves. */
  method SelfApprovalPromotes(db: Database, actor: Actor, id: nat)
    requires db.Valid() && actor.Member? && !actor.user.isStaff
    requires id in db.requests && db.requests[id].user == actor.id
    modifies db`requests, db`users
    ensures actor.id in db.users && db.users[actor.id].isRepresentative && db.users[actor.id].userType == Representative
    ensures id in db.requests && db.requests[id].status == Approved && db.requests[id].reviewedBy == Some(actor.id)
  {
    var r := ApproveRequest(db, actor, id);
    assert r.Ok?;
  }

  /** Nobody but the requester and staff can decide a request: another
      signed-in user is answered 404 and nothing changes. */
  method OthersCannotApprove(db: Database, actor: Actor, id: nat)
    requires db.Valid() && actor.Member? && !actor.user.isStaff
    requires id in db.requests && db.requests[id].user != actor.id
    modifies db`requests, db`users
    ensures db.requests == old(db.requests) && db.users == old(db.users)
  {
    var r := ApproveRequest(db, actor, id);
    assert r == Err(NotFound);
  }

  /** `RepresentativeRequestViewSet.perform_create` with the serializer's
      `create`: the requester is the request's user whatever was sent;
      status and admin notes are client-writable, with their defaults. */
  method CreateRequest(db: Database, actor: Actor, message: string, status: Option<RequestStatus>, notes: Option<string>, now: int)
    returns (r: Result<nat>)
    requires db.Valid() && db.Knows(actor)
    modifies db`requests, db`nextRequestId
    ensures db.Valid()
    ensures r.Ok? <==> actor.Member?
    ensures r.Err? ==> r.error == NotAuthenticated && db.requests == old(db.requests)
                       && db.nextRequestId == old(db.nextRequestId)
    ensures r.Ok? ==> r.value !in old(db.requests) && db.requests == old(db.requests)[r.value :=
      RepresentativeRequest(actor.id, message, OrElse(status, Pending), now, None, None, OrElse(notes, ""))]
  {
    if actor.Anonymous? {
      return Err(NotAuthenticated);
    }
    var id := db.InsertRequest(RepresentativeRequest(actor.id, message, OrElse(status, Pending), now, None, None, OrElse(notes, "")));
    r := Ok(id);
  }

  // =====================================================================
  // Creating photos, rewards and documents (perform_create + the
  // serializers' create overrides, which both force the owner field)

  /** What a client may send for a new photo; `uploadedBy` is read-only and
      ignored, the optional fields take the model's defaults. */
  datatype PhotoInput = PhotoInput(
    title: string, description: string, image: string, category: nat,
    photoType: Option<PhotoType>, isFeatured: Option<bool>, isApproved: Option<bool>, uploadedBy: Option<nat>)

  /** The photo row `PhotoSerializer.create` stores for `owner`. */
  function NewPhoto(input: PhotoInput, owner: nat, now: int): (p: Photo)
    ensures p.uploadedBy == owner && p.likes == {}
    ensures input.isFeatured.None? ==> !p.isFeatured
    ensures input.isApproved.None? ==> !p.isApproved
    ensures input.photoType.None? ==> p.photoType == General
  {
    Photo(input.title, input.description, input.image, input.category, OrElse(input.photoType, General),
          owner, {}, OrElse(input.isFeatured, false), OrElse(input.isApproved, false), now)
  }

  /** `PhotoViewSet.perform_create`; the save runs the post_save receiver,
      so a photo created as featured gets its FeaturedPhoto row at once. */
  method CreatePhoto(db: Database, actor: Actor, input: PhotoInput, now: int) returns (r: Result<nat>)
    requires db.Valid()
    modifies db`photos, db`nextPhotoId, db`featured, db`nextFeaturedId
    ensures db.Valid()
    ensures actor.Anonymous? ==> r == Err(NotAuthenticated)
    ensures actor.Member? && input.category !in db.categories ==> r == Err(Invalid("category", InvalidPkMessage(Decimal(input.category))))
    ensures r.Ok? <==> actor.Member? && input.category in db.categories
    ensures r.Err? ==> db.photos == old(db.photos) && db.featured == old(db.featured)
                       && db.nextPhotoId == old(db.nextPhotoId) && db.nextFeaturedId == old(db.nextFeaturedId)
    ensures r.Ok? ==>
      var photo := NewPhoto(input, actor.id, now);
      && r.value !in old(db.photos)
      && db.photos == old(db.photos)[r.value := photo]
      && db.featured == if photo.isFeatured then WithRowFor(old(db.featured), old(db.nextFeaturedId), r.value, now)
                        else old(db.featured)
  {
    if actor.Anonymous? {
      return Err(NotAuthenticated);
    }
    if input.category !in db.categories {
      return Err(Invalid("category", InvalidPkMessage(Decimal(input.category))));
    }
    var id := InsertPhoto(db, NewPhoto(input, actor.id, now), now);
    r := Ok(id);
  }

  datatype RewardInput = RewardInput(
    studentName: string, studentDepartment: string, studentBatch: string, achievement: string,
    image: string, awardedBy: Option<nat>)

  /** `RewardViewSet.perform_create`, open to staff and representatives. */
  method CreateReward(db: Database, actor: Actor, input: RewardInput, now: int) returns (r: Result<nat>)
    requires db.Valid()
    modifies db`rewards, db`nextRewardId
    ensures db.Valid()
    ensures actor.Anonymous? ==> r == Err(NotAuthenticated)
    ensures actor.Member? && !Permissions.IsAdminOrRepresentative(actor) ==> r == Err(PermissionDenied)
    ensures r.Ok? <==> Permissions.IsAdminOrRepresentative(actor)
    ensures r.Err? ==> db.rewards == old(db.rewards)
                       && db.nextRewardId == old(db.nextRewardId)
    ensures r.Ok? ==> r.value !in old(db.rewards) && db.rewards == old(db.rewards)[r.value :=
      Reward(input.studentName, input.studentDepartment, input.studentBatch, input.achievement, input.image, actor.id, {}, now)]
  {
    if actor.Anonymous? {
      return Err(NotAuthenticated);
    }
    if !Permissions.IsAdminOrRepresentative(actor) {
      return Err(PermissionDenied);
    }
    var id := db.InsertReward(Reward(input.studentName, input.studentDepartment, input.studentBatch,
                                     input.achievement, input.image, actor.id, {}, now));
    r := Ok(id);
  }

  datatype DocumentInput = DocumentInput(
    title: string, description: string, documentType: DocumentType, file: string,
    isApproved: Option<bool>, uploadedBy: Option<nat>)

  /** The allowed extensions as the validator lists them, comma-separated. */
  function JoinedExtensions(exts: seq<string>): string
  {
    if |exts| == 0 then "" else if |exts| == 1 then exts[0] else exts[0] + ", " + JoinedExtensions(exts[1..])
  }

  /** FileExtensionValidator's message for a refused file. */
  function BadExtensionMessage(file: string): string
  {
    "File extension \U{201C}" + FileExtension(file) + "\U{201D} is not allowed. Allowed extensions are: "
    + JoinedExtensions(ALLOWED_EXTENSIONS) + "."
  }

  /** `DocumentViewSet.perform_create`; the file validator runs first, and a
      new document is approved unless the client says otherwise. */
  method CreateDocument(db: Database, actor: Actor, input: DocumentInput, now: int) returns (r: Result<nat>)
    requires db.Valid() && db.FilesAllowed()
    modifies db`documents, db`nextDocumentId
    ensures db.Valid() && db.FilesAllowed()
    ensures actor.Anonymous? ==> r == Err(NotAuthenticated)
    ensures actor.Member? && !AllowedDocumentFile(input.file) ==> r == Err(Invalid("file", BadExtensionMessage(input.file)))
    ensures r.Ok? <==> actor.Member? && AllowedDocumentFile(input.file)
    ensures r.Err? ==> db.documents == old(db.documents)
                       && db.nextDocumentId == old(db.nextDocumentId)
    ensures r.Ok? ==> r.value !in old(db.documents) && db.documents == old(db.documents)[r.value :=
      Document(input.title, input.description, input.documentType, input.file, actor.id, {},
               OrElse(input.isApproved, true), now)]
  {
    if actor.Anonymous? {
      return Err(NotAuthenticated);
    }
    if !AllowedDocumentFile(input.file) {
      return Err(Invalid("file", BadExtensionMessage(input.file)));
    }
    var id := db.InsertDocument(Document(input.title, input.description, input.documentType, input.file,
                                         actor.id, {}, OrElse(input.isApproved, true), now));
    r := Ok(id);
  }

  // =====================================================================
  // Registration (UserViewSet.register)

  const DUPLICATE_EMAIL: string := "user with this email already exists."
  const DUPLICATE_USERNAME: string := "A user with that username already exists."

  /** The field-level errors of the registration serializer that consult
      the table, in the serializer's field order (username before email):
      every field is checked before any is reported. */
  function RegistrationFieldErrors(users: map<nat, User>, attrs: Serializers.Registration): (errs: seq<FieldError>)
    ensures FieldError("username", DUPLICATE_USERNAME) in errs <==> UsernameTaken(users, attrs.username)
    ensures FieldError("email", DUPLICATE_EMAIL) in errs <==> EmailTaken(users, attrs.email)
    ensures errs == [] <==> !UsernameTaken(users, attrs.username) && !EmailTaken(users, attrs.email)
    ensures |errs| == 2 ==> errs == [FieldError("username", DUPLICATE_USERNAME), FieldError("email", DUPLICATE_EMAIL)]
  {
    (if UsernameTaken(users, attrs.username) then [FieldError("username", DUPLICATE_USERNAME)] else [])
    + (if EmailTaken(users, attrs.email) then [FieldError("email", DUPLICATE_EMAIL)] else [])
  }

  /** `register`: the unique-column validators compare the email as sent
      and run before `validate`, so a duplicate account hides a password
      mismatch; `create_user` then stores the normalised email, and an
      address that differs from a stored one only in the domain's case
      passes validation but breaks the unique column on insert. */
  method Register(db: Database, attrs: Serializers.Registration) returns (r: Result<nat>)
    requires db.Valid()
    modifies db`users, db`nextUserId
    ensures db.Valid()
    ensures var errs := RegistrationFieldErrors(old(db.users), attrs);
      errs != [] ==> r == Err(ValidationError(errs))
    ensures RegistrationFieldErrors(old(db.users), attrs) == [] ==>
      && (Serializers.ValidateRegistration(attrs).Err? ==> r == Err(Serializers.ValidateRegistration(attrs).error))
      && (Serializers.ValidateRegistration(attrs).Ok? && EmailTaken(old(db.users), Serializers.NormalizeEmail(attrs.email)) ==>
            r == Err(IntegrityError))
    ensures r.Ok? <==> RegistrationFieldErrors(old(db.users), attrs) == [] && Serializers.ValidateRegistration(attrs).Ok?
                       && !EmailTaken(old(db.users), Serializers.NormalizeEmail(attrs.email))
    ensures r.Err? ==> db.users == old(db.users)
                       && db.nextUserId == old(db.nextUserId)
    ensures r.Ok? ==>
      && r.value !in old(db.users)
      && db.users == old(db.users)[r.value := Serializers.NewUser(Serializers.CreateUserArgs(attrs))]
  {
    var errs := RegistrationFieldErrors(db.users, attrs);
    if errs != [] {
      return Err(ValidationError(errs));
    }
    var validated := Serializers.ValidateRegistration(attrs);
    if validated.Err? {
      return Err(validated.error);
    }
    var user := Serializers.NewUser(Serializers.CreateUserArgs(validated.value));
    if EmailTaken(db.users, user.email) {
      return Err(IntegrityError);
    }
    var id := db.InsertUser(user);
    r := Ok(id);
  }

  /** The collision in concrete terms: with "a@example.com" stored, a
      registration of "a@EXAMPLE.COM" passes every serializer check and then
      fails on the unique column. */
  method DomainCaseRegistration(db: Database, attrs: Serializers.Registration)
    requires db.Valid() && attrs.password == attrs.password2
    requires attrs.email == "a@EXAMPLE.COM" && !UsernameTaken(db.users, attrs.username)
    requires EmailTaken(db.users, "a@example.com") && !EmailTaken(db.users, "a@EXAMPLE.COM")
    modifies db`users, db`nextUserId
    ensures db.users == old(db.users)
  {
    Serializers.DomainCaseCollides();
    var r := Register(db, attrs);
    assert r == Err(IntegrityError);
  }
}
