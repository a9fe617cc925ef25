/** The records of the platform's tables.  A table is a map from primary
    key to record, so records carry no key of their own; foreign keys are
    the referenced record's key.  Time is an integer count of seconds. */
module Models {
  import opened Results
  import Text

  const DAY: int := 86400

  datatype UserType = Student | Representative | Admin

  /** A user account (the email is the login name). */
  datatype User = User(
    username: string,
    email: string,
    firstName: string,
    lastName: string,
    department: string,
    campus: string,
    batch: string,
    userType: UserType,
    isVerified: bool,
    isRepresentative: bool,
    isStaff: bool,
    isActive: bool)

  /** A user made a representative (request approval, the admin action). */
  function Promoted(u: User): User
  {
    u.(isRepresentative := true, userType := Representative)
  }

  /** A user returned to an ordinary student (the admin action). */
  function Demoted(u: User): User
  {
    u.(isRepresentative := false, userType := Student)
  }

  /** The user a request is made by, as the authentication layer loaded it. */
  datatype Actor = Anonymous | Member(id: nat, user: User)

  datatype Category = Category(
    name: string,
    description: string,
    batchSpecific: bool,
    batch: Option<string>,
    createdBy: Option<nat>)   // None until the creating admin is recorded

  datatype PhotoType = Celebration | General | RewardPhoto

  /** `likes` is the many-to-many relation to users; the join table is
      unique per (photo, user), hence a set. */
  datatype Photo = Photo(
    title: string,
    description: string,
    image: string,
    category: nat,
    photoType: PhotoType,
    uploadedBy: nat,
    likes: set<nat>,
    isFeatured: bool,
    isApproved: bool,
    createdAt: int)

  /** `image` is the stored file name, "" when no image was uploaded. */
  datatype Reward = Reward(
    studentName: string,
    studentDepartment: string,
    studentBatch: string,
    achievement: string,
    image: string,
    awardedBy: nat,
    likes: set<nat>,
    createdAt: int)

  datatype DocumentType = Exam | Research | Project | Book

  datatype Document = Document(
    title: string,
    description: string,
    documentType: DocumentType,
    file: string,
    uploadedBy: nat,
    likes: set<nat>,
    isApproved: bool,
    createdAt: int)

  /** The content types a generic comment or like can point at. */
  datatype TargetKind =
    | PhotoKind | RewardKind | DocumentKind | CommentKind | LikeKind
    | CategoryKind | UserKind | RequestKind | FeaturedKind

  datatype Comment = Comment(user: nat, content: string, contentType: TargetKind, objectId: nat, createdAt: int)

  datatype Like = Like(user: nat, contentType: TargetKind, objectId: nat, createdAt: int)

  datatype RequestStatus = Pending | Approved | Rejected

  datatype RepresentativeRequest = RepresentativeRequest(
    user: nat,
    requestMessage: string,
    status: RequestStatus,
    createdAt: int,
    reviewedBy: Option<nat>,
    reviewedAt: Option<int>,
    adminNotes: string)

  datatype FeaturedPhoto = FeaturedPhoto(photo: nat, featuredFrom: int, featuredUntil: Option<int>, isActive: bool)

  /** The stored value of each document-type choice. */
  function DocumentTypeName(t: DocumentType): string
  {
    match t
    case Exam => "exam"
    case Research => "research"
    case Project => "project"
    case Book => "book"
  }

  /** The inverse of DocumentTypeName on the four stored values. */
  function DocumentTypeByName(s: string): (r: Option<DocumentType>)
    ensures r.Some? ==> DocumentTypeName(r.value) == s
    ensures forall t :: DocumentTypeName(t) == s ==> r == Some(t)
  {
    if s == "exam" then Some(Exam)
    else if s == "research" then Some(Research)
    else if s == "project" then Some(Project)
    else if s == "book" then Some(Book)
    else None
  }

  /** The stored value of each content type's model name. */
  function ModelName(k: TargetKind): string
  {
    match k
    case PhotoKind => "photo"
    case RewardKind => "reward"
    case DocumentKind => "document"
    case CommentKind => "comment"
    case LikeKind => "like"
    case CategoryKind => "category"
    case UserKind => "user"
    case RequestKind => "representativerequest"
    case FeaturedKind => "featuredphoto"
  }

  /** `ContentType.objects.get(model=name)`: the content type stored under
      that (lower-case) model name, if any. */
  function KindByModelName(name: string): (r: Option<TargetKind>)
    ensures r.Some? ==> ModelName(r.value) == name
    ensures forall k :: ModelName(k) == name ==> r == Some(k)
  {
    if name == "photo" then Some(PhotoKind)
    else if name == "reward" then Some(RewardKind)
    else if name == "document" then Some(DocumentKind)
    else if name == "comment" then Some(CommentKind)
    else if name == "like" then Some(LikeKind)
    else if name == "category" then Some(CategoryKind)
    else if name == "user" then Some(UserKind)
    else if name == "representativerequest" then Some(RequestKind)
    else if name == "featuredphoto" then Some(FeaturedKind)
    else None
  }

  // ---------------------------------------------------------------------
  // Likes on a record (the per-entity many-to-many set)

  /** `total_likes()`: the number of distinct users in the likes relation. */
  function TotalLikes(likes: set<nat>): (n: nat)
    ensures n == 0 <==> likes == {}
  {
    |likes|
  }

  /** The likes relation after one like toggle by `user`. */
  function Toggled(likes: set<nat>, user: nat): (r: set<nat>)
    ensures user in r <==> user !in likes
    ensures forall v :: v != user ==> (v in r <==> v in likes)
  {
    if user in likes then likes - {user} else likes + {user}
  }

  /** Toggling twice restores the relation. */
  lemma ToggleTwice(likes: set<nat>, user: nat)
    ensures Toggled(Toggled(likes, user), user) == likes
  {
  }

  /** A toggle moves the like count by exactly one. */
  lemma ToggleCount(likes: set<nat>, user: nat)
    ensures TotalLikes(Toggled(likes, user)) == if user in likes then TotalLikes(likes) - 1 else TotalLikes(likes) + 1
  {
    if user in likes {
      assert likes == (likes - {user}) + {user};
    }
  }

  // ---------------------------------------------------------------------
  // Uniqueness constraints

  predicate SameTarget(a: Like, b: Like)
  {
    a.user == b.user && a.contentType == b.contentType && a.objectId == b.objectId
  }

  /** unique_together = (user, content_type, object_id) on the Like table. */
  ghost predicate LikesUnique(rows: map<nat, Like>)
  {
    forall a, b :: a in rows && b in rows && SameTarget(rows[a], rows[b]) ==> a == b
  }

  /** Some like row already exists for this (user, content type, object). */
  predicate HasLike(rows: map<nat, Like>, user: nat, kind: TargetKind, objectId: nat)
  {
    exists k | k in rows :: rows[k].user == user && rows[k].contentType == kind && rows[k].objectId == objectId
  }

  /** FeaturedPhoto.photo is a one-to-one field: one row per photo. */
  ghost predicate OnePerPhoto(rows: map<nat, FeaturedPhoto>)
  {
    forall a, b :: a in rows && b in rows && rows[a].photo == rows[b].photo ==> a == b
  }

  predicate HasRow(rows: map<nat, FeaturedPhoto>, photo: nat)
  {
    exists k | k in rows :: rows[k].photo == photo
  }

  predicate HasActiveRow(rows: map<nat, FeaturedPhoto>, photo: nat)
  {
    exists k | k in rows :: rows[k].photo == photo && rows[k].isActive
  }

  ghost predicate EmailsUnique(users: map<nat, User>)
  {
    forall a, b :: a in users && b in users && users[a].email == users[b].email ==> a == b
  }

  ghost predicate UsernamesUnique(users: map<nat, User>)
  {
    forall a, b :: a in users && b in users && users[a].username == users[b].username ==> a == b
  }

  ghost predicate CategoryNamesUnique(categories: map<nat, Category>)
  {
    forall a, b :: a in categories && b in categories && categories[a].name == categories[b].name ==> a == b
  }

  predicate EmailTaken(users: map<nat, User>, email: string)
  {
    exists k | k in users :: users[k].email == email
  }

  predicate UsernameTaken(users: map<nat, User>, username: string)
  {
    exists k | k in users :: users[k].username == username
  }

  /** A representative request as a decision on it leaves it;
      `reviewed_at` is never stamped. */
  function Reviewed(q: RepresentativeRequest, status: RequestStatus, reviewer: nat): RepresentativeRequest
  {
    q.(status := status, reviewedBy := Some(reviewer))
  }

  // The assignments of the admin site's bulk actions and of the sweep.
  function ApprovePhoto(p: Photo): Photo { p.(isApproved := true) }
  function FeaturePhoto(p: Photo): Photo { p.(isFeatured := true) }
  function UnfeaturePhoto(p: Photo): Photo { p.(isFeatured := false) }
  function ApproveDocument(d: Document): Document { d.(isApproved := true) }

  /** Some category other than row `except` already has `name`. */
  predicate NameTakenByOther(categories: map<nat, Category>, name: string, except: Option<nat>)
  {
    exists k | k in categories && except != Some(k) :: categories[k].name == name
  }

  /** Adding a like row for a fresh target keeps the table unique. */
  lemma InsertLikeKeepsUnique(rows: map<nat, Like>, k: nat, row: Like)
    requires LikesUnique(rows) && k !in rows
    requires !HasLike(rows, row.user, row.contentType, row.objectId)
    ensures LikesUnique(rows[k := row])
  {
    var m := rows[k := row];
    forall a, b | a in m && b in m && a != b
      ensures !SameTarget(m[a], m[b])
    {
      if a == k {
        assert !(rows[b].user == row.user && rows[b].contentType == row.contentType && rows[b].objectId == row.objectId);
      } else if b == k {
        assert !(rows[a].user == row.user && rows[a].contentType == row.contentType && rows[a].objectId == row.objectId);
      }
    }
  }

  // ---------------------------------------------------------------------
  // The file-extension validator on Document.file

  const ALLOWED_EXTENSIONS: seq<string> := ["pdf", "doc", "docx", "ppt", "pptx"]

  /** Position of the last `c` in `s`, or -1 (Python's `rfind`). */
  function LastIndexOf(s: string, c: char): (r: int)
    ensures -1 <= r < |s|
    ensures r >= 0 ==> s[r] == c
    ensures forall j :: r < j < |s| ==> s[j] != c
    decreases |s|
  {
    if |s| == 0 then -1
    else if s[|s| - 1] == c then |s| - 1
    else LastIndexOf(s[..|s| - 1], c)
  }

  /** The last path component of a file name. */
  function BaseName(path: string): string
  {
    path[LastIndexOf(path, '/') + 1..]
  }

  /** The extension the validator compares: the final component's suffix
      without its dot, lower-cased; "" when the dot is the first or the last
      character of the component or there is none. */
  function FileExtension(path: string): string
  {
    Suffix(BaseName(path))
  }

  /** `Path(name).suffix[1:].lower()` for the final component. */
  function Suffix(name: string): string
  {
    var i := LastIndexOf(name, '.');
    if 0 < i < |name| - 1 then Text.Lower(name[i + 1..]) else ""
  }

  /** A suffix is lower-case and is what follows the name's last dot, a dot
      that is not the name's first character. */
  lemma SuffixShape(name: string)
    ensures var e := Suffix(name);
      && e == Text.Lower(e)
      && (e != "" ==> |e| + 1 < |name| && name[|name| - |e| - 1] == '.' && Text.Lower(name[|name| - |e|..]) == e)
      && (e != "" ==> forall j :: |name| - |e| <= j < |name| ==> name[j] != '.')
  {
    var i := LastIndexOf(name, '.');
    if 0 < i < |name| - 1 {
      Text.LowerIdempotent(name[i + 1..]);
      assert |name| - |Suffix(name)| - 1 == i;
      assert name[|name| - |Suffix(name)|..] == name[i + 1..];
    }
  }

  /** The validator's verdict: the extension, in any letter case, is one
      of the five. */
  predicate AllowedDocumentFile(path: string)
  {
    FileExtension(path) in ALLOWED_EXTENSIONS
  }

  /** A file without a real suffix is refused: an accepted extension has
      three or four letters. */
  lemma AllowedExtensionLength(path: string)
    requires AllowedDocumentFile(path)
    ensures 3 <= |FileExtension(path)| <= 4
  {
  }

  /** A rewrite of the documents table that keeps every file keeps every
      file valid. */
  lemma SameFilesAllowed(before: map<nat, Document>, after: map<nat, Document>)
    requires after.Keys == before.Keys
    requires forall k :: k in after ==> after[k].file == before[k].file
    requires forall k :: k in before ==> AllowedDocumentFile(before[k].file)
    ensures forall k :: k in after ==> AllowedDocumentFile(after[k].file)
  {
  }

  /** An allowed suffix is what follows the name's last dot, and that dot
      is not the name's first character. */
  lemma AllowedSuffixEndsName(name: string)
    requires Suffix(name) in ALLOWED_EXTENSIONS
    ensures var e := Suffix(name);
      |e| + 1 < |name| && name[|name| - |e| - 1] == '.' && Text.Lower(name[|name| - |e|..]) == e
  {
    var i := LastIndexOf(name, '.');
    assert "" !in ALLOWED_EXTENSIONS;
    var e := Suffix(name);
    assert 0 < i < |name| - 1;
    assert |name| - |e| - 1 == i;
    assert name[|name| - |e|..] == name[i + 1..];
  }
}
