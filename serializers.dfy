/** The serializers' validation rules and computed fields. */
module Serializers {
  import opened Results
  import opened Models
  import Text

  /** The key DRF reports errors under when a `validate` raises a plain
      message. */
  const NON_FIELD_ERRORS: string := "non_field_errors"

  /** The fields UserRegistrationSerializer accepts. */
  datatype Registration = Registration(
    username: string, email: string, password: string, password2: string,
    firstName: string, lastName: string, department: string, campus: string, batch: string)

  /** The keyword arguments `create_user` receives. */
  datatype UserArgs = UserArgs(
    username: string, email: string, password: string,
    firstName: string, lastName: string, department: string, campus: string, batch: string)

  /** `UserRegistrationSerializer.validate`. */
  function ValidateRegistration(attrs: Registration): (r: Result<Registration>)
    ensures r.Err? <==> attrs.password != attrs.password2
    ensures r.Err? ==> r.error == Invalid("password", "Password fields didn't match.")
    ensures r.Ok? ==> r.value == attrs
  {
    if attrs.password != attrs.password2 then Err(Invalid("password", "Password fields didn't match."))
    else Ok(attrs)
  }

  /** `validated_data.pop('password2')`: what is left is passed to
      `create_user`. */
  function CreateUserArgs(d: Registration): UserArgs
  {
    UserArgs(d.username, d.email, d.password, d.firstName, d.lastName, d.department, d.campus, d.batch)
  }

  /** The user manager's `normalize_email`: the part after the last '@' is
      lower-cased, the part before it kept; an address without '@' is kept
      whole. */
  function NormalizeEmail(email: string): (e: string)
    ensures |e| == |email|
    ensures LastIndexOf(email, '@') < 0 ==> e == email
    ensures var i := LastIndexOf(email, '@');
      i >= 0 ==> e[..i + 1] == email[..i + 1] && e[i + 1..] == Text.Lower(email[i + 1..])
  {
    var i := LastIndexOf(email, '@');
    if i < 0 then email else email[..i + 1] + Text.Lower(email[i + 1..])
  }

  /** Lower-casing never produces an '@', so the last '@' stays where it was. */
  lemma NormalizeKeepsLastAt(email: string)
    ensures LastIndexOf(NormalizeEmail(email), '@') == LastIndexOf(email, '@')
  {
    var i := LastIndexOf(email, '@');
    var e := NormalizeEmail(email);
    if i >= 0 {
      assert e[i] == '@';
      forall j | i < j < |e| ensures e[j] != '@' {
        assert e[j] == Text.Lower(email[i + 1..])[j - i - 1];
      }
    }
  }

  /** A normalised address is its own normal form. */
  lemma {:induction false} NormalizeEmailIdempotent(email: string)
    ensures NormalizeEmail(NormalizeEmail(email)) == NormalizeEmail(email)
  {
    var e := NormalizeEmail(email);
    NormalizeKeepsLastAt(email);
    var i := LastIndexOf(email, '@');
    if i >= 0 {
      Text.LowerIdempotent(email[i + 1..]);
      assert e[..i + 1] + Text.Lower(e[i + 1..]) == e;
    }
  }

  /** An occurrence with none after it is the last one. */
  lemma LastIndexOfIs(s: string, c: char, k: nat)
    requires k < |s| && s[k] == c && c !in s[k + 1..]
    ensures LastIndexOf(s, c) == k
  {
    forall j | k < j < |s| ensures s[j] != c {
      assert s[j] == s[k + 1..][j - k - 1];
    }
  }

  /** Two addresses that differ only in the domain's case are stored the
      same, although they are different strings. */
  lemma DomainCaseCollides()
    ensures "a@EXAMPLE.COM" != "a@example.com"
    ensures NormalizeEmail("a@EXAMPLE.COM") == NormalizeEmail("a@example.com") == "a@example.com"
  {
    LastIndexOfIs("a@EXAMPLE.COM", '@', 1);
    assert Text.Lower("EXAMPLE.COM") == "example.com";
    assert NormalizeEmail("a@EXAMPLE.COM") == "a@example.com";
    NormalizeKeepsLastAt("a@EXAMPLE.COM");
    assert Text.Lower("example.com") == "example.com";
  }

  /** The account `create_user` stores: the model's defaults for every
      field the registration does not set, and the normalised email (the
      password is hashed and kept outside this model). */
  function NewUser(a: UserArgs): (u: User)
    ensures u.userType == Student && !u.isRepresentative && !u.isVerified
    ensures !u.isStaff && u.isActive
    ensures u.email == NormalizeEmail(a.email) && u.username == a.username
  {
    User(a.username, NormalizeEmail(a.email), a.firstName, a.lastName, a.department, a.campus, a.batch,
         Student, false, false, false, true)
  }

  /** A confirmed registration loses only its confirmation field; its email
      is stored in normal form. */
  lemma CreateKeepsRegistrationFields(d: Registration)
    requires ValidateRegistration(d).Ok?
    ensures var u := NewUser(CreateUserArgs(ValidateRegistration(d).value));
      u.username == d.username && u.email == NormalizeEmail(d.email) && u.firstName == d.firstName && u.lastName == d.lastName
      && u.department == d.department && u.campus == d.campus && u.batch == d.batch
    ensures CreateUserArgs(d).password == d.password2
  {
  }

  datatype LoginAttrs = LoginAttrs(email: Option<string>, password: Option<string>)

  /** Python truthiness of an optional string. */
  predicate Truthy(s: Option<string>)
  {
    s.Some? && s.value != ""
  }

  /** `UserLoginSerializer.validate`; `authenticate` is the framework's
      credential check, taken as given.  Through `is_valid` the "Must
      include" branch is never reached: the required email and password
      fields refuse a missing or blank value before `validate` runs.  It is
      kept because `validate` is written to handle it. */
  function ValidateLogin(attrs: LoginAttrs, authenticate: (string, string) -> Option<User>): (r: Result<User>)
    ensures !(Truthy(attrs.email) && Truthy(attrs.password)) ==>
      r == Err(Invalid(NON_FIELD_ERRORS, "Must include email and password"))
    ensures Truthy(attrs.email) && Truthy(attrs.password) ==>
      var found := authenticate(attrs.email.value, attrs.password.value);
      && (found.None? ==> r == Err(Invalid(NON_FIELD_ERRORS, "Invalid credentials")))
      && (found.Some? && !found.value.isActive ==> r == Err(Invalid(NON_FIELD_ERRORS, "Account disabled")))
      && (found.Some? && found.value.isActive ==> r == Ok(found.value))
    ensures r.Ok? ==> r.value.isActive
  {
    if Truthy(attrs.email) && Truthy(attrs.password) then
      var found := authenticate(attrs.email.value, attrs.password.value);
      if found.None? then Err(Invalid(NON_FIELD_ERRORS, "Invalid credentials"))
      else if !found.value.isActive then Err(Invalid(NON_FIELD_ERRORS, "Account disabled"))
      else Ok(found.value)
    else Err(Invalid(NON_FIELD_ERRORS, "Must include email and password"))
  }

  /** Login succeeds exactly when both credentials are given and the
      credential check yields an active account; the checks' order means a
      missing field is reported even when the credential check would fail. */
  lemma LoginSucceedsIff(attrs: LoginAttrs, authenticate: (string, string) -> Option<User>)
    ensures ValidateLogin(attrs, authenticate).Ok? <==>
      Truthy(attrs.email) && Truthy(attrs.password)
      && authenticate(attrs.email.value, attrs.password.value).Some?
      && authenticate(attrs.email.value, attrs.password.value).value.isActive
  {
  }

  /** `get_user_has_liked`; `request` is None when the serializer has no
      request in its context. */
  function UserHasLiked(request: Option<Actor>, likes: set<nat>): (liked: bool)
    ensures request.Some? && request.value.Member? ==> (liked <==> request.value.id in likes)
    ensures liked ==> request.Some? && request.value.Member? && request.value.id in likes
  {
    if request.Some? && request.value.Member? then request.value.id in likes else false
  }

  /** After the request's user toggles their like, `user_has_liked` flips. */
  lemma UserHasLikedFlipsOnToggle(actor: Actor, likes: set<nat>)
    requires actor.Member?
    ensures UserHasLiked(Some(actor), Toggled(likes, actor.id)) == !UserHasLiked(Some(actor), likes)
  {
  }

  /** The comments whose generic target is the given object. */
  function CommentsOn(comments: map<nat, Comment>, kind: TargetKind, objectId: nat): (r: set<nat>)
    ensures r <= comments.Keys
    ensures forall id :: id in comments ==> (id in r <==> comments[id].contentType == kind && comments[id].objectId == objectId)
  {
    set id | id in comments && comments[id].contentType == kind && comments[id].objectId == objectId
  }

  /** `get_comments_count`: how many comments target this object. */
  function CommentsCount(comments: map<nat, Comment>, kind: TargetKind, objectId: nat): (n: nat)
    ensures n <= |comments|
    ensures n == 0 <==> forall id :: id in comments ==> !(comments[id].contentType == kind && comments[id].objectId == objectId)
  {
    var on := CommentsOn(comments, kind, objectId);
    SubsetNoLarger(on, comments.Keys);
    |on|
  }

  lemma {:induction false} SubsetNoLarger(a: set<nat>, b: set<nat>)
    requires a <= b
    ensures |a| <= |b|
    decreases b
  {
    if a != {} {
      var x :| x in a;
      SubsetNoLarger(a - {x}, b - {x});
    }
  }

  /** Storing one more comment raises exactly its own target's count, by one. */
  lemma CommentsCountAfterInsert(comments: map<nat, Comment>, k: nat, c: Comment, kind: TargetKind, objectId: nat)
    requires k !in comments
    ensures CommentsCount(comments[k := c], kind, objectId)
         == CommentsCount(comments, kind, objectId) + (if c.contentType == kind && c.objectId == objectId then 1 else 0)
  {
    var before := CommentsOn(comments, kind, objectId);
    var after := CommentsOn(comments[k := c], kind, objectId);
    if c.contentType == kind && c.objectId == objectId {
      assert after == before + {k};
    } else {
      assert after == before;
    }
  }

  /** `get_image_url`; `storageUrl` is the storage backend's URL for a
      stored file name. */
  function ImageUrl(r: Reward, storageUrl: string -> string): (url: Option<string>)
    ensures url.None? <==> r.image == ""
    ensures url.Some? ==> url.value == storageUrl(r.image)
  {
    if r.image != "" then Some(storageUrl(r.image)) else None
  }
}
