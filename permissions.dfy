/** The permission classes: boolean rules over the request and the object. */
module Permissions {
  import opened Results
  import opened Models

  datatype HttpMethod = GET | HEAD | OPTIONS | POST | PUT | PATCH | DELETE

  /** GET, HEAD and OPTIONS are the framework's safe methods. */
  predicate IsSafe(m: HttpMethod)
  {
    m == GET || m == HEAD || m == OPTIONS
  }

  /** Which of the three owner attributes an object has, and whom each
      names (None: the object has no such attribute). */
  datatype OwnerAttributes = OwnerAttributes(uploadedBy: Option<nat>, user: Option<nat>, awardedBy: Option<nat>)

  /** The request's user equals the user `owner` names. */
  predicate IsUser(actor: Actor, owner: nat)
  {
    actor.Member? && actor.id == owner
  }

  /** `IsOwnerOrReadOnly.has_object_permission`. */
  function IsOwnerOrReadOnly(m: HttpMethod, actor: Actor, obj: OwnerAttributes): (allowed: bool)
    ensures IsSafe(m) ==> allowed
    ensures allowed && !IsSafe(m) ==> actor.Member?
  {
    if IsSafe(m) then true
    else if obj.uploadedBy.Some? then IsUser(actor, obj.uploadedBy.value)
    else if obj.user.Some? then IsUser(actor, obj.user.value)
    else if obj.awardedBy.Some? then IsUser(actor, obj.awardedBy.value)
    else false
  }

  /** For a write, the first attribute present among uploaded_by, user,
      awarded_by alone decides, whatever the later ones name. */
  lemma FirstOwnerAttributeDecides(m: HttpMethod, actor: Actor, obj: OwnerAttributes)
    requires !IsSafe(m)
    ensures obj.uploadedBy.Some? ==>
      IsOwnerOrReadOnly(m, actor, obj) == IsUser(actor, obj.uploadedBy.value)
    ensures obj.uploadedBy.None? && obj.user.Some? ==>
      IsOwnerOrReadOnly(m, actor, obj) == IsUser(actor, obj.user.value)
    ensures obj.uploadedBy.None? && obj.user.None? && obj.awardedBy.Some? ==>
      IsOwnerOrReadOnly(m, actor, obj) == IsUser(actor, obj.awardedBy.value)
  {
  }

  /** An object with none of the three attributes is never writable. */
  lemma NoOwnerAttributeDeniesWrites(m: HttpMethod, actor: Actor)
    requires !IsSafe(m)
    ensures !IsOwnerOrReadOnly(m, actor, OwnerAttributes(None, None, None))
  {
  }

  /** An anonymous request may only read. */
  lemma AnonymousOnlyReads(m: HttpMethod, obj: OwnerAttributes)
    ensures IsOwnerOrReadOnly(m, Anonymous, obj) <==> IsSafe(m)
  {
  }

  /** The owner attributes each record type exposes. */
  function PhotoOwner(p: Photo): OwnerAttributes { OwnerAttributes(Some(p.uploadedBy), None, None) }
  function DocumentOwner(d: Document): OwnerAttributes { OwnerAttributes(Some(d.uploadedBy), None, None) }
  function RewardOwner(r: Reward): OwnerAttributes { OwnerAttributes(None, None, Some(r.awardedBy)) }
  function CommentOwner(c: Comment): OwnerAttributes { OwnerAttributes(None, Some(c.user), None) }
  function LikeOwner(l: Like): OwnerAttributes { OwnerAttributes(None, Some(l.user), None) }
  function RequestOwner(q: RepresentativeRequest): OwnerAttributes { OwnerAttributes(None, Some(q.user), None) }
  /** A category names its creator `created_by`, none of the three.  No
      view applies IsOwnerOrReadOnly to categories (their writes go through
      IsAdminOrRepresentative); this only shows what the class would do. */
  function CategoryOwner(c: Category): OwnerAttributes { OwnerAttributes(None, None, None) }

  /** Writes to a comment are allowed exactly to its author; a category
      would be write-denied even to its creator, were the class applied to
      it. */
  lemma CommentAndCategoryWrites(m: HttpMethod, actor: Actor, c: Comment, cat: Category)
    requires !IsSafe(m)
    ensures IsOwnerOrReadOnly(m, actor, CommentOwner(c)) <==> actor.Member? && actor.id == c.user
    ensures !IsOwnerOrReadOnly(m, actor, CategoryOwner(cat))
  {
  }

  /** `IsRepresentative.has_permission`. */
  function IsRepresentative(actor: Actor): (allowed: bool)
    ensures allowed ==> actor.Member?
    ensures actor.Member? ==> (allowed <==> actor.user.isRepresentative)
  {
    actor.Member? && actor.user.isRepresentative
  }

  /** `IsAdminOrRepresentative.has_permission`. */
  function IsAdminOrRepresentative(actor: Actor): (allowed: bool)
    ensures allowed <==> IsRepresentative(actor) || IsAdminUser(actor)
  {
    actor.Member? && (actor.user.isStaff || actor.user.isRepresentative)
  }

  /** The framework's IsAdminUser: a staff user. */
  function IsAdminUser(actor: Actor): (allowed: bool)
    ensures allowed ==> actor.Member?
    ensures actor.Member? ==> (allowed <==> actor.user.isStaff)
  {
    actor.Member? && actor.user.isStaff
  }

  /** Every representative passes IsAdminOrRepresentative, and so does every
      staff user; nobody else does. */
  lemma AdminOrRepresentativeIsUnion(actor: Actor)
    ensures IsRepresentative(actor) ==> IsAdminOrRepresentative(actor)
    ensures IsAdminUser(actor) ==> IsAdminOrRepresentative(actor)
    ensures IsAdminOrRepresentative(actor) ==> IsRepresentative(actor) || IsAdminUser(actor)
  {
  }
}
