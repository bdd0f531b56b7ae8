/** The permission classes of polls/permissions.py (and DRF's own
    `IsAuthenticated`, which the views use) as decisions over the request's
    user, HTTP method and, for object checks, the choice's poll. */
module Permissions {
  import opened Models

  datatype HttpMethod = Get | Head | Options | Post | Put | Patch | Delete

  /** DRF's SAFE_METHODS. */
  predicate IsSafe(m: HttpMethod) {
    m == Get || m == Head || m == Options
  }

  /** DRF `IsAuthenticated.has_permission`. */
  predicate IsAuthenticated(u: Actor) {
    u.IsAuthenticated()
  }

  /** `IsAdminOnly.has_permission`. */
  predicate IsAdminOnly(u: Actor) {
    u.IsAuthenticated() && u.IsStaff()
  }

  /** `IsAdminOrOwner.has_object_permission`: only the staff branch returns
      True; the owner branch the name announces is not there. */
  predicate IsAdminOrOwnerObject(u: Actor) {
    if u.IsAuthenticated() && u.IsStaff() then true
    else false
  }

  /** `IsAdminOrPollCreatorForChoices.has_permission`. */
  predicate ChoicesPermission(u: Actor, m: HttpMethod) {
    if IsSafe(m) then u.IsAuthenticated()
    else u.IsAuthenticated()
  }

  /** `IsAdminOrPollCreatorForChoices.has_object_permission` for a choice
      whose poll is `poll`. */
  predicate ChoicesObjectPermission(u: Actor, m: HttpMethod, poll: Poll) {
    if IsSafe(m) then u.IsAuthenticated()
    else if u.IsAuthenticated() && u.IsStaff() then true
    else if poll.isProposal && u.Is(poll.createdBy) then true
    else false
  }

  /** `CanVote.has_permission`. */
  predicate CanVote(u: Actor) {
    u.IsAuthenticated()
  }

  /** The permission classes, as values a view can hold in its
      `permission_classes` list. */
  datatype PermissionClass =
    | IsAuthenticatedClass
    | IsAdminOnlyClass
    | IsAdminOrOwnerClass
    | IsAdminOrPollCreatorForChoicesClass
    | CanVoteClass

  /** `has_permission` of each class. `IsAdminOrOwner` does not override it,
      so DRF's default (allow) applies. */
  predicate HasPermission(cls: PermissionClass, u: Actor, m: HttpMethod) {
    match cls
    case IsAuthenticatedClass => IsAuthenticated(u)
    case IsAdminOnlyClass => IsAdminOnly(u)
    case IsAdminOrOwnerClass => true
    case IsAdminOrPollCreatorForChoicesClass => ChoicesPermission(u, m)
    case CanVoteClass => CanVote(u)
  }

  /** `IsAdminOnly` allows exactly the authenticated staff. */
  lemma AdminOnlyAllowsStaff(u: Actor, m: HttpMethod)
    ensures HasPermission(IsAdminOnlyClass, u, m) <==> u.Member? && u.isStaff
  {
  }

  /** `CanVote` and the choice view's class-level check decide exactly as
      `IsAuthenticated` does, whatever the method. */
  lemma AuthenticationOnlyClasses(u: Actor, m: HttpMethod)
    ensures HasPermission(CanVoteClass, u, m) <==> u.Member?
    ensures HasPermission(IsAdminOrPollCreatorForChoicesClass, u, m) <==> u.Member?
    ensures HasPermission(IsAuthenticatedClass, u, m) <==> u.Member?
  {
  }

  /** The object check of the choice permission: reads need authentication;
      writes need staff, or a proposal created by the user. */
  lemma ChoicesObjectPermissionCases(u: Actor, m: HttpMethod, poll: Poll)
    ensures IsSafe(m) ==> (ChoicesObjectPermission(u, m, poll) <==> u.Member?)
    ensures !IsSafe(m) ==>
      (ChoicesObjectPermission(u, m, poll) <==>
         u.Member? && (u.isStaff || (poll.isProposal && poll.createdBy == u.id)))
  {
  }

  /** Despite its name, `IsAdminOrOwner` lets the creator of nothing through:
      its object check is exactly `IsAdminOnly`. */
  lemma AdminOrOwnerIsAdminOnly(u: Actor, m: HttpMethod)
    ensures IsAdminOrOwnerObject(u) <==> HasPermission(IsAdminOnlyClass, u, m)
  {
  }

  /** An unauthenticated user is denied by every check except the default
      `has_permission` of `IsAdminOrOwner`, whose object check still denies. */
  lemma AnonymousDenied(m: HttpMethod, poll: Poll)
    ensures forall cls :: cls != IsAdminOrOwnerClass ==> !HasPermission(cls, Anonymous, m)
    ensures !IsAdminOrOwnerObject(Anonymous)
    ensures !ChoicesObjectPermission(Anonymous, m, poll)
  {
  }
}
