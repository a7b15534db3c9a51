/** The permission classes of api/permissions.py, and the way the review and comment
    views combine them with the framework's `IsAuthenticatedOrReadOnly`. */
module Permissions {
  import opened Common
  import opened Models

  datatype Method = GET | HEAD | OPTIONS | POST | PUT | PATCH | DELETE

  /** `SAFE_METHODS`. */
  predicate IsSafe(m: Method)
  {
    m == GET || m == HEAD || m == OPTIONS
  }

  /** The part of a request the permission classes look at; `None` is the anonymous user. */
  datatype Request = Request(verb: Method, user: Option<CustomUser>)

  predicate IsAuthenticated(req: Request)
  {
    req.user.Some?
  }

  /** `IsAdminUserOrReadOnly.has_permission`. */
  predicate AdminUserOrReadOnly(req: Request)
  {
    if IsSafe(req.verb) then true
    else if IsAuthenticated(req) then IsAdmin(req.user.value)
    else false
  }

  /** `IsAuthorAdminModeratorOrReadOnly.has_object_permission`, for an object whose
      author is stored as the given username. The source compares user keys; a username
      is unique at any one time, but a rename is not carried over to stored authors. */
  predicate AuthorAdminModeratorOrReadOnly(req: Request, author: string)
  {
    if IsAuthenticated(req) then
      IsSafe(req.verb)
      || req.user.value.username == author
      || IsAdmin(req.user.value)
      || IsModerator(req.user.value)
    else
      IsSafe(req.verb)
  }

  /** `IsAdmin.has_permission`. */
  predicate AdminOnly(req: Request)
  {
    IsAuthenticated(req) && IsAdmin(req.user.value)
  }

  /** The framework's `IsAuthenticatedOrReadOnly.has_permission`. */
  predicate AuthenticatedOrReadOnly(req: Request)
  {
    IsSafe(req.verb) || IsAuthenticated(req)
  }

  /** The review and comment views list both classes: every view-level check, then every
      object-level check (the view-level check of the object class and the object-level
      check of the framework class both allow everything). */
  predicate ReviewCommentObjectAccess(req: Request, author: string)
  {
    AuthenticatedOrReadOnly(req) && AuthorAdminModeratorOrReadOnly(req, author)
  }

  lemma SafeMethodsAlwaysGranted(req: Request)
    requires IsSafe(req.verb)
    ensures AdminUserOrReadOnly(req)
    ensures forall author :: AuthorAdminModeratorOrReadOnly(req, author)
  {
  }

  lemma AnonymousUnsafeDenied(req: Request, author: string)
    requires !IsSafe(req.verb) && !IsAuthenticated(req)
    ensures !AdminUserOrReadOnly(req)
    ensures !AuthorAdminModeratorOrReadOnly(req, author)
    ensures !AdminOnly(req)
  {
  }

  lemma AuthenticatedUnsafeIffAdmin(req: Request)
    requires !IsSafe(req.verb) && IsAuthenticated(req)
    ensures AdminUserOrReadOnly(req) <==> IsAdmin(req.user.value)
  {
  }

  lemma AnonymousObjectAccessIffSafe(req: Request, author: string)
    requires !IsAuthenticated(req)
    ensures AuthorAdminModeratorOrReadOnly(req, author) <==> IsSafe(req.verb)
  {
  }

  lemma AuthenticatedObjectAccess(req: Request, author: string)
    requires IsAuthenticated(req)
    ensures AuthorAdminModeratorOrReadOnly(req, author) <==>
      (IsSafe(req.verb) || req.user.value.username == author
       || IsAdmin(req.user.value) || IsModerator(req.user.value))
  {
  }

  /** A plain user (role `user`, no staff flag) who is not the author can never modify or
      delete a review or comment. */
  lemma PlainUserCannotModifyOthers(req: Request, author: string)
    requires IsAuthenticated(req) && !IsSafe(req.verb)
    requires req.user.value.role == User && !req.user.value.isStaff
    requires req.user.value.username != author
    ensures !AuthorAdminModeratorOrReadOnly(req, author)
    ensures !ReviewCommentObjectAccess(req, author)
  {
  }

  /** `IsAdmin` ignores the method, and whatever it grants `IsAdminUserOrReadOnly` grants too. */
  lemma AdminOnlyIgnoresMethod(req: Request, m: Method)
    ensures AdminOnly(req) <==> AdminOnly(req.(verb := m))
    ensures AdminOnly(req) ==> AdminUserOrReadOnly(req)
  {
  }

  /** Through the combined review/comment check, an unsafe request on an object is granted
      exactly to an authenticated author, admin or moderator. */
  lemma CombinedUnsafeAccess(req: Request, author: string)
    requires !IsSafe(req.verb)
    ensures ReviewCommentObjectAccess(req, author) <==>
      (IsAuthenticated(req) &&
       (req.user.value.username == author || IsAdmin(req.user.value) || IsModerator(req.user.value)))
  {
  }
}
