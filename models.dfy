/** The records of reviews/models.py: users and their roles, titles, genre links,
    reviews and comments, and the field constraints on them. */
module Models {
  import opened Common

  /** `CustomUser.ROLES`. */
  datatype Role = User | Moderator | Admin

  /** A new account gets the `user` role. */
  const DefaultRole: Role := User

  /** The value stored in the `role` column. */
  function RoleValue(r: Role): string
  {
    match r
    case User => "user"
    case Moderator => "moderator"
    case Admin => "admin"
  }

  /** The choices check of the `role` field: only the three stored values are roles. */
  function ParseRole(s: string): (r: Option<Role>)
    ensures r.Some? <==> s == "user" || s == "moderator" || s == "admin"
    ensures r.Some? ==> RoleValue(r.value) == s
  {
    if s == "user" then Some(User)
    else if s == "moderator" then Some(Moderator)
    else if s == "admin" then Some(Admin)
    else None
  }

  lemma RoleRoundTrip(r: Role)
    ensures ParseRole(RoleValue(r)) == Some(r)
  {
  }

  datatype CustomUser = CustomUser(
    username: string,
    email: string,
    role: Role,
    isStaff: bool,
    confirmationCode: Option<string>,
    firstName: string,
    lastName: string,
    bio: string)

  /** `is_admin()`: the admin role, or the staff flag. */
  predicate IsAdmin(u: CustomUser)
  {
    u.role == Admin || u.isStaff
  }

  /** `is_moderator()`: the moderator role, whatever the staff flag. */
  predicate IsModerator(u: CustomUser)
  {
    u.role == Moderator
  }

  lemma AdminIffRoleOrStaff(u: CustomUser)
    ensures IsAdmin(u) <==> (u.role == Admin || u.isStaff)
    ensures u.role == Moderator && !u.isStaff ==> !IsAdmin(u) && IsModerator(u)
    ensures IsModerator(u) ==> u.role != Admin
  {
  }

  /** A user row as `get_or_create` inserts it on signup: default role, no staff flag,
      the given code, blank profile fields. */
  function NewUser(username: string, email: string, code: string): (u: CustomUser)
    ensures u.username == username && u.email == email
    ensures u.confirmationCode == Some(code)
    ensures u.role == DefaultRole && !IsAdmin(u) && !IsModerator(u)
  {
    CustomUser(username, email, DefaultRole, false, Some(code), "", "", "")
  }

  const MinScore: nat := 1
  const MaxScore: nat := 10

  /** `Review.score` validators: an integer in 1..10. */
  predicate ValidScore(score: int)
  {
    MinScore <= score <= MaxScore
  }

  /** `Title`: `category` is nullable (SET_NULL), `description` optional. */
  datatype Title = Title(name: string, year: int, description: Option<string>, category: Option<string>)

  /** A `GenreTitle` row: its primary key, the genre (by its unique slug) and the title id. */
  datatype GenreTitle = GenreTitle(id: nat, genre: string, title: nat)

  /** `Review`: `pub_date` is a timestamp fixed at insertion. */
  datatype Review = Review(title: nat, author: string, text: string, score: nat, pubDate: int)

  datatype Comment = Comment(review: nat, author: string, text: string, pubDate: int)
}
