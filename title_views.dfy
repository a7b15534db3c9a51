/** `TitleViewSet`: which serializer each action uses, the field checks of
    `TitleWriteSerializer`, and the `create`/`update` views that take the raw genre list
    out of the request and validate a placeholder in its place. */
module TitleViews {
  import opened Common
  import opened Models
  import opened GenreLinks
  import opened Catalog
  import Validators

  datatype Action = List | Retrieve | Create | Update | PartialUpdate | Destroy

  datatype SerializerClass = ReadSerializer | WriteSerializer

  /** `get_serializer_class`. */
  function GetSerializerClass(a: Action): (s: SerializerClass)
    ensures s == ReadSerializer <==> a == List || a == Retrieve
  {
    if a == List || a == Retrieve then ReadSerializer else WriteSerializer
  }

  /** Every action that writes a title goes through the write serializer. */
  lemma WritesUseWriteSerializer(a: Action)
    ensures a in {Create, Update, PartialUpdate, Destroy} ==> GetSerializerClass(a) == WriteSerializer
  {
  }

  /** A request body for a title; `None` is a missing key, and `description` can also be
      an explicit null. */
  datatype TitlePayload = TitlePayload(
    name: Option<string>,
    year: Option<int>,
    description: Option<Option<string>>,
    category: Option<string>,
    genre: Option<seq<GenreSpec>>)

  /** The slug of the placeholder genre the view validates instead of the caller's list. */
  const PlaceholderSlug: string := "slug"

  /** A present field passes its check; a missing one is fine only on a partial update. */
  predicate FieldOk<T>(field: Option<T>, partial: bool, check: T -> bool)
  {
    if field.Some? then check(field.value) else partial
  }

  predicate NameOk(name: string)
  {
    name != ""
  }

  /** `PositiveSmallIntegerField` with `validate_year`. */
  predicate YearOk(year: int, currentYear: int)
  {
    0 <= year && Validators.ValidateYear(year, currentYear).Ok?
  }

  /** `is_valid` of `TitleWriteSerializer`: `name` non-blank, `year` not negative and not
      after the current year, `category` the slug of an existing category, `genre` present
      (the placeholder, which only passes while no stored genre has its slug), all of them
      required unless the update is partial; `description` is optional and nullable. */
  function ValidateTitle(p: TitlePayload, partial: bool, currentYear: int,
                         categories: map<string, string>, genres: map<string, string>)
    : (r: Result<TitleChanges>)
    ensures r.Err? ==> r.error == BadRequest
    ensures r.Ok? ==> r.value == TitleChanges(p.name, p.year, p.description, p.category)
    ensures r.Ok? && !partial ==>
      p.name.Some? && p.year.Some? && p.category.Some? && p.genre.Some?
    ensures r.Ok? && p.year.Some? ==> 0 <= p.year.value <= currentYear
    ensures r.Ok? && p.category.Some? ==> p.category.value in categories
    ensures r.Ok? && p.genre.Some? ==> PlaceholderSlug !in genres
    ensures p.name == Some("") ==> r.Err?
  {
    if FieldOk(p.name, partial, NameOk)
       && FieldOk(p.year, partial, (y: int) => YearOk(y, currentYear))
       && FieldOk(p.category, partial, (c: string) => c in categories)
       && FieldOk(p.genre, partial, (g: seq<GenreSpec>) => PlaceholderSlug !in genres)
    then Ok(TitleChanges(p.name, p.year, p.description, p.category))
    else Err(BadRequest)
  }

  /** An empty `PATCH` body is valid and assigns nothing. */
  lemma EmptyPatchChangesNothing(t: Title, currentYear: int,
                                 categories: map<string, string>, genres: map<string, string>)
    ensures ValidateTitle(TitlePayload(None, None, None, None, None), true, currentYear, categories, genres)
         == Ok(TitleChanges(None, None, None, None))
    ensures ApplyChanges(t, TitleChanges(None, None, None, None)) == t
  {
  }

  /** A full update has to carry a `genre` key, even an empty one. */
  lemma FullUpdateNeedsGenre(p: TitlePayload, currentYear: int,
                             categories: map<string, string>, genres: map<string, string>)
    ensures p.genre.None? ==> ValidateTitle(p, false, currentYear, categories, genres) == Err(BadRequest)
  {
  }

  /** `TitleViewSet.create`: pop the genre list (a missing key raises), validate the body
      with the placeholder, then `create` with the popped list. A spec that fails raises:
      the title and the rows of the specs before it stay (`n` of them). */
  method CreateTitleView(c: Catalog, p: TitlePayload, currentYear: int)
    returns (r: Result<nat>, ghost n: nat)
    requires c.Valid()
    modifies c`titles, c`nextTitle, c`genres, c`links, c`nextLink
    ensures c.Valid()
    ensures p.genre.None? ==> r == Err(ServerError) && unchanged(c)
    ensures p.genre.Some? && ValidateTitle(p, false, currentYear, old(c.categories), old(c.genres)).Err? ==>
      r == Err(BadRequest) && unchanged(c)
    ensures r.Ok? <==>
      (p.genre.Some? && ValidateTitle(p, false, currentYear, old(c.categories), old(c.genres)).Ok?
       && Compatible(old(c.genres), p.genre.value))
    ensures (p.genre.Some? && ValidateTitle(p, false, currentYear, old(c.categories), old(c.genres)).Ok?
             && !Compatible(old(c.genres), p.genre.value)) ==>
      r == Err(ServerError)
    ensures r.Ok? ==> r.value == old(c.nextTitle) && r.value !in old(c.titles)
    ensures (p.genre.Some? && ValidateTitle(p, false, currentYear, old(c.categories), old(c.genres)).Ok?) ==>
      c.titles == old(c.titles)[old(c.nextTitle) :=
        Title(p.name.value, p.year.value, GetOr(p.description, None), p.category)]
      && n <= |p.genre.value| && (r.Ok? ==> n == |p.genre.value|)
      && AllAccepted(old(c.genres), p.genre.value[..n])
      && (r.Err? ==> n < |p.genre.value| && !Accepts(UpsertAll(old(c.genres), p.genre.value[..n]), p.genre.value[n]))
      && c.genres == UpsertAll(old(c.genres), p.genre.value[..n])
      && c.links == old(c.links) + NewRows(old(c.nextLink), p.genre.value[..n], old(c.nextTitle))
    ensures r.Ok? ==> RowsOf(c.links, r.value) == NewRows(old(c.nextLink), p.genre.value, r.value)
    ensures r.Ok? && p.genre.value == [] ==> RowsOf(c.links, r.value) == []
    ensures r.Ok? ==> forall u :: u != r.value ==> RowsOf(c.links, u) == RowsOf(old(c.links), u)
  {
    if p.genre.None? {
      return Err(ServerError), 0;
    }
    var v := ValidateTitle(p, false, currentYear, c.categories, c.genres);
    if v.Err? {
      return Err(v.error), 0;
    }
    ghost var before := c.links;
    var created;
    created, n := c.CreateTitle(
      NewTitle(p.name.value, p.year.value, GetOr(p.description, None), p.category.value), p.genre.value);
    if created.Ok? {
      assert p.genre.value[..n] == p.genre.value;
      forall u | u != created.value
        ensures RowsOf(c.links, u) == RowsOf(before, u)
      {
        RowsOfConcat(before, NewRows(old(c.nextLink), p.genre.value, created.value), u);
        NoMembersEmpty(RowsOf(NewRows(old(c.nextLink), p.genre.value, created.value), u));
      }
    }
    r := created;
  }

  /** `TitleViewSet.update` (and `partial_update`): look the title up, take the genre list
      out when the key is present, validate, then `update`. A spec that fails raises: the
      fields stay, and the old rows stay beside the `n` new ones inserted before it. */
  method UpdateTitleView(c: Catalog, id: nat, p: TitlePayload, partial: bool, currentYear: int)
    returns (r: Result<()>, ghost n: nat)
    requires c.Valid()
    modifies c`titles, c`genres, c`links, c`nextLink
    ensures c.Valid()
    ensures id !in old(c.titles) ==> r == Err(NotFound) && unchanged(c)
    ensures (id in old(c.titles)
             && ValidateTitle(p, partial, currentYear, old(c.categories), old(c.genres)).Err?) ==>
      r == Err(BadRequest) && unchanged(c)
    ensures r.Ok? <==>
      (id in old(c.titles) && ValidateTitle(p, partial, currentYear, old(c.categories), old(c.genres)).Ok?
       && (p.genre.None? || Compatible(old(c.genres), p.genre.value)))
    ensures (id in old(c.titles) && ValidateTitle(p, partial, currentYear, old(c.categories), old(c.genres)).Ok?
             && p.genre.Some? && !Compatible(old(c.genres), p.genre.value)) ==>
      r == Err(ServerError) && c.titles == old(c.titles)
      && n < |p.genre.value| && c.genres == UpsertAll(old(c.genres), p.genre.value[..n])
      && AllAccepted(old(c.genres), p.genre.value[..n])
      && !Accepts(UpsertAll(old(c.genres), p.genre.value[..n]), p.genre.value[n])
      && c.links == old(c.links) + NewRows(old(c.nextLink), p.genre.value[..n], id)
    ensures p.genre.None? ==> c.links == old(c.links) && c.genres == old(c.genres)
    ensures r.Ok? && p.genre.Some? ==> c.genres == UpsertAll(old(c.genres), p.genre.value)
    ensures r.Ok? && p.genre.Some? ==> c.links == Replaced(old(c.links), id, NewRows(old(c.nextLink), p.genre.value, id))
    ensures r.Ok? ==> c.titles == old(c.titles)[id :=
      ApplyChanges(old(c.titles)[id], TitleChanges(p.name, p.year, p.description, p.category))]
    ensures r.Ok? && p.genre.Some? ==> RowsOf(c.links, id) == NewRows(old(c.nextLink), p.genre.value, id)
    ensures r.Ok? ==> forall u :: u != id ==> RowsOf(c.links, u) == RowsOf(old(c.links), u)
  {
    if id !in c.titles {
      return Err(NotFound), 0;
    }
    var v := ValidateTitle(p, partial, currentYear, c.categories, c.genres);
    if v.Err? {
      return Err(v.error), 0;
    }
    r, n := c.UpdateTitle(id, v.value, p.genre);
  }
}
