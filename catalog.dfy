/** The catalogue and review tables as one in-memory store, with the operations of
    `TitleWriteSerializer`, `ReviewSerializer`, the review and comment views, and the
    `on_delete` rules of the foreign keys. */
module Catalog {
  import opened Common
  import opened Models
  import opened GenreLinks
  import Rating

  /** The validated data `create` receives (the genre list apart). */
  datatype NewTitle = NewTitle(name: string, year: int, description: Option<string>, category: string)

  /** The validated data `update` receives: a field missing from the request is `None`. */
  datatype TitleChanges = TitleChanges(
    name: Option<string>,
    year: Option<int>,
    description: Option<Option<string>>,
    category: Option<string>)

  /** `instance.<field> = validated_data.get('<field>', instance.<field>)`, field by field. */
  function ApplyChanges(t: Title, c: TitleChanges): Title
  {
    Title(
      GetOr(c.name, t.name),
      GetOr(c.year, t.year),
      GetOr(c.description, t.description),
      if c.category.Some? then Some(c.category.value) else t.category)
  }

  /** `on_delete=SET_NULL` on `Title.category`. */
  function ClearCategory(titles: map<nat, Title>, slug: string): (r: map<nat, Title>)
    ensures r.Keys == titles.Keys
    ensures forall t :: t in r ==> r[t].category != Some(slug)
    ensures forall t :: t in r ==> r[t] == titles[t].(category := r[t].category)
    ensures forall t :: t in r ==> r[t].category == titles[t].category || r[t].category == None
  {
    map t | t in titles ::
      if titles[t].category == Some(slug) then titles[t].(category := None) else titles[t]
  }

  /** The reviews of title `t` with a primary key below `n`, in key order. */
  function ScoresOf(reviews: map<nat, Review>, t: nat, n: nat): seq<nat>
  {
    if n == 0 then []
    else ScoresOf(reviews, t, n - 1)
         + (if n - 1 in reviews && reviews[n - 1].title == t then [reviews[n - 1].score] else [])
  }

  ghost predicate HasReviewBelow(reviews: map<nat, Review>, t: nat, n: nat)
  {
    exists r :: r in reviews && r < n && reviews[r].title == t
  }

  lemma {:induction false} ScoresOfShape(reviews: map<nat, Review>, t: nat, n: nat)
    requires forall r :: r in reviews ==> ValidScore(reviews[r].score)
    ensures forall i :: 0 <= i < |ScoresOf(reviews, t, n)| ==> ValidScore(ScoresOf(reviews, t, n)[i])
    ensures |ScoresOf(reviews, t, n)| == 0 <==> !HasReviewBelow(reviews, t, n)
  {
    if n > 0 {
      ScoresOfShape(reviews, t, n - 1);
      if HasReviewBelow(reviews, t, n) && !(n - 1 in reviews && reviews[n - 1].title == t) {
        var r :| r in reviews && r < n && reviews[r].title == t;
        assert HasReviewBelow(reviews, t, n - 1);
      }
    }
  }

  /** At most one review per `(author, title)`: the unique constraint `author_title_connection`. */
  ghost predicate OneReviewPerAuthor(reviews: map<nat, Review>)
  {
    forall a, b ::
      (a in reviews && b in reviews
       && reviews[a].author == reviews[b].author && reviews[a].title == reviews[b].title) ==> a == b
  }

  predicate HasReview(reviews: map<nat, Review>, t: nat, author: string)
  {
    exists r :: r in reviews && reviews[r].title == t && reviews[r].author == author
  }

  // ---------------------------------------------------------------------------
  // The invariant of the store, one table at a time

  /** `GenreTitle` rows: unique keys below the counter, both foreign keys resolve. */
  ghost predicate LinksOk(links: seq<GenreTitle>, genres: map<string, string>,
                          titles: map<nat, Title>, next: nat)
  {
    DistinctIds(links) && IdsBelow(links, next)
    && forall x :: x in links ==> x.genre in genres && x.title in titles
  }

  /** Titles: keys below the counter, a non-null category resolves. */
  ghost predicate TitlesOk(titles: map<nat, Title>, categories: map<string, string>, next: nat)
  {
    forall t :: t in titles ==>
      t < next && (titles[t].category.Some? ==> titles[t].category.value in categories)
  }

  /** Reviews: keys below the counter, the title resolves, the score is in range, and the
      `(author, title)` constraint holds. */
  ghost predicate ReviewsOk(reviews: map<nat, Review>, titles: map<nat, Title>, next: nat)
  {
    (forall r :: r in reviews ==>
       r < next && reviews[r].title in titles && ValidScore(reviews[r].score))
    && OneReviewPerAuthor(reviews)
  }

  /** Comments: keys below the counter, the review resolves. */
  ghost predicate CommentsOk(comments: map<nat, Comment>, reviews: map<nat, Review>, next: nat)
  {
    forall c :: c in comments ==> c < next && comments[c].review in reviews
  }

  lemma LinksOkAppend(links: seq<GenreTitle>, genres: map<string, string>,
                      titles: map<nat, Title>, next: nat, row: GenreTitle)
    requires LinksOk(links, genres, titles, next)
    requires row.id == next && row.genre in genres && row.title in titles
    ensures LinksOk(links + [row], genres, titles, next + 1)
  {
    var l := links + [row];
    forall i, j | 0 <= i < j < |l| ensures l[i].id != l[j].id {
      if j == |links| {
        assert l[i] in links;
      }
    }
  }

  lemma LinksOkWithout(links: seq<GenreTitle>, genres: map<string, string>,
                       titles: map<nat, Title>, next: nat, ids: set<nat>)
    requires LinksOk(links, genres, titles, next)
    ensures LinksOk(Without(links, ids), genres, titles, next)
  {
    WithoutKeepsDistinct(links, ids);
  }

  class Catalog {
    var categories: map<string, string>  // slug -> name
    var genres: map<string, string>      // slug -> name
    var titles: map<nat, Title>
    var links: seq<GenreTitle>
    var reviews: map<nat, Review>
    var comments: map<nat, Comment>
    var nextTitle: nat
    var nextLink: nat
    var nextReview: nat
    var nextComment: nat

    /** Foreign keys point at existing rows, keys are below their counters, scores are in
        range, and each author reviews a title at most once. */
    ghost predicate Valid()
      reads this
    {
      LinksOk(links, genres, titles, nextLink) && TitlesOk(titles, categories, nextTitle)
      && ReviewsOk(reviews, titles, nextReview) && CommentsOk(comments, reviews, nextComment)
    }

    constructor ()
      ensures Valid()
      ensures categories == map[] && genres == map[] && titles == map[]
      ensures links == [] && reviews == map[] && comments == map[]
    {
      categories, genres, titles := map[], map[], map[];
      links, reviews, comments := [], map[], map[];
      nextTitle, nextLink, nextReview, nextComment := 0, 0, 0, 0;
    }

    /** Inserting a category: the slug is unique. */
    method AddCategory(slug: string, name: string) returns (ok: bool)
      requires Valid()
      modifies this`categories
      ensures Valid()
      ensures ok <==> slug !in old(categories)
      ensures categories == if ok then old(categories)[slug := name] else old(categories)
    {
      ok := slug !in categories;
      if ok {
        categories := categories[slug := name];
      }
    }

    /** `Genre.objects.get_or_create(name=, slug=)`: the row with both fields is reused,
        a free slug is inserted, a slug taken under another name fails. */
    method GetOrCreateGenre(spec: GenreSpec) returns (ok: bool)
      requires Valid()
      modifies this`genres
      ensures Valid()
      ensures ok <==> Accepts(old(genres), spec)
      ensures genres == if ok then old(genres)[spec.slug := spec.name] else old(genres)
    {
      if spec.slug in genres && genres[spec.slug] == spec.name {
        ok := true;
      } else if spec.slug in genres {
        ok := false;
      } else {
        genres := genres[spec.slug := spec.name];
        ok := true;
      }
    }

    /** One pass of that loop: resolve the spec, then insert its row. */
    method InsertGenreRow(t: nat, spec: GenreSpec) returns (ok: bool)
      requires Valid() && t in titles
      modifies this`genres, this`links, this`nextLink
      ensures Valid()
      ensures ok <==> Accepts(old(genres), spec)
      ensures genres == if ok then old(genres)[spec.slug := spec.name] else old(genres)
      ensures links == if ok then old(links) + [GenreTitle(old(nextLink), spec.slug, t)] else old(links)
      ensures nextLink == if ok then old(nextLink) + 1 else old(nextLink)
    {
      ok := GetOrCreateGenre(spec);
      if ok {
        LinksOkAppend(links, genres, titles, nextLink, GenreTitle(nextLink, spec.slug, t));
        links := links + [GenreTitle(nextLink, spec.slug, t)];
        nextLink := nextLink + 1;
      }
    }

    /** How far the loop over `specs` has come from the state `(g0, l0, n0)`: the first `i`
        specs are resolved and have one row each. */
    ghost predicate InsertedUpTo(g0: map<string, string>, l0: seq<GenreTitle>, n0: nat,
                                 specs: seq<GenreSpec>, i: nat, t: nat)
      reads this
    {
      i <= |specs| && AllAccepted(g0, specs[..i]) && genres == UpsertAll(g0, specs[..i])
      && links == l0 + NewRows(n0, specs[..i], t) && nextLink == n0 + i
    }

    /** One pass of the loop, stated against the whole batch. */
    method InsertNextRow(t: nat, specs: seq<GenreSpec>, i: nat,
                         ghost g0: map<string, string>, ghost l0: seq<GenreTitle>, ghost n0: nat)
      returns (ok: bool)
      requires Valid() && t in titles && i < |specs| && InsertedUpTo(g0, l0, n0, specs, i, t)
      modifies this`genres, this`links, this`nextLink
      ensures Valid()
      ensures ok <==> Accepts(UpsertAll(g0, specs[..i]), specs[i])
      ensures ok ==> InsertedUpTo(g0, l0, n0, specs, i + 1, t)
      ensures !ok ==> InsertedUpTo(g0, l0, n0, specs, i, t)
    {
      UpsertStep(g0, specs, i);
      NewRowsStep(l0, n0, specs, i, t);
      ok := InsertGenreRow(t, specs[i]);
    }

    /** The loop shared by `create` and `update`: resolve each spec, insert one row for it,
        and stop at the first spec that fails. */
    method InsertGenreRows(t: nat, specs: seq<GenreSpec>) returns (ok: bool, ghost n: nat)
      requires Valid() && t in titles
      modifies this`genres, this`links, this`nextLink
      ensures Valid()
      ensures n <= |specs| && (ok ==> n == |specs|)
      ensures ok <==> AllAccepted(old(genres), specs)
      ensures AllAccepted(old(genres), specs[..n])
      ensures !ok ==> n < |specs| && !Accepts(UpsertAll(old(genres), specs[..n]), specs[n])
      ensures genres == UpsertAll(old(genres), specs[..n])
      ensures links == old(links) + NewRows(old(nextLink), specs[..n], t)
      ensures nextLink == old(nextLink) + n
    {
      var i := 0;
      while i < |specs|
        invariant Valid()
        invariant InsertedUpTo(old(genres), old(links), old(nextLink), specs, i, t)
      {
        var got := InsertNextRow(t, specs, i, old(genres), old(links), old(nextLink));
        if !got {
          AcceptedPrefix(old(genres), specs, i);
          return false, i;
        }
        i := i + 1;
      }
      assert specs[..i] == specs;
      return true, i;
    }

    /** Inserting a title row under the next primary key; no genre row can refer to it yet. */
    method InsertTitle(title: Title) returns (t: nat)
      requires Valid()
      requires title.category.Some? ==> title.category.value in categories
      modifies this`titles, this`nextTitle
      ensures Valid()
      ensures t == old(nextTitle) && t !in old(titles)
      ensures titles == old(titles)[t := title]
      ensures RowsOf(links, t) == []
    {
      t := nextTitle;
      NoMembersEmpty(RowsOf(links, t));
      titles := titles[t := title];
      nextTitle := nextTitle + 1;
    }

    /** `TitleWriteSerializer.create`: insert the title, then one row per genre spec; a
        failing spec raises, leaving the title and the rows inserted before it. */
    method CreateTitle(data: NewTitle, specs: seq<GenreSpec>) returns (r: Result<nat>, ghost n: nat)
      requires Valid() && data.category in categories
      modifies this`titles, this`nextTitle, this`genres, this`links, this`nextLink
      ensures Valid()
      ensures r.Ok? <==> Compatible(old(genres), specs)
      ensures r.Ok? ==> r.value == old(nextTitle) && n == |specs|
      ensures r.Err? ==> r.error == ServerError
      ensures n <= |specs|
      ensures AllAccepted(old(genres), specs[..n])
      ensures r.Err? ==> n < |specs| && !Accepts(UpsertAll(old(genres), specs[..n]), specs[n])
      ensures titles == old(titles)[old(nextTitle) :=
        Title(data.name, data.year, data.description, Some(data.category))]
      ensures genres == UpsertAll(old(genres), specs[..n])
      ensures links == old(links) + NewRows(old(nextLink), specs[..n], old(nextTitle))
      ensures RowsOf(links, old(nextTitle)) == NewRows(old(nextLink), specs[..n], old(nextTitle))
    {
      var t := InsertTitle(Title(data.name, data.year, data.description, Some(data.category)));
      ghost var before := links;
      var ok;
      ok, n := InsertGenreRows(t, specs);
      AcceptedIffCompatible(old(genres), specs);
      RowsOfConcat(before, NewRows(old(nextLink), specs[..n], t), t);
      RowsOfAllOfTitle(NewRows(old(nextLink), specs[..n], t), t);
      if ok {
        r := Ok(t);
      } else {
        r := Err(ServerError);
      }
    }

    /** Deleting the rows of a snapshot one by one (`item.delete()`). */
    method DeleteRows(snapshot: seq<GenreTitle>)
      requires Valid()
      modifies this`links
      ensures Valid()
      ensures links == Without(old(links), IdsOf(snapshot))
    {
      WithoutAbsent(links, {});
      assert IdsOf(snapshot[..0]) == {};
      var i := 0;
      while i < |snapshot|
        invariant 0 <= i <= |snapshot|
        invariant Valid()
        invariant links == Without(old(links), IdsOf(snapshot[..i]))
      {
        assert snapshot[..i + 1] == snapshot[..i] + [snapshot[i]];
        IdsOfSnoc(snapshot[..i], snapshot[i]);
        WithoutTwice(old(links), IdsOf(snapshot[..i]), {snapshot[i].id});
        LinksOkWithout(links, genres, titles, nextLink, {snapshot[i].id});
        links := Without(links, {snapshot[i].id});
        i := i + 1;
      }
      assert snapshot[..i] == snapshot;
    }

    /** The genre half of `TitleWriteSerializer.update`: snapshot the title's rows (the
        forced `len()`), insert the new rows, then delete the snapshot. A failing spec
        raises before any deletion. */
    method ReplaceGenres(t: nat, specs: seq<GenreSpec>) returns (ok: bool, ghost n: nat)
      requires Valid() && t in titles
      modifies this`genres, this`links, this`nextLink
      ensures Valid()
      ensures ok <==> Compatible(old(genres), specs)
      ensures n <= |specs| && genres == UpsertAll(old(genres), specs[..n])
      ensures ok ==> n == |specs| && genres == UpsertAll(old(genres), specs)
      ensures !ok ==> n < |specs| && AllAccepted(old(genres), specs[..n])
                      && !Accepts(UpsertAll(old(genres), specs[..n]), specs[n])
      ensures ok ==> links == Replaced(old(links), t, NewRows(old(nextLink), specs, t))
      ensures ok ==> RowsOf(links, t) == NewRows(old(nextLink), specs, t)
      ensures ok ==> forall u :: u != t ==> RowsOf(links, u) == RowsOf(old(links), u)
      ensures !ok ==> links == old(links) + NewRows(old(nextLink), specs[..n], t)
    {
      var snapshot := RowsOf(links, t);
      ghost var before := links;
      ok, n := InsertGenreRows(t, specs);
      AcceptedIffCompatible(old(genres), specs);
      if !ok {
        return;
      }
      assert specs[..n] == specs;
      DeleteRows(snapshot);
      var inserted := NewRows(old(nextLink), specs, t);
      InsertThenDeleteIsReplaced(before, old(nextLink), specs, t);
      ReplaceLeavesExactlyNew(before, t, inserted);
      forall u | u != t
        ensures RowsOf(Replaced(before, t, inserted), u) == RowsOf(before, u)
      {
        ReplaceKeepsOtherTitles(before, t, inserted, u);
      }
    }

    /** The field half of `update`: each supplied field is assigned, the others kept. */
    method AssignFields(t: nat, changes: TitleChanges)
      requires Valid() && t in titles
      requires changes.category.Some? ==> changes.category.value in categories
      modifies this`titles
      ensures Valid()
      ensures titles == old(titles)[t := ApplyChanges(old(titles)[t], changes)]
    {
      titles := titles[t := ApplyChanges(titles[t], changes)];
    }

    /** `TitleWriteSerializer.update`: the genres when the request has a `genre` key, then
        the fields; a failing genre spec raises before any field is assigned. */
    method UpdateTitle(t: nat, changes: TitleChanges, genre: Option<seq<GenreSpec>>)
      returns (r: Result<()>, ghost n: nat)
      requires Valid() && t in titles
      requires changes.category.Some? ==> changes.category.value in categories
      modifies this`titles, this`genres, this`links, this`nextLink
      ensures Valid()
      ensures r.Ok? <==> genre.None? || Compatible(old(genres), genre.value)
      ensures r.Err? ==> r.error == ServerError
      ensures genre.None? ==> links == old(links) && genres == old(genres)
      ensures genre.Some? ==> n <= |genre.value| && genres == UpsertAll(old(genres), genre.value[..n])
      ensures genre.Some? && r.Ok? ==> n == |genre.value| && genres == UpsertAll(old(genres), genre.value)
      ensures genre.Some? && r.Err? ==>
        n < |genre.value| && AllAccepted(old(genres), genre.value[..n])
        && !Accepts(UpsertAll(old(genres), genre.value[..n]), genre.value[n])
      ensures genre.Some? && r.Ok? ==>
        links == Replaced(old(links), t, NewRows(old(nextLink), genre.value, t))
      ensures genre.Some? && r.Ok? ==> RowsOf(links, t) == NewRows(old(nextLink), genre.value, t)
      ensures genre.Some? && r.Ok? ==> forall u :: u != t ==> RowsOf(links, u) == RowsOf(old(links), u)
      ensures genre.Some? && r.Err? ==> links == old(links) + NewRows(old(nextLink), genre.value[..n], t)
      ensures titles == if r.Ok? then old(titles)[t := ApplyChanges(old(titles)[t], changes)] else old(titles)
    {
      n := 0;
      if genre.Some? {
        var ok;
        ok, n := ReplaceGenres(t, genre.value);
        if !ok {
          return Err(ServerError), n;
        }
      }
      AssignFields(t, changes);
      r := Ok(());
    }

    /** Deleting a category: its titles stay, with a null category. */
    method DeleteCategory(slug: string) returns (found: bool)
      requires Valid()
      modifies this`categories, this`titles
      ensures Valid()
      ensures found <==> slug in old(categories)
      ensures categories == old(categories) - {slug}
      ensures titles == if found then ClearCategory(old(titles), slug) else old(titles)
    {
      found := slug in categories;
      if found {
        categories := categories - {slug};
        titles := ClearCategory(titles, slug);
      }
    }

    /** Deleting a genre cascades to its `GenreTitle` rows, and to nothing else. */
    method DeleteGenre(slug: string) returns (found: bool)
      requires Valid()
      modifies this`genres, this`links
      ensures Valid()
      ensures found <==> slug in old(genres)
      ensures genres == old(genres) - {slug}
      ensures links == if found then Without(old(links), IdsOfGenre(old(links), slug)) else old(links)
      ensures forall x :: x in links ==> x.genre != slug
    {
      found := slug in genres;
      if found {
        WithoutKeepsDistinct(links, IdsOfGenre(links, slug));
        links := Without(links, IdsOfGenre(links, slug));
        genres := genres - {slug};
      }
    }

    /** The `GenreTitle` half of deleting title `t`. */
    method DropRowsOfTitle(t: nat)
      requires Valid()
      modifies this`links
      ensures Valid()
      ensures links == Without(old(links), IdsOf(RowsOf(old(links), t)))
      ensures RowsOf(links, t) == []
    {
      SnapshotRemovesAllOfTitle(links, t);
      WithoutKeepsDistinct(links, IdsOf(RowsOf(links, t)));
      links := Without(links, IdsOf(RowsOf(links, t)));
    }

    /** The review half of deleting title `t`, with the comments of those reviews. */
    method DropReviewsOfTitle(t: nat)
      requires Valid()
      modifies this`reviews, this`comments
      ensures Valid()
      ensures forall r :: r in reviews <==> r in old(reviews) && old(reviews)[r].title != t
      ensures forall r :: r in reviews ==> reviews[r] == old(reviews)[r]
      ensures forall c :: c in comments <==> c in old(comments) && old(comments)[c].review in reviews
      ensures forall c :: c in comments ==> comments[c] == old(comments)[c]
    {
      reviews := map r | r in reviews && reviews[r].title != t :: reviews[r];
      comments := map c | c in comments && comments[c].review in reviews :: comments[c];
    }

    /** Deleting a title cascades to its `GenreTitle` rows and its reviews, and from those
        reviews to their comments. */
    method DeleteTitle(t: nat) returns (found: bool)
      requires Valid()
      modifies this`titles, this`links, this`reviews, this`comments
      ensures Valid()
      ensures found <==> t in old(titles)
      ensures titles == old(titles) - {t}
      ensures links == Without(old(links), IdsOf(RowsOf(old(links), t)))
      ensures RowsOf(links, t) == []
      ensures forall r :: r in reviews <==> r in old(reviews) && old(reviews)[r].title != t
      ensures forall r :: r in reviews ==> reviews[r] == old(reviews)[r]
      ensures forall c :: c in comments <==> c in old(comments) && old(comments)[c].review in reviews
      ensures forall c :: c in comments ==> comments[c] == old(comments)[c]
    {
      found := t in titles;
      DropRowsOfTitle(t);
      DropReviewsOfTitle(t);
      titles := titles - {t};
    }

    /** Deleting a review cascades to its comments. */
    method DeleteReview(id: nat) returns (found: bool)
      requires Valid()
      modifies this`reviews, this`comments
      ensures Valid()
      ensures found <==> id in old(reviews)
      ensures reviews == old(reviews) - {id}
      ensures forall c :: c in comments <==> c in old(comments) && old(comments)[c].review != id
      ensures forall c :: c in comments ==> comments[c] == old(comments)[c]
    {
      found := id in reviews;
      reviews := reviews - {id};
      comments := map c | c in comments && comments[c].review != id :: comments[c];
    }

    /** The rating the read serializer shows for title `t`, over its reviews. */
    function TitleRating(t: nat): (rating: nat)
      reads this
      requires Valid()
      ensures rating == 0 <==> !HasReviewBelow(reviews, t, nextReview)
      ensures rating != 0 ==> ValidScore(rating)
    {
      var scores := ScoresOf(reviews, t, nextReview);
      ScoresOfShape(reviews, t, nextReview);
      Rating.RatingOfValidScores(scores);
      Rating.MeanRating(scores)
    }

    /** `ReviewSerializer.validate`: only a POST is checked; it needs the title to exist
        and the user not to have reviewed it. */
    function ValidateReview(isPost: bool, t: nat, author: string): (r: Result<()>)
      reads this
      ensures !isPost ==> r.Ok?
      ensures isPost ==> (r == Err(NotFound) <==> t !in titles)
      ensures isPost ==> (r.Ok? <==> t in titles && !HasReview(reviews, t, author))
      ensures r.Err? ==> r.error == NotFound || r.error == BadRequest
    {
      if !isPost then Ok(())
      else if t !in titles then Err(NotFound)
      else if HasReview(reviews, t, author) then Err(BadRequest)
      else Ok(())
    }

    /** A POST to a title's reviews: field validation (non-blank text, score in 1..10),
        then `validate`, then `perform_create` with the request user as author and the URL
        title as title, timestamped `now`. */
    method CreateReview(t: nat, author: string, text: string, score: int, now: int)
      returns (r: Result<nat>)
      requires Valid()
      modifies this`reviews, this`nextReview
      ensures Valid()
      ensures r.Ok? <==> text != "" && ValidScore(score) && t in titles && !HasReview(old(reviews), t, author)
      ensures r == Err(NotFound) <==> text != "" && ValidScore(score) && t !in titles
      ensures text == "" || !ValidScore(score) ==> r == Err(BadRequest)
      ensures (text != "" && ValidScore(score) && t in titles && HasReview(old(reviews), t, author)) ==>
        r == Err(BadRequest)
      ensures r.Err? ==> r.error == BadRequest || r.error == NotFound
      ensures r.Ok? ==> r.value == old(nextReview)
      ensures r.Ok? ==> reviews == old(reviews)[r.value := Review(t, author, text, score as nat, now)]
      ensures r.Err? ==> reviews == old(reviews)
      ensures r.Ok? ==> ValidateReview(true, t, author) == Err(BadRequest)
    {
      if text == "" || !ValidScore(score) {
        return Err(BadRequest);
      }
      var check := ValidateReview(true, t, author);
      if check.Err? {
        return Err(check.error);
      }
      var id := nextReview;
      reviews := reviews[id := Review(t, author, text, score as nat, now)];
      nextReview := nextReview + 1;
      assert reviews[id].title == t && reviews[id].author == author;
      r := Ok(id);
    }

    /** A PATCH of a review under its title: `validate` does no duplicate check; only
        `text` and `score` can change, never the author, the title or `pub_date`. */
    method UpdateReview(t: nat, id: nat, text: Option<string>, score: Option<int>)
      returns (r: Result<()>)
      requires Valid()
      modifies this`reviews
      ensures Valid()
      ensures r.Ok? <==>
        (id in old(reviews) && old(reviews)[id].title == t
         && text != Some("") && (score.Some? ==> ValidScore(score.value)))
      ensures r == Err(NotFound) <==> !(id in old(reviews) && old(reviews)[id].title == t)
      ensures (id in old(reviews) && old(reviews)[id].title == t
               && (text == Some("") || (score.Some? && !ValidScore(score.value)))) ==>
        r == Err(BadRequest)
      ensures r.Err? ==> r.error == NotFound || r.error == BadRequest
      ensures r.Ok? ==> reviews.Keys == old(reviews).Keys
      ensures r.Ok? ==>
        reviews == old(reviews)[id := Review(t, old(reviews)[id].author,
          GetOr(text, old(reviews)[id].text),
          if score.Some? then score.value as nat else old(reviews)[id].score,
          old(reviews)[id].pubDate)]
      ensures r.Err? ==> reviews == old(reviews)
    {
      if id !in reviews || reviews[id].title != t {
        return Err(NotFound);
      }
      if text == Some("") || (score.Some? && !ValidScore(score.value)) {
        return Err(BadRequest);
      }
      var prev := reviews[id];
      reviews := reviews[id := Review(t, prev.author, GetOr(text, prev.text),
        if score.Some? then score.value as nat else prev.score, prev.pubDate)];
      r := Ok(());
    }

    /** `CommentViewSet.get_review`: the review must exist AND belong to the URL's title. */
    function GetReview(t: nat, reviewId: nat): (r: Result<nat>)
      reads this
      ensures r.Ok? <==> reviewId in reviews && reviews[reviewId].title == t
      ensures r.Ok? ==> r.value == reviewId
      ensures r.Err? ==> r.error == NotFound
    {
      if reviewId in reviews && reviews[reviewId].title == t then Ok(reviewId) else Err(NotFound)
    }

    /** A POST to a review's comments: non-blank text, then the review lookup, then an
        insert with the request user as author. */
    method CreateComment(t: nat, reviewId: nat, author: string, text: string, now: int)
      returns (r: Result<nat>)
      requires Valid()
      modifies this`comments, this`nextComment
      ensures Valid()
      ensures r.Ok? <==> text != "" && GetReview(t, reviewId).Ok?
      ensures text == "" ==> r == Err(BadRequest)
      ensures text != "" && GetReview(t, reviewId).Err? ==> r == Err(NotFound)
      ensures r.Ok? ==> r.value == old(nextComment)
      ensures r.Ok? ==> comments == old(comments)[r.value := Comment(reviewId, author, text, now)]
      ensures r.Err? ==> comments == old(comments)
    {
      if text == "" {
        return Err(BadRequest);
      }
      var found := GetReview(t, reviewId);
      if found.Err? {
        return Err(found.error);
      }
      var id := nextComment;
      comments := comments[id := Comment(reviewId, author, text, now)];
      nextComment := nextComment + 1;
      r := Ok(id);
    }
  }
}
