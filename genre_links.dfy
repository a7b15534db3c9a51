/** The genre-association protocol of `TitleWriteSerializer` as functions on the rows:
    resolving each `(name, slug)` spec with `get_or_create`, the rows inserted for the
    specs, the snapshot of a title's old rows and their deletion, and what the title's
    rows are afterwards. */
module GenreLinks {
  import opened Models

  /** One element of the `genre` list: a genre given by name and slug. */
  datatype GenreSpec = GenreSpec(name: string, slug: string)

  // ---------------------------------------------------------------------------
  // Rows of the GenreTitle table

  /** `GenreTitle.objects.filter(title__id=t)`, in table order. */
  function RowsOf(links: seq<GenreTitle>, t: nat): (r: seq<GenreTitle>)
    ensures forall x :: x in r <==> x in links && x.title == t
    ensures |r| <= |links|
  {
    if links == [] then []
    else (if links[0].title == t then [links[0]] else []) + RowsOf(links[1..], t)
  }

  /** The primary keys of some rows. */
  function IdsOf(rows: seq<GenreTitle>): set<nat>
  {
    set x | x in rows :: x.id
  }

  lemma IdsOfSnoc(rows: seq<GenreTitle>, x: GenreTitle)
    ensures IdsOf(rows + [x]) == IdsOf(rows) + {x.id}
  {
    assert forall y :: y in rows + [x] <==> y in rows || y == x;
  }

  /** The primary keys of the rows of genre `slug`: what deleting the genre cascades to. */
  function IdsOfGenre(links: seq<GenreTitle>, slug: string): set<nat>
  {
    set x | x in links && x.genre == slug :: x.id
  }

  /** The table after deleting the rows whose primary key is in `ids`. */
  function Without(links: seq<GenreTitle>, ids: set<nat>): (r: seq<GenreTitle>)
    ensures forall x :: x in r <==> x in links && x.id !in ids
    ensures |r| <= |links|
  {
    if links == [] then []
    else (if links[0].id in ids then [] else [links[0]]) + Without(links[1..], ids)
  }

  lemma NoMembersEmpty(s: seq<GenreTitle>)
    ensures (forall x :: x !in s) ==> s == []
  {
    if s != [] {
      assert s[0] in s;
    }
  }

  /** Primary keys are unique. */
  ghost predicate DistinctIds(links: seq<GenreTitle>)
  {
    forall i, j :: 0 <= i < j < |links| ==> links[i].id != links[j].id
  }

  /** Every primary key is below the next one to be handed out. */
  ghost predicate IdsBelow(links: seq<GenreTitle>, next: nat)
  {
    forall x :: x in links ==> x.id < next
  }

  /** The rows inserted for `specs` on title `t`, with consecutive keys from `start`. */
  function NewRows(start: nat, specs: seq<GenreSpec>, t: nat): seq<GenreTitle>
  {
    seq(|specs|, k requires 0 <= k < |specs| => GenreTitle(start + k, specs[k].slug, t))
  }

  lemma NewRowsPrefix(start: nat, specs: seq<GenreSpec>, n: nat, t: nat)
    requires n < |specs|
    ensures NewRows(start, specs[..n + 1], t)
         == NewRows(start, specs[..n], t) + [GenreTitle(start + n, specs[n].slug, t)]
  {
    assert specs[..n + 1][..n] == specs[..n];
  }

  /** A table extended by the first `n + 1` rows of the batch is the table extended by the
      first `n`, plus row `n`. */
  lemma NewRowsStep(base: seq<GenreTitle>, start: nat, specs: seq<GenreSpec>, n: nat, t: nat)
    requires n < |specs|
    ensures base + NewRows(start, specs[..n + 1], t)
         == (base + NewRows(start, specs[..n], t)) + [GenreTitle(start + n, specs[n].slug, t)]
  {
    NewRowsPrefix(start, specs, n, t);
  }

  lemma {:induction false} WithoutConcat(a: seq<GenreTitle>, b: seq<GenreTitle>, ids: set<nat>)
    ensures Without(a + b, ids) == Without(a, ids) + Without(b, ids)
  {
    if a != [] {
      var head := if a[0].id in ids then [] else [a[0]];
      var rest := Without(a[1..], ids);
      var tail := Without(b, ids);
      assert (a + b)[0] == a[0] && (a + b)[1..] == a[1..] + b;
      assert Without(a + b, ids) == head + Without(a[1..] + b, ids);
      WithoutConcat(a[1..], b, ids);
      assert Without(a, ids) == head + rest;
      assert head + (rest + tail) == (head + rest) + tail;
    } else {
      assert a + b == b;
    }
  }

  lemma {:induction false} RowsOfConcat(a: seq<GenreTitle>, b: seq<GenreTitle>, t: nat)
    ensures RowsOf(a + b, t) == RowsOf(a, t) + RowsOf(b, t)
  {
    if a != [] {
      var head := if a[0].title == t then [a[0]] else [];
      assert (a + b)[0] == a[0] && (a + b)[1..] == a[1..] + b;
      calc {
        RowsOf(a + b, t);
        head + RowsOf(a[1..] + b, t);
        { RowsOfConcat(a[1..], b, t); }
        head + (RowsOf(a[1..], t) + RowsOf(b, t));
        (head + RowsOf(a[1..], t)) + RowsOf(b, t);
        RowsOf(a, t) + RowsOf(b, t);
      }
    } else {
      assert a + b == b;
    }
  }

  /** Deleting keys one at a time is deleting them all. */
  lemma {:induction false} WithoutTwice(links: seq<GenreTitle>, a: set<nat>, b: set<nat>)
    ensures Without(Without(links, a), b) == Without(links, a + b)
  {
    if links != [] {
      var head := if links[0].id in a then [] else [links[0]];
      WithoutConcat(head, Without(links[1..], a), b);
      WithoutTwice(links[1..], a, b);
    }
  }

  /** Deleting keys that no row carries changes nothing. */
  lemma {:induction false} WithoutAbsent(links: seq<GenreTitle>, ids: set<nat>)
    requires forall x :: x in links ==> x.id !in ids
    ensures Without(links, ids) == links
  {
    if links != [] {
      assert links[0] in links;
      WithoutAbsent(links[1..], ids);
    }
  }

  lemma {:induction false} WithoutKeepsDistinct(links: seq<GenreTitle>, ids: set<nat>)
    requires DistinctIds(links)
    ensures DistinctIds(Without(links, ids))
  {
    if links != [] {
      var tail := Without(links[1..], ids);
      WithoutKeepsDistinct(links[1..], ids);
      forall y | y in tail ensures y.id != links[0].id {
        var k :| 0 <= k < |links[1..]| && links[1..][k] == y;
        assert links[k + 1] == y;
      }
    }
  }

  /** With unique keys, a key identifies its row. */
  lemma DistinctKeyed(links: seq<GenreTitle>, x: GenreTitle, y: GenreTitle)
    requires DistinctIds(links) && x in links && y in links && x.id == y.id
    ensures x == y
  {
    var i :| 0 <= i < |links| && links[i] == x;
    var j :| 0 <= j < |links| && links[j] == y;
  }

  lemma {:induction false} RowsOfAllOfTitle(rows: seq<GenreTitle>, t: nat)
    requires forall x :: x in rows ==> x.title == t
    ensures RowsOf(rows, t) == rows
  {
    if rows != [] {
      assert rows[0] in rows;
      RowsOfAllOfTitle(rows[1..], t);
    }
  }

  /** Deleting a snapshot of a title's rows leaves the title with no rows; applied to the
      table AFTER the inserts this is why the snapshot must be taken before them: a lazy
      query evaluated late would also catch, and delete, every newly inserted row. */
  lemma SnapshotRemovesAllOfTitle(links: seq<GenreTitle>, t: nat)
    ensures RowsOf(Without(links, IdsOf(RowsOf(links, t))), t) == []
  {
    NoMembersEmpty(RowsOf(Without(links, IdsOf(RowsOf(links, t))), t));
  }

  /** Rows of another title survive a deletion that touches none of their keys. */
  lemma {:induction false} RowsOfUntouched(links: seq<GenreTitle>, ids: set<nat>, u: nat)
    requires forall x :: x in links && x.title == u ==> x.id !in ids
    ensures RowsOf(Without(links, ids), u) == RowsOf(links, u)
  {
    if links != [] {
      var head := if links[0].id in ids then [] else [links[0]];
      assert links[0] in links;
      RowsOfConcat(head, Without(links[1..], ids), u);
      RowsOfUntouched(links[1..], ids, u);
    }
  }

  /** The table `update` leaves: the old table minus the snapshot of title `t`'s rows,
      followed by the rows just inserted. */
  function Replaced(links: seq<GenreTitle>, t: nat, inserted: seq<GenreTitle>): seq<GenreTitle>
  {
    Without(links, IdsOf(RowsOf(links, t))) + inserted
  }

  /** Afterwards the title's rows are exactly the inserted ones. */
  lemma ReplaceLeavesExactlyNew(links: seq<GenreTitle>, t: nat, inserted: seq<GenreTitle>)
    requires forall x :: x in inserted ==> x.title == t
    ensures RowsOf(Replaced(links, t, inserted), t) == inserted
  {
    RowsOfConcat(Without(links, IdsOf(RowsOf(links, t))), inserted, t);
    SnapshotRemovesAllOfTitle(links, t);
    RowsOfAllOfTitle(inserted, t);
  }

  /** Afterwards every other title has exactly the rows it had. */
  lemma ReplaceKeepsOtherTitles(links: seq<GenreTitle>, t: nat, inserted: seq<GenreTitle>, u: nat)
    requires DistinctIds(links)
    requires u != t
    requires forall x :: x in inserted ==> x.title == t
    ensures RowsOf(Replaced(links, t, inserted), u) == RowsOf(links, u)
  {
    var ids := IdsOf(RowsOf(links, t));
    forall x | x in links && x.title == u ensures x.id !in ids {
      if x.id in ids {
        var y :| y in RowsOf(links, t) && y.id == x.id;
        DistinctKeyed(links, x, y);
      }
    }
    RowsOfUntouched(links, ids, u);
    RowsOfConcat(Without(links, ids), inserted, u);
    NoMembersEmpty(RowsOf(inserted, u));
  }

  /** Inserting fresh rows, then deleting the pre-insert snapshot, is `Replaced`: the new
      keys are all above the old ones, so the snapshot cannot catch a new row. */
  lemma InsertThenDeleteIsReplaced(links: seq<GenreTitle>, next: nat, specs: seq<GenreSpec>, t: nat)
    requires IdsBelow(links, next)
    ensures Without(links + NewRows(next, specs, t), IdsOf(RowsOf(links, t)))
         == Replaced(links, t, NewRows(next, specs, t))
  {
    var ids := IdsOf(RowsOf(links, t));
    var rows := NewRows(next, specs, t);
    WithoutConcat(links, rows, ids);
    WithoutAbsent(rows, ids);
  }

  // ---------------------------------------------------------------------------
  // Resolving genre specs with get_or_create on (name, slug)

  /** `get_or_create(name=, slug=)` succeeds on `genres` (slug to name): the pair exists,
      or the slug is free; a slug bound to another name fails the unique constraint. */
  predicate Accepts(genres: map<string, string>, spec: GenreSpec)
  {
    spec.slug !in genres || genres[spec.slug] == spec.name
  }

  /** The genre table after resolving `specs` one after another. */
  function UpsertAll(genres: map<string, string>, specs: seq<GenreSpec>): map<string, string>
  {
    if specs == [] then genres
    else
      var last := specs[|specs| - 1];
      UpsertAll(genres, specs[..|specs| - 1])[last.slug := last.name]
  }

  /** Every spec, resolved in order, succeeds. */
  predicate AllAccepted(genres: map<string, string>, specs: seq<GenreSpec>)
  {
    specs == [] ||
    (AllAccepted(genres, specs[..|specs| - 1])
     && Accepts(UpsertAll(genres, specs[..|specs| - 1]), specs[|specs| - 1]))
  }

  /** One more spec: its upsert is applied last, and the run is accepted iff the shorter
      run is and the new spec is accepted after it. */
  lemma UpsertStep(genres: map<string, string>, specs: seq<GenreSpec>, i: nat)
    requires i < |specs|
    ensures UpsertAll(genres, specs[..i + 1]) == UpsertAll(genres, specs[..i])[specs[i].slug := specs[i].name]
    ensures AllAccepted(genres, specs[..i + 1]) <==>
      AllAccepted(genres, specs[..i]) && Accepts(UpsertAll(genres, specs[..i]), specs[i])
  {
    assert specs[..i + 1][..i] == specs[..i];
  }

  /** Closed form: no spec names an existing slug under another name, and no two specs
      give one slug two names. */
  ghost predicate Compatible(genres: map<string, string>, specs: seq<GenreSpec>)
  {
    (forall k :: 0 <= k < |specs| && specs[k].slug in genres ==> genres[specs[k].slug] == specs[k].name)
    && (forall j, k :: 0 <= j < k < |specs| && specs[j].slug == specs[k].slug ==> specs[j].name == specs[k].name)
  }

  /** What resolving leaves in the genre table: nothing is renamed, each spec's slug names
      that spec, and nothing else appears. */
  lemma {:induction false} UpsertShape(genres: map<string, string>, specs: seq<GenreSpec>)
    requires AllAccepted(genres, specs)
    ensures forall s :: s in genres ==> s in UpsertAll(genres, specs) && UpsertAll(genres, specs)[s] == genres[s]
    ensures forall k :: 0 <= k < |specs| ==>
      specs[k].slug in UpsertAll(genres, specs) && UpsertAll(genres, specs)[specs[k].slug] == specs[k].name
    ensures forall s :: s in UpsertAll(genres, specs) ==>
      s in genres || exists k :: 0 <= k < |specs| && specs[k].slug == s
  {
    if specs != [] {
      var init := specs[..|specs| - 1];
      var x := specs[|specs| - 1];
      UpsertShape(genres, init);
      var prev := UpsertAll(genres, init);
      var u := UpsertAll(genres, specs);
      assert u == prev[x.slug := x.name];
      assert Accepts(prev, x);
      forall s | s in genres ensures s in u && u[s] == genres[s] {
        assert s in prev && prev[s] == genres[s];
      }
      forall k | 0 <= k < |specs|
        ensures specs[k].slug in u && u[specs[k].slug] == specs[k].name
      {
        if k < |init| {
          assert init[k] == specs[k];
          assert specs[k].slug in prev && prev[specs[k].slug] == specs[k].name;
        }
      }
      forall s | s in u ensures s in genres || exists k :: 0 <= k < |specs| && specs[k].slug == s {
        if s != x.slug && s !in genres {
          assert s in prev;
          var k :| 0 <= k < |init| && init[k].slug == s;
          assert specs[k].slug == s;
        }
      }
    }
  }

  /** Resolving every spec succeeds exactly when the specs are compatible with the table. */
  lemma {:induction false} AcceptedIffCompatible(genres: map<string, string>, specs: seq<GenreSpec>)
    ensures AllAccepted(genres, specs) <==> Compatible(genres, specs)
  {
    if specs != [] {
      var init := specs[..|specs| - 1];
      var x := specs[|specs| - 1];
      AcceptedIffCompatible(genres, init);
      assert forall k :: 0 <= k < |init| ==> init[k] == specs[k];
      if AllAccepted(genres, init) {
        UpsertShape(genres, init);
        var u := UpsertAll(genres, init);
        if Accepts(u, x) {
          assert Compatible(genres, specs);
        } else {
          assert x.slug in u && u[x.slug] != x.name;
          if x.slug !in genres {
            var k :| 0 <= k < |init| && init[k].slug == x.slug;
            assert specs[k].slug == specs[|specs| - 1].slug;
          }
        }
      } else {
        assert !Compatible(genres, init);
      }
    }
  }

  /** The first spec whose resolution fails stops the loop: the prefix before it is accepted. */
  lemma AcceptedPrefix(genres: map<string, string>, specs: seq<GenreSpec>, n: nat)
    requires n < |specs|
    requires AllAccepted(genres, specs[..n]) && !Accepts(UpsertAll(genres, specs[..n]), specs[n])
    ensures !AllAccepted(genres, specs)
  {
    AcceptedIffCompatible(genres, specs[..n + 1]);
    AcceptedIffCompatible(genres, specs);
    assert specs[..n + 1][..n] == specs[..n];
    assert !Compatible(genres, specs[..n + 1]);
    assert forall k :: 0 <= k <= n ==> specs[..n + 1][k] == specs[k];
  }

  /** The prefix a failing run keeps is determined: it ends just before the first spec
      whose upsert fails. */
  lemma FirstFailure(genres: map<string, string>, specs: seq<GenreSpec>, n: nat, m: nat)
    requires n < |specs| && AllAccepted(genres, specs[..n]) && !Accepts(UpsertAll(genres, specs[..n]), specs[n])
    requires m < |specs| && AllAccepted(genres, specs[..m]) && !Accepts(UpsertAll(genres, specs[..m]), specs[m])
    ensures n == m
  {
    if n < m {
      assert specs[..m][..n] == specs[..n];
      AcceptedPrefix(genres, specs[..m], n);
      assert false;
    } else if m < n {
      assert specs[..n][..m] == specs[..m];
      AcceptedPrefix(genres, specs[..n], m);
      assert false;
    }
  }

  /** With `b` stored as `B`, the list `x, y, (Other, b)` fails at its third spec, after
      upserting and linking the first two. */
  lemma FailsAtThirdSpec()
    ensures var specs := [GenreSpec("X", "x"), GenreSpec("Y", "y"), GenreSpec("Other", "b")];
      AllAccepted(map["b" := "B"], specs[..2]) && !Accepts(UpsertAll(map["b" := "B"], specs[..2]), specs[2])
  {
    var specs := [GenreSpec("X", "x"), GenreSpec("Y", "y"), GenreSpec("Other", "b")];
    var g := map["b" := "B"];
    assert specs[..1][..0] == [];
    assert AllAccepted(g, specs[..1]) && UpsertAll(g, specs[..1]) == g["x" := "X"];
    assert specs[..2][..1] == specs[..1];
    assert AllAccepted(g, specs[..2]) && UpsertAll(g, specs[..2]) == g["x" := "X"]["y" := "Y"];
  }
}
