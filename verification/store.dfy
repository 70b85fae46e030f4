/**
  The first, in-memory version of the API: posts are dictionaries kept in a
  list, ids are assigned as one more than the largest id present, and
  delete, update and patch act on the first entry whose id matches.
  A stored dictionary is a `Record`; a key the dictionary lacks is `Absent`,
  a key holding `None` is `Present(None)` (or `None` for the two text
  fields, which every stored dictionary has).
 */
module Store {
  import opened Common

  datatype Record = Record(
    id: int,
    title: Option<string>,
    content: Option<string>,
    published: Field<bool>,
    rating: Field<Option<int>>)

  /** The validated `Post` body: `published` may be left out (default true),
      `rating` defaults to `None`. */
  datatype PostBody = PostBody(title: string, content: string, published: Field<bool>, rating: Option<int>)

  /** The validated `PatchPost` body: each field is either unset or set,
      possibly to `None`. */
  datatype PatchBody = PatchBody(
    title: Field<Option<string>>,
    content: Field<Option<string>>,
    published: Field<bool>,
    rating: Field<Option<int>>)

  type Posts = seq<Record>

  /** The three dictionaries the list starts with. */
  const Initial: Posts := [
    Record(1, Some("title of post 1"), Some("content of post 1"), Absent, Absent),
    Record(2, Some("title of post 2"), Some("content of post 2"), Absent, Absent),
    Record(3, Some("3rd title for testing"), Some("trying to make patch request work"), Absent, Absent)
  ]

  predicate DistinctIds(s: Posts)
  {
    forall i, j :: 0 <= i < j < |s| ==> s[i].id != s[j].id
  }

  predicate HasId(s: Posts, id: int)
  {
    exists i :: 0 <= i < |s| && s[i].id == id
  }

  /** `max(p["id"] for p in my_posts)` on a non-empty list. */
  function MaxId(s: Posts): (m: int)
    requires |s| > 0
    ensures forall i :: 0 <= i < |s| ==> s[i].id <= m
    ensures exists i :: 0 <= i < |s| && s[i].id == m
  {
    if |s| == 1 then s[0].id
    else
      var rest := MaxId(s[1..]);
      assert forall i :: 1 <= i < |s| ==> s[i] == s[1..][i - 1];
      if s[0].id >= rest then s[0].id else rest
  }

  /** The first index holding `id`, if any. */
  function FirstIndex(s: Posts, id: int): (r: Option<nat>)
    ensures r.None? <==> !HasId(s, id)
    ensures r.Some? ==> r.value < |s| && s[r.value].id == id
    ensures r.Some? ==> forall j :: 0 <= j < r.value ==> s[j].id != id
  {
    if |s| == 0 then None
    else if s[0].id == id then Some(0)
    else
      match FirstIndex(s[1..], id)
      case None =>
        assert forall i :: 1 <= i < |s| ==> s[i] == s[1..][i - 1];
        None
      case Some(i) =>
        assert s[1..][i] == s[i + 1];
        Some(i + 1)
  }

  /** `[p for p in my_posts if p.get("id") == id]`. */
  function Matching(s: Posts, id: int): (r: Posts)
    ensures forall x :: x in r ==> x in s && x.id == id
    ensures forall i :: 0 <= i < |s| && s[i].id == id ==> s[i] in r
    ensures |r| == 0 <==> !HasId(s, id)
  {
    if |s| == 0 then []
    else
      var rest := Matching(s[1..], id);
      assert HasId(s[1..], id) ==> HasId(s, id) by {
        if HasId(s[1..], id) {
          var i :| 0 <= i < |s[1..]| && s[1..][i].id == id;
          assert s[i + 1].id == id;
        }
      }
      assert HasId(s, id) && s[0].id != id ==> HasId(s[1..], id) by {
        if HasId(s, id) && s[0].id != id {
          var i :| 0 <= i < |s| && s[i].id == id;
          assert s[1..][i - 1].id == id;
        }
      }
      assert forall i :: 1 <= i < |s| ==> s[i] == s[1..][i - 1];
      if s[0].id == id then [s[0]] + rest else rest
  }

  /** With distinct ids a lookup finds at most one dictionary. */
  lemma {:induction false} MatchingDistinct(s: Posts, id: int)
    requires DistinctIds(s)
    ensures |Matching(s, id)| <= 1
    ensures HasId(s, id) ==> Matching(s, id) == [s[FirstIndex(s, id).value]]
    decreases |s|
  {
    if |s| > 0 {
      assert DistinctIds(s[1..]) by {
        forall i, j | 0 <= i < j < |s[1..]|
          ensures s[1..][i].id != s[1..][j].id
        {
          assert s[1..][i] == s[i + 1] && s[1..][j] == s[j + 1];
        }
      }
      MatchingDistinct(s[1..], s[0].id);
      MatchingDistinct(s[1..], id);
    }
  }

  /** The dictionary `Post.dict()` stores for a body under a given id. */
  function FromBody(id: int, body: PostBody): Record
  {
    Record(id, Some(body.title), Some(body.content), Present(PublishedOrDefault(body.published)), Present(body.rating))
  }

  /** `create_posts`: the new dictionary gets an id above every stored id and
      is appended; `max` of an empty list raises, which the server answers
      with 500. */
  function Create(s: Posts, body: PostBody): (r: Step<Posts, Record>)
    ensures |s| == 0 ==> r == Step(Fail(InternalError), s)
    ensures |s| > 0 ==>
      && r.out.Ok? && r.out.status == 201
      && r.state == s + [r.out.value]
      && r.out.value.id == MaxId(s) + 1
      && (forall i :: 0 <= i < |s| ==> s[i].id < r.out.value.id)
      && r.out.value == FromBody(r.out.value.id, body)
  {
    if |s| == 0 then Step(Fail(InternalError), s)
    else
      var rec := FromBody(MaxId(s) + 1, body);
      Step(Ok(201, rec), s + [rec])
  }

  /** Creation keeps ids distinct, and the new dictionary is the latest one. */
  lemma CreateKeepsDistinct(s: Posts, body: PostBody)
    requires DistinctIds(s) && |s| > 0
    ensures DistinctIds(Create(s, body).state)
    ensures Latest(Create(s, body).state) == Ok(200, Create(s, body).out.value)
  {
  }

  /** `get_latest_post`: `my_posts[-1]`, which raises on an empty list. */
  function Latest(s: Posts): (r: Outcome<Record>)
    ensures |s| == 0 <==> r == Fail(InternalError)
    ensures r.Ok? ==> r.status == 200 && r.value == s[|s| - 1]
  {
    if |s| == 0 then Fail(InternalError) else Ok(200, s[|s| - 1])
  }

  /** `get_post`: every dictionary with the id, or 404 when there is none. */
  function Get(s: Posts, id: int): (r: Outcome<Posts>)
    ensures r.Fail? <==> !HasId(s, id)
    ensures r.Fail? ==> r.error == NotFound
    ensures r.Ok? ==> r.status == 200 && |r.value| > 0 && forall x :: x in r.value ==> x in s && x.id == id
    ensures r.Ok? ==> forall i :: 0 <= i < |s| && s[i].id == id ==> s[i] in r.value
  {
    var found := Matching(s, id);
    if |found| == 0 then Fail(NotFound) else Ok(200, found)
  }

  /** `delete_post`: 404 for an absent id; otherwise the first dictionary
      with the id is popped and the rest keep their order. */
  function Delete(s: Posts, id: int): (r: Step<Posts, ()>)
    ensures !HasId(s, id) ==> r == Step(Fail(NotFound), s)
    ensures HasId(s, id) ==>
      && r.out == Ok(204, ())
      && |r.state| == |s| - 1
      && exists i :: 0 <= i < |s| && s[i].id == id
           && (forall j :: 0 <= j < i ==> s[j].id != id)
           && r.state == s[..i] + s[i + 1..]
  {
    match FirstIndex(s, id)
    case None => Step(Fail(NotFound), s)
    case Some(i) => Step(Ok(204, ()), s[..i] + s[i + 1..])
  }

  /** With distinct ids, a deleted id is gone and every other dictionary
      remains. */
  lemma DeleteRemovesOnlyTarget(s: Posts, id: int)
    requires DistinctIds(s) && HasId(s, id)
    ensures var t := Delete(s, id).state;
      && !HasId(t, id)
      && DistinctIds(t)
      && (forall x :: x in s && x.id != id ==> x in t)
      && Get(t, id) == Fail(NotFound)
  {
    var i := FirstIndex(s, id).value;
    var t := Delete(s, id).state;
    assert t == s[..i] + s[i + 1..];
    assert forall j :: 0 <= j < |t| ==> t[j] == (if j < i then s[j] else s[j + 1]);
    forall x | x in s && x.id != id
      ensures x in t
    {
      var k :| 0 <= k < |s| && s[k] == x;
      assert t[if k < i then k else k - 1] == x;
    }
  }

  /** `update_post`: the first dictionary with the id is replaced by the body,
      with the path id; the length and every other entry are kept. */
  function Update(s: Posts, id: int, body: PostBody): (r: Step<Posts, Record>)
    ensures !HasId(s, id) ==> r == Step(Fail(NotFound), s)
    ensures HasId(s, id) ==>
      && r.out.Ok? && r.out.status == 200
      && r.out.value == FromBody(id, body)
      && |r.state| == |s|
      && exists i :: 0 <= i < |s| && s[i].id == id
           && (forall j :: 0 <= j < i ==> s[j].id != id)
           && r.state[i] == r.out.value
           && (forall j :: 0 <= j < |s| && j != i ==> r.state[j] == s[j])
  {
    match FirstIndex(s, id)
    case None => Step(Fail(NotFound), s)
    case Some(i) =>
      var rec := FromBody(id, body);
      Step(Ok(200, rec), s[i := rec])
  }

  /** The value a patched field ends with: the supplied one, else the old one. */
  function Override<T>(f: Field<T>, old_: T): T
  {
    match f
    case Absent => old_
    case Present(v) => v
  }

  /** `patch_post`'s merge: the stored dictionary is read back through the
      `PatchPost` schema (a missing `published` becomes true, a missing
      `rating` becomes `None`), then the supplied fields and the id replace
      their counterparts. */
  function Merge(stored: Record, id: int, patch: PatchBody): (r: Record)
    ensures r.id == id
    ensures patch.title.Present? ==> r.title == patch.title.value
    ensures patch.content.Present? ==> r.content == patch.content.value
    ensures patch.published.Present? ==> r.published == patch.published
    ensures patch.rating.Present? ==> r.rating == patch.rating
    // the fields the request leaves unset keep their stored values
    ensures patch.title.Absent? ==> r.title == stored.title
    ensures patch.content.Absent? ==> r.content == stored.content
    ensures patch.published.Absent? && stored.published.Present? ==> r.published == stored.published
    ensures patch.rating.Absent? && stored.rating.Present? ==> r.rating == stored.rating
    // a key missing from the stored dictionary gets the schema default
    ensures patch.published.Absent? && stored.published.Absent? ==> r.published == Present(true)
    ensures patch.rating.Absent? && stored.rating.Absent? ==> r.rating == Present(None)
    // every key is present afterwards
    ensures r.published.Present? && r.rating.Present?
  {
    var storedRating := match stored.rating case Absent => None case Present(v) => v;
    Record(
      id,
      Override(patch.title, stored.title),
      Override(patch.content, stored.content),
      Present(Override(patch.published, PublishedOrDefault(stored.published))),
      Present(Override(patch.rating, storedRating)))
  }

  /** An empty patch only fills in the schema defaults. */
  lemma EmptyPatchFillsDefaults(stored: Record)
    ensures Merge(stored, stored.id, PatchBody(Absent, Absent, Absent, Absent)) ==
      stored.(published := Present(PublishedOrDefault(stored.published)),
              rating := Present(if stored.rating.Present? then stored.rating.value else None))
  {
  }

  /** `patch_post`: 404 for an absent id; otherwise the first dictionary with
      the id is replaced by its merge with the request. */
  function Patch(s: Posts, id: int, patch: PatchBody): (r: Step<Posts, Record>)
    ensures !HasId(s, id) ==> r == Step(Fail(NotFound), s)
    ensures HasId(s, id) ==>
      && r.out.Ok? && r.out.status == 200
      && |r.state| == |s|
      && exists i :: 0 <= i < |s| && s[i].id == id
           && (forall j :: 0 <= j < i ==> s[j].id != id)
           && r.out.value == Merge(s[i], id, patch)
           && r.state[i] == r.out.value
           && (forall j :: 0 <= j < |s| && j != i ==> r.state[j] == s[j])
  {
    match FirstIndex(s, id)
    case None => Step(Fail(NotFound), s)
    case Some(i) =>
      var rec := Merge(s[i], id, patch);
      Step(Ok(200, rec), s[i := rec])
  }

  /** Update and patch keep ids distinct, since the replaced entry keeps its id. */
  lemma ReplaceKeepsDistinct(s: Posts, id: int, body: PostBody, patch: PatchBody)
    requires DistinctIds(s)
    ensures DistinctIds(Update(s, id, body).state)
    ensures DistinctIds(Patch(s, id, patch).state)
  {
  }

  /** The list the application starts with has distinct ids, so the first
      creation succeeds and gets id 4. */
  lemma InitialStoreWellFormed(body: PostBody)
    ensures DistinctIds(Initial)
    ensures Create(Initial, body).out.Ok? && Create(Initial, body).out.value.id == 4
  {
    assert MaxId(Initial) == 3 by {
      assert Initial[2].id == 3;
    }
  }
}
