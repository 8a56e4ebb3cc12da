/**
  The creations ledger: the `creations` table and the three request handlers
  of the user controller (list by owner, list published, toggle like).
  The table is held in memory; the caller's id, resolved by the identity
  provider, arrives as a parameter.
*/
module Ledger {
  import opened Wrappers
  import opened Collections
  import ArrayLiteral

  /** One row of the `creations` table; `likes` is None when the column is NULL. */
  datatype Creation = Creation(
    id: int,
    userId: string,
    kind: string,
    prompt: string,
    content: string,
    publish: bool,
    likes: Option<seq<string>>,
    createdAt: int)

  /** The JSON envelope every handler answers with. */
  datatype Response = Response(success: bool, message: string)

  datatype Reaction = Liked | Unliked

  const NotFound: string := "Creation not found"
  /** The cast error the handler's catch passes on when the literal does not parse. */
  const MalformedLiteral: string := "malformed array literal"

  function Message(r: Reaction): string {
    match r
    case Liked => "Creation Liked"
    case Unliked => "Creation Unliked"
  }

  // ---------------------------------------------------------------- listings

  /** `ORDER BY created_at DESC` */
  predicate NewestFirst(s: seq<Creation>) {
    forall i, j :: 0 <= i < j < |s| ==> s[i].createdAt >= s[j].createdAt
  }

  /** The rows of `rows` that satisfy `keep`, each as often as it occurs in `rows`. */
  function Select(rows: seq<Creation>, keep: Creation -> bool): (r: seq<Creation>)
    ensures forall c :: multiset(r)[c] == if keep(c) then multiset(rows)[c] else 0
  {
    if rows == [] then []
    else
      assert rows == [rows[0]] + rows[1..];
      (if keep(rows[0]) then [rows[0]] else []) + Select(rows[1..], keep)
  }

  function InsertByDate(c: Creation, s: seq<Creation>): (r: seq<Creation>)
    requires NewestFirst(s)
    ensures NewestFirst(r)
    ensures multiset(r) == multiset(s) + multiset{c}
    ensures r != [] && (r[0] == c || (s != [] && r[0] == s[0]))
  {
    if s == [] || c.createdAt >= s[0].createdAt then [c] + s
    else
      assert s == [s[0]] + s[1..];
      [s[0]] + InsertByDate(c, s[1..])
  }

  function SortNewestFirst(s: seq<Creation>): (r: seq<Creation>)
    ensures NewestFirst(r)
    ensures multiset(r) == multiset(s)
  {
    if s == [] then []
    else
      assert s == [s[0]] + s[1..];
      InsertByDate(s[0], SortNewestFirst(s[1..]))
  }

  /** getUserCreations: the caller's rows and no others, newest first. */
  function ListByOwner(rows: seq<Creation>, owner: string): (r: seq<Creation>)
    ensures NewestFirst(r)
    ensures forall c :: multiset(r)[c] == if c.userId == owner then multiset(rows)[c] else 0
    ensures forall c :: c in r <==> c in rows && c.userId == owner
  {
    SortNewestFirst(Select(rows, (c: Creation) => c.userId == owner))
  }

  /** getPublishedCreations: every published row, no unpublished one, newest first. */
  function ListPublished(rows: seq<Creation>): (r: seq<Creation>)
    ensures NewestFirst(r)
    ensures forall c :: multiset(r)[c] == if c.publish then multiset(rows)[c] else 0
    ensures forall c :: c in r <==> c in rows && c.publish
  {
    SortNewestFirst(Select(rows, (c: Creation) => c.publish))
  }

  // ---------------------------------------------------------------- likes

  /** `creation.likes || []`: a NULL column reads as no likes. */
  function CurrentLikes(c: Creation): (r: seq<string>)
    ensures c.likes.None? ==> r == []
    ensures c.likes.Some? ==> r == c.likes.value
  {
    if c.likes.Some? then c.likes.value else []
  }

  /** `likes.filter(user => user !== x)` */
  function RemoveAll(s: seq<string>, x: string): (r: seq<string>)
    ensures x !in r
    ensures forall y :: y != x ==> multiset(r)[y] == multiset(s)[y]
    ensures Subsequence(r, s)
  {
    if s == [] then []
    else
      assert s == [s[0]] + s[1..];
      if s[0] == x then RemoveAll(s[1..], x)
      else [s[0]] + RemoveAll(s[1..], x)
  }

  /**
    The new likes list and the direction of the toggle: the caller's membership
    flips, nobody else's count changes; an unlike keeps the others in order, a
    like appends the caller at the end.
  */
  function ToggleLikes(current: seq<string>, user: string): (r: (seq<string>, Reaction))
    ensures user in r.0 <==> user !in current
    ensures r.1 == Unliked <==> user in current
    ensures forall y :: y != user ==> multiset(r.0)[y] == multiset(current)[y]
    ensures user in current ==> Subsequence(r.0, current)
    ensures user !in current ==>
      |r.0| == |current| + 1 && r.0[..|current|] == current && r.0[|current|] == user
  {
    if user in current then (RemoveAll(current, user), Unliked)
    else (current + [user], Liked)
  }

  lemma {:induction false} RemoveAllAbsent(s: seq<string>, x: string)
    requires x !in s
    ensures RemoveAll(s, x) == s
  {
    if s != [] {
      RemoveAllAbsent(s[1..], x);
      assert [s[0]] + s[1..] == s;
    }
  }

  lemma {:induction false} RemoveAllAppended(s: seq<string>, x: string)
    ensures RemoveAll(s + [x], x) == RemoveAll(s, x)
  {
    if s == [] {
      assert s + [x] == [x];
    } else {
      assert (s + [x])[0] == s[0] && (s + [x])[1..] == s[1..] + [x];
      RemoveAllAppended(s[1..], x);
    }
  }

  /**
    Toggling twice gives the caller back their membership; from "not liked" the
    list itself comes back exactly, from "liked" every copy of the caller is
    replaced by one at the end.
  */
  lemma ToggleTwice(s: seq<string>, user: string)
    ensures var twice := ToggleLikes(ToggleLikes(s, user).0, user);
      && (user in twice.0 <==> user in s)
      && (user !in s ==> twice == (s, Unliked))
      && (user in s ==> twice == (RemoveAll(s, user) + [user], Liked))
  {
    if user !in s {
      RemoveAllAppended(s, user);
      RemoveAllAbsent(s, user);
    }
  }

  /** A like on ["a", "b"] by "c", then an unlike by "a". */
  lemma ToggleExample()
    ensures ToggleLikes(["a", "b"], "c") == (["a", "b", "c"], Liked)
    ensures ToggleLikes(["a", "b", "c"], "a") == (["b", "c"], Unliked)
  {
    assert "c" !in ["a", "b"] && ["a", "b"] + ["c"] == ["a", "b", "c"];
    assert "a" in ["a", "b", "c"];
    var abc: seq<string> := ["a", "b", "c"];
    assert abc[1..] == ["b", "c"] && abc[1..][1..] == ["c"] && abc[1..][1..][1..] == [];
    assert RemoveAll(["c"], "a") == ["c"];
    assert RemoveAll(["b", "c"], "a") == ["b", "c"];
  }

  /** The toggle never creates a duplicate like. */
  lemma ToggleKeepsDistinct(s: seq<string>, user: string)
    requires Distinct(s)
    ensures Distinct(ToggleLikes(s, user).0)
  {
    if user in s {
      SubsequenceDistinct(RemoveAll(s, user), s);
    } else {
      var t := s + [user];
      forall i, j | 0 <= i < j < |t| ensures t[i] != t[j] {
        if j == |s| { assert t[i] == s[i]; }
      }
    }
  }

  // ---------------------------------------------------------------- the table

  /** `SELECT * FROM creations WHERE id = ...`, first row. */
  function Lookup(rows: seq<Creation>, id: int): (r: Option<Creation>)
    ensures r.Some? ==> r.value in rows && r.value.id == id
    ensures r.None? <==> forall c :: c in rows ==> c.id != id
  {
    if rows == [] then None
    else if rows[0].id == id then Some(rows[0])
    else Lookup(rows[1..], id)
  }

  predicate UniqueIds(rows: seq<Creation>) {
    forall i, j :: 0 <= i < j < |rows| ==> rows[i].id != rows[j].id
  }

  class CreationStore {
    var rows: seq<Creation>

    /** `id` is the table's key. */
    ghost predicate Valid()
      reads this
    {
      UniqueIds(rows)
    }

    constructor (initial: seq<Creation>)
      requires UniqueIds(initial)
      ensures Valid() && rows == initial
    {
      rows := initial;
    }

    /**
      toggleLikeCreation: look the row up, flip the caller in its likes, send the
      new list as an array literal and write it to that row's `likes` only.
    */
    method ToggleLike(userId: string, id: int) returns (res: Response)
      requires Valid()
      modifies this
      ensures Valid()
      ensures |rows| == |old(rows)|
      ensures Lookup(old(rows), id).None? ==>
        res == Response(false, NotFound) && rows == old(rows)
      ensures Lookup(old(rows), id).Some? ==>
        var t := ToggleLikes(CurrentLikes(Lookup(old(rows), id).value), userId);
        match ArrayLiteral.Parse(ArrayLiteral.Format(t.0))
        case None =>
          res == Response(false, MalformedLiteral) && rows == old(rows)
        case Some(stored) =>
          && res == Response(true, Message(t.1))
          && forall i :: 0 <= i < |rows| ==>
               rows[i] == if old(rows)[i].id == id then old(rows)[i].(likes := Some(stored))
                          else old(rows)[i]
      ensures Lookup(old(rows), id).Some? ==>
        var c := Lookup(old(rows), id).value;
        ArrayLiteral.AllPlain(CurrentLikes(c)) && ArrayLiteral.PlainElement(userId) ==>
          && res == Response(true, Message(ToggleLikes(CurrentLikes(c), userId).1))
          && forall i :: 0 <= i < |rows| && rows[i].id == id ==>
               rows[i] == c.(likes := Some(ToggleLikes(CurrentLikes(c), userId).0))
    {
      var found := Lookup(rows, id);
      if found.None? {
        return Response(false, NotFound);
      }
      var t := ToggleLikes(CurrentLikes(found.value), userId);
      var literal := ArrayLiteral.Format(t.0);
      var stored := ArrayLiteral.Parse(literal);
      if ArrayLiteral.AllPlain(CurrentLikes(found.value)) && ArrayLiteral.PlainElement(userId) {
        PlainToggleRoundTrip(CurrentLikes(found.value), userId);
      }
      if stored.None? {
        return Response(false, MalformedLiteral);
      }
      var before := rows;
      rows := seq(|before|, i requires 0 <= i < |before| =>
        if before[i].id == id then before[i].(likes := stored) else before[i]);
      res := Response(true, Message(t.1));
    }
  }

  /**
    With ids free of quotes and backslashes, the list the database reads back
    from the literal is exactly the toggled list.
  */
  lemma PlainToggleRoundTrip(current: seq<string>, user: string)
    requires ArrayLiteral.AllPlain(current) && ArrayLiteral.PlainElement(user)
    ensures var t := ToggleLikes(current, user).0;
      ArrayLiteral.Parse(ArrayLiteral.Format(t)) == Some(t)
  {
    var t := ToggleLikes(current, user).0;
    forall i | 0 <= i < |t| ensures ArrayLiteral.PlainElement(t[i]) {
      if t[i] != user {
        assert multiset(current)[t[i]] == multiset(t)[t[i]] > 0;
        var k :| 0 <= k < |current| && current[k] == t[i];
      }
    }
    ArrayLiteral.FormatRoundTrip(t);
  }
}
