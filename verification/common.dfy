/** Shared vocabulary of the model: optional values, HTTP outcomes, users,
    rows of a table keyed by a primary key, and filtering over tables. */
module Common {

  datatype Option<T> = None | Some(value: T)
  {
    /** The value, or `default` when there is none (`dict.get(key, default)`). */
    function GetOr(default: T): T
    {
      match this
      case Some(v) => v
      case None => default
    }
  }

  /** The HTTP outcomes the views produce.  Created is 201, NoContent 204,
      ServerError stands for an uncaught exception (500). */
  datatype Response<T> =
    | Ok(body: T)
    | Created(body: T)
    | NoContent
    | BadRequest
    | Forbidden
    | NotFound
    | ServerError
  {
    predicate IsSuccess() { Ok? || Created? || NoContent? }
  }

  /** A user is identified by its name; `groups` are the names of the
      groups it belongs to, as listed by the identity store. */
  type UserId = string
  datatype User = User(name: UserId, groups: seq<string>)

  /** A database row: the auto-assigned primary key and the record. */
  datatype Row<T> = Row(id: nat, rec: T)

  predicate UniqueIds<T>(t: seq<Row<T>>)
  {
    forall i, j :: 0 <= i < j < |t| ==> t[i].id != t[j].id
  }

  predicate IdsBelow<T>(t: seq<Row<T>>, bound: nat)
  {
    forall i :: 0 <= i < |t| ==> t[i].id < bound
  }

  predicate HasId<T>(t: seq<Row<T>>, id: nat)
  {
    exists i :: 0 <= i < |t| && t[i].id == id
  }

  /** `objects.get(pk=id)`: the position of the row with that key. */
  function IndexOf<T>(t: seq<Row<T>>, id: nat): (r: Option<nat>)
    ensures r.Some? ==> r.value < |t| && t[r.value].id == id
    ensures r.None? <==> !HasId(t, id)
    ensures r.Some? && UniqueIds(t) ==>
              forall i :: 0 <= i < |t| && t[i].id == id ==> i == r.value
  {
    if |t| == 0 then None
    else if t[0].id == id then Some(0)
    else
      match IndexOf(t[1..], id)
      case None => None
      case Some(k) => Some(k + 1)
  }

  /** Under distinct keys, a row is found at its own position. */
  lemma IndexOfUnique<T>(t: seq<Row<T>>, i: nat)
    requires UniqueIds(t) && i < |t|
    ensures IndexOf(t, t[i].id) == Some(i)
  {
  }

  /** `row.delete()`: the table without position i. */
  function RemoveAt<T>(t: seq<T>, i: nat): (r: seq<T>)
    requires i < |t|
    ensures |r| == |t| - 1
    ensures forall k :: 0 <= k < i ==> r[k] == t[k]
    ensures forall k :: i <= k < |r| ==> r[k] == t[k + 1]
    ensures multiset(r) + multiset{t[i]} == multiset(t)
  {
    assert t == t[..i] + [t[i]] + t[i + 1..];
    t[..i] + t[i + 1..]
  }

  lemma RemoveAtKeepsIds<T>(t: seq<Row<T>>, i: nat, bound: nat)
    requires i < |t| && UniqueIds(t) && IdsBelow(t, bound)
    ensures UniqueIds(RemoveAt(t, i)) && IdsBelow(RemoveAt(t, i), bound)
    ensures !HasId(RemoveAt(t, i), t[i].id)
  {
    var r := RemoveAt(t, i);
    forall a, b | 0 <= a < b < |r| ensures r[a].id != r[b].id {
      var a' := if a < i then a else a + 1;
      var b' := if b < i then b else b + 1;
      assert r[a] == t[a'] && r[b] == t[b'] && a' < b';
    }
    forall k | 0 <= k < |r| ensures r[k].id != t[i].id {
      var k' := if k < i then k else k + 1;
      assert r[k] == t[k'] && k' != i;
    }
  }

  lemma AppendFreshKeepsIds<T>(t: seq<Row<T>>, row: Row<T>, bound: nat)
    requires UniqueIds(t) && IdsBelow(t, bound) && row.id == bound
    ensures UniqueIds(t + [row]) && IdsBelow(t + [row], bound + 1)
  {
  }

  lemma ReplaceKeepsIds<T>(t: seq<Row<T>>, i: nat, x: T, bound: nat)
    requires i < |t| && UniqueIds(t) && IdsBelow(t, bound)
    ensures UniqueIds(t[i := Row(t[i].id, x)]) && IdsBelow(t[i := Row(t[i].id, x)], bound)
  {
  }

  /** A query's `.filter(...)`: the elements of s satisfying p, in order. */
  function Where<T>(s: seq<T>, p: T -> bool): (r: seq<T>)
    ensures |r| <= |s|
    ensures forall i :: 0 <= i < |r| ==> p(r[i])
  {
    if |s| == 0 then []
    else
      assert s == [s[0]] + s[1..];
      if p(s[0]) then [s[0]] + Where(s[1..], p) else Where(s[1..], p)
  }

  /** The filter keeps exactly the elements that satisfy the condition. */
  lemma WhereMembers<T>(s: seq<T>, p: T -> bool)
    ensures forall x :: x in Where(s, p) <==> x in s && p(x)
  {
    forall x ensures x in Where(s, p) <==> x in s && p(x) {
      WhereHas(s, p, x);
    }
  }

  /** One element is kept by the filter iff it occurs and satisfies the
      condition. */
  lemma {:induction false} WhereHas<T>(s: seq<T>, p: T -> bool, x: T)
    ensures x in Where(s, p) <==> x in s && p(x)
  {
    if |s| > 0 {
      WhereHas(s[1..], p, x);
      assert s == [s[0]] + s[1..];
    }
  }

  /** Filtering distributes over concatenation. */
  lemma {:induction false} WhereAppend<T>(s: seq<T>, t: seq<T>, p: T -> bool)
    ensures Where(s + t, p) == Where(s, p) + Where(t, p)
  {
    if |s| == 0 {
      assert s + t == t;
    } else {
      assert (s + t)[1..] == s[1..] + t;
      WhereAppend(s[1..], t, p);
    }
  }

  /** Filtering by a condition no element meets selects nothing. */
  lemma {:induction false} WhereNone<T>(s: seq<T>, p: T -> bool)
    requires forall i :: 0 <= i < |s| ==> !p(s[i])
    ensures Where(s, p) == []
  {
    if |s| > 0 {
      WhereNone(s[1..], p);
    }
  }

  /** Filtering twice is filtering once by the conjunction. */
  lemma {:induction false} WhereWhere<T>(s: seq<T>, p: T -> bool, q: T -> bool, pq: T -> bool)
    requires forall x :: pq(x) == (p(x) && q(x))
    ensures Where(Where(s, p), q) == Where(s, pq)
  {
    if |s| > 0 {
      WhereWhere(s[1..], p, q, pq);
      if p(s[0]) {
        assert Where(s, p) == [s[0]] + Where(s[1..], p);
        assert Where(s, p)[1..] == Where(s[1..], p);
      }
    }
  }

  /** Filtering by a predicate that holds everywhere keeps everything. */
  lemma {:induction false} WhereAll<T>(s: seq<T>, p: T -> bool)
    requires forall x :: p(x)
    ensures Where(s, p) == s
  {
    if |s| > 0 {
      WhereAll(s[1..], p);
      assert s == [s[0]] + s[1..];
    }
  }

  /** Counting two disjoint conditions separately adds up to counting their
      disjunction. */
  lemma {:induction false} WhereDisjointCount<T>(s: seq<T>, p: T -> bool, q: T -> bool, pq: T -> bool)
    requires forall x :: pq(x) == (p(x) || q(x))
    requires forall x :: !(p(x) && q(x))
    ensures |Where(s, pq)| == |Where(s, p)| + |Where(s, q)|
  {
    if |s| > 0 {
      WhereDisjointCount(s[1..], p, q, pq);
    }
  }

  /** A stronger condition selects no more elements. */
  lemma {:induction false} WhereMonotoneCount<T>(s: seq<T>, p: T -> bool, q: T -> bool)
    requires forall x :: p(x) ==> q(x)
    ensures |Where(s, p)| <= |Where(s, q)|
  {
    if |s| > 0 {
      WhereMonotoneCount(s[1..], p, q);
    }
  }
}
