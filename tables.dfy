/** A table is a map from id to row. This module gives the datastore's side
    of a `findAll`: the ids of a table in ascending order, the ids whose rows
    satisfy a predicate, the rows at those ids, and LIMIT/OFFSET. */
module Tables {
  import opened JsValues

  predicate Ascending(ids: seq<int>) {
    forall i, j :: 0 <= i < j < |ids| ==> ids[i] < ids[j]
  }

  /** The keys of `m` in `[lo, hi)`, in ascending order (`ORDER BY id ASC`). */
  function IdsInRange<T>(m: map<int, T>, lo: int, hi: int): (r: seq<int>)
    decreases hi - lo
    ensures Ascending(r)
    ensures forall i :: 0 <= i < |r| ==> lo <= r[i] < hi && r[i] in m
    ensures forall k :: k in m && lo <= k < hi ==> k in r
  {
    if lo >= hi then []
    else
      var rest := IdsInRange(m, lo + 1, hi);
      if lo in m then [lo] + rest else rest
  }

  /** The ids of `ids`, in their order, whose rows satisfy `p` (`WHERE`). */
  function SelectIds<T>(m: map<int, T>, ids: seq<int>, p: T -> bool): (r: seq<int>)
    requires forall i :: 0 <= i < |ids| ==> ids[i] in m
    ensures forall i :: 0 <= i < |r| ==> r[i] in ids && r[i] in m && p(m[r[i]])
    ensures forall i :: 0 <= i < |ids| && p(m[ids[i]]) ==> ids[i] in r
    ensures Ascending(ids) ==> Ascending(r)
  {
    if ids == [] then []
    else
      var rest := SelectIds(m, ids[1..], p);
      assert forall i :: 0 <= i < |rest| ==> rest[i] in ids[1..];
      if p(m[ids[0]]) then [ids[0]] + rest else rest
  }

  /** Selection depends only on the values of the predicate. */
  lemma {:induction false} SelectIdsAgree<T>(m: map<int, T>, ids: seq<int>, p: T -> bool, p': T -> bool)
    requires forall i :: 0 <= i < |ids| ==> ids[i] in m
    requires forall i :: 0 <= i < |ids| ==> p(m[ids[i]]) == p'(m[ids[i]])
    ensures SelectIds(m, ids, p) == SelectIds(m, ids, p')
  {
    if ids != [] {
      SelectIdsAgree(m, ids[1..], p, p');
    }
  }

  /** The rows at `ids`, in order. */
  function ValuesAt<T>(m: map<int, T>, ids: seq<int>): (r: seq<T>)
    requires forall i :: 0 <= i < |ids| ==> ids[i] in m
    ensures |r| == |ids| && forall i :: 0 <= i < |r| ==> r[i] == m[ids[i]]
  {
    if ids == [] then [] else [m[ids[0]]] + ValuesAt(m, ids[1..])
  }

  /** When every key of `m` lies in `[lo, hi)`, the rows at the ids in that
      range are exactly the rows of the table. */
  lemma RowsInRange<T>(m: map<int, T>, lo: int, hi: int)
    requires forall k :: k in m ==> lo <= k < hi
    ensures forall x :: x in ValuesAt(m, IdsInRange(m, lo, hi)) <==> x in m.Values
  {
    forall x ensures x in ValuesAt(m, IdsInRange(m, lo, hi)) <==> x in m.Values {
      if x in ValuesAt(m, IdsInRange(m, lo, hi)) {
        ListedRowIsRow(m, lo, hi, x);
      }
      if x in m.Values {
        RowIsListed(m, lo, hi, x);
      }
    }
  }

  lemma ListedRowIsRow<T>(m: map<int, T>, lo: int, hi: int, x: T)
    requires x in ValuesAt(m, IdsInRange(m, lo, hi))
    ensures x in m.Values
  {
    var ids := IdsInRange(m, lo, hi);
    var rows := ValuesAt(m, ids);
    var i :| 0 <= i < |rows| && rows[i] == x;
    assert ids[i] in m && m[ids[i]] == x;
  }

  lemma RowIsListed<T>(m: map<int, T>, lo: int, hi: int, x: T)
    requires forall k :: k in m ==> lo <= k < hi
    requires x in m.Values
    ensures x in ValuesAt(m, IdsInRange(m, lo, hi))
  {
    var ids := IdsInRange(m, lo, hi);
    var rows := ValuesAt(m, ids);
    var k :| k in m && m[k] == x;
    var i :| 0 <= i < |ids| && ids[i] == k;
    assert rows[i] == x;
  }

  /** `OFFSET offset LIMIT limit` (no LIMIT when `limit` is `None`): the
      result is the run of `s` that starts at `offset`, as long as `limit`
      allows. */
  function Paginate<T>(s: seq<T>, offset: nat, limit: Option<nat>): (r: seq<T>)
    ensures offset >= |s| ==> r == []
    ensures offset < |s| && limit.None? ==> |r| == |s| - offset
    ensures offset < |s| && limit.Some? ==>
      |r| == if limit.value < |s| - offset then limit.value else |s| - offset
    ensures forall i :: 0 <= i < |r| ==> offset + i < |s| && r[i] == s[offset + i]
  {
    var rest := if offset <= |s| then s[offset..] else [];
    if limit.Some? && limit.value < |rest| then rest[..limit.value] else rest
  }

  /** A page holds only elements of the listing, and with no offset and no
      limit it is the whole listing. */
  lemma PaginateWithin<T>(s: seq<T>, offset: nat, limit: Option<nat>)
    ensures forall x :: x in Paginate(s, offset, limit) ==> x in s
    ensures offset == 0 && limit.None? ==> Paginate(s, offset, limit) == s
  {
    var r := Paginate(s, offset, limit);
    forall x | x in r ensures x in s {
      var i :| 0 <= i < |r| && r[i] == x;
      assert s[offset + i] == x;
    }
  }
}
