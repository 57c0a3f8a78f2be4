/**
 * Sequence facts behind the routes: the order in which a table's rows are listed, the
 * LIMIT/OFFSET window, and the list operations on a ticket's linked ids.
 */
module Tables {
  import opened Basics

  predicate NoDup<T(==)>(s: seq<T>)
  {
    forall i, j :: 0 <= i < j < |s| ==> s[i] != s[j]
  }

  predicate Increasing(s: seq<int>)
  {
    forall i, j :: 0 <= i < j < |s| ==> s[i] < s[j]
  }

  /** m is the least of keys. */
  predicate IsLeast(m: int, keys: set<int>)
  {
    m in keys && forall k :: k in keys ==> m <= k
  }

  lemma {:induction false} MinExists(keys: set<int>)
    requires keys != {}
    ensures exists m :: IsLeast(m, keys)
    decreases keys
  {
    if forall y :: y !in keys {
      assert false;
    }
    var x :| x in keys;
    if keys == {x} {
      assert IsLeast(x, keys);
    } else {
      var rest := keys - {x};
      MinExists(rest);
      var m :| IsLeast(m, rest);
      var least := if x < m then x else m;
      forall k | k in keys
        ensures least <= k
      {
        if k != x {
          assert k in rest;
        }
      }
      assert IsLeast(least, keys);
    }
  }

  /** The primary keys of a table in ascending order. */
  function Ascending(keys: set<int>): (ids: seq<int>)
    ensures Increasing(ids)
    ensures forall k :: k in ids <==> k in keys
    ensures |ids| == |keys|
    decreases keys
  {
    if keys == {} then []
    else
      MinExists(keys);
      var m :| IsLeast(m, keys);
      [m] + Ascending(keys - {m})
  }

  /** The rows of a table in ascending id order: what `select(X)` ... `.all()` returns. */
  function Rows<T>(table: map<int, T>): (rows: seq<T>)
    ensures |rows| == |table.Keys|
  {
    var ids := Ascending(table.Keys);
    seq(|ids|, i requires 0 <= i < |ids| => table[ids[i]])
  }

  /** Listing a table yields every stored row and nothing else. */
  lemma RowsListTable<T>(table: map<int, T>)
    ensures forall k :: k in table ==> table[k] in Rows(table)
    ensures forall x :: x in Rows(table) ==> x in table.Values
  {
    var ids := Ascending(table.Keys);
    forall k | k in table
      ensures table[k] in Rows(table)
    {
      var i :| 0 <= i < |ids| && ids[i] == k;
      assert Rows(table)[i] == table[k];
    }
  }

  /** `LIMIT limit OFFSET offset` over the listed rows. */
  function Page<T>(rows: seq<T>, offset: nat, limit: nat): (page: seq<T>)
    ensures |page| <= limit
    ensures |page| == if offset >= |rows| then 0 else Min(limit, |rows| - offset)
    ensures forall i :: 0 <= i < |page| ==> page[i] == rows[offset + i]
  {
    if offset >= |rows| then [] else rows[offset .. offset + Min(limit, |rows| - offset)]
  }

  /** `list.index(x)`: where x first occurs. */
  function FirstIndex(s: seq<int>, x: int): (i: nat)
    requires x in s
    ensures i < |s| && s[i] == x && x !in s[..i]
  {
    if s[0] == x then 0
    else
      var j := FirstIndex(s[1..], x);
      assert s[..j + 1] == [s[0]] + s[1..][..j];
      1 + j
  }

  /** `list.remove(x)`, when x is present: the first occurrence dropped, the rest kept in order. */
  function RemoveFirst(s: seq<int>, x: int): (r: seq<int>)
    ensures x !in s ==> r == s
    ensures x in s ==> |r| == |s| - 1 && forall y :: y != x ==> (y in r <==> y in s)
    ensures x in s ==>
              var i := FirstIndex(s, x);
              && (forall j :: 0 <= j < i ==> r[j] == s[j])
              && (forall j :: i <= j < |r| ==> r[j] == s[j + 1])
              && multiset(r) == multiset(s) - multiset{x}
  {
    if x in s then
      var i := FirstIndex(s, x);
      assert s == s[..i] + [x] + s[i + 1..];
      s[..i] + s[i + 1..]
    else s
  }

  lemma RemoveFirstHead(s: seq<int>, x: int)
    requires s != [] && s[0] == x
    ensures RemoveFirst(s, x) == s[1..]
  {
  }

  lemma RemoveFirstCons(s: seq<int>, x: int)
    requires s != [] && s[0] != x
    ensures RemoveFirst(s, x) == [s[0]] + RemoveFirst(s[1..], x)
  {
  }

  /** Every occurrence of x dropped: what deleting x's association rows leaves of a list. */
  function Without(s: seq<int>, x: int): (r: seq<int>)
    ensures forall y :: y in r <==> y in s && y != x
    ensures |r| <= |s|
    ensures multiset(r) == multiset(s)[x := 0]
  {
    if s == [] then []
    else
      assert s == [s[0]] + s[1..];
      if s[0] == x then Without(s[1..], x)
      else [s[0]] + Without(s[1..], x)
  }

  /** Scrubbing works piecewise, so the elements that stay keep their relative order. */
  lemma {:induction false} WithoutAppend(s: seq<int>, t: seq<int>, x: int)
    ensures Without(s + t, x) == Without(s, x) + Without(t, x)
  {
    if s != [] {
      assert (s + t)[0] == s[0] && (s + t)[1..] == s[1..] + t;
      WithoutAppend(s[1..], t, x);
    } else {
      assert s + t == t;
    }
  }

  /** The list after an assign: x appended unless it is already there. */
  function AppendIfAbsent(s: seq<int>, x: int): seq<int>
  {
    if x in s then s else s + [x]
  }

  /** Assigning twice leaves the list as assigning once. */
  lemma AppendIfAbsentIdempotent(s: seq<int>, x: int)
    ensures AppendIfAbsent(AppendIfAbsent(s, x), x) == AppendIfAbsent(s, x)
  {
  }

  /** An assign keeps a duplicate-free list duplicate-free, holds x, and loses nothing. */
  lemma AppendIfAbsentNoDup(s: seq<int>, x: int)
    requires NoDup(s)
    ensures NoDup(AppendIfAbsent(s, x))
    ensures x in AppendIfAbsent(s, x)
    ensures forall y :: y in AppendIfAbsent(s, x) <==> y in s || y == x
  {
  }

  /** On a duplicate-free list, removing the first occurrence removes them all, and order is kept. */
  lemma {:induction false} RemoveFirstNoDup(s: seq<int>, x: int)
    requires NoDup(s)
    ensures RemoveFirst(s, x) == Without(s, x)
    ensures NoDup(RemoveFirst(s, x))
  {
    if s != [] {
      assert NoDup(s[1..]);
      RemoveFirstNoDup(s[1..], x);
      if s[0] == x {
        RemoveFirstHead(s, x);
        assert x !in s[1..];
        WithoutAbsent(s[1..], x);
      } else {
        RemoveFirstCons(s, x);
        assert s[0] !in s[1..];
        ConsNoDup(s[0], Without(s[1..], x));
      }
    }
  }

  lemma {:induction false} WithoutAbsent(s: seq<int>, x: int)
    requires x !in s
    ensures Without(s, x) == s
  {
    if s != [] {
      WithoutAbsent(s[1..], x);
      assert [s[0]] + s[1..] == s;
    }
  }

  /** Removing a mechanic just assigned to a list that lacked it restores the list. */
  lemma {:induction false} RemoveUndoesAssign(s: seq<int>, x: int)
    requires x !in s
    ensures RemoveFirst(AppendIfAbsent(s, x), x) == s
  {
    if s == [] {
      RemoveFirstHead([x], x);
    } else {
      assert (s + [x])[1..] == s[1..] + [x];
      RemoveFirstCons(s + [x], x);
      RemoveUndoesAssign(s[1..], x);
      assert [s[0]] + s[1..] == s;
    }
  }

  lemma ConsNoDup(a: int, s: seq<int>)
    requires NoDup(s) && a !in s
    ensures NoDup([a] + s)
  {
    var r := [a] + s;
    forall i, j | 0 <= i < j < |r|
      ensures r[i] != r[j]
    {
      if i > 0 {
        assert r[i] == s[i - 1] && r[j] == s[j - 1];
      } else {
        assert r[j] == s[j - 1];
      }
    }
  }

  /** Dropping ids from a duplicate-free list keeps it duplicate-free. */
  lemma {:induction false} WithoutNoDup(s: seq<int>, x: int)
    requires NoDup(s)
    ensures NoDup(Without(s, x))
  {
    if s != [] {
      assert NoDup(s[1..]);
      WithoutNoDup(s[1..], x);
      if s[0] != x {
        assert s[0] !in s[1..];
        ConsNoDup(s[0], Without(s[1..], x));
      }
    }
  }
}
