/** Order-preserving selection from a sequence, used for the rows a SQL
    statement keeps and for the names a list comprehension keeps. The
    definitions peel the LAST element, the way a loop over a prefix grows. */
module Seqs {

  /** `a` is `b` with some elements left out, the rest in their original order. */
  predicate IsSubsequence<T(==)>(a: seq<T>, b: seq<T>)
    decreases |b|
  {
    a == []
    || (b != []
        && ((a[|a| - 1] == b[|b| - 1] && IsSubsequence(a[..|a| - 1], b[..|b| - 1]))
            || IsSubsequence(a, b[..|b| - 1])))
  }

  /** Elements of a subsequence are elements of the whole. */
  lemma {:induction false} SubsequenceMembers<T>(a: seq<T>, b: seq<T>, x: T)
    requires IsSubsequence(a, b) && x in a
    ensures x in b
    decreases |b|
  {
    var a', b' := a[..|a| - 1], b[..|b| - 1];
    if a[|a| - 1] == b[|b| - 1] && IsSubsequence(a', b') {
      if x != a[|a| - 1] {
        assert a == a' + [a[|a| - 1]];
        SubsequenceMembers(a', b', x);
        assert b == b' + [b[|b| - 1]];
      }
    } else {
      SubsequenceMembers(a, b', x);
      assert b == b' + [b[|b| - 1]];
    }
  }

  /** The rows of `rows` whose `owner` is not `id`, in their original order
      and with every copy of a repeated row kept: what
      `DELETE ... WHERE owner = id` leaves of a table. */
  function Without<T(!new)>(rows: seq<T>, owner: T -> int, id: int): (kept: seq<T>)
    ensures forall x :: x in kept <==> x in rows && owner(x) != id
    ensures IsSubsequence(kept, rows)
  {
    if rows == [] then []
    else
      var init, last := rows[..|rows| - 1], rows[|rows| - 1];
      var rest := Without(init, owner, id);
      assert rows == init + [last];
      if owner(last) == id then
        rest
      else
        assert (rest + [last])[..|rest|] == rest;
        rest + [last]
  }

  /** A delete keeps every copy of a surviving row: each row occurs in the
      result as often as in the table, or not at all when it is deleted. */
  lemma {:induction false} WithoutCounts<T(!new)>(rows: seq<T>, owner: T -> int, id: int)
    ensures forall x :: multiset(Without(rows, owner, id))[x] == if owner(x) == id then 0 else multiset(rows)[x]
  {
    if rows != [] {
      var init, last := rows[..|rows| - 1], rows[|rows| - 1];
      WithoutCounts(init, owner, id);
      assert rows == init + [last];
    }
  }

  /** Deleting rows no row is owned by changes nothing. */
  lemma {:induction false} WithoutNothing<T(!new)>(rows: seq<T>, owner: T -> int, id: int)
    requires forall x :: x in rows ==> owner(x) != id
    ensures Without(rows, owner, id) == rows
  {
    if rows != [] {
      var init := rows[..|rows| - 1];
      assert forall x :: x in init ==> x in rows;
      WithoutNothing(init, owner, id);
      assert rows == init + [rows[|rows| - 1]];
    }
  }

  /** Deleting from a table with one more row at the end. */
  lemma WithoutSnoc<T(!new)>(rows: seq<T>, last: T, owner: T -> int, id: int)
    ensures Without(rows + [last], owner, id) == Without(rows, owner, id) + if owner(last) == id then [] else [last]
  {
    assert (rows + [last])[..|rows|] == rows;
  }

  /** Deleting from a concatenation deletes from each part. */
  lemma {:induction false} WithoutAppend<T(!new)>(a: seq<T>, b: seq<T>, owner: T -> int, id: int)
    ensures Without(a + b, owner, id) == Without(a, owner, id) + Without(b, owner, id)
  {
    if b == [] {
      assert a + b == a;
    } else {
      var init, last := b[..|b| - 1], b[|b| - 1];
      var tail := if owner(last) == id then [] else [last];
      calc {
        Without(a + b, owner, id);
        { assert a + b == (a + init) + [last]; WithoutSnoc(a + init, last, owner, id); }
        Without(a + init, owner, id) + tail;
        { WithoutAppend(a, init, owner, id); }
        Without(a, owner, id) + Without(init, owner, id) + tail;
        { assert b == init + [last]; WithoutSnoc(init, last, owner, id); }
        Without(a, owner, id) + Without(b, owner, id);
      }
    }
  }

  /** No two rows share a key (a primary key). */
  ghost predicate KeysDistinct<T>(rows: seq<T>, key: T -> int) {
    forall i, j :: 0 <= i < j < |rows| ==> key(rows[i]) != key(rows[j])
  }

  /** Deleting rows keeps a primary key a primary key. */
  lemma {:induction false} WithoutKeepsKeysDistinct<T(!new)>(rows: seq<T>, key: T -> int, id: int)
    requires KeysDistinct(rows, key)
    ensures KeysDistinct(Without(rows, key, id), key)
  {
    if rows != [] {
      var init, last := rows[..|rows| - 1], rows[|rows| - 1];
      var rest := Without(init, key, id);
      assert KeysDistinct(init, key);
      WithoutKeepsKeysDistinct(init, key, id);
      if key(last) != id {
        var kept := rest + [last];
        forall i, j | 0 <= i < j < |kept| ensures key(kept[i]) != key(kept[j]) {
          if j == |rest| {
            assert kept[i] == rest[i] && rest[i] in init;
            var m :| 0 <= m < |init| && init[m] == kept[i];
            assert key(rows[m]) != key(rows[|rows| - 1]);
          } else {
            assert kept[i] == rest[i] && kept[j] == rest[j];
          }
        }
      }
    }
  }
}
