/** Reading-order sequencing: a stable sort of boxes by the key
    `(row bucket, minx)`. The row bucket of a box is supplied by the caller as
    the function `row`; the properties below hold for every such function. */
module Sequencer {
  import opened Grids

  /** The sort key of a box: its row bucket, then its left edge. */
  datatype SortKey = SortKey(row: int, minx: int)

  function KeyOf(b: Box, row: Box -> int): SortKey {
    SortKey(row(b), b.minx)
  }

  /** Lexicographic order on keys, as tuple comparison orders `(row, minx)`. */
  predicate KeyLe(a: SortKey, b: SortKey) {
    a.row < b.row || (a.row == b.row && a.minx <= b.minx)
  }

  /** `boxes` is non-decreasing in the key. */
  ghost predicate Sorted(boxes: seq<Box>, row: Box -> int) {
    forall i, j :: 0 <= i < j < |boxes| ==> KeyLe(KeyOf(boxes[i], row), KeyOf(boxes[j], row))
  }

  /** Every box of `boxes` is keyed at or above `k`. */
  ghost predicate AllAbove(k: SortKey, boxes: seq<Box>, row: Box -> int) {
    forall x :: x in boxes ==> KeyLe(k, KeyOf(x, row))
  }

  /** A box in front of a sorted sequence keeps it sorted exactly when no
      box of the sequence is keyed below it. */
  lemma SortedCons(x: Box, boxes: seq<Box>, row: Box -> int)
    ensures Sorted([x] + boxes, row) <==> AllAbove(KeyOf(x, row), boxes, row) && Sorted(boxes, row)
  {
    var s := [x] + boxes;
    if AllAbove(KeyOf(x, row), boxes, row) && Sorted(boxes, row) {
      forall i, j | 0 <= i < j < |s|
        ensures KeyLe(KeyOf(s[i], row), KeyOf(s[j], row))
      {
        if i > 0 {
          assert s[i] == boxes[i - 1] && s[j] == boxes[j - 1];
        } else {
          assert s[j] in boxes;
        }
      }
    }
    if Sorted(s, row) {
      forall y | y in boxes
        ensures KeyLe(KeyOf(x, row), KeyOf(y, row))
      {
        var j :| 0 <= j < |boxes| && boxes[j] == y;
        assert s[0] == x && s[j + 1] == y;
        assert KeyLe(KeyOf(s[0], row), KeyOf(s[j + 1], row));
      }
      forall i, j | 0 <= i < j < |boxes|
        ensures KeyLe(KeyOf(boxes[i], row), KeyOf(boxes[j], row))
      {
        assert s[i + 1] == boxes[i] && s[j + 1] == boxes[j];
      }
    }
  }

  /** In a sorted sequence no box is keyed below the first one. */
  lemma SortedHead(boxes: seq<Box>, row: Box -> int)
    requires Sorted(boxes, row) && |boxes| > 0
    ensures AllAbove(KeyOf(boxes[0], row), boxes, row)
  {
    forall x | x in boxes
      ensures KeyLe(KeyOf(boxes[0], row), KeyOf(x, row))
    {
      var i :| 0 <= i < |boxes| && boxes[i] == x;
      if i > 0 {
        assert KeyLe(KeyOf(boxes[0], row), KeyOf(boxes[i], row));
      }
    }
  }

  /** The boxes of `boxes` whose key is `k`, in their order in `boxes`. */
  function WithKey(boxes: seq<Box>, row: Box -> int, k: SortKey): (r: seq<Box>)
    ensures |r| <= |boxes|
  {
    if |boxes| == 0 then []
    else (if KeyOf(boxes[0], row) == k then [boxes[0]] else []) + WithKey(boxes[1..], row, k)
  }

  /** `WithKey` selects exactly the boxes that occur and carry key `k`. */
  lemma {:induction false} WithKeyMembers(boxes: seq<Box>, row: Box -> int, k: SortKey, x: Box)
    ensures x in WithKey(boxes, row, k) <==> x in boxes && KeyOf(x, row) == k
    decreases |boxes|
  {
    if |boxes| > 0 {
      WithKeyMembers(boxes[1..], row, k, x);
      assert boxes == [boxes[0]] + boxes[1..];
    }
  }

  /** A sequence with no box keyed `k` selects nothing under `k`. */
  lemma {:induction false} WithKeyNone(boxes: seq<Box>, row: Box -> int, k: SortKey)
    requires forall x :: x in boxes ==> KeyOf(x, row) != k
    ensures WithKey(boxes, row, k) == []
    decreases |boxes|
  {
    if |boxes| > 0 {
      WithKeyNone(boxes[1..], row, k);
    }
  }

  lemma {:induction false} WithKeyConcat(a: seq<Box>, b: seq<Box>, row: Box -> int, k: SortKey)
    ensures WithKey(a + b, row, k) == WithKey(a, row, k) + WithKey(b, row, k)
    decreases |a|
  {
    if |a| > 0 {
      var head := if KeyOf(a[0], row) == k then [a[0]] else [];
      assert (a + b)[0] == a[0] && (a + b)[1..] == a[1..] + b;
      assert WithKey(a + b, row, k) == head + WithKey(a[1..] + b, row, k);
      assert WithKey(a, row, k) == head + WithKey(a[1..], row, k);
      WithKeyConcat(a[1..], b, row, k);
    } else {
      assert a + b == b;
    }
  }

  /** Inserts `b` into the sorted `boxes` after every box whose key is not
      greater than its own, so that equal keys keep their arrival order. */
  function Insert(b: Box, boxes: seq<Box>, row: Box -> int): (r: seq<Box>)
    requires Sorted(boxes, row)
    ensures Sorted(r, row)
    ensures multiset(r) == multiset(boxes) + multiset{b}
    decreases |boxes|
  {
    if |boxes| == 0 then [b]
    else if !KeyLe(KeyOf(boxes[0], row), KeyOf(b, row)) then
      SortedHead(boxes, row);
      SortedCons(b, boxes, row);
      [b] + boxes
    else
      SortedCons(boxes[0], boxes[1..], row);
      assert boxes == [boxes[0]] + boxes[1..];
      var rest := Insert(b, boxes[1..], row);
      InsertAbove(b, boxes[1..], rest, KeyOf(boxes[0], row), row);
      SortedCons(boxes[0], rest, row);
      [boxes[0]] + rest
  }

  /** A key below `b` and below every box of `boxes` is below every box of
      `rest` when `rest` holds the same boxes and `b`. */
  lemma InsertAbove(b: Box, boxes: seq<Box>, rest: seq<Box>, k: SortKey, row: Box -> int)
    requires multiset(rest) == multiset(boxes) + multiset{b}
    requires AllAbove(k, boxes, row) && KeyLe(k, KeyOf(b, row))
    ensures AllAbove(k, rest, row)
  {
    forall x | x in rest
      ensures KeyLe(k, KeyOf(x, row))
    {
      assert x in multiset(rest);
      if x != b {
        assert x in multiset(boxes);
      }
    }
  }

  /** The reading-order sort: a stable insertion sort by `KeyOf`. Python's
      `list.sort` with a key is stable, and so is this. */
  function SortBoxes(boxes: seq<Box>, row: Box -> int): (r: seq<Box>)
    ensures Sorted(r, row)
    ensures multiset(r) == multiset(boxes)
    ensures |r| == |boxes|
  {
    if |boxes| == 0 then []
    else
      var init := boxes[..|boxes| - 1];
      assert boxes == init + [boxes[|boxes| - 1]];
      var r := Insert(boxes[|boxes| - 1], SortBoxes(init, row), row);
      assert |r| == |multiset(r)|;
      r
  }

  /** Inserting `b` appends it to the boxes of its own key and leaves the
      other keys alone. */
  lemma {:induction false} InsertWithKey(b: Box, boxes: seq<Box>, row: Box -> int, k: SortKey)
    requires Sorted(boxes, row)
    ensures WithKey(Insert(b, boxes, row), row, k)
         == WithKey(boxes, row, k) + (if KeyOf(b, row) == k then [b] else [])
    decreases |boxes|
  {
    if |boxes| == 0 {
    } else if !KeyLe(KeyOf(boxes[0], row), KeyOf(b, row)) {
      InsertInFront(b, boxes, row, k);
    } else {
      SortedCons(boxes[0], boxes[1..], row);
      assert boxes == [boxes[0]] + boxes[1..];
      InsertWithKey(b, boxes[1..], row, k);
      InsertBehind(b, boxes, row, k);
    }
  }

  /** `b` keyed below the head of a sorted sequence goes in front, and no
      box of the sequence shares its key. */
  lemma InsertInFront(b: Box, boxes: seq<Box>, row: Box -> int, k: SortKey)
    requires Sorted(boxes, row) && |boxes| > 0
    requires !KeyLe(KeyOf(boxes[0], row), KeyOf(b, row))
    ensures WithKey(Insert(b, boxes, row), row, k)
         == WithKey(boxes, row, k) + (if KeyOf(b, row) == k then [b] else [])
  {
    assert Insert(b, boxes, row) == [b] + boxes;
    WithKeyConcat([b], boxes, row, k);
    if KeyOf(b, row) == k {
      SortedHead(boxes, row);
      WithKeyNone(boxes, row, k);
    }
  }

  /** The step of `InsertWithKey` for a head keyed at or below `b`. */
  lemma InsertBehind(b: Box, boxes: seq<Box>, row: Box -> int, k: SortKey)
    requires Sorted(boxes, row) && |boxes| > 0 && Sorted(boxes[1..], row)
    requires KeyLe(KeyOf(boxes[0], row), KeyOf(b, row))
    requires WithKey(Insert(b, boxes[1..], row), row, k)
          == WithKey(boxes[1..], row, k) + (if KeyOf(b, row) == k then [b] else [])
    ensures WithKey(Insert(b, boxes, row), row, k)
         == WithKey(boxes, row, k) + (if KeyOf(b, row) == k then [b] else [])
  {
    var rest := Insert(b, boxes[1..], row);
    var r := Insert(b, boxes, row);
    var head := if KeyOf(boxes[0], row) == k then [boxes[0]] else [];
    assert r == [boxes[0]] + rest;
    assert r[0] == boxes[0] && r[1..] == rest;
    assert WithKey(r, row, k) == head + WithKey(rest, row, k);
    assert WithKey(boxes, row, k) == head + WithKey(boxes[1..], row, k);
  }

  /** Stability: for every key, the boxes with that key appear in the sorted
      output in exactly their input order. */
  lemma {:induction false} SortBoxesStable(boxes: seq<Box>, row: Box -> int, k: SortKey)
    ensures WithKey(SortBoxes(boxes, row), row, k) == WithKey(boxes, row, k)
    decreases |boxes|
  {
    if |boxes| > 0 {
      var init := boxes[..|boxes| - 1];
      var last := boxes[|boxes| - 1];
      assert boxes == init + [last];
      assert SortBoxes(boxes, row) == Insert(last, SortBoxes(init, row), row);
      SortBoxesStable(init, row, k);
      InsertWithKey(last, SortBoxes(init, row), row, k);
      WithKeyConcat(init, [last], row, k);
    }
  }

  /** A non-empty sequence selects something under the key of its head. */
  lemma HeadHasKey(boxes: seq<Box>, row: Box -> int)
    ensures |boxes| > 0 ==> WithKey(boxes, row, KeyOf(boxes[0], row)) != []
  {
  }

  /** Two sorted sequences that agree, key by key, on the order of the boxes
      carrying that key are equal. */
  lemma {:induction false} SortedStableUnique(t: seq<Box>, u: seq<Box>, row: Box -> int)
    requires Sorted(t, row) && Sorted(u, row)
    requires forall k :: WithKey(t, row, k) == WithKey(u, row, k)
    ensures t == u
    decreases |t|
  {
    if |t| == 0 || |u| == 0 {
      HeadHasKey(t, row);
      HeadHasKey(u, row);
    } else {
      var kt, ku := KeyOf(t[0], row), KeyOf(u[0], row);
      assert kt == ku by {
        WithKeyMembers(t, row, kt, t[0]);
        assert WithKey(t, row, kt) == WithKey(u, row, kt);
        WithKeyMembers(u, row, kt, t[0]);
        SortedHead(u, row);
        WithKeyMembers(u, row, ku, u[0]);
        assert WithKey(t, row, ku) == WithKey(u, row, ku);
        WithKeyMembers(t, row, ku, u[0]);
        SortedHead(t, row);
      }
      forall k
        ensures WithKey(t[1..], row, k) == WithKey(u[1..], row, k)
        ensures k == kt ==> t[0] == u[0]
      {
        var wt, wu := WithKey(t, row, k), WithKey(u, row, k);
        assert wt == wu;
        if k == kt {
          assert wt == [t[0]] + WithKey(t[1..], row, k);
          assert wu == [u[0]] + WithKey(u[1..], row, k);
          assert wt[0] == t[0] && wt[1..] == WithKey(t[1..], row, k);
          assert wu[0] == u[0] && wu[1..] == WithKey(u[1..], row, k);
        } else {
          assert wt == WithKey(t[1..], row, k);
          assert wu == WithKey(u[1..], row, k);
        }
      }
      assert t[0] == u[0];
      SortedCons(t[0], t[1..], row);
      SortedCons(u[0], u[1..], row);
      assert t == [t[0]] + t[1..] && u == [u[0]] + u[1..];
      SortedStableUnique(t[1..], u[1..], row);
    }
  }

  /** `t` lists, for every key, the boxes carrying that key in the same order
      as `boxes` does. */
  ghost predicate KeepsKeyOrder(t: seq<Box>, boxes: seq<Box>, row: Box -> int) {
    forall k :: WithKey(t, row, k) == WithKey(boxes, row, k)
  }

  /** Any sorted arrangement that keeps the input order within every key is
      the output of `SortBoxes`. */
  lemma SortBoxesUnique(boxes: seq<Box>, t: seq<Box>, row: Box -> int)
    requires Sorted(t, row) && KeepsKeyOrder(t, boxes, row)
    ensures t == SortBoxes(boxes, row)
  {
    var s := SortBoxes(boxes, row);
    forall k
      ensures WithKey(t, row, k) == WithKey(s, row, k)
    {
      SortBoxesStable(boxes, row, k);
      assert WithKey(t, row, k) == WithKey(boxes, row, k);
    }
    SortedStableUnique(t, s, row);
  }

  /** `SortBoxes` is characterised independently of its algorithm: `t` is the
      sorted output exactly when it is sorted by key and keeps, for every key,
      the input order of the boxes carrying that key. */
  lemma SortBoxesCharacterised(boxes: seq<Box>, t: seq<Box>, row: Box -> int)
    ensures t == SortBoxes(boxes, row) <==> Sorted(t, row) && KeepsKeyOrder(t, boxes, row)
  {
    if t == SortBoxes(boxes, row) {
      forall k
        ensures WithKey(t, row, k) == WithKey(boxes, row, k)
      {
        SortBoxesStable(boxes, row, k);
      }
    }
    if Sorted(t, row) && KeepsKeyOrder(t, boxes, row) {
      SortBoxesUnique(boxes, t, row);
    }
  }
}
