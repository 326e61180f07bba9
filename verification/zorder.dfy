/**
 * The stacking order of top-level windows as a sequence of handles, topmost
 * first, and the two edits the window manager applies to it: taking a window
 * out, and putting it back directly below another.
 */
module ZOrder {

  /** A window handle (HWND); 0 is NULL. */
  type Handle = nat

  const NullHandle: Handle := 0

  predicate Distinct(z: seq<Handle>) {
    forall i, j :: 0 <= i < j < |z| ==> z[i] != z[j]
  }

  /** Position of `h` in the stacking order (0 is topmost). */
  function IndexOf(z: seq<Handle>, h: Handle): (i: nat)
    requires h in z
    ensures i < |z| && z[i] == h && h !in z[..i]
  {
    if z[0] == h then 0 else 1 + IndexOf(z[1..], h)
  }

  lemma IndexOfDistinct(z: seq<Handle>, k: nat)
    requires Distinct(z) && k < |z|
    ensures IndexOf(z, z[k]) == k
  {
  }

  /** `z` with every occurrence of `h` taken out, the others keeping their order. */
  function Remove(z: seq<Handle>, h: Handle): (r: seq<Handle>)
    ensures |r| <= |z|
    ensures forall x :: x in r <==> x in z && x != h
    decreases |z|
  {
    if z == [] then [] else (if z[0] == h then [] else [z[0]]) + Remove(z[1..], h)
  }

  lemma {:induction false} RemoveAbsent(z: seq<Handle>, h: Handle)
    requires h !in z
    ensures Remove(z, h) == z
    decreases |z|
  {
    if z != [] {
      RemoveAbsent(z[1..], h);
      assert [z[0]] + z[1..] == z;
    }
  }

  lemma {:induction false} RemoveConcat(a: seq<Handle>, b: seq<Handle>, h: Handle)
    ensures Remove(a + b, h) == Remove(a, h) + Remove(b, h)
    decreases |a|
  {
    if a != [] {
      assert (a + b)[1..] == a[1..] + b;
      RemoveConcat(a[1..], b, h);
    } else {
      assert a + b == b;
    }
  }

  lemma {:induction false} RemoveKeepsDistinct(z: seq<Handle>, h: Handle)
    requires Distinct(z)
    ensures Distinct(Remove(z, h))
    decreases |z|
  {
    if z != [] {
      assert Distinct(z[1..]);
      RemoveKeepsDistinct(z[1..], h);
      assert z[0] !in z[1..];
    }
  }

  lemma RemoveTwice(z: seq<Handle>, h: Handle)
    ensures Remove(Remove(z, h), h) == Remove(z, h)
  {
    RemoveAbsent(Remove(z, h), h);
  }

  /** Moving the topmost window to the top changes nothing. */
  lemma RaiseTopmost(z: seq<Handle>)
    requires Distinct(z) && |z| > 0
    ensures [z[0]] + Remove(z, z[0]) == z
  {
    assert z[0] !in z[1..];
    RemoveAbsent(z[1..], z[0]);
  }

  /** `z` with `h` placed directly below `after`. */
  function InsertAfter(z: seq<Handle>, after: Handle, h: Handle): (r: seq<Handle>)
    requires after in z
    ensures |r| == |z| + 1
    ensures r[IndexOf(z, after)] == after && r[IndexOf(z, after) + 1] == h
    ensures forall x :: x in r <==> x in z || x == h
  {
    var i := IndexOf(z, after);
    var r := z[..i + 1] + [h] + z[i + 1..];
    assert forall x :: x in r <==> x in z[..i + 1] || x == h || x in z[i + 1..];
    assert z == z[..i + 1] + z[i + 1..];
    r
  }

  /** Inserting below the window at a known position, spelled out. */
  lemma InsertAfterAt(z: seq<Handle>, k: nat, h: Handle)
    requires Distinct(z) && k < |z|
    ensures InsertAfter(z, z[k], h) == z[..k + 1] + [h] + z[k + 1..]
  {
    IndexOfDistinct(z, k);
  }

  /** Taking the inserted window back out restores the order it was inserted into. */
  lemma RemoveInserted(z: seq<Handle>, after: Handle, h: Handle)
    requires after in z && h !in z
    ensures Remove(InsertAfter(z, after, h), h) == z
  {
    var i := IndexOf(z, after);
    var front, back := z[..i + 1], z[i + 1..];
    assert h !in front && h !in back by {
      assert z == front + back;
    }
    assert InsertAfter(z, after, h) == (front + [h]) + back;
    assert Remove(front + [h], h) == front by {
      RemoveConcat(front, [h], h);
      RemoveAbsent(front, h);
      assert Remove([h], h) == [];
    }
    assert Remove((front + [h]) + back, h) == front + back by {
      RemoveConcat(front + [h], back, h);
      RemoveAbsent(back, h);
    }
    assert front + back == z;
  }

  /** In a distinct order, removing the window at position `i` closes the gap it leaves. */
  lemma RemoveAt(z: seq<Handle>, i: nat)
    requires Distinct(z) && i < |z|
    ensures Remove(z, z[i]) == z[..i] + z[i + 1..]
  {
    var h := z[i];
    var front, back := z[..i], z[i + 1..];
    assert z == (front + [h]) + back;
    assert h !in front && h !in back;
    assert Remove(front + [h], h) == front by {
      RemoveConcat(front, [h], h);
      RemoveAbsent(front, h);
      assert Remove([h], h) == [];
    }
    assert Remove((front + [h]) + back, h) == front + back by {
      RemoveConcat(front + [h], back, h);
      RemoveAbsent(back, h);
    }
  }

  /** Closing the gap at `i` and reopening it for the same element gives back `z`. */
  lemma SpliceBack(z: seq<Handle>, i: nat)
    requires i < |z|
    ensures var rest := z[..i] + z[i + 1..];
      rest[..i] + [z[i]] + rest[i..] == z
  {
    var rest := z[..i] + z[i + 1..];
    assert rest[..i] == z[..i] && rest[i..] == z[i + 1..];
  }

  /** Taking a window out and putting it back under its upper neighbour gives the same order. */
  lemma ReinsertUnderNeighbour(z: seq<Handle>, i: nat)
    requires Distinct(z) && 0 < i < |z|
    ensures z[i - 1] in Remove(z, z[i])
    ensures InsertAfter(Remove(z, z[i]), z[i - 1], z[i]) == z
  {
    var h := z[i];
    var rest := z[..i] + z[i + 1..];
    RemoveAt(z, i);
    RemoveKeepsDistinct(z, h);
    assert rest[i - 1] == z[i - 1];
    InsertAfterAt(rest, i - 1, h);
    SpliceBack(z, i);
  }

  lemma InsertKeepsDistinct(z: seq<Handle>, after: Handle, h: Handle)
    requires Distinct(z) && after in z && h !in z
    ensures Distinct(InsertAfter(z, after, h))
  {
    var i := IndexOf(z, after);
    var r := InsertAfter(z, after, h);
    assert r == z[..i + 1] + [h] + z[i + 1..];
    forall p, q | 0 <= p < q < |r|
      ensures r[p] != r[q]
    {
      if p < i + 1 && q > i + 1 {
        assert r[p] == z[p] && r[q] == z[q - 1];
      } else if p > i + 1 {
        assert r[p] == z[p - 1] && r[q] == z[q - 1];
      } else if q < i + 1 {
        assert r[p] == z[p] && r[q] == z[q];
      } else if p == i + 1 {
        assert r[q] == z[q - 1];
      } else {
        assert r[p] == z[p];
      }
    }
  }
}
