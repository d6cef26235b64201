/** The window order of focus_window in kernel_main.cpp and kernel.cpp: most recently used last. */
module WindowOrder {
  const COUNT := 13

  /** The index of the last occurrence of id, or -1. */
  function Find(z: seq<int>, id: int): (at: int)
    ensures -1 <= at < |z|
    ensures at >= 0 ==> z[at] == id
    ensures forall k :: at < k < |z| ==> z[k] != id
  {
    if z == [] then -1 else if z[|z| - 1] == id then |z| - 1 else Find(z[..|z| - 1], id)
  }

  /** focus_window on values: the window leaves its place and goes to the end. */
  function Focus(z: seq<int>, id: int): (r: seq<int>)
    ensures |r| == |z|
  {
    var at := Find(z, id);
    if at == -1 then z else z[..at] + z[at + 1..] + [id]
  }

  function Run(z: seq<int>, ids: seq<int>): (r: seq<int>)
    ensures |r| == |z|
  {
    if ids == [] then z else Focus(Run(z, ids[..|ids| - 1]), ids[|ids| - 1])
  }

  function Initial(): (z: seq<int>)
    ensures |z| == COUNT
  {
    seq(COUNT, i => i)
  }

  /** When a window was last focused; those never focused come in their first order before all others. */
  function LastFocus(ids: seq<int>, id: int): (t: int)
    requires 0 <= id < COUNT
    ensures t < |ids|
  {
    if ids == [] then id - COUNT
    else if ids[|ids| - 1] == id then |ids| - 1
    else LastFocus(ids[..|ids| - 1], id)
  }

  /** Every window once, in the order of last focus. */
  predicate Inv(z: seq<int>, ids: seq<int>) {
    && |z| == COUNT
    && (forall i :: 0 <= i < COUNT ==> 0 <= z[i] < COUNT)
    && (forall i, j :: 0 <= i < j < COUNT ==> LastFocus(ids, z[i]) < LastFocus(ids, z[j]))
    && (forall id :: 0 <= id < COUNT ==> id in z)
  }

  lemma InitialIsInv()
    ensures Inv(Initial(), [])
  {
    forall id | 0 <= id < COUNT ensures id in Initial() {
      assert Initial()[id] == id;
    }
  }

  lemma LastFocusSnoc(ids: seq<int>, next: int, id: int)
    requires 0 <= id < COUNT
    ensures LastFocus(ids + [next], id) == if next == id then |ids| else LastFocus(ids, id)
  {
  }

  /** Where a window of the new order was before. */
  function Source(at: int, i: int): int { if i < at then i else i + 1 }

  lemma FocusMoves(z: seq<int>, id: int)
    requires Find(z, id) >= 0
    ensures Focus(z, id)[|z| - 1] == id
    ensures forall i :: 0 <= i < |z| - 1 ==> Focus(z, id)[i] == z[Source(Find(z, id), i)]
  {
    hide Find;
  }

  lemma IdIsOnce(z: seq<int>, ids: seq<int>, id: int, i: int)
    requires Inv(z, ids) && Find(z, id) >= 0 && 0 <= i < COUNT && i != Find(z, id)
    ensures z[i] != id
  {
  }

  lemma {:induction false} FocusOrders(z: seq<int>, ids: seq<int>, id: int, i: int, j: int)
    requires Inv(z, ids) && Find(z, id) >= 0 && 0 <= i < j < COUNT
    ensures 0 <= Focus(z, id)[i] < COUNT && 0 <= Focus(z, id)[j] < COUNT
    ensures LastFocus(ids + [id], Focus(z, id)[i]) < LastFocus(ids + [id], Focus(z, id)[j])
  {
    hide LastFocus, Focus;
    var at := Find(z, id);
    FocusMoves(z, id);
    var i' := Source(at, i);
    IdIsOnce(z, ids, id, i');
    LastFocusSnoc(ids, id, z[i']);
    if j < COUNT - 1 {
      var j' := Source(at, j);
      IdIsOnce(z, ids, id, j');
      LastFocusSnoc(ids, id, z[j']);
      assert LastFocus(ids, z[i']) < LastFocus(ids, z[j']);
    } else {
      LastFocusSnoc(ids, id, id);
    }
  }

  lemma FocusHolds(z: seq<int>, id: int, a: int)
    requires Find(z, id) >= 0 && a in z
    ensures a in Focus(z, id)
  {
  }

  lemma {:induction false} FocusKeeps(z: seq<int>, ids: seq<int>, id: int)
    requires Inv(z, ids)
    ensures Inv(Focus(z, id), ids + [id])
  {
    hide LastFocus, Focus;
    if Find(z, id) == -1 {
      FocusMisses(z, ids, id);
    } else {
      var r := Focus(z, id);
      forall i, j | 0 <= i < j < COUNT
        ensures 0 <= r[i] < COUNT && 0 <= r[j] < COUNT && LastFocus(ids + [id], r[i]) < LastFocus(ids + [id], r[j])
      {
        FocusOrders(z, ids, id, i, j);
      }
      forall i | 0 <= i < COUNT ensures 0 <= r[i] < COUNT {
        if i > 0 {
          FocusOrders(z, ids, id, 0, i);
        } else {
          FocusOrders(z, ids, id, 0, 1);
        }
      }
      forall a | 0 <= a < COUNT ensures a in r {
        FocusHolds(z, id, a);
      }
    }
  }

  /** A window that does not exist changes nothing. */
  lemma FocusMisses(z: seq<int>, ids: seq<int>, id: int)
    requires Inv(z, ids) && Find(z, id) == -1
    ensures Focus(z, id) == z && Inv(z, ids + [id])
  {
  }

  /** After any run of focus calls, of unknown windows too, the order is a permutation of the thirteen
      windows sorted by last focus. */
  lemma {:induction false} RunKeeps(ids: seq<int>)
    ensures Inv(Run(Initial(), ids), ids)
  {
    if ids == [] {
      InitialIsInv();
    } else {
      var n := |ids| - 1;
      RunKeeps(ids[..n]);
      FocusKeeps(Run(Initial(), ids[..n]), ids[..n], ids[n]);
      assert ids[..n] + [ids[n]] == ids;
    }
  }

  lemma PlaceOf(z: seq<int>, ids: seq<int>, id: int) returns (i: int)
    requires Inv(z, ids) && 0 <= id < COUNT
    ensures 0 <= i < COUNT && z[i] == id
  {
    assert id in z;
    i :| 0 <= i < |z| && z[i] == id;
  }

  /** That determines the order: there is only one. */
  lemma {:induction false} OrderIsUnique(z: seq<int>, y: seq<int>, ids: seq<int>, k: int)
    requires Inv(z, ids) && Inv(y, ids) && 0 <= k <= COUNT
    ensures z[..k] == y[..k]
  {
    if k > 0 {
      OrderIsUnique(z, y, ids, k - 1);
      var n := k - 1;
      var i := PlaceOf(y, ids, z[n]);
      var j := PlaceOf(z, ids, y[n]);
      assert forall m :: 0 <= m < n ==> z[m] == z[..n][m] == y[..n][m] == y[m];
      assert n <= i && n <= j;
      assert z[..k] == z[..n] + [z[n]] && y[..k] == y[..n] + [y[n]];
    }
  }

  class Desktop {
    const winZ: array<int>

    constructor ()
      ensures winZ[..] == Initial() == [0, 1, 2, 3, 4, 5, 6, 7, 8, 9, 10, 11, 12] && fresh(winZ)
    {
      winZ := new int[COUNT](i => i);
      new;
      assert winZ[..] == Initial();
    }

    /** focus_window. */
    method FocusWindow(id: int)
      requires winZ.Length == COUNT
      modifies winZ
      ensures winZ[..] == Focus(old(winZ[..]), id)
    {
      hide Find;
      var foundAt := FindWindow(id);
      if foundAt == -1 {
        return;
      }
      CloseGap(foundAt);
      winZ[COUNT - 1] := id;
      assert winZ[..] == winZ[..COUNT - 1] + [id];
    }

    /** The last place that holds id, or -1. */
    method FindWindow(id: int) returns (foundAt: int)
      requires winZ.Length == COUNT
      ensures foundAt == Find(winZ[..], id)
    {
      foundAt := -1;
      for i := 0 to COUNT
        invariant foundAt == Find(winZ[..i], id)
      {
        assert winZ[..i + 1][..i] == winZ[..i];
        if winZ[i] == id {
          foundAt := i;
        }
      }
      assert winZ[..COUNT] == winZ[..];
    }

    /** The windows above a place move down by one. */
    method CloseGap(at: int)
      requires winZ.Length == COUNT && 0 <= at < COUNT
      modifies winZ
      ensures winZ[..COUNT - 1] == old(winZ[..at] + winZ[at + 1..])
    {
      for i := at to COUNT - 1
        invariant forall k :: 0 <= k < i ==> winZ[k] == old(winZ[Source(at, k)])
        invariant forall k :: i <= k < COUNT ==> winZ[k] == old(winZ[k])
      {
        winZ[i] := winZ[i + 1];
      }
    }
  }
}
