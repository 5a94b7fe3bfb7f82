// WindowContainer (include/exostra.h): the ordered children of a window, or
// the manager's registry of top-level windows, with unique ids and z-order
// ordinals. The class mutates its sequence in place as the source mutates
// its deque; the functions below are its specification, and they are also
// used directly on the value-level children of a Window.
module Container {
  import opened Messages
  import opened Windows

  /** The index of the first child with this id, or -1. */
  function Find(ks: seq<Window>, id: WindowID): (i: int)
    ensures -1 <= i < |ks|
    ensures i >= 0 ==> ks[i].id == id && forall j :: 0 <= j < i ==> ks[j].id != id
    ensures i < 0 <==> forall j :: 0 <= j < |ks| ==> ks[j].id != id
  {
    if |ks| == 0 then -1
    else if ks[|ks| - 1].id != id || Find(ks[..|ks| - 1], id) >= 0 then
      Find(ks[..|ks| - 1], id)
    else |ks| - 1
  }

  /** No two children share an id. */
  predicate UniqueIds(ks: seq<Window>) {
    forall i, j :: 0 <= i < j < |ks| ==> ks[i].id != ks[j].id
  }

  /** z-order ordinals run 0, 1, 2, ... in sequence order (as uint8). */
  predicate DenseZOrder(ks: seq<Window>) {
    forall i :: 0 <= i < |ks| ==> ks[i].zOrder == i % 0x100
  }

  /** addChild's ordinal for a new child: the last child's plus one (uint8
      arithmetic), or 0 for the first child. */
  function NextZOrder(ks: seq<Window>): ZOrder {
    if |ks| == 0 then 0 else (ks[|ks| - 1].zOrder + 1) % 0x100
  }

  /** The children with each ordinal set to its position: recalculateZOrder. */
  function Renumbered(ks: seq<Window>): (r: seq<Window>)
    ensures |r| == |ks|
  {
    seq(|ks|, i requires 0 <= i < |ks| => ks[i].(zOrder := i % 0x100))
  }

  /** Without the child at index i. */
  function Without(ks: seq<Window>, i: nat): seq<Window>
    requires i < |ks|
  {
    ks[..i] + ks[i + 1..]
  }

  /** Renumbering makes the ordinals dense and changes nothing else: the
      children keep their ids, contents and relative order. */
  lemma RenumberedDense(ks: seq<Window>)
    ensures DenseZOrder(Renumbered(ks))
    ensures forall i :: 0 <= i < |ks| ==> Renumbered(ks)[i].(zOrder := ks[i].zOrder) == ks[i]
  {
  }

  /** Appending with NextZOrder keeps dense ordinals dense. */
  lemma {:induction false} AppendKeepsDense(ks: seq<Window>, c: Window)
    requires DenseZOrder(ks)
    ensures DenseZOrder(ks + [c.(zOrder := NextZOrder(ks))])
  {
    var n := |ks|;
    if n > 0 {
      assert ks[n - 1].zOrder == (n - 1) % 0x100;
      assert NextZOrder(ks) == n % 0x100;
    }
    var r := ks + [c.(zOrder := NextZOrder(ks))];
    assert forall i :: 0 <= i < n ==> r[i] == ks[i];
  }

  /** Find looks only at the ids. */
  lemma FindByIds(a: seq<Window>, b: seq<Window>, id: WindowID)
    requires |a| == |b| && forall i :: 0 <= i < |a| ==> a[i].id == b[i].id
    ensures Find(a, id) == Find(b, id)
    decreases |a|
  {
    if |a| > 0 {
      FindByIds(a[..|a| - 1], b[..|b| - 1], id);
    }
  }

  /** The container's operations keep the ids unique. */
  lemma AppendKeepsUnique(ks: seq<Window>, c: Window, z: ZOrder)
    requires UniqueIds(ks) && Find(ks, c.id) < 0
    ensures UniqueIds(ks + [c.(zOrder := z)])
  {
  }

  lemma WithoutKeepsUnique(ks: seq<Window>, i: nat)
    requires UniqueIds(ks) && i < |ks|
    ensures UniqueIds(Without(ks, i)) && UniqueIds(Renumbered(Without(ks, i)))
  {
    var r := Without(ks, i);
    assert forall a :: 0 <= a < |r| ==> r[a] == (if a < i then ks[a] else ks[a + 1]);
  }

  lemma ForegroundKeepsUnique(ks: seq<Window>, i: nat, win: Window)
    requires UniqueIds(ks) && i < |ks| && ks[i].id == win.id
    ensures UniqueIds(Renumbered(Without(ks, i) + [win]))
  {
    var r := Without(ks, i);
    assert forall a :: 0 <= a < |r| ==> r[a] == (if a < i then ks[a] else ks[a + 1]);
    var s := r + [win];
    assert forall a :: 0 <= a < |r| ==> s[a] == r[a];
  }

  class WindowContainer {
    var children: seq<Window>

    constructor ()
      ensures children == []
    {
      children := [];
    }

    /** The loop of getChildByID: the index of the first child with `id`. */
    method IndexOf(id: WindowID) returns (i: int)
      ensures i == Find(children, id)
    {
      var k := 0;
      while k < |children|
        invariant 0 <= k <= |children|
        invariant forall j :: 0 <= j < k ==> children[j].id != id
      {
        if children[k].id == id {
          return k;
        }
        k := k + 1;
      }
      return -1;
    }

    /** getChildByID: the first child with `id`, if any. */
    method GetChildByID(id: WindowID) returns (r: Option<Window>)
      ensures r.Some? <==> exists j :: 0 <= j < |children| && children[j].id == id
      ensures r.Some? ==> r.value == children[Find(children, id)] && r.value.id == id
    {
      var i := IndexOf(id);
      if i >= 0 {
        return Some(children[i]);
      }
      return None;
    }

    /** addChild: refused, with no change, when a child already has the id;
        otherwise the child is appended with the next z-order ordinal. */
    method AddChild(child: Window) returns (ok: bool)
      modifies this
      ensures ok <==> Find(old(children), child.id) < 0
      ensures ok ==> children == old(children) + [child.(zOrder := NextZOrder(old(children)))]
      ensures !ok ==> children == old(children)
    {
      var i := IndexOf(child.id);
      if i >= 0 {
        return false;
      }
      var zOrder := 0;
      if |children| > 0 {
        zOrder := (children[|children| - 1].zOrder + 1) % 0x100;
      }
      children := children + [child.(zOrder := zOrder)];
      return true;
    }

    /** recalculateZOrder: ordinals 0, 1, 2, ... in order, wrapping as uint8. */
    method RecalculateZOrder()
      modifies this
      ensures children == Renumbered(old(children))
    {
      ghost var before := children;
      var i := 0;
      while i < |children|
        invariant 0 <= i <= |children| == |before|
        invariant forall j :: 0 <= j < i ==> children[j] == before[j].(zOrder := j % 0x100)
        invariant forall j :: i <= j < |children| ==> children[j] == before[j]
      {
        children := children[i := children[i].(zOrder := i % 0x100)];
        i := i + 1;
      }
    }

    /** removeChildByID: only the first child with the id is removed, and the
        ordinals are recalculated; false, with no change, when it is absent. */
    method RemoveChildByID(id: WindowID) returns (ok: bool)
      modifies this
      ensures ok <==> Find(old(children), id) >= 0
      ensures ok ==> children == Renumbered(Without(old(children), Find(old(children), id)))
      ensures !ok ==> children == old(children)
    {
      var i := IndexOf(id);
      if i < 0 {
        return false;
      }
      children := children[..i] + children[i + 1..];
      RecalculateZOrder();
      return true;
    }

    /** setForegroundWindow: a top-level window with no parent that is in the
        container moves to the end (replacing the entry with its id) and the
        ordinals are recalculated; otherwise false, with no change. */
    method SetForegroundWindow(win: Window, hasParent: bool) returns (ok: bool)
      modifies this
      ensures ok <==> !hasParent && BitsHigh(win.style, STY_TOPLEVEL) && Find(old(children), win.id) >= 0
      ensures ok ==> children == Renumbered(Without(old(children), Find(old(children), win.id)) + [win])
      ensures !ok ==> children == old(children)
    {
      if hasParent || !BitsHigh(win.style, STY_TOPLEVEL) {
        return false;
      }
      var i := IndexOf(win.id);
      if i < 0 {
        return false;
      }
      children := children[..i] + children[i + 1..] + [win];
      RecalculateZOrder();
      return true;
    }

    /** removeAllChildren. */
    method RemoveAllChildren()
      modifies this
      ensures children == []
    {
      children := [];
    }
  }
}
