// twm's WindowContainer (include/twm.h): the ordered children of a window,
// or the manager's registry of top-level windows, with unique ids and no
// z-order. The class mutates its sequence as the source mutates its deque;
// the functions below are its specification and are also used on the
// value-level children of a TWindow.
module TwmContainer {
  import opened Messages
  import opened TwmWindows

  /** The index of the first child with this id, or -1. */
  function TFind(ks: seq<TWindow>, id: WindowID): (i: int)
    ensures -1 <= i < |ks|
    ensures i >= 0 ==> ks[i].id == id && forall j :: 0 <= j < i ==> ks[j].id != id
    ensures i < 0 <==> forall j :: 0 <= j < |ks| ==> ks[j].id != id
  {
    if |ks| == 0 then -1
    else if ks[0].id == id then 0
    else
      var r := TFind(ks[1..], id);
      assert forall j :: 1 <= j < |ks| ==> ks[j] == ks[1..][j - 1];
      if r < 0 then -1 else r + 1
  }

  /** No two children share an id. */
  predicate TUniqueIds(ks: seq<TWindow>) {
    forall i, j :: 0 <= i < j < |ks| ==> ks[i].id != ks[j].id
  }

  /** Without the child at index i. */
  function TWithout(ks: seq<TWindow>, i: nat): (r: seq<TWindow>)
    requires i < |ks|
    ensures |r| == |ks| - 1
    ensures forall a :: 0 <= a < |r| ==> r[a] == (if a < i then ks[a] else ks[a + 1])
  {
    ks[..i] + ks[i + 1..]
  }

  /** addChild keeps the ids unique. */
  lemma TAppendKeepsUnique(ks: seq<TWindow>, c: TWindow)
    requires TUniqueIds(ks) && TFind(ks, c.id) < 0
    ensures TUniqueIds(ks + [c])
  {
  }

  /** With unique ids, removeChildByID removes the id altogether and keeps
      the rest unique. */
  lemma TRemoveLeavesNone(ks: seq<TWindow>, id: WindowID)
    requires TUniqueIds(ks) && TFind(ks, id) >= 0
    ensures TUniqueIds(TWithout(ks, TFind(ks, id)))
    ensures TFind(TWithout(ks, TFind(ks, id)), id) < 0
  {
  }

  class TwmWindowContainer {
    var children: seq<TWindow>

    constructor ()
      ensures children == []
    {
      children := [];
    }

    /** The loop of getChildByID: the index of the first child with `id`. */
    method IndexOf(id: WindowID) returns (i: int)
      ensures i == TFind(children, id)
    {
      var k := 0;
      while k < |children|
        invariant 0 <= k <= |children|
        invariant forall j :: 0 <= j < k ==> children[j].id != id
      {
        if children[k].id == id {
          return k;
        }
        k := k + 1;
      }
      return -1;
    }

    /** getChildByID: the first child with `id`, if any. */
    method GetChildByID(id: WindowID) returns (r: Option<TWindow>)
      ensures r.Some? <==> exists j :: 0 <= j < |children| && children[j].id == id
      ensures r.Some? ==> r.value == children[TFind(children, id)] && r.value.id == id
    {
      var i := IndexOf(id);
      if i >= 0 {
        return Some(children[i]);
      }
      return None;
    }

    /** addChild: refused, with no change, when a child already has the id;
        otherwise the child is appended at the end. */
    method AddChild(child: TWindow) returns (ok: bool)
      modifies this
      ensures ok <==> TFind(old(children), child.id) < 0
      ensures children == if ok then old(children) + [child] else old(children)
    {
      var i := IndexOf(child.id);
      if i >= 0 {
        return false;
      }
      children := children + [child];
      return true;
    }

    /** removeChildByID: only the first child with the id is removed; false,
        with no change, when it is absent. */
    method RemoveChildByID(id: WindowID) returns (ok: bool)
      modifies this
      ensures ok <==> TFind(old(children), id) >= 0
      ensures children == if ok then TWithout(old(children), TFind(old(children), id)) else old(children)
    {
      var i := IndexOf(id);
      if i < 0 {
        return false;
      }
      children := children[..i] + children[i + 1..];
      return true;
    }

    /** removeAllChildren. */
    method RemoveAllChildren()
      modifies this
      ensures children == []
    {
      children := [];
    }
  }
}
