// Addressing windows inside a window tree (the manager's registry of
// top-level windows, each holding its children) by paths of child indices.
module WindowTree {
  import opened Geometry
  import opened Windows

  type Path = seq<nat>

  predicate ValidPath(ws: seq<Window>, p: Path)
    decreases p
  {
    |p| > 0 && p[0] < |ws| && (|p| == 1 || ValidPath(ws[p[0]].children, p[1..]))
  }

  function At(ws: seq<Window>, p: Path): Window
    requires ValidPath(ws, p)
    decreases p
  {
    if |p| == 1 then ws[p[0]] else At(ws[p[0]].children, p[1..])
  }

  /** Extending a path by one child index. */
  lemma AtExtend(ws: seq<Window>, p: Path, k: nat)
    requires ValidPath(ws, p) && k < |At(ws, p).children|
    ensures ValidPath(ws, p + [k]) && At(ws, p + [k]) == At(ws, p).children[k]
    decreases p
  {
    if |p| > 1 {
      AtExtend(ws[p[0]].children, p[1..], k);
      assert (p + [k])[1..] == p[1..] + [k];
    }
  }

  /** The drawability of the window at `p`: isDrawable evaluated from the top,
      each window's result serving as its child's parent drawability. */
  predicate DrawableAlong(ws: seq<Window>, p: Path, parentDrawable: bool, display: Rect)
    requires ValidPath(ws, p)
    decreases p
  {
    var d := IsDrawable(ws[p[0]], parentDrawable, display);
    if |p| == 1 then d else DrawableAlong(ws[p[0]].children, p[1..], d, display)
  }

  lemma PrefixValid(ws: seq<Window>, p: Path, k: nat)
    requires ValidPath(ws, p) && 1 <= k <= |p|
    ensures ValidPath(ws, p[..k])
    decreases p
  {
    if k > 1 {
      PrefixValid(ws[p[0]].children, p[1..], k - 1);
      assert p[..k][1..] == p[1..][..k - 1];
    }
  }

  /** The drawability a window at `p` sees for its parent (true at top level). */
  predicate ParentDrawable(ws: seq<Window>, p: Path, display: Rect)
    requires ValidPath(ws, p)
  {
    PrefixValid(ws, p, |p|);
    |p| == 1 || (PrefixValid(ws, p, |p| - 1); DrawableAlong(ws, p[..|p| - 1], true, display))
  }

  /** The tree with the window at `p` replaced by `w`. */
  function ReplaceAt(ws: seq<Window>, p: Path, w: Window): (r: seq<Window>)
    requires ValidPath(ws, p)
    ensures |r| == |ws|
    decreases p
  {
    if |p| == 1 then ws[p[0] := w]
    else ws[p[0] := ws[p[0]].(children := ReplaceAt(ws[p[0]].children, p[1..], w))]
  }

  /** Replacing a window leaves its proper ancestors addressable, with the same
      number of children, and only their children changed. */
  lemma ReplaceKeepsAncestors(ws: seq<Window>, p: Path, w: Window, k: nat)
    requires ValidPath(ws, p) && 1 <= k < |p|
    ensures ValidPath(ws, p[..k]) && ValidPath(ReplaceAt(ws, p, w), p[..k])
    ensures At(ReplaceAt(ws, p, w), p[..k]).(children := At(ws, p[..k]).children) == At(ws, p[..k])
    ensures |At(ReplaceAt(ws, p, w), p[..k]).children| == |At(ws, p[..k]).children|
    decreases p
  {
    PrefixValid(ws, p, k);
    if k > 1 {
      assert p[..k][1..] == p[1..][..k - 1];
      ReplaceKeepsAncestors(ws[p[0]].children, p[1..], w, k - 1);
    }
  }

  /** ...and the replaced window becomes the window at `p`. */
  lemma ReplaceAtGet(ws: seq<Window>, p: Path, w: Window)
    requires ValidPath(ws, p)
    ensures ValidPath(ReplaceAt(ws, p, w), p) && At(ReplaceAt(ws, p, w), p) == w
    decreases p
  {
    if |p| > 1 {
      ReplaceAtGet(ws[p[0]].children, p[1..], w);
    }
  }

  /** Putting back the window that is already there changes nothing. */
  lemma ReplaceAtSelf(ws: seq<Window>, p: Path)
    requires ValidPath(ws, p)
    ensures ReplaceAt(ws, p, At(ws, p)) == ws
    decreases p
  {
    if |p| > 1 {
      ReplaceAtSelf(ws[p[0]].children, p[1..]);
    }
  }

  /** A window below the top level is a child of the window at the path one
      shorter. */
  lemma AtParent(ws: seq<Window>, p: Path)
    requires ValidPath(ws, p) && |p| > 1
    ensures ValidPath(ws, p[..|p| - 1])
    ensures p[|p| - 1] < |At(ws, p[..|p| - 1]).children|
    ensures At(ws, p) == At(ws, p[..|p| - 1]).children[p[|p| - 1]]
    decreases p
  {
    PrefixValid(ws, p, |p| - 1);
    if |p| > 2 {
      AtParent(ws[p[0]].children, p[1..]);
      assert p[..|p| - 1][1..] == p[1..][..|p[1..]| - 1];
    }
  }

  /** Replacing a window leaves every other top-level window alone. */
  lemma ReplaceAtOthers(ws: seq<Window>, p: Path, w: Window, j: nat)
    requires ValidPath(ws, p) && j < |ws| && j != p[0]
    ensures ReplaceAt(ws, p, w)[j] == ws[j]
  {
  }

  /** The rects a window marked on its parent, applied to the parent (the
      window at the path one shorter than `p`); nothing for a top-level
      window, which has no parent. */
  function MarkParent(ws: seq<Window>, p: Path, rs: seq<Rect>): (r: seq<Window>)
    requires ValidPath(ws, p)
    ensures |r| == |ws|
  {
    if |p| == 1 then ws
    else
      PrefixValid(ws, p, |p| - 1);
      var q := p[..|p| - 1];
      ReplaceAt(ws, q, MarkAll(At(ws, q), rs))
  }

  /** A window replaced and its marks applied to its parent: the window at
      `p` is the new one up to its dirty rect and its children's, and every
      other top-level window is untouched. */
  lemma ReplaceMarkAt(ws: seq<Window>, p: Path, w: Window, rs: seq<Rect>)
    requires ValidPath(ws, p)
    ensures ValidPath(ReplaceAt(ws, p, w), p)
    ensures var r := MarkParent(ReplaceAt(ws, p, w), p, rs);
      ValidPath(r, p) &&
      At(r, p).(dirtyRect := w.dirtyRect, children := w.children) == w &&
      |At(r, p).children| == |w.children| &&
      forall j :: 0 <= j < |ws| && j != p[0] ==> r[j] == ws[j]
  {
    ReplaceAtGet(ws, p, w);
    var ws1 := ReplaceAt(ws, p, w);
    forall j | 0 <= j < |ws| && j != p[0]
      ensures ws1[j] == ws[j]
    {
      ReplaceAtOthers(ws, p, w, j);
    }
    if |p| > 1 {
      var q := p[..|p| - 1];
      var k := p[|p| - 1];
      AtParent(ws1, p);
      var m := MarkAll(At(ws1, q), rs);
      ReplaceAtGet(ws1, q, m);
      var ws2 := ReplaceAt(ws1, q, m);
      assert ws2 == MarkParent(ws1, p, rs);
      AtExtend(ws2, q, k);
      assert q + [k] == p;
      forall j | 0 <= j < |ws| && j != p[0]
        ensures ws2[j] == ws[j]
      {
        ReplaceAtOthers(ws1, q, m, j);
      }
    }
  }
}
