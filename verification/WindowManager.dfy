/** The desktop's window stack: numbering, raising, hit testing and painting. */
module WindowManager {

  const SCREEN_WIDTH := 800
  const SCREEN_HEIGHT := 600
  const MIN_WIDTH := 60
  const MIN_HEIGHT := 48

  datatype State = Closed | Normal | Minimized | Maximized

  datatype Window = Window(x: int, y: int, width: int, height: int, state: State, z: int)
  {
    predicate Covers(px: int, py: int) {
      x <= px < x + width && y <= py < y + height
    }
  }

  predicate Shown(ws: seq<Window>, i: int) {
    0 <= i < |ws| && ws[i].state == Normal
  }

  ghost function Open(ws: seq<Window>): set<int> {
    set i | 0 <= i < |ws| && Shown(ws, i)
  }

  ghost predicate Taken(ws: seq<Window>, height: int) {
    exists i :: Shown(ws, i) && ws[i].z == height
  }

  /** The heights of the open windows are a permutation of 1..N. */
  ghost predicate Stacked(ws: seq<Window>) {
    && (forall i, j :: Shown(ws, i) && Shown(ws, j) && i != j ==> ws[i].z != ws[j].z)
    && (forall i :: Shown(ws, i) ==> 1 <= ws[i].z <= |Open(ws)|)
    && (forall k :: 1 <= k <= |Open(ws)| ==> Taken(ws, k))
  }

  /** By height, equal heights by slot: the order a stable sort of the slots gives. */
  predicate Before(ws: seq<Window>, i: int, j: int)
    requires 0 <= i < |ws| && 0 <= j < |ws|
  {
    ws[i].z < ws[j].z || (ws[i].z == ws[j].z && i < j)
  }

  /** The open windows other than `front` that lie below window `i`. */
  ghost function Below(ws: seq<Window>, front: int, i: int): set<int>
    requires 0 <= i < |ws|
  {
    set j | 0 <= j < |ws| && Shown(ws, j) && j != front && Before(ws, j, i)
  }

  ghost function Height(ws: seq<Window>, front: int, i: int): int
    requires 0 <= i < |ws|
  {
    if i == front then |Open(ws)| else |Below(ws, front, i)| + 1
  }

  /** The renumbered windows: each open one by how many lie below it, `front` on top. */
  ghost function Restacked(ws: seq<Window>, front: int): (r: seq<Window>)
    ensures |r| == |ws|
    ensures forall i :: 0 <= i < |ws| ==> r[i] == if Shown(ws, i) then ws[i].(z := Height(ws, front, i)) else ws[i]
  {
    seq(|ws|, i requires 0 <= i < |ws| => if Shown(ws, i) then ws[i].(z := Height(ws, front, i)) else ws[i])
  }

  // ---- counting ----

  lemma SmallerSet(a: set<int>, b: set<int>)
    requires a <= b
    ensures |a| <= |b|
    ensures |a| == |b| ==> a == b
  {
    assert b == a + (b - a);
  }

  ghost function UpTo(n: nat): (s: set<int>)
    ensures |s| == n
    ensures forall k :: k in s <==> 1 <= k <= n
  {
    if n == 0 then {} else UpTo(n - 1) + {n}
  }

  lemma {:induction false} HeightsOf(ws: seq<Window>, s: set<int>, heights: set<int>)
    requires s <= Open(ws)
    requires forall i, j :: Shown(ws, i) && Shown(ws, j) && i != j ==> ws[i].z != ws[j].z
    requires heights == set i | i in s :: ws[i].z
    ensures |heights| == |s|
    decreases |s|
  {
    if s != {} {
      var i :| i in s;
      assert heights == (set j | j in s - {i} :: ws[j].z) + {ws[i].z};
      HeightsOf(ws, s - {i}, set j | j in s - {i} :: ws[j].z);
    }
  }

  /** Distinct heights within 1..N leave none of 1..N out. */
  lemma EveryHeightTaken(ws: seq<Window>)
    requires forall i, j :: Shown(ws, i) && Shown(ws, j) && i != j ==> ws[i].z != ws[j].z
    requires forall i :: Shown(ws, i) ==> 1 <= ws[i].z <= |Open(ws)|
    ensures Stacked(ws)
  {
    var heights := set i | i in Open(ws) :: ws[i].z;
    HeightsOf(ws, Open(ws), heights);
    SmallerSet(heights, UpTo(|Open(ws)|));
    forall k | 1 <= k <= |Open(ws)|
      ensures Taken(ws, k)
    {
      assert k in heights;
    }
  }

  // ---- what renumbering achieves ----

  lemma BelowGrows(ws: seq<Window>, front: int, i: int, j: int)
    requires Shown(ws, i) && Shown(ws, j) && i != front && Before(ws, i, j)
    ensures |Below(ws, front, i)| < |Below(ws, front, j)|
  {
    SmallerSet(Below(ws, front, i) + {i}, Below(ws, front, j));
  }

  lemma BelowIsFewer(ws: seq<Window>, front: int, i: int)
    requires Shown(ws, i) && i != front
    ensures |Below(ws, front, i)| + 1 <= |Open(ws)|
    ensures Shown(ws, front) ==> |Below(ws, front, i)| + 2 <= |Open(ws)|
  {
    SmallerSet(Below(ws, front, i) + {i}, Open(ws));
    if Shown(ws, front) {
      SmallerSet(Below(ws, front, i) + {i} + {front}, Open(ws));
    }
  }

  /** From any heights at all, two windows other than `front` keep their order. */
  lemma RestackKeepsOrder(ws: seq<Window>, front: int, i: int, j: int)
    requires Shown(ws, i) && Shown(ws, j) && i != front && j != front && i != j
    ensures Before(ws, i, j) <==> Restacked(ws, front)[i].z < Restacked(ws, front)[j].z
    ensures Restacked(ws, front)[i].z != Restacked(ws, front)[j].z
  {
    if Before(ws, i, j) {
      BelowGrows(ws, front, i, j);
    } else {
      BelowGrows(ws, front, j, i);
    }
  }

  /** From any heights at all, renumbering makes them a permutation of 1..N, `front` at N. */
  lemma RestackNumbersAll(ws: seq<Window>, front: int)
    ensures Stacked(Restacked(ws, front))
    ensures Shown(ws, front) ==> Restacked(ws, front)[front].z == |Open(ws)|
  {
    var r := Restacked(ws, front);
    assert Open(r) == Open(ws);
    forall i | Shown(r, i)
      ensures 1 <= r[i].z <= |Open(r)|
      ensures i != front && Shown(r, front) ==> r[i].z < r[front].z
    {
      if i != front {
        BelowIsFewer(ws, front, i);
      } else {
        SmallerSet({front}, Open(ws));
      }
    }
    forall i, j | Shown(r, i) && Shown(r, j) && i != j
      ensures r[i].z != r[j].z
    {
      if i != front && j != front {
        RestackKeepsOrder(ws, front, i, j);
      }
    }
    EveryHeightTaken(r);
  }

  /** In a numbered stack exactly k windows have height k or less. */
  lemma {:induction false} StackCount(ws: seq<Window>, k: nat, s: set<int>)
    requires Stacked(ws) && k <= |Open(ws)|
    requires s == set j | 0 <= j < |ws| && Shown(ws, j) && ws[j].z <= k
    ensures |s| == k
    decreases k
  {
    if k > 0 {
      assert Taken(ws, k);
      var top :| Shown(ws, top) && ws[top].z == k;
      StackCount(ws, k - 1, s - {top});
    } else {
      assert s == {};
    }
  }

  /** Opening a window gives it the next height and moves no other. */
  lemma OpeningAddsOnTop(ws: seq<Window>, id: int, w: Window)
    requires Stacked(ws) && 0 <= id < |ws| && !Shown(ws, id) && w.state == Normal
    ensures Restacked(ws[id := w], id) == ws[id := w.(z := |Open(ws)| + 1)]
  {
    var larger := ws[id := w];
    assert Open(larger) == Open(ws) + {id};
    forall i | 0 <= i < |ws|
      ensures Restacked(larger, id)[i] == ws[id := w.(z := |Open(ws)| + 1)][i]
    {
      if i != id && Shown(ws, i) {
        var under := set j | 0 <= j < |ws| && Shown(ws, j) && ws[j].z <= ws[i].z - 1;
        StackCount(ws, ws[i].z - 1, under);
        assert Below(larger, id, i) == under;
      }
    }
  }

  /** Without the window at height `gap` every higher one is a place lower. */
  lemma LeavingOneOut(ws: seq<Window>, out: int, i: int)
    requires Stacked(ws) && Shown(ws, out) && Shown(ws, i) && i != out
    ensures |Below(ws, out, i)| + 1 == if ws[i].z > ws[out].z then ws[i].z - 1 else ws[i].z
  {
    var all := set j | 0 <= j < |ws| && Shown(ws, j) && ws[j].z <= ws[i].z - 1;
    StackCount(ws, ws[i].z - 1, all);
    if ws[i].z > ws[out].z {
      assert Below(ws, out, i) == all - {out};
    } else {
      assert Below(ws, out, i) == all;
    }
  }

  /** Every open window above height `gap` a place lower. */
  ghost function Lowered(ws: seq<Window>, gap: int): (r: seq<Window>)
    ensures |r| == |ws|
    ensures forall i :: 0 <= i < |ws| ==> r[i] == if Shown(ws, i) && ws[i].z > gap then ws[i].(z := ws[i].z - 1) else ws[i]
  {
    seq(|ws|, i requires 0 <= i < |ws| => if Shown(ws, i) && ws[i].z > gap then ws[i].(z := ws[i].z - 1) else ws[i])
  }

  /** Raising a window lowers exactly those above it, and by one place. */
  lemma RaisingRotates(ws: seq<Window>, front: int)
    requires Stacked(ws) && Shown(ws, front)
    ensures Restacked(ws, front) == Lowered(ws, ws[front].z)[front := ws[front].(z := |Open(ws)|)]
  {
    forall i | Shown(ws, i) && i != front
      ensures Restacked(ws, front)[i] == Lowered(ws, ws[front].z)[i]
    {
      LeavingOneOut(ws, front, i);
    }
  }

  /** Renumbering a numbered stack with nothing to raise changes nothing. */
  lemma NothingToDo(ws: seq<Window>)
    requires Stacked(ws)
    ensures Restacked(ws, -1) == ws
  {
    forall i | Shown(ws, i)
      ensures Height(ws, -1, i) == ws[i].z
    {
      StackCount(ws, ws[i].z - 1, Below(ws, -1, i));
    }
  }

  /** Closing a window closes its gap and moves nothing below it. */
  lemma ClosingLowers(ws: seq<Window>, out: int)
    requires Stacked(ws) && 0 <= out < |ws|
    ensures Restacked(ws[out := ws[out].(state := Closed, z := 0)], -1)
         == (if Shown(ws, out) then Lowered(ws, ws[out].z) else ws)[out := ws[out].(state := Closed, z := 0)]
  {
    var left := ws[out := ws[out].(state := Closed, z := 0)];
    if !Shown(ws, out) {
      assert Open(left) == Open(ws);
      assert forall i :: Shown(ws, i) <==> Shown(left, i);
      assert forall k :: Taken(ws, k) ==> Taken(left, k);
      NothingToDo(left);
      return;
    }
    forall i | Shown(ws, i) && i != out
      ensures Restacked(left, -1)[i] == Lowered(ws, ws[out].z)[i]
    {
      LeavingOneOut(ws, out, i);
      assert Below(left, -1, i) == Below(ws, out, i);
    }
  }

  // ---- the sorted list of windows ----

  predicate Sorted(ws: seq<Window>, s: seq<int>) {
    && (forall a :: 0 <= a < |s| ==> 0 <= s[a] < |ws|)
    && (forall a, b :: 0 <= a < b < |s| ==> Before(ws, s[a], s[b]))
  }

  /** `s` lists the open windows other than `front`, lowest first. */
  ghost predicate BackToFront(ws: seq<Window>, front: int, s: seq<int>) {
    Sorted(ws, s) && forall i :: i in s <==> Shown(ws, i) && i != front
  }

  lemma {:induction false} PrefixSize(s: seq<int>, k: nat, members: set<int>)
    requires k <= |s|
    requires forall a, b :: 0 <= a < b < |s| ==> s[a] != s[b]
    requires forall i :: i in members <==> i in s[..k]
    ensures |members| == k
    decreases k
  {
    if k > 0 {
      assert s[..k] == s[..k - 1] + [s[k - 1]];
      PrefixSize(s, k - 1, members - {s[k - 1]});
    } else {
      forall x
        ensures x !in members
      {
        assert x !in s[..k];
      }
      assert members == {};
    }
  }

  /** A window's place in the sorted list is the number of windows below it. */
  lemma PlaceInOrder(ws: seq<Window>, front: int, s: seq<int>, k: nat)
    requires BackToFront(ws, front, s) && k < |s|
    ensures |Below(ws, front, s[k])| == k
  {
    forall j
      ensures j in Below(ws, front, s[k]) <==> j in s[..k]
    {
      if j in s[..k] {
        var a :| 0 <= a < k && s[a] == j;
        assert j in s;
      } else if j in s {
        var a :| 0 <= a < |s| && s[a] == j;
        assert a >= k;
      }
    }
    PrefixSize(s, k, Below(ws, front, s[k]));
  }

  lemma OrderMembers(ws: seq<Window>, front: int, s: seq<int>)
    requires BackToFront(ws, front, s)
    ensures front !in s
  {
  }

  lemma OrderSize(ws: seq<Window>, front: int, s: seq<int>)
    requires BackToFront(ws, front, s)
    ensures |Open(ws)| == |s| + if Shown(ws, front) then 1 else 0
  {
    assert s[..|s|] == s;
    PrefixSize(s, |s|, Open(ws) - {front});
    assert Shown(ws, front) ==> Open(ws) == (Open(ws) - {front}) + {front};
    assert !Shown(ws, front) ==> Open(ws) == Open(ws) - {front};
  }

  /** `r` is `s` with its entry at `i` moved down to place `p`. */
  ghost predicate Moved(s: seq<int>, i: nat, p: nat, r: seq<int>) {
    && p <= i < |s| == |r|
    && r[p] == s[i]
    && (forall k :: 0 <= k < p || i < k < |s| ==> r[k] == s[k])
    && (forall k :: p < k <= i ==> r[k] == s[k - 1])
  }

  /** Putting `s[i]` at place `p` of the sorted part of `s`, which ends at `i`. */
  lemma InsertedIsSorted(ws: seq<Window>, s: seq<int>, i: nat, p: nat, r: seq<int>)
    requires p <= i < |s| == |r| && Sorted(ws, s[..i])
    requires 0 <= s[i] < |ws|
    requires forall k :: 0 <= k < i ==> s[k] < s[i]
    requires p > 0 ==> ws[s[..i][p - 1]].z <= ws[s[i]].z
    requires forall k :: p <= k < i ==> ws[s[..i][k]].z > ws[s[i]].z
    requires Moved(s, i, p, r)
    ensures Sorted(ws, r[..i + 1])
    ensures forall x :: x in r <==> x in s
  {
    var t, u := s[..i], r[..i + 1];
    assert forall a :: 0 <= a < i ==> s[a] == t[a];
    forall a | 0 <= a < p
      ensures u[a] == t[a] && Before(ws, t[a], s[i])
    {
      assert u[a] == r[a];
      assert a < p - 1 ==> Before(ws, t[a], t[p - 1]);
    }
    forall a | p < a <= i
      ensures u[a] == t[a - 1]
    {
      assert u[a] == r[a];
      assert s[a - 1] == t[a - 1];
    }
    assert u[p] == r[p] == s[i];
    forall a, b | 0 <= a < b <= i
      ensures Before(ws, u[a], u[b])
    {
      var a' := if a < p then a else a - 1;
      var b' := if b < p then b else b - 1;
      if a != p && b != p {
        assert u[a] == t[a'] && u[b] == t[b'];
        assert Before(ws, t[a'], t[b']);
      } else if a == p {
        assert u[b] == t[b - 1] == s[b - 1];
      }
    }
    forall k | 0 <= k < |s|
      ensures s[k] in r
    {
      var k' := if k == i then p else if p <= k < i then k + 1 else k;
      assert r[k'] == s[k];
    }
    forall k | 0 <= k < |r|
      ensures r[k] in s
    {
      assert r[k] == s[i] || r[k] == s[k] || (k > 0 && r[k] == s[k - 1]);
    }
  }

  // ---- what the user sees ----

  /** The window a point shows once the windows of `s` have been drawn in turn; -1 for the desktop. */
  function Visible(ws: seq<Window>, s: seq<int>, px: int, py: int): int
    requires forall a :: 0 <= a < |s| ==> 0 <= s[a] < |ws|
  {
    if s == [] then -1
    else if ws[s[|s| - 1]].Covers(px, py) then s[|s| - 1]
    else Visible(ws, s[..|s| - 1], px, py)
  }

  /** `best` is the highest window of the list whose frame holds the point. */
  predicate Topmost(ws: seq<Window>, s: seq<int>, px: int, py: int, best: int)
    requires forall a :: 0 <= a < |s| ==> 0 <= s[a] < |ws|
  {
    && (best == -1 || (best in s && ws[best].Covers(px, py)))
    && (forall i :: i in s && ws[i].Covers(px, py) ==> best != -1 && ws[i].z <= ws[best].z)
  }

  lemma {:induction false} VisibleIsTopmost(ws: seq<Window>, s: seq<int>, px: int, py: int)
    requires Sorted(ws, s)
    ensures Topmost(ws, s, px, py, Visible(ws, s, px, py))
  {
    if s != [] && !ws[s[|s| - 1]].Covers(px, py) {
      var rest := s[..|s| - 1];
      VisibleIsTopmost(ws, rest, px, py);
      assert s == rest + [s[|s| - 1]];
      assert forall i :: i in rest ==> i in s;
    }
  }

  /** With distinct heights there is one topmost window, so testing and painting agree. */
  lemma HitIsVisible(ws: seq<Window>, s: seq<int>, px: int, py: int, hit: int)
    requires Stacked(ws) && BackToFront(ws, -1, s)
    requires Topmost(ws, s, px, py, hit)
    ensures hit == Visible(ws, s, px, py)
  {
    VisibleIsTopmost(ws, s, px, py);
  }

  /** The requested frame, at least the minimum size and pushed onto the screen. */
  predicate Placed(w: Window, x: int, y: int, width: int, height: int) {
    && w.width == (if width < MIN_WIDTH then MIN_WIDTH else width)
    && w.height == (if height < MIN_HEIGHT then MIN_HEIGHT else height)
    && w.x + w.width <= SCREEN_WIDTH && w.y + w.height <= SCREEN_HEIGHT
    && (w.width <= SCREEN_WIDTH ==> w.x >= 0)
    && (w.height <= SCREEN_HEIGHT ==> w.y >= 0)
    && (0 <= x && x + w.width <= SCREEN_WIDTH ==> w.x == x)
    && (0 <= y && y + w.height <= SCREEN_HEIGHT ==> w.y == y)
  }

  class Desktop {
    const windows: array<Window>
    var active: int
    var terminal: int
    var explorer: int

    ghost predicate Valid()
      reads this, windows
    {
      && Stacked(windows[..])
      && (active == -1 || Shown(windows[..], active))
      && (terminal == -1 || Shown(windows[..], terminal))
      && (explorer == -1 || Shown(windows[..], explorer))
    }

    constructor (slots: nat)
      ensures Valid() && fresh(windows) && windows.Length == slots
      ensures forall i :: 0 <= i < slots ==> windows[i].state == Closed && windows[i].z == 0
      ensures active == -1 && terminal == -1 && explorer == -1
    {
      windows := new Window[slots](_ => Window(0, 0, 0, 0, Closed, 0));
      active, terminal, explorer := -1, -1, -1;
      new;
      assert Open(windows[..]) == {};
    }

    /** The open windows other than `front`, in slot order. */
    method Collect(order: array<int>, front: int) returns (n: nat)
      requires order.Length == windows.Length
      modifies order
      ensures n <= windows.Length
      ensures forall a :: 0 <= a < n ==> 0 <= order[a] < windows.Length
      ensures forall a, b :: 0 <= a < b < n ==> order[a] < order[b]
      ensures forall i :: i in order[..n] <==> Shown(windows[..], i) && i != front
    {
      n := 0;
      for i := 0 to windows.Length
        invariant n <= i
        invariant forall a :: 0 <= a < n ==> 0 <= order[a] < i
        invariant forall a, b :: 0 <= a < b < n ==> order[a] < order[b]
        invariant forall k :: k in order[..n] <==> k < i && Shown(windows[..], k) && k != front
      {
        if i != front && windows[i].state == Normal {
          order[n] := i;
          n := n + 1;
          assert order[..n] == order[..n - 1] + [i];
        }
      }
    }

    /** Entry `i` of the list moves down past every higher window. */
    method Shift(order: array<int>, n: nat, i: nat) returns (p: nat)
      requires i < n <= order.Length
      requires forall a :: 0 <= a < n ==> 0 <= order[a] < windows.Length
      modifies order
      ensures Moved(old(order[..n]), i, p, order[..n])
      ensures p > 0 ==> windows[old(order[p - 1])].z <= windows[old(order[i])].z
      ensures forall k :: p <= k < i ==> windows[old(order[k])].z > windows[old(order[i])].z
    {
      ghost var was := order[..n];
      var key := order[i];
      var kz := windows[key].z;
      var j := i - 1;
      while j >= 0 && windows[order[j]].z > kz
        invariant -1 <= j < i
        invariant forall k :: 0 <= k <= j || i < k < n ==> order[k] == was[k]
        invariant forall k :: j + 1 < k <= i ==> order[k] == was[k - 1]
        invariant forall k :: j < k < i ==> windows[was[k]].z > kz
      {
        order[j + 1] := order[j];
        j := j - 1;
      }
      order[j + 1] := key;
      p := j + 1;
    }

    /** One round of the insertion sort: entry `i` of the list into the sorted part before it. */
    method Insert(order: array<int>, n: nat, i: nat)
      requires i < n <= order.Length
      requires forall a :: 0 <= a < n ==> 0 <= order[a] < windows.Length
      requires Sorted(windows[..], order[..i])
      requires forall a :: 0 <= a < i ==> order[a] < order[i]
      modifies order
      ensures Sorted(windows[..], order[..i + 1])
      ensures forall a :: 0 <= a <= i ==> order[a] <= old(order[i])
      ensures forall a :: i < a < n ==> order[a] == old(order[a])
      ensures forall x :: x in order[..n] <==> x in old(order[..n])
    {
      ghost var was := order[..n];
      assert was[..i] == order[..i];
      var p := Shift(order, n, i);
      ghost var now := order[..n];
      InsertedIsSorted(windows[..], was, i, p, now);
      hide Sorted;
      assert now[..i + 1] == order[..i + 1];
      assert forall a :: 0 <= a < n ==> order[a] == now[a];
    }

    method Sort(order: array<int>, n: nat)
      requires n <= order.Length
      requires forall a :: 0 <= a < n ==> 0 <= order[a] < windows.Length
      requires forall a, b :: 0 <= a < b < n ==> order[a] < order[b]
      modifies order
      ensures Sorted(windows[..], order[..n])
      ensures forall x :: x in order[..n] <==> x in old(order[..n])
    {
      ghost var was := order[..n];
      if n == 0 {
        return;
      }
      var i: nat := 1;
      while i < n
        invariant 1 <= i <= n
        invariant Sorted(windows[..], order[..i])
        invariant forall k :: i <= k < n ==> order[k] == was[k]
        invariant forall a :: 0 <= a < i ==> 0 <= order[a] <= was[i - 1]
        invariant forall x :: x in order[..n] <==> x in was
      {
        Insert(order, n, i);
        i := i + 1;
      }
    }

    /** Heights 1, 2, ... along the list. */
    method Number(order: array<int>, n: nat)
      requires n <= order.Length
      requires forall a :: 0 <= a < n ==> 0 <= order[a] < windows.Length
      requires forall a, b :: 0 <= a < b < n ==> order[a] != order[b]
      modifies windows
      ensures forall a :: 0 <= a < n ==> windows[order[a]] == old(windows[order[a]]).(z := a + 1)
      ensures forall k :: 0 <= k < windows.Length && k !in order[..n] ==> windows[k] == old(windows[k])
    {
      var i: nat := 0;
      while i < n
        invariant i <= n
        invariant forall a :: 0 <= a < i ==> windows[order[a]] == old(windows[order[a]]).(z := a + 1)
        invariant forall k :: 0 <= k < windows.Length && k !in order[..i] ==> windows[k] == old(windows[k])
      {
        assert order[i] !in order[..i];
        windows[order[i]] := windows[order[i]].(z := i + 1);
        i := i + 1;
        assert order[..i] == order[..i - 1] + [order[i - 1]];
      }
    }

    /** Renumber the open windows 1..N, keeping their order, with `front` on top. */
    method Restack(front: int)
      modifies windows
      ensures windows[..] == Restacked(old(windows[..]), front)
    {
      ghost var ws := windows[..];
      var top := if 0 <= front < windows.Length && windows[front].state == Normal then front else -1;
      var order := new int[windows.Length];
      var n := Collect(order, top);
      Sort(order, n);
      ghost var s := order[..n];
      assert BackToFront(ws, top, s);
      forall a, b | 0 <= a < b < n
        ensures order[a] != order[b]
      {
        assert Before(ws, s[a], s[b]);
      }
      hide BackToFront, Sorted;
      Number(order, n);
      if top >= 0 {
        OrderMembers(ws, top, s);
        windows[top] := windows[top].(z := n + 1);
      }
      assert forall a :: 0 <= a < n ==> s[a] == order[a];
      Renumbered(ws, front, top, s, windows[..]);
    }

    /** A new window on top of the stack, or -1 when no slot is closed. */
    method Create(x: int, y: int, width: int, height: int) returns (id: int)
      requires Valid()
      modifies windows
      ensures Valid()
      ensures id == -1 <==> forall i :: 0 <= i < windows.Length ==> old(windows[i].state) != Closed
      ensures id == -1 ==> windows[..] == old(windows[..])
      ensures id != -1 ==>
                && 0 <= id < windows.Length && old(windows[id].state) == Closed
                && (forall i :: 0 <= i < id ==> old(windows[i].state) != Closed)
                && Placed(windows[id], x, y, width, height)
                && windows[id].state == Normal && windows[id].z == |Open(old(windows[..]))| + 1
                && windows[..] == old(windows[..])[id := windows[id]]
    {
      ghost var ws := windows[..];
      var i := 0;
      while i < windows.Length && windows[i].state != Closed
        invariant 0 <= i <= windows.Length
        invariant forall k :: 0 <= k < i ==> windows[k].state != Closed
      {
        i := i + 1;
      }
      if i >= windows.Length {
        return -1;
      }
      var w := if width < MIN_WIDTH then MIN_WIDTH else width;
      var h := if height < MIN_HEIGHT then MIN_HEIGHT else height;
      var left := if x < 0 then 0 else x;
      var above := if y < 0 then 0 else y;
      if left + w > SCREEN_WIDTH {
        left := SCREEN_WIDTH - w;
      }
      if above + h > SCREEN_HEIGHT {
        above := SCREEN_HEIGHT - h;
      }
      ghost var made := Window(left, above, w, h, Normal, ws[i].z);
      windows[i] := windows[i].(x := left, y := above, width := w, height := h, state := Normal);
      assert windows[..] == ws[i := made];
      Restack(i);
      OpeningAddsOnTop(ws, i, made);
      RestackNumbersAll(ws[i := made], i);
      hide Stacked, Restacked;
      id := i;
    }

    /** Close a window and the gap it leaves; another number is ignored. */
    method Close(id: int)
      requires Valid()
      modifies this, windows
      ensures Valid()
      ensures !(0 <= id < windows.Length) ==>
                windows[..] == old(windows[..]) && active == old(active) && terminal == old(terminal) && explorer == old(explorer)
      ensures 0 <= id < windows.Length ==>
                && windows[..] == (if Shown(old(windows[..]), id) then Lowered(old(windows[..]), old(windows[id].z))
                                   else old(windows[..]))[id := old(windows[id]).(state := Closed, z := 0)]
                && active == (if old(active) == id then -1 else old(active))
                && terminal == (if old(terminal) == id then -1 else old(terminal))
                && explorer == (if old(explorer) == id then -1 else old(explorer))
    {
      if id < 0 || id >= windows.Length {
        return;
      }
      ghost var ws := windows[..];
      windows[id] := windows[id].(state := Closed, z := 0);
      ghost var left := windows[..];
      assert left == ws[id := ws[id].(state := Closed, z := 0)];
      if active == id {
        active := -1;
      }
      if terminal == id {
        terminal := -1;
      }
      if explorer == id {
        explorer := -1;
      }
      hide Stacked, Restacked;
      Restack(-1);
      RestackNumbersAll(left, -1);
      ClosingLowers(ws, id);
    }

    /** Raise an open window and make it active; anything else is ignored. */
    method Focus(id: int)
      requires Valid()
      modifies this, windows
      ensures Valid() && terminal == old(terminal) && explorer == old(explorer)
      ensures !Shown(old(windows[..]), id) ==> windows[..] == old(windows[..]) && active == old(active)
      ensures Shown(old(windows[..]), id) ==>
                && active == id
                && windows[..] == Lowered(old(windows[..]), old(windows[id].z))
                                    [id := old(windows[id]).(z := |Open(old(windows[..]))|)]
    {
      if id < 0 || id >= windows.Length {
        return;
      }
      if windows[id].state != Normal {
        return;
      }
      ghost var ws := windows[..];
      Restack(id);
      active := id;
      RaisingRotates(ws, id);
      RestackNumbersAll(ws, id);
    }

    /** The windows in the order they are drawn. */
    method PaintAll() returns (drawn: seq<int>)
      ensures BackToFront(windows[..], -1, drawn)
    {
      var order := new int[windows.Length];
      var n := Collect(order, -1);
      Sort(order, n);
      drawn := [];
      var i: nat := 0;
      while i < n
        invariant i <= n && drawn == order[..i]
      {
        drawn := drawn + [order[i]];
        i := i + 1;
      }
    }

    /** The window under a point is the one that painting leaves visible there. */
    method HitTest(px: int, py: int) returns (best: int)
      requires Valid()
      ensures best == -1 || Shown(windows[..], best)
      ensures best != -1 ==>
                var w := windows[best];
                w.state == Normal && w.x <= px < w.x + w.width && w.y <= py < w.y + w.height
      ensures forall i :: 0 <= i < windows.Length && windows[i].state == Normal && windows[i].Covers(px, py) ==>
                best != -1 && windows[i].z <= windows[best].z
      ensures forall s :: BackToFront(windows[..], -1, s) ==> best == Visible(windows[..], s, px, py)
    {
      best := -1;
      var bestZ := -1;
      for i := 0 to windows.Length
        invariant best == -1 ==> bestZ == -1
        invariant best != -1 ==> 0 <= best < i && Shown(windows[..], best) && windows[best].Covers(px, py) && bestZ == windows[best].z
        invariant forall k :: 0 <= k < i && Shown(windows[..], k) && windows[k].Covers(px, py) ==> best != -1 && windows[k].z <= bestZ
      {
        var w := windows[i];
        if w.state == Normal {
          if px >= w.x && px < w.x + w.width && py >= w.y && py < w.y + w.height {
            if w.z > bestZ {
              best, bestZ := i, w.z;
            } else {
              assert Shown(windows[..], i);
            }
          }
        }
      }
      forall s | BackToFront(windows[..], -1, s)
        ensures best == Visible(windows[..], s, px, py)
      {
        HitIsVisible(windows[..], s, px, py, best);
      }
    }

    /** A click raises what the user sees under it, if anything. */
    method HandleClick(px: int, py: int) returns (hit: int)
      requires Valid()
      modifies this, windows
      ensures Valid()
      ensures forall s :: BackToFront(old(windows[..]), -1, s) ==> hit == Visible(old(windows[..]), s, px, py)
      ensures hit == -1 ==> windows[..] == old(windows[..]) && active == old(active)
      ensures hit != -1 ==> active == hit && Shown(windows[..], hit) && windows[hit].z == |Open(windows[..])|
    {
      hit := HitTest(px, py);
      if hit >= 0 {
        ghost var ws := windows[..];
        Focus(hit);
        assert Open(windows[..]) == Open(ws);
      }
    }
  }

  /** Numbering along the sorted list, then `front` last, is renumbering by counting. */
  lemma Renumbered(ws: seq<Window>, front: int, top: int, s: seq<int>, r: seq<Window>)
    requires |r| == |ws| && BackToFront(ws, top, s)
    requires top == if Shown(ws, front) then front else -1
    requires forall a :: 0 <= a < |s| && s[a] != top ==> r[s[a]] == ws[s[a]].(z := a + 1)
    requires forall k :: 0 <= k < |ws| && k !in s && k != top ==> r[k] == ws[k]
    requires top >= 0 ==> r[top] == ws[top].(z := |s| + 1)
    ensures r == Restacked(ws, front)
  {
    OrderSize(ws, top, s);
    forall i | 0 <= i < |ws|
      ensures r[i] == Restacked(ws, front)[i]
    {
      if Shown(ws, i) && i != top {
        assert i in s;
        var a :| 0 <= a < |s| && s[a] == i;
        PlaceInOrder(ws, top, s, a);
        assert Below(ws, top, i) == Below(ws, front, i);
      }
    }
  }
}
