/** `LEDSignKeypointList`: the program's keypoints in a red-black search tree
    ordered by key, where a keypoint's key packs its end frame above a 44-bit
    insertion index, and every node caches the union of the pixel masks of its
    subtree so that searches can skip subtrees that touch none of the queried
    pixels.

    Each node of the source stores a link to its parent. Here the tree is a value, and
    the position of a walk is a zipper: the subtree in focus together with the
    path of frames back to the root, which plays the part of the parent
    links. Pixel masks are sets of pixel indices. */
module Timeline {
  import opened Wrappers

  /** `(end << 44) | index` is `end * IndexSpan + index` while the index stays
      below 2^44. */
  const IndexSpan: nat := 0x1000_0000_0000

  /** `LEDSignProgramKeypoint`: colour `rgb`, end frame, duration in frames,
      pixel mask, and the insertion index that the list assigns. */
  datatype Keypoint = Keypoint(rgb: nat, end: nat, duration: nat, mask: set<nat>, index: nat)

  function Key(kp: Keypoint): nat
  {
    kp.end * IndexSpan + kp.index
  }

  /** `kp.mask & q != 0`. */
  predicate Matches(kp: Keypoint, q: set<nat>)
  {
    kp.mask * q != {}
  }

  datatype Color = Black | Red

  /** A node holds its colour, children, keypoint and cached subtree mask. */
  datatype Tree = Leaf | Node(color: Color, left: Tree, kp: Keypoint, sub: set<nat>, right: Tree)

  /** The cached mask of a subtree; an absent child contributes nothing. */
  function SubtreeMask(t: Tree): set<nat>
  {
    if t.Leaf? then {} else t.sub
  }

  /** A node whose cached mask is recomputed from its children, as the source
      does after relinking a node. */
  function MakeNode(c: Color, l: Tree, kp: Keypoint, r: Tree): Tree
  {
    Node(c, l, kp, kp.mask + SubtreeMask(l) + SubtreeMask(r), r)
  }

  /** The keypoints in in-order sequence. */
  function Elems(t: Tree): seq<Keypoint>
  {
    match t
    case Leaf => []
    case Node(_, l, kp, _, r) => Elems(l) + [kp] + Elems(r)
  }

  function Height(t: Tree): nat
  {
    match t
    case Leaf => 0
    case Node(_, l, _, _, r) => 1 + (if Height(l) < Height(r) then Height(r) else Height(l))
  }

  /** The augmentation invariant: every cached mask is the node's own mask
      joined with its children's cached masks. */
  predicate Augmented(t: Tree)
  {
    match t
    case Leaf => true
    case Node(_, l, kp, sub, r) =>
      sub == kp.mask + SubtreeMask(l) + SubtreeMask(r) && Augmented(l) && Augmented(r)
  }

  predicate KeysIncreasing(s: seq<Keypoint>)
  {
    forall i, j :: 0 <= i < j < |s| ==> Key(s[i]) < Key(s[j])
  }

  /** Search-tree order with unique keys, and correct cached masks. */
  predicate ValidTree(t: Tree)
  {
    KeysIncreasing(Elems(t)) && Augmented(t)
  }

  /** The meaning of a cached mask: a pixel is in it exactly when some keypoint
      of the subtree covers that pixel. */
  lemma SubtreeMaskIsUnion(t: Tree, p: nat)
    requires Augmented(t)
    ensures p in SubtreeMask(t) <==> exists e :: e in Elems(t) && p in e.mask
  {
    if t.Node? {
      SubtreeMaskIsUnion(t.left, p);
      SubtreeMaskIsUnion(t.right, p);
      if p in SubtreeMask(t) {
        if p in t.kp.mask {
          assert t.kp in Elems(t);
        } else if p in SubtreeMask(t.left) {
          var e :| e in Elems(t.left) && p in e.mask;
          assert e in Elems(t);
        } else {
          var e :| e in Elems(t.right) && p in e.mask;
          assert e in Elems(t);
        }
      }
    }
  }

  /** A subtree whose cached mask misses the query holds no matching keypoint. */
  lemma PrunedSubtree(t: Tree, q: set<nat>)
    requires Augmented(t) && SubtreeMask(t) * q == {}
    ensures forall e :: e in Elems(t) ==> !Matches(e, q)
  {
    forall e | e in Elems(t)
      ensures !Matches(e, q)
    {
      forall p | p in e.mask
        ensures p in SubtreeMask(t)
      {
        SubtreeMaskIsUnion(t, p);
      }
    }
  }

  /** Regrouping a concatenation around two single elements. */
  lemma Regroup<T>(a: seq<T>, x: T, b: seq<T>, y: T, c: seq<T>)
    ensures a + [x] + (b + [y] + c) == (a + [x] + b) + [y] + c
  {
  }

  /** The head of an increasing sequence is below its tail, and the tail is
      increasing. */
  lemma KeysIncreasingTail(s: seq<Keypoint>)
    requires KeysIncreasing(s) && |s| > 0
    ensures KeysIncreasing(s[1..])
    ensures forall e :: e in s[1..] ==> Key(s[0]) < Key(e)
  {
    forall e | e in s[1..]
      ensures Key(s[0]) < Key(e)
    {
      var j :| 0 <= j < |s[1..]| && s[1..][j] == e;
      assert s[j + 1] == e;
    }
  }

  lemma KeysIncreasingInit(s: seq<Keypoint>)
    requires KeysIncreasing(s) && |s| > 0
    ensures KeysIncreasing(s[..|s| - 1])
    ensures forall e :: e in s[..|s| - 1] ==> Key(e) < Key(s[|s| - 1])
  {
    forall e | e in s[..|s| - 1]
      ensures Key(e) < Key(s[|s| - 1])
    {
      var j :| 0 <= j < |s| - 1 && s[j] == e;
    }
  }

  lemma KeysIncreasingSuffix(a: seq<Keypoint>, b: seq<Keypoint>)
    requires KeysIncreasing(a + b)
    ensures KeysIncreasing(b)
  {
    forall i, j | 0 <= i < j < |b|
      ensures Key(b[i]) < Key(b[j])
    {
      assert b[i] == (a + b)[|a| + i] && b[j] == (a + b)[|a| + j];
    }
  }

  lemma KeysIncreasingPrefix(a: seq<Keypoint>, b: seq<Keypoint>)
    requires KeysIncreasing(a + b)
    ensures KeysIncreasing(a)
  {
    forall i, j | 0 <= i < j < |a|
      ensures Key(a[i]) < Key(a[j])
    {
      assert a[i] == (a + b)[i] && a[j] == (a + b)[j];
    }
  }

  /** In a sequence in key order, the keys before an element are below its
      key and the keys after it above. */
  lemma KeysAround(a: seq<Keypoint>, k: Keypoint, c: seq<Keypoint>)
    requires KeysIncreasing(a + [k] + c)
    ensures forall e :: e in a ==> Key(e) < Key(k)
    ensures forall e :: e in c ==> Key(k) < Key(e)
  {
    var s := a + [k] + c;
    assert s[|a|] == k;
    forall e | e in a
      ensures Key(e) < Key(k)
    {
      var i :| 0 <= i < |a| && a[i] == e;
      assert s[i] == e;
    }
    forall e | e in c
      ensures Key(k) < Key(e)
    {
      var j :| 0 <= j < |c| && c[j] == e;
      assert s[|a| + 1 + j] == e;
    }
  }

  /** In an ordered tree, the left keys are below the node's key and the
      right keys above it, and both subtrees are ordered. */
  lemma NodeKeys(t: Tree)
    requires t.Node? && KeysIncreasing(Elems(t))
    ensures KeysIncreasing(Elems(t.left)) && KeysIncreasing(Elems(t.right))
    ensures forall e :: e in Elems(t.left) ==> Key(e) < Key(t.kp)
    ensures forall e :: e in Elems(t.right) ==> Key(t.kp) < Key(e)
  {
    var l, r := Elems(t.left), Elems(t.right);
    KeysAround(l, t.kp, r);
    assert Elems(t) == l + ([t.kp] + r);
    KeysIncreasingPrefix(l, [t.kp] + r);
    assert Elems(t) == (l + [t.kp]) + r;
    KeysIncreasingSuffix(l + [t.kp], r);
  }

  // ---------------------------------------------------------------------------
  // The zipper

  /** One step of a path from the root: the node's colour and keypoint, the
      child it was left by (`toRight` when the walk went to the right child) and
      the other child. The node's cached mask is recomputed when the step is
      undone, as the source recomputes it on its way back up. */
  datatype Frame = Frame(toRight: bool, color: Color, kp: Keypoint, sibling: Tree)

  function Plug(t: Tree, f: Frame): Tree
  {
    if f.toRight then MakeNode(f.color, f.sibling, f.kp, t) else MakeNode(f.color, t, f.kp, f.sibling)
  }

  /** The whole tree, rebuilt from a focus and the path above it. */
  function Zip(t: Tree, path: seq<Frame>): Tree
    decreases |path|
  {
    if |path| == 0 then t else Zip(Plug(t, path[|path| - 1]), path[..|path| - 1])
  }

  /** The keypoints that come before the focus in in-order sequence. */
  function Before(path: seq<Frame>): seq<Keypoint>
    decreases |path|
  {
    if |path| == 0 then []
    else
      var f := path[|path| - 1];
      Before(path[..|path| - 1]) + (if f.toRight then Elems(f.sibling) + [f.kp] else [])
  }

  /** The keypoints that come after the focus in in-order sequence. */
  function After(path: seq<Frame>): seq<Keypoint>
    decreases |path|
  {
    if |path| == 0 then []
    else
      var f := path[|path| - 1];
      (if f.toRight then [] else [f.kp] + Elems(f.sibling)) + After(path[..|path| - 1])
  }

  predicate SiblingsAugmented(path: seq<Frame>)
  {
    forall i :: 0 <= i < |path| ==> Augmented(path[i].sibling)
  }

  lemma {:induction false} ZipElems(t: Tree, path: seq<Frame>)
    ensures Elems(Zip(t, path)) == Before(path) + Elems(t) + After(path)
    decreases |path|
  {
    if |path| > 0 {
      var f := path[|path| - 1];
      var init := path[..|path| - 1];
      ZipElems(Plug(t, f), init);
    }
  }

  lemma {:induction false} ZipAugmented(t: Tree, path: seq<Frame>)
    requires Augmented(t) && SiblingsAugmented(path)
    ensures Augmented(Zip(t, path))
    decreases |path|
  {
    if |path| > 0 {
      var init := path[..|path| - 1];
      assert Augmented(path[|path| - 1].sibling);
      assert SiblingsAugmented(init) by {
        forall i | 0 <= i < |init|
          ensures Augmented(init[i].sibling)
        {
          assert init[i] == path[i];
        }
      }
      ZipAugmented(Plug(t, path[|path| - 1]), init);
    }
  }

  /** Walking down from an augmented node and back up rebuilds the node. */
  lemma PlugChild(t: Tree, toRight: bool)
    requires t.Node? && Augmented(t)
    ensures toRight ==> Plug(t.right, Frame(true, t.color, t.kp, t.left)) == t
    ensures !toRight ==> Plug(t.left, Frame(false, t.color, t.kp, t.right)) == t
  {
  }

  lemma SiblingsAugmentedPush(path: seq<Frame>, f: Frame)
    requires SiblingsAugmented(path) && Augmented(f.sibling)
    ensures SiblingsAugmented(path + [f])
  {
    var p := path + [f];
    forall i | 0 <= i < |p|
      ensures Augmented(p[i].sibling)
    {
      if i < |path| {
        assert p[i] == path[i];
      }
    }
  }

  lemma SiblingsAugmentedPop(path: seq<Frame>, n: nat)
    requires SiblingsAugmented(path) && n <= |path|
    ensures SiblingsAugmented(path[..n])
  {
    var p := path[..n];
    forall i | 0 <= i < |p|
      ensures Augmented(p[i].sibling)
    {
      assert p[i] == path[i];
    }
  }

  // ---------------------------------------------------------------------------
  // Specifications of the searches and of the iteration

  /** The first keypoint, in sequence order, with key at least `key` that
      touches one of the pixels of `q`. */
  function FirstFrom(s: seq<Keypoint>, key: int, q: set<nat>): Option<Keypoint>
  {
    if |s| == 0 then None
    else if Key(s[0]) >= key && Matches(s[0], q) then Some(s[0])
    else FirstFrom(s[1..], key, q)
  }

  /** The last keypoint, in sequence order, with key at most `key` that touches
      one of the pixels of `q`. */
  function LastUpTo(s: seq<Keypoint>, key: int, q: set<nat>): Option<Keypoint>
  {
    if |s| == 0 then None
    else if Key(s[|s| - 1]) <= key && Matches(s[|s| - 1], q) then Some(s[|s| - 1])
    else LastUpTo(s[..|s| - 1], key, q)
  }

  /** What `FirstFrom` finds is in the sequence, at or above the key, and
      matches. */
  lemma {:induction false} FirstFromSound(s: seq<Keypoint>, key: int, q: set<nat>)
    ensures FirstFrom(s, key, q).Some? ==>
      var r := FirstFrom(s, key, q).value;
      r in s && Key(r) >= key && Matches(r, q)
  {
    if |s| > 0 && !(Key(s[0]) >= key && Matches(s[0], q)) {
      FirstFromSound(s[1..], key, q);
    }
  }

  /** On a sequence in key order, `FirstFrom` finds something no later than
      any matching keypoint at or above the key. */
  lemma {:induction false} FirstFromFinds(s: seq<Keypoint>, key: int, q: set<nat>, e: Keypoint)
    requires KeysIncreasing(s) && e in s && Key(e) >= key && Matches(e, q)
    ensures FirstFrom(s, key, q).Some? && Key(FirstFrom(s, key, q).value) <= Key(e)
  {
    KeysIncreasingTail(s);
    if e != s[0] {
      assert e in s[1..];
      if !(Key(s[0]) >= key && Matches(s[0], q)) {
        FirstFromFinds(s[1..], key, q, e);
      }
    }
  }

  /** On a sequence in key order, `FirstFrom` finds the matching keypoint of
      least key at or above `key`, and finds nothing exactly when there is none. */
  lemma FirstFromIsLeast(s: seq<Keypoint>, key: int, q: set<nat>)
    requires KeysIncreasing(s)
    ensures FirstFrom(s, key, q).None? <==> forall e :: e in s ==> !(Key(e) >= key && Matches(e, q))
    ensures FirstFrom(s, key, q).Some? ==>
      var r := FirstFrom(s, key, q).value;
      r in s && Key(r) >= key && Matches(r, q) &&
      forall e :: e in s && Key(e) >= key && Matches(e, q) ==> Key(r) <= Key(e)
  {
    FirstFromSound(s, key, q);
    forall e | e in s && Key(e) >= key && Matches(e, q)
      ensures FirstFrom(s, key, q).Some? && Key(FirstFrom(s, key, q).value) <= Key(e)
    {
      FirstFromFinds(s, key, q, e);
    }
  }

  /** What `LastUpTo` finds is in the sequence, at or below the key, and
      matches. */
  lemma {:induction false} LastUpToSound(s: seq<Keypoint>, key: int, q: set<nat>)
    ensures LastUpTo(s, key, q).Some? ==>
      var r := LastUpTo(s, key, q).value;
      r in s && Key(r) <= key && Matches(r, q)
  {
    if |s| > 0 && !(Key(s[|s| - 1]) <= key && Matches(s[|s| - 1], q)) {
      LastUpToSound(s[..|s| - 1], key, q);
      assert forall e :: e in s[..|s| - 1] ==> e in s;
    }
  }

  /** On a sequence in key order, `LastUpTo` finds something no earlier than
      any matching keypoint at or below the key. */
  lemma {:induction false} LastUpToFinds(s: seq<Keypoint>, key: int, q: set<nat>, e: Keypoint)
    requires KeysIncreasing(s) && e in s && Key(e) <= key && Matches(e, q)
    ensures LastUpTo(s, key, q).Some? && Key(e) <= Key(LastUpTo(s, key, q).value)
  {
    KeysIncreasingInit(s);
    var n := |s| - 1;
    if e != s[n] {
      assert s == s[..n] + [s[n]];
      assert e in s[..n];
      if !(Key(s[n]) <= key && Matches(s[n], q)) {
        LastUpToFinds(s[..n], key, q, e);
      }
    }
  }

  /** On a sequence in key order, `LastUpTo` finds the matching keypoint of
      greatest key at or below `key`, and finds nothing exactly when there is
      none. */
  lemma LastUpToIsGreatest(s: seq<Keypoint>, key: int, q: set<nat>)
    requires KeysIncreasing(s)
    ensures LastUpTo(s, key, q).None? <==> forall e :: e in s ==> !(Key(e) <= key && Matches(e, q))
    ensures LastUpTo(s, key, q).Some? ==>
      var r := LastUpTo(s, key, q).value;
      r in s && Key(r) <= key && Matches(r, q) &&
      forall e :: e in s && Key(e) <= key && Matches(e, q) ==> Key(e) <= Key(r)
  {
    LastUpToSound(s, key, q);
    forall e | e in s && Key(e) <= key && Matches(e, q)
      ensures LastUpTo(s, key, q).Some? && Key(e) <= Key(LastUpTo(s, key, q).value)
    {
      LastUpToFinds(s, key, q, e);
    }
  }

  /** Keypoints that cannot match are skipped. */
  lemma {:induction false} FirstFromSkip(a: seq<Keypoint>, b: seq<Keypoint>, key: int, q: set<nat>)
    requires forall e :: e in a && Key(e) >= key ==> !Matches(e, q)
    ensures FirstFrom(a + b, key, q) == FirstFrom(b, key, q)
  {
    if |a| > 0 {
      assert (a + b)[1..] == a[1..] + b;
      FirstFromSkip(a[1..], b, key, q);
    } else {
      assert a + b == b;
    }
  }

  lemma {:induction false} LastUpToSkip(a: seq<Keypoint>, b: seq<Keypoint>, key: int, q: set<nat>)
    requires forall e :: e in b && Key(e) <= key ==> !Matches(e, q)
    ensures LastUpTo(a + b, key, q) == LastUpTo(a, key, q)
  {
    if |b| > 0 {
      assert (a + b)[..|a + b| - 1] == a + b[..|b| - 1];
      LastUpToSkip(a, b[..|b| - 1], key, q);
    } else {
      assert a + b == a;
    }
  }

  /** Raising the search key past keys that cannot match changes nothing. */
  lemma {:induction false} FirstFromRaise(s: seq<Keypoint>, k1: int, k2: int, q: set<nat>)
    requires k1 <= k2
    requires forall e :: e in s && k1 <= Key(e) < k2 ==> !Matches(e, q)
    ensures FirstFrom(s, k1, q) == FirstFrom(s, k2, q)
  {
    if |s| > 0 {
      FirstFromRaise(s[1..], k1, k2, q);
    }
  }

  lemma {:induction false} LastUpToLower(s: seq<Keypoint>, k1: int, k2: int, q: set<nat>)
    requires k2 <= k1
    requires forall e :: e in s && k2 < Key(e) <= k1 ==> !Matches(e, q)
    ensures LastUpTo(s, k1, q) == LastUpTo(s, k2, q)
  {
    if |s| > 0 {
      LastUpToLower(s[..|s| - 1], k1, k2, q);
    }
  }

  /** The keypoints touching `q`, in sequence order. */
  function Selected(s: seq<Keypoint>, q: set<nat>): seq<Keypoint>
  {
    if |s| == 0 then [] else (if Matches(s[0], q) then [s[0]] else []) + Selected(s[1..], q)
  }

  /** The keypoints touching `q` with key below `key`, in sequence order. */
  function SelectedBelow(s: seq<Keypoint>, key: int, q: set<nat>): seq<Keypoint>
  {
    if |s| == 0 then []
    else (if Matches(s[0], q) && Key(s[0]) < key then [s[0]] else []) + SelectedBelow(s[1..], key, q)
  }

  /** `Selected` keeps exactly the matching keypoints, and on a sequence in key
      order it lists them in increasing key order, each once. */
  lemma {:induction false} SelectedIsFilter(s: seq<Keypoint>, q: set<nat>)
    ensures forall e :: e in Selected(s, q) <==> e in s && Matches(e, q)
    ensures KeysIncreasing(s) ==> KeysIncreasing(Selected(s, q))
  {
    if |s| > 0 {
      SelectedIsFilter(s[1..], q);
      assert s == [s[0]] + s[1..];
      if KeysIncreasing(s) {
        KeysIncreasingTail(s);
        var h := if Matches(s[0], q) then [s[0]] else [];
        var t := Selected(s[1..], q);
        forall i, j | 0 <= i < j < |h + t|
          ensures Key((h + t)[i]) < Key((h + t)[j])
        {
          if i < |h| {
            assert (h + t)[j] in t;
          } else {
            assert (h + t)[i] == t[i - |h|] && (h + t)[j] == t[j - |h|];
          }
        }
      }
    }
  }

  lemma {:induction false} SelectedBelowAll(s: seq<Keypoint>, key: int, q: set<nat>)
    requires forall e :: e in s ==> Key(e) < key
    ensures SelectedBelow(s, key, q) == Selected(s, q)
  {
    if |s| > 0 {
      SelectedBelowAll(s[1..], key, q);
    }
  }

  lemma {:induction false} SelectedBelowNone(s: seq<Keypoint>, key: int, q: set<nat>)
    requires forall e :: e in s ==> Key(e) >= key
    ensures SelectedBelow(s, key, q) == []
  {
    if |s| > 0 {
      SelectedBelowNone(s[1..], key, q);
    }
  }

  lemma {:induction false} SelectedBelowLength(s: seq<Keypoint>, key: int, q: set<nat>)
    ensures |SelectedBelow(s, key, q)| <= |Selected(s, q)|
  {
    if |s| > 0 {
      SelectedBelowLength(s[1..], key, q);
    }
  }

  /** One step of the iteration: the next match is appended to the matches
      already passed. */
  lemma {:induction false} SelectedBelowNext(s: seq<Keypoint>, key: int, q: set<nat>)
    requires KeysIncreasing(s) && FirstFrom(s, key, q).Some?
    ensures SelectedBelow(s, Key(FirstFrom(s, key, q).value) + 1, q) == SelectedBelow(s, key, q) + [FirstFrom(s, key, q).value]
  {
    var h := s[0];
    var t := s[1..];
    KeysIncreasingTail(s);
    if Key(h) >= key && Matches(h, q) {
      SelectedBelowNone(t, Key(h) + 1, q);
      SelectedBelowNone(t, key, q);
      assert SelectedBelow(s, Key(h) + 1, q) == [h] + SelectedBelow(t, Key(h) + 1, q);
      assert SelectedBelow(s, key, q) == [] + SelectedBelow(t, key, q);
    } else {
      var r := FirstFrom(t, key, q).value;
      assert FirstFrom(s, key, q) == FirstFrom(t, key, q);
      SelectedBelowNext(t, key, q);
      FirstFromSound(t, key, q);
      var hs := if Matches(h, q) && Key(h) < key then [h] else [];
      assert SelectedBelow(s, key, q) == hs + SelectedBelow(t, key, q);
      assert SelectedBelow(s, Key(r) + 1, q) == hs + SelectedBelow(t, Key(r) + 1, q);
    }
  }

  /** When no match is left, the matches passed are all of them. */
  lemma {:induction false} SelectedBelowDone(s: seq<Keypoint>, key: int, q: set<nat>)
    requires FirstFrom(s, key, q).None?
    ensures SelectedBelow(s, key, q) == Selected(s, q)
  {
    if |s| > 0 {
      SelectedBelowDone(s[1..], key, q);
    }
  }

  // ---------------------------------------------------------------------------
  // Rotations and the insertion specification

  function WithColor(t: Tree, c: Color): Tree
    requires t.Node?
  {
    t.(color := c)
  }

  /** `_rotate_subtree(x, dir)`: the child on side `!dir` (`x._nodes[dir^1]`)
      takes the place of `t`, `t` becomes its child on side `dir`, and the
      inner grandchild changes parent. Colours stay with their keypoints;
      the cached masks of the two moved nodes are recomputed. */
  function Rotate(t: Tree, dir: bool): (r: Tree)
    requires t.Node? && (if dir then t.left.Node? else t.right.Node?)
    ensures r.Node?
  {
    if dir then
      var z := t.left;
      MakeNode(z.color, z.left, z.kp, MakeNode(t.color, z.right, t.kp, t.right))
    else
      var z := t.right;
      MakeNode(z.color, MakeNode(t.color, t.left, t.kp, z.left), z.kp, z.right)
  }

  /** A rotation keeps the in-order sequence. */
  lemma RotateElems(t: Tree, dir: bool)
    requires t.Node? && (if dir then t.left.Node? else t.right.Node?)
    ensures Elems(Rotate(t, dir)) == Elems(t)
  {
    if dir {
      var z := t.left;
      var a, b, c := Elems(z.left), Elems(z.right), Elems(t.right);
      assert Elems(t) == (a + [z.kp] + b) + [t.kp] + c;
      assert Elems(Rotate(t, dir)) == a + [z.kp] + (b + [t.kp] + c);
      Regroup(a, z.kp, b, t.kp, c);
    } else {
      var z := t.right;
      var a, b, c := Elems(t.left), Elems(z.left), Elems(z.right);
      assert Elems(t) == a + [t.kp] + (b + [z.kp] + c);
      assert Elems(Rotate(t, dir)) == (a + [t.kp] + b) + [z.kp] + c;
      Regroup(a, t.kp, b, z.kp, c);
    }
  }

  /** A rotation keeps the augmentation invariant. */
  lemma RotateAugmented(t: Tree, dir: bool)
    requires t.Node? && (if dir then t.left.Node? else t.right.Node?)
    requires Augmented(t)
    ensures Augmented(Rotate(t, dir))
  {
    var z := if dir then t.left else t.right;
    assert Augmented(z.left) && Augmented(z.right);
  }

  /** The recolouring after the rotations of the insertion fix-up: the top
      becomes black and its child on side `dir` red. */
  function RecolorTop(t: Tree, dir: bool): Tree
    requires t.Node? && (if dir then t.right.Node? else t.left.Node?)
  {
    if dir then Node(Black, t.left, t.kp, t.sub, WithColor(t.right, Red))
    else Node(Black, WithColor(t.left, Red), t.kp, t.sub, t.right)
  }

  /** `s` with `kp` placed before the first keypoint of larger key. */
  function InsertSorted(s: seq<Keypoint>, kp: Keypoint): seq<Keypoint>
  {
    if |s| == 0 then [kp]
    else if Key(kp) < Key(s[0]) then [kp] + s
    else [s[0]] + InsertSorted(s[1..], kp)
  }

  /** The inserted sequence holds the old keypoints and exactly one more. */
  lemma {:induction false} InsertSortedContents(s: seq<Keypoint>, kp: Keypoint)
    ensures multiset(InsertSorted(s, kp)) == multiset(s) + multiset{kp}
  {
    if |s| > 0 && Key(kp) >= Key(s[0]) {
      InsertSortedContents(s[1..], kp);
      assert s == [s[0]] + s[1..];
    }
  }

  lemma KeysIncreasingCons(h: Keypoint, t: seq<Keypoint>)
    requires KeysIncreasing(t) && forall e :: e in t ==> Key(h) < Key(e)
    ensures KeysIncreasing([h] + t)
  {
    var r := [h] + t;
    forall i, j | 0 <= i < j < |r|
      ensures Key(r[i]) < Key(r[j])
    {
      assert r[j] == t[j - 1];
      if i > 0 {
        assert r[i] == t[i - 1];
      } else {
        assert r[j] in t;
      }
    }
  }

  /** Inserting a fresh key keeps the keys strictly increasing. */
  lemma {:induction false} InsertSortedOrdered(s: seq<Keypoint>, kp: Keypoint)
    requires KeysIncreasing(s) && forall e :: e in s ==> Key(e) != Key(kp)
    ensures KeysIncreasing(InsertSorted(s, kp))
  {
    if |s| > 0 {
      KeysIncreasingTail(s);
      if Key(kp) < Key(s[0]) {
        assert s == [s[0]] + s[1..];
        KeysIncreasingCons(kp, s);
      } else {
        assert s[0] in s;
        var t := InsertSorted(s[1..], kp);
        InsertSortedOrdered(s[1..], kp);
        InsertSortedContents(s[1..], kp);
        forall e | e in t
          ensures Key(s[0]) < Key(e)
        {
          assert e in multiset(t);
        }
        KeysIncreasingCons(s[0], t);
      }
    }
  }

  /** Placed between the smaller and the larger keys, `kp` lands exactly there. */
  lemma {:induction false} InsertSortedSplit(a: seq<Keypoint>, b: seq<Keypoint>, kp: Keypoint)
    requires forall e :: e in a ==> Key(e) < Key(kp)
    requires forall e :: e in b ==> Key(kp) < Key(e)
    ensures InsertSorted(a + b, kp) == a + [kp] + b
  {
    if |a| == 0 {
      assert a + b == b;
      if |b| > 0 {
        assert b[0] in b;
      }
    } else {
      assert (a + b)[0] == a[0] && (a + b)[1..] == a[1..] + b;
      assert a[0] in a;
      InsertSortedSplit(a[1..], b, kp);
      assert a + [kp] + b == [a[0]] + (a[1..] + [kp] + b);
    }
  }

  /** Keys are unique: distinct insertion indices below 2^44 give distinct
      keys, and equal end frames are ordered by insertion index. */
  lemma KeyOrder(a: Keypoint, b: Keypoint)
    requires a.index < IndexSpan && b.index < IndexSpan
    ensures Key(a) == Key(b) <==> a.end == b.end && a.index == b.index
    ensures Key(a) < Key(b) <==> a.end < b.end || (a.end == b.end && a.index < b.index)
  {
    if a.end < b.end {
      assert a.end * IndexSpan + IndexSpan <= b.end * IndexSpan;
    } else if b.end < a.end {
      assert b.end * IndexSpan + IndexSpan <= a.end * IndexSpan;
    }
  }

  /** A keypoint carrying the next insertion index has a key of its own, and
      inserting it keeps keys increasing and indices below the next counter. */
  lemma FreshInsert(s: seq<Keypoint>, kp: Keypoint, n: nat)
    requires KeysIncreasing(s) && (forall e :: e in s ==> e.index < n)
    requires kp.index == n && n < IndexSpan
    ensures forall e :: e in s ==> Key(e) != Key(kp)
    ensures KeysIncreasing(InsertSorted(s, kp))
    ensures forall e :: e in InsertSorted(s, kp) ==> e.index < n + 1
  {
    forall e | e in s
      ensures Key(e) != Key(kp)
    {
      KeyOrder(e, kp);
    }
    InsertSortedOrdered(s, kp);
    InsertSortedContents(s, kp);
    forall e | e in InsertSorted(s, kp)
      ensures e.index < n + 1
    {
      assert e in multiset(InsertSorted(s, kp));
    }
  }

  /** Two steps of a zipper describe the same in-order sequence as one step
      with the focus plugged into its parent. */
  lemma ZipStep(x: Tree, path: seq<Frame>)
    requires |path| > 0
    ensures Before(path) + Elems(x) + After(path)
         == Before(path[..|path| - 1]) + Elems(Plug(x, path[|path| - 1])) + After(path[..|path| - 1])
  {
  }

  /** Pushing a frame moves the parent and the sibling subtree to the side
      of the focus they lie on. */
  lemma PushFrame(path: seq<Frame>, f: Frame)
    ensures Before(path + [f]) == Before(path) + (if f.toRight then Elems(f.sibling) + [f.kp] else [])
    ensures After(path + [f]) == (if f.toRight then [] else [f.kp] + Elems(f.sibling)) + After(path)
  {
    assert (path + [f])[..|path|] == path;
  }

  lemma PathPrefix(path: seq<Frame>, n: nat)
    requires n <= |path|
    ensures path[..n][..n] == path[..n]
    ensures n > 0 ==> path[..n][..n - 1] == path[..n - 1]
  {
  }

  /** No keypoint of `s` at or above `key` touches `q`. */
  predicate NoMatchFrom(s: seq<Keypoint>, key: int, q: set<nat>)
  {
    forall e :: e in s && Key(e) >= key ==> !Matches(e, q)
  }

  /** No keypoint of `s` at or below `key` touches `q`. */
  predicate NoMatchUpTo(s: seq<Keypoint>, key: int, q: set<nat>)
  {
    forall e :: e in s && Key(e) <= key ==> !Matches(e, q)
  }

  /** One more than the largest key of `s`. */
  function KeyBound(s: seq<Keypoint>): (b: nat)
    ensures forall e :: e in s ==> Key(e) < b
  {
    if |s| == 0 then 0
    else
      var b := KeyBound(s[1..]);
      assert s == [s[0]] + s[1..];
      if Key(s[0]) < b then b else Key(s[0]) + 1
  }

  /** The subtree that a rotation case of the insertion fix-up leaves in
      place of the grandparent `z` of the red node `x` whose red parent is `y`
      and whose uncle is absent or black: an inner `x` is first rotated above
      `y`, then the grandparent is rotated towards the uncle, and the new top
      is coloured black and the old grandparent red. */
  function FixRotate(x: Tree, y: Frame, z: Frame): Tree
    requires x.Node?
  {
    var dir := !z.toRight;
    var yt := if y.toRight == dir then Rotate(Plug(x, y), !dir) else Plug(x, y);
    RecolorTop(Rotate(Plug(yt, z), dir), dir)
  }

  lemma FixRotatePreserves(x: Tree, y: Frame, z: Frame)
    requires x.Node? && Augmented(x) && Augmented(y.sibling) && Augmented(z.sibling)
    ensures Elems(FixRotate(x, y, z)) == Elems(Plug(Plug(x, y), z))
    ensures Augmented(FixRotate(x, y, z))
  {
    var dir := !z.toRight;
    var yt := Plug(x, y);
    if y.toRight == dir {
      RotateElems(yt, !dir);
      RotateAugmented(yt, !dir);
      yt := Rotate(yt, !dir);
    }
    var zt := Plug(yt, z);
    RotateElems(zt, dir);
    RotateAugmented(zt, dir);
  }

  /** The recolouring case of the fix-up, with a red uncle: parent and uncle
      turn black, the grandparent red, and the grandparent's subtree becomes
      the new focus. */
  function FixRecolor(x: Tree, y: Frame, z: Frame): Tree
    requires z.sibling.Node?
  {
    Plug(Plug(x, y.(color := Black)), z.(color := Red, sibling := WithColor(z.sibling, Black)))
  }

  lemma FixRecolorPreserves(x: Tree, y: Frame, z: Frame)
    requires z.sibling.Node? && Augmented(x) && Augmented(y.sibling) && Augmented(z.sibling)
    ensures Elems(FixRecolor(x, y, z)) == Elems(Plug(Plug(x, y), z))
    ensures Augmented(FixRecolor(x, y, z))
  {
  }

  /** The frame and the child that the descent of `insert` steps to from `t`:
      right when the node's key is below the new key, left otherwise. */
  function NextFrame(t: Tree, kp: Keypoint): Frame
    requires t.Node?
  {
    if Key(t.kp) < Key(kp) then Frame(true, t.color, t.kp, t.left) else Frame(false, t.color, t.kp, t.right)
  }

  function Child(t: Tree, kp: Keypoint): Tree
    requires t.Node?
  {
    if Key(t.kp) < Key(kp) then t.right else t.left
  }

  /** What holds at each step of the descent of `insert` from `t0` towards
      the position of `kp`: the focus and path rebuild `t0`, the focus is an
      ordered subtree without the new key, and the keys before and after the
      focus lie below and above the new key. */
  predicate DescentInv(t0: Tree, t: Tree, path: seq<Frame>, kp: Keypoint)
  {
    Augmented(t) && SiblingsAugmented(path) && Zip(t, path) == t0 &&
    KeysIncreasing(Elems(t)) && (forall e :: e in Elems(t) ==> Key(e) != Key(kp)) &&
    (forall e :: e in Before(path) ==> Key(e) < Key(kp)) &&
    (forall e :: e in After(path) ==> Key(kp) < Key(e))
  }

  lemma DescentStart(t0: Tree, kp: Keypoint)
    requires ValidTree(t0) && forall e :: e in Elems(t0) ==> Key(e) != Key(kp)
    ensures DescentInv(t0, t0, [], kp)
  {
  }

  /** One step of the descent keeps the descent invariant and goes down. */
  lemma DescentStep(t0: Tree, t: Tree, path: seq<Frame>, kp: Keypoint)
    requires t.Node? && DescentInv(t0, t, path, kp)
    ensures DescentInv(t0, Child(t, kp), path + [NextFrame(t, kp)], kp)
    ensures Height(Child(t, kp)) < Height(t)
  {
    var f := NextFrame(t, kp);
    SiblingsAugmentedPush(path, f);
    assert (path + [f])[..|path|] == path;
    assert Plug(Child(t, kp), f) == t;
    assert t.kp in Elems(t);
    NodeKeys(t);
    PushFrame(path, f);
  }

  /** At the empty position, the old keypoints split around the new key. */
  lemma DescentDone(t0: Tree, t: Tree, path: seq<Frame>, kp: Keypoint)
    requires t.Leaf? && Zip(t, path) == t0
    requires forall e :: e in Before(path) ==> Key(e) < Key(kp)
    requires forall e :: e in After(path) ==> Key(kp) < Key(e)
    ensures Elems(t0) == Before(path) + After(path)
    ensures InsertSorted(Elems(t0), kp) == Before(path) + [kp] + After(path)
  {
    LeafElems(t, path);
    InsertSortedSplit(Before(path), After(path), kp);
  }

  /** The focus being empty, the keypoints are those before and after it. */
  lemma LeafElems(t: Tree, path: seq<Frame>)
    requires t.Leaf?
    ensures Elems(Zip(t, path)) == Before(path) + After(path)
  {
    ZipElems(t, path);
    assert Before(path) + Elems(t) + After(path) == Before(path) + After(path);
  }

  /** The descent of `insert`: the path from the root to the empty position
      where `kp` belongs. */
  method FindLeaf(t0: Tree, kp: Keypoint) returns (path: seq<Frame>)
    requires ValidTree(t0)
    requires forall e :: e in Elems(t0) ==> Key(e) != Key(kp)
    ensures SiblingsAugmented(path)
    ensures Elems(t0) == Before(path) + After(path)
    ensures InsertSorted(Elems(t0), kp) == Before(path) + [kp] + After(path)
  {
    var t := t0;
    path := [];
    DescentStart(t0, kp);
    while t.Node?
      invariant DescentInv(t0, t, path, kp)
      decreases Height(t)
    {
      DescentStep(t0, t, path, kp);
      path, t := path + [NextFrame(t, kp)], Child(t, kp);
    }
    DescentDone(t0, t, path, kp);
  }

  /** The fix-up loop of `insert`: while the focus's parent is red, recolour
      and move up, or rotate and stop. The in-order sequence and the
      augmentation invariant are kept throughout. */
  method Rebalance(x0: Tree, path0: seq<Frame>) returns (x: Tree, path: seq<Frame>)
    requires x0.Node? && Augmented(x0) && SiblingsAugmented(path0)
    ensures Augmented(x) && SiblingsAugmented(path)
    ensures Before(path) + Elems(x) + After(path) == Before(path0) + Elems(x0) + After(path0)
  {
    x, path := x0, path0;
    while |path| > 0 && path[|path| - 1].color == Red
      invariant x.Node? && Augmented(x) && SiblingsAugmented(path)
      invariant Before(path) + Elems(x) + After(path) == Before(path0) + Elems(x0) + After(path0)
      decreases |path|
    {
      var n := |path|;
      var y := path[n - 1];
      ZipStep(x, path);
      if n == 1 {
        path := [y.(color := Black)];
        break;
      }
      var z := path[n - 2];
      ZipStep(Plug(x, y), path[..n - 1]);
      PathPrefix(path, n - 1);
      SiblingsAugmentedPop(path, n - 2);
      assert Augmented(y.sibling) && Augmented(z.sibling) by {
        assert path[n - 1] == y && path[n - 2] == z;
      }
      if z.sibling.Leaf? || z.sibling.color == Black {
        FixRotatePreserves(x, y, z);
        x, path := FixRotate(x, y, z), path[..n - 2];
        break;
      }
      FixRecolorPreserves(x, y, z);
      x, path := FixRecolor(x, y, z), path[..n - 2];
    }
  }

  /** The tree part of `insert`: descend to the empty position of `kp`,
      attach it as a red leaf (black when the tree is empty), rebalance, and
      rebuild the path to the root. */
  method InsertTree(t: Tree, kp: Keypoint) returns (r: Tree)
    requires ValidTree(t)
    requires forall e :: e in Elems(t) ==> Key(e) != Key(kp)
    ensures Augmented(r) && Elems(r) == InsertSorted(Elems(t), kp)
  {
    if t.Leaf? {
      return MakeNode(Black, Leaf, kp, Leaf);
    }
    var path := FindLeaf(t, kp);
    var x := MakeNode(Red, Leaf, kp, Leaf);
    assert Elems(x) == [kp];
    ghost var target := Before(path) + Elems(x) + After(path);
    x, path := Rebalance(x, path);
    assert Augmented(Zip(x, path)) && Elems(Zip(x, path)) == target by {
      ZipElems(x, path);
      ZipAugmented(x, path);
    }
    r := Zip(x, path);
  }

  // ---------------------------------------------------------------------------
  // The searches, step by step

  /** Regroupings of the in-order sequence around the focus's keypoint and
      around the parent's keypoint. */
  lemma RegroupAround<T>(b: seq<T>, l: seq<T>, x: T, r: seq<T>, a: seq<T>)
    ensures b + (l + [x] + r) + a == (b + l) + ([x] + (r + a))
    ensures b + (l + [x] + r) + a == ((b + l) + [x]) + (r + a)
  {
  }

  lemma RegroupClimbLeft<T>(b: seq<T>, m: seq<T>, x: T, s: seq<T>, a: seq<T>)
    ensures b + m + ([x] + s + a) == (b + m) + [x] + (s + a)
  {
  }

  lemma RegroupClimbRight<T>(b: seq<T>, s: seq<T>, x: T, m: seq<T>, a: seq<T>)
    ensures (b + (s + [x])) + m + a == (b + s) + [x] + (m + a)
  {
  }

  /** The focus of a zipper over an ordered tree is ordered, and the whole
      sequence splits around it. */
  lemma FocusOrdered(x: Tree, path: seq<Frame>)
    requires KeysIncreasing(Elems(Zip(x, path)))
    ensures Elems(Zip(x, path)) == Before(path) + Elems(x) + After(path)
    ensures KeysIncreasing(Elems(x))
  {
    ZipElems(x, path);
    KeysIncreasingPrefix(Before(path) + Elems(x), After(path));
    KeysIncreasingSuffix(Before(path), Elems(x));
  }

  /** Walking up one step rebuilds the same tree, and keeps the siblings
      augmented and the focus augmented. */
  lemma ClimbZip(x: Tree, path: seq<Frame>)
    requires |path| > 0 && Augmented(x) && SiblingsAugmented(path)
    ensures Zip(Plug(x, path[|path| - 1]), path[..|path| - 1]) == Zip(x, path)
    ensures Augmented(Plug(x, path[|path| - 1])) && SiblingsAugmented(path[..|path| - 1])
  {
    assert Augmented(path[|path| - 1].sibling);
    SiblingsAugmentedPop(path, |path| - 1);
  }

  /** Walking down one step rebuilds the same tree. */
  lemma DescendZipTo(x: Tree, path: seq<Frame>, toRight: bool)
    requires x.Node? && Augmented(x) && SiblingsAugmented(path)
    ensures var f := if toRight then Frame(true, x.color, x.kp, x.left) else Frame(false, x.color, x.kp, x.right);
      var c := if toRight then x.right else x.left;
      Zip(c, path + [f]) == Zip(x, path) && Augmented(c) && SiblingsAugmented(path + [f]) &&
      Height(c) < Height(x) &&
      Before(path + [f]) == Before(path) + (if toRight then Elems(x.left) + [x.kp] else []) &&
      After(path + [f]) == (if toRight then [] else [x.kp] + Elems(x.right)) + After(path)
  {
    var f := if toRight then Frame(true, x.color, x.kp, x.left) else Frame(false, x.color, x.kp, x.right);
    SiblingsAugmentedPush(path, f);
    assert (path + [f])[..|path|] == path;
    PushFrame(path, f);
  }

  /** What holds at each step of `lookup_increasing` from `k0` over `t0`: the
      walk's zipper rebuilds the tree, the answer from the current key `k` is
      the answer from `k0`, nothing before the focus at or above `k` matches,
      and everything after the focus is above `k`. */
  predicate UpInv(t0: Tree, x: Tree, path: seq<Frame>, k: int, k0: int, q: set<nat>)
  {
    x.Node? && Augmented(x) && SiblingsAugmented(path) && Zip(x, path) == t0 &&
    KeysIncreasing(Elems(t0)) &&
    FirstFrom(Elems(t0), k, q) == FirstFrom(Elems(t0), k0, q) &&
    NoMatchFrom(Before(path), k, q) && (forall e :: e in After(path) ==> k < Key(e))
  }

  /** The climb of `lookup_increasing`: the focus's subtree has no match at or
      above `k` either. */
  predicate UpClimbInv(t0: Tree, x: Tree, path: seq<Frame>, k: int, k0: int, q: set<nat>)
  {
    x.Node? && Augmented(x) && SiblingsAugmented(path) && Zip(x, path) == t0 &&
    KeysIncreasing(Elems(t0)) &&
    FirstFrom(Elems(t0), k, q) == FirstFrom(Elems(t0), k0, q) &&
    NoMatchFrom(Before(path) + Elems(x), k, q) && (forall e :: e in After(path) ==> k < Key(e))
  }

  /** Nothing left of the focus's right subtree matches at or above `k`, given
      the tests that send `lookup_increasing` to the right subtree. */
  lemma UpLeftDone(x: Tree, k: int, q: set<nat>)
    requires x.Node? && Augmented(x) && KeysIncreasing(Elems(x))
    requires Key(x.kp) != k || !Matches(x.kp, q)
    requires k < Key(x.kp) ==> SubtreeMask(x.left) * q == {} && !Matches(x.kp, q)
    ensures NoMatchFrom(Elems(x.left) + [x.kp], k, q)
  {
    NodeKeys(x);
    if k < Key(x.kp) {
      PrunedSubtree(x.left, q);
    }
  }

  /** A matching focus at or above `k`, with nothing matching at or above `k`
      before it, is the answer. */
  lemma UpHit(t0: Tree, x: Tree, path: seq<Frame>, k: int, k0: int, q: set<nat>)
    requires UpInv(t0, x, path, k, k0, q) && Matches(x.kp, q) && k <= Key(x.kp)
    requires k < Key(x.kp) ==> SubtreeMask(x.left) * q == {}
    ensures FirstFrom(Elems(t0), k0, q) == Some(x.kp)
  {
    FocusOrdered(x, path);
    NodeKeys(x);
    if k < Key(x.kp) {
      PrunedSubtree(x.left, q);
    }
    var b, l, r, a := Before(path), Elems(x.left), Elems(x.right), After(path);
    assert Elems(x) == l + [x.kp] + r;
    RegroupAround(b, l, x.kp, r, a);
    FirstFromSkip(b + l, [x.kp] + (r + a), k, q);
  }

  lemma UpLeft(t0: Tree, x: Tree, path: seq<Frame>, k: int, k0: int, q: set<nat>)
    requires UpInv(t0, x, path, k, k0, q) && k < Key(x.kp) && x.left.Node?
    ensures UpInv(t0, x.left, path + [Frame(false, x.color, x.kp, x.right)], k, k0, q)
    ensures Height(x.left) < Height(x)
  {
    FocusOrdered(x, path);
    NodeKeys(x);
    DescendZipTo(x, path, false);
  }

  lemma UpRight(t0: Tree, x: Tree, path: seq<Frame>, k: int, k0: int, q: set<nat>)
    requires UpInv(t0, x, path, k, k0, q) && x.right.Node?
    requires NoMatchFrom(Elems(x.left) + [x.kp], k, q)
    ensures UpInv(t0, x.right, path + [Frame(true, x.color, x.kp, x.left)], k, k0, q)
    ensures Height(x.right) < Height(x)
  {
    DescendZipTo(x, path, true);
  }

  lemma UpClimbStart(t0: Tree, x: Tree, path: seq<Frame>, k: int, k0: int, q: set<nat>)
    requires UpInv(t0, x, path, k, k0, q) && SubtreeMask(x.right) * q == {}
    requires NoMatchFrom(Elems(x.left) + [x.kp], k, q)
    ensures UpClimbInv(t0, x, path, k, k0, q)
  {
    PrunedSubtree(x.right, q);
  }

  lemma UpClimbRight(t0: Tree, x: Tree, path: seq<Frame>, k: int, k0: int, q: set<nat>)
    requires UpClimbInv(t0, x, path, k, k0, q) && |path| > 0 && path[|path| - 1].toRight
    ensures UpClimbInv(t0, Plug(x, path[|path| - 1]), path[..|path| - 1], k, k0, q)
  {
    ClimbZip(x, path);
  }

  lemma UpClimbNone(t0: Tree, x: Tree, path: seq<Frame>, k: int, k0: int, q: set<nat>)
    requires UpClimbInv(t0, x, path, k, k0, q) && |path| == 0
    ensures FirstFrom(Elems(t0), k0, q) == None
  {
    assert Elems(t0) + [] == Elems(t0);
    FirstFromSkip(Elems(t0), [], k, q);
  }

  /** Arriving from the left at an ancestor, the search restarts from the
      ancestor's key, which is larger than the current one. */
  lemma UpClimbLeft(t0: Tree, x: Tree, path: seq<Frame>, k: int, k0: int, q: set<nat>)
    requires UpClimbInv(t0, x, path, k, k0, q) && |path| > 0 && !path[|path| - 1].toRight
    ensures var f := path[|path| - 1];
      UpInv(t0, Plug(x, f), path[..|path| - 1], Key(f.kp), k0, q) &&
      k < Key(f.kp) < KeyBound(Elems(t0))
  {
    var f := path[|path| - 1];
    var init := path[..|path| - 1];
    ClimbZip(x, path);
    ZipElems(x, path);
    assert Before(path) == Before(init);
    assert After(path) == [f.kp] + Elems(f.sibling) + After(init);
    assert f.kp in After(path);
    RegroupClimbLeft(Before(init), Elems(x), f.kp, Elems(f.sibling), After(init));
    UpClimbSeq(Before(init), Elems(x), f.kp, Elems(f.sibling), After(init), k, k0, q);
  }

  /** The sequence reasoning of `UpClimbLeft`: `b + m` is what lies before the
      parent `kp`, `s + a` what lies after it. */
  lemma UpClimbSeq(b: seq<Keypoint>, m: seq<Keypoint>, kp: Keypoint, s: seq<Keypoint>,
                   a: seq<Keypoint>, k: int, k0: int, q: set<nat>)
    requires KeysIncreasing((b + m) + [kp] + (s + a))
    requires FirstFrom((b + m) + [kp] + (s + a), k, q) == FirstFrom((b + m) + [kp] + (s + a), k0, q)
    requires NoMatchFrom(b + m, k, q) && k < Key(kp)
    ensures FirstFrom((b + m) + [kp] + (s + a), Key(kp), q) == FirstFrom((b + m) + [kp] + (s + a), k0, q)
    ensures NoMatchFrom(b, Key(kp), q)
    ensures forall e :: e in a ==> Key(kp) < Key(e)
  {
    KeysAround(b + m, kp, s + a);
    assert (b + m) + [kp] + (s + a) == (b + m) + ([kp] + (s + a));
    FirstFromSkip(b + m, [kp] + (s + a), k, q);
    FirstFromSkip(b + m, [kp] + (s + a), Key(kp), q);
    FirstFromRaise([kp] + (s + a), k, Key(kp), q);
  }

  /** The same for `lookup_decreasing`, mirrored. */
  predicate DownInv(t0: Tree, x: Tree, path: seq<Frame>, k: int, k0: int, q: set<nat>)
  {
    x.Node? && Augmented(x) && SiblingsAugmented(path) && Zip(x, path) == t0 &&
    KeysIncreasing(Elems(t0)) &&
    LastUpTo(Elems(t0), k, q) == LastUpTo(Elems(t0), k0, q) &&
    NoMatchUpTo(After(path), k, q) && (forall e :: e in Before(path) ==> Key(e) < k)
  }

  predicate DownClimbInv(t0: Tree, x: Tree, path: seq<Frame>, k: int, k0: int, q: set<nat>)
  {
    x.Node? && Augmented(x) && SiblingsAugmented(path) && Zip(x, path) == t0 &&
    KeysIncreasing(Elems(t0)) &&
    LastUpTo(Elems(t0), k, q) == LastUpTo(Elems(t0), k0, q) &&
    NoMatchUpTo(Elems(x) + After(path), k, q) && (forall e :: e in Before(path) ==> Key(e) < k)
  }

  lemma DownRightDone(x: Tree, k: int, q: set<nat>)
    requires x.Node? && Augmented(x) && KeysIncreasing(Elems(x))
    requires Key(x.kp) != k || !Matches(x.kp, q)
    requires k > Key(x.kp) ==> SubtreeMask(x.right) * q == {} && !Matches(x.kp, q)
    ensures NoMatchUpTo([x.kp] + Elems(x.right), k, q)
  {
    NodeKeys(x);
    if k > Key(x.kp) {
      PrunedSubtree(x.right, q);
    }
  }

  lemma DownHit(t0: Tree, x: Tree, path: seq<Frame>, k: int, k0: int, q: set<nat>)
    requires DownInv(t0, x, path, k, k0, q) && Matches(x.kp, q) && Key(x.kp) <= k
    requires k > Key(x.kp) ==> SubtreeMask(x.right) * q == {}
    ensures LastUpTo(Elems(t0), k0, q) == Some(x.kp)
  {
    FocusOrdered(x, path);
    NodeKeys(x);
    if k > Key(x.kp) {
      PrunedSubtree(x.right, q);
    }
    var b, l, r, a := Before(path), Elems(x.left), Elems(x.right), After(path);
    assert Elems(x) == l + [x.kp] + r;
    RegroupAround(b, l, x.kp, r, a);
    LastUpToSkip((b + l) + [x.kp], r + a, k, q);
  }

  lemma DownRight(t0: Tree, x: Tree, path: seq<Frame>, k: int, k0: int, q: set<nat>)
    requires DownInv(t0, x, path, k, k0, q) && k > Key(x.kp) && x.right.Node?
    ensures DownInv(t0, x.right, path + [Frame(true, x.color, x.kp, x.left)], k, k0, q)
    ensures Height(x.right) < Height(x)
  {
    FocusOrdered(x, path);
    NodeKeys(x);
    DescendZipTo(x, path, true);
  }

  lemma DownLeft(t0: Tree, x: Tree, path: seq<Frame>, k: int, k0: int, q: set<nat>)
    requires DownInv(t0, x, path, k, k0, q) && x.left.Node?
    requires NoMatchUpTo([x.kp] + Elems(x.right), k, q)
    ensures DownInv(t0, x.left, path + [Frame(false, x.color, x.kp, x.right)], k, k0, q)
    ensures Height(x.left) < Height(x)
  {
    DescendZipTo(x, path, false);
  }

  lemma DownClimbStart(t0: Tree, x: Tree, path: seq<Frame>, k: int, k0: int, q: set<nat>)
    requires DownInv(t0, x, path, k, k0, q) && SubtreeMask(x.left) * q == {}
    requires NoMatchUpTo([x.kp] + Elems(x.right), k, q)
    ensures DownClimbInv(t0, x, path, k, k0, q)
  {
    PrunedSubtree(x.left, q);
  }

  lemma DownClimbLeft(t0: Tree, x: Tree, path: seq<Frame>, k: int, k0: int, q: set<nat>)
    requires DownClimbInv(t0, x, path, k, k0, q) && |path| > 0 && !path[|path| - 1].toRight
    ensures DownClimbInv(t0, Plug(x, path[|path| - 1]), path[..|path| - 1], k, k0, q)
  {
    ClimbZip(x, path);
  }

  lemma DownClimbNone(t0: Tree, x: Tree, path: seq<Frame>, k: int, k0: int, q: set<nat>)
    requires DownClimbInv(t0, x, path, k, k0, q) && |path| == 0
    ensures LastUpTo(Elems(t0), k0, q) == None
  {
    assert [] + (Elems(t0) + []) == Elems(t0);
    LastUpToSkip([], Elems(t0) + [], k, q);
  }

  /** Arriving from the right at an ancestor, the search restarts from the
      ancestor's key, which is smaller than the current one. */
  lemma DownClimbRight(t0: Tree, x: Tree, path: seq<Frame>, k: int, k0: int, q: set<nat>)
    requires DownClimbInv(t0, x, path, k, k0, q) && |path| > 0 && path[|path| - 1].toRight
    ensures var f := path[|path| - 1];
      DownInv(t0, Plug(x, f), path[..|path| - 1], Key(f.kp), k0, q) &&
      0 <= Key(f.kp) < k
  {
    var f := path[|path| - 1];
    var init := path[..|path| - 1];
    ClimbZip(x, path);
    ZipElems(x, path);
    assert Before(path) == Before(init) + (Elems(f.sibling) + [f.kp]);
    assert After(path) == After(init);
    assert f.kp in Before(path);
    RegroupClimbRight(Before(init), Elems(f.sibling), f.kp, Elems(x), After(init));
    DownClimbSeq(Before(init), Elems(f.sibling), f.kp, Elems(x), After(init), k, k0, q);
  }

  /** The sequence reasoning of `DownClimbRight`: `b + s` is what lies before
      the parent `kp`, `m + a` what lies after it. */
  lemma DownClimbSeq(b: seq<Keypoint>, s: seq<Keypoint>, kp: Keypoint, m: seq<Keypoint>,
                     a: seq<Keypoint>, k: int, k0: int, q: set<nat>)
    requires KeysIncreasing((b + s) + [kp] + (m + a))
    requires LastUpTo((b + s) + [kp] + (m + a), k, q) == LastUpTo((b + s) + [kp] + (m + a), k0, q)
    requires NoMatchUpTo(m + a, k, q) && Key(kp) < k
    ensures LastUpTo((b + s) + [kp] + (m + a), Key(kp), q) == LastUpTo((b + s) + [kp] + (m + a), k0, q)
    ensures NoMatchUpTo(a, Key(kp), q)
    ensures forall e :: e in b ==> Key(e) < Key(kp)
  {
    KeysAround(b + s, kp, m + a);
    LastUpToSkip((b + s) + [kp], m + a, k, q);
    LastUpToSkip((b + s) + [kp], m + a, Key(kp), q);
    LastUpToLower((b + s) + [kp], k, Key(kp), q);
  }

  /** `LEDSignKeypointList`: the tree and the counter that hands out insertion
      indices. */
  class KeypointList {
    var root: Tree
    var index: nat

    /** Order with unique keys, correct cached masks, every stored insertion
        index below the counter, and the counter within the 44 bits of the key. */
    ghost predicate Valid()
      reads this
    {
      ValidTree(root) && (forall e :: e in Elems(root) ==> e.index < index) && index <= IndexSpan
    }

    constructor ()
      ensures Valid() && root == Leaf && index == 0
    {
      root := Leaf;
      index := 0;
    }

    /** `clear`: the tree is emptied; the insertion counter is kept. */
    method Clear()
      requires Valid()
      modifies this
      ensures Valid() && root == Leaf && index == old(index)
    {
      root := Leaf;
    }

    /** `insert`: the keypoint receives the next insertion index and is placed
        among the others in key order; the tree stays ordered and augmented. */
    method Insert(kp0: Keypoint)
      requires Valid() && index < IndexSpan
      modifies this
      ensures Valid() && index == old(index) + 1
      ensures Elems(root) == InsertSorted(old(Elems(root)), kp0.(index := old(index)))
    {
      var kp := kp0.(index := index);
      FreshInsert(Elems(root), kp, index);
      var r := InsertTree(root, kp);
      root, index := r, index + 1;
    }

    /** `lookup_increasing`: the first keypoint in key order with key at least
        `key` whose mask meets `q`, or nothing. Subtrees whose cached mask
        misses `q` are skipped; on the way back up, the walk restarts from the
        key of the first ancestor reached from its left child. */
    method LookupIncreasing(key: int, q: set<nat>) returns (r: Option<Keypoint>)
      requires Valid()
      ensures r == FirstFrom(Elems(root), key, q)
    {
      if root.Leaf? {
        return None;
      }
      ghost var bound := KeyBound(Elems(root));
      var x, path, k := root, [], key;
      while Key(x.kp) != k || !Matches(x.kp, q)
        invariant UpInv(root, x, path, k, key, q)
        decreases if k <= bound then bound - k else 0, Height(x)
      {
        if k < Key(x.kp) {
          if x.left.Node? && SubtreeMask(x.left) * q != {} {
            UpLeft(root, x, path, k, key, q);
            path, x := path + [Frame(false, x.color, x.kp, x.right)], x.left;
            continue;
          }
          if Matches(x.kp, q) {
            UpHit(root, x, path, k, key, q);
            return Some(x.kp);
          }
        }
        FocusOrdered(x, path);
        UpLeftDone(x, k, q);
        if x.right.Node? && SubtreeMask(x.right) * q != {} {
          UpRight(root, x, path, k, key, q);
          path, x := path + [Frame(true, x.color, x.kp, x.left)], x.right;
          continue;
        }
        UpClimbStart(root, x, path, k, key, q);
        while |path| > 0 && path[|path| - 1].toRight
          invariant UpClimbInv(root, x, path, k, key, q)
          decreases |path|
        {
          UpClimbRight(root, x, path, k, key, q);
          x, path := Plug(x, path[|path| - 1]), path[..|path| - 1];
        }
        if |path| == 0 {
          UpClimbNone(root, x, path, k, key, q);
          return None;
        }
        UpClimbLeft(root, x, path, k, key, q);
        x, path, k := Plug(x, path[|path| - 1]), path[..|path| - 1], Key(path[|path| - 1].kp);
      }
      UpHit(root, x, path, k, key, q);
      return Some(x.kp);
    }

    /** `lookup_decreasing`: the last keypoint in key order with key at most
        `key` whose mask meets `q`, or nothing; the mirror image of
        `LookupIncreasing`. */
    method LookupDecreasing(key: int, q: set<nat>) returns (r: Option<Keypoint>)
      requires Valid()
      ensures r == LastUpTo(Elems(root), key, q)
    {
      if root.Leaf? {
        return None;
      }
      var x, path, k := root, [], key;
      while Key(x.kp) != k || !Matches(x.kp, q)
        invariant DownInv(root, x, path, k, key, q)
        decreases if k < 0 then 0 else k + 1, Height(x)
      {
        if k > Key(x.kp) {
          if x.right.Node? && SubtreeMask(x.right) * q != {} {
            DownRight(root, x, path, k, key, q);
            path, x := path + [Frame(true, x.color, x.kp, x.left)], x.right;
            continue;
          }
          if Matches(x.kp, q) {
            DownHit(root, x, path, k, key, q);
            return Some(x.kp);
          }
        }
        FocusOrdered(x, path);
        DownRightDone(x, k, q);
        if x.left.Node? && SubtreeMask(x.left) * q != {} {
          DownLeft(root, x, path, k, key, q);
          path, x := path + [Frame(false, x.color, x.kp, x.right)], x.left;
          continue;
        }
        DownClimbStart(root, x, path, k, key, q);
        while |path| > 0 && !path[|path| - 1].toRight
          invariant DownClimbInv(root, x, path, k, key, q)
          decreases |path|
        {
          DownClimbLeft(root, x, path, k, key, q);
          x, path := Plug(x, path[|path| - 1]), path[..|path| - 1];
        }
        if |path| == 0 {
          DownClimbNone(root, x, path, k, key, q);
          return None;
        }
        DownClimbRight(root, x, path, k, key, q);
        x, path, k := Plug(x, path[|path| - 1]), path[..|path| - 1], Key(path[|path| - 1].kp);
      }
      DownHit(root, x, path, k, key, q);
      return Some(x.kp);
    }

    /** `iterate`: every keypoint whose mask meets `q`, in key order, found by
        repeated `LookupIncreasing` from one past the last key returned. */
    method Iterate(q: set<nat>) returns (out: seq<Keypoint>)
      requires Valid()
      ensures out == Selected(Elems(root), q)
    {
      ghost var s := Elems(root);
      var k := 0;
      var entry := LookupIncreasing(k, q);
      SelectedBelowNone(s, 0, q);
      out := [];
      SelectedBelowLength(s, 0, q);
      while entry.Some?
        invariant entry == FirstFrom(s, k, q) && out == SelectedBelow(s, k, q)
        invariant |out| <= |Selected(s, q)|
        decreases |Selected(s, q)| - |out|
      {
        SelectedBelowNext(s, k, q);
        SelectedBelowLength(s, Key(entry.value) + 1, q);
        out := out + [entry.value];
        k := Key(entry.value) + 1;
        entry := LookupIncreasing(k, q);
      }
      SelectedBelowDone(s, k, q);
    }
  }
}
