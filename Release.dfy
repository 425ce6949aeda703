/** C `liberarArvore`: the post-order release of a room tree. `free` itself is not modelled;
    the release is described by the order in which it reaches the rooms. */
module Release {
  import opened Rooms

  /** The rooms below `r` in post-order: left subtree, right subtree, then the room itself. */
  ghost function PostOrder(r: Room?, D: set<Room>): seq<Room>
    reads D
    decreases D
  {
    if r == null || r !in D then []
    else PostOrder(r.left, D - {r}) + PostOrder(r.right, D - {r}) + [r]
  }

  /** The rooms occurring in `s`. */
  ghost function Visited(s: seq<Room>): set<Room> {
    set x | x in s
  }

  /** No room occurs twice. */
  ghost predicate NoDuplicates(s: seq<Room>) {
    forall i, j :: 0 <= i < j < |s| ==> s[i] != s[j]
  }

  /** Every room comes after both of its children. */
  ghost predicate ChildrenFirst(s: seq<Room>)
    reads set k | 0 <= k < |s| :: s[k]
  {
    forall j :: 0 <= j < |s| ==>
      (s[j].left != null ==> s[j].left in s[..j]) &&
      (s[j].right != null ==> s[j].right in s[..j])
  }

  lemma NoDuplicatesAppend(a: seq<Room>, b: seq<Room>)
    requires NoDuplicates(a) && NoDuplicates(b)
    requires Visited(a) !! Visited(b)
    ensures NoDuplicates(a + b)
  {
    forall i, j | 0 <= i < j < |a + b|
      ensures (a + b)[i] != (a + b)[j]
    {
      if j < |a| {
      } else if i >= |a| {
        assert (a + b)[i] == b[i - |a|] && (a + b)[j] == b[j - |a|];
      } else {
        assert (a + b)[i] in Visited(a) && (a + b)[j] in Visited(b);
      }
    }
  }

  /** The release reaches exactly the rooms of the tree, as many as the tree has nodes, and the
      root last. */
  lemma {:induction false} PostOrderVisited(r: Room?, D: set<Room>)
    requires IsTree(r, D)
    ensures Visited(PostOrder(r, D)) == Footprint(r, D)
    ensures |PostOrder(r, D)| == Size(Subtree(r, D))
    ensures r != null ==> PostOrder(r, D) != [] && PostOrder(r, D)[|PostOrder(r, D)| - 1] == r
    decreases D
  {
    if r != null {
      var D' := D - {r};
      PostOrderVisited(r.left, D');
      PostOrderVisited(r.right, D');
      var L, R := PostOrder(r.left, D'), PostOrder(r.right, D');
      assert Visited(L + R + [r]) == Visited(L) + Visited(R) + {r};
    }
  }

  /** The release reaches no room twice. */
  lemma {:induction false} PostOrderOnce(r: Room?, D: set<Room>)
    requires IsTree(r, D)
    ensures NoDuplicates(PostOrder(r, D))
    decreases D
  {
    if r != null {
      var D' := D - {r};
      PostOrderOnce(r.left, D');
      PostOrderOnce(r.right, D');
      PostOrderVisited(r.left, D');
      PostOrderVisited(r.right, D');
      FootprintWithin(r.left, D');
      FootprintWithin(r.right, D');
      var L, R := PostOrder(r.left, D'), PostOrder(r.right, D');
      NoDuplicatesAppend(L, R);
      assert Visited(L + R) == Visited(L) + Visited(R);
      NoDuplicatesAppend(L + R, [r]);
    }
  }

  lemma ChildrenFirstAppend(a: seq<Room>, b: seq<Room>)
    requires ChildrenFirst(a) && ChildrenFirst(b)
    ensures ChildrenFirst(a + b)
  {
    var s := a + b;
    forall j | 0 <= j < |s|
      ensures s[j].left != null ==> s[j].left in s[..j]
      ensures s[j].right != null ==> s[j].right in s[..j]
    {
      if j < |a| {
        assert s[j] == a[j] && s[..j] == a[..j];
      } else {
        var k := j - |a|;
        assert s[j] == b[k] && s[..j] == a + b[..k];
      }
    }
  }

  lemma ChildrenFirstSnoc(a: seq<Room>, r: Room)
    requires ChildrenFirst(a)
    requires r.left != null ==> r.left in a
    requires r.right != null ==> r.right in a
    ensures ChildrenFirst(a + [r])
  {
    var s := a + [r];
    forall j | 0 <= j < |s|
      ensures s[j].left != null ==> s[j].left in s[..j]
      ensures s[j].right != null ==> s[j].right in s[..j]
    {
      if j < |a| {
        assert s[j] == a[j] && s[..j] == a[..j];
      } else {
        assert s[j] == r && s[..j] == a;
      }
    }
  }

  /** No room is released before either of its children. */
  lemma {:induction false} PostOrderChildrenFirst(r: Room?, D: set<Room>)
    requires IsTree(r, D)
    ensures ChildrenFirst(PostOrder(r, D))
    decreases D
  {
    if r != null {
      var D' := D - {r};
      PostOrderChildrenFirst(r.left, D');
      PostOrderChildrenFirst(r.right, D');
      PostOrderVisited(r.left, D');
      PostOrderVisited(r.right, D');
      var L, R := PostOrder(r.left, D'), PostOrder(r.right, D');
      ChildrenFirstAppend(L, R);
      ChildrenFirstSnoc(L + R, r);
    }
  }

  /** C `liberarArvore(raiz)`: releases the left subtree, then the right one, then the room;
      nothing on null. Returns the rooms in the order they are released: every room of the tree
      once, each after both of its children. */
  method ReleaseTree(raiz: Room?, ghost D: set<Room>) returns (freed: seq<Room>)
    requires IsTree(raiz, D)
    ensures freed == PostOrder(raiz, D)
    ensures Visited(freed) == Footprint(raiz, D)
    ensures NoDuplicates(freed) && ChildrenFirst(freed)
    ensures |freed| == Size(Subtree(raiz, D))
    decreases D
  {
    if raiz == null {
      return [];
    }
    var l := ReleaseTree(raiz.left, D - {raiz});
    var r := ReleaseTree(raiz.right, D - {raiz});
    freed := l + r + [raiz];
    PostOrderVisited(raiz, D);
    PostOrderOnce(raiz, D);
    PostOrderChildrenFirst(raiz, D);
  }
}
