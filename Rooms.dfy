/** The rooms of the mansion: the node class the program allocates and wires,
    and the pure binary tree that a well-formed group of rooms stands for. */
module Rooms {

  /** A direction of travel from a room: `e` (esquerda) or `d` (direita). */
  datatype Dir = Left | Right

  /** The value view of a room and everything below it. */
  datatype Tree = Nil | Node(name: string, left: Tree, right: Tree) {

    /** A leaf is a room with neither child: exploration stops there. */
    predicate IsLeaf() {
      Node? && left.Nil? && right.Nil?
    }

    function Child(d: Dir): Tree
      requires Node?
    {
      match d
      case Left => left
      case Right => right
    }
  }

  /** Number of rooms in a tree. */
  function Size(t: Tree): nat {
    match t
    case Nil => 0
    case Node(_, l, r) => 1 + Size(l) + Size(r)
  }

  /** Number of leaf rooms in a tree. */
  function LeafCount(t: Tree): nat {
    match t
    case Nil => 0
    case Node(_, l, r) => if t.IsLeaf() then 1 else LeafCount(l) + LeafCount(r)
  }

  /** Number of rooms on the longest downward path. */
  function Height(t: Tree): nat {
    match t
    case Nil => 0
    case Node(_, l, r) => 1 + (if Height(l) < Height(r) then Height(r) else Height(l))
  }

  /** The subtree reached by following `p` from the top of `t` (Nil once the path leaves the tree). */
  function SubAt(t: Tree, p: seq<Dir>): Tree
    decreases |p|
  {
    if p == [] || t.Nil? then t else SubAt(t.Child(p[0]), p[1..])
  }

  lemma {:induction false} SubAtSnoc(t: Tree, p: seq<Dir>, d: Dir)
    requires SubAt(t, p).Node?
    ensures SubAt(t, p + [d]) == SubAt(t, p).Child(d)
    decreases |p|
  {
    if p == [] {
      assert [] + [d] == [d];
    } else {
      assert (p + [d])[1..] == p[1..] + [d];
      SubAtSnoc(t.Child(p[0]), p[1..], d);
    }
  }

  lemma {:induction false} SubAtAppend(t: Tree, p: seq<Dir>, q: seq<Dir>)
    ensures SubAt(t, p + q) == SubAt(SubAt(t, p), q)
    decreases |p|
  {
    if p == [] {
      assert [] + q == q;
    } else if t.Node? {
      assert (p + q)[1..] == p[1..] + q;
      SubAtAppend(t.Child(p[0]), p[1..], q);
    } else {
      assert SubAt(Nil, q) == Nil by { if q != [] { } }
    }
  }

  /** C `struct Sala`: a name of fewer than 50 characters and two child pointers. */
  class Room {
    var name: string
    var left: Room?
    var right: Room?

    /** C `criarSala`: a fresh room with the given name and no children. */
    constructor (nome: string)
      requires |nome| < 50
      ensures name == nome && left == null && right == null
    {
      name := nome;
      left := null;
      right := null;
    }
  }

  function ChildPtr(r: Room, d: Dir): Room?
    reads r
  {
    match d
    case Left => r.left
    case Right => r.right
  }

  /** C `conectarSalas`: sets both children of `principal`; nothing happens when it is null. */
  method Connect(principal: Room?, esquerda: Room?, direita: Room?)
    modifies principal
    ensures principal != null ==> principal.left == esquerda && principal.right == direita
    ensures principal != null ==> principal.name == old(principal.name)
  {
    if principal != null {
      principal.left := esquerda;
      principal.right := direita;
    }
  }

  /** The rooms reachable from `r` inside the domain `D`; each step down leaves the parent behind. */
  ghost function Footprint(r: Room?, D: set<Room>): set<Room>
    reads D
    decreases D
  {
    if r == null || r !in D then {}
    else {r} + Footprint(r.left, D - {r}) + Footprint(r.right, D - {r})
  }

  /** `r` heads a strict binary tree inside `D`: every reachable room is in `D`, no room is its own
      descendant (the domain shrinks on the way down) and the two subtrees of a room share no room. */
  ghost predicate IsTree(r: Room?, D: set<Room>)
    reads D
    decreases D
  {
    r == null ||
    (r in D &&
     IsTree(r.left, D - {r}) && IsTree(r.right, D - {r}) &&
     Footprint(r.left, D - {r}) !! Footprint(r.right, D - {r}))
  }

  /** The value view of the rooms below `r`. */
  ghost function Subtree(r: Room?, D: set<Room>): Tree
    reads D
    decreases D
  {
    if r == null || r !in D then Nil
    else Node(r.name, Subtree(r.left, D - {r}), Subtree(r.right, D - {r}))
  }

  /** A room with no children heads a one-room tree. */
  lemma LeafTree(r: Room, D: set<Room>)
    requires r in D && r.left == null && r.right == null
    ensures IsTree(r, D) && Footprint(r, D) == {r} && Subtree(r, D) == Node(r.name, Nil, Nil)
  {
    assert IsTree(r.left, D - {r}) && IsTree(r.right, D - {r});
    assert Footprint(r.left, D - {r}) == {} && Footprint(r.right, D - {r}) == {};
    assert Subtree(r.left, D - {r}) == Nil && Subtree(r.right, D - {r}) == Nil;
  }

  /** A room whose two subtrees are trees sharing no room heads a tree. */
  lemma JoinTree(r: Room, D: set<Room>)
    requires r in D && IsTree(r.left, D - {r}) && IsTree(r.right, D - {r})
    requires Footprint(r.left, D - {r}) !! Footprint(r.right, D - {r})
    ensures IsTree(r, D)
    ensures Footprint(r, D) == {r} + Footprint(r.left, D - {r}) + Footprint(r.right, D - {r})
    ensures Subtree(r, D) == Node(r.name, Subtree(r.left, D - {r}), Subtree(r.right, D - {r}))
  {
  }

  /** C `conectarSalas` on a room outside two disjoint trees: the room becomes the root of a tree
      made of itself and both trees, whose view has the room's name above the two trees' views. */
  method ConnectTrees(principal: Room, esquerda: Room?, direita: Room?, ghost E: set<Room>)
    requires principal !in E && IsTree(esquerda, E) && IsTree(direita, E)
    requires Footprint(esquerda, E) !! Footprint(direita, E)
    modifies principal
    ensures IsTree(principal, E + {principal})
    ensures Footprint(principal, E + {principal}) == {principal} + Footprint(esquerda, E) + Footprint(direita, E)
    ensures Subtree(principal, E + {principal})
         == Node(old(principal.name), old(Subtree(esquerda, E)), old(Subtree(direita, E)))
  {
    Connect(principal, esquerda, direita);
    assert (E + {principal}) - {principal} == E;
    JoinTree(principal, E + {principal});
  }

  lemma {:induction false} FootprintWithin(r: Room?, D: set<Room>)
    ensures Footprint(r, D) <= D
    decreases D
  {
    if r != null && r in D {
      FootprintWithin(r.left, D - {r});
      FootprintWithin(r.right, D - {r});
    }
  }

  /** The room reached by following the pointers named by `p` from `r` (null once a pointer is null). */
  ghost function Follow(r: Room?, p: seq<Dir>, D: set<Room>): Room?
    reads D
    decreases |p|
  {
    if p == [] || r == null || r !in D then r else Follow(ChildPtr(r, p[0]), p[1..], D)
  }

  lemma {:induction false} FollowSnoc(r: Room?, p: seq<Dir>, d: Dir, D: set<Room>)
    requires Follow(r, p, D) != null && Follow(r, p, D) in D
    ensures Follow(r, p + [d], D) == ChildPtr(Follow(r, p, D), d)
    decreases |p|
  {
    if p == [] {
      assert [] + [d] == [d];
    } else {
      assert (p + [d])[1..] == p[1..] + [d];
      FollowSnoc(ChildPtr(r, p[0]), p[1..], d, D);
    }
  }
}
