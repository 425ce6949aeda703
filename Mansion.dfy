/** C `main`: the seven rooms of the mansion, wired into a fixed tree, explored once and released. */
module Mansion {
  import opened Rooms
  import opened Explorer
  import opened Release

  /** The map of the mansion as a value:
        Hall de Entrada
        |- left  Biblioteca: left Sótão, right Sala de Jantar
        |- right Cozinha: left Jardim, right Porão */
  function MansionMap(): Tree {
    Node("Hall de Entrada",
      Node("Biblioteca", Node("Sótão", Nil, Nil), Node("Sala de Jantar", Nil, Nil)),
      Node("Cozinha", Node("Jardim", Nil, Nil), Node("Porão", Nil, Nil)))
  }

  /** Allocates the seven rooms and connects them as `main` does (top-down); the result is a tree
      of exactly the seven newly allocated rooms, whose view is the mansion map. */
  method BuildMansion() returns (hall: Room, ghost D: set<Room>)
    ensures fresh(hall) && forall x | x in D :: fresh(x)
    ensures IsTree(hall, D) && Footprint(hall, D) == D && Subtree(hall, D) == MansionMap()
  {
    hall := new Room("Hall de Entrada");
    var biblioteca := new Room("Biblioteca");
    var cozinha := new Room("Cozinha");
    var salaJantar := new Room("Sala de Jantar");
    var jardim := new Room("Jardim");
    var sotao := new Room("Sótão");
    var porao := new Room("Porão");
    ghost var built := {hall, biblioteca, cozinha, salaJantar, jardim, sotao, porao};
    assert fresh(built);

    Connect(hall, biblioteca, cozinha);
    Connect(biblioteca, sotao, salaJantar);
    Connect(cozinha, jardim, porao);

    D := built;
    Wired(hall, biblioteca, cozinha, salaJantar, jardim, sotao, porao, D);
  }

  /** Seven distinct rooms with the names and pointers `main` gives them form the mansion map. */
  lemma Wired(hall: Room, biblioteca: Room, cozinha: Room, salaJantar: Room, jardim: Room,
              sotao: Room, porao: Room, D: set<Room>)
    requires D == {hall, biblioteca, cozinha, salaJantar, jardim, sotao, porao}
    requires hall != biblioteca && hall != cozinha && hall != salaJantar && hall != jardim
    requires hall != sotao && hall != porao && biblioteca != cozinha
    requires biblioteca != jardim && biblioteca != porao && biblioteca != sotao && biblioteca != salaJantar
    requires sotao != cozinha && sotao != jardim && sotao != porao && sotao != salaJantar
    requires salaJantar != cozinha && salaJantar != jardim && salaJantar != porao
    requires cozinha != jardim && cozinha != porao && jardim != porao
    requires hall.name == "Hall de Entrada" && biblioteca.name == "Biblioteca"
    requires cozinha.name == "Cozinha" && salaJantar.name == "Sala de Jantar"
    requires jardim.name == "Jardim" && sotao.name == "Sótão" && porao.name == "Porão"
    requires hall.left == biblioteca && hall.right == cozinha
    requires biblioteca.left == sotao && biblioteca.right == salaJantar
    requires cozinha.left == jardim && cozinha.right == porao
    requires sotao.left == null && sotao.right == null && salaJantar.left == null && salaJantar.right == null
    requires jardim.left == null && jardim.right == null && porao.left == null && porao.right == null
    ensures IsTree(hall, D) && Footprint(hall, D) == D && Subtree(hall, D) == MansionMap()
  {
    ghost var below := D - {hall};
    WingTree(biblioteca, sotao, salaJantar, below);
    WingTree(cozinha, jardim, porao, below);
    JoinTree(hall, D);
  }

  /** A room with two childless, distinct children heads a three-room tree. */
  lemma WingTree(top: Room, l: Room, r: Room, D: set<Room>)
    requires top in D && l in D && r in D && top != l && top != r && l != r
    requires top.left == l && top.right == r
    requires l.left == null && l.right == null && r.left == null && r.right == null
    ensures IsTree(top, D) && Footprint(top, D) == {top, l, r}
    ensures Subtree(top, D) == Node(top.name, Node(l.name, Nil, Nil), Node(r.name, Nil, Nil))
  {
    LeafTree(l, D - {top});
    LeafTree(r, D - {top});
    JoinTree(top, D);
  }

  /** The mansion has seven rooms, four of them leaves, on three levels. */
  lemma MansionShape()
    ensures Size(MansionMap()) == 7 && LeafCount(MansionMap()) == 4 && Height(MansionMap()) == 3
  {
  }

  /** Left then right from the hall ends the session at the dining room, a leaf. */
  lemma LeftThenRight()
    ensures var s := Explore(MansionMap(), "ed");
      s == Session([Moved(Left), Moved(Right)], Finished, 2)
      && FinalRoom(MansionMap(), s).name == "Sala de Jantar"
  {
    var t := MansionMap();
    assert "ed" == ['e'] + "d" && "d" == ['d'] + [];
    MoveRule(t, 'e', "d", Left);
    MoveRule(t.left, 'd', [], Right);
    LeafFinishes(t.left.right, []);
    TwoMoves(Left, Right);
  }

  /** Right then left from the hall ends the session at the garden, a leaf. */
  lemma RightThenLeft()
    ensures var s := Explore(MansionMap(), "DE");
      s == Session([Moved(Right), Moved(Left)], Finished, 2)
      && FinalRoom(MansionMap(), s).name == "Jardim"
  {
    var t := MansionMap();
    assert "DE" == ['D'] + "E" && "E" == ['E'] + [];
    MoveRule(t, 'D', "E", Right);
    MoveRule(t.right, 'E', [], Left);
    LeafFinishes(t.right.left, []);
    TwoMoves(Right, Left);
  }

  /** Two recorded moves form a two-step path, which leads to a grandchild of the hall. */
  lemma TwoMoves(a: Dir, b: Dir)
    ensures PathOf([Moved(a), Moved(b)]) == [a, b]
    ensures SubAt(MansionMap(), [a, b]) == MansionMap().Child(a).Child(b)
  {
    assert [Moved(a), Moved(b)][1..] == [Moved(b)] && [Moved(b)][1..] == [];
    assert PathOf([Moved(b)]) == [b] + PathOf([]) == [b];
    assert PathOf([Moved(a), Moved(b)]) == [a] + PathOf([Moved(b)]);
    assert [a, b][1..] == [b] && [b][1..] == [];
    var t := MansionMap().Child(a);
    assert SubAt(t, [b]) == SubAt(t.Child(b), []);
  }

  /** C `main`: builds the mansion, explores it from the hall with `inputs` as the keyboard, and
      releases it. The session is the state machine's session on the mansion map, the room it
      stops in is the one its moves lead to, and the release reaches the seven rooms once each. */
  method PlayMansion(inputs: seq<char>)
    returns (hall: Room, ghost D: set<Room>, s: Session, stoppedAt: string, freed: seq<Room>)
    ensures fresh(hall) && (forall x | x in D :: fresh(x)) && Footprint(hall, D) == D
    ensures IsTree(hall, D) && Subtree(hall, D) == MansionMap()
    ensures s == Explore(MansionMap(), inputs)
    ensures FinalRoom(MansionMap(), s).Node? && stoppedAt == FinalRoom(MansionMap(), s).name
    ensures Visited(freed) == D && |freed| == 7 && NoDuplicates(freed) && ChildrenFirst(freed)
  {
    hall, D := BuildMansion();
    var atual;
    atual, s := ExploreRooms(hall, inputs, D);
    stoppedAt := atual.name;
    freed := ReleaseTree(hall, D);
    MansionShape();
  }
}
