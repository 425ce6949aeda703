/** C `explorarSalas`: the read-choice-move loop, first as a pure state machine over the
    tree view, then as the loop over room pointers, proved to follow the state machine. */
module Explorer {
  import opened Rooms

  /** What one non-blank input character asks for. */
  datatype Command = Go(dir: Dir) | Leave | Other

  /** What one consumed choice did. `Moved` is a silent move to that child; each other tag stands
      for the message the program prints for that choice. */
  datatype Event =
    | Moved(dir: Dir)      // `atual` moved to that child
    | Blocked(dir: Dir)    // "caminho ... inexistente": no child there, `atual` unchanged
    | Quit                 // "decidiu sair": the session ends
    | Invalid              // "opção inválida": `atual` unchanged

  /** How a session ended. `NoRoom`: started at a null room; `Exhausted`: the finite input ran out
      at a non-leaf room (the player has not typed more yet). */
  datatype Ending = NoRoom | Finished | Exited | Exhausted

  /** A whole session: the choices' events in order, how it ended, and how many input characters it read. */
  datatype Session = Session(trace: seq<Event>, ending: Ending, used: nat)

  /** `c` with an ASCII lower-case letter turned into upper case. */
  function Upper(c: char): char {
    if 'a' <= c <= 'z' then (c as int - 32) as char else c
  }

  /** Case-insensitive reading of a choice: `e`/`E` left, `d`/`D` right, `s`/`S` quit. */
  function Classify(c: char): (cmd: Command)
    ensures cmd == Go(Left) <==> Upper(c) == 'E'
    ensures cmd == Go(Right) <==> Upper(c) == 'D'
    ensures cmd == Leave <==> Upper(c) == 'S'
  {
    if c == 'e' || c == 'E' then Go(Left)
    else if c == 'd' || c == 'D' then Go(Right)
    else if c == 's' || c == 'S' then Leave
    else Other
  }

  /** The white space that the ` %c` conversion of `scanf` skips before reading a choice. */
  predicate IsSpace(c: char)
    ensures IsSpace(c) <==> c == ' ' || '\t' <= c <= '\r'
  {
    c == ' ' || c == '\t' || c == '\n' || c == '\r' || c == '\U{B}' || c == '\U{C}'
  }

  /** The moves recorded in a trace: the path from the starting room to the current one. */
  function PathOf(trace: seq<Event>): seq<Dir> {
    if trace == [] then []
    else (if trace[0].Moved? then [trace[0].dir] else []) + PathOf(trace[1..])
  }

  lemma {:induction false} PathOfAppend(a: seq<Event>, b: seq<Event>)
    ensures PathOf(a + b) == PathOf(a) + PathOf(b)
  {
    if a == [] {
      assert [] + b == b;
    } else {
      var head := if a[0].Moved? then [a[0].dir] else [];
      assert (a + b)[0] == a[0];
      assert (a + b)[1..] == a[1..] + b;
      assert PathOf(a + b) == head + PathOf(a[1..] + b);
      PathOfAppend(a[1..], b);
      assert PathOf(a) == head + PathOf(a[1..]);
      assert head + (PathOf(a[1..]) + PathOf(b)) == (head + PathOf(a[1..])) + PathOf(b);
    }
  }

  lemma PathOfSnoc(trace: seq<Event>, e: Event)
    ensures e.Moved? ==> PathOf(trace + [e]) == PathOf(trace) + [e.dir]
    ensures !e.Moved? ==> PathOf(trace + [e]) == PathOf(trace)
  {
    PathOfAppend(trace, [e]);
    assert [e][1..] == [];
    assert PathOf(trace) + [] == PathOf(trace);
  }

  /** `s` preceded by `trace` and by `n` more characters read. */
  function Then(trace: seq<Event>, n: nat, s: Session): Session {
    Session(trace + s.trace, s.ending, n + s.used)
  }

  lemma ThenThen(a: seq<Event>, n: nat, b: seq<Event>, m: nat, s: Session)
    ensures Then(a, n, Then(b, m, s)) == Then(a + b, n + m, s)
  {
    assert a + (b + s.trace) == (a + b) + s.trace;
  }

  /** The effect of one input character read at a room that is not a leaf. */
  datatype Move = Move(events: seq<Event>, next: Tree, quits: bool)

  /** One pass of the loop body after the leaf test: blanks are skipped by `scanf`, a direction
      moves when that child exists and is reported as blocked otherwise, `s` quits, anything
      else is reported as invalid. */
  function Step(t: Tree, c: char): (m: Move)
    requires t.Node?
    ensures m.next.Node?
    ensures SubAt(t, PathOf(m.events)) == m.next
    ensures |PathOf(m.events)| + Height(m.next) <= Height(t)
    ensures m.quits <==> m.events == [Quit]
    ensures m.quits <==> c == 's' || c == 'S'
    ensures m.events == [] <==> IsSpace(c)
    ensures |m.events| <= 1
  {
    if IsSpace(c) then Move([], t, false)
    else match Classify(c)
      case Go(d) =>
        if t.Child(d).Node? then Move([Moved(d)], t.Child(d), false)
        else Move([Blocked(d)], t, false)
      case Leave => Move([Quit], t, true)
      case Other => Move([Invalid], t, false)
  }

  /** The session that starts at the top of `t` and reads from `inputs`. */
  function Explore(t: Tree, inputs: seq<char>): (s: Session)
    ensures s.used <= |inputs|
    ensures s.ending == NoRoom <==> t.Nil?
    ensures s.ending == Exhausted ==> s.used == |inputs|
    decreases |inputs|
  {
    if t.Nil? then Session([], NoRoom, 0)
    else if t.IsLeaf() then Session([], Finished, 0)
    else if |inputs| == 0 then Session([], Exhausted, 0)
    else
      var m := Step(t, inputs[0]);
      if m.quits then Session(m.events, Exited, 1)
      else Then(m.events, 1, Explore(m.next, inputs[1..]))
  }

  /** The room where a session from `t` stops. */
  function FinalRoom(t: Tree, s: Session): Tree {
    SubAt(t, PathOf(s.trace))
  }

  // ---------------------------------------------------------------------------
  // The transition rules, one per branch of the loop body
  // ---------------------------------------------------------------------------

  /** A leaf room ends the session at once, without reading input. */
  lemma LeafFinishes(t: Tree, inputs: seq<char>)
    requires t.IsLeaf()
    ensures Explore(t, inputs) == Session([], Finished, 0)
  {
  }

  /** `e`/`E` (resp. `d`/`D`) at a non-leaf room moves to that child when there is one; otherwise
      the room stays the same and the blocked direction is reported. */
  lemma MoveRule(t: Tree, c: char, rest: seq<char>, d: Dir)
    requires t.Node? && !t.IsLeaf()
    requires (d == Left && (c == 'e' || c == 'E')) || (d == Right && (c == 'd' || c == 'D'))
    ensures t.Child(d).Node? ==> Explore(t, [c] + rest) == Then([Moved(d)], 1, Explore(t.Child(d), rest))
    ensures t.Child(d).Nil? ==> Explore(t, [c] + rest) == Then([Blocked(d)], 1, Explore(t, rest))
  {
    assert ([c] + rest)[1..] == rest;
  }

  /** `s`/`S` at a non-leaf room ends the session in that room, whatever follows. */
  lemma QuitRule(t: Tree, c: char, rest: seq<char>)
    requires t.Node? && !t.IsLeaf() && (c == 's' || c == 'S')
    ensures Explore(t, [c] + rest) == Session([Quit], Exited, 1)
  {
  }

  /** Any other non-blank character at a non-leaf room is reported and changes nothing. */
  lemma InvalidRule(t: Tree, c: char, rest: seq<char>)
    requires t.Node? && !t.IsLeaf() && !IsSpace(c)
    requires c !in {'e', 'E', 'd', 'D', 's', 'S'}
    ensures Explore(t, [c] + rest) == Then([Invalid], 1, Explore(t, rest))
  {
    assert ([c] + rest)[1..] == rest;
  }

  // ---------------------------------------------------------------------------
  // Whole-session properties
  // ---------------------------------------------------------------------------

  /** Session invariants: the current room is never null and is reached from the start by the
      recorded moves, each move goes one level deeper so there are fewer moves than the tree is
      high, and each ending says where the session stopped and what it read. */
  lemma {:induction false} SessionShape(t: Tree, inputs: seq<char>)
    requires t.Node?
    ensures var s := Explore(t, inputs);
      && FinalRoom(t, s).Node?
      && |PathOf(s.trace)| < Height(t)
      && (s.ending == Finished <==> FinalRoom(t, s).IsLeaf())
      && (s.ending == Exited <==> (s.trace != [] && s.trace[|s.trace| - 1] == Quit))
    decreases |inputs|
  {
    var s := Explore(t, inputs);
    if t.IsLeaf() || |inputs| == 0 {
      return;
    }
    var m := Step(t, inputs[0]);
    if m.quits {
      assert PathOf(s.trace) == [] by { assert s.trace[1..] == []; }
    } else {
      var rest := inputs[1..];
      SessionShape(m.next, rest);
      var s' := Explore(m.next, rest);
      assert s.trace == m.events + s'.trace;
      PathOfAppend(m.events, s'.trace);
      SubAtAppend(t, PathOf(m.events), PathOf(s'.trace));
      assert FinalRoom(t, s) == FinalRoom(m.next, s');
      if s'.trace == [] {
        assert s.trace == m.events;
      } else {
        assert s.trace[|s.trace| - 1] == s'.trace[|s'.trace| - 1];
      }
    }
  }

  /** Characters after the end of a finished or quit session are never read. */
  lemma {:induction false} UnreadInputIgnored(t: Tree, inputs: seq<char>, more: seq<char>)
    requires Explore(t, inputs).ending != Exhausted
    ensures Explore(t, inputs + more) == Explore(t, inputs)
    decreases |inputs|
  {
    if t.Nil? || t.IsLeaf() || |inputs| == 0 {
      return;
    }
    assert (inputs + more)[0] == inputs[0];
    assert (inputs + more)[1..] == inputs[1..] + more;
    var m := Step(t, inputs[0]);
    if !m.quits {
      UnreadInputIgnored(m.next, inputs[1..], more);
    }
  }

  /** A session whose input ran out resumes, on more input, from the room where it stopped. */
  lemma {:induction false} ExhaustedResumes(t: Tree, inputs: seq<char>, more: seq<char>)
    requires t.Node?
    requires Explore(t, inputs).ending == Exhausted
    ensures var s := Explore(t, inputs);
      Explore(t, inputs + more) == Then(s.trace, |inputs|, Explore(FinalRoom(t, s), more))
    decreases |inputs|
  {
    var s := Explore(t, inputs);
    if |inputs| == 0 {
      assert inputs + more == more;
      assert Then([], 0, Explore(t, more)) == Explore(t, more);
      return;
    }
    assert (inputs + more)[0] == inputs[0];
    assert (inputs + more)[1..] == inputs[1..] + more;
    var m := Step(t, inputs[0]);
    var rest := inputs[1..];
    ExhaustedResumes(m.next, rest, more);
    var s' := Explore(m.next, rest);
    assert s == Then(m.events, 1, s');
    PathOfAppend(m.events, s'.trace);
    SubAtAppend(t, PathOf(m.events), PathOf(s'.trace));
    assert FinalRoom(t, s) == FinalRoom(m.next, s');
    ThenThen(m.events, 1, s'.trace, |rest|, Explore(FinalRoom(m.next, s'), more));
  }

  /** Quitting works from every non-leaf room, whatever path led there: after any unfinished
      prefix, an `s` or `S` ends the session in the room the prefix reached. */
  lemma QuitAnywhere(t: Tree, prefix: seq<char>, c: char, more: seq<char>)
    requires t.Node? && Explore(t, prefix).ending == Exhausted && (c == 's' || c == 'S')
    ensures var s := Explore(t, prefix);
      Explore(t, prefix + [c] + more) == Session(s.trace + [Quit], Exited, |prefix| + 1)
      && FinalRoom(t, Explore(t, prefix + [c] + more)) == FinalRoom(t, s)
  {
    var s := Explore(t, prefix);
    SessionShape(t, prefix);
    ExhaustedResumes(t, prefix, [c] + more);
    assert prefix + [c] + more == prefix + ([c] + more);
    QuitRule(FinalRoom(t, s), c, more);
    PathOfSnoc(s.trace, Quit);
  }

  // ---------------------------------------------------------------------------
  // The loop over room pointers
  // ---------------------------------------------------------------------------

  /** The view of a room's child pointer is the child of the room's view. */
  lemma ChildView(r: Room, D: set<Room>, dir: Dir)
    requires IsTree(r, D)
    ensures var c := ChildPtr(r, dir);
      && r in D && Subtree(r, D).Node?
      && IsTree(c, D - {r})
      && Subtree(r, D).Child(dir) == Subtree(c, D - {r})
      && (c == null <==> Subtree(r, D).Child(dir).Nil?)
      && Footprint(c, D - {r}) <= Footprint(r, D)
      && (c != null ==> c in Footprint(c, D - {r}))
  {
  }

  /** A child pointer is null exactly when that child of the view is absent. */
  lemma NullChild(r: Room, D: set<Room>, dir: Dir)
    requires IsTree(r, D)
    ensures Subtree(r, D).Node?
    ensures ChildPtr(r, dir) == null <==> Subtree(r, D).Child(dir).Nil?
  {
    ChildView(r, D, dir);
  }

  /** The session from position `i` of the input, after the leaf test, is one step and the rest. */
  lemma ExploreFrom(t: Tree, inputs: seq<char>, i: nat)
    requires t.Node? && !t.IsLeaf() && i < |inputs|
    ensures var m := Step(t, inputs[i]);
      Explore(t, inputs[i..]) ==
        if m.quits then Session(m.events, Exited, 1) else Then(m.events, 1, Explore(m.next, inputs[i + 1..]))
  {
    assert inputs[i..][1..] == inputs[i + 1..];
  }

  /** The loop state of `ExploreRooms` after reading `i` characters and recording `trace`: the
      pointer `atual` is the room the recorded moves lead to, `below` is the part of the domain not
      above it, and the rest of the session is the state machine's session from its view. */
  ghost predicate Tracking(root: Room?, D: set<Room>, inputs: seq<char>, trace: seq<Event>, i: nat,
                           atual: Room?, below: set<Room>)
    reads D
  {
    && i <= |inputs|
    && below <= D && IsTree(atual, below)
    && atual == Follow(root, PathOf(trace), D)
    && Subtree(atual, below) == SubAt(Subtree(root, D), PathOf(trace))
    && Footprint(atual, below) <= Footprint(root, D)
    && (atual == null ==> trace == [] && i == 0)
    && Explore(Subtree(root, D), inputs) == Then(trace, i, Explore(Subtree(atual, below), inputs[i..]))
  }

  /** A blank, a blocked direction or an invalid character leaves the explorer in the same room
      and keeps the loop state, with the event it reports appended. */
  lemma StayKeeps(root: Room?, D: set<Room>, inputs: seq<char>, trace: seq<Event>, i: nat,
                  atual: Room, below: set<Room>, ev: seq<Event>)
    requires Tracking(root, D, inputs, trace, i, atual, below) && i < |inputs|
    requires !(atual.left == null && atual.right == null)
    requires var c := inputs[i];
      || (IsSpace(c) && ev == [])
      || (!IsSpace(c) && Classify(c) == Other && ev == [Invalid])
      || (!IsSpace(c) && Classify(c).Go? && ChildPtr(atual, Classify(c).dir) == null
          && ev == [Blocked(Classify(c).dir)])
    ensures Tracking(root, D, inputs, trace + ev, i + 1, atual, below)
  {
    NullChild(atual, below, Left);
    NullChild(atual, below, Right);
    var here := Subtree(atual, below);
    var m := Step(here, inputs[i]);
    assert m == Move(ev, here, false);
    PathOfAppend(trace, ev);
    assert PathOf(ev) == [] by {
      if ev != [] { assert ev[1..] == []; }
    }
    assert PathOf(trace) + [] == PathOf(trace);
    ExploreFrom(here, inputs, i);
    ThenThen(trace, i, ev, 1, Explore(here, inputs[i + 1..]));
  }

  /** `e`/`d` towards an existing child keeps the loop state, one room further down. */
  lemma MoveKeeps(root: Room?, D: set<Room>, inputs: seq<char>, trace: seq<Event>, i: nat,
                  atual: Room, below: set<Room>, dir: Dir)
    requires Tracking(root, D, inputs, trace, i, atual, below) && i < |inputs|
    requires !IsSpace(inputs[i]) && Classify(inputs[i]) == Go(dir) && ChildPtr(atual, dir) != null
    ensures Tracking(root, D, inputs, trace + [Moved(dir)], i + 1, ChildPtr(atual, dir), below - {atual})
  {
    var here := Subtree(atual, below);
    ChildView(atual, below, dir);
    var m := Step(here, inputs[i]);
    assert m == Move([Moved(dir)], here.Child(dir), false);
    assert PathOf(m.events) == [dir] by { assert m.events[1..] == []; }
    FollowSnoc(root, PathOf(trace), dir, D);
    SubAtSnoc(Subtree(root, D), PathOf(trace), dir);
    PathOfSnoc(trace, Moved(dir));
    ExploreFrom(here, inputs, i);
    ThenThen(trace, i, m.events, 1, Explore(m.next, inputs[i + 1..]));
  }

  lemma TrackingStarts(root: Room?, D: set<Room>, inputs: seq<char>)
    requires IsTree(root, D)
    ensures Tracking(root, D, inputs, [], 0, root, D)
  {
    assert inputs[0..] == inputs;
    assert [] + Explore(Subtree(root, D), inputs).trace == Explore(Subtree(root, D), inputs).trace;
  }

  /** The loop stops without reading when the room is null, a leaf (it finishes) or the input is
      exhausted; the session is then the one recorded so far. */
  lemma TrackingStops(root: Room?, D: set<Room>, inputs: seq<char>, trace: seq<Event>, i: nat,
                      atual: Room?, below: set<Room>, ending: Ending)
    requires Tracking(root, D, inputs, trace, i, atual, below)
    requires atual == null ==> ending == NoRoom
    requires atual != null ==> if atual.left == null && atual.right == null then ending == Finished
                               else i == |inputs| && ending == Exhausted
    ensures Explore(Subtree(root, D), inputs) == Session(trace, ending, i)
    ensures atual == Follow(root, PathOf(trace), D)
    ensures root != null ==> atual != null && atual in Footprint(root, D)
    ensures atual != null ==> SubAt(Subtree(root, D), PathOf(trace)).Node?
    ensures atual != null ==> atual.name == SubAt(Subtree(root, D), PathOf(trace)).name
  {
    if atual != null {
      NullChild(atual, below, Left);
      NullChild(atual, below, Right);
    }
    assert trace + [] == trace;
    if root != null {
      assert atual != null;
    }
  }

  /** An `s` or `S` at a non-leaf room ends the session there. */
  lemma TrackingQuits(root: Room?, D: set<Room>, inputs: seq<char>, trace: seq<Event>, i: nat,
                      atual: Room, below: set<Room>)
    requires Tracking(root, D, inputs, trace, i, atual, below) && i < |inputs|
    requires !(atual.left == null && atual.right == null)
    requires !IsSpace(inputs[i]) && Classify(inputs[i]) == Leave
    ensures Explore(Subtree(root, D), inputs) == Session(trace + [Quit], Exited, i + 1)
    ensures atual == Follow(root, PathOf(trace + [Quit]), D)
    ensures root != null ==> atual in Footprint(root, D)
    ensures SubAt(Subtree(root, D), PathOf(trace + [Quit])).Node?
    ensures atual.name == SubAt(Subtree(root, D), PathOf(trace + [Quit])).name
  {
    NullChild(atual, below, Left);
    NullChild(atual, below, Right);
    ExploreFrom(Subtree(atual, below), inputs, i);
    PathOfSnoc(trace, Quit);
  }

  /** C `explorarSalas(atual)`, with `scanf` reading from `inputs`: returns the room where the loop
      stopped and the session it ran, which is the state machine's session on the tree's view;
      the final room is the one the recorded moves point to, and lies in the tree. */
  method ExploreRooms(root: Room?, inputs: seq<char>, ghost D: set<Room>) returns (atual: Room?, s: Session)
    requires IsTree(root, D)
    ensures s == Explore(Subtree(root, D), inputs)
    ensures atual == Follow(root, PathOf(s.trace), D)
    ensures root != null ==> atual != null && atual in Footprint(root, D)
    ensures atual != null ==> FinalRoom(Subtree(root, D), s).Node?
    ensures atual != null ==> atual.name == FinalRoom(Subtree(root, D), s).name
  {
    ghost var below := D;
    var trace: seq<Event> := [];
    var ending := NoRoom;
    var i := 0;
    atual := root;
    TrackingStarts(root, D, inputs);
    while atual != null
      invariant Tracking(root, D, inputs, trace, i, atual, below)
      invariant ending == NoRoom
      decreases |inputs| - i
    {
      if atual.left == null && atual.right == null {
        ending := Finished;
        break;
      }
      if i == |inputs| {
        ending := Exhausted;
        break;
      }
      var escolha := inputs[i];
      if IsSpace(escolha) {
        // skipped by `scanf(" %c")`
        StayKeeps(root, D, inputs, trace, i, atual, below, []);
        assert trace + [] == trace;
      } else {
        match Classify(escolha) {
          case Go(dir) =>
            var next := ChildPtr(atual, dir);
            if next != null {
              MoveKeeps(root, D, inputs, trace, i, atual, below, dir);
              trace := trace + [Moved(dir)];
              below, atual := below - {atual}, next;
            } else {
              StayKeeps(root, D, inputs, trace, i, atual, below, [Blocked(dir)]);
              trace := trace + [Blocked(dir)];
            }
          case Leave =>
            TrackingQuits(root, D, inputs, trace, i, atual, below);
            trace := trace + [Quit];
            ending := Exited;
            i := i + 1;
            s := Session(trace, ending, i);
            return;
          case Other =>
            StayKeeps(root, D, inputs, trace, i, atual, below, [Invalid]);
            trace := trace + [Invalid];
        }
      }
      i := i + 1;
    }
    TrackingStops(root, D, inputs, trace, i, atual, below, ending);
    s := Session(trace, ending, i);
  }
}
