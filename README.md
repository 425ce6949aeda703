# Detective Quest: the mansion map as a binary tree

This is a Dafny model of *Detective Quest*, the novice-level mansion explorer in
`algoritmos_avancados.c`. The mansion is a binary tree of rooms (`Sala`), each holding a
name and left (`esquerda`) and right (`direita`) pointers. The program has four steps:

1. `criarSala` allocates the rooms.
2. `conectarSalas` wires the rooms into a fixed seven-room tree.
3. `explorarSalas` lets the player walk it from the entrance hall. `e`/`E` goes left,
   `d`/`D` goes right and `s`/`S` leaves. A leaf room ends the walk.
4. `liberarArvore` releases the rooms in post-order.

The model is imperative where the program is:

- `Rooms.Room` is a class with the program's three fields. Its constructor is `criarSala`.
- `Rooms.Connect` is `conectarSalas`.
- `Explorer.ExploreRooms` is the `while (atual != NULL)` loop over room pointers.
- `Release.ReleaseTree` is the recursive release.
- `Mansion.BuildMansion` and `Mansion.PlayMansion` are `main`.

Rooms are joined by pointers, so "these rooms form a tree" is a ghost predicate over a set of
rooms, `Rooms.IsTree(r, D)`. On the way down, each step leaves the parent behind, so no room is
its own descendant, and the two subtrees of a room share no room. `Rooms.Subtree(r, D)` is the
value view of the rooms below `r`, a `Rooms.Tree`.

The explorer is specified by a pure state machine on that view, `Explorer.Explore(t, inputs)`.
Keyboard input is a finite character sequence. Each element stands for one byte read by the `%c`
conversion of `scanf`. Blanks are skipped, as the `" %c"` conversion skips white space. Every other
element produces one `Event`. A move is silent; each other event stands for one of the messages
the loop prints. A session ends in one of three ways:

- `Finished`: it reached a leaf.
- `Exited`: the player typed `s`.
- `Exhausted`: the input ran out in a room that is not a leaf.

The fourth ending, `NoRoom`, covers a null starting pointer. The loop over pointers is proved to
produce exactly the state machine's session and to stop in the room its moves lead to. The
release is proved to reach every room of the tree exactly once, each room after both of its
children.

Modules:

- `Rooms.dfy`: the `Tree` view, the `Room` class, `Connect`, and the ghost tree predicates.
- `Explorer.dfy`: the exploration state machine, its lemmas, and the pointer loop.
- `Release.dfy`: the post-order release.
- `Mansion.dfy`: the fixed mansion of `main` and concrete walks through it.

## Model

| member | source | states |
|---|---|---|
| Rooms.Room.constructor | algoritmos_avancados.c:34-44 | a new room carries the given name (shorter than the 50-byte buffer) and has no left or right room |
| Rooms.Connect | algoritmos_avancados.c:50-55 | a non-null main room gets exactly the given left and right rooms and keeps its name; nothing else is modified; a null main room is left alone |
| Rooms.LeafTree | algoritmos_avancados.c:24-28 | a room with two null pointers is a one-room tree whose view is a leaf carrying its name |
| Rooms.ConnectTrees | algoritmos_avancados.c:50-55 | connecting a room that lies outside two disjoint trees to their roots makes it the root of a tree of itself plus both trees' rooms, whose view has the room's name above the two trees' views as they were before |
| Explorer.IsSpace | algoritmos_avancados.c:78 | the blanks that `" %c"` skips are exactly the space character and the control characters from tab to carriage return |
| Explorer.Classify | algoritmos_avancados.c:80-94 | a choice is read without regard to case: it means left exactly when its upper-case form is `E`, right exactly when it is `D`, and quit exactly when it is `S` |
| Explorer.Explore | algoritmos_avancados.c:61-102 | a session never reads more input than there is, reads all of it when it runs out, and starts at a missing room exactly when the starting tree is empty |
| Explorer.LeafFinishes | algoritmos_avancados.c:67-71 | in a room with no exits the exploration ends at once, reading no input |
| Explorer.MoveRule | algoritmos_avancados.c:80-93 | `e`/`E` (`d`/`D`) in a room that is not a leaf moves to the left (right) room when it exists, and otherwise reports that path missing and stays put; either way the rest of the session continues from the resulting room |
| Explorer.QuitRule | algoritmos_avancados.c:94-97 | `s`/`S` in a room that is not a leaf ends the session right there, having read one character, whatever input follows |
| Explorer.InvalidRule | algoritmos_avancados.c:98-100 | any other non-blank character reports an invalid option and the session continues from the same room |
| Explorer.Step | algoritmos_avancados.c:78-100 | one character never moves to an absent room; the moves it records lead to the room it lands in, which is one level deeper after a move; it quits exactly when the character is `s` or `S`, and quitting is exactly the quit event; it produces no event exactly for a blank, and otherwise one |
| Explorer.SessionShape | algoritmos_avancados.c:64-101 | from any room the walk never ends at a missing room, makes fewer moves than the tree is high, finishes exactly when it stops at a leaf, and exits exactly when its last event is the quit message |
| Explorer.UnreadInputIgnored | algoritmos_avancados.c:64-101 | after the session has finished at a leaf or the player has quit, further input is never read and changes nothing |
| Explorer.ExhaustedResumes | algoritmos_avancados.c:64-101 | a session whose input ran out resumes, given more input, exactly from the room it stopped in, as a fresh session from that room |
| Explorer.QuitAnywhere | algoritmos_avancados.c:94-97 | after any unfinished prefix, `s`/`S` ends the session in the room the prefix reached, with the quit event appended |
| Explorer.NullChild | algoritmos_avancados.c:68 | a child pointer is null exactly when that child is missing from the room's view, so the pointer leaf test equals the view's leaf test |
| Explorer.ExploreRooms | algoritmos_avancados.c:61-102 | the pointer loop produces exactly the session the state machine gives for the tree below `atual`; the room it stops in is the one reached by following the recorded moves, lies inside the tree, and has the name of that room of the view |
| Release.PostOrderVisited | algoritmos_avancados.c:108-113 | the release order holds exactly the rooms of the tree, as many entries as the tree has rooms, with the root last |
| Release.PostOrderOnce | algoritmos_avancados.c:108-113 | the release order reaches no room twice |
| Release.PostOrderChildrenFirst | algoritmos_avancados.c:110-112 | every room is released after both of its children |
| Release.ReleaseTree | algoritmos_avancados.c:108-113 | the recursive release visits the rooms in post-order: every room of the tree once, each after its children, as many as the tree has rooms; nothing for a null root |
| Mansion.Wired | algoritmos_avancados.c:131-139 | seven distinct rooms with `main`'s names and pointers form a tree whose view is the mansion map |
| Mansion.BuildMansion | algoritmos_avancados.c:121-139 | allocating the seven rooms and connecting them top-down, as `main` does, yields a tree made of exactly those seven newly allocated rooms, whose view is the mansion map |
| Mansion.MansionShape | algoritmos_avancados.c:131-135 | the mansion has seven rooms, four of them leaves, on three levels |
| Mansion.LeftThenRight | algoritmos_avancados.c:137-138 | typing `e` then `d` from the hall moves twice and finishes at the leaf "Sala de Jantar" |
| Mansion.RightThenLeft | algoritmos_avancados.c:137-139 | typing `D` then `E` from the hall moves twice and finishes at the leaf "Jardim" |
| Mansion.PlayMansion | algoritmos_avancados.c:119-154 | `main` builds a tree of seven newly allocated rooms whose view is the mansion map, explores it exactly as the state machine does on that map, stops in the room its moves lead to, and then releases exactly the rooms it built, seven of them, each once and after its children |

## Left out

- Output: every `printf` is left out. Each message printed for a choice is an `Event` tag:
  blocked to the left or right, quit, or invalid. A move prints nothing and is the tag `Moved`. The listing of the available exits, the
  banner, and the "you are in room" line carry no information beyond the trace and
  the room, so they are not modelled.
- Input: `scanf` becomes a finite character sequence given as a parameter. When it runs out in
  a room that is not a leaf, the model ends the session as `Exhausted`. There, the C loop
  ignores `scanf`'s end-of-file result and re-uses the previous (at first uninitialised)
  `escolha`, so it may loop forever. The model does not capture that behaviour.
- Input bytes: each element of the input sequence stands for one byte read by `%c`. The model's
  elements are Dafny characters (Unicode scalar values), and nothing encodes a key into bytes. A
  key that sends several bytes, such as "é" in UTF-8, is several choices in the program, each
  reported as invalid. Given "é" as a single element, the model reports one invalid choice.
- Rooms.Room.constructor: the `malloc` failure path (the error message and `exit(1)`) is not
  modelled, because allocation in Dafny does not fail.
- Rooms.Room.constructor: the `strcpy` into the 50-byte buffer becomes the precondition that the
  name is shorter than 50 characters. "Sótão" and "Porão" are longer in UTF-8 bytes than in
  characters, but every name of the mansion fits either way. An overflowing copy is not
  modelled.
- Release.ReleaseTree: `free` is not modelled as deallocation. Dafny has none, so the method
  returns the order in which the rooms would be freed, and the rooms stay allocated afterwards.
