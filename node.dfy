/** The node of the in-memory filesystem: its payload (name, kind, content,
    timestamps), the pure tree value used by the persistence codec, and the
    arena record used by the tree engine (links are arena indices). */
module Nodes {

  datatype Option<T> = None | Some(value: T)

  /** `time_t` is a signed 64-bit integer. */
  const MinTime: int := -0x8000_0000_0000_0000
  const MaxTime: int := 0x7fff_ffff_ffff_ffff
  type Time = t: int | MinTime <= t <= MaxTime

  /** What a node holds besides its links. */
  datatype Entry = Entry(name: string, isDir: bool, content: string, created: Time, modified: Time)

  /** The `Node` constructor: empty content, both timestamps taken from the
      clock, which is passed in as `now`. */
  function NewEntry(name: string, isDir: bool, now: Time): (e: Entry)
    ensures e.name == name && e.isDir == isDir && e.content == ""
    ensures e.created == now && e.modified == now
  {
    Entry(name, isDir, "", now, now)
  }

  /** A first-child/next-sibling tree as a value: `child` is the head of the
      node's child chain and `sib` the rest of its own sibling chain. */
  datatype Tree = Nil | N(entry: Entry, child: Tree, sib: Tree)

  /** Number of nodes reachable through `child` and `sib`. */
  function Size(t: Tree): (r: nat)
  {
    match t
    case Nil => 0
    case N(_, c, s) => 1 + Size(c) + Size(s)
  }

  /** The entries in the order node, child chain, sibling chain. */
  function PreOrder(t: Tree): (es: seq<Entry>)
    ensures |es| == Size(t)
  {
    match t
    case Nil => []
    case N(e, c, s) => [e] + PreOrder(c) + PreOrder(s)
  }

  /** One node of the engine's arena: `parent`, `firstChild` and
      `nextSibling` are indices into the arena, `None` standing for null. */
  datatype Rec = Rec(entry: Entry, parent: Option<nat>, firstChild: Option<nat>, nextSibling: Option<nat>)
}
