# An in-memory filesystem tree and its text persistence, in Dafny

The system keeps directories and files in a first-child/next-sibling tree.
Every `Node` holds a name, a directory flag, the file content, two
timestamps and three links: `parent`, `firstChild` and `nextSibling`. A
`FileSystem` object owns the tree and has a `root` and a `current` cursor.
It offers these operations:

- `mkdir` and `touch` prepend a new child to the current directory, unless a
  child of that name already exists;
- `cd` moves one level (`..` or a directory child);
- `pwd` prints the path of the current directory;
- `ls` lists the children;
- `cat` prints a file's content;
- `saveToFile` and `loadFromFile` write and read the whole tree as one
  `name|isDirectory|content|createdAt|modifiedAt` line per node.

The model has six modules, one file each:

- `Nodes` (`node.dfy`): the node payload `Entry`, the tree as a value
  (`Tree = Nil | N(entry, child, sib)`), and the arena record `Rec`. `time_t`
  is a signed 64-bit `Time`.
- `Decimal` (`decimal.dfy`): how the C++ stream library writes a `time_t`
  (`out << n`) and reads one back (`in >> n`). This covers leading white
  space, sign and digit run, failure on a non-digit, clamping on overflow,
  and the end-of-input state.
- `Codec` (`codec.dfy`): `serializeNode` and `deserializeNode` exactly as
  written, over a sequence of lines. It includes `getline(ss, f, '|')`, the
  `>>` extractions of line 76, and the decoder's consumption of lines.
- `CodecFixed` (`codec_fixed.dfy`): the codec corrected to what its own
  reader expects. The writer ends every chain with an empty line, and
  `modifiedAt` is read past its `|`. See Findings.
- `Arena` (`arena.dfy`): the node graph as a sequence of records with
  optional indices in place of pointers. Pure functions give the meaning of
  the pointer walks: child chains, `findChild`, `printPath`, and the tree
  value reachable from a node. Lemmas cover the link invariant, the
  prepend done by `mkdir`/`touch`, and the construction of nodes by
  `deserializeNode`.
- `FileSystems` (`filesystem.dfy`): the `FileSystem` class. Its fields are
  `nodes`, `root` and `current`. Its methods are proved against the `Arena`
  functions, and `Valid()` is the shape invariant every method keeps:
  - links are consistent;
  - every parent link is mirrored by a child chain;
  - the root has no parent;
  - `current` lies below `root`.

  The module also holds the session `main` runs and the `mkdir x; cd x` scenario.

Some arena conventions:

- The arena index of a node stands for its address. Every link is an index,
  and null is `None`.
- A parent and a next sibling always have smaller indices than the node.
  `mkdir` allocates the largest index and prepends, so this holds for every
  update. It makes every walk terminate.
- `loadFromFile` builds the new tree in a fresh arena. It allocates the
  sibling part first, then the node, then its child part. It drops the old
  arena, which is `deleteTree`'s effect.

## Model

| member | source | states |
|---|---|---|
| Nodes.NewEntry | BSAI23029_PHASE1.cpp:20-24 | a new node has the given name and kind, empty content, and both timestamps equal to the clock value |
| Decimal.Show | BSAI23029_PHASE1.cpp:61 | a printed `time_t` is non-empty, starts with a digit or `-`, and contains neither bar nor a line break |
| Decimal.ReadLong | BSAI23029_PHASE1.cpp:76 | `>>` into a `time_t` consumes input, and leaves the stream good only when a non-digit character follows the number |
| Decimal.ReadShow | BSAI23029_PHASE1.cpp:61-76 | reading back a printed `time_t` followed by a non-digit gives the same value and stops at that character; the stream stays good unless input ends there |
| Codec.Record | BSAI23029_PHASE1.cpp:61 | the line written for a node is never empty |
| Codec.Encode | BSAI23029_PHASE1.cpp:59-64 | exactly one line per node reachable through `firstChild`/`nextSibling`, in the order node, child chain, sibling chain; line k is the record of the k-th node in that order |
| Codec.EncodeNoEmptyLine | BSAI23029_PHASE1.cpp:59-64 | the writer never emits an empty line |
| Codec.EncodeUnbroken | BSAI23029_PHASE1.cpp:59-64 | for names and content without bar or line break, no written record holds a line break, so the file has exactly one line per node |
| Codec.GetField | BSAI23029_PHASE1.cpp:73-75 | a field read on a good stream stops before the first bar, which is consumed; with no bar left it takes the rest and the stream fails |
| Codec.ParseRecord | BSAI23029_PHASE1.cpp:70-81 | name, content and `createdAt` come from the fields read; `isDirectory` holds exactly when the second field is `1` |
| Codec.DecodeWith | BSAI23029_PHASE1.cpp:66-87 | the decoder leaves a suffix of its input unread; a node it builds comes from the first line |
| Codec.DecodeConsumes | BSAI23029_PHASE1.cpp:66-87 | the non-empty lines read are exactly one per node built |
| Codec.DecodeNonEmpty | BSAI23029_PHASE1.cpp:66-87 | on input without empty lines, every line is read and each record becomes the first child of the one before it |
| Codec.ParseRecordOfRecord | BSAI23029_PHASE1.cpp:61-76 | a written record reads back with every field equal except `modifiedAt`, which reads as 0 |
| Codec.DecodeOfEncode | BSAI23029_PHASE1.cpp:59-87 | on writer output, the reader consumes every line and builds one chain of first children holding each node's name, kind, content and `createdAt` in writing order |
| Codec.RoundTripIff | BSAI23029_PHASE1.cpp:59-87 | writing then reading gives back the tree exactly when it is already one chain of first children whose `modifiedAt` are all 0 |
| Codec.SiblingsBecomeChildren | BSAI23029_PHASE1.cpp:59-87 | for the directory `/` holding `b` then `a`, the tree read back differs from the tree written |
| CodecFixed.EncodeTerminated | BSAI23029_PHASE1.cpp:59-64 | the corrected writer emits 2n+1 lines for n nodes; (by definition) a record per node and an empty line per null link, content pinned by `CodecFixed.RoundTrip` |
| CodecFixed.ParseRecordFixedOfRecord | BSAI23029_PHASE1.cpp:76 | with the bar before `modifiedAt` skipped, a written record reads back as the same entry |
| CodecFixed.RoundTripTerminated | BSAI23029_PHASE1.cpp:59-87 | the corrected writer's output, followed by anything, reads back as the same tree and leaves exactly what followed |
| CodecFixed.RoundTrip | BSAI23029_PHASE1.cpp:59-87 | with the corrected codec, every tree free of bar and line breaks survives writing and reading |
| Arena.ChainParent | BSAI23029_PHASE1.cpp:82-84 | every node on a sibling chain has the parent of the chain's head |
| Arena.ChildrenParent | BSAI23029_PHASE1.cpp:150-152 | every node on the child chain of `p` names `p` as its parent |
| Arena.ParentIffChild | BSAI23029_PHASE1.cpp:13-15 | under the shape invariant, a node is on `p`'s child chain exactly when its parent is `p` |
| Arena.Find | BSAI23029_PHASE1.cpp:41-48 | a node found is on the chain searched and carries the name |
| Arena.FindFirst | BSAI23029_PHASE1.cpp:41-48 | the search is null exactly when no node of the chain has the name; otherwise it is the earliest node that does |
| Arena.PathOf | BSAI23029_PHASE1.cpp:50-57 | a path starts and ends with `/`, and it is `/` exactly for a node without parent; (by definition) a longer path is the parent's path plus the name plus `/` |
| Arena.Prepend | BSAI23029_PHASE1.cpp:149-152 | the new node sits at a fresh index, with parent `p`, no children, and `p`'s old first child as next sibling; `p`'s first child becomes the new node; every other node is unchanged |
| Arena.PrependLinked | BSAI23029_PHASE1.cpp:149-152 | the prepend keeps the link invariant; `p`'s children become the new node followed by the old children; the new node has no children; every other child chain and every old path is unchanged |
| Arena.PrependRegistered | BSAI23029_PHASE1.cpp:149-152 | the prepend keeps every parent link mirrored by a child chain |
| Arena.PrependUnique | BSAI23029_PHASE1.cpp:144-152 | prepending a name that no child of `p` has keeps sibling names unique |
| Arena.Place | BSAI23029_PHASE1.cpp:78-86 | building a tree after an arena adds exactly one node per tree node and leaves the old nodes alone; the head exists for a non-empty tree and gets the parent passed in |
| Arena.PlaceLinked | BSAI23029_PHASE1.cpp:82-84 | the nodes built keep the link invariant |
| Arena.PlaceClosed | BSAI23029_PHASE1.cpp:82-84 | the nodes built link only among themselves; each has the parent passed in or a node built as parent |
| Arena.PlaceRegistered | BSAI23029_PHASE1.cpp:82-84 | every node built with the passed parent is on the head's sibling chain; every node built under a built parent is on that parent's child chain |
| Arena.PlaceToTree | BSAI23029_PHASE1.cpp:66-87 | the nodes built, read from the head, are exactly the tree decoded |
| Arena.PlaceRoot | BSAI23029_PHASE1.cpp:221-223 | a tree built as the new root satisfies the shape invariant, reads back as itself, and is empty exactly for the empty tree |
| FileSystems.FileSystem.constructor | BSAI23029_PHASE1.cpp:130-133 | the new filesystem holds one root directory `/`, which is also the current directory |
| FileSystems.FileSystem.FindChild | BSAI23029_PHASE1.cpp:41-48 | the loop returns the first child of `p` with the name, or null when there is none; a result is a child of `p` carrying the name |
| FileSystems.FileSystem.Mkdir | BSAI23029_PHASE1.cpp:144-153 | with the name taken, nothing changes; otherwise the new directory is prepended as described for `Arena.Prepend`; the invariant, root and cursor are kept, old paths stay, and unique sibling names stay unique |
| FileSystems.FileSystem.Touch | BSAI23029_PHASE1.cpp:155-165 | as `mkdir`, for a file holding the given content |
| FileSystems.FileSystem.Cd | BSAI23029_PHASE1.cpp:167-178 | `..` moves to the parent and stays at a node without parent; a missing name or a file leaves the cursor where it was; a directory child becomes current, and the path grows by its name and `/` |
| FileSystems.FileSystem.Pwd | BSAI23029_PHASE1.cpp:180-183 | the path of the current directory; it is `/` exactly at the root |
| FileSystems.FileSystem.Ls | BSAI23029_PHASE1.cpp:185-194 | the loop prints every child in chain order, newest first; each is shown with `/` after a directory name and followed by a space |
| FileSystems.Label | BSAI23029_PHASE1.cpp:188-189 | an entry is shown by its name, with `/` appended exactly for a directory |
| FileSystems.FileSystem.Cat | BSAI23029_PHASE1.cpp:196-203 | the content of the first child with the name when it is a file; nothing when that child is missing or is a directory |
| FileSystems.FileSystem.Save | BSAI23029_PHASE1.cpp:205-213 | nothing when the file cannot be opened, otherwise the writer's lines for the tree from the root |
| FileSystems.FileSystem.Load | BSAI23029_PHASE1.cpp:215-225 | when the file cannot be opened, nothing changes; otherwise the tree becomes the one decoded, the cursor is its root, and the invariant holds |
| FileSystems.FileSystem.Replace | BSAI23029_PHASE1.cpp:221-223 | after the replacement the tree is the given one, root and cursor are its head, and the invariant holds |
| FileSystems.FileSystem.SaveFixed | BSAI23029_PHASE1.cpp:205-213 | `saveToFile` with the corrected writer |
| FileSystems.FileSystem.LoadFixed | BSAI23029_PHASE1.cpp:215-225 | `loadFromFile` with the corrected reader |
| FileSystems.SaveThenLoad | BSAI23029_PHASE1.cpp:205-225 | saving then loading with the source's codec turns the tree into one chain of first children holding every entry in writing order, with `modifiedAt` 0 |
| FileSystems.SaveThenLoadFixed | BSAI23029_PHASE1.cpp:205-225 | saving then loading with the corrected codec restores the tree |
| FileSystems.MkdirCd | BSAI23029_PHASE1.cpp:144-178 | in an empty directory, `mkdir x` then `cd x` enters a new empty directory whose path is the old path plus `x/` |
| FileSystems.MkdirCdRepeatedly | BSAI23029_PHASE1.cpp:144-178 | `mkdir x; cd x`, n times from the root, gives a path that names `x` n times (for any name but `..`) |
| FileSystems.ScenarioArenas | BSAI23029_PHASE1.cpp:239-248 | the arenas after each update of `main` have the expected child chains, and `user` has path `/home/user/` |
| FileSystems.MainScenario | BSAI23029_PHASE1.cpp:239-249 | `main` lists `notes.txt `, prints `Hello World!` and prints the path `/home/user/` |

## Left out

- Console output: each method returns what the source prints. The fixed
  messages ("Directory already exists.", "File not found." and the rest)
  and the trailing `endl` are not modelled. A `false` or `None` result
  stands for the message.
- `executeCommand`, `startCLI`, `main`'s console I/O and `exit(0)`: these are
  the command dispatcher and the interactive loop. `main`'s fixed session is
  modelled as `MainScenario`.
- Files: opening a file becomes the parameter `available`, and its lines are
  a `seq<string>`. `ofstream` truncating the file before the check, and
  `close`, have no counterpart.
- The clock: `time(nullptr)` is the parameter `now`. One value serves both
  timestamps of a node, though the source reads the clock twice.
- `deleteTree` and the destructor: they only free memory. `Load` drops the
  old arena, which has the same effect on the reachable tree.
- `FileSystemException`: it is declared but never thrown.
- A null cursor: a load that reads no node (empty file or empty first line)
  leaves `root` and `current` null. The source then dereferences null in the
  next `mkdir`, `touch`, `cd`, `ls`, `cat` or `pwd`. The model requires
  `current` to be non-null for those operations instead of modelling the
  crash.
- Uninitialised `time_t`: where `deserializeNode` leaves `createdAt` or
  `modifiedAt` uninitialised (a stream already failed or at end of input),
  the model stores 0.
- Codec.DecodeOfEncode, Codec.RoundTripIff, CodecFixed.RoundTripTerminated,
  CodecFixed.RoundTrip, FileSystems.SaveThenLoad, FileSystems.SaveThenLoadFixed:
  these need names and content free of `|` and `\n` (`Codec.PlainTree`). The
  format cannot carry those characters, and the source does not reject them.
- FileSystems.FileSystem.Load: it does not promise unique sibling names
  after a load, because a file can list the same name twice. `mkdir` and
  `touch` keep unique names only when they already were unique.
- A loaded root may have siblings (further records at the outer level of the
  file) and may be a file. The model keeps both, as the source does.
- Nodes.NewEntry, Decimal.ReadLong: `time_t` is modelled as a signed 64-bit
  integer. Line breaks inside a record (which `getline` would split) are not
  modelled, because records are given already split into lines.

## Findings

| source | as written | input that shows it | evidently intended | confidence | as-written member | corrected member |
|---|---|---|---|---|---|---|
| BSAI23029_PHASE1.cpp:59-64, 83-84 | `serializeNode` writes nothing for a null child or sibling, but `deserializeNode` reads a child chain first, ended only by an empty line or end of input | a root `/` with entries `b` and `a`: after save and load, `a` is the child of `b` instead of its sibling | an empty line after each chain, so that reading inverts writing | not executed | Codec.SiblingsBecomeChildren | CodecFixed.RoundTrip |
| BSAI23029_PHASE1.cpp:75-76 | after the third field is read, `ss >> createdAt >> modifiedAt` stops before the bar that precedes `modifiedAt`, so the second extraction fails and stores 0 | the record with fields `a`, `1`, empty, `5`, `7` (joined by bars) loads with `modifiedAt` 0 instead of 7 | skip the bar before reading `modifiedAt` | not executed | Codec.ParseRecordOfRecord | CodecFixed.ParseRecordFixedOfRecord |

The engine's `Save` and `Load` model the code as written. The corrected
codec stands beside them as `SaveFixed` and `LoadFixed`, and
`SaveThenLoad` and `SaveThenLoadFixed` state what a save followed by a
load does under each codec. The intended behaviour comes from the source
itself. The reader's empty-line test (line 68) and its child-then-sibling
recursion (lines 83-84) invert only a writer that ends every chain with an
empty line. Line 61 writes a fifth field that line 76 means to read. The
writer as written emits no terminator line, so the round trip fails for any
node with a sibling.
