/** The `FileSystem` object: the node arena, the root and the current
    directory, and the shell operations that walk and update them. */
module FileSystems {
  import opened Nodes
  import opened Arena
  import Codec
  import CodecFixed

  class FileSystem {
    /** Every node allocated since the last load; index `i` stands for the
        node at that address. */
    var nodes: seq<Rec>
    var root: Option<nat>
    var current: Option<nat>

    /** The link discipline holds, every parent link is mirrored by a child
        chain, the root has no parent, and the current directory lies below
        the root. Root and current are null together, which only a load of an
        empty file brings about. */
    ghost predicate Valid()
      reads this
    {
      Linked(nodes) && Registered(nodes) &&
      In(nodes, root) && In(nodes, current) &&
      (root.None? <==> current.None?) &&
      (root.None? ==> nodes == []) &&
      (root.Some? ==> nodes[root.value].parent.None? && Top(nodes, current.value) == root.value)
    }

    /** The tree the filesystem holds, from the root (with the root's own
        sibling chain, which only a load can give it). */
    function Contents(): Tree
      reads this
      requires Valid()
    {
      ToTree(nodes, root)
    }

    /** A new filesystem: a root directory named `/`, which is also the
        current directory. */
    constructor (now: Time)
      ensures Valid() && root == Some(0) && current == Some(0)
      ensures nodes == [Rec(NewEntry("/", true, now), None, None, None)]
      ensures Contents() == N(NewEntry("/", true, now), Nil, Nil)
      ensures UniqueNames(nodes)
    {
      nodes := [Rec(NewEntry("/", true, now), None, None, None)];
      root := Some(0);
      current := Some(0);
      new;
      assert LinkedAt(nodes, 0);
      assert Children(nodes, 0) == [];
      assert ToTree(nodes, Some(0)) == N(nodes[0].entry, ToTree(nodes, None), ToTree(nodes, None));
    }

    /** `findChild`: walk the child chain of `p` and stop at the first node
        named `name`. */
    method FindChild(p: nat, name: string) returns (r: Option<nat>)
      requires Valid() && p < |nodes|
      ensures r == Find(nodes, Children(nodes, p), name)
      ensures r.None? <==> forall k :: 0 <= k < |Children(nodes, p)| ==> nodes[Children(nodes, p)[k]].entry.name != name
      ensures r.Some? ==> r.value < |nodes| && nodes[r.value].parent == Some(p) && nodes[r.value].entry.name == name
    {
      assert LinkedAt(nodes, p);
      var child := nodes[p].firstChild;
      while child.Some?
        invariant In(nodes, child)
        invariant Find(nodes, Chain(nodes, child), name) == Find(nodes, Children(nodes, p), name)
        decreases if child.Some? then child.value + 1 else 0
      {
        assert LinkedAt(nodes, child.value);
        if nodes[child.value].entry.name == name {
          r := child;
          FindOnChildren(p, name);
          return;
        }
        child := nodes[child.value].nextSibling;
      }
      r := None;
      FindOnChildren(p, name);
    }

    /** What `Find` on the children of `p` says about the node it returns. */
    lemma FindOnChildren(p: nat, name: string)
      requires Valid() && p < |nodes|
      ensures var r := Find(nodes, Children(nodes, p), name);
              (r.None? <==> forall k :: 0 <= k < |Children(nodes, p)| ==> nodes[Children(nodes, p)[k]].entry.name != name) &&
              (r.Some? ==> r.value < |nodes| && nodes[r.value].parent == Some(p) && nodes[r.value].entry.name == name)
    {
      FindFirst(nodes, Children(nodes, p), name);
      ChildrenParent(nodes, p);
    }

    /** `mkdir`: unless the current directory already has a child named
        `name`, put a new directory of that name at the front of its child
        chain. */
    method Mkdir(name: string, now: Time) returns (created: bool)
      requires Valid() && current.Some?
      modifies this
      ensures Valid() && root == old(root) && current == old(current)
      ensures created <==> Find(old(nodes), Children(old(nodes), current.value), name).None?
      ensures created ==> nodes == Prepend(old(nodes), current.value, NewEntry(name, true, now))
      ensures !created ==> nodes == old(nodes)
      ensures created ==> Children(nodes, current.value) == [|old(nodes)|] + Children(old(nodes), current.value)
      ensures created ==> Children(nodes, |old(nodes)|) == []
      ensures created ==> PathOf(nodes, |old(nodes)|) == PathOf(nodes, current.value) + name + "/"
      ensures forall i :: 0 <= i < |old(nodes)| ==> PathOf(nodes, i) == PathOf(old(nodes), i)
      ensures old(UniqueNames(nodes)) ==> UniqueNames(nodes)
    {
      created := AddChild(name, NewEntry(name, true, now));
    }

    /** `touch`: unless the current directory already has a child named
        `name`, put a new file with that content at the front of its child
        chain. */
    method Touch(name: string, content: string, now: Time) returns (created: bool)
      requires Valid() && current.Some?
      modifies this
      ensures Valid() && root == old(root) && current == old(current)
      ensures created <==> Find(old(nodes), Children(old(nodes), current.value), name).None?
      ensures created ==> nodes == Prepend(old(nodes), current.value, NewEntry(name, false, now).(content := content))
      ensures !created ==> nodes == old(nodes)
      ensures created ==> Children(nodes, current.value) == [|old(nodes)|] + Children(old(nodes), current.value)
      ensures created ==> Children(nodes, |old(nodes)|) == []
      ensures created ==> PathOf(nodes, |old(nodes)|) == PathOf(nodes, current.value) + name + "/"
      ensures forall i :: 0 <= i < |old(nodes)| ==> PathOf(nodes, i) == PathOf(old(nodes), i)
      ensures old(UniqueNames(nodes)) ==> UniqueNames(nodes)
    {
      created := AddChild(name, NewEntry(name, false, now).(content := content));
    }

    /** The steps `mkdir` and `touch` share: look the name up among the
        children of the current directory, and if it is free link the new
        node in as first child. */
    method AddChild(name: string, e: Entry) returns (created: bool)
      requires Valid() && current.Some? && e.name == name
      modifies this
      ensures Valid() && root == old(root) && current == old(current)
      ensures created <==> Find(old(nodes), Children(old(nodes), current.value), name).None?
      ensures created ==> nodes == Prepend(old(nodes), current.value, e)
      ensures !created ==> nodes == old(nodes)
      ensures created ==> Children(nodes, current.value) == [|old(nodes)|] + Children(old(nodes), current.value)
      ensures created ==> Children(nodes, |old(nodes)|) == []
      ensures created ==> PathOf(nodes, |old(nodes)|) == PathOf(nodes, current.value) + name + "/"
      ensures forall i :: 0 <= i < |old(nodes)| ==> PathOf(nodes, i) == PathOf(old(nodes), i)
      ensures old(UniqueNames(nodes)) ==> UniqueNames(nodes)
    {
      var c := current.value;
      var found := FindChild(c, name);
      if found.Some? {
        return false;
      }
      ghost var before := nodes;
      var n := |nodes|;
      nodes := nodes + [Rec(e, Some(c), None, nodes[c].firstChild)];
      nodes := nodes[c := nodes[c].(firstChild := Some(n))];
      created := true;
      assert nodes == Prepend(before, c, e);
      PrependLinked(before, c, e);
      PrependRegistered(before, c, e);
      if UniqueNames(before) {
        PrependUnique(before, c, e);
      }
      assert LinkedAt(nodes, n);
    }

    /** `cd`: `..` moves to the parent, and stays at a node without parent;
        any other name moves to the first child of that name provided it is
        a directory, and otherwise reports that no such directory exists. */
    method Cd(name: string) returns (ok: bool)
      requires Valid() && current.Some?
      modifies this`current
      ensures Valid() && current.Some?
      ensures name == ".." ==>
                ok && current == (if nodes[old(current).value].parent.Some? then nodes[old(current).value].parent
                                  else old(current))
      ensures name != ".." ==>
                var target := Find(nodes, Children(nodes, old(current).value), name);
                (ok <==> target.Some? && nodes[target.value].entry.isDir) &&
                current == (if ok then target else old(current))
      ensures ok && name != ".." ==>
                nodes[current.value].parent == old(current) &&
                PathOf(nodes, current.value) == PathOf(nodes, old(current).value) + name + "/"
      ensures name == ".." && nodes[old(current).value].parent.Some? ==>
                PathOf(nodes, old(current).value) == PathOf(nodes, current.value) + nodes[old(current).value].entry.name + "/"
    {
      var c := current.value;
      assert LinkedAt(nodes, c);
      if name == ".." {
        if nodes[c].parent.Some? {
          current := nodes[c].parent;
        }
        return true;
      }
      var target := FindChild(c, name);
      if target.None? || !nodes[target.value].entry.isDir {
        return false;
      }
      current := target;
      assert LinkedAt(nodes, target.value);
      ok := true;
    }

    /** `pwd`: the path of the current directory. */
    method Pwd() returns (path: string)
      requires Valid() && current.Some?
      ensures path == PathOf(nodes, current.value)
      ensures path == "/" <==> current == root
    {
      path := PathOf(nodes, current.value);
      assert path == "/" <==> nodes[current.value].parent.None?;
    }

    /** `ls`: each child of the current directory in chain order, a
        directory's name followed by `/`, each followed by a space. */
    method Ls() returns (line: string)
      requires Valid() && current.Some?
      ensures line == Listing(nodes, Children(nodes, current.value))
    {
      var a, c := nodes, current.value;
      assert LinkedAt(a, c);
      var child := a[c].firstChild;
      line := "";
      while child.Some?
        invariant In(a, child)
        invariant line + Listing(a, Chain(a, child)) == Listing(a, Children(a, c))
        decreases if child.Some? then child.value + 1 else 0
      {
        var i := child.value;
        assert LinkedAt(a, i);
        var next := a[i].nextSibling;
        ListingCons(a, i, Chain(a, next));
        line := line + Label(a[i].entry) + " ";
        child := next;
      }
      assert line + "" == line;
    }

    /** `cat`: the content of the first child of that name, when it is a
        file; null when there is none or it is a directory. */
    method Cat(name: string) returns (text: Option<string>)
      requires Valid() && current.Some?
      ensures var f := Find(nodes, Children(nodes, current.value), name);
              text == (if f.Some? && !nodes[f.value].entry.isDir then Some(nodes[f.value].entry.content) else None)
      ensures text.Some? ==>
                exists k :: 0 <= k < |Children(nodes, current.value)| &&
                  (var j := Children(nodes, current.value)[k];
                   nodes[j].entry.name == name && !nodes[j].entry.isDir && text.value == nodes[j].entry.content)
    {
      var file := FindChild(current.value, name);
      if file.None? || nodes[file.value].entry.isDir {
        return None;
      }
      text := Some(nodes[file.value].entry.content);
      FindFirst(nodes, Children(nodes, current.value), name);
    }

    /** `saveToFile`: when the file can be opened, one line per node from
        the root on; `None` when it cannot. */
    method Save(available: bool) returns (lines: Option<seq<string>>)
      requires Valid()
      ensures lines.Some? <==> available
      ensures available ==> lines.value == Codec.Encode(Contents())
    {
      if !available {
        return None;
      }
      lines := Some(Codec.Encode(ToTree(nodes, root)));
    }

    /** `loadFromFile`: when the file can be opened, the tree is replaced by
        the one read from `lines`, and the current directory becomes its
        root; otherwise nothing changes. */
    method Load(available: bool, lines: seq<string>) returns (ok: bool)
      requires Valid()
      modifies this
      ensures Valid() && ok == available
      ensures !available ==> nodes == old(nodes) && root == old(root) && current == old(current)
      ensures available ==> Contents() == Codec.Decode(lines).0 && current == root
      ensures available ==> (root.None? <==> Codec.Decode(lines).0.Nil?)
    {
      if !available {
        return false;
      }
      Replace(Codec.Decode(lines).0);
      ok := true;
    }

    /** The tree replacement of `loadFromFile`: the old nodes are dropped,
        the new tree is built in their place, and root and current directory
        both become its head. */
    method Replace(t: Tree)
      modifies this
      ensures Valid() && Contents() == t && current == root
      ensures root.None? <==> t.Nil?
    {
      var placed := Place(t, None, []);
      nodes := placed.0;
      root := placed.1;
      current := root;
      PlaceRoot(t);
    }

    /** `saveToFile` with the corrected writer. */
    method SaveFixed(available: bool) returns (lines: Option<seq<string>>)
      requires Valid()
      ensures lines.Some? <==> available
      ensures available ==> lines.value == CodecFixed.EncodeTerminated(Contents())
    {
      if !available {
        return None;
      }
      lines := Some(CodecFixed.EncodeTerminated(ToTree(nodes, root)));
    }

    /** `loadFromFile` with the corrected reader. */
    method LoadFixed(available: bool, lines: seq<string>) returns (ok: bool)
      requires Valid()
      modifies this
      ensures Valid() && ok == available
      ensures !available ==> nodes == old(nodes) && root == old(root) && current == old(current)
      ensures available ==> Contents() == CodecFixed.DecodeFixed(lines).0 && current == root
    {
      if !available {
        return false;
      }
      Replace(CodecFixed.DecodeFixed(lines).0);
      ok := true;
    }
  }

  /** Saving and loading again with the source's codec: the tree comes back
      as one chain of first children holding every entry in encoding order,
      with `modifiedAt` cleared. */
  method SaveThenLoad(fs: FileSystem) returns (before: Tree)
    requires fs.Valid() && Codec.PlainTree(fs.Contents())
    modifies fs
    ensures before == old(fs.Contents())
    ensures fs.Valid() && fs.current == fs.root
    ensures Codec.IsChain(fs.Contents()) && PreOrder(fs.Contents()) == Codec.Stripped(PreOrder(before))
  {
    before := fs.Contents();
    var lines := fs.Save(true);
    var ok := fs.Load(true, lines.value);
    Codec.DecodeOfEncode(before);
  }

  /** Saving and loading again with the corrected codec restores the tree. */
  method SaveThenLoadFixed(fs: FileSystem) returns (before: Tree)
    requires fs.Valid() && Codec.PlainTree(fs.Contents())
    modifies fs
    ensures before == old(fs.Contents())
    ensures fs.Valid() && fs.current == fs.root && fs.Contents() == before
  {
    before := fs.Contents();
    var lines := fs.SaveFixed(true);
    var ok := fs.LoadFixed(true, lines.value);
    CodecFixed.RoundTrip(before);
  }

  /** How `ls` shows one entry. */
  function Label(e: Entry): (s: string)
    ensures s == e.name || (e.isDir && s == e.name + "/")
    ensures e.isDir <==> s == e.name + "/"
  {
    if e.isDir then e.name + "/" else e.name
  }

  /** The line `ls` prints for the nodes `ch`: each label followed by a
      space, in the order of `ch`. */
  function Listing(a: seq<Rec>, ch: seq<nat>): (r: string)
    requires forall k :: 0 <= k < |ch| ==> ch[k] < |a|
  {
    if ch == [] then "" else Label(a[ch[0]].entry) + " " + Listing(a, ch[1..])
  }

  lemma ListingCons(a: seq<Rec>, i: nat, ch: seq<nat>)
    requires i < |a| && forall k :: 0 <= k < |ch| ==> ch[k] < |a|
    ensures Listing(a, [i] + ch) == Label(a[i].entry) + " " + Listing(a, ch)
  {
    assert ([i] + ch)[1..] == ch;
  }

  /** The path after `mkdir x` then `cd x`, `n` times over, from the root. */
  function RepeatedPath(x: string, n: nat): (p: string)
    ensures |p| == 1 + n * (|x| + 1)
  {
    if n == 0 then "/" else RepeatedPath(x, n - 1) + x + "/"
  }

  /** `mkdir x` followed by `cd x`, `n` times over on a new filesystem, ends
      in the directory whose path names `x` `n` times. The name `..` is the
      exception: `cd ..` always goes up. */
  method MkdirCdRepeatedly(x: string, n: nat, now: Time) returns (path: string)
    requires x != ".."
    ensures path == RepeatedPath(x, n)
  {
    var fs := new FileSystem(now);
    var i := 0;
    while i < n
      invariant 0 <= i <= n
      invariant fs.Valid() && fs.current.Some?
      invariant Children(fs.nodes, fs.current.value) == []
      invariant PathOf(fs.nodes, fs.current.value) == RepeatedPath(x, i)
    {
      MkdirCd(fs, x, now);
      i := i + 1;
    }
    path := fs.Pwd();
  }

  /** One round of `mkdir x`, `cd x` in an empty directory: it enters the
      new, empty directory, one level deeper. */
  method MkdirCd(fs: FileSystem, x: string, now: Time)
    requires fs.Valid() && fs.current.Some? && Children(fs.nodes, fs.current.value) == []
    requires x != ".."
    modifies fs
    ensures fs.Valid() && fs.current.Some? && Children(fs.nodes, fs.current.value) == []
    ensures PathOf(fs.nodes, fs.current.value) == old(PathOf(fs.nodes, fs.current.value)) + x + "/"
  {
    var created := fs.Mkdir(x, now);
    var n := |fs.nodes| - 1;
    assert Children(fs.nodes, fs.current.value) == [n];
    assert Find(fs.nodes, [n], x) == Some(n);
    var ok := fs.Cd(x);
  }

  /** The session `main` runs: make `home`, enter it, make `user`, enter it,
      create `notes.txt` holding `Hello World!`, then list, print the file
      and print the path. */
  method MainScenario(now: Time) returns (listing: string, text: Option<string>, path: string)
    ensures listing == "notes.txt "
    ensures text == Some("Hello World!")
    ensures path == "/home/user/"
  {
    ScenarioArenas(now);
    var fs := EnterHome(now);
    EnterUser(fs, now);
    MakeNotes(fs, now);
    listing := fs.Ls();
    text := fs.Cat("notes.txt");
    path := fs.Pwd();
  }

  /** `mkdir home`, `cd home` on a new filesystem. */
  method EnterHome(now: Time) returns (fs: FileSystem)
    ensures fresh(fs)
    ensures fs.Valid() && fs.nodes == HomeArena(now) && fs.current == Some(1)
  {
    ScenarioArenas(now);
    fs := new FileSystem(now);
    var ok := fs.Mkdir("home", now);
    assert fs.nodes == HomeArena(now);
    ok := fs.Cd("home");
  }

  /** `mkdir user`, `cd user` inside `/home/`. */
  method EnterUser(fs: FileSystem, now: Time)
    requires fs.Valid() && fs.nodes == HomeArena(now) && fs.current == Some(1)
    modifies fs
    ensures fs.Valid() && fs.nodes == UserArena(now) && fs.current == Some(2)
  {
    ScenarioArenas(now);
    var ok := fs.Mkdir("user", now);
    assert fs.nodes == UserArena(now);
    ok := fs.Cd("user");
  }

  /** `touch notes.txt Hello World!` inside `/home/user/`. */
  method MakeNotes(fs: FileSystem, now: Time)
    requires fs.Valid() && fs.nodes == UserArena(now) && fs.current == Some(2)
    modifies fs
    ensures fs.Valid() && fs.nodes == NotesArena(now) && fs.current == Some(2)
  {
    ScenarioArenas(now);
    var ok := fs.Touch("notes.txt", "Hello World!", now);
  }

  /** The arena after each update of the session `main` runs. */
  function RootArena(now: Time): seq<Rec> { [Rec(NewEntry("/", true, now), None, None, None)] }
  function HomeArena(now: Time): seq<Rec> { Prepend(RootArena(now), 0, NewEntry("home", true, now)) }
  function UserArena(now: Time): seq<Rec> { Prepend(HomeArena(now), 1, NewEntry("user", true, now)) }
  function NotesArena(now: Time): seq<Rec>
  {
    Prepend(UserArena(now), 2, NewEntry("notes.txt", false, now).(content := "Hello World!"))
  }

  /** The child chains and paths the session relies on. */
  lemma ScenarioArenas(now: Time)
    ensures Linked(RootArena(now)) && Children(RootArena(now), 0) == []
    ensures Linked(HomeArena(now)) && Children(HomeArena(now), 0) == [1] && Children(HomeArena(now), 1) == []
    ensures Linked(UserArena(now)) && Children(UserArena(now), 1) == [2] && Children(UserArena(now), 2) == []
    ensures Linked(NotesArena(now)) && Children(NotesArena(now), 2) == [3]
    ensures PathOf(NotesArena(now), 2) == "/home/user/"
  {
    var a0, a1, a2, a3 := RootArena(now), HomeArena(now), UserArena(now), NotesArena(now);
    assert LinkedAt(a0, 0);
    assert Children(a0, 0) == [];
    PrependLinked(a0, 0, NewEntry("home", true, now));
    assert Children(a1, 1) == [] by { assert LinkedAt(a1, 1); }
    PrependLinked(a1, 1, NewEntry("user", true, now));
    assert Children(a2, 2) == [] by { assert LinkedAt(a2, 2); }
    PrependLinked(a2, 2, NewEntry("notes.txt", false, now).(content := "Hello World!"));
    assert PathOf(a3, 2) == PathOf(a3, 1) + "user/" by { assert LinkedAt(a3, 2); }
    assert PathOf(a3, 1) == "/home/" by { assert LinkedAt(a3, 1); assert LinkedAt(a3, 0); }
  }
}
