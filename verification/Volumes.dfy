/** A file system instance as a table of nodes, and protofs, the file system that keeps such a table
    in one page (fs/protofs/file_system.c). */
module Volumes {
  import opened Arch

  const ROOT := 0xFFFF_FFFF   // PROTOFS_ROOT_NODE

  /** protofs_node_t; the parent is a node number, ROOT for the children of the root. */
  datatype Node = Node(empty: bool, parent: nat, dir: bool, name: string)

  type Volume = seq<Node>

  predicate IsChild(v: Volume, d: nat, i: nat) {
    i < |v| && !v[i].empty && v[i].parent == d
  }

  /** The first child of d at or after index i. */
  function ChildFrom(v: Volume, d: nat, i: nat): (r: Option<nat>)
    ensures r.Some? ==> i <= r.value && IsChild(v, d, r.value)
    ensures forall j :: i <= j && IsChild(v, d, j) ==> r.Some? && r.value <= j
    decreases |v| - i
  {
    if i >= |v| then None
    else if IsChild(v, d, i) then Some(i)
    else ChildFrom(v, d, i + 1)
  }

  /** The first child of d called name at or after index i. */
  function NamedFrom(v: Volume, d: nat, name: string, i: nat): (r: Option<nat>)
    ensures r.Some? ==> i <= r.value && IsChild(v, d, r.value) && v[r.value].name == name
    ensures forall j :: i <= j && IsChild(v, d, j) && v[j].name == name ==> r.Some? && r.value <= j
    decreases |v| - i
  {
    if i >= |v| then None
    else if IsChild(v, d, i) && v[i].name == name then Some(i)
    else NamedFrom(v, d, name, i + 1)
  }

  function FindSub(v: Volume, d: nat, name: string): Option<nat> { NamedFrom(v, d, name, 0) }

  /** What get_inode accepts. */
  predicate Known(v: Volume, n: nat) { n == ROOT || n < |v| }

  predicate IsDir(v: Volume, n: nat) { n == ROOT || (n < |v| && v[n].dir) }

  /** A directory in use. */
  predicate Holds(v: Volume, n: nat) { n == ROOT || (n < |v| && !v[n].empty && v[n].dir) }

  /** Every node hangs below a directory. */
  ghost predicate Sound(v: Volume) {
    |v| < ROOT && forall i :: 0 <= i < |v| ==> Known(v, v[i].parent) && (v[i].empty || Holds(v, v[i].parent))
  }

  /** Filling an empty slot: the new node is found under its name unless an older node of that name
      comes first, and no other lookup changes. */
  lemma CreatedFound(v: Volume, i: nat, n: Node, d: nat, name: string)
    requires i < |v| && v[i].empty && !n.empty
    ensures var old', new' := FindSub(v, d, name), FindSub(v[i := n], d, name);
            new' == if d == n.parent && name == n.name && (old'.None? || i < old'.value) then Some(i) else old'
  {
    var o, w := FindSub(v, d, name), FindSub(v[i := n], d, name);
    if o.Some? { assert IsChild(v[i := n], d, o.value) && v[i := n][o.value].name == name; }
    if w.Some? && w.value != i { assert IsChild(v, d, w.value) && v[w.value].name == name; }
    if d == n.parent && name == n.name { assert IsChild(v[i := n], d, i); }
  }

  /** protofs: the page of nodes. */
  class ProtoFs {
    const page: array<Node>

    constructor (perPage: nat)
      ensures fresh(page) && page.Length == perPage
      ensures forall i :: 0 <= i < perPage ==> page[i].empty
    {
      page := new Node[perPage](i => Node(true, ROOT, false, ""));
    }

    /** protofs_first_child, up to vfs_get_inode. */
    method FirstChild(target: nat) returns (r: Option<nat>)
      ensures r == if IsDir(page[..], target) then ChildFrom(page[..], target, 0) else None
    {
      if target == ROOT || (target < page.Length && page[target].dir) {
        r := Scan(target, 0);
      } else {
        r := None;
      }
    }

    /** protofs_next_sibling, up to vfs_get_inode. */
    method NextSibling(target: nat) returns (r: Option<nat>)
      requires target == ROOT || target < page.Length
      ensures r == if target == ROOT then None else ChildFrom(page[..], page[target].parent, target + 1)
    {
      if target == ROOT {
        r := None;
      } else {
        r := Scan(page[target].parent, target + 1);
      }
    }

    /** The search loop of both: it counts one past the node it finds. */
    method Scan(d: nat, start: nat) returns (r: Option<nat>)
      ensures r == ChildFrom(page[..], d, start)
    {
      var i, found := start, false;
      while i < page.Length && !found
        invariant start <= i
        invariant !found ==> ChildFrom(page[..], d, i) == ChildFrom(page[..], d, start)
        invariant found ==> i > start && ChildFrom(page[..], d, start) == Some(i - 1)
      {
        if !page[i].empty && page[i].parent == d {
          found := true;
        }
        i := i + 1;
      }
      r := if found then Some(i - 1) else None;
    }

    /** protofs_find_sub_node, up to vfs_get_inode. */
    method FindSubNode(target: nat, name: string) returns (r: Option<nat>)
      ensures r == if IsDir(page[..], target) then FindSub(page[..], target, name) else None
    {
      r := None;
      if target == ROOT || (target < page.Length && page[target].dir) {
        var i, found := 0, false;
        while i < page.Length && !found
          invariant 0 <= i
          invariant !found ==> NamedFrom(page[..], target, name, i) == FindSub(page[..], target, name)
          invariant found ==> i > 0 && FindSub(page[..], target, name) == Some(i - 1)
        {
          if !page[i].empty && page[i].parent == target && page[i].name == name {
            found := true;
          }
          i := i + 1;
        }
        if found { r := Some(i - 1); }
      }
    }

    /** protofs_create_node, up to vfs_get_inode: the first empty slot is used. The parent is not looked
        at, so the tree stays sound exactly when it is a directory in use. */
    method CreateNode(parent: nat, name: string, dir: bool) returns (r: Option<nat>)
      modifies page
      ensures r.None? ==> page[..] == old(page[..]) && forall i :: 0 <= i < page.Length ==> !page[i].empty
      ensures r.Some? ==> r.value < page.Length && old(page[r.value]).empty
                          && (forall j :: 0 <= j < r.value ==> !old(page[j]).empty)
                          && page[..] == old(page[..])[r.value := Node(false, parent, dir, name)]
      ensures old(Sound(page[..])) ==> (Sound(page[..]) <==> r.None? || Holds(page[..], parent))
    {
      var i: nat, cur: Option<nat> := 0, None;
      while i < page.Length && cur.None?
        invariant 0 <= i <= page.Length
        invariant cur.None? ==> forall j :: 0 <= j < i ==> !page[j].empty
        invariant cur.Some? ==> cur.value < page.Length && page[cur.value].empty
                                && forall j :: 0 <= j < cur.value ==> !page[j].empty
      {
        if page[i].empty { cur := Some(i); }
        i := i + 1;
      }
      r := cur;
      if cur.Some? {
        page[cur.value] := Node(false, parent, dir, name);
      }
    }
  }
}
