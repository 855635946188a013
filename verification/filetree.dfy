/** The directory tree side panel (src/view/filetree.rs): a tree of
    directories and files with per-directory expand flags, the visible-row
    count, the pre-order path list, the display rows, expand/collapse of the
    directory found by path, the cursor and scroll rules, and the reload
    after the directory changes on disk. Directory listings are inputs. */
module FileTree {
  import opened Wrappers
  import opened Arith
  import opened Geometry

  type Path = seq<char>

  /** `DirItem`: a directory (`Dir`, with its `is_show` flag and its items) or
      a file. `name` is the display label. */
  datatype Item =
    | Dir(path: Path, name: seq<char>, expanded: bool, children: seq<Item>)
    | File(name: seq<char>, path: Path)

  /** `DirItem::len` / `Dir::len`: rows the item occupies; an expanded
      directory adds the rows of its items below its own row. */
  function ItemLen(it: Item): nat
    decreases it
  {
    match it
    case File(_, _) => 1
    case Dir(_, _, expanded, children) => if expanded then 1 + ItemsLen(children) else 1
  }

  /** `FileTree::len`: the rows of a list of items. */
  function ItemsLen(items: seq<Item>): nat
    decreases items
  {
    if |items| == 0 then 0 else ItemLen(items[0]) + ItemsLen(items[1..])
  }

  /** `flatten` of one item. */
  function ItemPaths(it: Item): seq<Path>
    decreases it
  {
    match it
    case File(_, path) => [path]
    case Dir(path, _, expanded, children) => [path] + (if expanded then Flatten(children) else [])
  }

  /** `flatten`: the paths of the visible rows, each directory before its
      items (pre-order), collapsed directories without their items. */
  function Flatten(items: seq<Item>): seq<Path>
    decreases items
  {
    if |items| == 0 then [] else ItemPaths(items[0]) + Flatten(items[1..])
  }

  /** A display row: nesting depth and label. The label is painted after a
      three-space head and two spaces per level. */
  datatype Row = Row(depth: nat, name: seq<char>)

  function Indent(n: nat): seq<char>
  {
    if n == 0 then [] else [' '] + Indent(n - 1)
  }

  /** The text of a row, without the colour escape that precedes it. */
  function Label(r: Row): (s: seq<char>)
    ensures |s| == 3 + 2 * r.depth + |r.name|
    ensures forall k :: 0 <= k < 3 + 2 * r.depth ==> s[k] == ' '
    ensures s[3 + 2 * r.depth..] == r.name
  {
    IndentLength(2 * r.depth);
    "   " + Indent(2 * r.depth) + r.name
  }

  lemma {:induction false} IndentLength(n: nat)
    ensures |Indent(n)| == n
    ensures forall k :: 0 <= k < n ==> Indent(n)[k] == ' '
  {
    if n > 0 {
      IndentLength(n - 1);
    }
  }

  function ItemRows(it: Item, depth: nat): seq<Row>
    decreases it
  {
    match it
    case File(name, _) => [Row(depth, name)]
    case Dir(_, name, expanded, children) =>
      [Row(depth, name)] + (if expanded then DisplayRows(children, depth + 1) else [])
  }

  /** The display list of `update` (depth 0) and `Dir::faltten` (deeper). */
  function DisplayRows(items: seq<Item>, depth: nat): seq<Row>
    decreases items
  {
    if |items| == 0 then [] else ItemRows(items[0], depth) + DisplayRows(items[1..], depth)
  }

  /** The item on visible row `i` of `it`, found by walking down the tree with
      the row counts alone (no flattening). */
  function ItemAt(it: Item, i: nat): Item
    requires i < ItemLen(it)
    decreases it
  {
    if i == 0 then it else ItemsAt(it.children, i - 1)
  }

  function ItemsAt(items: seq<Item>, i: nat): Item
    requires i < ItemsLen(items)
    decreases items
  {
    if i < ItemLen(items[0]) then ItemAt(items[0], i) else ItemsAt(items[1..], i - ItemLen(items[0]))
  }

  /** `flatten` lists exactly `len` paths, and row `i` holds the path of the
      item the row counts locate. */
  lemma {:induction false} ItemPathsSpec(it: Item)
    ensures |ItemPaths(it)| == ItemLen(it)
    ensures forall i :: 0 <= i < ItemLen(it) ==> ItemPaths(it)[i] == ItemAt(it, i).path
    decreases it
  {
    if it.Dir? && it.expanded {
      FlattenSpec(it.children);
      forall i | 0 <= i < ItemLen(it)
        ensures ItemPaths(it)[i] == ItemAt(it, i).path
      {
        if i > 0 { assert ItemPaths(it)[i] == Flatten(it.children)[i - 1]; }
      }
    }
  }

  lemma {:induction false} FlattenSpec(items: seq<Item>)
    ensures |Flatten(items)| == ItemsLen(items)
    ensures forall i :: 0 <= i < ItemsLen(items) ==> Flatten(items)[i] == ItemsAt(items, i).path
    decreases items
  {
    if |items| > 0 {
      ItemPathsSpec(items[0]);
      FlattenSpec(items[1..]);
      var h := ItemPaths(items[0]);
      forall i | 0 <= i < ItemsLen(items)
        ensures Flatten(items)[i] == ItemsAt(items, i).path
      {
        if i >= |h| { assert Flatten(items)[i] == Flatten(items[1..])[i - |h|]; }
      }
    }
  }

  /** The display list has a row per visible item, in the same order as
      `flatten`: row `i` shows the name of the item whose path is `flatten[i]`. */
  lemma {:induction false} ItemRowsSpec(it: Item, depth: nat)
    ensures |ItemRows(it, depth)| == ItemLen(it)
    ensures forall i :: 0 <= i < ItemLen(it) ==> ItemRows(it, depth)[i].name == ItemAt(it, i).name
    ensures ItemRows(it, depth)[0].depth == depth
    decreases it
  {
    if it.Dir? && it.expanded {
      DisplayRowsSpec(it.children, depth + 1);
      forall i | 0 <= i < ItemLen(it)
        ensures ItemRows(it, depth)[i].name == ItemAt(it, i).name
      {
        if i > 0 { assert ItemRows(it, depth)[i] == DisplayRows(it.children, depth + 1)[i - 1]; }
      }
    }
  }

  lemma {:induction false} DisplayRowsSpec(items: seq<Item>, depth: nat)
    ensures |DisplayRows(items, depth)| == ItemsLen(items)
    ensures forall i :: 0 <= i < ItemsLen(items) ==> DisplayRows(items, depth)[i].name == ItemsAt(items, i).name
    decreases items
  {
    if |items| > 0 {
      ItemRowsSpec(items[0], depth);
      DisplayRowsSpec(items[1..], depth);
      var h := ItemRows(items[0], depth);
      forall i | 0 <= i < ItemsLen(items)
        ensures DisplayRows(items, depth)[i].name == ItemsAt(items, i).name
      {
        if i >= |h| { assert DisplayRows(items, depth)[i] == DisplayRows(items[1..], depth)[i - |h|]; }
      }
    }
  }

  /** `len`, `flatten` and the display list agree row by row. */
  lemma RowsAgree(items: seq<Item>)
    ensures |Flatten(items)| == ItemsLen(items) == |DisplayRows(items, 0)|
    ensures forall i :: 0 <= i < ItemsLen(items) ==>
      Flatten(items)[i] == ItemsAt(items, i).path && DisplayRows(items, 0)[i].name == ItemsAt(items, i).name
  {
    FlattenSpec(items);
    DisplayRowsSpec(items, 0);
  }

  /** `search_mut_dir`: the first directory, depth first and including the
      items of collapsed directories, whose path is `p`; a file is never
      returned. */
  function FindItem(it: Item, p: Path): (r: Option<Item>)
    ensures r.Some? ==> r.value.Dir? && r.value.path == p
    decreases it
  {
    match it
    case File(_, _) => None
    case Dir(path, _, _, children) => if path == p then Some(it) else FindIn(children, p)
  }

  /** The loop over the top-level items in `enter`. */
  function FindIn(items: seq<Item>, p: Path): (r: Option<Item>)
    ensures r.Some? ==> r.value.Dir? && r.value.path == p
    decreases items
  {
    if |items| == 0 then None
    else
      var r := FindItem(items[0], p);
      if r.Some? then r else FindIn(items[1..], p)
  }

  /** `open` (set the flag and take a fresh listing, directories first as
      `read_dir_item` sorts it) or `close` (clear the flag, keep the items)
      of one directory. */
  function Flip(d: Item, listing: seq<Item>): (r: Item)
    requires d.Dir?
    ensures r.Dir? && r.path == d.path && r.name == d.name && r.expanded == !d.expanded
    ensures d.expanded ==> r.children == d.children
    ensures !d.expanded ==> r.children == OrderListing(listing)
  {
    if d.expanded then d.(expanded := false) else d.(expanded := true, children := OrderListing(listing))
  }

  /** Flip the directory `search_mut_dir` finds; reports whether one was found. */
  function ToggleItem(it: Item, p: Path, listing: seq<Item>): (Item, bool)
    decreases it
  {
    match it
    case File(_, _) => (it, false)
    case Dir(path, _, _, children) =>
      if path == p then (Flip(it, listing), true)
      else
        var (cs, found) := ToggleIn(children, p, listing);
        (it.(children := cs), found)
  }

  function ToggleIn(items: seq<Item>, p: Path, listing: seq<Item>): (seq<Item>, bool)
    decreases items
  {
    if |items| == 0 then (items, false)
    else
      var (first, found) := ToggleItem(items[0], p, listing);
      if found then ([first] + items[1..], true)
      else
        var (rest, found') := ToggleIn(items[1..], p, listing);
        ([items[0]] + rest, found')
  }

  /** Toggling finds a directory exactly when the search does, changes nothing
      when there is none, and otherwise leaves the flipped directory as the
      one the search now finds. */
  lemma {:induction false} ToggleItemSpec(it: Item, p: Path, listing: seq<Item>)
    ensures ToggleItem(it, p, listing).1 <==> FindItem(it, p).Some?
    ensures !ToggleItem(it, p, listing).1 ==> ToggleItem(it, p, listing).0 == it
    ensures FindItem(it, p).Some? ==>
      FindItem(ToggleItem(it, p, listing).0, p) == Some(Flip(FindItem(it, p).value, listing))
    decreases it
  {
    if it.Dir? && it.path != p {
      ToggleInSpec(it.children, p, listing);
    }
  }

  lemma {:induction false} ToggleInSpec(items: seq<Item>, p: Path, listing: seq<Item>)
    ensures ToggleIn(items, p, listing).1 <==> FindIn(items, p).Some?
    ensures !ToggleIn(items, p, listing).1 ==> ToggleIn(items, p, listing).0 == items
    ensures FindIn(items, p).Some? ==>
      FindIn(ToggleIn(items, p, listing).0, p) == Some(Flip(FindIn(items, p).value, listing))
    decreases items
  {
    if |items| > 0 {
      ToggleItemSpec(items[0], p, listing);
      ToggleInSpec(items[1..], p, listing);
      var (first, found) := ToggleItem(items[0], p, listing);
      if found {
        assert ([first] + items[1..])[0] == first;
      } else {
        var rest := ToggleIn(items[1..], p, listing).0;
        assert ([items[0]] + rest)[0] == items[0];
        assert ([items[0]] + rest)[1..] == rest;
        assert [items[0]] + items[1..] == items;
      }
    }
  }

  /** Collapsing an expanded directory and expanding it again with the items
      it had (a listing `open` produced, so directories first) restores the
      tree. */
  lemma {:induction false} ToggleItemTwice(it: Item, p: Path, listing: seq<Item>)
    requires FindItem(it, p).Some? && FindItem(it, p).value.expanded
    requires DirsFirst(FindItem(it, p).value.children)
    ensures ToggleItem(ToggleItem(it, p, listing).0, p, FindItem(it, p).value.children).0 == it
    decreases it
  {
    if it.path != p {
      ToggleInTwice(it.children, p, listing);
    } else {
      OrderListingKeepsOrdered(it.children);
    }
  }

  lemma {:induction false} ToggleInTwice(items: seq<Item>, p: Path, listing: seq<Item>)
    requires FindIn(items, p).Some? && FindIn(items, p).value.expanded
    requires DirsFirst(FindIn(items, p).value.children)
    ensures ToggleIn(ToggleIn(items, p, listing).0, p, FindIn(items, p).value.children).0 == items
    decreases items
  {
    var d := FindIn(items, p).value;
    ToggleItemSpec(items[0], p, listing);
    var (first, found) := ToggleItem(items[0], p, listing);
    if found {
      assert FindItem(items[0], p) == Some(d);
      ToggleItemTwice(items[0], p, listing);
      ToggleItemSpec(first, p, d.children);
      assert ToggleItem(first, p, d.children) == (items[0], true);
      assert ([first] + items[1..])[0] == first;
      assert ([first] + items[1..])[1..] == items[1..];
      assert ToggleIn(items, p, listing).0 == [first] + items[1..];
      assert ToggleIn([first] + items[1..], p, d.children).0 == [items[0]] + items[1..];
      assert [items[0]] + items[1..] == items;
    } else {
      ToggleItemSpec(items[0], p, d.children);
      ToggleInSpec(items[1..], p, listing);
      ToggleInTwice(items[1..], p, listing);
      var rest := ToggleIn(items[1..], p, listing).0;
      assert ([items[0]] + rest)[0] == items[0];
      assert ([items[0]] + rest)[1..] == rest;
      assert [items[0]] + items[1..] == items;
    }
  }

  /** A directory on a visible row is reachable by the path search, so
      pressing Enter on it always toggles a directory with that path. */
  lemma {:induction false} VisibleDirFound(items: seq<Item>, i: nat)
    requires i < ItemsLen(items) && ItemsAt(items, i).Dir?
    ensures FindIn(items, ItemsAt(items, i).path).Some?
    decreases items
  {
    var p := ItemsAt(items, i).path;
    if FindItem(items[0], p).None? {
      if i < ItemLen(items[0]) {
        VisibleDirFoundItem(items[0], i);
      } else {
        VisibleDirFound(items[1..], i - ItemLen(items[0]));
      }
    }
  }

  lemma {:induction false} VisibleDirFoundItem(it: Item, i: nat)
    requires i < ItemLen(it) && ItemAt(it, i).Dir?
    ensures FindItem(it, ItemAt(it, i).path).Some?
    decreases it
  {
    if i > 0 && it.path != ItemAt(it, i).path {
      VisibleDirFound(it.children, i - 1);
    }
  }

  /** `read_dir_item`'s sort: every directory before every file. The source's
      unstable sort leaves the order inside each group open; this model keeps
      the listing order. */
  function OrderListing(items: seq<Item>): (r: seq<Item>)
    ensures |r| == |items|
  {
    PartitionLength(items);
    Dirs(items) + Files(items)
  }

  function Dirs(items: seq<Item>): seq<Item>
  {
    if |items| == 0 then [] else (if items[0].Dir? then [items[0]] else []) + Dirs(items[1..])
  }

  function Files(items: seq<Item>): seq<Item>
  {
    if |items| == 0 then [] else (if items[0].File? then [items[0]] else []) + Files(items[1..])
  }

  /** The ordered listing is a permutation of the listing with every directory
      before every file. */
  lemma {:induction false} OrderListingSpec(items: seq<Item>)
    ensures multiset(OrderListing(items)) == multiset(items)
    ensures forall a, b :: 0 <= a < b < |items| && OrderListing(items)[b].Dir? ==> OrderListing(items)[a].Dir?
  {
    PartitionMultiset(items);
    PartitionLength(items);
    PartitionKinds(items);
    var r := OrderListing(items);
    var n := |Dirs(items)|;
    assert forall k :: n <= k < |items| ==> r[k] == Files(items)[k - n];
    assert forall k :: n <= k < |items| ==> r[k].File?;
  }

  /** Every directory before every file. */
  predicate DirsFirst(items: seq<Item>)
  {
    forall a, b :: 0 <= a < b < |items| && items[b].Dir? ==> items[a].Dir?
  }

  /** A listing already in order is left as it is, so ordering twice is
      ordering once. */
  lemma {:induction false} OrderListingKeepsOrdered(items: seq<Item>)
    requires DirsFirst(items)
    ensures OrderListing(items) == items
  {
    if |items| > 0 {
      var x, rest := items[0], items[1..];
      DirsFirstTail(items);
      if x.Dir? {
        OrderListingKeepsOrdered(rest);
        DirHead(x, rest);
        assert items == [x] + rest;
      } else {
        AllFiles(items);
      }
    }
  }

  lemma DirsFirstTail(items: seq<Item>)
    requires DirsFirst(items) && |items| > 0
    ensures DirsFirst(items[1..])
  {
    var rest := items[1..];
    forall a, b | 0 <= a < b < |rest| && rest[b].Dir?
      ensures rest[a].Dir?
    {
      assert items[b + 1] == rest[b] && items[a + 1] == rest[a];
    }
  }

  lemma DirHead(x: Item, rest: seq<Item>)
    requires x.Dir?
    ensures OrderListing([x] + rest) == [x] + OrderListing(rest)
  {
    assert ([x] + rest)[1..] == rest;
  }

  /** A listing that starts with a file and is in order holds files only. */
  lemma {:induction false} AllFiles(items: seq<Item>)
    requires DirsFirst(items) && (|items| > 0 ==> items[0].File?)
    ensures Dirs(items) == [] && Files(items) == items
  {
    if |items| > 0 {
      var rest := items[1..];
      DirsFirstTail(items);
      if |rest| > 0 {
        assert items[1] == rest[0];
      }
      AllFiles(rest);
      assert items == [items[0]] + rest;
    }
  }

  lemma {:induction false} PartitionLength(items: seq<Item>)
    ensures |Dirs(items)| + |Files(items)| == |items|
  {
    if |items| > 0 {
      PartitionLength(items[1..]);
    }
  }

  lemma {:induction false} PartitionMultiset(items: seq<Item>)
    ensures multiset(Dirs(items)) + multiset(Files(items)) == multiset(items)
  {
    if |items| > 0 {
      var x, rest := items[0], items[1..];
      PartitionMultiset(rest);
      assert items == [x] + rest;
      assert multiset(items) == multiset{x} + multiset(rest);
      if x.Dir? {
        assert Dirs(items) == [x] + Dirs(rest) && Files(items) == Files(rest);
      } else {
        assert Dirs(items) == Dirs(rest) && Files(items) == [x] + Files(rest);
      }
    }
  }

  lemma {:induction false} PartitionKinds(items: seq<Item>)
    ensures forall k :: 0 <= k < |Dirs(items)| ==> Dirs(items)[k].Dir?
    ensures forall k :: 0 <= k < |Files(items)| ==> Files(items)[k].File?
  {
    if |items| > 0 {
      PartitionKinds(items[1..]);
    }
  }

  /** `FileTree`'s navigation state. */
  datatype Tree = Tree(items: seq<Item>, line: nat, scroll: nat)

  /** Rows between the top of the panel and the cursor (`curr_line - scroll`,
      a `usize` subtraction). */
  function Offset(t: Tree): nat
    requires t.scroll <= t.line
  {
    t.line - t.scroll
  }

  /** The cursor is on a row that exists (or at row 0 of an empty tree) and
      not above the viewport. */
  predicate TreeOk(t: Tree)
  {
    && (t.line < ItemsLen(t.items) || (ItemsLen(t.items) == 0 && t.line == 0))
    && t.scroll <= t.line
  }

  /** `line_inc` of the file tree: the row offset plays the part of
      `pre_all_lines`; scroll when it is within four rows of the bottom. */
  function TreeLineInc(t: Tree, height: nat): (r: Tree)
    requires t.scroll <= t.line
    ensures r.line == t.line + 1 && r.items == t.items
    ensures r.scroll == t.scroll + 1 <==> Offset(t) + 4 > height
    ensures r.scroll == t.scroll || r.scroll == t.scroll + 1
  {
    if Offset(t) + 4 > height then t.(scroll := t.scroll + 1, line := t.line + 1)
    else t.(line := t.line + 1)
  }

  /** `line_dec` of the file tree. */
  function TreeLineDec(t: Tree): (r: Tree)
    requires t.scroll <= t.line && t.line > 0
    ensures r.line + 1 == t.line && r.items == t.items
    ensures r.scroll + 1 == t.scroll <==> t.scroll != 0 && Offset(t) < 4
    ensures r.scroll == t.scroll || r.scroll + 1 == t.scroll
  {
    if t.scroll != 0 && Offset(t) < 4 then t.(scroll := t.scroll - 1, line := t.line - 1)
    else t.(line := t.line - 1)
  }

  /** Rows available to the cursor below the title row before the panel must
      scroll: `height - 3`, or none on a very short panel. */
  function Room(height: nat): nat
  {
    if height >= 3 then height - 3 else 0
  }

  /** Unlike the text view, the tree's scroll rules never lose the cursor: it
      stays at or below the top row, and no more than `Room(height)` rows down. */
  lemma TreeScrollKeepsCursor(t: Tree, height: nat)
    requires t.scroll <= t.line && Offset(t) <= Room(height)
    ensures TreeLineInc(t, height).scroll <= TreeLineInc(t, height).line
    ensures Offset(TreeLineInc(t, height)) <= Room(height)
    ensures t.line > 0 ==> TreeLineDec(t).scroll <= TreeLineDec(t).line
    ensures t.line > 0 ==> Offset(TreeLineDec(t)) <= Room(height)
  {
  }

  /** `up`: one row up unless on the first row. */
  function TreeUp(t: Tree): (r: Tree)
    requires TreeOk(t)
    ensures r.line == if t.line > 0 then t.line - 1 else 0
    ensures TreeOk(r) && r.items == t.items
  {
    if t.line > 0 then TreeLineDec(t) else t
  }

  /** `down` as written: `self.len() - 1` underflows on an empty tree
      (`None`); otherwise one row down unless on the last row. */
  function TreeDownAsWritten(t: Tree, height: nat): (r: Option<Tree>)
    requires TreeOk(t)
    ensures r.None? <==> ItemsLen(t.items) == 0
  {
    if ItemsLen(t.items) == 0 then None
    else if t.line < ItemsLen(t.items) - 1 then Some(TreeLineInc(t, height))
    else Some(t)
  }

  /** `down` with the bound written without the subtraction: one row down
      when there is a row below, nothing on an empty tree. */
  function TreeDown(t: Tree, height: nat): (r: Tree)
    requires TreeOk(t)
    ensures r.line == if t.line + 1 < ItemsLen(t.items) then t.line + 1 else t.line
    ensures TreeOk(r) && r.items == t.items
  {
    if t.line + 1 < ItemsLen(t.items) then TreeLineInc(t, height) else t
  }

  lemma TreeDownAgrees(t: Tree, height: nat)
    requires TreeOk(t) && ItemsLen(t.items) > 0
    ensures TreeDownAsWritten(t, height) == Some(TreeDown(t, height))
  {
  }

  /** An empty directory listing makes Down panic. */
  lemma EmptyTreeDownPanics()
    ensures TreeDownAsWritten(Tree([], 0, 0), 10).None?
    ensures TreeDown(Tree([], 0, 0), 10) == Tree([], 0, 0)
  {
  }

  /** What `enter` asks of the rest of the program. */
  datatype Effect =
    | LoadFile(path: Path)
    | Shift(view: seq<char>)

  /** `enter` as written: the row's path is `flat.get(curr_line).unwrap()`,
      which panics (`None`) when the cursor row does not exist, as on an empty
      tree. Otherwise it does what `Enter` does. */
  function EnterAsWritten(t: Tree, listing: seq<Item>): (r: Option<(Tree, seq<Effect>)>)
    ensures r.None? <==> t.line >= ItemsLen(t.items)
    ensures r.Some? && ItemsAt(t.items, t.line).File? ==>
      r.value == (t, [LoadFile(ItemsAt(t.items, t.line).path), Shift("MainView")])
    ensures r.Some? && ItemsAt(t.items, t.line).Dir? ==>
      r.value.1 == [] && r.value.0.line == t.line && r.value.0.scroll == t.scroll
  {
    if t.line < ItemsLen(t.items) then Some(Enter(t, listing)) else None
  }

  /** `enter` with the missing row handled: on a directory row, toggle the
      directory the path search finds (expanding takes the fresh `listing`);
      on a file row, ask for the file to be loaded and for focus to move to
      the main view; without a row (an empty tree), do nothing. Whether a row
      is a directory is read from the tree rather than from the disk. */
  function Enter(t: Tree, listing: seq<Item>): (r: (Tree, seq<Effect>))
    ensures t.line >= ItemsLen(t.items) ==> r == (t, [])
    ensures t.line < ItemsLen(t.items) && ItemsAt(t.items, t.line).File? ==>
      r == (t, [LoadFile(ItemsAt(t.items, t.line).path), Shift("MainView")])
    ensures t.line < ItemsLen(t.items) && ItemsAt(t.items, t.line).Dir? ==>
      r.1 == [] && r.0.line == t.line && r.0.scroll == t.scroll
  {
    if t.line >= ItemsLen(t.items) then (t, [])
    else
      FlattenSpec(t.items);
      var p := Flatten(t.items)[t.line];
      if ItemsAt(t.items, t.line).Dir? then
        (t.(items := ToggleIn(t.items, p, listing).0), [])
      else
        (t, [LoadFile(p), Shift("MainView")])
  }

  /** Wherever the source does not panic, the corrected Enter does the same. */
  lemma EnterAgrees(t: Tree, listing: seq<Item>)
    requires EnterAsWritten(t, listing).Some?
    ensures EnterAsWritten(t, listing) == Some(Enter(t, listing))
  {
  }

  /** Enter on an empty tree (a directory with nothing in it) panics; the
      corrected Enter leaves the tree alone and asks for nothing. */
  lemma EmptyTreeEnterPanics(listing: seq<Item>)
    ensures TreeOk(Tree([], 0, 0))
    ensures EnterAsWritten(Tree([], 0, 0), listing).None?
    ensures Enter(Tree([], 0, 0), listing) == (Tree([], 0, 0), [])
  {
  }

  /** Enter on a directory row flips a directory whose path is the row's. */
  lemma EnterTogglesRowDir(t: Tree, listing: seq<Item>)
    requires t.line < ItemsLen(t.items) && ItemsAt(t.items, t.line).Dir?
    ensures var p := ItemsAt(t.items, t.line).path;
      && FindIn(t.items, p).Some?
      && FindIn(Enter(t, listing).0.items, p) == Some(Flip(FindIn(t.items, p).value, listing))
  {
    FlattenSpec(t.items);
    VisibleDirFound(t.items, t.line);
    ToggleInSpec(t.items, ItemsAt(t.items, t.line).path, listing);
  }

  /** `update` as written: when the directory's modification time changed,
      reload the items and move the cursor to row 0, leaving `scroll`
      untouched. */
  function ReloadAsWritten(t: Tree, changed: bool, listing: seq<Item>): (r: Tree)
    ensures !changed ==> r == t
    ensures changed ==> r == Tree(OrderListing(listing), 0, t.scroll)
  {
    if changed then Tree(OrderListing(listing), 0, t.scroll) else t
  }

  /** `update` that also scrolls back to the top on a reload. */
  function Reload(t: Tree, changed: bool, listing: seq<Item>): (r: Tree)
    ensures !changed ==> r == t
    ensures changed ==> r.items == OrderListing(listing) && r.line == 0 && r.scroll == 0
    ensures TreeOk(t) ==> TreeOk(r)
  {
    if changed then Tree(OrderListing(listing), 0, 0) else t
  }

  /** `set_cursor` row as written: `start_y + (curr_line - scroll) as u16 + 1`,
      where the `usize` subtraction panics (`None`) when the cursor is above
      the viewport, and so do the `u16` additions when they overflow. */
  function CursorYAsWritten(t: Tree, startY: u16): (r: Option<u16>)
    ensures r.None? <==>
      t.scroll > t.line || startY + (t.line - t.scroll) % U16_LIMIT + 1 >= U16_LIMIT
    ensures r.Some? ==> r.value == startY + (t.line - t.scroll) % U16_LIMIT + 1
  {
    if t.scroll > t.line then None
    else
      var y := startY + (t.line - t.scroll) % U16_LIMIT + 1;
      if y < U16_LIMIT then Some(y) else None
  }

  /** After a reload while scrolled, drawing the cursor panics; with the
      corrected reload it is placed on the first row under the title. */
  lemma ReloadWhileScrolledPanics(t: Tree, listing: seq<Item>, startY: u16)
    requires t.scroll > 0 && startY + 1 < U16_LIMIT
    ensures CursorYAsWritten(ReloadAsWritten(t, true, listing), startY).None?
    ensures CursorYAsWritten(Reload(t, true, listing), startY) == Some(startY + 1)
  {
  }
}
