/**
 * The filesystem as the resolver sees it: one unchanging snapshot of a tree.
 * A directory lists its entries in enumeration order; enumerating a
 * `broken` directory fails after its listed entries have been produced
 * (a directory that cannot be opened at all is `broken` with no entries).
 * Every entry has a last-write time that may be unreadable.
 */
module FileTree {
  import opened Wrappers

  /** A path as its components, outermost first. */
  type Path = seq<string>

  /** What `last_write_time` gives for an entry. */
  datatype Stamp = Written(time: int) | Unreadable

  datatype Node =
    | File(name: string, mtime: Stamp, regular: bool)
    | Dir(name: string, mtime: Stamp, children: seq<Node>, broken: bool)

  /** One enumeration of a directory: where it is, what it yields, whether it then fails. */
  datatype Listing = Listing(path: Path, entries: seq<Node>, broken: bool)

  /** One step of a recursive directory iteration: an entry and the listing it came from. */
  datatype Visit = Visit(parent: Listing, entry: Node)

  /** The entries a recursive iteration yields, and whether it stopped on an error. */
  datatype Traversal = Traversal(visits: seq<Visit>, failed: bool)

  function ListingOf(path: Path, d: Node): Listing
    requires d.Dir?
  {
    Listing(path, d.children, d.broken)
  }

  predicate EndsWith(s: string, suffix: string) {
    |suffix| <= |s| && s[|s| - |suffix|..] == suffix
  }

  /** Index of the last '.' in `s`, if any. */
  function LastDot(s: string): (k: Option<nat>)
    ensures k.Some? ==> k.value < |s| && s[k.value] == '.'
  {
    if s == [] then None
    else if s[|s| - 1] == '.' then Some(|s| - 1)
    else LastDot(s[..|s| - 1])
  }

  /** No dot follows the one `LastDot` finds, and `None` means there is no dot at all. */
  lemma {:induction false} LastDotIsLast(s: string)
    ensures LastDot(s).Some? ==> forall j :: LastDot(s).value < j < |s| ==> s[j] != '.'
    ensures LastDot(s).None? ==> forall j :: 0 <= j < |s| ==> s[j] != '.'
    decreases |s|
  {
    if s != [] && s[|s| - 1] != '.' {
      var p := s[..|s| - 1];
      LastDotIsLast(p);
      assert forall j :: 0 <= j < |p| ==> p[j] == s[j];
    }
  }

  /**
   * The extension of a file name as the filesystem library computes it:
   * everything from the last '.' on, or nothing when there is no dot
   * (and nothing for the names "." and "..").
   */
  function Extension(name: string): (ext: string)
    ensures ext == "" || (ext[0] == '.' && EndsWith(name, ext))
  {
    if name == "." || name == ".." then ""
    else match LastDot(name)
      case None => ""
      case Some(k) => name[k..]
  }

  /** An extension holds no dot but its first, and every name with a dot (other than `.` and `..`) has one. */
  lemma ExtensionShape(name: string)
    ensures forall j :: 1 <= j < |Extension(name)| ==> Extension(name)[j] != '.'
    ensures name != "." && name != ".." && '.' in name ==> Extension(name) != ""
  {
    LastDotIsLast(name);
    if name != "." && name != ".." && LastDot(name).Some? {
      var k := LastDot(name).value;
      assert forall j :: 1 <= j < |name| - k ==> Extension(name)[j] == name[k + j];
    }
  }

  /** A name has the extension `.log` exactly when it ends in `.log`; case matters. */
  lemma LogExtensionIsSuffix(name: string)
    ensures Extension(name) == ".log" <==> EndsWith(name, ".log")
  {
    if EndsWith(name, ".log") {
      var n := |name|;
      assert name[n - 4..] == ".log";
      assert name[n - 4] == '.' && name[n - 3] == 'l' && name[n - 2] == 'o' && name[n - 1] == 'g';
      LastDotIsLast(name);
      var k := LastDot(name);
      assert k.Some? && k.value == n - 4;
    }
  }

  /** The first entry of `entries` called `name`. */
  function FirstNamed(entries: seq<Node>, name: string): (r: Option<Node>)
    ensures r.Some? ==> r.value in entries && r.value.name == name
    ensures r.None? ==> forall c :: c in entries ==> c.name != name
  {
    if entries == [] then None
    else if entries[0].name == name then Some(entries[0])
    else FirstNamed(entries[1..], name)
  }

  /** The node reached from `n` by following the component names in `names`. */
  function Lookup(n: Node, names: seq<string>): (r: Option<Node>)
    ensures names == [] ==> r == Some(n)
    ensures names != [] && r.Some? ==> r.value.name == names[|names| - 1]
    decreases |names|
  {
    if names == [] then Some(n)
    else match Lookup(n, names[..|names| - 1])
      case None => None
      case Some(p) => if p.File? then None else FirstNamed(p.children, names[|names| - 1])
  }

  /**
   * Pre-order recursive iteration of the directory `d` at `path`, from its
   * `i`-th entry on: each entry is yielded, and a directory entry is then
   * descended into before its next sibling.  A failing enumeration anywhere
   * ends the whole iteration.
   */
  function WalkEntries(path: Path, d: Node, i: nat): (t: Traversal)
    requires d.Dir? && i <= |d.children|
    ensures !t.failed ==> !d.broken
    decreases d, |d.children| - i
  {
    if i == |d.children| then Traversal([], d.broken)
    else
      var c := d.children[i];
      var here := Visit(ListingOf(path, d), c);
      var below := if c.Dir? then WalkEntries(path + [c.name], c, 0) else Traversal([], false);
      if below.failed then Traversal([here] + below.visits, true)
      else
        var rest := WalkEntries(path, d, i + 1);
        Traversal([here] + below.visits + rest.visits, rest.failed)
  }

  /** A recursive iteration started at `path`; starting it on a file fails at once. */
  function Walk(path: Path, n: Node): Traversal {
    if n.File? then Traversal([], true) else WalkEntries(path, n, 0)
  }

  /** In a walk that did not fail, every listing that produced a visit was enumerated to its end. */
  lemma {:induction false} WalkListingsComplete(path: Path, d: Node, i: nat)
    requires d.Dir? && i <= |d.children|
    requires !WalkEntries(path, d, i).failed
    ensures forall v :: v in WalkEntries(path, d, i).visits ==> !v.parent.broken
    decreases d, |d.children| - i
  {
    if i < |d.children| {
      var c := d.children[i];
      if c.Dir? {
        WalkListingsComplete(path + [c.name], c, 0);
      }
      WalkListingsComplete(path, d, i + 1);
    }
  }

  /** Every entry of the walked directory is visited, with that directory as its parent listing. */
  lemma {:induction false} WalkVisitsEveryEntry(path: Path, d: Node, i: nat, j: nat)
    requires d.Dir? && i <= j < |d.children|
    requires !WalkEntries(path, d, i).failed
    ensures Visit(ListingOf(path, d), d.children[j]) in WalkEntries(path, d, i).visits
    decreases |d.children| - i
  {
    if i < j {
      WalkVisitsEveryEntry(path, d, i + 1, j);
    }
  }

  /** `p` names `q` itself or something below it. */
  predicate Below(p: Path, q: Path) {
    |q| <= |p| && p[..|q|] == q
  }

  /** Every listing a walk visits lies at or below the walked directory, failed walk or not. */
  lemma {:induction false} WalkStaysBelow(path: Path, d: Node, i: nat)
    requires d.Dir? && i <= |d.children|
    ensures forall v :: v in WalkEntries(path, d, i).visits ==> Below(v.parent.path, path)
    decreases d, |d.children| - i
  {
    if i < |d.children| {
      var c := d.children[i];
      if c.Dir? {
        var sub := path + [c.name];
        WalkStaysBelow(sub, c, 0);
        forall v | v in WalkEntries(sub, c, 0).visits
          ensures Below(v.parent.path, path)
        {
          assert v.parent.path[..|path|] == v.parent.path[..|sub|][..|path|];
        }
      }
      WalkStaysBelow(path, d, i + 1);
    }
  }

  /**
   * A walk that did not fail descends into each subdirectory from the
   * `i`-th entry on: the subdirectory's own walk did not fail, and all of
   * its visits are visits of the whole walk.
   */
  lemma {:induction false} WalkIncludesSubwalk(path: Path, d: Node, i: nat, j: nat)
    requires d.Dir? && i <= j < |d.children| && d.children[j].Dir?
    requires !WalkEntries(path, d, i).failed
    ensures !WalkEntries(path + [d.children[j].name], d.children[j], 0).failed
    ensures forall v :: v in WalkEntries(path + [d.children[j].name], d.children[j], 0).visits ==>
                        v in WalkEntries(path, d, i).visits
    decreases |d.children| - i
  {
    if i < j {
      WalkIncludesSubwalk(path, d, i + 1, j);
    }
  }

  /**
   * The entry reached from the directory `d` at `path` by following child
   * indices `route`, with the listing it belongs to; `None` when the route
   * leaves the tree or passes through a file.
   */
  function EntryAt(path: Path, d: Node, route: seq<nat>): Option<Visit>
    requires d.Dir?
    decreases |route|
  {
    if route == [] || route[0] >= |d.children| then None
    else
      var c := d.children[route[0]];
      if |route| == 1 then Some(Visit(ListingOf(path, d), c))
      else if c.File? then None
      else EntryAt(path + [c.name], c, route[1..])
  }

  /** A walk that did not fail visits every entry at any depth below the walked directory. */
  lemma {:induction false} WalkVisitsEveryDescendant(path: Path, d: Node, route: seq<nat>)
    requires d.Dir? && !WalkEntries(path, d, 0).failed && EntryAt(path, d, route).Some?
    ensures EntryAt(path, d, route).value in WalkEntries(path, d, 0).visits
    decreases |route|
  {
    var k := route[0];
    if |route| == 1 {
      WalkVisitsEveryEntry(path, d, 0, k);
    } else {
      var c := d.children[k];
      WalkIncludesSubwalk(path, d, 0, k);
      WalkVisitsEveryDescendant(path + [c.name], c, route[1..]);
    }
  }

  /** In particular the entries two levels down, where the host's marker lives, are visited. */
  lemma WalkVisitsGrandchildren(path: Path, d: Node, j: nat, k: nat)
    requires d.Dir? && !WalkEntries(path, d, 0).failed
    requires j < |d.children| && d.children[j].Dir? && k < |d.children[j].children|
    ensures var c := d.children[j];
            Visit(ListingOf(path + [c.name], c), c.children[k]) in WalkEntries(path, d, 0).visits
  {
    var c := d.children[j];
    WalkIncludesSubwalk(path, d, 0, j);
    WalkVisitsEveryEntry(path + [c.name], c, 0, k);
  }
}
