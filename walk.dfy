/** `IterDirs` and `CheckSize` (main.go:32-93) over an abstract filesystem: every
    immediate child of the working directory that is a regular file or a directory
    gets the total size of the regular files in its subtree. */
module Walk {
  import opened Wrappers
  import opened SizeFormat

  /** A filesystem entry as the walk sees it: a regular file and its byte length, a
      directory and the entries its listing produced, or anything else (a symbolic
      link, a device, a socket, a pipe). */
  datatype Node =
    | RegularFile(name: string, size: nat)
    | Dir(name: string, children: seq<Node>)
    | Other(name: string)

  /** One entry of the working directory's listing: the node, whether `Info()` on its
      directory entry succeeds, and whether `fs.WalkDir` can stat it as a walk root. */
  datatype Listed = Listed(node: Node, infoOk: bool, statOk: bool)

  /** The errors `IterDirs` returns: the working directory cannot be listed, or the
      walk of a top-level entry could not even start on it. */
  datatype WalkError = ListError | StatError(name: string)

  /** The sum of the regular-file sizes in a subtree; directories and other entries
      add nothing themselves. */
  function TreeSize(n: Node): (size: nat)
    decreases n, 1
  {
    match n
    case RegularFile(_, size) => size
    case Dir(_, children) => ForestSize(children)
    case Other(_) => 0
  }

  function ForestSize(s: seq<Node>): (size: nat)
    decreases s, 0
  {
    if s == [] then 0 else TreeSize(s[0]) + ForestSize(s[1..])
  }

  /** The number of entries in a subtree, the measure the walk decreases. */
  function NodeCount(n: Node): (count: nat)
    decreases n, 1
  {
    match n
    case Dir(_, children) => 1 + ForestCount(children)
    case _ => 1
  }

  function ForestCount(s: seq<Node>): (count: nat)
    decreases s, 0
  {
    if s == [] then 0 else NodeCount(s[0]) + ForestCount(s[1..])
  }

  /** The sizes of the regular files of a subtree, in the order a depth-first walk
      visits them. */
  function FileSizes(n: Node): (sizes: seq<nat>)
    decreases n, 1
  {
    match n
    case RegularFile(_, size) => [size]
    case Dir(_, children) => ForestFileSizes(children)
    case Other(_) => []
  }

  function ForestFileSizes(s: seq<Node>): (sizes: seq<nat>)
    decreases s, 0
  {
    if s == [] then [] else FileSizes(s[0]) + ForestFileSizes(s[1..])
  }

  function Sum(xs: seq<nat>): (total: nat) {
    if xs == [] then 0 else xs[0] + Sum(xs[1..])
  }

  lemma {:induction false} SumAppend(a: seq<nat>, b: seq<nat>)
    ensures Sum(a + b) == Sum(a) + Sum(b)
    decreases |a|
  {
    if a == [] {
      assert a + b == b;
    } else {
      assert (a + b)[1..] == a[1..] + b;
      SumAppend(a[1..], b);
    }
  }

  lemma {:induction false} ForestAppend(a: seq<Node>, b: seq<Node>)
    ensures ForestSize(a + b) == ForestSize(a) + ForestSize(b)
    ensures ForestCount(a + b) == ForestCount(a) + ForestCount(b)
    decreases |a|
  {
    if a == [] {
      assert a + b == b;
    } else {
      assert (a + b)[1..] == a[1..] + b;
      ForestAppend(a[1..], b);
    }
  }

  /** The size of a subtree is the sum of the sizes of the regular files in it. */
  lemma {:induction false} TreeSizeIsFileSum(n: Node)
    ensures TreeSize(n) == Sum(FileSizes(n))
    decreases n, 1
  {
    match n
    case RegularFile(_, size) =>
      assert Sum([size]) == size + Sum([]);
    case Dir(_, children) =>
      ForestSizeIsFileSum(children);
    case Other(_) =>
  }

  lemma {:induction false} ForestSizeIsFileSum(s: seq<Node>)
    ensures ForestSize(s) == Sum(ForestFileSizes(s))
    decreases s, 0
  {
    if s != [] {
      TreeSizeIsFileSum(s[0]);
      ForestSizeIsFileSum(s[1..]);
      SumAppend(FileSizes(s[0]), ForestFileSizes(s[1..]));
    }
  }

  /** A directory that holds only regular files has the sum of their sizes. */
  lemma {:induction false} FlatDirSize(name: string, children: seq<Node>)
    requires forall k :: 0 <= k < |children| ==> children[k].RegularFile?
    ensures TreeSize(Dir(name, children)) == Sum(seq(|children|, k requires 0 <= k < |children| => children[k].size))
    decreases |children|
  {
    if children != [] {
      FlatDirSize(name, children[1..]);
      var sizes := seq(|children|, k requires 0 <= k < |children| => children[k].size);
      assert sizes[1..] == seq(|children| - 1, k requires 0 <= k < |children| - 1 => children[1..][k].size);
      assert children[0].RegularFile?;
      assert TreeSize(children[0]) == children[0].size;
      assert ForestSize(children) == TreeSize(children[0]) + ForestSize(children[1..]);
    }
  }

  /** The walk visits subtrees in listing order, but the total does not depend on it.
      The two-block case: visiting two groups of entries in either order gives the
      same size. */
  lemma ForestSizeOrderFree(a: seq<Node>, b: seq<Node>)
    ensures ForestSize(a + b) == ForestSize(b + a)
  {
    ForestAppend(a, b);
    ForestAppend(b, a);
  }

  /** The general case: any reordering of the same entries has the same size. */
  lemma {:induction false} ForestSizePermutation(a: seq<Node>, b: seq<Node>)
    requires multiset(a) == multiset(b)
    ensures ForestSize(a) == ForestSize(b)
    decreases |a|
  {
    if a != [] {
      assert a[0] in multiset(b);
      var j :| 0 <= j < |b| && b[j] == a[0];
      var rest := b[..j] + b[j + 1..];
      RemoveMatching(a, b, j);
      assert b == b[..j] + [b[j]] + b[j + 1..];
      ForestSizePermutation(a[1..], rest);
      ForestAppend(b[..j] + [b[j]], b[j + 1..]);
      ForestAppend(b[..j], [b[j]]);
      ForestAppend(b[..j], b[j + 1..]);
      assert ForestSize([b[j]]) == TreeSize(b[j]) by {
        assert [b[j]][1..] == [];
      }
    } else {
      assert |b| == |multiset(b)| == 0;
    }
  }

  /** Taking the first entry of `a` and an equal entry of `b` out of two reorderings
      leaves two reorderings. */
  lemma RemoveMatching(a: seq<Node>, b: seq<Node>, j: nat)
    requires a != [] && j < |b| && b[j] == a[0]
    requires multiset(a) == multiset(b)
    ensures multiset(a[1..]) == multiset(b[..j] + b[j + 1..])
  {
    assert b == b[..j] + [b[j]] + b[j + 1..];
    assert a == [a[0]] + a[1..];
    calc {
      multiset(a[1..]);
      multiset(a) - multiset{a[0]};
      multiset(b) - multiset{b[j]};
      multiset(b[..j]) + multiset(b[j + 1..]);
      multiset(b[..j] + b[j + 1..]);
    }
  }

  /** `CheckSize`: walk the subtree depth first, adding each regular file's size to the
      accumulator and skipping directories and other entries. When the root itself
      cannot be statted the walk function sees no directory entry and returns the
      error, with nothing accumulated. */
  method CheckSize(root: Node, statOk: bool) returns (size: nat, err: Option<WalkError>)
    ensures err == if statOk then None else Some(StatError(root.name))
    ensures size == if statOk then TreeSize(root) else 0
  {
    size := 0;
    if !statOk {
      return 0, Some(StatError(root.name));
    }
    var pending := [root];
    assert ForestSize(pending) == TreeSize(root) by {
      assert pending[1..] == [];
    }
    while pending != []
      invariant size + ForestSize(pending) == TreeSize(root)
      decreases ForestCount(pending)
    {
      var d := pending[0];
      var rest := pending[1..];
      assert ForestCount(pending) == NodeCount(d) + ForestCount(rest);
      match d
      case Dir(_, children) =>
        ForestAppend(children, rest);
        pending := children + rest;
      case RegularFile(_, n) =>
        size := size + n;
        pending := rest;
      case Other(_) =>
        pending := rest;
    }
    err := None;
  }

  /** A top-level entry `IterDirs` keeps: its information could be read, and it is a
      regular file or a directory. */
  predicate Kept(e: Listed) {
    e.infoOk && (e.node.RegularFile? || e.node.Dir?)
  }

  /** A kept entry whose walk fails at its root, which aborts `IterDirs`. */
  predicate Fatal(e: Listed) {
    Kept(e) && !e.statOk
  }

  /** The row a kept entry contributes: its name and the size of its subtree. */
  function EntryOf(e: Listed): (row: DirSize) {
    DirSize(e.node.name, TreeSize(e.node))
  }

  /** The result of `IterDirs` when no walk fails: the kept entries, in listing order. */
  function Collect(listing: seq<Listed>): (rows: seq<DirSize>) {
    if listing == [] then []
    else
      var last := listing[|listing| - 1];
      Collect(listing[..|listing| - 1]) + (if Kept(last) then [EntryOf(last)] else [])
  }

  /** The index of the first fatal entry, or the length of the listing when none is. */
  function FirstFatal(listing: seq<Listed>): (k: nat)
    ensures k <= |listing|
    ensures forall j :: 0 <= j < k ==> !Fatal(listing[j])
    ensures k < |listing| ==> Fatal(listing[k])
  {
    if listing == [] then 0
    else if Fatal(listing[0]) then 0
    else 1 + FirstFatal(listing[1..])
  }

  /** Collecting a listing in two parts collects each part in turn. */
  lemma {:induction false} CollectAppend(a: seq<Listed>, b: seq<Listed>)
    ensures Collect(a + b) == Collect(a) + Collect(b)
    decreases |b|
  {
    if b == [] {
      assert a + b == a;
    } else {
      var b' := b[..|b| - 1];
      assert (a + b)[..|a + b| - 1] == a + b';
      assert (a + b)[|a + b| - 1] == b[|b| - 1];
      CollectAppend(a, b');
    }
  }

  /** What `IterDirs` returns on a failed walk, `Collect` of the listing up to the
      failing entry, is a prefix of what it would return had no walk failed. */
  lemma CollectPrefix(listing: seq<Listed>, k: nat)
    requires k <= |listing|
    ensures Collect(listing[..k]) <= Collect(listing)
  {
    assert listing == listing[..k] + listing[k..];
    CollectAppend(listing[..k], listing[k..]);
  }

  /** The number of entries `IterDirs` keeps, counted from the front of the listing. */
  function KeptCount(listing: seq<Listed>): (n: nat) {
    if listing == [] then 0 else (if Kept(listing[0]) then 1 else 0) + KeptCount(listing[1..])
  }

  /** The collected rows are exactly the rows of the kept entries: one per kept entry
      and nothing else, so never more rows than listed entries. */
  lemma {:induction false} CollectMembers(listing: seq<Listed>)
    ensures |Collect(listing)| == KeptCount(listing) <= |listing|
    ensures forall x :: x in Collect(listing) <==>
      exists i :: 0 <= i < |listing| && Kept(listing[i]) && x == EntryOf(listing[i])
  {
    if listing != [] {
      var init := listing[..|listing| - 1];
      CollectMembers(init);
      KeptCountSnoc(listing);
      assert forall i :: 0 <= i < |init| ==> init[i] == listing[i];
      forall x | exists i :: 0 <= i < |listing| && Kept(listing[i]) && x == EntryOf(listing[i])
        ensures x in Collect(listing)
      {
        var i :| 0 <= i < |listing| && Kept(listing[i]) && x == EntryOf(listing[i]);
        if i < |init| {
          assert x in Collect(init);
        }
      }
    }
  }

  lemma {:induction false} KeptCountSnoc(listing: seq<Listed>)
    requires listing != []
    ensures KeptCount(listing)
         == KeptCount(listing[..|listing| - 1]) + (if Kept(listing[|listing| - 1]) then 1 else 0)
    decreases |listing|
  {
    if |listing| > 1 {
      var tail := listing[1..];
      KeptCountSnoc(tail);
      assert tail[..|tail| - 1] == listing[..|listing| - 1][1..];
      assert tail[|tail| - 1] == listing[|listing| - 1];
    } else {
      assert listing[1..] == [];
    }
  }

  /** `IterDirs`: list the working directory, then walk every entry that is a regular
      file or a directory, in listing order. An entry whose information cannot be read
      is skipped; a walk that fails aborts with the rows collected so far. */
  method IterDirs(listing: Option<seq<Listed>>) returns (sizes: seq<DirSize>, err: Option<WalkError>)
    ensures listing.None? ==> sizes == [] && err == Some(ListError)
    ensures listing.Some? ==>
      var k := FirstFatal(listing.value);
      && sizes == Collect(listing.value[..k])
      && err == if k < |listing.value| then Some(StatError(listing.value[k].node.name)) else None
  {
    if listing.None? {
      return [], Some(ListError);
    }
    var dirs := listing.value;
    sizes := [];
    for i := 0 to |dirs|
      invariant forall j :: 0 <= j < i ==> !Fatal(dirs[j])
      invariant sizes == Collect(dirs[..i])
    {
      var dir := dirs[i];
      assert dirs[..i + 1][..i] == dirs[..i];
      if !dir.infoOk {
        continue;
      }
      if !(dir.node.RegularFile? || dir.node.Dir?) {
        continue;
      }
      var size, e := CheckSize(dir.node, dir.statOk);
      if e.Some? {
        return sizes, e;
      }
      sizes := sizes + [DirSize(dir.node.name, size)];
    }
    assert dirs[..|dirs|] == dirs;
    err := None;
  }
}
