/** The syntax trees the engine walks, and how it finds a node's children.

    A tree is what the JavaScript parser hands over: nodes with a type label,
    a source location and named properties.  Child discovery is generic: for
    each node type the engine remembers, on first sight, which properties of
    that node held objects (the node-type cache) and afterwards reads exactly
    those properties of every node of that type.
 */
module Ast {
  import opened Seqs

  /** The lines a node starts and ends on (`loc.start.line`, `loc.end.line`). */
  datatype Loc = Loc(startLine: int, endLine: int)

  /** A property value of a node object, as far as child discovery can tell
      values apart. `Null`, `Child`, `Record` and `List` are the values whose
      `typeof` is 'object'. */
  datatype Value =
    | Undefined           // no such property
    | Text(s: string)     // a string
    | Primitive           // a number or a boolean
    | Null                // null
    | Child(node: Node)   // a node object
    | Record              // any other object that is not an array
    | List(items: seq<Item>)

  /** An array element: a hole (null or undefined) or a node. */
  datatype Item = Hole | Elem(node: Node)

  datatype Field = Field(key: string, value: Value)

  /** A node object: its `type`, its `loc`, and its other own properties in
      `Object.keys` order. */
  datatype Node = Node(nodeType: string, loc: Loc, fields: seq<Field>)

  /** The identity of a node object: the number of the parse it belongs to
      and its child-index path from the root of that parse.  Refs and objects
      correspond one to one as long as no object of a parse is reachable
      along two paths; a shared object has one ref per path. */
  datatype Ref = Ref(tree: nat, path: seq<int>, node: Node)

  predicate IsObject(v: Value) {
    v.Null? || v.Child? || v.Record? || v.List?
  }

  /** `node[key]`: the first property of that name, or undefined. */
  function Lookup(fields: seq<Field>, key: string): (v: Value)
    ensures v == Undefined || Field(key, v) in fields
  {
    if fields == [] then Undefined
    else if fields[0].key == key then fields[0].value
    else Lookup(fields[1..], key)
  }

  /** The keys the engine caches for a node type:
      `Object.keys(node).filter(key => key !== 'loc' && typeof node[key] === 'object')`. */
  function ObjectKeys(fields: seq<Field>): (r: seq<string>)
    ensures forall k | k in r :: k != "loc"
  {
    if fields == [] then []
    else (if fields[0].key != "loc" && IsObject(fields[0].value) then [fields[0].key] else [])
         + ObjectKeys(fields[1..])
  }

  /** The characters `String.prototype.trim` removes. */
  predicate IsJsWhitespace(c: char) {
    || c == ' ' || c == '\t' || c == '\n' || c == '\r' || c == '\U{000B}' || c == '\U{000C}'
    || c == '\U{00A0}' || c == '\U{1680}' || ('\U{2000}' <= c <= '\U{200A}')
    || c == '\U{2028}' || c == '\U{2029}' || c == '\U{202F}' || c == '\U{205F}'
    || c == '\U{3000}' || c == '\U{FEFF}'
  }

  /** `s.trim()` is the empty string. */
  predicate IsBlank(s: string) {
    forall i | 0 <= i < |s| :: IsJsWhitespace(s[i])
  }

  /** The string `value` of a node; a JSXText node always has one. */
  function TextValue(n: Node): string {
    match Lookup(n.fields, "value")
    case Text(s) => s
    case _ => ""
  }

  /** A JSXText node holding only whitespace. */
  predicate IsBlankJsxText(n: Node) {
    n.nodeType == "JSXText" && IsBlank(TextValue(n))
  }

  /** The array filter `node => node && (node.type !== 'JSXText' || node.value.trim())`. */
  predicate KeepsElement(it: Item) {
    it.Elem? && !IsBlankJsxText(it.node)
  }

  /** The elements of an array that are taken as children, in array order. */
  function ArrayChildren(items: seq<Item>): (r: seq<Node>)
    ensures forall c | c in r :: Elem(c) in items && !IsBlankJsxText(c)
    ensures |r| <= |items|
  {
    if items == [] then []
    else (if KeepsElement(items[0]) then [items[0].node] else []) + ArrayChildren(items[1..])
  }

  /** The children found under one property value: a node with a (non-empty)
      type, or the kept elements of an array; nothing for any other value. */
  function ValueChildren(v: Value): seq<Node> {
    match v
    case Child(c) => if c.nodeType != "" then [c] else []
    case List(items) => ArrayChildren(items)
    case _ => []
  }

  /** The children of `n` read through the properties `keys`, in order. */
  function ChildrenVia(n: Node, keys: seq<string>): (r: seq<Node>)
    ensures forall i | 0 <= i < |r| :: (n decreases to r[i])
  {
    if keys == [] then []
    else
      var v := Lookup(n.fields, keys[0]);
      var here := ValueChildren(v);
      assert forall i | 0 <= i < |here| :: (n decreases to here[i]) by {
        forall i | 0 <= i < |here| ensures (n decreases to here[i]) {
          if v.List? {
            assert Elem(here[i]) in v.items;
          }
        }
      }
      here + ChildrenVia(n, keys[1..])
  }

  /** The node-type cache: for every type seen so far, the property keys read
      for nodes of that type. */
  type Cache = map<string, seq<string>>

  /** The keys read for `n`: the cached ones when its type has been seen,
      otherwise its own object-valued keys. */
  function FieldKeys(c: Cache, n: Node): seq<string> {
    if n.nodeType in c then c[n.nodeType] else ObjectKeys(n.fields)
  }

  /** The cache after `getChildren(n)`: the type is added on first sight and an
      existing entry is never replaced. */
  function Learn(c: Cache, n: Node): Cache {
    if n.nodeType in c then c else c[n.nodeType := ObjectKeys(n.fields)]
  }

  /** `getChildren(n)` under cache `c`. */
  function Children(c: Cache, n: Node): (r: seq<Node>)
    ensures forall i | 0 <= i < |r| :: (n decreases to r[i])
  {
    ChildrenVia(n, FieldKeys(c, n))
  }

  /** `c2` keeps every entry of `c1`. */
  ghost predicate Extends(c1: Cache, c2: Cache) {
    forall t | t in c1 :: t in c2 && c2[t] == c1[t]
  }

  /** Every node reachable from `n` has its type in the cache, so child
      discovery below `n` no longer changes the cache. */
  ghost predicate Closed(c: Cache, n: Node)
    decreases n
  {
    var cs := Children(c, n);
    n.nodeType in c && forall i | 0 <= i < |cs| :: Closed(c, cs[i])
  }

  /** Depth-first preorder of the subtree at `n` (path `path` in parse `tree`),
      with children as the cache `c` shows them. */
  function Preorder(c: Cache, n: Node, tree: nat, path: seq<int>): (r: seq<Ref>)
    ensures |r| >= 1 && r[0] == Ref(tree, path, n)
    decreases n, 1
  {
    [Ref(tree, path, n)] + PreorderKids(c, n, Children(c, n), tree, path, 0)
  }

  /** The preorders of the children `cs[i..]` of `parent`, concatenated. */
  function PreorderKids(c: Cache, parent: Node, cs: seq<Node>, tree: nat, path: seq<int>, i: nat): seq<Ref>
    requires i <= |cs|
    requires forall j | 0 <= j < |cs| :: (parent decreases to cs[j])
    decreases parent, 0, |cs| - i
  {
    if i == |cs| then []
    else Preorder(c, cs[i], tree, path + [i]) + PreorderKids(c, parent, cs, tree, path, i + 1)
  }

  /** The cache after a full depth-first visit of `n` that starts from `c`:
      each node's type is learnt when the node is visited. */
  function LearnAll(c: Cache, n: Node): Cache
    decreases n, 1
  {
    var c1 := Learn(c, n);
    LearnKids(c1, n, Children(c1, n), 0)
  }

  function LearnKids(c: Cache, parent: Node, cs: seq<Node>, i: nat): Cache
    requires i <= |cs|
    requires forall j | 0 <= j < |cs| :: (parent decreases to cs[j])
    decreases parent, 0, |cs| - i
  {
    if i == |cs| then c else LearnKids(LearnAll(c, cs[i]), parent, cs, i + 1)
  }

  /** The first `k` elements of `s` (all of `s` when it is shorter). */
  function Take<T>(s: seq<T>, k: int): (r: seq<T>)
    ensures |r| == if k <= 0 then 0 else if k < |s| then k else |s|
    ensures r == s[..|r|]
  {
    if k <= 0 then [] else if k < |s| then s[..k] else s
  }

  /** The fingerprint windows of the subtree at `n`: the first `threshold`
      preorder nodes of every subtree with at least that many nodes, in the
      order walkTree visits them (`n` first, then its children's subtrees). */
  function SubtreeWindows(c: Cache, n: Node, tree: nat, path: seq<int>, threshold: nat): seq<seq<Ref>>
    decreases n, 1
  {
    var w := Take(Preorder(c, n, tree, path), threshold);
    (if |w| >= threshold then [w] else [])
      + KidsWindows(c, n, Children(c, n), tree, path, threshold, 0)
  }

  function KidsWindows(c: Cache, parent: Node, cs: seq<Node>, tree: nat, path: seq<int>, threshold: nat, i: nat): seq<seq<Ref>>
    requires i <= |cs|
    requires forall j | 0 <= j < |cs| :: (parent decreases to cs[j])
    decreases parent, 0, |cs| - i
  {
    if i == |cs| then []
    else SubtreeWindows(c, cs[i], tree, path + [i], threshold)
         + KidsWindows(c, parent, cs, tree, path, threshold, i + 1)
  }

  /** The windows walkTree fingerprints for a whole parse: those of every
      subtree below the root, never the root's own. */
  function TreeWindows(c: Cache, root: Node, tree: nat, threshold: nat): seq<seq<Ref>> {
    KidsWindows(c, root, Children(c, root), tree, [], threshold, 0)
  }

  // ---------------------------------------------------------------------------
  // The node-type cache

  /** getChildren records a type on first sight and never replaces an entry;
      the keys it reads are the same before and after it learns the type. */
  lemma LearnSpec(c: Cache, n: Node)
    ensures Extends(c, Learn(c, n))
    ensures n.nodeType in Learn(c, n)
    ensures n.nodeType !in c ==> Learn(c, n)[n.nodeType] == ObjectKeys(n.fields)
    ensures FieldKeys(Learn(c, n), n) == FieldKeys(c, n)
    ensures Children(Learn(c, n), n) == Children(c, n)
  {
  }

  lemma ExtendsTrans(c1: Cache, c2: Cache, c3: Cache)
    requires Extends(c1, c2) && Extends(c2, c3)
    ensures Extends(c1, c3)
  {
  }

  /** Once a node's type is cached, growing the cache does not change its children. */
  lemma ChildrenStable(c1: Cache, c2: Cache, n: Node)
    requires n.nodeType in c1 && Extends(c1, c2)
    ensures Children(c2, n) == Children(c1, n)
  {
  }

  /** Closedness survives growing the cache. */
  lemma {:induction false} ClosedStable(c1: Cache, c2: Cache, n: Node)
    requires Closed(c1, n) && Extends(c1, c2)
    ensures Closed(c2, n)
    decreases n
  {
    var cs := Children(c1, n);
    ChildrenStable(c1, c2, n);
    forall i | 0 <= i < |cs| ensures Closed(c2, cs[i]) {
      ClosedStable(c1, c2, cs[i]);
    }
  }

  /** The preorder of a closed subtree does not depend on later additions to
      the cache. */
  lemma {:induction false} PreorderStable(c1: Cache, c2: Cache, n: Node, tree: nat, path: seq<int>)
    requires Closed(c1, n) && Extends(c1, c2)
    ensures Preorder(c2, n, tree, path) == Preorder(c1, n, tree, path)
    decreases n, 1
  {
    ChildrenStable(c1, c2, n);
    PreorderKidsStable(c1, c2, n, Children(c1, n), tree, path, 0);
  }

  lemma {:induction false} PreorderKidsStable(c1: Cache, c2: Cache, parent: Node, cs: seq<Node>, tree: nat, path: seq<int>, i: nat)
    requires i <= |cs|
    requires forall j | 0 <= j < |cs| :: (parent decreases to cs[j])
    requires forall j | 0 <= j < |cs| :: Closed(c1, cs[j])
    requires Extends(c1, c2)
    ensures PreorderKids(c2, parent, cs, tree, path, i) == PreorderKids(c1, parent, cs, tree, path, i)
    decreases parent, 0, |cs| - i
  {
    if i < |cs| {
      PreorderStable(c1, c2, cs[i], tree, path + [i]);
      PreorderKidsStable(c1, c2, parent, cs, tree, path, i + 1);
    }
  }

  /** A full visit only adds to the cache, and afterwards the visited subtree
      is closed. */
  lemma {:induction false} LearnAllSpec(c: Cache, n: Node)
    ensures Extends(c, LearnAll(c, n))
    ensures Closed(LearnAll(c, n), n)
    decreases n, 1
  {
    var c1 := Learn(c, n);
    var cs := Children(c1, n);
    var c2 := LearnKids(c1, n, cs, 0);
    LearnSpec(c, n);
    LearnKidsSpec(c1, n, cs, 0);
    ExtendsTrans(c, c1, c2);
    ChildrenStable(c1, c2, n);
    assert Children(c2, n) == cs;
  }

  lemma {:induction false} LearnKidsSpec(c: Cache, parent: Node, cs: seq<Node>, i: nat)
    requires i <= |cs|
    requires forall j | 0 <= j < |cs| :: (parent decreases to cs[j])
    ensures Extends(c, LearnKids(c, parent, cs, i))
    ensures forall j | i <= j < |cs| :: Closed(LearnKids(c, parent, cs, i), cs[j])
    decreases parent, 0, |cs| - i
  {
    if i < |cs| {
      var c1 := LearnAll(c, cs[i]);
      var c2 := LearnKids(c1, parent, cs, i + 1);
      LearnAllSpec(c, cs[i]);
      LearnKidsSpec(c1, parent, cs, i + 1);
      ExtendsTrans(c, c1, c2);
      ClosedStable(c1, c2, cs[i]);
    }
  }

  /** Visiting a closed subtree teaches the cache nothing. */
  lemma {:induction false} LearnAllClosed(c: Cache, n: Node)
    requires Closed(c, n)
    ensures LearnAll(c, n) == c
    decreases n, 1
  {
    LearnKidsClosed(c, n, Children(c, n), 0);
  }

  lemma {:induction false} LearnKidsClosed(c: Cache, parent: Node, cs: seq<Node>, i: nat)
    requires i <= |cs|
    requires forall j | 0 <= j < |cs| :: (parent decreases to cs[j])
    requires forall j | 0 <= j < |cs| :: Closed(c, cs[j])
    ensures LearnKids(c, parent, cs, i) == c
    decreases parent, 0, |cs| - i
  {
    if i < |cs| {
      LearnAllClosed(c, cs[i]);
      LearnKidsClosed(c, parent, cs, i + 1);
    }
  }

  // ---------------------------------------------------------------------------
  // Preorders and windows

  /** Every node of a preorder belongs to the same parse and lies at or below
      the subtree's path. */
  lemma {:induction false} PreorderPaths(c: Cache, n: Node, tree: nat, path: seq<int>)
    ensures forall r | r in Preorder(c, n, tree, path) :: r.tree == tree && path <= r.path
    decreases n, 1
  {
    PreorderKidsPaths(c, n, Children(c, n), tree, path, 0);
  }

  lemma {:induction false} PreorderKidsPaths(c: Cache, parent: Node, cs: seq<Node>, tree: nat, path: seq<int>, i: nat)
    requires i <= |cs|
    requires forall j | 0 <= j < |cs| :: (parent decreases to cs[j])
    ensures forall r | r in PreorderKids(c, parent, cs, tree, path, i) :: r.tree == tree && |r.path| > |path| && path <= r.path
    decreases parent, 0, |cs| - i
  {
    if i < |cs| {
      PreorderPaths(c, cs[i], tree, path + [i]);
      PreorderKidsPaths(c, parent, cs, tree, path, i + 1);
      forall r | r in Preorder(c, cs[i], tree, path + [i])
        ensures |r.path| > |path| && path <= r.path
      {
        assert path + [i] <= r.path;
        assert r.path[..|path|] == (path + [i])[..|path|] == path;
      }
    }
  }

  /** Taking `k` from a concatenation takes from the first part, then what
      is still missing from the second. */
  lemma TakeConcat<T>(xs: seq<T>, ys: seq<T>, k: int)
    ensures Take(xs, k) + Take(ys, k - |Take(xs, k)|) == Take(xs + ys, k)
  {
    if k > |xs| && k < |xs| + |ys| {
      assert (xs + ys)[..k] == xs + ys[..k - |xs|];
    }
  }

  /** The `len` elements of `s` from position `p` on. */
  function Run<T>(s: seq<T>, p: nat, len: nat): seq<T>
    requires p + len <= |s|
  {
    s[p..p + len]
  }

  /** `w` occurs in `full` as a contiguous run starting at position `lo` or later. */
  ghost predicate SliceFrom<T>(w: seq<T>, full: seq<T>, lo: nat) {
    exists p: nat | lo <= p && p + |w| <= |full| :: Run(full, p, |w|) == w
  }

  /** A run inside `b` is a run inside any sequence that contains `b`. */
  lemma SliceShift<T>(w: seq<T>, a: seq<T>, b: seq<T>, d: seq<T>, lo: nat)
    requires SliceFrom(w, b, lo)
    ensures SliceFrom(w, a + b + d, |a| + lo)
  {
    var p: nat :| lo <= p && p + |w| <= |b| && Run(b, p, |w|) == w;
    assert Run(a + b + d, |a| + p, |w|) == Run(b, p, |w|);
  }

  /** `SliceShift` for every element of a list of runs. */
  lemma SlicesWiden<T>(ws: seq<seq<T>>, a: seq<T>, b: seq<T>, d: seq<T>, lo: nat)
    requires forall w | w in ws :: SliceFrom(w, b, lo)
    ensures forall w | w in ws :: SliceFrom(w, a + b + d, |a| + lo)
  {
    forall w | w in ws ensures SliceFrom(w, a + b + d, |a| + lo) {
      SliceShift(w, a, b, d, lo);
    }
  }

  lemma SlicesWeaken<T>(ws: seq<seq<T>>, full: seq<T>, lo: nat)
    requires forall w | w in ws :: SliceFrom(w, full, lo)
    ensures forall w | w in ws :: SliceFrom(w, full, 0)
  {
    forall w | w in ws ensures SliceFrom(w, full, 0) {
      var p: nat :| lo <= p && p + |w| <= |full| && Run(full, p, |w|) == w;
    }
  }

  /** Runs of two adjacent pieces are runs of the whole. */
  lemma WindowsJoin<T>(mine: seq<seq<T>>, later: seq<seq<T>>, here: seq<T>, rest: seq<T>, threshold: nat)
    requires forall w | w in mine :: |w| == threshold && SliceFrom(w, here, 0)
    requires forall w | w in later :: |w| == threshold && SliceFrom(w, rest, 0)
    ensures forall w | w in mine + later :: |w| == threshold && SliceFrom(w, here + rest, 0)
  {
    SlicesWiden(mine, [], here, rest, 0);
    SlicesWiden(later, here, rest, [], 0);
    AppendNil(here);
    AppendNil(here + rest);
    SlicesWeaken(later, here + rest, |here|);
    forall w | w in mine + later
      ensures |w| == threshold && SliceFrom(w, here + rest, 0)
    {
      assert w in mine || w in later;
    }
  }

  /** walkTree fingerprints only runs of exactly `threshold` nodes, each a
      contiguous run of the whole preorder that starts after the root, so the
      root of a parse is never part of a fingerprinted group. */
  lemma {:induction false} TreeWindowsShape(c: Cache, root: Node, tree: nat, threshold: nat)
    ensures var full := Preorder(c, root, tree, []);
      forall w | w in TreeWindows(c, root, tree, threshold) ::
        && |w| == threshold
        && SliceFrom(w, full, 1)
        && Ref(tree, [], root) !in w
  {
    var top := Ref(tree, [], root);
    var cs := Children(c, root);
    var kids := PreorderKids(c, root, cs, tree, [], 0);
    var ws := KidsWindows(c, root, cs, tree, [], threshold, 0);
    assert TreeWindows(c, root, tree, threshold) == ws;
    assert Preorder(c, root, tree, []) == [top] + kids;
    KidsWindowsShape(c, root, cs, tree, [], threshold, 0);
    PreorderKidsPaths(c, root, cs, tree, [], 0);
    assert |top.path| == 0;
    SlicesAfterHead(ws, top, kids);
  }

  /** Runs of `tail` are runs of `[x] + tail` that start after `x`, and leave
      `x` out when `tail` does. */
  lemma SlicesAfterHead<T>(ws: seq<seq<T>>, x: T, tail: seq<T>)
    requires forall w | w in ws :: SliceFrom(w, tail, 0)
    requires x !in tail
    ensures forall w | w in ws :: SliceFrom(w, [x] + tail, 1) && x !in w
  {
    forall w | w in ws ensures SliceFrom(w, [x] + tail, 1) && x !in w {
      var p: nat :| p + |w| <= |tail| && Run(tail, p, |w|) == w;
      assert Run([x] + tail, 1 + p, |w|) == w;
      forall y | y in w ensures y != x {
        var q :| 0 <= q < |w| && w[q] == y;
        assert y == tail[p + q];
      }
    }
  }

  /** Every window of a subtree has `threshold` nodes and is a run of the
      subtree's preorder. */
  lemma {:induction false} SubtreeWindowsShape(c: Cache, n: Node, tree: nat, path: seq<int>, threshold: nat)
    ensures forall w | w in SubtreeWindows(c, n, tree, path, threshold) ::
      |w| == threshold && SliceFrom(w, Preorder(c, n, tree, path), 0)
    decreases n, 1
  {
    var pre := Preorder(c, n, tree, path);
    var cs := Children(c, n);
    var kids := PreorderKids(c, n, cs, tree, path, 0);
    var w := Take(pre, threshold);
    if |w| >= threshold {
      assert Run(pre, 0, |w|) == w;
    }
    KidsWindowsShape(c, n, cs, tree, path, threshold, 0);
    AppendNil([Ref(tree, path, n)] + kids);
    assert [Ref(tree, path, n)] + kids + [] == pre;
    forall v | v in KidsWindows(c, n, cs, tree, path, threshold, 0)
      ensures SliceFrom(v, pre, 0)
    {
      SliceShift(v, [Ref(tree, path, n)], kids, [], 0);
    }
  }

  lemma {:induction false} KidsWindowsShape(c: Cache, parent: Node, cs: seq<Node>, tree: nat, path: seq<int>, threshold: nat, i: nat)
    requires i <= |cs|
    requires forall j | 0 <= j < |cs| :: (parent decreases to cs[j])
    ensures forall w | w in KidsWindows(c, parent, cs, tree, path, threshold, i) ::
      |w| == threshold && SliceFrom(w, PreorderKids(c, parent, cs, tree, path, i), 0)
    decreases parent, 0, |cs| - i
  {
    if i < |cs| {
      var here := Preorder(c, cs[i], tree, path + [i]);
      var rest := PreorderKids(c, parent, cs, tree, path, i + 1);
      var mine := SubtreeWindows(c, cs[i], tree, path + [i], threshold);
      var later := KidsWindows(c, parent, cs, tree, path, threshold, i + 1);
      assert PreorderKids(c, parent, cs, tree, path, i) == here + rest;
      assert KidsWindows(c, parent, cs, tree, path, threshold, i) == mine + later;
      SubtreeWindowsShape(c, cs[i], tree, path + [i], threshold);
      KidsWindowsShape(c, parent, cs, tree, path, threshold, i + 1);
      WindowsJoin(mine, later, here, rest, threshold);
    }
  }

  // ---------------------------------------------------------------------------
  // What walkTree tags

  /** The nodes walkTree's bounded visits reach below and at `n`: for every
      subtree, the first `threshold` nodes of its preorder. */
  function SubtreeVisited(c: Cache, n: Node, tree: nat, path: seq<int>, threshold: nat): set<Ref>
    decreases n, 1
  {
    Elements(Take(Preorder(c, n, tree, path), threshold))
      + KidsVisited(c, n, Children(c, n), tree, path, threshold, 0)
  }

  function KidsVisited(c: Cache, parent: Node, cs: seq<Node>, tree: nat, path: seq<int>, threshold: nat, i: nat): set<Ref>
    requires i <= |cs|
    requires forall j | 0 <= j < |cs| :: (parent decreases to cs[j])
    decreases parent, 0, |cs| - i
  {
    if i == |cs| then {}
    else SubtreeVisited(c, cs[i], tree, path + [i], threshold)
         + KidsVisited(c, parent, cs, tree, path, threshold, i + 1)
  }

  function TreeVisited(c: Cache, root: Node, tree: nat, threshold: nat): set<Ref> {
    KidsVisited(c, root, Children(c, root), tree, [], threshold, 0)
  }

  /** The bounded visits only reach nodes of the full preorder of the tree, so
      tagging them again after a full visit changes nothing. */
  lemma TreeVisitedInPreorder(c: Cache, root: Node, tree: nat, threshold: nat)
    ensures TreeVisited(c, root, tree, threshold) <= Elements(Preorder(c, root, tree, []))
  {
    KidsVisitedIn(c, root, Children(c, root), tree, [], threshold, 0);
  }

  lemma {:induction false} SubtreeVisitedIn(c: Cache, n: Node, tree: nat, path: seq<int>, threshold: nat)
    ensures SubtreeVisited(c, n, tree, path, threshold) <= Elements(Preorder(c, n, tree, path))
    decreases n, 1
  {
    var pre := Preorder(c, n, tree, path);
    KidsVisitedIn(c, n, Children(c, n), tree, path, threshold, 0);
    assert pre == [Ref(tree, path, n)] + PreorderKids(c, n, Children(c, n), tree, path, 0);
    assert Elements(Take(pre, threshold)) <= Elements(pre);
  }

  lemma {:induction false} KidsVisitedIn(c: Cache, parent: Node, cs: seq<Node>, tree: nat, path: seq<int>, threshold: nat, i: nat)
    requires i <= |cs|
    requires forall j | 0 <= j < |cs| :: (parent decreases to cs[j])
    ensures KidsVisited(c, parent, cs, tree, path, threshold, i) <= Elements(PreorderKids(c, parent, cs, tree, path, i))
    decreases parent, 0, |cs| - i
  {
    if i < |cs| {
      SubtreeVisitedIn(c, cs[i], tree, path + [i], threshold);
      KidsVisitedIn(c, parent, cs, tree, path, threshold, i + 1);
      var here := Preorder(c, cs[i], tree, path + [i]);
      var rest := PreorderKids(c, parent, cs, tree, path, i + 1);
      assert PreorderKids(c, parent, cs, tree, path, i) == here + rest;
      assert Elements(here + rest) == Elements(here) + Elements(rest);
    }
  }
}
