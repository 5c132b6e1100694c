/** The comparison engine: it parses every file, indexes the first
    `threshold` preorder nodes of every large enough subtree under the
    fingerprint of their type labels, and then reports every key whose groups
    do not overlap and come from more than one file (see `MatchResolver`).
 */
module Parsing {
  import opened OrderedMaps
  import opened Text
  import opened Ast
  import opened CandidateIndex
  import opened MatchResolver
  import opened Files
  import opened Seqs

  /** The two ways `parseFile` is tried on a file's text. */
  datatype SourceType = Script | Module

  /** What indexing writes: the candidate index, every node's occurrence
      record and every node's `filename` tag. */
  datatype Marks = Marks(keyMap: KeyMap, occ: Occurrences, names: map<Ref, string>)

  /** Tagging the nodes `visited` with file `f` (and an occurrence record when
      they have none) and inserting the groups `ws` in order. */
  function Mark(fp: string -> Key, m: Marks, ws: seq<Group>, visited: set<Ref>, f: string): Marks {
    Marks(InsertGroups(m.keyMap, fp, ws), OccInsertGroups(TagOcc(m.occ, visited), fp, ws), TagFiles(m.names, visited, f))
  }

  /** Two rounds of marking for the same file are one round with everything. */
  lemma MarkTwice(fp: string -> Key, m: Marks, w1: seq<Group>, v1: set<Ref>, w2: seq<Group>, v2: set<Ref>, f: string)
    ensures Mark(fp, Mark(fp, m, w1, v1, f), w2, v2, f) == Mark(fp, m, w1 + w2, v1 + v2, f)
  {
    InsertGroupsConcat(m.keyMap, fp, w1, w2);
    TagOccInsertGroups(TagOcc(m.occ, v1), v2, fp, w1);
    TagOccTwice(m.occ, v1, v2);
    OccInsertGroupsConcat(TagOcc(m.occ, v1 + v2), fp, w1, w2);
    TagFilesTwice(m.names, v1, v2, f);
  }

  /** Marking nothing changes nothing. */
  lemma MarkNothing(fp: string -> Key, m: Marks, f: string)
    ensures Mark(fp, m, [], {}, f) == m
  {
    assert TagOcc(m.occ, {}) == m.occ;
    assert TagFiles(m.names, {}, f) == m.names;
  }

  /** Marking keeps the index consistent when every inserted group has a node. */
  lemma MarkPreserves(fp: string -> Key, m: Marks, ws: seq<Group>, visited: set<Ref>, f: string)
    requires IndexInv(m.keyMap, m.occ, fp)
    requires forall w | w in ws :: w != []
    ensures var r := Mark(fp, m, ws, visited, f); IndexInv(r.keyMap, r.occ, fp)
  {
    TagPreserves(m.keyMap, m.occ, fp, visited);
    InsertGroupsPreserve(m.keyMap, TagOcc(m.occ, visited), fp, ws);
  }

  /** The state compareCodes builds before analyze: the node-type cache, the
      marks, `fileNodes` (each file's full preorder) and the number of trees
      parsed so far, which tells the objects of every parse apart. */
  datatype Stage = Stage(nodeTypes: Cache, marks: Marks, fileNodes: map<string, seq<Ref>>, parses: nat)

  /** One iteration of compareCodes' file loop on a file that parsed to
      `root`: a full visit learns every type of the tree and tags every node
      with the file; walkTree then fingerprints the windows of every subtree
      below the root; the full preorder is stored under the file name. */
  function IndexFile(fp: string -> Key, threshold: nat, s: Stage, root: Node, f: string): Stage {
    var c := LearnAll(s.nodeTypes, root);
    var pre := Preorder(c, root, s.parses, []);
    Stage(c, Mark(fp, s.marks, TreeWindows(c, root, s.parses, threshold), Elements(pre), f), s.fileNodes[f := pre], s.parses + 1)
  }

  /** `parseFile(text, "script")`, and when that throws, `parseFile(text, "module")`;
      `None` when both throw. */
  function ParseEither(parse: (string, SourceType) -> Option<Node>, text: string): Option<Node> {
    match parse(text, Script)
    case Some(root) => Some(root)
    case None => parse(text, Module)
  }

  /** How the file loop ends: aborted at the first file that does not parse,
      or finished. */
  datatype Outcome = Aborted(stage: Stage) | Finished(stage: Stage)

  /** The file loop from file `i` on. */
  function IndexFrom(fp: string -> Key, threshold: nat, read: string -> string, parse: (string, SourceType) -> Option<Node>,
                     paths: seq<string>, s: Stage, i: nat): Outcome
    requires i <= |paths|
    decreases |paths| - i
  {
    if i == |paths| then Finished(s)
    else match ParseEither(parse, read(paths[i]))
      case None => Aborted(s)
      case Some(root) => IndexFrom(fp, threshold, read, parse, paths, IndexFile(fp, threshold, s, root, paths[i]), i + 1)
  }

  /** Indexing keeps the candidate index consistent. */
  lemma {:induction false} IndexFromPreserves(fp: string -> Key, threshold: nat, read: string -> string, parse: (string, SourceType) -> Option<Node>,
                                              paths: seq<string>, s: Stage, i: nat)
    requires i <= |paths| && threshold > 0
    requires IndexInv(s.marks.keyMap, s.marks.occ, fp)
    ensures var r := IndexFrom(fp, threshold, read, parse, paths, s, i).stage;
      IndexInv(r.marks.keyMap, r.marks.occ, fp)
    decreases |paths| - i
  {
    if i < |paths| {
      match ParseEither(parse, read(paths[i]))
      case None =>
      case Some(root) =>
        var c := LearnAll(s.nodeTypes, root);
        TreeWindowsShape(c, root, s.parses, threshold);
        MarkPreserves(fp, s.marks, TreeWindows(c, root, s.parses, threshold), Elements(Preorder(c, root, s.parses, [])), paths[i]);
        IndexFromPreserves(fp, threshold, read, parse, paths, IndexFile(fp, threshold, s, root, paths[i]), i + 1);
    }
  }

  // ---------------------------------------------------------------------------
  // Proof steps of the traversals

  // ---------------------------------------------------------------------------
  // The depth-first visit

  /** getNodesDFS on the node-type cache `c` and the array `nodes` it is
      handed: the cache it leaves behind and the array afterwards.  A bounded
      visit stops as soon as the array holds `threshold` nodes; otherwise the
      node is pushed, its children are found (learning its type) and each of
      them is visited in turn. */
  function Dfs(c: Cache, n: Node, tree: nat, path: seq<int>, bounded: bool, threshold: nat, nodes: seq<Ref>): (Cache, seq<Ref>)
    decreases n, 1
  {
    if bounded && |nodes| >= threshold then (c, nodes)
    else DfsKids(Learn(c, n), n, Children(c, n), tree, path, bounded, threshold, nodes + [Ref(tree, path, n)], 0)
  }

  /** The visits of the children `cs` of `parent` from the `i`th on. */
  function DfsKids(c: Cache, parent: Node, cs: seq<Node>, tree: nat, path: seq<int>, bounded: bool, threshold: nat,
                   nodes: seq<Ref>, i: nat): (Cache, seq<Ref>)
    requires i <= |cs|
    requires forall j | 0 <= j < |cs| :: (parent decreases to cs[j])
    decreases parent, 0, |cs| - i
  {
    if i == |cs| then (c, nodes)
    else
      var r := Dfs(c, cs[i], tree, path + [i], bounded, threshold, nodes);
      DfsKids(r.0, parent, cs, tree, path, bounded, threshold, r.1, i + 1)
  }

  /** A full visit appends the preorder of the subtree, under the cache it
      leaves behind, which is the cache after learning every type of it. */
  lemma {:induction false} DfsFull(c: Cache, n: Node, tree: nat, path: seq<int>, threshold: nat, nodes: seq<Ref>)
    ensures Dfs(c, n, tree, path, false, threshold, nodes) == (LearnAll(c, n), nodes + Preorder(LearnAll(c, n), n, tree, path))
    decreases n, 1
  {
    var c1 := Learn(c, n);
    var r := Ref(tree, path, n);
    LearnSpec(c, n);
    var cs := Children(c, n);
    DfsKidsFull(c1, n, cs, tree, path, threshold, nodes + [r], 0);
    var cF := LearnAll(c, n);
    LearnKidsSpec(c1, n, cs, 0);
    ChildrenStable(c1, cF, n);
    SeqAssoc3(nodes, [r], PreorderKids(cF, n, cs, tree, path, 0));
  }

  lemma {:induction false} DfsKidsFull(c: Cache, parent: Node, cs: seq<Node>, tree: nat, path: seq<int>, threshold: nat,
                                       acc: seq<Ref>, i: nat)
    requires i <= |cs|
    requires forall j | 0 <= j < |cs| :: (parent decreases to cs[j])
    ensures var cF := LearnKids(c, parent, cs, i);
      DfsKids(c, parent, cs, tree, path, false, threshold, acc, i) == (cF, acc + PreorderKids(cF, parent, cs, tree, path, i))
    decreases parent, 0, |cs| - i
  {
    if i < |cs| {
      var c1 := LearnAll(c, cs[i]);
      var pre := Preorder(c1, cs[i], tree, path + [i]);
      DfsFull(c, cs[i], tree, path + [i], threshold, acc);
      DfsKidsFull(c1, parent, cs, tree, path, threshold, acc + pre, i + 1);
      var cF := LearnKids(c1, parent, cs, i + 1);
      LearnAllSpec(c, cs[i]);
      LearnKidsSpec(c1, parent, cs, i + 1);
      PreorderStable(c1, cF, cs[i], tree, path + [i]);
      SeqAssoc3(acc, pre, PreorderKids(cF, parent, cs, tree, path, i + 1));
    } else {
      AppendNil(acc);
    }
  }

  /** A bounded visit of a subtree whose types are all cached leaves the
      cache alone and appends what is missing to `threshold` from the front
      of the subtree's preorder. */
  lemma {:induction false} DfsBounded(c: Cache, n: Node, tree: nat, path: seq<int>, threshold: nat, nodes: seq<Ref>)
    requires Closed(c, n)
    ensures Dfs(c, n, tree, path, true, threshold, nodes) == (c, nodes + Take(Preorder(c, n, tree, path), threshold - |nodes|))
    decreases n, 1
  {
    var r := Ref(tree, path, n);
    var cs := Children(c, n);
    var kids := PreorderKids(c, n, cs, tree, path, 0);
    if |nodes| >= threshold {
      AppendNil(nodes);
    } else {
      assert Learn(c, n) == c;
      DfsKidsBounded(c, n, cs, tree, path, threshold, nodes + [r], 0);
      TakeConcat([r], kids, threshold - |nodes|);
      SeqAssoc3(nodes, [r], Take(kids, threshold - |nodes| - 1));
    }
  }

  lemma {:induction false} DfsKidsBounded(c: Cache, parent: Node, cs: seq<Node>, tree: nat, path: seq<int>, threshold: nat,
                                          acc: seq<Ref>, i: nat)
    requires i <= |cs|
    requires forall j | 0 <= j < |cs| :: (parent decreases to cs[j])
    requires forall j | 0 <= j < |cs| :: Closed(c, cs[j])
    ensures DfsKids(c, parent, cs, tree, path, true, threshold, acc, i)
      == (c, acc + Take(PreorderKids(c, parent, cs, tree, path, i), threshold - |acc|))
    decreases parent, 0, |cs| - i
  {
    if i == |cs| {
      AppendNil(acc);
    } else {
      var pre := Preorder(c, cs[i], tree, path + [i]);
      var rest := PreorderKids(c, parent, cs, tree, path, i + 1);
      var k := threshold - |acc|;
      DfsBounded(c, cs[i], tree, path + [i], threshold, acc);
      var acc' := acc + Take(pre, k);
      assert DfsKids(c, parent, cs, tree, path, true, threshold, acc, i)
          == DfsKids(c, parent, cs, tree, path, true, threshold, acc', i + 1);
      DfsKidsBounded(c, parent, cs, tree, path, threshold, acc', i + 1);
      assert PreorderKids(c, parent, cs, tree, path, i) == pre + rest;
      TakeConcat(pre, rest, k);
      assert threshold - |acc'| == k - |Take(pre, k)|;
      SeqAssoc3(acc, Take(pre, k), Take(rest, k - |Take(pre, k)|));
    }
  }

  /** One step of the greedy choice at position `i`. */
  lemma GreedyAt(s: seq<Group>, i: nat, claimed: set<Ref>)
    requires i < |s|
    ensures Greedy(s[i..], claimed)
      == if Fresh(claimed, s[i]) then [s[i]] + Greedy(s[i + 1..], claimed + Elements(s[i]))
         else Greedy(s[i + 1..], claimed)
  {
    DropCons(s, i);
  }

  lemma TagOne(names: map<Ref, string>, occ: Occurrences, r: Ref, f: string)
    ensures Elements([r]) == {r}
    ensures TagFiles(names, {r}, f) == if r !in names || names[r] == "" then names[r := f] else names
    ensures TagOcc(occ, {r}) == if r !in occ then occ[r := Empty()] else occ
  {
  }

  lemma TagNothing(names: map<Ref, string>, occ: Occurrences, f: string)
    ensures Elements<Ref>([]) == {}
    ensures TagFiles(names, {}, f) == names
    ensures TagOcc(occ, {}) == occ
  {
  }

  /** Reading the keys from position `i` on is reading key `i`, then the rest. */
  lemma ViaStep(n: Node, keys: seq<string>, i: nat)
    requires i < |keys|
    ensures ChildrenVia(n, keys[i..]) == ValueChildren(Lookup(n.fields, keys[i])) + ChildrenVia(n, keys[i + 1..])
  {
    assert keys[i..][1..] == keys[i + 1..];
  }

  /** Marking with no group only tags. */
  lemma MarkTags(fp: string -> Key, m: Marks, visited: set<Ref>, f: string)
    ensures Mark(fp, m, [], visited, f) == Marks(m.keyMap, TagOcc(m.occ, visited), TagFiles(m.names, visited, f))
  {
  }

  /** A bounded visit from an empty array is the node's first window, and
      leaves a closed cache as it was. */
  lemma DfsWindow(c: Cache, n: Node, tree: nat, path: seq<int>, threshold: nat)
    requires Closed(c, n)
    ensures Dfs(c, n, tree, path, true, threshold, []) == (c, Take(Preorder(c, n, tree, path), threshold))
  {
    DfsBounded(c, n, tree, path, threshold, []);
    AppendNil(Take(Preorder(c, n, tree, path), threshold));
  }

  /** The marking a visit does with its own window `w`. */
  lemma OwnMark(fp: string -> Key, m: Marks, w: Group, threshold: nat, f: string)
    ensures Mark(fp, m, if |w| >= threshold then [w] else [], Elements(w), f)
      == if |w| >= threshold
         then Marks(InsertGroup(m.keyMap, fp(TypeLabels(w)), w),
                    OccInsertAll(TagOcc(m.occ, Elements(w)), fp(TypeLabels(w)), w, w), TagFiles(m.names, Elements(w), f))
         else Marks(m.keyMap, TagOcc(m.occ, Elements(w)), TagFiles(m.names, Elements(w), f))
  {
    if |w| >= threshold {
      MarkWindow(fp, m, w, Elements(w), f);
    } else {
      MarkTags(fp, m, Elements(w), f);
    }
  }

  /** Marking with one group tags, then inserts that group. */
  lemma MarkWindow(fp: string -> Key, m: Marks, w: Group, visited: set<Ref>, f: string)
    ensures var k := fp(TypeLabels(w));
      Mark(fp, m, [w], visited, f)
      == Marks(InsertGroup(m.keyMap, k, w), OccInsertAll(TagOcc(m.occ, visited), k, w, w), TagFiles(m.names, visited, f))
  {
    var k := fp(TypeLabels(w));
    assert [w][1..] == [];
    assert InsertGroups(m.keyMap, fp, [w]) == InsertGroups(InsertGroup(m.keyMap, k, w), fp, []);
    assert OccInsertGroups(TagOcc(m.occ, visited), fp, [w]) == OccInsertGroups(OccInsertAll(TagOcc(m.occ, visited), k, w, w), fp, []);
  }

  /** Below a closed node the cache has every type: visiting it teaches
      nothing and its children are closed too. */
  lemma ClosedKids(c: Cache, n: Node)
    requires Closed(c, n)
    ensures Learn(c, n) == c
    ensures forall j | 0 <= j < |Children(c, n)| :: Closed(c, Children(c, n)[j])
  {
  }

  /** One unfolding of the windows and reached nodes of a subtree. */
  lemma SubtreeParts(c: Cache, n: Node, tree: nat, path: seq<int>, threshold: nat)
    ensures var w := Take(Preorder(c, n, tree, path), threshold);
      && SubtreeWindows(c, n, tree, path, threshold)
         == (if |w| >= threshold then [w] else []) + KidsWindows(c, n, Children(c, n), tree, path, threshold, 0)
      && SubtreeVisited(c, n, tree, path, threshold)
         == Elements(w) + KidsVisited(c, n, Children(c, n), tree, path, threshold, 0)
  {
  }

  /** The marking of a subtree is the marking of its own window followed by
      that of its children's subtrees. */
  lemma SubtreeMark(fp: string -> Key, c: Cache, n: Node, tree: nat, path: seq<int>, threshold: nat, f: string,
                    m0: Marks, m1: Marks, m2: Marks)
    requires var w := Take(Preorder(c, n, tree, path), threshold);
      m1 == Mark(fp, m0, if |w| >= threshold then [w] else [], Elements(w), f)
    requires m2 == Mark(fp, m1, KidsWindows(c, n, Children(c, n), tree, path, threshold, 0),
                        KidsVisited(c, n, Children(c, n), tree, path, threshold, 0), f)
    ensures m2 == Mark(fp, m0, SubtreeWindows(c, n, tree, path, threshold), SubtreeVisited(c, n, tree, path, threshold), f)
  {
    var w := Take(Preorder(c, n, tree, path), threshold);
    SubtreeParts(c, n, tree, path, threshold);
    MarkTwice(fp, m0, if |w| >= threshold then [w] else [], Elements(w),
              KidsWindows(c, n, Children(c, n), tree, path, threshold, 0),
              KidsVisited(c, n, Children(c, n), tree, path, threshold, 0), f);
  }

  /** Visiting the `i`th child's subtree does the `i`th step of the marking
      of the children from the `i`th on. */
  lemma KidsStep(fp: string -> Key, c: Cache, parent: Node, cs: seq<Node>, tree: nat, path: seq<int>, threshold: nat,
                 f: string, i: nat, before: Marks, after: Marks)
    requires i < |cs|
    requires forall j | 0 <= j < |cs| :: (parent decreases to cs[j])
    requires after == Mark(fp, before, SubtreeWindows(c, cs[i], tree, path + [i], threshold),
                           SubtreeVisited(c, cs[i], tree, path + [i], threshold), f)
    ensures Mark(fp, after, KidsWindows(c, parent, cs, tree, path, threshold, i + 1),
                 KidsVisited(c, parent, cs, tree, path, threshold, i + 1), f)
      == Mark(fp, before, KidsWindows(c, parent, cs, tree, path, threshold, i),
              KidsVisited(c, parent, cs, tree, path, threshold, i), f)
  {
    KidsParts(c, parent, cs, tree, path, threshold, i);
    MarkTwice(fp, before, SubtreeWindows(c, cs[i], tree, path + [i], threshold),
              SubtreeVisited(c, cs[i], tree, path + [i], threshold),
              KidsWindows(c, parent, cs, tree, path, threshold, i + 1),
              KidsVisited(c, parent, cs, tree, path, threshold, i + 1), f);
  }

  /** Once every child has been visited nothing is left to mark. */
  lemma KidsEnd(fp: string -> Key, c: Cache, parent: Node, cs: seq<Node>, tree: nat, path: seq<int>, threshold: nat,
                f: string, m: Marks, m0: Marks, kw: seq<Group>, kv: set<Ref>)
    requires forall j | 0 <= j < |cs| :: (parent decreases to cs[j])
    requires Mark(fp, m, KidsWindows(c, parent, cs, tree, path, threshold, |cs|),
                  KidsVisited(c, parent, cs, tree, path, threshold, |cs|), f) == Mark(fp, m0, kw, kv, f)
    ensures m == Mark(fp, m0, kw, kv, f)
  {
    KidsParts(c, parent, cs, tree, path, threshold, |cs|);
    MarkNothing(fp, m, f);
  }

  /** One unfolding of the windows and reached nodes of the children from the `i`th on. */
  lemma KidsParts(c: Cache, parent: Node, cs: seq<Node>, tree: nat, path: seq<int>, threshold: nat, i: nat)
    requires i <= |cs|
    requires forall j | 0 <= j < |cs| :: (parent decreases to cs[j])
    ensures i == |cs| ==> KidsWindows(c, parent, cs, tree, path, threshold, i) == [] && KidsVisited(c, parent, cs, tree, path, threshold, i) == {}
    ensures i < |cs| ==>
      && KidsWindows(c, parent, cs, tree, path, threshold, i)
         == SubtreeWindows(c, cs[i], tree, path + [i], threshold) + KidsWindows(c, parent, cs, tree, path, threshold, i + 1)
      && KidsVisited(c, parent, cs, tree, path, threshold, i)
         == SubtreeVisited(c, cs[i], tree, path + [i], threshold) + KidsVisited(c, parent, cs, tree, path, threshold, i + 1)
  {
  }

  // ---------------------------------------------------------------------------
  // expand

  /** `fileNodes.get(nodes[0].filename)`; treated as empty when absent. */
  function TreeOf(fileNodes: map<string, seq<Ref>>, file: Option<string>): seq<Ref> {
    if file.Some? && file.value in fileNodes then fileNodes[file.value] else []
  }

  /** `allTrees[i][val]`: the node at that position, absent when out of range. */
  function At(tree: seq<Ref>, val: int): Option<Ref> {
    if 0 <= val < |tree| then Some(tree[val]) else None
  }

  /** `sameType(nodes)`: every element is a node of the first one's type. */
  predicate SameType(col: seq<Option<Ref>>) {
    forall i | 0 <= i < |col| :: col[0].Some? && col[i].Some? && col[i].value.node.nodeType == col[0].value.node.nodeType
  }

  /** `exists(nodes, nodeArrays)`.  Its `return false` only leaves the
      `forEach` callback, so the answer is always true. */
  function Exists(nodes: seq<Option<Ref>>, nodeArrays: seq<Group>): (r: bool)
    ensures r
  {
    true
  }

  /** The test the `exists` callback makes on one element: it is a node of
      some group (`array.indexOf(node) !== -1`).  A hole is in none. */
  predicate InSomeGroup(node: Option<Ref>, nodeArrays: seq<Group>) {
    node.Some? && exists g | g in nodeArrays :: node.value in g
  }

  /** The callback's answer never reaches the caller: a column whose node is
      in no group and a column whose node is in one both get true. */
  lemma ExistsIgnoresMembership(r: Ref, g: Group)
    requires r !in g
    ensures !InSomeGroup(Some(r), [g]) && Exists([Some(r)], [g])
    ensures InSomeGroup(Some(r), [[r]]) && Exists([Some(r)], [[r]])
  {
    assert r in [r];
  }

  /** One step of removeNode's inner loop: a key already gone stops it. */
  lemma DropGroupsAt(km: KeyMap, k: Key, gs: seq<Group>, i: nat)
    requires i < |gs|
    ensures DropGroups(km, k, gs[i..])
      == if k !in km.entries then km else DropGroups(DropOne(km, k, gs[i]), k, gs[i + 1..])
  {
    DropCons(gs, i);
  }

  /** One step of removeNode's outer loop. */
  lemma DropKeysAt(km: KeyMap, rec: OccRecord, keys: seq<Key>, i: nat)
    requires i < |keys|
    ensures DropKeys(km, rec, keys[i..]) == DropKeys(DropGroups(km, keys[i], Get(rec, keys[i], [])), rec, keys[i + 1..])
  {
    DropCons(keys, i);
  }

  lemma DropOneSteps(km: KeyMap, k: Key, g: Group)
    requires k in km.entries
    ensures var list := km.entries[k];
      var i := IndexOf(list, g);
      var km1 := if i > -1 then Put(km, k, list[..i] + list[i + 1..]) else km;
      (if |km1.entries[k]| == 0 then Remove(km1, k) else km1) == DropOne(km, k, g)
  {
    var list := km.entries[k];
    var i := IndexOf(list, g);
    if i > -1 {
      var km1 := Put(km, k, list[..i] + list[i + 1..]);
      if |km1.entries[k]| == 0 {
        assert km1.entries - {k} == km.entries - {k};
      }
    } else {
      assert km.entries[k := list] == km.entries;
    }
  }

  /** The names of a list of files. */
  function NamesOf(fs: seq<File>): (r: seq<string>)
    ensures |r| == |fs| && forall i {:trigger r[i]} | 0 <= i < |fs| :: r[i] == fs[i].name
  {
    if fs == [] then [] else [fs[0].name] + NamesOf(fs[1..])
  }

  /** The similarity maps of a list of files. */
  function SimsOf(fs: seq<File>): (r: seq<SimMap>)
    reads fs
    ensures |r| == |fs| && forall i {:trigger r[i]} | 0 <= i < |fs| :: r[i] == fs[i].similarityMap
  {
    if fs == [] then [] else [fs[0].similarityMap] + SimsOf(fs[1..])
  }

  /** compareCodes as a whole: the file loop, then analyze unless the loop
      aborted.  Analyze changes only the index and the ledger. */
  function Compare(fp: string -> Key, threshold: nat, digest: string -> string, read: string -> string,
                   parse: (string, SourceType) -> Option<Node>, paths: seq<string>, s: Stage, l: Ledger): (r: (Stage, Ledger))
    requires threshold > 0
    requires IndexInv(s.marks.keyMap, s.marks.occ, fp) && LedgerValid(l, |paths|)
  {
    IndexFromPreserves(fp, threshold, read, parse, paths, s, 0);
    match IndexFrom(fp, threshold, read, parse, paths, s, 0)
    case Aborted(t) => (t, l)
    case Finished(t) =>
      var b := Analyze(Env(paths, t.marks.names, t.marks.occ, digest), Books(t.marks.keyMap, l), fp);
      (Stage(t.nodeTypes, Marks(b.keyMap, t.marks.occ, t.marks.names), t.fileNodes, t.parses), b.ledger)
  }

  /** compareCodes keeps the index consistent, the ledger well formed and
      the total balanced against the recorded lines; when a file does not
      parse nothing is recorded; the cache, tags, records and stored
      preorders are those of the file loop. */
  lemma CompareSpec(fp: string -> Key, threshold: nat, digest: string -> string, read: string -> string,
                    parse: (string, SourceType) -> Option<Node>, paths: seq<string>, s: Stage, l: Ledger)
    requires threshold > 0
    requires IndexInv(s.marks.keyMap, s.marks.occ, fp) && LedgerValid(l, |paths|)
    ensures var (t, l') := Compare(fp, threshold, digest, read, parse, paths, s, l);
      var o := IndexFrom(fp, threshold, read, parse, paths, s, 0);
      && IndexInv(t.marks.keyMap, t.marks.occ, fp)
      && LedgerValid(l', |paths|)
      && Balance(l') == Balance(l)
      && (o.Aborted? ==> t == o.stage && l' == l)
      && t.nodeTypes == o.stage.nodeTypes && t.fileNodes == o.stage.fileNodes && t.parses == o.stage.parses
      && t.marks.occ == o.stage.marks.occ && t.marks.names == o.stage.marks.names
      && Shrunk(o.stage.marks.keyMap, t.marks.keyMap)
  {
    IndexFromPreserves(fp, threshold, read, parse, paths, s, 0);
    var o := IndexFrom(fp, threshold, read, parse, paths, s, 0);
    if o.Finished? {
      var t := o.stage;
      var env := Env(paths, t.marks.names, t.marks.occ, digest);
      var b := Books(t.marks.keyMap, l);
      AnalyzeKeysPreserves(env, b, SortByCount(b.keyMap, Candidates(b.keyMap, b.keyMap.keys)), fp);
    } else {
      assert Shrunk(o.stage.marks.keyMap, o.stage.marks.keyMap);
    }
  }

  /** Every node tagged so far belongs to a parse numbered below the parse
      count. */
  ghost predicate Numbered(s: Stage) {
    forall r | r in s.marks.names :: r.tree < s.parses
  }

  /** Each parse brings fresh objects: the file loop keeps every tag it finds
      and the numbering, and every node it tags anew belongs to one of its
      own parses, so it was never seen before. */
  lemma {:induction false} IndexFromFresh(fp: string -> Key, threshold: nat, read: string -> string, parse: (string, SourceType) -> Option<Node>,
                                          paths: seq<string>, s: Stage, i: nat)
    requires i <= |paths| && Numbered(s)
    ensures var t := IndexFrom(fp, threshold, read, parse, paths, s, i).stage;
      && Numbered(t) && s.parses <= t.parses
      && s.marks.names.Keys <= t.marks.names.Keys
      && forall r | r in t.marks.names && r !in s.marks.names :: s.parses <= r.tree
    decreases |paths| - i
  {
    if i < |paths| {
      match ParseEither(parse, read(paths[i]))
      case None =>
      case Some(root) =>
        var c := LearnAll(s.nodeTypes, root);
        var s1 := IndexFile(fp, threshold, s, root, paths[i]);
        PreorderPaths(c, root, s.parses, []);
        assert forall r | r in s1.marks.names && r !in s.marks.names :: r.tree == s.parses;
        IndexFromFresh(fp, threshold, read, parse, paths, s1, i + 1);
    }
  }

  /** compareCodes keeps the numbering of the tagged nodes, and every node it
      tags belongs to a parse of its own: a second comparison on the same
      parser works on objects distinct from those of the first. */
  lemma CompareFresh(fp: string -> Key, threshold: nat, digest: string -> string, read: string -> string,
                     parse: (string, SourceType) -> Option<Node>, paths: seq<string>, s: Stage, l: Ledger)
    requires threshold > 0
    requires IndexInv(s.marks.keyMap, s.marks.occ, fp) && LedgerValid(l, |paths|)
    requires Numbered(s)
    ensures var t := Compare(fp, threshold, digest, read, parse, paths, s, l).0;
      && Numbered(t) && s.parses <= t.parses
      && s.marks.names.Keys <= t.marks.names.Keys
      && forall r | r in t.marks.names && r !in s.marks.names :: s.parses <= r.tree
  {
    CompareSpec(fp, threshold, digest, read, parse, paths, s, l);
    IndexFromFresh(fp, threshold, read, parse, paths, s, 0);
  }

  /** compareCodes one phase at a time. */
  lemma CompareAt(fp: string -> Key, threshold: nat, digest: string -> string, read: string -> string,
                  parse: (string, SourceType) -> Option<Node>, paths: seq<string>, s: Stage, l: Ledger)
    requires threshold > 0
    requires IndexInv(s.marks.keyMap, s.marks.occ, fp) && LedgerValid(l, |paths|)
    ensures var o := IndexFrom(fp, threshold, read, parse, paths, s, 0);
      && IndexInv(o.stage.marks.keyMap, o.stage.marks.occ, fp)
      && (o.Aborted? ==> Compare(fp, threshold, digest, read, parse, paths, s, l) == (o.stage, l))
      && (o.Finished? ==>
            var t := o.stage;
            var b := Analyze(Env(paths, t.marks.names, t.marks.occ, digest), Books(t.marks.keyMap, l), fp);
            Compare(fp, threshold, digest, read, parse, paths, s, l)
              == (Stage(t.nodeTypes, Marks(b.keyMap, t.marks.occ, t.marks.names), t.fileNodes, t.parses), b.ledger))
  {
    IndexFromPreserves(fp, threshold, read, parse, paths, s, 0);
  }

  lemma IndexFromAt(fp: string -> Key, threshold: nat, read: string -> string, parse: (string, SourceType) -> Option<Node>,
                    paths: seq<string>, s: Stage, i: nat, root: Node)
    requires i < |paths| && ParseEither(parse, read(paths[i])) == Some(root)
    ensures IndexFrom(fp, threshold, read, parse, paths, s, i)
      == IndexFrom(fp, threshold, read, parse, paths, IndexFile(fp, threshold, s, root, paths[i]), i + 1)
  {
  }

  /** The indexing of one file, from its two traversals: the full visit
      tags every node of the preorder and learns every type, and walkTree
      marks the windows and the nodes it reaches, all in the preorder. */
  lemma IndexFileSteps(fp: string -> Key, threshold: nat, s: Stage, root: Node, f: string, m1: Marks, m2: Marks)
    requires var c := LearnAll(s.nodeTypes, root);
      m1 == Mark(fp, s.marks, [], Elements(Preorder(c, root, s.parses, [])), f)
    requires var c := LearnAll(s.nodeTypes, root);
      m2 == Mark(fp, m1, TreeWindows(c, root, s.parses, threshold), TreeVisited(c, root, s.parses, threshold), f)
    ensures var c := LearnAll(s.nodeTypes, root);
      Stage(c, m2, s.fileNodes[f := Preorder(c, root, s.parses, [])], s.parses + 1) == IndexFile(fp, threshold, s, root, f)
  {
    var tree := s.parses;
    var c := LearnAll(s.nodeTypes, root);
    var e := Elements(Preorder(c, root, tree, []));
    var tw := TreeWindows(c, root, tree, threshold);
    var tv := TreeVisited(c, root, tree, threshold);
    TreeVisitedInPreorder(c, root, tree, threshold);
    MarkTwice(fp, s.marks, [], e, tw, tv, f);
    AppendNil(tw);
    UnionSub(e, tv);
  }

  lemma DropNodesAt(km: KeyMap, occ: Occurrences, nodes: seq<Ref>, i: nat)
    requires i < |nodes|
    ensures DropNodes(km, occ, nodes[i..]) == DropNodes(DropNode(km, occ, nodes[i]), occ, nodes[i + 1..])
  {
    DropCons(nodes, i);
  }

  lemma DropAllAt(km: KeyMap, occ: Occurrences, groups: seq<Group>, i: nat)
    requires i < |groups|
    ensures DropAll(km, occ, groups[i..]) == DropAll(DropNodes(km, occ, groups[i]), occ, groups[i + 1..])
  {
    DropCons(groups, i);
  }

  lemma RecordGroupsAt(names: seq<string>, filenames: map<Ref, string>, l: Ledger, id: string, gs: seq<Group>, i: nat)
    requires i < |gs| && |l.sims| == |names|
    requires forall j | 0 <= j < |gs| :: gs[j] != []
    ensures RecordGroups(names, filenames, l, id, gs[i..])
      == RecordGroups(names, filenames, RecordIn(names, l, FileOf(filenames, gs[i][0]), id, Span(gs[i]), 0), id, gs[i + 1..])
  {
    DropCons(gs, i);
  }

  lemma AnalyzeKeysAt(env: Env, b: Books, keys: seq<Key>, fp: string -> Key, i: nat)
    requires i < |keys| && BooksValid(env, b, fp)
    ensures BooksValid(env, AnalyzeKey(env, b, keys[i]), fp)
    ensures AnalyzeKeys(env, b, keys[i..], fp) == AnalyzeKeys(env, AnalyzeKey(env, b, keys[i]), keys[i + 1..], fp)
  {
    DropCons(keys, i);
    AnalyzeKeyPreserves(env, b, keys[i], fp);
  }

  lemma TokensAt(gs: seq<Group>, i: nat)
    requires i < |gs|
    ensures Tokens(gs[i..]) == GroupTokens(gs[i]) + Tokens(gs[i + 1..])
  {
    DropCons(gs, i);
  }

  lemma GroupTokensAt(g: Group, j: nat)
    requires j < |g|
    ensures GroupTokens(g[j..]) == [Token(g[j].node)] + GroupTokens(g[j + 1..])
  {
    DropCons(g, j);
  }

  /** One iteration of the loop over the files: the ledger afterwards and
      whether the loop stops. */
  function RecordStep(names: seq<string>, l: Ledger, file: Option<string>, id: string, span: LineRange, j: nat): (Ledger, bool)
    requires j < |names| && |l.sims| == |names|
  {
    if Some(names[j]) != file then (l, false)
    else if id in l.sims[j].entries then (l, true)
    else (Ledger(l.sims[j := Put(l.sims[j], id, span)], l.total + Width(span)), false)
  }

  lemma RecordInAt(names: seq<string>, l: Ledger, file: Option<string>, id: string, span: LineRange, j: nat)
    requires j < |names| && |l.sims| == |names|
    ensures var (l', stop) := RecordStep(names, l, file, id, span, j);
      RecordIn(names, l, file, id, span, j) == if stop then l' else RecordIn(names, l', file, id, span, j + 1)
  {
  }

  class Parser {
    /** The files compared, in order. */
    const files: seq<File>
    /** The number of nodes in a fingerprinted group. */
    const threshold: nat := 30
    /** The key of a string of type labels (a base64 SHA-1 digest). */
    const fingerprint: string -> Key
    /** The match id of a string of tokens (a hex SHA-1 digest). */
    const digest: string -> string

    /** File name to the full preorder of its tree. */
    var fileNodes: map<string, seq<Ref>>
    /** The node-type cache of child discovery. */
    var nodeTypes: Cache
    /** The candidate index. */
    var keyMap: KeyMap
    var totalSimilarityLines: int
    /** The `filename` property of every node that has one. */
    var filenames: map<Ref, string>
    /** The `occurrences` property of every node that has one. */
    var occurrences: Occurrences
    /** The number of trees parsed so far: the objects of the next parse are
        numbered with it, so they differ from every object seen before. */
    var parses: nat

    /** The files are distinct objects with well-formed similarity maps, and the
        candidate index agrees with the occurrence records. */
    ghost predicate Valid()
      reads this`keyMap, this`occurrences, files
    {
      FilesValid() && IndexInv(keyMap, occurrences, fingerprint)
    }

    /** The files are distinct objects (each is first found at its own
        position) with well-formed similarity maps. */
    ghost predicate FilesValid()
      reads files
    {
      forall i | 0 <= i < |files| :: Position(files, files[i]) == i && files[i].Valid()
    }

    function Marked(): Marks
      reads this`keyMap, this`occurrences, this`filenames
    {
      Marks(keyMap, occurrences, filenames)
    }

    function Staged(): Stage
      reads this`nodeTypes, this`keyMap, this`occurrences, this`filenames, this`fileNodes, this`parses
    {
      Stage(nodeTypes, Marked(), fileNodes, parses)
    }

    /** What analyze writes: the files' similarity maps and the total. */
    function Recorded(): Ledger
      reads this`totalSimilarityLines, files
    {
      Ledger(SimsOf(files), totalSimilarityLines)
    }

    /** What analyze reads and never changes. */
    function Inputs(): Env
      reads this`filenames, this`occurrences
    {
      Env(NamesOf(files), filenames, occurrences, digest)
    }

    /** `new Parser(files)`, with the two digests as parameters. */
    constructor(files: seq<File>, fingerprint: string -> Key, digest: string -> string)
      requires forall i, j | 0 <= i < j < |files| :: files[i] != files[j]
      requires forall i | 0 <= i < |files| :: files[i].Valid()
      ensures Valid()
      ensures this.files == files && this.fingerprint == fingerprint && this.digest == digest
      ensures fileNodes == map[] && nodeTypes == map[] && keyMap == Empty() && totalSimilarityLines == 0
      ensures filenames == map[] && occurrences == map[] && parses == 0
    {
      DistinctPositions(files);
      this.files := files;
      this.fingerprint := fingerprint;
      this.digest := digest;
      fileNodes := map[];
      nodeTypes := map[];
      keyMap := Empty();
      totalSimilarityLines := 0;
      filenames := map[];
      occurrences := map[];
      parses := 0;
    }

    function GetFiles(): (r: seq<File>)
      ensures r == files
    {
      files
    }

    /** `getChildren(node)`: the type's keys are cached on first sight (the
        cache is then never changed for it), and the children are the
        non-empty-typed node values and the kept array elements under those
        keys, in key order. */
    method GetChildren(node: Node) returns (children: seq<Node>)
      modifies this`nodeTypes
      ensures nodeTypes == Learn(old(nodeTypes), node)
      ensures children == Children(old(nodeTypes), node)
    {
      if node.nodeType !in nodeTypes {
        nodeTypes := nodeTypes[node.nodeType := ObjectKeys(node.fields)];
      }
      var keys := nodeTypes[node.nodeType];
      children := [];
      assert keys[0..] == keys;
      for i := 0 to |keys|
        invariant children + ChildrenVia(node, keys[i..]) == ChildrenVia(node, keys)
        modifies {}
      {
        ViaStep(node, keys, i);
        ghost var prev := children;
        var childNode := Lookup(node.fields, keys[i]);
        match childNode {
          case Child(c) =>
            if c.nodeType != "" {
              children := children + [c];
            }
          case List(items) =>
            if |items| > 0 {
              children := children + ArrayChildren(items);
            }
          case _ =>
        }
        assert children == prev + ValueChildren(childNode);
        SeqAssoc3(prev, ValueChildren(childNode), ChildrenVia(node, keys[i + 1..]));
      }
    }

    /** `getNodesDFS(root, filename, hasThreshold, nodes)`, on the node at
        `path` of parse `tree`; the array `nodes` is passed in and the array
        afterwards returned.  The cache and the array end as `Dfs` says (see
        `DfsFull` and `DfsBounded` for what that is), and exactly the pushed
        nodes are tagged with `filename` and given a record. */
    method GetNodesDFS(root: Node, tree: nat, path: seq<int>, filename: string, hasThreshold: bool, nodes: seq<Ref>)
      returns (out: seq<Ref>)
      modifies this`filenames, this`occurrences, this`nodeTypes
      decreases root
      ensures (nodeTypes, out) == Dfs(old(nodeTypes), root, tree, path, hasThreshold, threshold, nodes)
      ensures nodes <= out
      ensures filenames == TagFiles(old(filenames), Elements(out[|nodes|..]), filename)
      ensures occurrences == TagOcc(old(occurrences), Elements(out[|nodes|..]))
    {
      if hasThreshold && |nodes| >= threshold {
        out := nodes;
        Suffix(nodes, []);
        AppendNil(nodes);
        TagNothing(filenames, occurrences, filename);
        return;
      }
      ghost var names0 := filenames;
      ghost var occ0 := occurrences;
      var r := Ref(tree, path, root);
      TagNode(r, filename);
      var children := GetChildren(root);
      out := GetChildrenDFS(root, children, tree, path, filename, hasThreshold, nodes + [r]);
      ghost var extra := out[|nodes| + 1..];
      PrefixSplit(nodes + [r], out);
      SeqAssoc3(nodes, [r], extra);
      Suffix(nodes, [r] + extra);
      assert out[|nodes|..] == [r] + extra;
      ElementsConcat([r], extra);
      ElementsOne(r);
      TagFilesTwice(names0, {r}, Elements(extra), filename);
      TagOccTwice(occ0, {r}, Elements(extra));
    }

    /** The push of one node: its `filename` is set unless it has a non-empty
        one, and it gets an empty occurrence record unless it has one. */
    method TagNode(r: Ref, filename: string)
      modifies this`filenames, this`occurrences
      ensures filenames == TagFiles(old(filenames), {r}, filename)
      ensures occurrences == TagOcc(old(occurrences), {r})
    {
      TagOne(filenames, occurrences, r, filename);
      if r !in filenames || filenames[r] == "" {
        filenames := filenames[r := filename];
      }
      if r !in occurrences {
        occurrences := occurrences[r := Empty()];
      }
    }

    /** The loop of getNodesDFS over the children of `parent`, appending to
        `acc`. */
    method GetChildrenDFS(parent: Node, children: seq<Node>, tree: nat, path: seq<int>, filename: string,
                          hasThreshold: bool, acc: seq<Ref>) returns (out: seq<Ref>)
      requires forall j | 0 <= j < |children| :: (parent decreases to children[j])
      modifies this`filenames, this`occurrences, this`nodeTypes
      decreases parent, 0
      ensures (nodeTypes, out) == DfsKids(old(nodeTypes), parent, children, tree, path, hasThreshold, threshold, acc, 0)
      ensures acc <= out
      ensures filenames == TagFiles(old(filenames), Elements(out[|acc|..]), filename)
      ensures occurrences == TagOcc(old(occurrences), Elements(out[|acc|..]))
    {
      ghost var c0 := nodeTypes;
      ghost var names0 := filenames;
      ghost var occ0 := occurrences;
      out := acc;
      ghost var added: seq<Ref> := [];
      AppendNil(acc);
      ElementsNone<Ref>();
      TagNothing(filenames, occurrences, filename);
      for i := 0 to |children|
        invariant out == acc + added
        invariant filenames == TagFiles(names0, Elements(added), filename)
        invariant occurrences == TagOcc(occ0, Elements(added))
        invariant DfsKids(nodeTypes, parent, children, tree, path, hasThreshold, threshold, out, i)
          == DfsKids(c0, parent, children, tree, path, hasThreshold, threshold, acc, 0)
      {
        ghost var before := out;
        out := GetNodesDFS(children[i], tree, path + [i], filename, hasThreshold, out);
        ghost var extra := out[|before|..];
        PrefixSplit(before, out);
        SeqAssoc3(acc, added, extra);
        ElementsConcat(added, extra);
        TagFilesTwice(names0, Elements(added), Elements(extra), filename);
        TagOccTwice(occ0, Elements(added), Elements(extra));
        added := added + extra;
      }
      Suffix(acc, added);
    }

    /** `insertNode(nodes)`: the group is filed under the fingerprint of the
        concatenated type labels of its nodes, both in the index (after the
        groups already there) and in the record of each of its nodes. */
    method InsertNode(nodes: Group)
      modifies this`keyMap, this`occurrences
      ensures var key := fingerprint(TypeLabels(nodes));
        && keyMap == InsertGroup(old(keyMap), key, nodes)
        && occurrences == OccInsertAll(old(occurrences), key, nodes, nodes)
    {
      var types := Labels(nodes);
      var key := fingerprint(types);
      AddOccurrences(key, nodes);
      keyMap := InsertGroup(keyMap, key, nodes);
    }

    /** The loop of insertNode that concatenates the nodes' type labels. */
    method Labels(nodes: Group) returns (types: string)
      ensures types == TypeLabels(nodes)
    {
      types := "";
      for i := 0 to |nodes|
        invariant types == TypeLabels(nodes[..i])
      {
        TakeSnoc(nodes, i);
        TypeLabelsConcat(nodes[..i], [nodes[i]]);
        assert TypeLabels([nodes[i]]) == nodes[i].node.nodeType + "";
        types := types + nodes[i].node.nodeType;
      }
      Whole(nodes);
    }

    /** The loop of insertNode that files the group under `key` in the
        record of each of its nodes. */
    method AddOccurrences(key: Key, nodes: Group)
      modifies this`occurrences
      ensures occurrences == OccInsertAll(old(occurrences), key, nodes, nodes)
    {
      var occ := occurrences;
      Whole(nodes);
      for i := 0 to |nodes|
        invariant OccInsertAll(occ, key, nodes, nodes[i..]) == OccInsertAll(old(occurrences), key, nodes, nodes)
        modifies {}
      {
        DropCons(nodes, i);
        occ := OccAdd(occ, nodes[i], key, nodes);
      }
      occurrences := occ;
    }

    /** walkTree's `visit(node)` on the node at `path` of parse `tree`, once
        every type below it is cached: the node's own window is handled, then
        every child is visited in turn.  What it writes is one round of
        marking with the subtree's windows and reached nodes. */
    method Visit(n: Node, tree: nat, path: seq<int>, filename: string)
      requires Closed(nodeTypes, n)
      modifies this`filenames, this`occurrences, this`nodeTypes, this`keyMap
      decreases n, 1, 0
      ensures nodeTypes == old(nodeTypes)
      ensures Marked() == Mark(fingerprint, old(Marked()), SubtreeWindows(nodeTypes, n, tree, path, threshold),
                               SubtreeVisited(nodeTypes, n, tree, path, threshold), filename)
    {
      ghost var c := nodeTypes;
      ghost var m0 := Marked();
      VisitOwn(n, tree, path, filename);
      OwnMark(fingerprint, m0, Take(Preorder(c, n, tree, path), threshold), threshold, filename);
      ghost var m1 := Marked();
      VisitChildren(n, tree, path, filename);
      SubtreeMark(fingerprint, c, n, tree, path, threshold, filename, m0, m1, Marked());
    }

    /** The first half of `visit(node)`: a bounded visit collects (and tags)
        the first `threshold` nodes of the node's preorder, and a full window
        is inserted. */
    method VisitOwn(n: Node, tree: nat, path: seq<int>, filename: string)
      requires Closed(nodeTypes, n)
      modifies this`filenames, this`occurrences, this`nodeTypes, this`keyMap
      ensures nodeTypes == old(nodeTypes)
      ensures var w := Take(Preorder(nodeTypes, n, tree, path), threshold);
        && filenames == TagFiles(old(filenames), Elements(w), filename)
        && (|w| >= threshold ==>
              var k := fingerprint(TypeLabels(w));
              keyMap == InsertGroup(old(keyMap), k, w) && occurrences == OccInsertAll(TagOcc(old(occurrences), Elements(w)), k, w, w))
        && (|w| < threshold ==> keyMap == old(keyMap) && occurrences == TagOcc(old(occurrences), Elements(w)))
    {
      var nodes := OwnWindow(n, tree, path, filename);
      if |nodes| >= threshold {
        InsertNode(nodes);
      }
    }

    /** The bounded visit of `visit(node)`: the first `threshold` nodes of the
        node's preorder, each tagged with the file. */
    method OwnWindow(n: Node, tree: nat, path: seq<int>, filename: string) returns (nodes: Group)
      requires Closed(nodeTypes, n)
      modifies this`filenames, this`occurrences, this`nodeTypes
      ensures nodeTypes == old(nodeTypes)
      ensures nodes == Take(Preorder(nodeTypes, n, tree, path), threshold)
      ensures filenames == TagFiles(old(filenames), Elements(nodes), filename)
      ensures occurrences == TagOcc(old(occurrences), Elements(nodes))
    {
      ghost var c := nodeTypes;
      DfsWindow(c, n, tree, path, threshold);
      nodes := GetNodesDFS(n, tree, path, filename, true, []);
      assert nodeTypes == c && nodes == Take(Preorder(c, n, tree, path), threshold);
      Whole(nodes);
    }

    /** `getChildren(node).forEach(child => visit(child))`, the loop shared
        by walkTree and visit: the children's subtrees are marked in order. */
    method VisitChildren(parent: Node, tree: nat, path: seq<int>, filename: string)
      requires Closed(nodeTypes, parent)
      modifies this`filenames, this`occurrences, this`nodeTypes, this`keyMap
      decreases parent, 0, 1
      ensures nodeTypes == old(nodeTypes)
      ensures var cs := Children(nodeTypes, parent);
        Marked() == Mark(fingerprint, old(Marked()), KidsWindows(nodeTypes, parent, cs, tree, path, threshold, 0),
                         KidsVisited(nodeTypes, parent, cs, tree, path, threshold, 0), filename)
    {
      ghost var c := nodeTypes;
      ghost var m0 := Marked();
      var children := GetChildren(parent);
      ghost var kw := KidsWindows(c, parent, children, tree, path, threshold, 0);
      ghost var kv := KidsVisited(c, parent, children, tree, path, threshold, 0);
      ghost var target := Mark(fingerprint, m0, kw, kv, filename);
      for i := 0 to |children|
        invariant nodeTypes == c
        invariant Mark(fingerprint, Marked(), KidsWindows(c, parent, children, tree, path, threshold, i),
                       KidsVisited(c, parent, children, tree, path, threshold, i), filename) == target
      {
        VisitChild(parent, children, i, tree, path, filename, target);
      }
      KidsEnd(fingerprint, c, parent, children, tree, path, threshold, filename, Marked(), m0, kw, kv);
    }

    /** One iteration of the loop over the children: the `i`th child's
        subtree is visited. */
    method VisitChild(parent: Node, children: seq<Node>, i: nat, tree: nat, path: seq<int>, filename: string,
                      ghost target: Marks)
      requires i < |children| && children == Children(nodeTypes, parent)
      requires Closed(nodeTypes, parent)
      requires Mark(fingerprint, Marked(), KidsWindows(nodeTypes, parent, children, tree, path, threshold, i),
                    KidsVisited(nodeTypes, parent, children, tree, path, threshold, i), filename) == target
      modifies this`filenames, this`occurrences, this`nodeTypes, this`keyMap
      decreases parent, 0, 0
      ensures nodeTypes == old(nodeTypes)
      ensures Mark(fingerprint, Marked(), KidsWindows(nodeTypes, parent, children, tree, path, threshold, i + 1),
                   KidsVisited(nodeTypes, parent, children, tree, path, threshold, i + 1), filename) == target
    {
      ghost var before := Marked();
      ClosedKids(nodeTypes, parent);
      Visit(children[i], tree, path + [i], filename);
      KidsStep(fingerprint, nodeTypes, parent, children, tree, path, threshold, filename, i, before, Marked());
    }

    /** `walkTree(root, filename)` on parse `tree`, once every type of the
        tree is cached: the root's children are visited, so the root's own
        window is never inserted. */
    method WalkTree(root: Node, tree: nat, filename: string)
      requires Closed(nodeTypes, root)
      modifies this`filenames, this`occurrences, this`nodeTypes, this`keyMap
      ensures nodeTypes == old(nodeTypes)
      ensures Marked() == Mark(fingerprint, old(Marked()), TreeWindows(nodeTypes, root, tree, threshold),
                               TreeVisited(nodeTypes, root, tree, threshold), filename)
    {
      VisitChildren(root, tree, [], filename);
    }

    /** `removeOverlappingGroup(nodeArrays)` on a copy of a key's groups: a
        group whose nodes grow the set of nodes claimed so far by its length
        is kept and claims them; any other group is spliced out. */
    method RemoveOverlappingGroup(nodeArrays: seq<Group>) returns (kept: seq<Group>)
      ensures kept == Greedy(nodeArrays, {})
    {
      kept := nodeArrays;
      var claimed: set<Ref> := {};
      var i := 0;
      while i < |kept|
        invariant i <= |kept|
        invariant kept[..i] + Greedy(kept[i..], claimed) == Greedy(nodeArrays, {})
        decreases |kept| - i
      {
        var g := kept[i];
        GreedyAt(kept, i, claimed);
        var temp := claimed;
        for j := 0 to |g|
          invariant temp == claimed + Elements(g[..j])
        {
          ElementsSnoc(g, j);
          temp := temp + {g[j]};
        }
        Whole(g);
        if |claimed| + |g| == |temp| {
          ghost var claimed0 := claimed;
          for j := 0 to |g|
            invariant claimed == claimed0 + Elements(g[..j])
          {
            ElementsSnoc(g, j);
            claimed := claimed + {g[j]};
          }
          TakeSnoc(kept, i);
          SeqAssoc3(kept[..i], [g], Greedy(kept[i + 1..], claimed));
          i := i + 1;
        } else {
          SpliceParts(kept, i);
          kept := kept[..i] + kept[i + 1..];
        }
      }
      Whole(kept);
    }

    /** `expand(nodeArrays)`.  For each group it finds the group's file
        preorder and the positions of the group's first and last nodes there;
        each of its two loops then looks at the nodes one position further out
        and grows the groups only when they are of one type and `exists` is
        false.  `exists` is always true, so both loops stop at their first
        test and the groups come back unchanged. */
    method Expand(nodeArrays: seq<Group>) returns (r: seq<Group>)
      requires forall i | 0 <= i < |nodeArrays| :: nodeArrays[i] != []
      ensures r == nodeArrays
    {
      var allTrees: seq<seq<Ref>> := [];
      var startIndex: seq<int> := [];
      var endIndex: seq<int> := [];
      for i := 0 to |nodeArrays|
        invariant |allTrees| == |startIndex| == |endIndex| == i
      {
        var nodes := nodeArrays[i];
        var tree := TreeOf(fileNodes, FileOf(filenames, nodes[0]));
        allTrees := allTrees + [tree];
        startIndex := startIndex + [IndexOf(tree, nodes[0])];
        endIndex := endIndex + [IndexOf(tree, nodes[|nodes| - 1])];
      }
      var before: seq<Option<Ref>> := [];
      var after: seq<Option<Ref>> := [];
      for i := 0 to |nodeArrays|
        invariant |before| == |after| == i
      {
        before := before + [At(allTrees[i], startIndex[i] - 1)];
        after := after + [At(allTrees[i], endIndex[i] + 1)];
      }
      assert !SameType(before) || Exists(before, nodeArrays);
      assert !SameType(after) || Exists(after, nodeArrays);
      r := nodeArrays;
    }

    /** `removeNode(node)`: for every key of the node's record, in order, each
        group it recorded there is spliced out of the index's list for that
        key (from its first copy), an emptied key is deleted, and the loop
        for that key stops once the key is gone.  `delete node.occurrences[key]`
        removes a property of the `Map` object, not an entry, so the record
        itself stays as it was. */
    method RemoveNode(node: Ref)
      modifies this`keyMap
      ensures keyMap == DropNode(old(keyMap), occurrences, node)
    {
      if node !in occurrences {
        return;
      }
      var rec := occurrences[node];
      var keys := rec.keys;
      ghost var km0 := keyMap;
      Whole(keys);
      for k := 0 to |keys|
        invariant DropKeys(keyMap, rec, keys[k..]) == DropKeys(km0, rec, keys)
      {
        DropKeysAt(keyMap, rec, keys, k);
        var key := keys[k];
        RemoveGroups(key, Get(rec, key, []));
      }
    }

    /** The inner loop of removeNode for one key of the record: each of the
        key's recorded groups is spliced out of the index's list, an emptied
        key is deleted, and the loop stops once the key is gone. */
    method RemoveGroups(key: Key, groups: seq<Group>)
      modifies this`keyMap
      ensures keyMap == DropGroups(old(keyMap), key, groups)
    {
      ghost var km0 := keyMap;
      var i := 0;
      Whole(groups);
      while i < |groups|
        invariant i <= |groups|
        invariant DropGroups(keyMap, key, groups[i..]) == DropGroups(km0, key, groups)
        decreases |groups| - i
      {
        DropGroupsAt(keyMap, key, groups, i);
        if key !in keyMap.entries {
          break;
        }
        RemoveGroup(key, groups[i]);
        i := i + 1;
      }
    }

    /** One iteration of that loop: `g` is spliced out of the key's list when
        it is there, and the key goes once its list is empty. */
    method RemoveGroup(key: Key, g: Group)
      requires key in keyMap.entries
      modifies this`keyMap
      ensures keyMap == DropOne(old(keyMap), key, g)
    {
      var km := keyMap;
      var list := km.entries[key];
      var index := IndexOf(list, g);
      if index > -1 {
        km := Put(km, key, list[..index] + list[index + 1..]);
      }
      if |km.entries[key]| == 0 {
        km := Remove(km, key);
      }
      DropOneSteps(keyMap, key, g);
      keyMap := km;
    }

    /** The line range analyze reports for one group: the least start line,
        and the greatest start line, moved to the greatest end line when that
        is at most two lines further.  The extension to the last node's end
        line (when that node has no children) compares a line number with the
        missing `line` property of a number, which is never true, so it never
        applies and is not written here. */
    method LineSpan(nodes: Group) returns (r: LineRange)
      requires nodes != []
      ensures r == Span(nodes)
    {
      var start := nodes[0].node.loc.startLine;
      var end := nodes[0].node.loc.startLine;
      var endFinal := nodes[0].node.loc.endLine;
      for i := 0 to |nodes|
        invariant forall j | 0 <= j < i :: start <= nodes[j].node.loc.startLine
        invariant forall j | 0 <= j < i :: nodes[j].node.loc.startLine <= end
        invariant forall j | 0 <= j < i :: nodes[j].node.loc.endLine <= endFinal
        invariant exists j | 0 <= j < |nodes| :: start == nodes[j].node.loc.startLine
        invariant exists j | 0 <= j < |nodes| :: end == nodes[j].node.loc.startLine
        invariant exists j | 0 <= j < |nodes| :: endFinal == nodes[j].node.loc.endLine
      {
        var loc := nodes[i].node.loc;
        start := if start < loc.startLine then start else loc.startLine;
        end := if end > loc.startLine then end else loc.startLine;
        endFinal := if endFinal > loc.endLine then endFinal else loc.endLine;
      }
      assert start == MinStart(nodes) && end == MaxStart(nodes) && endFinal == MaxEnd(nodes);
      if endFinal - end <= 2 {
        end := endFinal;
      }
      r := LineRange(start, end);
    }

    function GetTotalSimilarityLines(): (r: int)
      reads this
      ensures r == Recorded().total
    {
      totalSimilarityLines
    }

    /** The loop over the files for one reported group of analyze: every file
        named `file` gets the range under `id` and the total grows by the
        range's width, until a file of that name that already has `id` stops
        the loop. */
    method Record(file: Option<string>, id: string, span: LineRange)
      requires FilesValid()
      modifies files, this`totalSimilarityLines
      ensures FilesValid()
      ensures Recorded() == RecordIn(NamesOf(files), old(Recorded()), file, id, span, 0)
    {
      ghost var names := NamesOf(files);
      ghost var l0 := Recorded();
      var j := 0;
      while j < |files|
        invariant j <= |files|
        invariant FilesValid()
        invariant RecordIn(names, Recorded(), file, id, span, j) == RecordIn(names, l0, file, id, span, 0)
        decreases |files| - j
      {
        RecordInAt(names, Recorded(), file, id, span, j);
        var stop := RecordOn(j, file, id, span);
        if stop {
          break;
        }
        j := j + 1;
      }
    }

    /** The body of the loop over the files: a file named `file` that already
        has `id` stops the loop, any other file of that name gets the range
        and the total grows by the range's width. */
    method RecordOn(j: nat, file: Option<string>, id: string, span: LineRange) returns (stop: bool)
      requires j < |files| && FilesValid()
      modifies files[j], this`totalSimilarityLines
      ensures FilesValid()
      ensures (Recorded(), stop) == RecordStep(NamesOf(files), old(Recorded()), file, id, span, j)
    {
      ghost var names := NamesOf(files);
      ghost var l0 := Recorded();
      var f := files[j];
      stop := false;
      if Some(f.GetName()) == file {
        assert l0.sims[j] == f.similarityMap;
        if id in f.GetSimilarityKeys() {
          stop := true;
          assert RecordStep(names, l0, file, id, span, j) == (l0, true);
          return;
        }
        assert RecordStep(names, l0, file, id, span, j)
          == (Ledger(l0.sims[j := Put(l0.sims[j], id, span)], l0.total + Width(span)), false);
        f.AddSimilarity(id, span.startLine, span.endLine);
        totalSimilarityLines := totalSimilarityLines + span.endLine - span.startLine + 1;
        assert forall i | 0 <= i < |files| :: SimsOf(files)[i] == l0.sims[j := f.similarityMap][i];
        assert SimsOf(files) == l0.sims[j := Put(l0.sims[j], id, span)];
        assert totalSimilarityLines == l0.total + Width(span);
        assert Recorded() == Ledger(l0.sims[j := Put(l0.sims[j], id, span)], l0.total + Width(span));
      } else {
        assert RecordStep(names, l0, file, id, span, j) == (l0, false);
      }
    }

    /** The recording loop of analyze over the kept groups: each group's
        span is recorded under `id` on the files of its first node's file. */
    method RecordAll(nodeArrays: seq<Group>, id: string)
      requires FilesValid()
      requires forall i | 0 <= i < |nodeArrays| :: nodeArrays[i] != []
      modifies files, this`totalSimilarityLines
      ensures FilesValid()
      ensures Recorded() == RecordGroups(NamesOf(files), filenames, old(Recorded()), id, nodeArrays)
    {
      ghost var names := NamesOf(files);
      ghost var l0 := Recorded();
      ghost var target := RecordGroups(names, filenames, l0, id, nodeArrays);
      Whole(nodeArrays);
      for i := 0 to |nodeArrays|
        invariant FilesValid()
        invariant RecordGroups(names, filenames, Recorded(), id, nodeArrays[i..]) == target
      {
        RecordNext(nodeArrays, id, i, names, target);
      }
    }

    /** One pass of that loop, stated as the step of its invariant: what is
        left to record after group `i` completes the recording of all groups. */
    method RecordNext(nodeArrays: seq<Group>, id: string, i: nat, ghost names: seq<string>, ghost l: Ledger)
      requires i < |nodeArrays| && FilesValid() && names == NamesOf(files)
      requires forall j | 0 <= j < |nodeArrays| :: nodeArrays[j] != []
      requires RecordGroups(names, filenames, Recorded(), id, nodeArrays[i..]) == l
      modifies files, this`totalSimilarityLines
      ensures FilesValid()
      ensures RecordGroups(names, filenames, Recorded(), id, nodeArrays[i + 1..]) == l
    {
      ghost var before := Recorded();
      RecordGroupsAt(names, filenames, before, id, nodeArrays, i);
      RecordGroup(nodeArrays[i], id);
      assert Recorded() == RecordIn(names, before, FileOf(filenames, nodeArrays[i][0]), id, Span(nodeArrays[i]), 0);
    }

    /** One pass of the outer loop: the group's line range is recorded in the
        files of its first node's file name. */
    method RecordGroup(nodes: Group, id: string)
      requires FilesValid() && nodes != []
      modifies files, this`totalSimilarityLines
      ensures FilesValid()
      ensures Recorded() == RecordIn(NamesOf(files), old(Recorded()), FileOf(filenames, nodes[0]), id, Span(nodes), 0)
    {
      var span := LineSpan(nodes);
      Record(FileOf(filenames, nodes[0]), id, span);
    }

    /** `nodes.forEach(node => this.removeNode(node))`. */
    method RemoveNodes(nodes: Group)
      modifies this`keyMap
      ensures keyMap == DropNodes(old(keyMap), occurrences, nodes)
    {
      ghost var km0 := keyMap;
      Whole(nodes);
      for i := 0 to |nodes|
        invariant DropNodes(keyMap, occurrences, nodes[i..]) == DropNodes(km0, occurrences, nodes)
      {
        DropNodesAt(keyMap, occurrences, nodes, i);
        RemoveNode(nodes[i]);
      }
    }

    /** The removal loop of analyze: every node of every kept group, in
        order. */
    method RemoveAll(nodeArrays: seq<Group>)
      modifies this`keyMap
      ensures keyMap == DropAll(old(keyMap), occurrences, nodeArrays)
    {
      ghost var km0 := keyMap;
      Whole(nodeArrays);
      for i := 0 to |nodeArrays|
        invariant DropAll(keyMap, occurrences, nodeArrays[i..]) == DropAll(km0, occurrences, nodeArrays)
      {
        DropAllAt(keyMap, occurrences, nodeArrays, i);
        RemoveNodes(nodeArrays[i]);
      }
    }

    /** The tokens analyze hashes into the match id: `node.name || node.type`
        of every node of every group, group by group. */
    method CollectTokens(nodeArrays: seq<Group>) returns (keyNodes: seq<string>)
      ensures keyNodes == Tokens(nodeArrays)
    {
      keyNodes := [];
      Whole(nodeArrays);
      for i := 0 to |nodeArrays|
        invariant keyNodes + Tokens(nodeArrays[i..]) == Tokens(nodeArrays)
      {
        var nodes := nodeArrays[i];
        TokensAt(nodeArrays, i);
        ghost var k0 := keyNodes;
        Whole(nodes);
        for j := 0 to |nodes|
          invariant keyNodes + GroupTokens(nodes[j..]) == k0 + GroupTokens(nodes)
        {
          GroupTokensAt(nodes, j);
          SeqAssoc3(keyNodes, [Token(nodes[j].node)], GroupTokens(nodes[j + 1..]));
          keyNodes := keyNodes + [Token(nodes[j].node)];
        }
        AppendNil(keyNodes);
        SeqAssoc3(k0, GroupTokens(nodes), Tokens(nodeArrays[i + 1..]));
      }
      AppendNil(keyNodes);
    }

    /** One iteration of analyze's key loop: a key still present whose groups
        keep at least two after overlap removal and do not all come from one
        file is reported on the files and its nodes are removed from the
        index. */
    method ReportKey(key: Key)
      requires Valid()
      modifies files, this`keyMap, this`totalSimilarityLines
      ensures Valid()
      ensures Books(keyMap, Recorded()) == AnalyzeKey(old(Inputs()), Books(old(keyMap), old(Recorded())), key)
    {
      ghost var env := Inputs();
      ghost var b0 := Books(keyMap, Recorded());
      assert LedgerValid(b0.ledger, |env.names|);
      AnalyzeKeyPreserves(env, b0, key, fingerprint);
      var report, nodeArrays, id := MatchOf(key);
      if report {
        ReportMatch(key, nodeArrays, id);
      }
    }

    /** A reported key: its kept groups are recorded under their id in every
        file they come from, then dropped from the index. */
    method ReportMatch(key: Key, nodeArrays: seq<Group>, id: string)
      requires FilesValid() && GroupsNonEmpty(keyMap) && LedgerValid(Recorded(), |files|)
      requires Reports(Inputs(), keyMap, key)
      requires nodeArrays == KeptGroups(keyMap, key) && id == MatchId(digest, nodeArrays)
      modifies files, this`keyMap, this`totalSimilarityLines
      ensures FilesValid()
      ensures Books(keyMap, Recorded()) == AnalyzeKey(old(Inputs()), Books(old(keyMap), old(Recorded())), key)
    {
      GreedyMembers(Groups(keyMap, key));
      ReportGroups(nodeArrays, id);
    }

    /** The part of the key loop body that decides whether the key's groups
        are reported, and under which identifier: the key must still be
        present, at least two groups must survive overlap removal, and they
        must not all come from one file. */
    method MatchOf(key: Key) returns (report: bool, nodeArrays: seq<Group>, id: string)
      requires GroupsNonEmpty(keyMap)
      ensures report <==> Reports(Inputs(), keyMap, key)
      ensures report ==> nodeArrays == KeptGroups(keyMap, key) && id == MatchId(digest, nodeArrays)
    {
      report, id := false, "";
      nodeArrays := [];
      if key !in keyMap.entries {
        return;
      }
      nodeArrays := keyMap.entries[key];
      nodeArrays := RemoveOverlappingGroup(nodeArrays);
      if |nodeArrays| < 2 {
        return;
      }
      GreedyMembers(keyMap.entries[key]);
      nodeArrays := Expand(nodeArrays);
      var keyNodes := CollectTokens(nodeArrays);
      id := digest(Join(keyNodes, ","));
      report := !SameFile(filenames, nodeArrays);
    }

    /** The rest of the key loop body: the groups' line ranges are recorded
        under `id`, then their nodes leave the index. */
    method ReportGroups(nodeArrays: seq<Group>, id: string)
      requires FilesValid()
      requires forall i | 0 <= i < |nodeArrays| :: nodeArrays[i] != []
      modifies files, this`keyMap, this`totalSimilarityLines
      ensures FilesValid()
      ensures keyMap == DropAll(old(keyMap), occurrences, nodeArrays)
      ensures Recorded() == RecordGroups(NamesOf(files), filenames, old(Recorded()), id, nodeArrays)
    {
      RecordAll(nodeArrays, id);
      RemoveAll(nodeArrays);
    }

    /** `analyze()`: the keys holding at least two groups, stably sorted by
        non-increasing group count, each handled by the key loop. */
    method Analyze()
      requires Valid()
      modifies files, this`keyMap, this`totalSimilarityLines
      ensures Valid()
      ensures Books(keyMap, Recorded()) == MatchResolver.Analyze(old(Inputs()), Books(old(keyMap), old(Recorded())), fingerprint)
    {
      var keys := CandidateKeys();
      var sortedKeys := SortByCount(keyMap, keys);
      assert LedgerValid(Recorded(), |Inputs().names|);
      ReportKeys(sortedKeys);
    }

    /** The keys of the index holding at least two groups, in key order. */
    method CandidateKeys() returns (keys: seq<Key>)
      requires keyMap.Valid()
      ensures keys == Candidates(keyMap, keyMap.keys)
    {
      var km := keyMap;
      keys := [];
      for i := 0 to |km.keys|
        invariant keys == Candidates(km, km.keys[..i])
      {
        TakeSnoc(km.keys, i);
        if |km.entries[km.keys[i]]| >= 2 {
          keys := keys + [km.keys[i]];
        }
      }
      Whole(km.keys);
    }

    /** The key loop of analyze over `sortedKeys`. */
    method ReportKeys(sortedKeys: seq<Key>)
      requires Valid()
      modifies files, this`keyMap, this`totalSimilarityLines
      ensures Valid()
      ensures Books(keyMap, Recorded()) == AnalyzeKeys(old(Inputs()), Books(old(keyMap), old(Recorded())), sortedKeys, fingerprint)
    {
      ghost var env := Inputs();
      ghost var b0 := Books(keyMap, Recorded());
      assert LedgerValid(b0.ledger, |env.names|);
      ghost var b := b0;
      Whole(sortedKeys);
      for i := 0 to |sortedKeys|
        invariant Valid() && b == Books(keyMap, Recorded())
        invariant BooksValid(env, b, fingerprint)
        invariant AnalyzeKeys(env, b, sortedKeys[i..], fingerprint) == AnalyzeKeys(env, b0, sortedKeys, fingerprint)
      {
        AnalyzeKeysAt(env, b, sortedKeys, fingerprint, i);
        ReportKey(sortedKeys[i]);
        b := AnalyzeKey(env, b, sortedKeys[i]);
      }
    }

    /** The file loop of compareCodes: each file is read and parsed as a
        script, then as a module; when both fail the loop stops (and
        compareCodes returns); otherwise a full visit stores the file's
        preorder and walkTree indexes it. */
    method IndexFiles(read: string -> string, parse: (string, SourceType) -> Option<Node>) returns (ok: bool)
      modifies this`nodeTypes, this`keyMap, this`occurrences, this`filenames, this`fileNodes, this`parses
      ensures var o := IndexFrom(fingerprint, threshold, read, parse, NamesOf(files), old(Staged()), 0);
        Staged() == o.stage && (ok <==> o.Finished?)
    {
      var filePaths: seq<string> := [];
      for i := 0 to |files|
        invariant filePaths == NamesOf(files)[..i]
        modifies {}
      {
        TakeSnoc(NamesOf(files), i);
        filePaths := filePaths + [files[i].GetName()];
      }
      Whole(NamesOf(files));
      ghost var s0 := Staged();
      for i := 0 to |filePaths|
        invariant IndexFrom(fingerprint, threshold, read, parse, filePaths, Staged(), i)
          == IndexFrom(fingerprint, threshold, read, parse, filePaths, s0, 0)
      {
        var filePath := filePaths[i];
        var ast := read(filePath);
        var astRoot := parse(ast, Script);
        if astRoot.None? {
          astRoot := parse(ast, Module);
          if astRoot.None? {
            ok := false;
            return;
          }
        }
        var root := astRoot.value;
        IndexFromAt(fingerprint, threshold, read, parse, filePaths, Staged(), i, root);
        IndexOne(root, filePath);
      }
      ok := true;
    }

    /** The indexing of one parsed file: a full visit stores the file's
        preorder (tagging every node with the file and learning every type),
        then walkTree indexes the file. */
    method IndexOne(root: Node, filePath: string)
      modifies this`nodeTypes, this`keyMap, this`occurrences, this`filenames, this`fileNodes, this`parses
      ensures Staged() == IndexFile(fingerprint, threshold, old(Staged()), root, filePath)
    {
      ghost var s := Staged();
      var tree := parses;
      DfsFull(s.nodeTypes, root, tree, [], threshold, []);
      var trees := GetNodesDFS(root, tree, [], filePath, false, []);
      ghost var c := LearnAll(s.nodeTypes, root);
      assert trees == Preorder(c, root, tree, []) by {
        AppendNil(Preorder(c, root, tree, []));
      }
      Whole(trees);
      MarkTags(fingerprint, s.marks, Elements(trees), filePath);
      ghost var m1 := Marked();
      LearnAllSpec(s.nodeTypes, root);
      WalkTree(root, tree, filePath);
      IndexFileSteps(fingerprint, threshold, s, root, filePath, m1, Marked());
      fileNodes := fileNodes[filePath := trees];
      parses := parses + 1;
    }

    /** `compareCodes()`, with the file system and the parser as parameters:
        the file loop, then analyze unless a file did not parse. */
    method CompareCodes(read: string -> string, parse: (string, SourceType) -> Option<Node>)
      requires Valid()
      modifies files, this`nodeTypes, this`keyMap, this`occurrences, this`filenames, this`fileNodes,
               this`parses, this`totalSimilarityLines
      ensures Valid()
      ensures (Staged(), Recorded())
        == Compare(fingerprint, threshold, digest, read, parse, NamesOf(files), old(Staged()), old(Recorded()))
    {
      ghost var names := NamesOf(files);
      ghost var s0 := Staged();
      ghost var l0 := Recorded();
      assert LedgerValid(l0, |names|);
      CompareAt(fingerprint, threshold, digest, read, parse, names, s0, l0);
      ghost var o := IndexFrom(fingerprint, threshold, read, parse, names, s0, 0);
      var ok := IndexFiles(read, parse);
      if !ok {
        assert Recorded() == l0;
        return;
      }
      AnalyzeStage(names, o.stage, l0);
    }

    /** The analyze step of compareCodes, stated over the stage the file loop
        built: analyze changes only the index and the ledger. */
    method AnalyzeStage(ghost names: seq<string>, ghost t: Stage, ghost l0: Ledger)
      requires Valid() && names == NamesOf(files) && Staged() == t && Recorded() == l0
      modifies files, this`keyMap, this`totalSimilarityLines
      ensures Valid()
      ensures var b := MatchResolver.Analyze(Env(names, t.marks.names, t.marks.occ, digest), Books(t.marks.keyMap, l0), fingerprint);
        Staged() == Stage(t.nodeTypes, Marks(b.keyMap, t.marks.occ, t.marks.names), t.fileNodes, t.parses) && Recorded() == b.ledger
    {
      assert nodeTypes == t.nodeTypes && fileNodes == t.fileNodes && keyMap == t.marks.keyMap;
      assert occurrences == t.marks.occ && filenames == t.marks.names;
      ghost var b := MatchResolver.Analyze(Env(names, t.marks.names, t.marks.occ, digest), Books(t.marks.keyMap, l0), fingerprint);
      Analyze();
      assert keyMap == b.keyMap && Recorded() == b.ledger;
    }
  }
}
