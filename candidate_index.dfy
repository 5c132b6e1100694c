/** The candidate index: groups of nodes filed under the fingerprint of their
    type labels.

    The parser keeps two views of the same facts.  `keyMap` maps a key to the
    groups filed under it, in insertion order; every node remembers, in its
    occurrence record, the groups it belongs to, again by key.  Inserting a
    group updates both; removing a node consults its record to take its groups
    out of `keyMap` (the record itself is left as it is).
 */
module CandidateIndex {
  import opened OrderedMaps
  import opened Ast
  import opened Seqs

  type Key = string

  /** A group: the first `threshold` nodes of a subtree in preorder. */
  type Group = seq<Ref>

  /** `keyMap`: key to the groups filed under it. */
  type KeyMap = OMap<Key, seq<Group>>

  /** A node's `occurrences` map: key to the groups containing the node. */
  type OccRecord = OMap<Key, seq<Group>>

  /** The `occurrences` property of every node that has one. */
  type Occurrences = map<Ref, OccRecord>

  /** The concatenation of the type labels of a group's nodes, in order. */
  function TypeLabels(g: Group): string {
    if g == [] then "" else g[0].node.nodeType + TypeLabels(g[1..])
  }

  /** The labels of a concatenation are the concatenated labels. */
  lemma {:induction false} TypeLabelsConcat(a: Group, b: Group)
    ensures TypeLabels(a + b) == TypeLabels(a) + TypeLabels(b)
  {
    if a != [] {
      var ab := a + b;
      assert ab != [] && ab[0] == a[0] && ab[1..] == a[1..] + b;
      TypeLabelsConcat(a[1..], b);
      assert TypeLabels(ab) == a[0].node.nodeType + TypeLabels(ab[1..]);
    } else {
      assert a + b == b;
    }
  }

  /** The groups under `k` (none when `k` is absent). */
  function Groups(km: KeyMap, k: Key): seq<Group> {
    Get(km, k, [])
  }

  /** The occurrence record of `n`, empty when it has none. */
  function RecordOf(occ: Occurrences, n: Ref): OccRecord {
    if n in occ then occ[n] else Empty()
  }

  /** The groups containing `n` that it recorded under `k`. */
  function RecGet(occ: Occurrences, n: Ref, k: Key): seq<Group> {
    Get(RecordOf(occ, n), k, [])
  }

  // ---------------------------------------------------------------------------
  // Insertion (insertNode)

  /** `keyMap[key].push(g)`, creating the entry when the key is new. */
  function InsertGroup(km: KeyMap, k: Key, g: Group): (r: KeyMap)
    ensures km.Valid() ==> r.Valid()
    ensures Groups(r, k) == Groups(km, k) + [g]
    ensures forall k' | k' != k :: Groups(r, k') == Groups(km, k')
    ensures k in r.entries && forall k' | k' in km.entries :: k' in r.entries
  {
    Put(km, k, Groups(km, k) + [g])
  }

  /** `n.occurrences.get(key).push(g)`, creating the entry when the key is new. */
  function OccAdd(occ: Occurrences, n: Ref, k: Key, g: Group): (r: Occurrences)
    ensures r.Keys == occ.Keys + {n}
  {
    occ[n := Put(RecordOf(occ, n), k, RecGet(occ, n, k) + [g])]
  }

  /** The occurrence update of insertNode: each node of `nodes`, in order,
      records `g` under `k`. */
  function OccInsertAll(occ: Occurrences, k: Key, g: Group, nodes: seq<Ref>): (r: Occurrences)
    ensures r.Keys == occ.Keys + set n | n in nodes
    decreases nodes
  {
    if nodes == [] then occ else OccInsertAll(OccAdd(occ, nodes[0], k, g), k, g, nodes[1..])
  }

  /** The key-map effect of inserting every group of `ws` in order, each under
      the fingerprint of its type labels. */
  function InsertGroups(km: KeyMap, fp: string -> Key, ws: seq<Group>): KeyMap
    decreases ws
  {
    if ws == [] then km
    else InsertGroups(InsertGroup(km, fp(TypeLabels(ws[0])), ws[0]), fp, ws[1..])
  }

  /** The occurrence effect of inserting every group of `ws` in order. */
  function OccInsertGroups(occ: Occurrences, fp: string -> Key, ws: seq<Group>): Occurrences
    decreases ws
  {
    if ws == [] then occ
    else OccInsertGroups(OccInsertAll(occ, fp(TypeLabels(ws[0])), ws[0], ws[0]), fp, ws[1..])
  }

  lemma {:induction false} InsertGroupsConcat(km: KeyMap, fp: string -> Key, a: seq<Group>, b: seq<Group>)
    ensures InsertGroups(km, fp, a + b) == InsertGroups(InsertGroups(km, fp, a), fp, b)
    decreases a
  {
    if a != [] {
      var ab := a + b;
      assert ab != [] && ab[0] == a[0] && ab[1..] == a[1..] + b;
      var km1 := InsertGroup(km, fp(TypeLabels(a[0])), a[0]);
      InsertGroupsConcat(km1, fp, a[1..], b);
      assert InsertGroups(km, fp, ab) == InsertGroups(km1, fp, ab[1..]);
    } else {
      assert a + b == b;
    }
  }

  lemma {:induction false} OccInsertGroupsConcat(occ: Occurrences, fp: string -> Key, a: seq<Group>, b: seq<Group>)
    ensures OccInsertGroups(occ, fp, a + b) == OccInsertGroups(OccInsertGroups(occ, fp, a), fp, b)
    decreases a
  {
    if a != [] {
      var ab := a + b;
      assert ab != [] && ab[0] == a[0] && ab[1..] == a[1..] + b;
      var o1 := OccInsertAll(occ, fp(TypeLabels(a[0])), a[0], a[0]);
      OccInsertGroupsConcat(o1, fp, a[1..], b);
      assert OccInsertGroups(occ, fp, ab) == OccInsertGroups(o1, fp, ab[1..]);
    } else {
      assert a + b == b;
    }
  }

  // ---------------------------------------------------------------------------
  // Tagging (getNodesDFS)

  /** `if (!node.filename) node.filename = f` for every node of `visited`. */
  function TagFiles(names: map<Ref, string>, visited: set<Ref>, f: string): (r: map<Ref, string>)
    ensures r.Keys == names.Keys + visited
    ensures forall n | n in visited :: r[n] == if n in names && names[n] != "" then names[n] else f
    ensures forall n | n in names && n !in visited :: r[n] == names[n]
  {
    map n | n in names.Keys + visited ::
      if n in visited && (n !in names || names[n] == "") then f else names[n]
  }

  /** `if (!node.occurrences) node.occurrences = new Map()` for every node of
      `visited`: existing records are kept. */
  function TagOcc(occ: Occurrences, visited: set<Ref>): (r: Occurrences)
    ensures r.Keys == occ.Keys + visited
    ensures forall n | n in occ :: r[n] == occ[n]
    ensures forall n | n in visited && n !in occ :: r[n] == Empty()
  {
    map n | n in occ.Keys + visited :: RecordOf(occ, n)
  }

  /** Tagging twice with the same file name is tagging once with the union. */
  lemma TagFilesTwice(names: map<Ref, string>, a: set<Ref>, b: set<Ref>, f: string)
    ensures TagFiles(TagFiles(names, a, f), b, f) == TagFiles(names, a + b, f)
  {
  }

  lemma TagOccTwice(occ: Occurrences, a: set<Ref>, b: set<Ref>)
    ensures TagOcc(TagOcc(occ, a), b) == TagOcc(occ, a + b)
  {
  }

  /** Tagging never changes what a node has recorded. */
  lemma TagOccRecords(occ: Occurrences, visited: set<Ref>)
    ensures forall n, k :: RecGet(TagOcc(occ, visited), n, k) == RecGet(occ, n, k)
  {
  }

  lemma TagOccAdd(occ: Occurrences, s: set<Ref>, n: Ref, k: Key, g: Group)
    ensures TagOcc(OccAdd(occ, n, k, g), s) == OccAdd(TagOcc(occ, s), n, k, g)
  {
    var lhs := TagOcc(OccAdd(occ, n, k, g), s);
    var rhs := OccAdd(TagOcc(occ, s), n, k, g);
    assert RecordOf(TagOcc(occ, s), n) == RecordOf(occ, n);
    assert lhs.Keys == rhs.Keys;
    forall m | m in lhs ensures lhs[m] == rhs[m] {
    }
  }

  lemma {:induction false} TagOccInsertAll(occ: Occurrences, s: set<Ref>, k: Key, g: Group, nodes: seq<Ref>)
    ensures TagOcc(OccInsertAll(occ, k, g, nodes), s) == OccInsertAll(TagOcc(occ, s), k, g, nodes)
    decreases nodes
  {
    if nodes != [] {
      TagOccAdd(occ, s, nodes[0], k, g);
      TagOccInsertAll(OccAdd(occ, nodes[0], k, g), s, k, g, nodes[1..]);
    }
  }

  /** Tagging and inserting groups commute, so the order in which walkTree
      interleaves them does not matter. */
  lemma {:induction false} TagOccInsertGroups(occ: Occurrences, s: set<Ref>, fp: string -> Key, ws: seq<Group>)
    ensures TagOcc(OccInsertGroups(occ, fp, ws), s) == OccInsertGroups(TagOcc(occ, s), fp, ws)
    decreases ws
  {
    if ws != [] {
      var k := fp(TypeLabels(ws[0]));
      TagOccInsertAll(occ, s, k, ws[0], ws[0]);
      TagOccInsertGroups(OccInsertAll(occ, k, ws[0], ws[0]), s, fp, ws[1..]);
    }
  }

  // ---------------------------------------------------------------------------
  // The invariant tying the two views together

  /** Every key has at least one group (an emptied key is deleted). */
  ghost predicate NoEmpty(km: KeyMap) {
    forall k | k in km.entries :: km.entries[k] != []
  }

  /** Every group has a first node. */
  ghost predicate GroupsNonEmpty(km: KeyMap) {
    forall k, g | k in km.entries && g in km.entries[k] :: g != []
  }

  /** Every group is filed under the fingerprint of its type labels. */
  ghost predicate Keyed(km: KeyMap, fp: string -> Key) {
    forall k, g | k in km.entries && g in km.entries[k] :: k == fp(TypeLabels(g))
  }

  ghost predicate OccValid(occ: Occurrences) {
    forall n | n in occ :: occ[n].Valid()
  }

  /** Each node of a group under `k` has recorded that group under `k` at
      least as often as `keyMap` holds it, so removing the node through its
      record takes every copy of the group out of `keyMap`. */
  ghost predicate Indexed(km: KeyMap, occ: Occurrences) {
    forall k, g, n | k in km.entries && g in km.entries[k] && n in g ::
      n in occ && multiset(km.entries[k])[g] <= multiset(RecGet(occ, n, k))[g]
  }

  ghost predicate IndexInv(km: KeyMap, occ: Occurrences, fp: string -> Key) {
    && km.Valid() && NoEmpty(km) && GroupsNonEmpty(km) && Keyed(km, fp)
    && OccValid(occ) && Indexed(km, occ)
  }

  lemma PrefixMultiset<T>(a: seq<T>, b: seq<T>)
    requires a <= b
    ensures multiset(a) <= multiset(b)
  {
    assert b == a + b[|a|..];
  }

  /** One `push` into a node's record: only that node's list under `k` changes,
      by gaining `g` at its end. */
  lemma OccAddSpec(occ: Occurrences, m: Ref, k: Key, g: Group)
    requires OccValid(occ)
    ensures var r := OccAdd(occ, m, k, g);
      && OccValid(r)
      && RecGet(r, m, k) == RecGet(occ, m, k) + [g]
      && (forall n, k' | n != m || k' != k :: RecGet(r, n, k') == RecGet(occ, n, k'))
  {
    PutSpec(RecordOf(occ, m), k, RecGet(occ, m, k) + [g]);
  }

  /** Occurrence records only grow, by appending, and every node of `nodes`
      gains `g` under `k`. */
  lemma {:induction false} OccInsertAllGrows(occ: Occurrences, k: Key, g: Group, nodes: seq<Ref>)
    requires OccValid(occ)
    ensures var r := OccInsertAll(occ, k, g, nodes);
      && OccValid(r)
      && (forall n, k' :: RecGet(occ, n, k') <= RecGet(r, n, k'))
      && (forall n, k' | k' != k :: RecGet(r, n, k') == RecGet(occ, n, k'))
      && (forall n | n in nodes :: RecGet(occ, n, k) + [g] <= RecGet(r, n, k))
    decreases nodes
  {
    if nodes != [] {
      var o1 := OccAdd(occ, nodes[0], k, g);
      var r := OccInsertAll(occ, k, g, nodes);
      assert r == OccInsertAll(o1, k, g, nodes[1..]);
      OccAddSpec(occ, nodes[0], k, g);
      OccInsertAllGrows(o1, k, g, nodes[1..]);
      forall n, k' ensures RecGet(occ, n, k') <= RecGet(r, n, k') {
        assert RecGet(occ, n, k') <= RecGet(o1, n, k');
        assert RecGet(o1, n, k') <= RecGet(r, n, k');
      }
      forall n | n in nodes ensures RecGet(occ, n, k) + [g] <= RecGet(r, n, k) {
        if n == nodes[0] {
          assert RecGet(o1, n, k) <= RecGet(r, n, k);
        } else {
          assert n in nodes[1..];
          assert RecGet(o1, n, k) == RecGet(occ, n, k);
        }
      }
    }
  }

  /** insertNode keeps the index consistent. */
  lemma InsertPreserves(km: KeyMap, occ: Occurrences, fp: string -> Key, g: Group)
    requires IndexInv(km, occ, fp) && g != []
    ensures var k := fp(TypeLabels(g));
      IndexInv(InsertGroup(km, k, g), OccInsertAll(occ, k, g, g), fp)
  {
    var k := fp(TypeLabels(g));
    OccInsertAllGrows(occ, k, g, g);
    InsertIndexed(km, occ, k, g);
    InsertShape(km, fp, g);
  }

  lemma InsertShape(km: KeyMap, fp: string -> Key, g: Group)
    requires km.Valid() && NoEmpty(km) && GroupsNonEmpty(km) && Keyed(km, fp) && g != []
    ensures var km' := InsertGroup(km, fp(TypeLabels(g)), g);
      km'.Valid() && NoEmpty(km') && GroupsNonEmpty(km') && Keyed(km', fp)
  {
    var k := fp(TypeLabels(g));
    var km' := InsertGroup(km, k, g);
    forall k' | k' in km'.entries
      ensures km'.entries[k'] == Groups(km, k') + (if k' == k then [g] else [])
    {
    }
  }

  lemma InsertIndexed(km: KeyMap, occ: Occurrences, k: Key, g: Group)
    requires Indexed(km, occ) && OccValid(occ)
    ensures Indexed(InsertGroup(km, k, g), OccInsertAll(occ, k, g, g))
  {
    var km' := InsertGroup(km, k, g);
    var occ' := OccInsertAll(occ, k, g, g);
    OccInsertAllGrows(occ, k, g, g);
    forall k', g', n | k' in km'.entries && g' in km'.entries[k'] && n in g'
      ensures n in occ' && multiset(km'.entries[k'])[g'] <= multiset(RecGet(occ', n, k'))[g']
    {
      var before := Groups(km, k');
      var extra := if k' == k then [g] else [];
      assert km'.entries[k'] == before + extra;
      var old0 := RecGet(occ, n, k');
      var new0 := RecGet(occ', n, k');
      assert old0 <= new0;
      assert k' == k && n in g ==> old0 + [g] <= new0;
      assert g' in before ==> n in occ && multiset(before)[g'] <= multiset(old0)[g'];
      CountStep(before, extra, old0, new0, g, g', k' == k && g' == g);
    }
  }

  /** The counting step of `InsertIndexed`, on plain lists. */
  lemma CountStep(before: seq<Group>, extra: seq<Group>, old0: seq<Group>, new0: seq<Group>, g: Group, g': Group, hit: bool)
    requires old0 <= new0
    requires hit ==> extra == [g] && g' == g && old0 + [g] <= new0
    requires !hit ==> g' !in extra && g' in before
    requires g' in before ==> multiset(before)[g'] <= multiset(old0)[g']
    ensures multiset(before + extra)[g'] <= multiset(new0)[g']
  {
    PrefixMultiset(old0, new0);
    if hit {
      PrefixMultiset(old0 + [g], new0);
      assert multiset(old0 + [g])[g] == multiset(old0)[g] + 1;
    }
  }

  /** Inserting a list of nonempty groups keeps the index consistent. */
  lemma {:induction false} InsertGroupsPreserve(km: KeyMap, occ: Occurrences, fp: string -> Key, ws: seq<Group>)
    requires IndexInv(km, occ, fp)
    requires forall w | w in ws :: w != []
    ensures IndexInv(InsertGroups(km, fp, ws), OccInsertGroups(occ, fp, ws), fp)
    decreases ws
  {
    if ws != [] {
      var k := fp(TypeLabels(ws[0]));
      assert ws[0] in ws;
      assert forall w | w in ws[1..] :: w in ws;
      InsertPreserves(km, occ, fp, ws[0]);
      InsertGroupsPreserve(InsertGroup(km, k, ws[0]), OccInsertAll(occ, k, ws[0], ws[0]), fp, ws[1..]);
    }
  }

  /** Tagging keeps the index consistent. */
  lemma TagPreserves(km: KeyMap, occ: Occurrences, fp: string -> Key, visited: set<Ref>)
    requires IndexInv(km, occ, fp)
    ensures IndexInv(km, TagOcc(occ, visited), fp)
  {
    TagOccRecords(occ, visited);
  }

  // ---------------------------------------------------------------------------
  // Removal (removeNode)

  /** `s.indexOf(x)`: the first position of `x` in `s`, or -1. */
  function IndexOf<T(==)>(s: seq<T>, x: T): (r: int)
    ensures -1 <= r < |s|
    ensures r == -1 <==> x !in s
    ensures r >= 0 ==> s[r] == x && x !in s[..r]
  {
    if s == [] then -1
    else if s[0] == x then 0
    else
      var r := IndexOf(s[1..], x);
      if r == -1 then -1
      else
        assert s[..r + 1] == [s[0]] + s[1..][..r];
        r + 1
  }

  /** `s.splice(s.indexOf(x), 1)` when `x` occurs in `s`; `s` otherwise. */
  function RemoveFirst<T(==)>(s: seq<T>, x: T): (r: seq<T>)
    ensures multiset(r) == multiset(s) - multiset{x}
    ensures x in s ==> |r| == |s| - 1
    ensures x !in s ==> r == s
  {
    var i := IndexOf(s, x);
    if i == -1 then s
    else
      assert s == s[..i] + [x] + s[i + 1..];
      s[..i] + s[i + 1..]
  }

  /** One step of removeNode's inner loop on a present key: the first copy of
      `g` leaves the list, and an emptied key is deleted. */
  function DropOne(km: KeyMap, k: Key, g: Group): KeyMap
    requires k in km.entries
  {
    var rest := RemoveFirst(km.entries[k], g);
    if rest == [] then Remove(km, k) else Put(km, k, rest)
  }

  /** removeNode's inner loop for one key: it stops as soon as the key is gone. */
  function DropGroups(km: KeyMap, k: Key, gs: seq<Group>): KeyMap
    decreases gs
  {
    if gs == [] || k !in km.entries then km
    else DropGroups(DropOne(km, k, gs[0]), k, gs[1..])
  }

  /** removeNode's outer loop over the keys of the record, in order. */
  function DropKeys(km: KeyMap, rec: OccRecord, keys: seq<Key>): KeyMap
    decreases keys
  {
    if keys == [] then km
    else DropKeys(DropGroups(km, keys[0], Get(rec, keys[0], [])), rec, keys[1..])
  }

  /** `removeNode(n)`: nothing happens to a node without a record. */
  function DropNode(km: KeyMap, occ: Occurrences, n: Ref): KeyMap {
    if n in occ then DropKeys(km, occ[n], occ[n].keys) else km
  }

  /** The nodes of `groups`, group by group, each removed in turn. */
  function DropAll(km: KeyMap, occ: Occurrences, groups: seq<Group>): KeyMap
    decreases groups
  {
    if groups == [] then km
    else DropAll(DropNodes(km, occ, groups[0]), occ, groups[1..])
  }

  function DropNodes(km: KeyMap, occ: Occurrences, nodes: seq<Ref>): KeyMap
    decreases nodes
  {
    if nodes == [] then km
    else DropNodes(DropNode(km, occ, nodes[0]), occ, nodes[1..])
  }

  /** One splice: the first copy of `g` leaves the list under `k`. */
  lemma DropOneSpec(km: KeyMap, k: Key, g: Group)
    requires km.Valid() && NoEmpty(km) && k in km.entries
    ensures var r := DropOne(km, k, g);
      && r.Valid() && NoEmpty(r)
      && multiset(Groups(r, k)) == multiset(Groups(km, k)) - multiset{g}
      && (forall k' | k' != k :: Groups(r, k') == Groups(km, k') && (k' in r.entries <==> k' in km.entries))
  {
    var rest := RemoveFirst(km.entries[k], g);
    if rest == [] {
      RemoveSpec(km, k);
    } else {
      PutSpec(km, k, rest);
    }
  }

  /** Removing `gs` under `k` takes exactly those copies (as far as present)
      out of the list under `k` and leaves every other key alone. */
  lemma {:induction false} DropGroupsSpec(km: KeyMap, k: Key, gs: seq<Group>)
    requires km.Valid() && NoEmpty(km)
    ensures var r := DropGroups(km, k, gs);
      && r.Valid() && NoEmpty(r)
      && multiset(Groups(r, k)) == multiset(Groups(km, k)) - multiset(gs)
      && (forall k' | k' != k :: Groups(r, k') == Groups(km, k') && (k' in r.entries <==> k' in km.entries))
    decreases gs
  {
    if gs != [] && k in km.entries {
      var km1 := DropOne(km, k, gs[0]);
      DropOneSpec(km, k, gs[0]);
      DropGroupsSpec(km1, k, gs[1..]);
      MultisetCons(gs);
      MultisetSubSub(multiset(Groups(km, k)), multiset{gs[0]}, multiset(gs[1..]));
    }
  }

  lemma {:induction false} DropKeysSpec(km: KeyMap, rec: OccRecord, keys: seq<Key>)
    requires km.Valid() && NoEmpty(km) && Distinct(keys)
    ensures var r := DropKeys(km, rec, keys);
      && r.Valid() && NoEmpty(r)
      && (forall k :: multiset(Groups(r, k)) == multiset(Groups(km, k)) - (if k in keys then multiset(Get(rec, k, [])) else multiset{}))
    decreases keys
  {
    if keys != [] {
      var km1 := DropGroups(km, keys[0], Get(rec, keys[0], []));
      DropGroupsSpec(km, keys[0], Get(rec, keys[0], []));
      assert Distinct(keys[1..]);
      DropKeysSpec(km1, rec, keys[1..]);
      forall k ensures multiset(Groups(DropKeys(km, rec, keys), k)) == multiset(Groups(km, k)) - (if k in keys then multiset(Get(rec, k, [])) else multiset{}) {
        if k == keys[0] {
          assert k !in keys[1..];
        }
      }
    }
  }

  /** removeNode takes out of `keyMap` exactly the groups in the node's record,
      key by key. */
  lemma DropNodeSpec(km: KeyMap, occ: Occurrences, n: Ref)
    requires km.Valid() && NoEmpty(km) && OccValid(occ)
    ensures var r := DropNode(km, occ, n);
      && r.Valid() && NoEmpty(r)
      && (forall k :: multiset(Groups(r, k)) == multiset(Groups(km, k)) - multiset(RecGet(occ, n, k)))
  {
    if n in occ {
      DropKeysSpec(km, occ[n], occ[n].keys);
    }
  }

  /** A key map whose lists are sub-multisets of another's. */
  ghost predicate Shrunk(km: KeyMap, km': KeyMap) {
    forall k :: multiset(Groups(km', k)) <= multiset(Groups(km, k))
  }

  lemma ShrunkPreserves(km: KeyMap, km': KeyMap, occ: Occurrences, fp: string -> Key)
    requires IndexInv(km, occ, fp) && km'.Valid() && NoEmpty(km') && Shrunk(km, km')
    ensures IndexInv(km', occ, fp)
  {
    forall k, g | k in km'.entries && g in km'.entries[k]
      ensures k in km.entries && g in km.entries[k]
    {
      assert multiset(Groups(km', k))[g] > 0;
      assert multiset(Groups(km, k))[g] > 0;
    }
    forall k, g, n | k in km'.entries && g in km'.entries[k] && n in g
      ensures multiset(km'.entries[k])[g] <= multiset(RecGet(occ, n, k))[g]
    {
      assert multiset(Groups(km', k))[g] <= multiset(Groups(km, k))[g];
    }
  }

  /** After removeNode(n), no group containing `n` is left anywhere in
      `keyMap`, and the index stays consistent. */
  lemma DropNodeRemoves(km: KeyMap, occ: Occurrences, fp: string -> Key, n: Ref)
    requires IndexInv(km, occ, fp)
    ensures var r := DropNode(km, occ, n);
      && IndexInv(r, occ, fp)
      && Shrunk(km, r)
      && (forall k, g | k in r.entries && g in r.entries[k] :: n !in g)
  {
    var r := DropNode(km, occ, n);
    DropNodeSpec(km, occ, n);
    ShrunkPreserves(km, r, occ, fp);
    forall k, g | k in r.entries && g in r.entries[k] ensures n !in g {
      assert multiset(Groups(r, k))[g] > 0;
      assert multiset(Groups(r, k))[g] == multiset(Groups(km, k))[g] - multiset(RecGet(occ, n, k))[g];
      assert k in km.entries;
      assert n in g ==> multiset(Groups(km, k))[g] <= multiset(RecGet(occ, n, k))[g];
    }
  }

  lemma ShrunkTrans(a: KeyMap, b: KeyMap, c: KeyMap)
    requires Shrunk(a, b) && Shrunk(b, c)
    ensures Shrunk(a, c)
  {
    forall k ensures multiset(Groups(c, k)) <= multiset(Groups(a, k)) {
      assert multiset(Groups(c, k)) <= multiset(Groups(b, k));
    }
  }

  /** Removing a list of nodes removes every group that contains any of them. */
  lemma {:induction false} DropNodesRemoves(km: KeyMap, occ: Occurrences, fp: string -> Key, nodes: seq<Ref>)
    requires IndexInv(km, occ, fp)
    ensures var r := DropNodes(km, occ, nodes);
      && IndexInv(r, occ, fp)
      && Shrunk(km, r)
      && (forall k, g, n | k in r.entries && g in r.entries[k] && n in nodes :: n !in g)
    decreases nodes
  {
    if nodes == [] {
      assert Shrunk(km, km);
    } else {
      var km1 := DropNode(km, occ, nodes[0]);
      var r := DropNodes(km, occ, nodes);
      DropNodeRemoves(km, occ, fp, nodes[0]);
      DropNodesRemoves(km1, occ, fp, nodes[1..]);
      ShrunkTrans(km, km1, r);
      forall k, g, n | k in r.entries && g in r.entries[k] && n in nodes ensures n !in g {
        assert multiset(Groups(r, k))[g] > 0;
        assert multiset(Groups(km1, k))[g] > 0;
        assert k in km1.entries && g in km1.entries[k];
        assert n != nodes[0] ==> n in nodes[1..];
      }
    }
  }

  /** The removal at the end of a reported key: afterwards no remaining group
      shares a node with a reported group. */
  lemma {:induction false} DropAllRemoves(km: KeyMap, occ: Occurrences, fp: string -> Key, groups: seq<Group>)
    requires IndexInv(km, occ, fp)
    ensures var r := DropAll(km, occ, groups);
      && IndexInv(r, occ, fp)
      && Shrunk(km, r)
      && (forall k, g, h, n | k in r.entries && g in r.entries[k] && h in groups && n in h :: n !in g)
    decreases groups
  {
    if groups == [] {
      assert Shrunk(km, km);
    } else {
      var km1 := DropNodes(km, occ, groups[0]);
      var r := DropAll(km, occ, groups);
      DropNodesRemoves(km, occ, fp, groups[0]);
      DropAllRemoves(km1, occ, fp, groups[1..]);
      ShrunkTrans(km, km1, r);
      forall k, g, h, n | k in r.entries && g in r.entries[k] && h in groups && n in h ensures n !in g {
        assert multiset(Groups(r, k))[g] > 0;
        assert multiset(Groups(km1, k))[g] > 0;
        assert k in km1.entries && g in km1.entries[k];
        assert h != groups[0] ==> h in groups[1..];
      }
    }
  }
}
