/** How `analyze` turns the candidate index into reported similarities.

    Keys holding at least two groups are visited in non-increasing order of
    their group count (ties in discovery order).  For each key still present,
    overlapping groups are dropped greedily, the remaining groups are reported
    on the files they come from (unless they all come from one file), and
    every node of a reported group is consumed, which removes every group
    touching it from the index.
 */
module MatchResolver {
  import opened OrderedMaps
  import opened Ast
  import opened CandidateIndex
  import opened Text
  import opened Files
  import opened Seqs

  datatype Option<T> = None | Some(value: T)

  // ---------------------------------------------------------------------------
  // Candidate keys and their order

  /** The number of groups under `k`. */
  function GroupCount(km: KeyMap, k: Key): nat {
    |Groups(km, k)|
  }

  /** The keys of `keys` that hold at least two groups, in order. */
  function Candidates(km: KeyMap, keys: seq<Key>): (r: seq<Key>)
    ensures forall k | k in r :: k in keys && GroupCount(km, k) >= 2
    ensures forall k | k in keys && GroupCount(km, k) >= 2 :: k in r
    ensures |r| <= |keys|
  {
    if keys == [] then []
    else Candidates(km, keys[..|keys| - 1])
         + (if GroupCount(km, keys[|keys| - 1]) >= 2 then [keys[|keys| - 1]] else [])
  }

  /** Insert `x` into a list sorted by non-increasing count, after every key
      whose count is at least that of `x`. */
  function InsertByCount(km: KeyMap, x: Key, s: seq<Key>): seq<Key> {
    if s == [] then [x]
    else if GroupCount(km, s[0]) >= GroupCount(km, x) then [s[0]] + InsertByCount(km, x, s[1..])
    else [x] + s
  }

  /** The stable sort of `keys` by non-increasing group count (`stable` with the
      comparator `count(b) - count(a)`), as a stable insertion sort. */
  function SortByCount(km: KeyMap, keys: seq<Key>): seq<Key> {
    if keys == [] then []
    else InsertByCount(km, keys[|keys| - 1], SortByCount(km, keys[..|keys| - 1]))
  }

  ghost predicate NonIncreasing(km: KeyMap, s: seq<Key>) {
    forall i, j | 0 <= i < j < |s| :: GroupCount(km, s[i]) >= GroupCount(km, s[j])
  }

  /** The keys of `s` whose count is `c`, in order. */
  function WithCount(km: KeyMap, s: seq<Key>, c: nat): seq<Key> {
    if s == [] then []
    else (if GroupCount(km, s[0]) == c then [s[0]] else []) + WithCount(km, s[1..], c)
  }

  lemma {:induction false} WithCountConcat(km: KeyMap, a: seq<Key>, b: seq<Key>, c: nat)
    ensures WithCount(km, a + b, c) == WithCount(km, a, c) + WithCount(km, b, c)
  {
    if a == [] {
      assert a + b == b;
    } else {
      assert (a + b)[0] == a[0] && (a + b)[1..] == a[1..] + b;
      WithCountConcat(km, a[1..], b, c);
    }
  }

  lemma {:induction false} WithCountNone(km: KeyMap, s: seq<Key>, c: nat)
    requires forall i | 0 <= i < |s| :: GroupCount(km, s[i]) < c
    ensures WithCount(km, s, c) == []
  {
    if s != [] {
      WithCountNone(km, s[1..], c);
    }
  }

  lemma {:induction false} InsertByCountPerm(km: KeyMap, x: Key, s: seq<Key>)
    ensures multiset(InsertByCount(km, x, s)) == multiset(s) + multiset{x}
  {
    if s != [] && GroupCount(km, s[0]) >= GroupCount(km, x) {
      InsertByCountPerm(km, x, s[1..]);
      assert s == [s[0]] + s[1..];
    }
  }

  /** Inserting adds `x` and nothing else. */
  lemma InsertByCountIn(km: KeyMap, x: Key, s: seq<Key>, y: Key)
    requires y in InsertByCount(km, x, s)
    ensures y == x || y in s
  {
    InsertByCountPerm(km, x, s);
    assert y in multiset(InsertByCount(km, x, s));
  }

  /** An element ahead of every element of a non-increasing list keeps it so. */
  lemma ConsSorted(km: KeyMap, y: Key, t: seq<Key>)
    requires NonIncreasing(km, t)
    requires forall j | 0 <= j < |t| :: GroupCount(km, y) >= GroupCount(km, t[j])
    ensures NonIncreasing(km, [y] + t)
  {
    var r := [y] + t;
    forall i, j | 0 <= i < j < |r| ensures GroupCount(km, r[i]) >= GroupCount(km, r[j]) {
      assert r[j] == t[j - 1];
      if i > 0 {
        assert r[i] == t[i - 1];
      }
    }
  }

  lemma {:induction false} InsertByCountSorted(km: KeyMap, x: Key, s: seq<Key>)
    requires NonIncreasing(km, s)
    ensures NonIncreasing(km, InsertByCount(km, x, s))
  {
    if s != [] && GroupCount(km, s[0]) >= GroupCount(km, x) {
      var t := InsertByCount(km, x, s[1..]);
      InsertByCountSorted(km, x, s[1..]);
      forall j | 0 <= j < |t| ensures GroupCount(km, s[0]) >= GroupCount(km, t[j]) {
        InsertByCountIn(km, x, s[1..], t[j]);
        if t[j] != x {
          var k :| 0 <= k < |s[1..]| && s[1..][k] == t[j];
          assert s[k + 1] == t[j];
        }
      }
      ConsSorted(km, s[0], t);
    }
  }

  lemma {:induction false} InsertByCountStable(km: KeyMap, x: Key, s: seq<Key>, c: nat)
    requires NonIncreasing(km, s)
    ensures WithCount(km, InsertByCount(km, x, s), c) == WithCount(km, s, c) + (if GroupCount(km, x) == c then [x] else [])
  {
    if s == [] {
    } else if GroupCount(km, s[0]) >= GroupCount(km, x) {
      var t := InsertByCount(km, x, s[1..]);
      assert NonIncreasing(km, s[1..]);
      InsertByCountStable(km, x, s[1..], c);
      assert s == [s[0]] + s[1..];
      WithCountConcat(km, [s[0]], t, c);
      WithCountConcat(km, [s[0]], s[1..], c);
    } else {
      WithCountNone(km, s, GroupCount(km, x));
      WithCountConcat(km, [x], s, c);
    }
  }

  /** The key order of analyze: a permutation of its input, in non-increasing
      order of group count, in which keys of equal count keep their relative
      order. */
  lemma {:induction false} SortByCountSpec(km: KeyMap, keys: seq<Key>)
    ensures var r := SortByCount(km, keys);
      && multiset(r) == multiset(keys)
      && NonIncreasing(km, r)
      && forall c :: WithCount(km, r, c) == WithCount(km, keys, c)
  {
    if keys != [] {
      var init := keys[..|keys| - 1];
      var x := keys[|keys| - 1];
      assert keys == init + [x];
      SortByCountSpec(km, init);
      InsertByCountPerm(km, x, SortByCount(km, init));
      InsertByCountSorted(km, x, SortByCount(km, init));
      forall c ensures WithCount(km, SortByCount(km, keys), c) == WithCount(km, keys, c) {
        InsertByCountStable(km, x, SortByCount(km, init), c);
        WithCountConcat(km, init, [x], c);
      }
    }
  }

  // ---------------------------------------------------------------------------
  // Overlap removal (removeOverlappingGroup)

  /** The test `set.size + group.length === tempSet.size`: adding the group's
      nodes to `claimed` grows it by the group's length. */
  predicate Fresh(claimed: set<Ref>, g: Group) {
    |claimed + Elements(g)| == |claimed| + |g|
  }

  /** The groups removeOverlappingGroup keeps from `gs` when `claimed` is
      already taken: a fresh group is kept and its nodes claimed, any other is
      dropped. */
  function Greedy(gs: seq<Group>, claimed: set<Ref>): seq<Group> {
    if gs == [] then []
    else if Fresh(claimed, gs[0]) then [gs[0]] + Greedy(gs[1..], claimed + Elements(gs[0]))
    else Greedy(gs[1..], claimed)
  }

  /** No node is in both groups. */
  predicate Disjoint(a: Group, b: Group) {
    forall n | n in a :: n !in b
  }

  /** Every node of the kept groups. */
  function Claimed(gs: seq<Group>): set<Ref> {
    if gs == [] then {} else Claimed(gs[..|gs| - 1]) + Elements(gs[|gs| - 1])
  }

  /** Reference definition of the kept groups: scanning left to right, a group
      is kept exactly when it repeats no node and shares no node with a group
      kept before it. */
  ghost function KeptRef(gs: seq<Group>): seq<Group> {
    if gs == [] then []
    else
      var before := KeptRef(gs[..|gs| - 1]);
      var g := gs[|gs| - 1];
      if Distinct(g) && forall h | h in before :: Disjoint(h, g) then before + [g] else before
  }

  /** `a` is `b` with some elements left out. */
  predicate IsSubsequence<T(==)>(a: seq<T>, b: seq<T>) {
    if a == [] then true
    else if b == [] then false
    else if a[0] == b[0] then IsSubsequence(a[1..], b[1..])
    else IsSubsequence(a, b[1..])
  }

  lemma {:induction false} NodesOfSize(g: Group)
    ensures |Elements(g)| <= |g|
    ensures |Elements(g)| == |g| <==> Distinct(g)
  {
    if g != [] {
      NodesOfSize(g[1..]);
      assert Elements(g) == {g[0]} + Elements(g[1..]);
      if g[0] in g[1..] {
        assert !Distinct(g) by {
          var j :| 0 <= j < |g[1..]| && g[1..][j] == g[0];
          assert g[0] == g[j + 1];
        }
      } else {
        assert Distinct(g) <==> Distinct(g[1..]);
      }
    }
  }

  /** The size test of removeOverlappingGroup holds exactly when the group
      repeats no node and shares none with the nodes claimed so far. */
  lemma FreshIff(claimed: set<Ref>, g: Group)
    ensures Fresh(claimed, g) <==> Distinct(g) && claimed * Elements(g) == {}
  {
    NodesOfSize(g);
    assert |claimed + Elements(g)| + |claimed * Elements(g)| == |claimed| + |Elements(g)|;
  }

  lemma {:induction false} ClaimedSpec(gs: seq<Group>)
    ensures forall n :: n in Claimed(gs) <==> exists h | h in gs :: n in h
  {
    if gs != [] {
      ClaimedSpec(gs[..|gs| - 1]);
      assert gs == gs[..|gs| - 1] + [gs[|gs| - 1]];
    }
  }

  /** The reference keeps a group after `done` exactly when the size test
      passes against the nodes it kept from `done`. */
  lemma KeptRefStep(done: seq<Group>, g: Group)
    ensures KeptRef(done + [g])
      == if Fresh(Claimed(KeptRef(done)), g) then KeptRef(done) + [g] else KeptRef(done)
  {
    var before := KeptRef(done);
    var claimed := Claimed(before);
    assert (done + [g])[..|done + [g]| - 1] == done;
    FreshIff(claimed, g);
    ClaimedSpec(before);
    forall h, n | h in before && n in h && n in g ensures n in claimed * Elements(g) {
    }
    forall n | n in claimed * Elements(g) ensures exists h | h in before :: !Disjoint(h, g) {
      var h :| h in before && n in h;
      assert n in g;
    }
    assert (claimed * Elements(g) == {}) <==> forall h | h in before :: Disjoint(h, g);
  }

  lemma ClaimedSnoc(gs: seq<Group>, g: Group)
    ensures Claimed(gs + [g]) == Claimed(gs) + Elements(g)
  {
    assert (gs + [g])[..|gs + [g]| - 1] == gs;
  }

  /** Greedy continues `KeptRef`: what it keeps from `rest`, with the nodes of
      `KeptRef(done)` claimed, is what `KeptRef` adds for `rest`. */
  lemma {:induction false} GreedyExtends(done: seq<Group>, rest: seq<Group>)
    ensures KeptRef(done) + Greedy(rest, Claimed(KeptRef(done))) == KeptRef(done + rest)
    decreases rest
  {
    if rest == [] {
      AppendNil(done);
      AppendNil(KeptRef(done));
    } else {
      var g := rest[0];
      var before := KeptRef(done);
      var claimed := Claimed(before);
      SeqAssoc3(done, [g], rest[1..]);
      assert rest == [g] + rest[1..];
      KeptRefStep(done, g);
      GreedyExtends(done + [g], rest[1..]);
      if Fresh(claimed, g) {
        ClaimedSnoc(before, g);
        SeqAssoc3(before, [g], Greedy(rest[1..], claimed + Elements(g)));
      }
    }
  }

  /** removeOverlappingGroup keeps exactly the reference selection. */
  lemma GreedyIsKeptRef(gs: seq<Group>)
    ensures Greedy(gs, {}) == KeptRef(gs)
  {
    GreedyExtends([], gs);
    AppendNil(gs);
  }

  /** The kept groups are a subsequence of the input; each repeats no node,
      shares none with `claimed`, and no two share a node. */
  lemma {:induction false} GreedySpec(gs: seq<Group>, claimed: set<Ref>)
    ensures var r := Greedy(gs, claimed);
      && IsSubsequence(r, gs)
      && (forall i | 0 <= i < |r| :: Distinct(r[i]) && claimed * Elements(r[i]) == {})
      && (forall i, j | 0 <= i < j < |r| :: Disjoint(r[i], r[j]))
  {
    if gs != [] {
      var g := gs[0];
      FreshIff(claimed, g);
      if Fresh(claimed, g) {
        var rest := Greedy(gs[1..], claimed + Elements(g));
        GreedySpec(gs[1..], claimed + Elements(g));
        var r := [g] + rest;
        forall i, j | 0 <= i < j < |r| ensures Disjoint(r[i], r[j]) {
          if i == 0 {
            assert r[j] == rest[j - 1];
            forall n | n in g ensures n !in r[j] {
              assert n in Elements(g);
            }
          } else {
            assert r[i] == rest[i - 1] && r[j] == rest[j - 1];
          }
        }
        forall i | 0 <= i < |r| ensures Distinct(r[i]) && claimed * Elements(r[i]) == {} {
          if i > 0 {
            assert r[i] == rest[i - 1];
          }
        }
        assert r[1..] == rest;
      } else {
        GreedySpec(gs[1..], claimed);
        SubsequenceSkip(Greedy(gs[1..], claimed), gs);
      }
    }
  }

  lemma {:induction false} SubsequenceSkip<T>(a: seq<T>, b: seq<T>)
    requires b != [] && IsSubsequence(a, b[1..])
    ensures IsSubsequence(a, b)
    decreases |a| + |b|
  {
    if a != [] && a[0] == b[0] {
      if |b| > 1 {
        SubsequenceTail(a, b[1..]);
      } else {
        assert false;
      }
    }
  }

  lemma {:induction false} SubsequenceTail<T>(a: seq<T>, b: seq<T>)
    requires a != [] && IsSubsequence(a, b)
    ensures IsSubsequence(a[1..], b)
    decreases |a| + |b|
  {
    if b != [] {
      if a[0] == b[0] {
        if a[1..] != [] {
          SubsequenceTail(a[1..], b[1..]);
        }
        SubsequenceSkip(a[1..], b);
      } else {
        SubsequenceTail(a, b[1..]);
        SubsequenceSkip(a[1..], b);
      }
    }
  }

  // ---------------------------------------------------------------------------
  // Line spans

  function MinStart(g: Group): (r: int)
    requires g != []
    ensures forall i | 0 <= i < |g| :: r <= g[i].node.loc.startLine
    ensures exists i | 0 <= i < |g| :: r == g[i].node.loc.startLine
  {
    if |g| == 1 then g[0].node.loc.startLine
    else
      var rest := MinStart(g[1..]);
      assert forall i | 1 <= i < |g| :: g[i] == g[1..][i - 1];
      if g[0].node.loc.startLine < rest then g[0].node.loc.startLine else rest
  }

  function MaxStart(g: Group): (r: int)
    requires g != []
    ensures forall i | 0 <= i < |g| :: g[i].node.loc.startLine <= r
    ensures exists i | 0 <= i < |g| :: r == g[i].node.loc.startLine
  {
    if |g| == 1 then g[0].node.loc.startLine
    else
      var rest := MaxStart(g[1..]);
      assert forall i | 1 <= i < |g| :: g[i] == g[1..][i - 1];
      if g[0].node.loc.startLine > rest then g[0].node.loc.startLine else rest
  }

  function MaxEnd(g: Group): (r: int)
    requires g != []
    ensures forall i | 0 <= i < |g| :: g[i].node.loc.endLine <= r
    ensures exists i | 0 <= i < |g| :: r == g[i].node.loc.endLine
  {
    if |g| == 1 then g[0].node.loc.endLine
    else
      var rest := MaxEnd(g[1..]);
      assert forall i | 1 <= i < |g| :: g[i] == g[1..][i - 1];
      if g[0].node.loc.endLine > rest then g[0].node.loc.endLine else rest
  }

  /** The reported lines of a group: from the smallest start line to the
      largest start line, or to the largest end line when that is at most two
      lines further. */
  function Span(g: Group): LineRange
    requires g != []
  {
    var last := MaxStart(g);
    var final := MaxEnd(g);
    LineRange(MinStart(g), if final - last <= 2 then final else last)
  }

  /** Every node starts no later than it ends. */
  predicate WellFormedLocs(g: Group) {
    forall i | 0 <= i < |g| :: g[i].node.loc.startLine <= g[i].node.loc.endLine
  }

  /** The span starts at the first line any node starts on; it ends on the
      last start line, or on the last end line when that is at most two lines
      further.  With well-formed locations it never ends before it starts or
      before any node starts, and it either covers every node's last line or
      some node ends more than two lines after it. */
  lemma SpanSpec(g: Group)
    requires g != []
    ensures var r := Span(g);
      && (forall i | 0 <= i < |g| :: r.startLine <= g[i].node.loc.startLine)
      && (exists i | 0 <= i < |g| :: r.startLine == g[i].node.loc.startLine)
      && (exists i | 0 <= i < |g| :: r.endLine == g[i].node.loc.startLine || r.endLine == g[i].node.loc.endLine)
      && (WellFormedLocs(g) ==>
            && r.startLine <= r.endLine
            && (forall i | 0 <= i < |g| :: g[i].node.loc.startLine <= r.endLine)
            && ((forall i | 0 <= i < |g| :: g[i].node.loc.endLine <= r.endLine)
                || (exists i | 0 <= i < |g| :: g[i].node.loc.endLine > r.endLine + 2)))
  {
    var last := MaxStart(g);
    var final := MaxEnd(g);
    var j :| 0 <= j < |g| && MinStart(g) == g[j].node.loc.startLine;
    var k :| 0 <= k < |g| && last == g[k].node.loc.startLine;
    var m :| 0 <= m < |g| && final == g[m].node.loc.endLine;
    assert g[k].node.loc.endLine <= final;
  }

  // ---------------------------------------------------------------------------
  // Match ids and file membership

  /** `node.name || node.type`; a node-valued name stringifies as an object. */
  function Token(n: Node): string {
    match Lookup(n.fields, "name")
    case Text(s) => if s != "" then s else n.nodeType
    case Child(_) => "[object Object]"
    case Record => "[object Object]"
    case _ => n.nodeType
  }

  /** The tokens of every node of every group, group by group. */
  function Tokens(gs: seq<Group>): seq<string> {
    if gs == [] then [] else GroupTokens(gs[0]) + Tokens(gs[1..])
  }

  function GroupTokens(g: Group): seq<string> {
    if g == [] then [] else [Token(g[0].node)] + GroupTokens(g[1..])
  }

  lemma {:induction false} TokensCount(gs: seq<Group>)
    ensures |Tokens(gs)| == TotalSize(gs)
  {
    if gs != [] {
      TokensCount(gs[1..]);
      GroupTokensCount(gs[0]);
    }
  }

  lemma {:induction false} GroupTokensCount(g: Group)
    ensures |GroupTokens(g)| == |g|
    ensures forall i | 0 <= i < |g| :: GroupTokens(g)[i] == Token(g[i].node)
  {
    if g != [] {
      GroupTokensCount(g[1..]);
    }
  }

  function TotalSize(gs: seq<Group>): nat {
    if gs == [] then 0 else |gs[0]| + TotalSize(gs[1..])
  }

  /** The match id: the digest of the comma-joined tokens. */
  function MatchId(digest: string -> string, gs: seq<Group>): string {
    digest(Join(Tokens(gs), ","))
  }

  /** `node.filename`, absent for a node that was never tagged. */
  function FileOf(filenames: map<Ref, string>, r: Ref): Option<string> {
    if r in filenames then Some(filenames[r]) else None
  }

  /** `isSameFile`: the first nodes of all groups carry the file of the first
      group's first node. */
  predicate SameFile(filenames: map<Ref, string>, gs: seq<Group>)
    requires forall i | 0 <= i < |gs| :: gs[i] != []
  {
    forall i | 0 <= i < |gs| :: FileOf(filenames, gs[i][0]) == FileOf(filenames, gs[0][0])
  }

  // ---------------------------------------------------------------------------
  // Recording

  /** What analyze writes: each file's similarity map (parallel to the list of
      files) and the running line total. */
  datatype Ledger = Ledger(sims: seq<SimMap>, total: int)

  /** The number of lines a range covers, counted as analyze counts them. */
  function Width(r: LineRange): int {
    r.endLine - r.startLine + 1
  }

  /** The lines of the ranges under `keys`. */
  function SumOver(keys: seq<string>, entries: map<string, LineRange>): int {
    if keys == [] then 0
    else (if keys[0] in entries then Width(entries[keys[0]]) else 0) + SumOver(keys[1..], entries)
  }

  /** The lines a file's recorded similarities cover. */
  function SimLines(m: SimMap): int {
    SumOver(m.keys, m.entries)
  }

  function SumAll(sims: seq<SimMap>): int {
    if sims == [] then 0 else SimLines(sims[0]) + SumAll(sims[1..])
  }

  /** The running total minus the lines the files record: analyze keeps it
      fixed. */
  function Balance(l: Ledger): int {
    l.total - SumAll(l.sims)
  }

  ghost predicate LedgerValid(l: Ledger, files: nat) {
    |l.sims| == files && forall j | 0 <= j < |l.sims| :: l.sims[j].Valid()
  }

  /** The loop over the files for one group: every file named `file` gets the
      range under `id` and the total grows by its width, until a file named
      `file` that already has `id` stops the loop. */
  function RecordIn(names: seq<string>, l: Ledger, file: Option<string>, id: string, span: LineRange, j: nat): (r: Ledger)
    requires j <= |names| && |l.sims| == |names|
    ensures |r.sims| == |names|
    decreases |names| - j
  {
    if j == |names| then l
    else if Some(names[j]) == file then
      if id in l.sims[j].entries then l
      else RecordIn(names, Ledger(l.sims[j := Put(l.sims[j], id, span)], l.total + Width(span)), file, id, span, j + 1)
    else RecordIn(names, l, file, id, span, j + 1)
  }

  /** The recording loop over the kept groups. */
  function RecordGroups(names: seq<string>, filenames: map<Ref, string>, l: Ledger, id: string, gs: seq<Group>): (r: Ledger)
    requires |l.sims| == |names|
    requires forall i | 0 <= i < |gs| :: gs[i] != []
    ensures |r.sims| == |names|
    decreases gs
  {
    if gs == [] then l
    else RecordGroups(names, filenames, RecordIn(names, l, FileOf(filenames, gs[0][0]), id, Span(gs[0]), 0), id, gs[1..])
  }

  lemma {:induction false} SumOverAgree(keys: seq<string>, e1: map<string, LineRange>, e2: map<string, LineRange>)
    requires forall k | k in keys :: (k in e1 <==> k in e2) && (k in e1 ==> e1[k] == e2[k])
    ensures SumOver(keys, e1) == SumOver(keys, e2)
  {
    if keys != [] {
      SumOverAgree(keys[1..], e1, e2);
    }
  }

  lemma {:induction false} SumOverAppend(keys: seq<string>, k: string, entries: map<string, LineRange>)
    ensures SumOver(keys + [k], entries) == SumOver(keys, entries) + (if k in entries then Width(entries[k]) else 0)
  {
    if keys == [] {
      assert keys + [k] == [k];
    } else {
      assert (keys + [k])[1..] == keys[1..] + [k];
      SumOverAppend(keys[1..], k, entries);
    }
  }

  /** Adding a new id to a file adds its width to the file's line count. */
  lemma SimLinesPut(m: SimMap, id: string, span: LineRange)
    requires m.Valid() && id !in m.entries
    ensures SimLines(Put(m, id, span)) == SimLines(m) + Width(span)
  {
    var e := m.entries[id := span];
    SumOverAgree(m.keys, m.entries, e);
    SumOverAppend(m.keys, id, e);
  }

  lemma {:induction false} SumAllUpdate(sims: seq<SimMap>, j: nat, m: SimMap)
    requires j < |sims|
    ensures SumAll(sims[j := m]) == SumAll(sims) - SimLines(sims[j]) + SimLines(m)
  {
    if j > 0 {
      SumAllUpdate(sims[1..], j - 1, m);
      assert sims[j := m][1..] == sims[1..][j - 1 := m];
    }
  }

  /** Recording keeps the total equal to the lines the files record (up to the
      starting difference) and keeps every similarity map well formed. */
  lemma {:induction false} RecordInBalanced(names: seq<string>, l: Ledger, file: Option<string>, id: string, span: LineRange, j: nat)
    requires j <= |names| && LedgerValid(l, |names|)
    ensures var r := RecordIn(names, l, file, id, span, j);
      LedgerValid(r, |names|) && Balance(r) == Balance(l)
    decreases |names| - j
  {
    if j < |names| && Some(names[j]) == file && id !in l.sims[j].entries {
      var m := Put(l.sims[j], id, span);
      var l1 := Ledger(l.sims[j := m], l.total + Width(span));
      SimLinesPut(l.sims[j], id, span);
      SumAllUpdate(l.sims, j, m);
      RecordInBalanced(names, l1, file, id, span, j + 1);
    } else if j < |names| && Some(names[j]) != file {
      RecordInBalanced(names, l, file, id, span, j + 1);
    }
  }

  /** What one pass over the files records: files of another name are left
      alone, a file that already has the id keeps its range, every other file
      either keeps its map or gets the range under the id; and when no file of
      that name has the id yet, all of them get it. */
  lemma {:induction false} RecordInSpec(names: seq<string>, l: Ledger, file: Option<string>, id: string, span: LineRange, j: nat)
    requires j <= |names| && |l.sims| == |names|
    ensures var r := RecordIn(names, l, file, id, span, j);
      && (forall i | 0 <= i < |names| && (i < j || Some(names[i]) != file) :: r.sims[i] == l.sims[i])
      && (forall i | j <= i < |names| && id in l.sims[i].entries :: r.sims[i] == l.sims[i])
      && (forall i | j <= i < |names| :: r.sims[i] == l.sims[i] || r.sims[i] == Put(l.sims[i], id, span))
      && ((forall i | j <= i < |names| && Some(names[i]) == file :: id !in l.sims[i].entries) ==>
            forall i | j <= i < |names| && Some(names[i]) == file :: r.sims[i] == Put(l.sims[i], id, span))
    decreases |names| - j
  {
    if j < |names| {
      if Some(names[j]) == file {
        if id !in l.sims[j].entries {
          var l1 := Ledger(l.sims[j := Put(l.sims[j], id, span)], l.total + Width(span));
          RecordInSpec(names, l1, file, id, span, j + 1);
        }
      } else {
        RecordInSpec(names, l, file, id, span, j + 1);
      }
    }
  }

  lemma {:induction false} RecordGroupsBalanced(names: seq<string>, filenames: map<Ref, string>, l: Ledger, id: string, gs: seq<Group>)
    requires LedgerValid(l, |names|)
    requires forall i | 0 <= i < |gs| :: gs[i] != []
    ensures var r := RecordGroups(names, filenames, l, id, gs);
      LedgerValid(r, |names|) && Balance(r) == Balance(l)
    decreases gs
  {
    if gs != [] {
      var l1 := RecordIn(names, l, FileOf(filenames, gs[0][0]), id, Span(gs[0]), 0);
      RecordInBalanced(names, l, FileOf(filenames, gs[0][0]), id, Span(gs[0]), 0);
      RecordGroupsBalanced(names, filenames, l1, id, gs[1..]);
    }
  }

  // ---------------------------------------------------------------------------
  // One key, and the whole pass

  /** The fixed inputs of analyze: the file names (parallel to the ledger),
      the `filename` tags, the occurrence records and the id digest. */
  datatype Env = Env(names: seq<string>, filenames: map<Ref, string>, occ: Occurrences, digest: string -> string)

  /** The state analyze changes. */
  datatype Books = Books(keyMap: KeyMap, ledger: Ledger)

  /** The groups kept for a key: its groups with overlaps removed. */
  function KeptGroups(km: KeyMap, k: Key): seq<Group> {
    Greedy(Groups(km, k), {})
  }

  /** A key's groups are reported when the key is still present, at least two
      of them survive overlap removal and they do not all come from one file. */
  predicate Reports(env: Env, km: KeyMap, k: Key)
    requires GroupsNonEmpty(km)
  {
    var kept := KeptGroups(km, k);
    GreedyMembers(Groups(km, k));
    && k in km.entries
    && |kept| >= 2
    && !SameFile(env.filenames, kept)
  }

  /** Kept groups come from the key's groups, so none is empty. */
  lemma GreedyMembers(gs: seq<Group>)
    ensures forall i | 0 <= i < |Greedy(gs, {})| :: Greedy(gs, {})[i] in gs
  {
    GreedySpec(gs, {});
    SubsequenceMembers(Greedy(gs, {}), gs);
  }

  lemma {:induction false} SubsequenceMembers<T>(a: seq<T>, b: seq<T>)
    requires IsSubsequence(a, b)
    ensures forall x | x in a :: x in b
    decreases |a| + |b|
  {
    if a != [] && b != [] {
      if a[0] == b[0] {
        SubsequenceMembers(a[1..], b[1..]);
        assert forall x | x in a :: x == a[0] || x in a[1..];
      } else {
        SubsequenceMembers(a, b[1..]);
      }
    }
  }

  /** One iteration of analyze's key loop. */
  function AnalyzeKey(env: Env, b: Books, k: Key): (r: Books)
    requires GroupsNonEmpty(b.keyMap) && |b.ledger.sims| == |env.names|
    ensures |r.ledger.sims| == |env.names|
  {
    if Reports(env, b.keyMap, k) then
      var kept := KeptGroups(b.keyMap, k);
      GreedyMembers(Groups(b.keyMap, k));
      var id := MatchId(env.digest, kept);
      Books(DropAll(b.keyMap, env.occ, kept), RecordGroups(env.names, env.filenames, b.ledger, id, kept))
    else b
  }

  /** The whole-pass invariant: the index is consistent and the ledger is
      well formed. */
  ghost predicate BooksValid(env: Env, b: Books, fp: string -> Key) {
    IndexInv(b.keyMap, env.occ, fp) && LedgerValid(b.ledger, |env.names|)
  }

  /** The key loop of analyze over `keys`, in order. */
  function AnalyzeKeys(env: Env, b: Books, keys: seq<Key>, ghost fp: string -> Key): (r: Books)
    requires BooksValid(env, b, fp)
    ensures BooksValid(env, r, fp)
    decreases keys
  {
    if keys == [] then b
    else
      AnalyzeKeyPreserves(env, b, keys[0], fp);
      AnalyzeKeys(env, AnalyzeKey(env, b, keys[0]), keys[1..], fp)
  }

  /** The whole of analyze: visit the candidate keys in stable count order. */
  function Analyze(env: Env, b: Books, ghost fp: string -> Key): (r: Books)
    requires BooksValid(env, b, fp)
    ensures BooksValid(env, r, fp)
  {
    AnalyzeKeys(env, b, SortByCount(b.keyMap, Candidates(b.keyMap, b.keyMap.keys)), fp)
  }

  /** One key keeps the books valid and the total balanced; the index only
      shrinks. */
  lemma AnalyzeKeyPreserves(env: Env, b: Books, k: Key, fp: string -> Key)
    requires BooksValid(env, b, fp)
    ensures var r := AnalyzeKey(env, b, k);
      && BooksValid(env, r, fp)
      && Balance(r.ledger) == Balance(b.ledger)
      && Shrunk(b.keyMap, r.keyMap)
  {
    if Reports(env, b.keyMap, k) {
      var kept := KeptGroups(b.keyMap, k);
      GreedyMembers(Groups(b.keyMap, k));
      DropAllRemoves(b.keyMap, env.occ, fp, kept);
      RecordGroupsBalanced(env.names, env.filenames, b.ledger, MatchId(env.digest, kept), kept);
    } else {
      assert Shrunk(b.keyMap, b.keyMap);
    }
  }

  /** What one key does.  Unless it reports, nothing changes.  When it
      reports, the reported groups come from the key's groups in order and no
      two share a node, the index loses every group that touches a reported
      node, and the total stays balanced against the recorded spans. */
  lemma AnalyzeKeySpec(env: Env, b: Books, k: Key, fp: string -> Key)
    requires BooksValid(env, b, fp)
    ensures var r := AnalyzeKey(env, b, k);
      && (!Reports(env, b.keyMap, k) ==> r == b)
      && (Reports(env, b.keyMap, k) ==>
            var kept := KeptGroups(b.keyMap, k);
            && IsSubsequence(kept, Groups(b.keyMap, k))
            && (forall i, j | 0 <= i < j < |kept| :: Disjoint(kept[i], kept[j]))
            && (forall k', g, h, n | k' in r.keyMap.entries && g in r.keyMap.entries[k'] && h in kept && n in h :: n !in g)
            && Balance(r.ledger) == Balance(b.ledger))
  {
    if Reports(env, b.keyMap, k) {
      var kept := KeptGroups(b.keyMap, k);
      GreedySpec(Groups(b.keyMap, k), {});
      GreedyMembers(Groups(b.keyMap, k));
      AnalyzeKeyPreserves(env, b, k, fp);
      DropAllRemoves(b.keyMap, env.occ, fp, kept);
    }
  }

  /** The key-loop fold keeps the books valid and the total balanced, and the
      index only shrinks. */
  lemma {:induction false} AnalyzeKeysPreserves(env: Env, b: Books, keys: seq<Key>, fp: string -> Key)
    requires BooksValid(env, b, fp)
    ensures var r := AnalyzeKeys(env, b, keys, fp);
      Balance(r.ledger) == Balance(b.ledger) && Shrunk(b.keyMap, r.keyMap)
    decreases keys
  {
    if keys == [] {
      assert Shrunk(b.keyMap, b.keyMap);
    } else {
      var b1 := AnalyzeKey(env, b, keys[0]);
      AnalyzeKeyPreserves(env, b, keys[0], fp);
      AnalyzeKeysPreserves(env, b1, keys[1..], fp);
      ShrunkTrans(b.keyMap, b1.keyMap, AnalyzeKeys(env, b1, keys[1..], fp).keyMap);
    }
  }

  /** `g` is filed under some key of the index. */
  ghost predicate InIndex(km: KeyMap, g: Group) {
    exists k :: g in Groups(km, k)
  }

  /** A group still in a shrunk index was in the index it shrank from. */
  lemma ShrunkInIndex(km: KeyMap, km': KeyMap, g: Group)
    requires Shrunk(km, km') && InIndex(km', g)
    ensures InIndex(km, g)
  {
    var k :| g in Groups(km', k);
    assert multiset(Groups(km', k))[g] > 0;
    assert g in multiset(Groups(km, k));
  }

  /** The matches the key loop reports over `keys`, in order: the kept groups
      of every key that reports. */
  function Emitted(env: Env, b: Books, keys: seq<Key>, ghost fp: string -> Key): seq<seq<Group>>
    requires BooksValid(env, b, fp)
    decreases keys
  {
    if keys == [] then []
    else
      AnalyzeKeyPreserves(env, b, keys[0], fp);
      (if Reports(env, b.keyMap, keys[0]) then [KeptGroups(b.keyMap, keys[0])] else [])
        + Emitted(env, AnalyzeKey(env, b, keys[0]), keys[1..], fp)
  }

  /** Every match has at least two groups, each filed in `km`. */
  ghost predicate FromIndex(e: seq<seq<Group>>, km: KeyMap) {
    forall i | 0 <= i < |e| :: |e[i]| >= 2 && forall g | g in e[i] :: InIndex(km, g)
  }

  /** No two groups of the matches share a node, whether in one match or in
      two. */
  predicate NoneShared(e: seq<seq<Group>>) {
    && (forall i | 0 <= i < |e| :: forall x, y | 0 <= x < y < |e[i]| :: Disjoint(e[i][x], e[i][y]))
    && (forall i, j, g, h | 0 <= i < j < |e| && g in e[i] && h in e[j] :: Disjoint(g, h))
  }

  /** Matches drawn from a shrunk index were drawn from the index it shrank
      from. */
  lemma FromIndexShrunk(e: seq<seq<Group>>, km: KeyMap, km': KeyMap)
    requires Shrunk(km, km') && FromIndex(e, km')
    ensures FromIndex(e, km)
  {
    forall i, g | 0 <= i < |e| && g in e[i] ensures InIndex(km, g) {
      ShrunkInIndex(km, km', g);
    }
  }

  /** One more match of at least two groups from the index keeps the matches
      drawn from it. */
  lemma PrependFromIndex(m: seq<Group>, rest: seq<seq<Group>>, km: KeyMap)
    requires |m| >= 2 && (forall g | g in m :: InIndex(km, g)) && FromIndex(rest, km)
    ensures FromIndex([m] + rest, km)
  {
    var e := [m] + rest;
    forall i | 0 < i < |e| ensures e[i] == rest[i - 1] {
    }
  }

  /** A reporting key's kept groups are groups of the index. */
  lemma KeptInIndex(km: KeyMap, k: Key)
    ensures forall g | g in KeptGroups(km, k) :: InIndex(km, g)
  {
    GreedyMembers(Groups(km, k));
    forall g | g in KeptGroups(km, k) ensures InIndex(km, g) {
      var x :| 0 <= x < |KeptGroups(km, k)| && KeptGroups(km, k)[x] == g;
      assert g in Groups(km, k);
    }
  }

  /** Every group of a reported match was in the index before the loop
      started, and every match has at least two groups. */
  lemma {:induction false} EmittedFrom(env: Env, b: Books, keys: seq<Key>, fp: string -> Key)
    requires BooksValid(env, b, fp)
    ensures FromIndex(Emitted(env, b, keys, fp), b.keyMap)
    decreases keys
  {
    if keys != [] {
      var b1 := AnalyzeKey(env, b, keys[0]);
      AnalyzeKeyPreserves(env, b, keys[0], fp);
      EmittedFrom(env, b1, keys[1..], fp);
      var rest := Emitted(env, b1, keys[1..], fp);
      FromIndexShrunk(rest, b.keyMap, b1.keyMap);
      if Reports(env, b.keyMap, keys[0]) {
        var kept := KeptGroups(b.keyMap, keys[0]);
        KeptInIndex(b.keyMap, keys[0]);
        PrependFromIndex(kept, rest, b.keyMap);
        assert Emitted(env, b, keys, fp) == [kept] + rest;
      } else {
        assert Emitted(env, b, keys, fp) == rest;
      }
    }
  }

  /** Putting one match in front of matches that share no node keeps them
      sharing none, when its own groups are disjoint and touch none of
      theirs. */
  lemma PrependNoneShared(m: seq<Group>, rest: seq<seq<Group>>)
    requires NoneShared(rest)
    requires forall x, y | 0 <= x < y < |m| :: Disjoint(m[x], m[y])
    requires forall j, g, h | 0 <= j < |rest| && g in m && h in rest[j] :: Disjoint(g, h)
    ensures NoneShared([m] + rest)
  {
    var e := [m] + rest;
    forall i | 0 <= i < |e| ensures forall x, y | 0 <= x < y < |e[i]| :: Disjoint(e[i][x], e[i][y]) {
      if i > 0 {
        assert e[i] == rest[i - 1];
      }
    }
    forall i, j, g, h | 0 <= i < j < |e| && g in e[i] && h in e[j] ensures Disjoint(g, h) {
      assert e[j] == rest[j - 1];
      if i > 0 {
        assert e[i] == rest[i - 1];
      }
    }
  }

  /** No two groups analyze reports share a node: within one match because
      overlapping groups are dropped, and across matches because every group
      touching a reported node leaves the index before later keys run. */
  lemma {:induction false} EmittedDisjoint(env: Env, b: Books, keys: seq<Key>, fp: string -> Key)
    requires BooksValid(env, b, fp)
    ensures NoneShared(Emitted(env, b, keys, fp))
    decreases keys
  {
    if keys != [] {
      var b1 := AnalyzeKey(env, b, keys[0]);
      AnalyzeKeyPreserves(env, b, keys[0], fp);
      EmittedDisjoint(env, b1, keys[1..], fp);
      var rest := Emitted(env, b1, keys[1..], fp);
      if Reports(env, b.keyMap, keys[0]) {
        var kept := KeptGroups(b.keyMap, keys[0]);
        AnalyzeKeySpec(env, b, keys[0], fp);
        EmittedFrom(env, b1, keys[1..], fp);
        forall j, g, h | 0 <= j < |rest| && g in kept && h in rest[j] ensures Disjoint(g, h) {
          assert InIndex(b1.keyMap, h);
          var k' :| h in Groups(b1.keyMap, k');
          assert k' in b1.keyMap.entries && h in b1.keyMap.entries[k'];
        }
        PrependNoneShared(kept, rest);
        assert Emitted(env, b, keys, fp) == [kept] + rest;
      } else {
        assert Emitted(env, b, keys, fp) == rest;
      }
    }
  }

  /** The matches of the whole of analyze. */
  function Matches(env: Env, b: Books, ghost fp: string -> Key): seq<seq<Group>>
    requires BooksValid(env, b, fp)
  {
    Emitted(env, b, SortByCount(b.keyMap, Candidates(b.keyMap, b.keyMap.keys)), fp)
  }

  /** Across the whole of analyze, each reported match has at least two
      groups, all from the index, and no node is reported twice. */
  lemma MatchesSpec(env: Env, b: Books, fp: string -> Key)
    requires BooksValid(env, b, fp)
    ensures FromIndex(Matches(env, b, fp), b.keyMap) && NoneShared(Matches(env, b, fp))
  {
    var keys := SortByCount(b.keyMap, Candidates(b.keyMap, b.keyMap.keys));
    EmittedFrom(env, b, keys, fp);
    EmittedDisjoint(env, b, keys, fp);
  }
}
