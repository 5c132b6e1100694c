/** One source file under comparison: its lines by number, and the
    similarities recorded on it in insertion order. */
module Files {
  import opened OrderedMaps
  import opened Text
  import opened Seqs

  /** The `[startLine, endLine]` pair a file stores for a similarity. */
  datatype LineRange = LineRange(startLine: int, endLine: int)

  /** A file's `similarityMap`: match id to its line range, in insertion order. */
  type SimMap = OMap<string, LineRange>

  /** One element of `getSimilarities()`: `{id, startLine, endLine}`. */
  datatype Similarity = Similarity(id: string, startLine: int, endLine: int)

  /** The content map for the pieces `lines`: piece i (counting from 1) under
      the decimal numeral of i. */
  function LineMap(lines: seq<string>): map<string, string> {
    if lines == [] then map[]
    else LineMap(lines[..|lines| - 1])[NatToString(|lines|) := lines[|lines| - 1]]
  }

  /** The keys of the content map are exactly the numerals "1" .. "n" for
      n pieces. */
  lemma {:induction false} LineMapKeys(lines: seq<string>)
    ensures LineMap(lines).Keys == set i | 1 <= i <= |lines| :: NatToString(i)
  {
    if lines != [] {
      var n := |lines|;
      LineMapKeys(lines[..n - 1]);
      var before := set i | 1 <= i <= n - 1 :: NatToString(i);
      var after := set i | 1 <= i <= n :: NatToString(i);
      assert after == before + {NatToString(n)};
    }
  }

  /** Piece i (counting from 1) is filed verbatim under the numeral of i; a
      carriage return before the line feed stays in the piece. */
  lemma {:induction false} LineMapValues(lines: seq<string>)
    ensures forall i | 1 <= i <= |lines| :: NatToString(i) in LineMap(lines) && LineMap(lines)[NatToString(i)] == lines[i - 1]
  {
    if lines != [] {
      var init := lines[..|lines| - 1];
      var n := |lines|;
      var m := LineMap(lines);
      LineMapValues(init);
      forall i | 1 <= i <= n ensures NatToString(i) in m && m[NatToString(i)] == lines[i - 1] {
        if i < n {
          NatToStringDistinct(i, n);
          assert init[i - 1] == lines[i - 1];
        }
      }
    }
  }

  lemma NatToStringDistinct(i: nat, n: nat)
    requires i != n
    ensures NatToString(i) != NatToString(n)
  {
    if NatToString(i) == NatToString(n) {
      NatToStringInjective(i, n);
    }
  }

  /** Reading the pieces back in numeric order and joining them with "\n"
      restores the text. */
  lemma ContentRoundTrip(contents: string)
    ensures var lines := SplitLines(contents);
      var m := LineMap(lines);
      (forall i | 1 <= i <= |lines| :: NatToString(i) in m)
      && Join(seq(|lines|, i requires 0 <= i < |lines| => m[NatToString(i + 1)]), "\n") == contents
  {
    var lines := SplitLines(contents);
    var m := LineMap(lines);
    LineMapValues(lines);
    var pieces := seq(|lines|, i requires 0 <= i < |lines| => m[NatToString(i + 1)]);
    assert pieces == lines;
    JoinSplitLines(contents);
  }

  /** A carriage return stays at the end of its line: "a\r\nb" gives line 1
      "a\r" and line 2 "b". */
  lemma KeepsCarriageReturn()
    ensures LineMap(SplitLines("a\r\nb")) == map["1" := "a\r", "2" := "b"]
  {
    assert "a\r" + "\n" + "b" == "a\r\nb";
    SplitLinesPrefix("a\r", "b");
    SplitLinesNoFeed("b");
    var lines := ["a\r", "b"];
    assert SplitLines("a\r\nb") == lines;
    assert lines[..1] == ["a\r"] && ["a\r"][..0] == [];
    assert NatToString(1) == "1" && NatToString(2) == "2";
  }

  /** One `Key/Start Line/End Line` block of `toString()`. */
  function Entry(key: string, r: LineRange): string {
    "Key:" + key + "\n" + "Start Line:" + IntToString(r.startLine) + "\n" + "End Line:" + IntToString(r.endLine) + "\n"
  }

  /** Appending the pieces of a block one `concat` at a time appends the block. */
  lemma AppendEntry(s: string, key: string, range: LineRange)
    ensures s + "Key:" + key + "\n" + "Start Line:" + IntToString(range.startLine) + "\n"
      + "End Line:" + IntToString(range.endLine) + "\n" == s + Entry(key, range)
  {
    var a, b := IntToString(range.startLine), IntToString(range.endLine);
    SeqAssoc9(s, "Key:", key, "\n", "Start Line:", a, "\n", "End Line:", b, "\n");
  }

  lemma SeqAssoc9<T>(s: seq<T>, p1: seq<T>, p2: seq<T>, p3: seq<T>, p4: seq<T>, p5: seq<T>, p6: seq<T>, p7: seq<T>, p8: seq<T>, p9: seq<T>)
    ensures s + p1 + p2 + p3 + p4 + p5 + p6 + p7 + p8 + p9 == s + (p1 + p2 + p3 + p4 + p5 + p6 + p7 + p8 + p9)
  {
  }

  /** The blocks for `keys`, in order. */
  function Describe(keys: seq<string>, entries: map<string, LineRange>): string
    requires forall k | k in keys :: k in entries
  {
    if keys == [] then ""
    else Describe(keys[..|keys| - 1], entries) + Entry(keys[|keys| - 1], entries[keys[|keys| - 1]])
  }

  /** The elements of `getSimilarities()` for `keys`, in order. */
  function SimilarityList(keys: seq<string>, entries: map<string, LineRange>): (r: seq<Similarity>)
    requires forall k | k in keys :: k in entries
    ensures |r| == |keys|
    ensures forall i | 0 <= i < |r| ::
      r[i] == Similarity(keys[i], entries[keys[i]].startLine, entries[keys[i]].endLine)
  {
    if keys == [] then []
    else
      var k := keys[|keys| - 1];
      SimilarityList(keys[..|keys| - 1], entries) + [Similarity(k, entries[k].startLine, entries[k].endLine)]
  }

  lemma {:induction false} DescribeAppend(keys: seq<string>, k: string, entries: map<string, LineRange>)
    requires forall k' | k' in keys + [k] :: k' in entries
    ensures Describe(keys + [k], entries) == Describe(keys, entries) + Entry(k, entries[k])
  {
    assert (keys + [k])[..|keys|] == keys;
  }

  lemma {:induction false} DescribeAgree(keys: seq<string>, e1: map<string, LineRange>, e2: map<string, LineRange>)
    requires forall k' | k' in keys :: k' in e1 && k' in e2 && e1[k'] == e2[k']
    ensures Describe(keys, e1) == Describe(keys, e2)
  {
    if keys != [] {
      DescribeAgree(keys[..|keys| - 1], e1, e2);
    }
  }

  class File {
    /** The file path. */
    const name: string
    /** Line number (as a decimal string) to the text of that line. */
    var contentMap: map<string, string>
    /** Match id to its line range, in the order the ids were first added. */
    var similarityMap: SimMap

    ghost predicate Valid()
      reads this
    {
      similarityMap.Valid()
    }

    /** `new File(name)` for a file whose text is `contents`. */
    constructor(name: string, contents: string)
      ensures Valid()
      ensures this.name == name
      ensures similarityMap == Empty()
      ensures contentMap == LineMap(SplitLines(contents))
    {
      var lines := SplitLines(contents);
      var m: map<string, string> := map[];
      var i := 1;
      for j := 0 to |lines|
        invariant i == j + 1
        invariant m == LineMap(lines[..j])
      {
        assert lines[..j + 1][..j] == lines[..j];
        m := m[NatToString(i) := lines[j]];
        i := i + 1;
      }
      assert lines[..|lines|] == lines;
      this.name := name;
      similarityMap := Empty();
      contentMap := m;
    }

    /** `similarityMap.set(key, [startLine, endLine])`: the key maps to the new
        range; a new key is appended to the order, an existing one keeps its
        place; nothing else changes. */
    method AddSimilarity(key: string, startLine: int, endLine: int)
      requires Valid()
      modifies this
      ensures Valid()
      ensures similarityMap == Put(old(similarityMap), key, LineRange(startLine, endLine))
      ensures contentMap == old(contentMap)
    {
      similarityMap := Put(similarityMap, key, LineRange(startLine, endLine));
    }

    function GetContentMap(): (r: map<string, string>)
      reads this
      ensures r == contentMap
    {
      contentMap
    }

    /** Every recorded id exactly once, in first-insertion order. */
    function GetSimilarityKeys(): (r: seq<string>)
      reads this
      requires Valid()
      ensures Distinct(r)
      ensures forall k :: k in r <==> k in similarityMap.entries
      ensures r == similarityMap.keys
    {
      similarityMap.keys
    }

    /** One `{id, startLine, endLine}` per recorded id, in key order. */
    method GetSimilarities() returns (r: seq<Similarity>)
      requires Valid()
      ensures r == SimilarityList(similarityMap.keys, similarityMap.entries)
      ensures |r| == |similarityMap.keys|
      ensures forall i | 0 <= i < |r| ::
        && r[i].id == similarityMap.keys[i]
        && LineRange(r[i].startLine, r[i].endLine) == similarityMap.entries[r[i].id]
    {
      var keys := similarityMap.keys;
      r := [];
      for i := 0 to |keys|
        invariant r == SimilarityList(keys[..i], similarityMap.entries)
      {
        assert keys[..i + 1][..i] == keys[..i];
        var range := similarityMap.entries[keys[i]];
        r := r + [Similarity(keys[i], range.startLine, range.endLine)];
      }
      assert keys[..|keys|] == keys;
    }

    function GetName(): (r: string)
      ensures r == name
    {
      name
    }

    /** The name, a line feed, then one `Key/Start Line/End Line` block per
        recorded id in key order. */
    method ToString() returns (r: string)
      requires Valid()
      ensures r == Description(name, similarityMap)
    {
      var keys := similarityMap.keys;
      var entries := similarityMap.entries;
      ghost var head := name + "\n";
      r := name + "\n";
      for i := 0 to |keys|
        invariant r == head + Describe(keys[..i], entries)
      {
        assert keys[..i + 1][..i] == keys[..i];
        var key := keys[i];
        ghost var before := r;
        r := r + "Key:" + key + "\n";
        r := r + "Start Line:" + IntToString(entries[key].startLine) + "\n";
        r := r + "End Line:" + IntToString(entries[key].endLine) + "\n";
        AppendEntry(before, key, entries[key]);
        SeqAssoc3(head, Describe(keys[..i], entries), Entry(key, entries[key]));
      }
      assert keys[..|keys|] == keys;
    }
  }

  /** The description of a file: its name, a line feed and the blocks. */
  function Description(name: string, m: SimMap): string
    requires m.Valid()
  {
    name + "\n" + Describe(m.keys, m.entries)
  }

  /** With nothing recorded, the description is the name and a line feed. */
  lemma DescriptionFresh(name: string)
    ensures Description(name, Empty()) == name + "\n"
  {
  }

  /** Adding a new id appends its block to the description; re-adding an
      existing id rewrites its block in place. */
  lemma DescribePut(m: SimMap, key: string, r: LineRange)
    requires m.Valid()
    ensures var m' := Put(m, key, r);
      && (key !in m.entries ==>
            Describe(m'.keys, m'.entries) == Describe(m.keys, m.entries) + Entry(key, r))
      && (key in m.entries ==> m'.keys == m.keys)
  {
    var m' := Put(m, key, r);
    if key !in m.entries {
      DescribeAgree(m.keys, m.entries, m'.entries);
      DescribeAppend(m.keys, key, m'.entries);
    }
  }

  lemma FileTestNumerals()
    ensures IntToString(7) == "7" && IntToString(10) == "10"
    ensures IntToString(11) == "11" && IntToString(12) == "12"
  {
    assert IntToString(10) == NatToString(1) + [Digit(0)];
    assert IntToString(11) == NatToString(1) + [Digit(1)];
    assert IntToString(12) == NatToString(1) + [Digit(2)];
  }

  lemma FileTestFirstEntry()
    ensures Entry("asdf", LineRange(7, 10)) == "Key:asdf\n" + "Start Line:7\n" + "End Line:10\n"
  {
    FileTestNumerals();
    assert "Key:" + "asdf" + "\n" == "Key:asdf\n";
    assert "Start Line:" + "7" + "\n" == "Start Line:7\n";
    assert "End Line:" + "10" + "\n" == "End Line:10\n";
  }

  lemma FileTestSecondEntry()
    ensures Entry("qwerty", LineRange(11, 12)) == "Key:qwerty\n" + "Start Line:11\n" + "End Line:12\n"
  {
    FileTestNumerals();
    assert "Key:" + "qwerty" + "\n" == "Key:qwerty\n";
    assert "Start Line:" + "11" + "\n" == "Start Line:11\n";
    assert "End Line:" + "12" + "\n" == "End Line:12\n";
  }

  /** The blocks of two keys, one after the other. */
  lemma DescribeTwo(k1: string, k2: string, entries: map<string, LineRange>)
    requires k1 in entries && k2 in entries
    ensures Describe([k1, k2], entries) == Entry(k1, entries[k1]) + Entry(k2, entries[k2])
  {
    assert [k1, k2][..1] == [k1] && [k1][..0] == [];
    assert Describe([k1], entries) == "" + Entry(k1, entries[k1]);
    assert "" + Entry(k1, entries[k1]) == Entry(k1, entries[k1]);
  }

  lemma FileTestBlocks()
    ensures var m := Put(Put(Empty(), "asdf", LineRange(7, 10)), "qwerty", LineRange(11, 12));
      Describe(m.keys, m.entries) == Entry("asdf", LineRange(7, 10)) + Entry("qwerty", LineRange(11, 12))
  {
    var m := Put(Put(Empty(), "asdf", LineRange(7, 10)), "qwerty", LineRange(11, 12));
    assert m.keys == ["asdf", "qwerty"];
    DescribeTwo("asdf", "qwerty", m.entries);
  }

  lemma Regroup<T>(n: seq<T>, a1: seq<T>, a2: seq<T>, a3: seq<T>, b1: seq<T>, b2: seq<T>, b3: seq<T>)
    ensures n + (a1 + a2 + a3 + (b1 + b2 + b3)) == n + a1 + a2 + a3 + b1 + b2 + b3
  {
  }

  /** The text the file test expects, line by line, after recording "asdf" on
      lines 7-10 and then "qwerty" on lines 11-12. */
  lemma FileTestDescription()
    ensures Description("./tests/testFile1.js", Put(Put(Empty(), "asdf", LineRange(7, 10)), "qwerty", LineRange(11, 12)))
      == "./tests/testFile1.js\n"
       + "Key:asdf\n" + "Start Line:7\n" + "End Line:10\n"
       + "Key:qwerty\n" + "Start Line:11\n" + "End Line:12\n"
  {
    FileTestBlocks();
    FileTestFirstEntry();
    FileTestSecondEntry();
    assert "./tests/testFile1.js" + "\n" == "./tests/testFile1.js\n";
    Regroup("./tests/testFile1.js\n", "Key:asdf\n", "Start Line:7\n", "End Line:10\n",
            "Key:qwerty\n", "Start Line:11\n", "End Line:12\n");
  }
}
