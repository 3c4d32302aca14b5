/** The word histogram: chunking, per-thread counting, per-node merge and cross-node merge. */
module Histogram {
  import opened UserBucket
  import opened HashTable
  import Barrier

  /** A line of the book is the sequence of its words. */
  type Line = seq<Text>

  function Join<T>(parts: seq<seq<T>>): seq<T> {
    if parts == [] then [] else Join(parts[..|parts| - 1]) + parts[|parts| - 1]
  }

  /** The words of a file, line by line. */
  function WordsOfLines(lines: seq<Line>): seq<Text> {
    Join(lines)
  }

  lemma {:induction false} JoinConcat<T>(a: seq<seq<T>>, b: seq<seq<T>>)
    ensures Join(a + b) == Join(a) + Join(b)
    decreases |b|
  {
    if b == [] {
      assert a + b == a;
    } else {
      var b', x := b[..|b| - 1], b[|b| - 1];
      assert (a + b)[..|a + b| - 1] == a + b' && (a + b)[|a + b| - 1] == x;
      JoinConcat(a, b');
      assert (Join(a) + Join(b')) + x == Join(a) + (Join(b') + x);
    }
  }

  lemma {:induction false} OccurrencesConcat(a: seq<Text>, b: seq<Text>, w: Text)
    ensures Occurrences(a + b, w) == Occurrences(a, w) + Occurrences(b, w)
    decreases |b|
  {
    if b == [] {
      assert a + b == a;
    } else {
      assert (a + b)[..|a + b| - 1] == a + b[..|b| - 1];
      OccurrencesConcat(a, b[..|b| - 1], w);
    }
  }

  function ChunkSize(total: nat, n: nat, i: nat): nat
    requires n > 0
  {
    total / n + (if i < total % n then 1 else 0)
  }

  /** Where chunk i starts. */
  function ChunkStart(total: nat, n: nat, i: nat): nat
    requires n > 0
  {
    i * (total / n) + (if i < total % n then i else total % n)
  }

  lemma Times(a: nat, b: nat, q: nat)
    requires a <= b
    ensures a * q <= b * q && (a + 1) * q == a * q + q
  {
    if a < b {
      assert b * q == a * q + (b - a) * q;
    }
  }

  lemma ChunkSteps(total: nat, n: nat, i: nat)
    requires n > 0 && i < n
    ensures ChunkStart(total, n, i + 1) == ChunkStart(total, n, i) + ChunkSize(total, n, i)
    ensures ChunkStart(total, n, i + 1) <= ChunkStart(total, n, n) == total
  {
    var q, r := total / n, total % n;
    assert total == n * q + r;
    Times(i, n, q);
    Times(i + 1, n, q);
  }

  /** `process_file`: sizes first, then the lines dealt out in order; nothing is lost, duplicated or
      reordered, and the sizes differ by at most one. */
  method SplitLines(lines: seq<Line>, n: nat) returns (chunks: seq<seq<Line>>)
    requires n > 0
    ensures |chunks| == n && Join(chunks) == lines
    ensures forall i, j :: 0 <= i <= j < n ==> |chunks[j]| <= |chunks[i]| <= |chunks[j]| + 1
  {
    var sizes := new nat[n](_ => |lines| / n);
    var rem := |lines| % n;
    var i := 0;
    while i < n && rem > 0
      invariant 0 <= i <= |lines| % n < n && rem == |lines| % n - i
      invariant forall k :: 0 <= k < n ==> sizes[k] == |lines| / n + (if k < i then 1 else 0)
    {
      sizes[i] := sizes[i] + 1;
      i, rem := i + 1, rem - 1;
    }
    var chunkSizes := sizes[..];
    chunks := [];
    var next := 0;
    for c := 0 to n
      invariant |chunks| == c && next == ChunkStart(|lines|, n, c) <= |lines|
      invariant Join(chunks) == lines[..next]
      invariant forall k :: 0 <= k < c ==> |chunks[k]| == ChunkSize(|lines|, n, k)
    {
      ChunkSteps(|lines|, n, c);
      assert chunkSizes[c] == ChunkSize(|lines|, n, c);
      var chunk: seq<Line> := [];
      var start := next;
      while |chunk| < chunkSizes[c] && next < |lines|
        invariant start <= next <= |lines| && |chunk| == next - start <= chunkSizes[c]
        invariant chunk == lines[start..next]
        decreases |lines| - next
      {
        chunk := chunk + [lines[next]];
        next := next + 1;
      }
      assert (chunks + [chunk])[..c] == chunks;
      assert lines[..start] + lines[start..next] == lines[..next];
      chunks := chunks + [chunk];
    }
    ChunkSteps(|lines|, n, n - 1);
    assert lines[..next] == lines;
  }

  /** The table holds these words with the number of their occurrences, all of them positive. */
  ghost predicate Tallies(v: Chains, ws: seq<Text>) {
    forall w :: Get(v, w) == Occurrences(ws, w) && (Has(v, w) <==> Occurrences(ws, w) > 0)
  }

  lemma TalliesNone(v: Chains)
    requires forall w :: Get(v, w) == 0 && !Has(v, w)
    ensures Tallies(v, [])
  {
  }

  lemma TalliesOneMore(v: Chains, ws: seq<Text>, x: Text)
    requires Ok(v) && Tallies(v, ws)
    ensures Tallies(Add(v, x, 1), ws + [x])
  {
    forall w ensures Get(Add(v, x, 1), w) == Occurrences(ws + [x], w)
      ensures Has(Add(v, x, 1), w) <==> Occurrences(ws + [x], w) > 0 {
      AddRefines(v, x, 1, w);
      assert (ws + [x])[..|ws|] == ws;
    }
  }

  /** `phase_one` of one thread: count the words of its file in its own table. */
  method CountWords(ws: seq<Text>, buckets: nat) returns (t: WordTable)
    requires buckets > 0
    ensures fresh(t) && fresh(t.table) && t.Valid() && Tallies(t.View(), ws)
  {
    hide Tallies;
    t := new WordTable(buckets);
    TalliesNone(t.View());
    assert ws[..0] == [];
    for i := 0 to |ws|
      invariant t.Valid() && Tallies(t.View(), ws[..i])
    {
      TalliesOneMore(t.View(), ws[..i], ws[i]);
      assert ws[..i + 1] == ws[..i] + [ws[i]];
      t.Insert(ws[i]);
    }
    assert ws[..|ws|] == ws;
  }

  /** What merging table u into table v must give. */
  ghost predicate IsSum(r: Chains, v: Chains, u: Chains) {
    forall w :: Get(r, w) == Get(v, w) + Get(u, w) && (Has(r, w) <==> Has(v, w) || Has(u, w))
  }

  /** The state in the middle of a merge: the keys in `done` have been added. */
  ghost predicate PartSum(r: Chains, v: Chains, u: Chains, done: seq<Text>) {
    && (forall w :: Get(r, w) == Get(v, w) + (if w in done then Get(u, w) else 0))
    && (forall w :: Has(r, w) <==> Has(v, w) || w in done)
  }

  lemma PartSumStep(r: Chains, v: Chains, u: Chains, done: seq<Text>, k: Text)
    requires Ok(r) && PartSum(r, v, u, done) && k !in done
    ensures PartSum(Add(r, k, Get(u, k)), v, u, done + [k])
  {
    hide Get, Has, Add, Ok;
    forall w ensures Get(Add(r, k, Get(u, k)), w) == Get(v, w) + (if w in done + [k] then Get(u, w) else 0)
      ensures Has(Add(r, k, Get(u, k)), w) <==> Has(v, w) || w in done + [k] {
      AddRefines(r, k, Get(u, k), w);
    }
  }

  lemma PartSumStart(v: Chains, u: Chains)
    ensures PartSum(v, v, u, [])
  {
  }

  lemma PartSumEnd(r: Chains, v: Chains, u: Chains)
    requires Ok(u) && PartSum(r, v, u, Keys(u))
    ensures IsSum(r, v, u)
  {
    forall w ensures Get(r, w) == Get(v, w) + Get(u, w) && (Has(r, w) <==> Has(v, w) || Has(u, w)) {
      KeysAreTheDomain(u, w);
      GetAbsent(u, w);
    }
  }

  /** One merge loop, as in `phase_two` and `single_thread_merge`: every key of `from` goes into `into`. */
  method Merge(into: WordTable, from: WordTable)
    requires into.Valid() && from.Valid() && into.table != from.table
    modifies into.table
    ensures into.Valid() && from.View() == old(from.View())
    ensures IsSum(into.View(), old(into.View()), old(from.View()))
  {
    hide PartSum, IsSum, Add, Get, Has;
    ghost var v, u := into.View(), from.View();
    var keys := from.GetAllKeys();
    KeysAreTheDomain(u, []);
    PartSumStart(v, u);
    assert keys[..0] == [];
    for i := 0 to |keys|
      invariant into.Valid() && from.Valid() && from.View() == u
      invariant PartSum(into.View(), v, u, keys[..i])
    {
      var key := keys[i];
      var count := from.GetCount(key);
      PartSumStep(into.View(), v, u, keys[..i], key);
      assert keys[..i + 1] == keys[..i] + [key];
      var found := into.Exists(key);
      if found {
        var _ := into.UpdateCount(key, count);
      } else {
        into.InsertCount(key, count);
      }
    }
    assert keys[..|keys|] == keys;
    PartSumEnd(into.View(), v, u);
  }

  lemma SumTallies(r: Chains, v: Chains, u: Chains, a: seq<Text>, b: seq<Text>)
    requires Tallies(v, a) && Tallies(u, b) && IsSum(r, v, u)
    ensures Tallies(r, a + b)
  {
    forall w ensures Get(r, w) == Occurrences(a + b, w) && (Has(r, w) <==> Occurrences(a + b, w) > 0) {
      OccurrencesConcat(a, b, w);
    }
  }

  /** `phase_two` on one node: thread 0 merges all tables of the node into the first. */
  method MergeNode(chunks: seq<seq<Line>>, buckets: nat) returns (t: WordTable)
    requires buckets > 0 && |chunks| > 0
    ensures fresh(t) && fresh(t.table) && t.Valid() && Tallies(t.View(), Join(Join(chunks)))
  {
    hide Tallies, IsSum;
    var tables: seq<WordTable> := PhaseOne(chunks, buckets);
    t := tables[0];
    assert chunks[..1] == [chunks[0]] && Join([chunks[0]]) == chunks[0];
    for i := 1 to |tables|
      invariant t == tables[0] && t.Valid() && Tallies(t.View(), Join(Join(chunks[..i])))
      invariant forall k :: 0 <= k < |tables| ==> fresh(tables[k].table)
      invariant forall k :: i <= k < |tables| ==> tables[k].Valid() && Tallies(tables[k].View(), Join(chunks[k]))
    {
      ghost var before, u := t.View(), tables[i].View();
      Merge(t, tables[i]);
      SumTallies(t.View(), before, u, Join(Join(chunks[..i])), Join(chunks[i]));
      assert chunks[..i + 1][..i] == chunks[..i];
      JoinConcat(Join(chunks[..i]), chunks[i]);
    }
    assert chunks[..|chunks|] == chunks;
  }

  /** `phase_one` on one node: every thread counts its own chunk in its own table. */
  method PhaseOne(chunks: seq<seq<Line>>, buckets: nat) returns (tables: seq<WordTable>)
    requires buckets > 0
    ensures |tables| == |chunks|
    ensures forall k :: 0 <= k < |tables| ==> fresh(tables[k]) && fresh(tables[k].table)
    ensures forall k :: 0 <= k < |tables| ==> tables[k].Valid() && Tallies(tables[k].View(), Join(chunks[k]))
    ensures forall i, j :: 0 <= i < j < |tables| ==> tables[i].table != tables[j].table
  {
    hide Tallies;
    tables := [];
    for c := 0 to |chunks|
      invariant |tables| == c
      invariant forall k :: 0 <= k < c ==> fresh(tables[k]) && fresh(tables[k].table)
      invariant forall k :: 0 <= k < c ==> tables[k].Valid() && Tallies(tables[k].View(), Join(chunks[k]))
      invariant forall i, j :: 0 <= i < j < c ==> tables[i].table != tables[j].table
    {
      var t := CountWords(WordsOfLines(chunks[c]), buckets);
      tables := tables + [t];
    }
  }

  /** What the threads of both nodes leave after `phase_two`: a table on each node, or nothing, because
      no thread was started or none got through the first barrier. */
  datatype NodeTables = Nothing | Tables(first: WordTable, second: WordTable)

  /** The chunks of the two nodes, in order, are the whole book. */
  lemma CountsWholeBook(lines: seq<Line>, chunks: seq<seq<Line>>, half: nat)
    requires Join(chunks) == lines && |chunks| == 2 * half
    ensures Join(Join(chunks[..half])) + Join(Join(chunks[half..])) == WordsOfLines(lines)
  {
    assert chunks[..half] + chunks[half..] == chunks;
    JoinConcat(chunks[..half], chunks[half..]);
    JoinConcat(Join(chunks[..half]), Join(chunks[half..]));
  }

  /** From the input to the end of `phase_two`: there are tables exactly if the number of threads is even,
      and then they tally two texts that make up the whole book. */
  method PhaseTwo(lines: seq<Line>, threads: nat, buckets: nat)
    returns (r: NodeTables, ghost a: seq<Text>, ghost b: seq<Text>)
    requires threads > 0 && buckets > 0
    ensures r.Tables? <==> threads % 2 == 0
    ensures r.Tables? ==>
              && fresh(r.first.table) && fresh(r.second.table) && r.first.table != r.second.table
              && r.first.Valid() && r.second.Valid()
              && Tallies(r.first.View(), a) && Tallies(r.second.View(), b) && a + b == WordsOfLines(lines)
  {
    hide Tallies;
    a, b := [], [];
    var chunks := SplitLines(lines, threads);
    var started := Barrier.Meet(threads);
    if |started| == 0 || !started[0].Past? {
      return Nothing, a, b;
    }
    var half := threads / 2;
    var first := MergeNode(chunks[..half], buckets);
    var second := MergeNode(chunks[half..], buckets);
    a, b := Join(Join(chunks[..half])), Join(Join(chunks[half..]));
    CountsWholeBook(lines, chunks, half);
    r := Tables(first, second);
  }

  /** The whole SINGLE_THREAD program: it produces a table exactly if the number of threads is even, and the
      table is the word count of the whole book. */
  method Pipeline(lines: seq<Line>, threads: nat, buckets: nat) returns (done: bool, t: WordTable?)
    requires threads > 0 && buckets > 0
    ensures done <==> threads % 2 == 0
    ensures done ==> t != null && t.Valid() && Tallies(t.View(), WordsOfLines(lines))
  {
    hide Tallies, IsSum;
    ghost var a, b;
    var r;
    r, a, b := PhaseTwo(lines, threads, buckets);
    if r.Nothing? {
      return false, null;
    }
    ghost var v := r.first.View();
    Merge(r.first, r.second);
    SumTallies(r.first.View(), v, r.second.View(), a, b);
    return true, r.first;
  }
}
