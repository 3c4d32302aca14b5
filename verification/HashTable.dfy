/** The chained hash table of the word histogram. */
module HashTable {
  import opened UserBucket
  import Numbers

  const WORD_64 := 0x1_0000_0000_0000_0000

  /** djb2 over the characters, in 64-bit unsigned arithmetic. */
  function Djb2(key: Text): (h: int)
    ensures 0 <= h < WORD_64
  {
    if key == [] then 5381 else (Djb2(key[..|key| - 1]) * 33 + key[|key| - 1]) % WORD_64
  }

  /** The hash of the word "the", whose characters are 116, 104 and 101. */
  lemma Djb2OfThe()
    ensures Djb2([116, 104, 101]) == 193506854
  {
    assert [116, 104, 101][..2] == [116, 104] && [116, 104][..1] == [116] && [116][..0] == [];
    assert Djb2([116]) == 177689 && Djb2([116, 104]) == 5863841;
  }

  function Slot(key: Text, buckets: int): (i: int)
    requires buckets > 0
    ensures 0 <= i < buckets && (Djb2(key) - i) % buckets == 0
  {
    Numbers.Whole(Djb2(key), buckets);
    Djb2(key) % buckets
  }

  type Chains = seq<seq<Entry>>

  /** `insert(word, count)` on one chain: add to the word's count, or put a new node in front. */
  function AddedN(es: seq<Entry>, w: Text, n: int): seq<Entry> {
    var i := Find(es, w);
    if i < |es| then es[i := Entry(w, es[i].count + n)] else [Entry(w, n)] + es
  }

  function Dropped(es: seq<Entry>, w: Text): seq<Entry> {
    var i := Find(es, w);
    if i < |es| then es[..i] + es[i + 1..] else es
  }

  /** Every word is in one node only, and in the chain of its hash. */
  ghost predicate Ok(v: Chains) {
    && |v| > 0
    && (forall b :: 0 <= b < |v| ==> Unique(v[b]))
    && (forall b, i :: 0 <= b < |v| && 0 <= i < |v[b]| ==> Slot(v[b][i].word, |v|) == b)
  }

  ghost function Chain(v: Chains, w: Text): seq<Entry> {
    if |v| == 0 then [] else v[Slot(w, |v|)]
  }

  ghost function Get(v: Chains, w: Text): int {
    Count(Chain(v, w), w)
  }

  ghost predicate Has(v: Chains, w: Text) {
    Find(Chain(v, w), w) < |Chain(v, w)|
  }

  ghost function Add(v: Chains, w: Text, n: int): Chains {
    if |v| == 0 then v else v[Slot(w, |v|) := AddedN(Chain(v, w), w, n)]
  }

  ghost function Without(v: Chains, w: Text): Chains {
    if |v| == 0 then v else v[Slot(w, |v|) := Dropped(Chain(v, w), w)]
  }

  lemma AddedNChain(es: seq<Entry>, v: Text, n: int, w: Text)
    requires Unique(es)
    ensures Unique(AddedN(es, v, n))
    ensures Count(AddedN(es, v, n), w) == Count(es, w) + (if v == w then n else 0)
    ensures Find(AddedN(es, v, n), w) < |AddedN(es, v, n)| <==> Find(es, w) < |es| || v == w
  {
    var k, es', i := Find(es, v), AddedN(es, v, n), Find(es, w);
    if k < |es| {
      assert forall j :: 0 <= j < |es| ==> es'[j].word == es[j].word;
      if i < |es| {
        FindUnique(es', w, i);
      }
    } else if v == w {
      FindUnique(es', w, 0);
    } else if i < |es| {
      assert es'[i + 1] == es[i];
      FindUnique(es', w, i + 1);
    } else {
      forall j | 0 <= j < |es'| ensures es'[j].word != w {
        assert j > 0 ==> es'[j] == es[j - 1];
      }
    }
  }

  lemma DroppedAt(es: seq<Entry>, v: Text, j: nat)
    requires Find(es, v) < |es| && j < |Dropped(es, v)|
    ensures Dropped(es, v)[j] == es[if j < Find(es, v) then j else j + 1]
  {
  }

  lemma DroppedUnique(es: seq<Entry>, v: Text)
    requires Unique(es)
    ensures Unique(Dropped(es, v))
    ensures forall j :: 0 <= j < |Dropped(es, v)| ==> Dropped(es, v)[j].word != v
  {
    if Find(es, v) < |es| {
      var es' := Dropped(es, v);
      forall j | 0 <= j < |es'| ensures es'[j].word != v && es'[j] == es[if j < Find(es, v) then j else j + 1] {
        DroppedAt(es, v, j);
      }
      hide Dropped;
    }
  }

  lemma DroppedChain(es: seq<Entry>, v: Text, w: Text)
    requires Unique(es)
    ensures Unique(Dropped(es, v))
    ensures Count(Dropped(es, v), w) == if v == w then 0 else Count(es, w)
    ensures Find(Dropped(es, v), w) < |Dropped(es, v)| <==> Find(es, w) < |es| && v != w
  {
    DroppedUnique(es, v);
    var k, es', i := Find(es, v), Dropped(es, v), Find(es, w);
    if k < |es| && v != w {
      if i < |es| {
        var j := if i < k then i else i - 1;
        DroppedAt(es, v, j);
        FindUnique(es', w, j);
      } else {
        forall j | 0 <= j < |es'| ensures es'[j].word != w {
          DroppedAt(es, v, j);
        }
      }
    }
  }

  /** Adding changes the count of that word only, and keeps the table well formed. */
  lemma AddRefines(v: Chains, w: Text, n: int, x: Text)
    requires Ok(v)
    ensures Ok(Add(v, w, n)) && |Add(v, w, n)| == |v|
    ensures Get(Add(v, w, n), x) == Get(v, x) + (if x == w then n else 0)
    ensures Has(Add(v, w, n), x) <==> Has(v, x) || x == w
  {
    AddedNChain(Chain(v, w), w, n, x);
  }

  lemma DroppedHome(v: Chains, w: Text)
    requires Ok(v)
    ensures var d := Dropped(Chain(v, w), w);
            forall i :: 0 <= i < |d| ==> Slot(d[i].word, |v|) == Slot(w, |v|)
  {
    hide Slot;
  }

  lemma RemoveRefines(v: Chains, w: Text, x: Text)
    requires Ok(v)
    ensures Ok(Without(v, w)) && |Without(v, w)| == |v|
    ensures Get(Without(v, w), x) == if x == w then 0 else Get(v, x)
    ensures Has(Without(v, w), x) <==> Has(v, x) && x != w
  {
    hide Slot, Unique, Count, Find;
    DroppedHome(v, w);
    DroppedChain(Chain(v, w), w, x);
  }

  function Words(es: seq<Entry>): (ws: seq<Text>)
    ensures |ws| == |es| && forall i :: 0 <= i < |ws| ==> ws[i] == es[i].word
  {
    if es == [] then [] else [es[0].word] + Words(es[1..])
  }

  /** The words of the first n chains, chain by chain. */
  function KeysUpTo(v: Chains, n: nat): seq<Text>
    requires n <= |v|
  {
    if n == 0 then [] else KeysUpTo(v, n - 1) + Words(v[n - 1])
  }

  function Keys(v: Chains): seq<Text> {
    KeysUpTo(v, |v|)
  }

  predicate NoDup(ws: seq<Text>) {
    forall i, j :: 0 <= i < j < |ws| ==> ws[i] != ws[j]
  }

  lemma WordsOf(es: seq<Entry>, w: Text)
    requires Unique(es)
    ensures NoDup(Words(es))
    ensures w in Words(es) <==> Find(es, w) < |es|
  {
    assert Find(es, w) < |es| ==> Words(es)[Find(es, w)] == w;
    if w in Words(es) {
      var j :| 0 <= j < |Words(es)| && Words(es)[j] == w;
      FindUnique(es, w, j);
    }
  }

  lemma NoDupConcat(a: seq<Text>, b: seq<Text>)
    requires NoDup(a) && NoDup(b) && forall j :: 0 <= j < |b| ==> b[j] !in a
    ensures NoDup(a + b)
  {
  }

  lemma NoDupNone()
    ensures NoDup([])
  {
  }

  lemma ChainWords(v: Chains, n: nat, w: Text)
    requires Ok(v) && n < |v|
    ensures NoDup(Words(v[n])) && (w in Words(v[n]) <==> Has(v, w) && Slot(w, |v|) == n)
  {
    hide Slot;
    WordsOf(v[n], w);
  }

  lemma {:induction false} KeysPrefix(v: Chains, n: nat, w: Text)
    requires Ok(v) && n <= |v|
    ensures NoDup(KeysUpTo(v, n))
    ensures w in KeysUpTo(v, n) <==> Has(v, w) && Slot(w, |v|) < n
  {
    hide NoDup, Ok, Has, Words, Slot;
    if n == 0 {
      NoDupNone();
    } else {
      var a, b := KeysUpTo(v, n - 1), Words(v[n - 1]);
      KeysPrefix(v, n - 1, w);
      ChainWords(v, n - 1, w);
      forall j | 0 <= j < |b| ensures b[j] !in a {
        KeysPrefix(v, n - 1, b[j]);
        ChainWords(v, n - 1, b[j]);
      }
      NoDupConcat(a, b);
      assert w in a + b <==> w in a || w in b;
    }
  }

  /** `getAllKeys` lists exactly the words of the table, each once. */
  lemma KeysAreTheDomain(v: Chains, w: Text)
    requires Ok(v)
    ensures NoDup(Keys(v))
    ensures w in Keys(v) <==> Has(v, w)
  {
    KeysPrefix(v, |v|, w);
  }

  /** The table as a map from words to counts. */
  ghost function AsMap(v: Chains): map<Text, int> {
    map w | w in Keys(v) :: Get(v, w)
  }

  lemma AddPoint(v: Chains, w: Text, n: int, x: Text)
    requires Ok(v)
    ensures x in Keys(Add(v, w, n)) <==> x in Keys(v) || x == w
    ensures Get(Add(v, w, n), x) == Get(v, x) + (if x == w then n else 0)
  {
    AddRefines(v, w, n, x);
    KeysAreTheDomain(v, x);
    KeysAreTheDomain(Add(v, w, n), x);
  }

  lemma RemovePoint(v: Chains, w: Text, x: Text)
    requires Ok(v)
    ensures x in Keys(Without(v, w)) <==> x in Keys(v) && x != w
    ensures x != w ==> Get(Without(v, w), x) == Get(v, x)
  {
    RemoveRefines(v, w, x);
    KeysAreTheDomain(v, x);
    KeysAreTheDomain(Without(v, w), x);
  }

  /** The table refines a map: adding, removing and looking up are map operations. */
  lemma TableIsMap(v: Chains, w: Text, n: int)
    requires Ok(v)
    ensures AsMap(Add(v, w, n)) == AsMap(v)[w := Get(v, w) + n]
    ensures AsMap(Without(v, w)) == AsMap(v) - {w}
    ensures Has(v, w) <==> w in AsMap(v)
    ensures Get(v, w) == if w in AsMap(v) then AsMap(v)[w] else 0
  {
    hide Keys, Add, Without, Ok, Chain, Get, Has;
    KeysAreTheDomain(v, w);
    GetAbsent(v, w);
    forall x ensures x in Keys(Add(v, w, n)) <==> x in Keys(v) || x == w
      ensures Get(Add(v, w, n), x) == Get(v, x) + (if x == w then n else 0) {
      AddPoint(v, w, n, x);
    }
    forall x ensures x in Keys(Without(v, w)) <==> x in Keys(v) && x != w
      ensures x != w ==> Get(Without(v, w), x) == Get(v, x) {
      RemovePoint(v, w, x);
    }
  }

  lemma GetAbsent(v: Chains, w: Text)
    ensures !Has(v, w) ==> Get(v, w) == 0
  {
  }

  /** The table object: a fixed array of chains. */
  class WordTable {
    const table: array<seq<Entry>>

    ghost predicate Valid()
      reads this, table
    {
      Ok(table[..])
    }

    ghost function View(): Chains
      reads this, table
    {
      table[..]
    }

    constructor (buckets: nat)
      requires buckets > 0
      ensures fresh(table) && Valid() && forall w :: Get(View(), w) == 0 && !Has(View(), w)
    {
      table := new seq<Entry>[buckets](_ => []);
    }

    method Hash(key: Text) returns (i: nat)
      requires Valid()
      ensures i < table.Length && i == Slot(key, |View()|)
    {
      var h := 5381;
      for c := 0 to |key|
        invariant h == Djb2(key[..c])
      {
        assert key[..c + 1][..c] == key[..c];
        h := (h * 33 + key[c]) % WORD_64;
      }
      assert key[..|key|] == key;
      i := h % table.Length;
    }

    /** The chain walk that every operation starts with. */
    method Locate(word: Text) returns (b: nat, i: nat)
      requires Valid()
      ensures b < table.Length && b == Slot(word, |View()|)
      ensures i == Find(Chain(View(), word), word)
    {
      b := Hash(word);
      var chain := table[b];
      assert chain == Chain(View(), word);
      i := 0;
      while i < |chain| && chain[i].word != word
        invariant i <= |chain|
        invariant forall j :: 0 <= j < i ==> chain[j].word != word
      {
        i := i + 1;
      }
    }

    method InsertCount(word: Text, count: int)
      requires Valid()
      modifies table
      ensures Valid() && View() == Add(old(View()), word, count)
    {
      hide Ok, Slot, Get, Has;
      ghost var v := View();
      var b, i := Locate(word);
      AddRefines(v, word, count, word);
      table[b] := if i < |table[b]| then table[b][i := Entry(word, table[b][i].count + count)]
      else [Entry(word, count)] + table[b];
      assert View() == v[b := AddedN(v[b], word, count)];
    }

    method Insert(word: Text)
      requires Valid()
      modifies table
      ensures Valid() && View() == Add(old(View()), word, 1)
    {
      InsertCount(word, 1);
    }

    method UpdateCount(word: Text, count: int) returns (found: bool)
      requires Valid()
      modifies table
      ensures found <==> old(Has(View(), word))
      ensures Valid() && View() == if found then Add(old(View()), word, count) else old(View())
    {
      hide Ok, Slot, Get;
      ghost var v := View();
      var b, i := Locate(word);
      AddRefines(v, word, count, word);
      found := i < |table[b]|;
      if found {
        table[b] := table[b][i := Entry(word, table[b][i].count + count)];
        assert View() == v[b := AddedN(v[b], word, count)];
      }
    }

    method Remove(word: Text)
      requires Valid()
      modifies table
      ensures Valid() && View() == Without(old(View()), word)
    {
      hide Ok, Slot, Get, Has;
      ghost var v := View();
      var b, i := Locate(word);
      RemoveRefines(v, word, word);
      if i < |table[b]| {
        table[b] := table[b][..i] + table[b][i + 1..];
      }
      assert View() == v[b := Dropped(v[b], word)];
    }

    method GetCount(word: Text) returns (c: int)
      requires Valid()
      ensures c == Get(View(), word)
    {
      var b, i := Locate(word);
      return if i < |table[b]| then table[b][i].count else 0;
    }

    method Exists(word: Text) returns (found: bool)
      requires Valid()
      ensures found <==> Has(View(), word)
    {
      var b, i := Locate(word);
      return i < |table[b]|;
    }

    method GetAllKeys() returns (keys: seq<Text>)
      requires Valid()
      ensures keys == Keys(View())
    {
      hide Ok;
      keys := [];
      for b := 0 to table.Length
        invariant keys == KeysUpTo(View(), b)
      {
        keys := WordsOnto(keys, table[b]);
      }
    }

    /** The walk of `getAllKeys` along one chain. */
    method WordsOnto(keys: seq<Text>, chain: seq<Entry>) returns (r: seq<Text>)
      ensures r == keys + Words(chain)
    {
      r := keys;
      for i := 0 to |chain|
        invariant r == keys + Words(chain)[..i]
      {
        assert Words(chain)[..i + 1] == Words(chain)[..i] + [chain[i].word];
        r := r + [chain[i].word];
      }
      assert Words(chain)[..|chain|] == Words(chain);
    }
  }
}
