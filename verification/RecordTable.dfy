/** The chained hash table of the YCSB benchmark. */
module RecordTable {
  import opened KeyHash
  import opened Options
  import Numbers

  datatype Record = Record(key: Word, value: seq<bv8>)

  type Chains = seq<seq<Record>>

  function Slot(mixing: bool, k: Word, buckets: nat): (i: nat)
    requires buckets > 0
    ensures i < buckets && (HashOf(mixing, k) - i) % buckets == 0
  {
    Numbers.Whole(HashOf(mixing, k), buckets);
    HashOf(mixing, k) % buckets
  }

  /** The position of the key in a chain, or the chain's length. */
  function Find(rs: seq<Record>, k: Word): (i: nat)
    ensures i <= |rs| && (i < |rs| ==> rs[i].key == k)
    ensures forall j :: 0 <= j < i ==> rs[j].key != k
  {
    if rs == [] || rs[0].key == k then 0 else 1 + Find(rs[1..], k)
  }

  ghost predicate Unique(rs: seq<Record>) {
    forall i, j :: 0 <= i < j < |rs| ==> rs[i].key != rs[j].key
  }

  ghost predicate AtHome(rs: seq<Record>, mixing: bool, buckets: nat, b: nat) {
    buckets > 0 && forall i :: 0 <= i < |rs| ==> Slot(mixing, rs[i].key, buckets) == b
  }

  /** Every key is in one node only, and in the chain of its hash. */
  ghost predicate Ok(v: Chains, mixing: bool) {
    |v| > 0 && forall b :: 0 <= b < |v| ==> Unique(v[b]) && AtHome(v[b], mixing, |v|, b)
  }

  /** The table as a partial function. */
  ghost function Lookup(v: Chains, mixing: bool, k: Word): Option<seq<bv8>>
    requires |v| > 0
  {
    var rs := v[Slot(mixing, k, |v|)];
    if Find(rs, k) < |rs| then Some(rs[Find(rs, k)].value) else None
  }

  function PutIn(rs: seq<Record>, k: Word, value: seq<bv8>): seq<Record> {
    if Find(rs, k) < |rs| then rs[Find(rs, k) := Record(k, value)] else [Record(k, value)] + rs
  }

  ghost function Put(v: Chains, mixing: bool, k: Word, value: seq<bv8>): Chains
    requires |v| > 0
  {
    var b := Slot(mixing, k, |v|);
    v[b := PutIn(v[b], k, value)]
  }

  lemma FindUnique(rs: seq<Record>, k: Word, i: nat)
    requires Unique(rs) && i < |rs| && rs[i].key == k
    ensures Find(rs, k) == i
  {
  }

  lemma PutInChain(rs: seq<Record>, k: Word, value: seq<bv8>, x: Word)
    requires Unique(rs)
    ensures var rs' := PutIn(rs, k, value);
            && Unique(rs')
            && (Find(rs', x) < |rs'| <==> x == k || Find(rs, x) < |rs|)
            && (Find(rs', x) < |rs'| ==> rs'[Find(rs', x)].value == if x == k then value else rs[Find(rs, x)].value)
  {
    var n, rs', i := Find(rs, k), PutIn(rs, k, value), Find(rs, x);
    if n < |rs| {
      assert forall j :: 0 <= j < |rs| ==> rs'[j].key == rs[j].key;
      if i < |rs| {
        FindUnique(rs', x, i);
      }
    } else {
      assert forall j :: 0 < j < |rs'| ==> rs'[j] == rs[j - 1];
      if x == k {
        FindUnique(rs', x, 0);
      } else if i < |rs| {
        assert rs'[i + 1] == rs[i];
        FindUnique(rs', x, i + 1);
      }
    }
  }

  lemma PutInHome(rs: seq<Record>, mixing: bool, buckets: nat, k: Word, value: seq<bv8>)
    requires buckets > 0 && AtHome(rs, mixing, buckets, Slot(mixing, k, buckets))
    ensures AtHome(PutIn(rs, k, value), mixing, buckets, Slot(mixing, k, buckets))
  {
    hide Slot;
    var rs' := PutIn(rs, k, value);
    forall j | 0 <= j < |rs'| ensures rs'[j].key == k || rs'[j] in rs {
    }
  }

  /** Putting a record changes that key only, and keeps the table well formed. */
  lemma PutRefines(v: Chains, mixing: bool, k: Word, value: seq<bv8>, x: Word)
    requires Ok(v, mixing)
    ensures var v' := Put(v, mixing, k, value);
            && Ok(v', mixing) && |v'| == |v|
            && Lookup(v', mixing, x) == if x == k then Some(value) else Lookup(v, mixing, x)
  {
    hide Slot, Unique, AtHome, PutIn, Find;
    PutInHome(v[Slot(mixing, k, |v|)], mixing, |v|, k, value);
    PutInChain(v[Slot(mixing, k, |v|)], k, value, x);
  }

  lemma PutEverywhere(v: Chains, mixing: bool, k: Word, value: seq<bv8>)
    requires Ok(v, mixing)
    ensures Ok(Put(v, mixing, k, value), mixing)
    ensures forall x: Word :: Lookup(Put(v, mixing, k, value), mixing, x) == if x == k then Some(value) else Lookup(v, mixing, x)
  {
    PutRefines(v, mixing, k, value, k);
    forall x: Word ensures Lookup(Put(v, mixing, k, value), mixing, x) == if x == k then Some(value) else Lookup(v, mixing, x) {
      PutRefines(v, mixing, k, value, x);
    }
  }

  /** The new payload of a key. */
  function Fresh(k: Word, size: nat): (value: seq<bv8>)
    ensures |value| == size && forall i :: 0 <= i < size ==> value[i] == (k % 256) as bv8
  {
    seq(size, _ => (k % 256) as bv8)
  }

  /** A byte of the payload, mixed with the one written before it and rotated. */
  function Turned(before: bv8, v: bv8): bv8 {
    ((before ^ v) << 1) | ((before ^ v) >> 7)
  }

  function Unturned(before: bv8, r: bv8): bv8 {
    ((r >> 1) | (r << 7)) ^ before
  }

  lemma TurnRoundTrip(before: bv8, v: bv8)
    ensures Unturned(before, Turned(before, v)) == v
  {
  }

  /** The bits of y moved up by one place, the topmost to the bottom. */
  predicate IsRotation(r: bv8, y: bv8) {
    r & 1 == y >> 7 && r >> 1 == y & 0x7f
  }

  lemma TurnedRotates(before: bv8, v: bv8)
    ensures IsRotation(Turned(before, v), before ^ v)
  {
  }

  function LastOr(r: seq<bv8>, x: bv8): bv8 {
    if r == [] then x else r[|r| - 1]
  }

  /** The rewrite of a payload. */
  function Scrambled(x: bv8, value: seq<bv8>): (r: seq<bv8>)
    ensures |r| == |value|
  {
    if value == [] then []
    else
      var rest := Scrambled(x, value[..|value| - 1]);
      rest + [Turned(LastOr(rest, x), value[|value| - 1])]
  }

  /** Each byte is the rotation of the old byte mixed with the one written before it. */
  lemma {:induction false} ScrambledRotates(x: bv8, value: seq<bv8>, i: nat)
    requires i < |value|
    ensures IsRotation(Scrambled(x, value)[i], LastOr(Scrambled(x, value)[..i], x) ^ value[i])
    decreases |value|
  {
    hide Turned, IsRotation;
    var n := |value| - 1;
    var rest := Scrambled(x, value[..n]);
    assert Scrambled(x, value)[..i] == rest[..i];
    if i < n {
      ScrambledRotates(x, value[..n], i);
    } else {
      TurnedRotates(LastOr(rest, x), value[n]);
    }
  }

  function Unscrambled(x: bv8, r: seq<bv8>): (value: seq<bv8>)
    ensures |value| == |r|
  {
    if r == [] then []
    else
      var rest := r[..|r| - 1];
      Unscrambled(x, rest) + [Unturned(LastOr(rest, x), r[|r| - 1])]
  }

  /** The rewrite loses nothing. */
  lemma {:induction false} ScrambleRoundTrip(x: bv8, value: seq<bv8>)
    ensures Unscrambled(x, Scrambled(x, value)) == value
  {
    hide Turned, Unturned;
    if value != [] {
      var init := value[..|value| - 1];
      ScrambleRoundTrip(x, init);
      var rest := Scrambled(x, init);
      assert Scrambled(x, value)[..|rest|] == rest;
      TurnRoundTrip(LastOr(rest, x), value[|value| - 1]);
    }
  }

  class RecordTable {
    const table: array<seq<Record>>
    const mixing: bool
    const size: nat

    ghost predicate Valid()
      reads this, table
    {
      && Ok(table[..], mixing)
      && forall b, i :: 0 <= b < table.Length && 0 <= i < |table[b]| ==> |table[b][i].value| == size
    }

    ghost function At(k: Word): Option<seq<bv8>>
      requires Valid()
      reads this, table
    {
      Lookup(table[..], mixing, k)
    }

    constructor (buckets: nat, mixing: bool, size: nat)
      requires buckets > 0
      ensures fresh(table) && Valid() && this.mixing == mixing && this.size == size
      ensures forall k: Word :: At(k) == None
    {
      this.mixing, this.size := mixing, size;
      table := new seq<Record>[buckets](_ => []);
    }

    /** The chain walk that every operation starts with. */
    method Locate(key: Word) returns (b: nat, i: nat)
      requires Valid()
      ensures b < table.Length && b == Slot(mixing, key, table.Length) && i == Find(table[b], key)
    {
      b := Slot(mixing, key, table.Length);
      i := 0;
      while i < |table[b]| && table[b][i].key != key
        invariant i <= |table[b]|
        invariant forall j :: 0 <= j < i ==> table[b][j].key != key
      {
        i := i + 1;
      }
    }

    method Insert(key: Word) returns (isNew: bool)
      requires Valid()
      modifies table
      ensures Valid() && (isNew <==> old(At(key)) == None)
      ensures forall k: Word :: At(k) == if k == key && isNew then Some(Fresh(key, size)) else old(At(k))
    {
      var b, i := Locate(key);
      if i < |table[b]| {
        return false;
      }
      PutEverywhere(table[..], mixing, key, Fresh(key, size));
      table[b] := [Record(key, Fresh(key, size))] + table[b];
      isNew := true;
    }

    method Get(key: Word) returns (found: bool)
      requires Valid()
      ensures found <==> At(key) != None
    {
      var b, i := Locate(key);
      return i < |table[b]|;
    }

    /** The payload is rewritten in place; an absent key is inserted. */
    method Update(key: Word) returns (ok: bool)
      requires Valid()
      modifies table
      ensures Valid() && ok
      ensures forall k: Word :: At(k) == if k != key then old(At(k))
                                         else if old(At(key)) == None then Some(Fresh(key, size))
                                         else Some(Scrambled((key % 256) as bv8, old(At(key)).value))
    {
      var b, i := Locate(key);
      if i == |table[b]| {
        ok := Insert(key);
        return;
      }
      var value := Rewrite((key % 256) as bv8, table[b][i].value);
      PutEverywhere(table[..], mixing, key, value);
      table[b] := table[b][i := Record(key, value)];
      ok := true;
    }

    method Rewrite(seed: bv8, before: seq<bv8>) returns (value: seq<bv8>)
      ensures value == Scrambled(seed, before) && |value| == |before|
      ensures forall i :: 0 <= i < |value| ==> IsRotation(value[i], LastOr(value[..i], seed) ^ before[i])
    {
      hide Turned, IsRotation;
      value := [];
      var x := seed;
      for i := 0 to |before|
        invariant value == Scrambled(seed, before[..i])
        invariant x == LastOr(value, seed) && |value| == i
      {
        assert before[..i + 1][..i] == before[..i];
        x := Turned(x, before[i]);
        value := value + [x];
      }
      assert before[..|before|] == before;
      forall i | 0 <= i < |value| ensures IsRotation(value[i], LastOr(value[..i], seed) ^ before[i]) {
        ScrambledRotates(seed, before, i);
      }
    }
  }
}
