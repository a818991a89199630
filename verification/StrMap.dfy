/** The hash table for strings of strmap.c, as a map from keys to values. */
module StrMap {
  import opened Expressions

  datatype Pair = Pair(key: string, value: string)

  type Bucket = seq<Pair>

  // ---------- the hash function ----------

  const SEED: nat := 5381

  /** hash(), given the memory from the start of the key on. Its loop compares the variable c, which
      is 0, with the next character instead of assigning to it. So it ends before the first character
      of any key that is not empty; from an empty key it runs on past the end of the string. */
  method Hash(memory: string) returns (hash: nat)
    ensures memory != [] && memory[0] != '\0' ==> hash == SEED
    ensures hash < 0x1_0000_0000_0000_0000
  {
    hash := SEED;
    var c := 0;
    var i := 0;
    while i < |memory| && c == memory[i] as int
      invariant 0 <= i <= |memory| && hash < 0x1_0000_0000_0000_0000
      invariant i > 0 ==> memory[0] == '\0'
      invariant i == 0 ==> hash == SEED
    {
      i := i + 1;
      hash := (hash * 33 + c) % 0x1_0000_0000_0000_0000;
    }
  }

  // ---------- buckets ----------

  predicate DistinctKeys(b: Bucket) {
    forall i, j :: 0 <= i < j < |b| ==> b[i].key != b[j].key
  }

  predicate HasKey(b: Bucket, key: string) {
    exists i :: 0 <= i < |b| && b[i].key == key
  }

  /** All pairs in the order in which the loops over buckets and pairs meet them. */
  function Flatten(buckets: seq<Bucket>): seq<Pair> {
    if buckets == [] then [] else Flatten(buckets[..|buckets| - 1]) + buckets[|buckets| - 1]
  }

  lemma {:induction false} FlattenUpdate(buckets: seq<Bucket>, i: nat, b: Bucket)
    requires i < |buckets|
    ensures |Flatten(buckets[i := b])| == |Flatten(buckets)| - |buckets[i]| + |b|
  {
    var n := |buckets| - 1;
    var updated := buckets[i := b];
    if i < n {
      FlattenUpdate(buckets[..n], i, b);
      assert updated[..n] == buckets[..n][i := b];
    } else {
      assert updated[..n] == buckets[..n];
    }
  }

  lemma {:induction false} FlattenEmpty(buckets: seq<Bucket>)
    requires forall i :: 0 <= i < |buckets| ==> buckets[i] == []
    ensures Flatten(buckets) == []
  {
    if buckets != [] {
      FlattenEmpty(buckets[..|buckets| - 1]);
    }
  }

  lemma {:induction false} FlattenMembers(buckets: seq<Bucket>, p: Pair)
    ensures p in Flatten(buckets) <==> exists i :: 0 <= i < |buckets| && p in buckets[i]
  {
    if buckets != [] {
      var n := |buckets| - 1;
      FlattenMembers(buckets[..n], p);
      if i :| 0 <= i < |buckets| && p in buckets[i] {
        assert i < n ==> p in buckets[..n][i];
      }
      if p in Flatten(buckets[..n]) {
        var i :| 0 <= i < n && p in buckets[..n][i];
        assert p in buckets[i];
      }
    }
  }

  // ---------- what a table stands for ----------

  function Home(hash: string -> nat, n: nat, key: string): nat
    requires n > 0
  {
    hash(key) % n
  }

  /** A pair is in the bucket of its key and in the map. */
  predicate Placed(hash: string -> nat, n: nat, m: map<string, string>, i: nat, p: Pair)
    requires n > 0
  {
    Home(hash, n, p.key) == i && p.key in m && m[p.key] == p.value
  }

  ghost predicate AllPlaced(hash: string -> nat, bs: seq<Bucket>, m: map<string, string>) {
    forall i, j :: 0 <= i < |bs| && 0 <= j < |bs[i]| ==> Placed(hash, |bs|, m, i, bs[i][j])
  }

  ghost predicate AllDistinct(bs: seq<Bucket>) {
    forall i :: 0 <= i < |bs| ==> DistinctKeys(bs[i])
  }

  ghost predicate AllFound(hash: string -> nat, bs: seq<Bucket>, m: map<string, string>)
    requires |bs| > 0
  {
    forall key :: key in m ==> HasKey(bs[Home(hash, |bs|, key)], key)
  }

  /** The buckets hold exactly the associations of m, each in its place and no key twice. */
  ghost predicate StandsFor(hash: string -> nat, bs: seq<Bucket>, m: map<string, string>) {
    && |bs| > 0 && AllPlaced(hash, bs, m) && AllDistinct(bs) && AllFound(hash, bs, m)
    && |Flatten(bs)| == |m|
  }

  lemma ReplaceKeeps(hash: string -> nat, bs: seq<Bucket>, m: map<string, string>, index: nat, i: nat, pair: Pair)
    requires StandsFor(hash, bs, m) && index < |bs| && i < |bs[index]| && bs[index][i].key == pair.key
    ensures StandsFor(hash, bs[index := bs[index][i := pair]], m[pair.key := pair.value])
  {
    hide HasKey;
    var b := bs[index][i := pair];
    var bs' := bs[index := b];
    var m' := m[pair.key := pair.value];
    FlattenUpdate(bs, index, b);
    hide Flatten;
    assert Placed(hash, |bs|, m, index, bs[index][i]);
    forall k, j | 0 <= k < |bs'| && 0 <= j < |bs'[k]| ensures Placed(hash, |bs'|, m', k, bs'[k][j]) {
      assert Placed(hash, |bs|, m, k, bs[k][j]);
      if bs[k][j].key == pair.key {
        assert k == index && DistinctKeys(bs[index]);
      }
    }
    forall key | key in m' ensures HasKey(bs'[Home(hash, |bs'|, key)], key) {
      assert HasKey(bs[Home(hash, |bs|, key)], key);
      SameKeys(bs[index], i, pair, key);
    }
  }

  lemma SameKeys(b: Bucket, i: nat, pair: Pair, key: string)
    requires i < |b| && b[i].key == pair.key
    ensures HasKey(b, key) ==> HasKey(b[i := pair], key)
  {
    if j :| 0 <= j < |b| && b[j].key == key {
      assert b[i := pair][j].key == key;
    }
  }

  lemma AppendKeeps(hash: string -> nat, bs: seq<Bucket>, m: map<string, string>, pair: Pair)
    requires StandsFor(hash, bs, m) && !HasKey(bs[Home(hash, |bs|, pair.key)], pair.key)
    ensures var index := Home(hash, |bs|, pair.key);
      StandsFor(hash, bs[index := bs[index] + [pair]], m[pair.key := pair.value])
  {
    var index := Home(hash, |bs|, pair.key);
    var b := bs[index] + [pair];
    var bs' := bs[index := b];
    var m' := m[pair.key := pair.value];
    FlattenUpdate(bs, index, b);
    MoreKeys(bs[index], pair, pair.key);
    assert DistinctKeys(bs[index]);
    hide Flatten, HasKey;
    forall k, j | 0 <= k < |bs'| && 0 <= j < |bs'[k]| ensures Placed(hash, |bs'|, m', k, bs'[k][j]) {
      if k != index || j < |bs[index]| {
        assert Placed(hash, |bs|, m, k, bs[k][j]);
      }
    }
    forall key | key in m' ensures HasKey(bs'[Home(hash, |bs'|, key)], key) {
      MoreKeys(bs[index], pair, key);
      assert key in m ==> HasKey(bs[Home(hash, |bs|, key)], key);
    }
  }

  lemma MoreKeys(b: Bucket, pair: Pair, key: string)
    ensures HasKey(b, key) || key == pair.key ==> HasKey(b + [pair], key)
    ensures !HasKey(b, pair.key) ==> forall i :: 0 <= i < |b| ==> b[i].key != pair.key
  {
    assert (b + [pair])[|b|] == pair;
    if j :| 0 <= j < |b| && b[j].key == key {
      assert (b + [pair])[j].key == key;
    }
  }

  lemma EnumeratesAll(hash: string -> nat, bs: seq<Bucket>, m: map<string, string>, p: Pair)
    requires StandsFor(hash, bs, m)
    ensures p in Flatten(bs) <==> p.key in m && m[p.key] == p.value
  {
    FlattenMembers(bs, p);
    if p in Flatten(bs) {
      var i :| 0 <= i < |bs| && p in bs[i];
      var j :| 0 <= j < |bs[i]| && bs[i][j] == p;
      assert Placed(hash, |bs|, m, i, bs[i][j]);
    }
    if p.key in m && m[p.key] == p.value {
      var i := Home(hash, |bs|, p.key);
      assert HasKey(bs[i], p.key);
      var j :| 0 <= j < |bs[i]| && bs[i][j].key == p.key;
      assert Placed(hash, |bs|, m, i, bs[i][j]);
      assert p == bs[i][j];
    }
  }

  lemma {:induction false} KeysOnce(hash: string -> nat, bs: seq<Bucket>, m: map<string, string>, n: nat)
    requires StandsFor(hash, bs, m) && n <= |bs|
    ensures DistinctKeys(Flatten(bs[..n]))
  {
    if n > 0 {
      KeysOnce(hash, bs, m, n - 1);
      assert bs[..n][..n - 1] == bs[..n - 1];
      var front, last := Flatten(bs[..n - 1]), bs[n - 1];
      assert DistinctKeys(last);
      forall i, j | 0 <= i < |front| && 0 <= j < |last| ensures front[i].key != last[j].key {
        FlattenMembers(bs[..n - 1], front[i]);
        var k :| 0 <= k < n - 1 && front[i] in bs[..n - 1][k];
        var l :| 0 <= l < |bs[k]| && bs[k][l] == front[i];
        assert Placed(hash, |bs|, m, k, bs[k][l]) && Placed(hash, |bs|, m, n - 1, bs[n - 1][j]);
      }
    }
  }

  /** What the hash function of strmap.c makes of the table: all but one of the buckets stay free of
      keys that are not empty, and every search goes through all of them. */
  lemma OneBucket(hash: string -> nat, bs: seq<Bucket>, m: map<string, string>, key: string)
    requires StandsFor(hash, bs, m) && forall k :: k != [] ==> hash(k) == SEED
    requires key != []
    ensures key in m <==> HasKey(bs[SEED % |bs|], key)
    ensures forall i :: 0 <= i < |bs| && i != SEED % |bs| ==> !HasKey(bs[i], key)
  {
    forall i | 0 <= i < |bs| && HasKey(bs[i], key) ensures i == SEED % |bs| && key in m {
      var j :| 0 <= j < |bs[i]| && bs[i][j].key == key;
      assert Placed(hash, |bs|, m, i, bs[i][j]);
    }
    if key in m {
      assert HasKey(bs[Home(hash, |bs|, key)], key);
    }
  }

  // ---------- the table ----------

  class Table {
    const hash: string -> nat
    const buckets: array<Bucket>
    /** The map that the table stands for. */
    ghost var contents: map<string, string>

    ghost predicate Valid()
      reads this, buckets
    {
      StandsFor(hash, buckets[..], contents)
    }

    /** strmap_new */
    constructor (hash: string -> nat, capacity: nat)
      requires capacity > 0
      ensures Valid() && contents == map[] && this.hash == hash && fresh(buckets)
    {
      this.hash := hash;
      buckets := new Bucket[capacity](_ => []);
      contents := map[];
      new;
      FlattenEmpty(buckets[..]);
    }

    /** get_pair: the index of the pair with the key, or the length of the bucket. */
    static method GetPair(bucket: Bucket, key: string) returns (i: nat)
      ensures i <= |bucket|
      ensures i < |bucket| ==> bucket[i].key == key
      ensures i == |bucket| <==> !HasKey(bucket, key)
    {
      i := 0;
      while i < |bucket|
        invariant i <= |bucket|
        invariant forall j :: 0 <= j < i ==> bucket[j].key != key
      {
        if bucket[i].key == key {
          return;
        }
        i := i + 1;
      }
    }

    /** strmap_exists */
    method Exists(key: Option<string>) returns (r: int)
      requires Valid()
      ensures r == if key.Some? && key.value in contents then 1 else 0
    {
      if key.None? {
        return 0;
      }
      var index := hash(key.value) % buckets.Length;
      assert key.value in contents ==> HasKey(buckets[..][index], key.value);
      var i := GetPair(buckets[index], key.value);
      if i == |buckets[index]| {
        return 0;
      }
      assert Placed(hash, buckets.Length, contents, index, buckets[..][index][i]);
      return 1;
    }

    /** strcpy */
    static method CopyString(out: array<char>, s: string)
      requires |s| < out.Length
      modifies out
      ensures out[..|s|] == s && out[|s|] == '\0' && out[|s| + 1..] == old(out[|s| + 1..])
    {
      forall k | 0 <= k < |s| {
        out[k] := s[k];
      }
      out[|s|] := '\0';
    }

    /** strmap_get: without a buffer and its size, the size that the value needs; otherwise the value
        is copied if it fits. */
    method Get(key: Option<string>, out: array?<char>, size: nat) returns (r: int)
      requires Valid() && (out != null ==> size <= out.Length)
      modifies if out == null then {} else {out}
      ensures Valid() && contents == old(contents)
      ensures key.None? || key.value !in contents ==> r == 0
      ensures key.Some? && key.value in contents ==>
        var v := contents[key.value];
        r == if out == null then (if size == 0 then |v| + 1 else 0) else if |v| < size then 1 else 0
      ensures out != null && r == 0 ==> out[..] == old(out[..])
      ensures out != null && r == 1 ==>
        var v := contents[key.value];
        out[..|v|] == v && out[|v|] == '\0' && out[|v| + 1..] == old(out[|v| + 1..])
    {
      if key.None? {
        return 0;
      }
      var index := hash(key.value) % buckets.Length;
      assert key.value in contents ==> HasKey(buckets[..][index], key.value);
      var i := GetPair(buckets[index], key.value);
      if i == |buckets[index]| {
        return 0;
      }
      assert Placed(hash, buckets.Length, contents, index, buckets[..][index][i]);
      var value := buckets[index][i].value;
      if out == null && size == 0 {
        return |value| + 1;
      }
      if out == null {
        return 0;
      }
      if |value| >= size {
        return 0;
      }
      CopyString(out, value);
      return 1;
    }

    /** strmap_put: the value of a key that is there is replaced in its pair, any other key comes last
        in its bucket. */
    method Put(key: Option<string>, value: Option<string>) returns (r: int)
      requires Valid()
      modifies this, buckets
      ensures Valid()
      ensures key.None? || value.None? ==> r == 0 && contents == old(contents)
      ensures key.Some? && value.Some? ==> r == 1 && contents == old(contents)[key.value := value.value]
    {
      if key.None? || value.None? {
        return 0;
      }
      var pair := Pair(key.value, value.value);
      hide StandsFor;
      var index := hash(pair.key) % buckets.Length;
      var i := GetPair(buckets[index], pair.key);
      if i < |buckets[index]| {
        ReplaceKeeps(hash, buckets[..], contents, index, i, pair);
        buckets[index] := buckets[index][i := pair];
      } else {
        AppendKeeps(hash, buckets[..], contents, pair);
        buckets[index] := buckets[index] + [pair];
      }
      contents := contents[pair.key := pair.value];
      return 1;
    }

    /** strmap_get_count */
    method GetCount() returns (count: nat)
      requires Valid()
      ensures count == |contents|
    {
      var i := 0;
      count := 0;
      while i < buckets.Length
        invariant 0 <= i <= buckets.Length && count == |Flatten(buckets[..i])|
      {
        var m := |buckets[i]|;
        var j := 0;
        while j < m
          invariant 0 <= j <= m && count == |Flatten(buckets[..i])| + j
        {
          count := count + 1;
          j := j + 1;
        }
        assert buckets[..i + 1][..i] == buckets[..i];
        i := i + 1;
      }
      assert buckets[..i] == buckets[..];
    }

    /** strmap_enum, with the calls of the callback in order: each association exactly once. */
    method Enumerate() returns (calls: seq<Pair>)
      requires Valid()
      ensures forall p :: p in calls <==> p.key in contents && contents[p.key] == p.value
      ensures |calls| == |contents|
      ensures forall i, j :: 0 <= i < j < |calls| ==> calls[i].key != calls[j].key
    {
      var i := 0;
      calls := [];
      while i < buckets.Length
        invariant 0 <= i <= buckets.Length && calls == Flatten(buckets[..i])
      {
        var pairs := buckets[i];
        var j := 0;
        while j < |pairs|
          invariant 0 <= j <= |pairs| && calls == Flatten(buckets[..i]) + pairs[..j]
        {
          calls := calls + [pairs[j]];
          j := j + 1;
        }
        assert buckets[..i + 1][..i] == buckets[..i] && pairs[..j] == pairs;
        i := i + 1;
      }
      assert buckets[..i] == buckets[..];
      forall p: Pair ensures p in calls <==> p.key in contents && contents[p.key] == p.value {
        EnumeratesAll(hash, buckets[..], contents, p);
      }
      KeysOnce(hash, buckets[..], contents, buckets.Length);
    }
  }
}
