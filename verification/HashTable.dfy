/** The chained hash table of hash.cpp. */
module HashTable {
  import opened Words
  import opened JenkinsHash
  import opened Wrappers

  /** hash(key, 42) % size */
  function Slot(key: Key, size: nat): (i: nat)
    requires size > 0
    ensures i < size
  {
    Hash(key, 42) % size
  }

  class Bucket<T> {
    const key: Key
    var data: T
    var next: Bucket?<T>

    constructor (key: Key, data: T, next: Bucket?<T>)
      ensures this.key == key && this.data == data && this.next == next
    {
      this.key, this.data, this.next := key, data, next;
    }
  }

  type Chain<T> = seq<Bucket<T>>

  /** The bucket at position j of a chain, or null behind its end. */
  ghost function BucketAt<T>(c: Chain<T>, j: nat): (b: Bucket?<T>) {
    if j < |c| then c[j] else null
  }

  /** The pointer `head` leads along the buckets of c, in order. */
  ghost predicate Linked<T>(head: Bucket?<T>, c: Chain<T>)
    reads c`next
  {
    head == BucketAt(c, 0) && forall j :: 0 <= j < |c| ==> c[j].next == BucketAt(c, j + 1)
  }

  /** The keys of c belong to slot i, and each is there once. */
  ghost predicate Placed<T>(c: Chain<T>, i: nat, size: nat)
    requires size > 0
  {
    && (forall j :: 0 <= j < |c| ==> Slot(c[j].key, size) == i)
    && (forall j, k :: 0 <= j < k < |c| ==> c[j].key != c[k].key)
  }

  ghost predicate HasKey<T>(c: Chain<T>, k: Key) {
    exists j :: 0 <= j < |c| && c[j].key == k
  }

  /** c holds exactly the bindings of m whose keys belong to slot i. */
  ghost predicate Mirrors<T>(c: Chain<T>, i: nat, size: nat, m: map<Key, T>)
    requires size > 0
    reads c`data
  {
    && (forall j :: 0 <= j < |c| ==> c[j].key in m && m[c[j].key] == c[j].data)
    && (forall k :: k in m && Slot(k, size) == i ==> HasKey(c, k))
  }

  /** The pointer `head` leads to the chain c, which is the part of m in slot i. */
  ghost predicate Stored<T>(head: Bucket?<T>, c: Chain<T>, i: nat, size: nat, m: map<Key, T>)
    requires size > 0
    reads c
  {
    Linked(head, c) && Placed(c, i, size) && Mirrors(c, i, size, m)
  }

  lemma NotThere<T>(c: Chain<T>, i: nat, size: nat, m: map<Key, T>, key: Key)
    requires size > 0 && Mirrors(c, i, size, m) && Slot(key, size) == i
    requires forall j :: 0 <= j < |c| ==> c[j].key != key
    ensures key !in m
  {
    hide Slot;
  }

  /** A chain without its bucket at position j. */
  ghost function Without<T>(c: Chain<T>, j: nat): (d: Chain<T>)
    requires j < |c|
    ensures |d| == |c| - 1 && forall q :: 0 <= q < |d| ==> d[q] == c[if q < j then q else q + 1]
  {
    c[..j] + c[j + 1..]
  }

  /** Every pointer of c but the one at position j leads to the next bucket. */
  ghost predicate LinkedBut<T>(c: Chain<T>, j: int)
    reads c`next
  {
    forall q :: 0 <= q < |c| && q != j ==> c[q].next == BucketAt(c, q + 1)
  }

  lemma StillLinked<T>(head: Bucket?<T>, c: Chain<T>, j: nat)
    requires j < |c| && LinkedBut(c, j - 1)
    requires if j > 0 then head == c[0] && c[j - 1].next == BucketAt(c, j + 1) else head == BucketAt(c, 1)
    ensures Linked(head, Without(c, j))
  {
    hide Without;
    var d := Without(c, j);
    forall q | 0 <= q < |d| ensures d[q].next == BucketAt(d, q + 1) {
      var at := if q < j then q else q + 1;
      assert c[at].next == BucketAt(c, if q + 1 < j then q + 1 else q + 2);
    }
  }

  lemma StillPlaced<T>(c: Chain<T>, j: nat, i: nat, size: nat)
    requires size > 0 && j < |c| && Placed(c, i, size)
    ensures Placed(Without(c, j), i, size)
  {
    hide Slot, Without;
  }

  lemma OthersMirrored<T>(c: Chain<T>, j: nat, i: nat, size: nat, m: map<Key, T>)
    requires size > 0 && j < |c| && Placed(c, i, size) && Mirrors(c, i, size, m)
    ensures Mirrors(Without(c, j), i, size, m - {c[j].key})
  {
    hide Slot, Without;
    var d := Without(c, j);
    forall k | HasKey(c, k) && k != c[j].key ensures HasKey(d, k) {
      var q :| 0 <= q < |c| && c[q].key == k;
      assert d[if q < j then q else q - 1].key == k;
    }
  }

  lemma TakenOut<T>(head: Bucket?<T>, c: Chain<T>, j: nat, i: nat, size: nat, m: map<Key, T>)
    requires size > 0 && j < |c| && LinkedBut(c, j - 1) && Placed(c, i, size) && Mirrors(c, i, size, m)
    requires if j > 0 then head == c[0] && c[j - 1].next == BucketAt(c, j + 1) else head == BucketAt(c, 1)
    ensures Stored(head, Without(c, j), i, size, m - {c[j].key})
  {
    hide Linked, Placed, Mirrors, Without;
    StillLinked(head, c, j);
    StillPlaced(c, j, i, size);
    OthersMirrored(c, j, i, size, m);
  }

  lemma GoneElsewhere<T>(head: Bucket?<T>, c: Chain<T>, i: nat, size: nat, m: map<Key, T>, key: Key)
    requires size > 0 && Stored(head, c, i, size, m) && Slot(key, size) != i
    ensures Stored(head, c, i, size, m - {key})
  {
    hide Slot;
  }

  /** Every bucket of c but the one at position j holds the data of its key in m. */
  ghost predicate MirrorsBut<T>(c: Chain<T>, j: nat, i: nat, size: nat, m: map<Key, T>)
    requires size > 0
    reads c`data
  {
    && (forall q :: 0 <= q < |c| && q != j ==> c[q].key in m && m[c[q].key] == c[q].data)
    && (forall k :: k in m && Slot(k, size) == i ==> HasKey(c, k))
  }

  lemma DataReplaced<T>(c: Chain<T>, j: nat, i: nat, size: nat, m: map<Key, T>)
    requires size > 0 && j < |c| && Placed(c, i, size) && MirrorsBut(c, j, i, size, m)
    ensures Mirrors(c, i, size, m[c[j].key := c[j].data])
  {
    hide Slot;
    assert HasKey(c, c[j].key);
  }

  lemma FrontLinked<T>(ptr: Bucket<T>, c: Chain<T>)
    requires Linked(ptr.next, c)
    ensures Linked(ptr, [ptr] + c)
  {
    var d := [ptr] + c;
    assert forall j :: 0 <= j < |c| ==> d[j + 1] == c[j];
    forall j | 0 <= j < |d| ensures d[j].next == BucketAt(d, j + 1) {
      assert j > 0 ==> d[j] == c[j - 1];
    }
  }

  lemma FrontMirrored<T>(ptr: Bucket<T>, c: Chain<T>, i: nat, size: nat, m: map<Key, T>)
    requires size > 0 && Placed(c, i, size) && Mirrors(c, i, size, m)
    requires ptr.key !in m && Slot(ptr.key, size) == i
    ensures Placed([ptr] + c, i, size) && Mirrors([ptr] + c, i, size, m[ptr.key := ptr.data])
  {
    hide Slot;
    var d := [ptr] + c;
    forall k | HasKey(c, k) || k == ptr.key ensures HasKey(d, k) {
      if k == ptr.key { assert d[0].key == k; }
      else {
        var j :| 0 <= j < |c| && c[j].key == k;
        assert d[j + 1].key == k;
      }
    }
  }

  lemma PushedFront<T>(ptr: Bucket<T>, c: Chain<T>, i: nat, size: nat, m: map<Key, T>)
    requires size > 0 && Stored(ptr.next, c, i, size, m)
    requires ptr.key !in m && Slot(ptr.key, size) == i
    ensures Stored(ptr, [ptr] + c, i, size, m[ptr.key := ptr.data])
  {
    hide Linked, Placed, Mirrors;
    FrontLinked(ptr, c);
    FrontMirrored(ptr, c, i, size, m);
  }

  lemma NewElsewhere<T>(head: Bucket?<T>, c: Chain<T>, i: nat, size: nat, m: map<Key, T>, key: Key, data: T)
    requires size > 0 && Stored(head, c, i, size, m) && Slot(key, size) != i
    ensures Stored(head, c, i, size, m[key := data])
  {
    hide Slot;
  }

  class HashTable<T> {
    var size: nat
    var table: array<Bucket?<T>>
    ghost var chains: seq<Chain<T>>
    ghost var Contents: map<Key, T>
    ghost var Repr: set<object>

    ghost predicate Shape()
      reads this
    {
      && this in Repr && table in Repr
      && table.Length == size == |chains| && size > 0
      && (forall i, j :: 0 <= i < |chains| && 0 <= j < |chains[i]| ==> chains[i][j] in Repr)
    }

    ghost predicate Good(i: nat)
      requires Shape() && i < |chains|
      reads this, Repr
    {
      Stored(table[i], chains[i], i, size, Contents)
    }

    ghost predicate Valid()
      reads this, Repr
      ensures Valid() ==> this in Repr
    {
      Shape() && forall i :: 0 <= i < |chains| ==> Good(i)
    }

    /** construct_table; running out of memory is not part of this model. */
    constructor (size: nat)
      requires size > 0
      ensures Valid() && fresh(Repr) && Contents == map[] && this.size == size
    {
      this.size := size;
      var t := new Bucket?<T>[size](_ => null);
      table := t;
      chains := seq(size, _ => []);
      Contents := map[];
      Repr := {this, t};
    }

    method FindSlot(key: Key) returns (val: nat)
      requires Valid() && |key| < SPACE
      ensures size > 0 && val == Slot(key, size)
    {
      var h := ComputeHash(key, 42);
      val := h % size;
    }

    /** What a walk along chain val meets. */
    lemma ChainAt(val: nat)
      requires Valid() && val < size
      ensures table in Repr && val < table.Length && val < |chains| && table[val] == BucketAt(chains[val], 0)
      ensures forall j :: 0 <= j < |chains[val]| ==>
        var b := chains[val][j];
        b in Repr && b.next == BucketAt(chains[val], j + 1) && b.key in Contents && Contents[b.key] == b.data
    {
      hide Slot, Placed;
      assert Good(val);
    }

    lemma Absent(val: nat, key: Key)
      requires Valid() && val < |chains| && val == Slot(key, size)
      requires forall j :: 0 <= j < |chains[val]| ==> chains[val][j].key != key
      ensures key !in Contents
    {
      hide Slot, Linked, Placed, Mirrors;
      assert Good(val);
      NotThere(chains[val], val, size, Contents, key);
    }

    method Lookup(key: Key) returns (data: Option<T>)
      requires Valid() && |key| < SPACE
      ensures data == if key in Contents then Some(Contents[key]) else None
    {
      hide Slot, Valid;
      var val := FindSlot(key);
      ChainAt(val);
      ghost var c, j := chains[val], 0;
      var ptr := table[val];
      while ptr != null
        invariant 0 <= j <= |c| && ptr == BucketAt(c, j)
        invariant forall k :: 0 <= k < j ==> c[k].key != key
        decreases |c| - j
      {
        if ptr.key == key { return Some(ptr.data); }
        ptr := ptr.next;
        j := j + 1;
      }
      Absent(val, key);
      data := None;
    }

    /** A bucket stands in one place only. */
    lemma OnePlace(val: nat, j: nat)
      requires Valid() && val < |chains| && j < |chains[val]|
      ensures forall i, k :: 0 <= i < |chains| && 0 <= k < |chains[i]| && chains[i][k].key == chains[val][j].key ==>
                i == val && k == j
      ensures Slot(chains[val][j].key, size) == val
    {
      hide Slot, Linked, Mirrors;
      assert Good(val);
      forall i, k | 0 <= i < |chains| && 0 <= k < |chains[i]| && chains[i][k].key == chains[val][j].key
        ensures i == val && k == j
      {
        assert Good(i);
      }
    }

    /** The chain in which a key stands is the one that its hash with the initial value 42 names. */
    lemma ChainOfHash(val: nat, j: nat)
      requires Valid() && val < |chains| && j < |chains[val]|
      ensures size > 0 && val == Hash(chains[val][j].key, 42) % size
    {
      hide Valid, Hash;
      OnePlace(val, j);
      ChainSize(val, j);
    }

    lemma ChainSize(val: nat, j: nat)
      requires Valid() && val < |chains| && j < |chains[val]|
      ensures size > 0
    {
      hide Slot;
    }

    /** New data for the bucket at position j of chain val. */
    method SetData(ghost val: nat, ghost j: nat, ptr: Bucket<T>, data: T)
      requires Valid() && val < |chains| && j < |chains[val]| && ptr == chains[val][j]
      modifies ptr, this`Contents
      ensures Valid() && ptr.data == data && Contents == old(Contents)[ptr.key := data]
    {
      hide Slot, Placed, Linked, Mirrors;
      OnePlace(val, j);
      ghost var c, m := chains[val], Contents;
      assert Good(val);
      ButOne(val, j);
      ptr.data := data;
      Contents := Contents[ptr.key := data];
      forall i | 0 <= i < |chains| ensures Good(i) {
        assert old(Good(i));
        if i == val {
          DataReplaced(c, j, val, size, m);
        } else {
          assert ptr !in chains[i];
          NewElsewhere(table[i], chains[i], i, size, m, ptr.key, data);
        }
      }
    }

    lemma ButOne(val: nat, j: nat)
      requires Valid() && val < |chains| && j < |chains[val]|
      ensures MirrorsBut(chains[val], j, val, size, Contents)
    {
      hide Slot, Linked, Placed;
      assert Good(val);
    }

    /** A new bucket at the head of chain val. */
    method PushFront(val: nat, key: Key, data: T)
      requires Valid() && size > 0 && val == Slot(key, size) && key !in Contents
      modifies this, table
      ensures Valid() && fresh(Repr - old(Repr)) && size == old(size)
      ensures Contents == old(Contents)[key := data]
    {
      hide Slot, Stored;
      var ptr := new Bucket(key, data, table[val]);
      ghost var c := chains[val];
      assert Good(val);
      table[val] := ptr;
      chains := chains[val := [ptr] + c];
      Contents := Contents[key := data];
      Repr := Repr + {ptr};
      forall i | 0 <= i < |chains| ensures Good(i) {
        assert old(Good(i));
        if i == val { PushedFront(ptr, c, val, size, old(Contents)); }
        else { NewElsewhere(table[i], chains[i], i, size, old(Contents), key, data); }
      }
    }

    /** Returns the data that the key had before or, if it is new, the given data. */
    method Insert(key: Key, data: T) returns (r: T)
      requires Valid() && |key| < SPACE
      modifies Repr
      ensures Valid() && fresh(Repr - old(Repr)) && size == old(size)
      ensures Contents == old(Contents)[key := data]
      ensures r == if key in old(Contents) then old(Contents)[key] else data
    {
      hide Slot, Valid;
      var val := FindSlot(key);
      ChainAt(val);
      ghost var c, j := chains[val], 0;
      var ptr := table[val];
      while ptr != null
        invariant 0 <= j <= |c| && ptr == BucketAt(c, j)
        invariant forall k :: 0 <= k < j ==> c[k].key != key
        decreases |c| - j
      {
        if ptr.key == key {
          r := ptr.data;
          SetData(val, j, ptr, data);
          return;
        }
        ptr := ptr.next;
        j := j + 1;
      }
      Absent(val, key);
      PushFront(val, key, data);
      r := data;
    }

    /** The other chains do not need the key at position j of chain val, nor the bucket before. */
    lemma WithoutKey(val: nat, j: nat)
      requires Valid() && val < |chains| && j < |chains[val]|
      ensures forall i :: 0 <= i < |chains| && i != val ==>
        && Stored(table[i], chains[i], i, size, Contents - {chains[val][j].key})
        && (j > 0 ==> chains[val][j - 1] !in chains[i])
    {
      hide Slot, Stored;
      OnePlace(val, j);
      if j > 0 { OnePlace(val, j - 1); }
      forall i | 0 <= i < |chains| && i != val
        ensures Stored(table[i], chains[i], i, size, Contents - {chains[val][j].key})
      {
        assert Good(i);
        GoneElsewhere(table[i], chains[i], i, size, Contents, chains[val][j].key);
      }
    }

    /** Makes the pointer that led to the bucket at position j of chain val, which is in the
        table or in the bucket before, lead to the one behind it. */
    method Bypass(val: nat, ghost j: nat, last: Bucket?<T>, next: Bucket?<T>)
      requires Valid() && val < |chains| && j < |chains[val]| && next == chains[val][j].next
      requires last == if j == 0 then null else chains[val][j - 1]
      modifies table, last
      ensures Stored(table[val], Without(chains[val], j), val, size, Contents - {chains[val][j].key})
      ensures table[..] == if last == null then old(table[..])[val := next] else old(table[..])
    {
      hide Slot, Placed, Mirrors, Without;
      ghost var c := chains[val];
      assert Good(val);
      OnePlace(val, j);
      if j > 0 { OnePlace(val, j - 1); }
      if last != null {
        last.next := next;
      } else {
        table[val] := next;
      }
      TakenOut(table[val], c, j, val, size, Contents);
    }

    /** Takes the bucket at position j out of chain val. */
    method Unlink(val: nat, ghost j: nat, last: Bucket?<T>, ptr: Bucket<T>)
      requires Valid() && val < |chains| && j < |chains[val]| && ptr == chains[val][j]
      requires last == if j == 0 then null else chains[val][j - 1]
      modifies this`chains, this`Contents, table, last
      ensures Valid() && Repr == old(Repr) && size == old(size)
      ensures Contents == old(Contents) - {ptr.key}
    {
      hide Slot, Stored, Without;
      WithoutKey(val, j);
      ghost var c := chains[val];
      Bypass(val, j, last, ptr.next);
      chains := chains[val := Without(c, j)];
      Contents := Contents - {ptr.key};
    }

    /** The data of the key that is removed, if it was there. */
    method Delete(key: Key) returns (data: Option<T>)
      requires Valid() && |key| < SPACE
      modifies Repr
      ensures Valid() && fresh(Repr - old(Repr)) && size == old(size)
      ensures Contents == old(Contents) - {key}
      ensures data == if key in old(Contents) then Some(old(Contents)[key]) else None
    {
      hide Slot, Valid;
      var val := FindSlot(key);
      ChainAt(val);
      ghost var c, j := chains[val], 0;
      var last: Bucket?<T> := null;
      var ptr := table[val];
      while ptr != null
        invariant 0 <= j <= |c| && ptr == BucketAt(c, j)
        invariant last == if j == 0 then null else c[j - 1]
        invariant forall k :: 0 <= k < j ==> c[k].key != key
        decreases |c| - j
      {
        if ptr.key == key {
          data := Some(ptr.data);
          Unlink(val, j, last, ptr);
          return;
        }
        last, ptr := ptr, ptr.next;
        j := j + 1;
      }
      Absent(val, key);
      data := None;
      assert Contents - {key} == Contents;
    }

    /** The inner loop of enumerate. */
    method VisitChain(i: nat) returns (visits: seq<(Key, T)>)
      requires Valid() && i < size
      ensures |visits| == |chains[i]|
      ensures forall n :: 0 <= n < |visits| ==> visits[n] == (chains[i][n].key, chains[i][n].data)
    {
      hide Slot, Valid;
      ChainAt(i);
      ghost var c, j := chains[i], 0;
      visits := [];
      var temp := table[i];
      while temp != null
        invariant 0 <= j <= |c| && temp == BucketAt(c, j)
        invariant |visits| == j && forall n :: 0 <= n < j ==> visits[n] == (c[n].key, c[n].data)
        decreases |c| - j
      {
        visits := visits + [(temp.key, temp.data)];
        temp := temp.next;
        j := j + 1;
      }
    }

    /** visits lists the bindings of the slots below n, each once. */
    ghost predicate Listed(visits: seq<(Key, T)>, n: nat)
      requires size > 0
      reads this
    {
      && (forall v :: 0 <= v < |visits| ==> visits[v].0 in Contents && Contents[visits[v].0] == visits[v].1)
      && (forall v :: 0 <= v < |visits| ==> Slot(visits[v].0, size) < n)
      && (forall v, w :: 0 <= v < w < |visits| ==> visits[v].0 != visits[w].0)
      && (forall k :: k in Contents && Slot(k, size) < n ==> exists v :: 0 <= v < |visits| && visits[v].0 == k)
    }

    lemma OneMoreChain(visits: seq<(Key, T)>, chain: seq<(Key, T)>, i: nat)
      requires Valid() && i < size && Listed(visits, i) && |chain| == |chains[i]|
      requires forall v :: 0 <= v < |chain| ==> chain[v] == (chains[i][v].key, chains[i][v].data)
      ensures Listed(visits + chain, i + 1)
    {
      hide Slot, Linked;
      assert Good(i);
      var all := visits + chain;
      assert forall v :: |visits| <= v < |all| ==> all[v] == chain[v - |visits|];
      forall k | k in Contents && Slot(k, size) < i + 1 ensures exists v :: 0 <= v < |all| && all[v].0 == k {
        if Slot(k, size) == i {
          assert HasKey(chains[i], k);
          var j :| 0 <= j < |chains[i]| && chains[i][j].key == k;
          assert all[|visits| + j].0 == k;
        } else {
          var v :| 0 <= v < |visits| && visits[v].0 == k;
          assert all[v].0 == k;
        }
      }
    }

    /** enumerate: the bindings in the order in which the callback meets them. */
    method Enumerate() returns (visits: seq<(Key, T)>)
      requires Valid()
      ensures forall n :: 0 <= n < |visits| ==> visits[n].0 in Contents && Contents[visits[n].0] == visits[n].1
      ensures forall n, m :: 0 <= n < m < |visits| ==> visits[n].0 != visits[m].0
      ensures forall k :: k in Contents ==> exists n :: 0 <= n < |visits| && visits[n].0 == k
    {
      hide Slot;
      visits := [];
      var i := 0;
      while i < size
        invariant 0 <= i <= size && Listed(visits, i)
      {
        var chain := VisitChain(i);
        OneMoreChain(visits, chain, i);
        visits := visits + chain;
        i := i + 1;
      }
    }
  }
}
