/** The dictionary of libsbase/src/iniparser.c: open slots searched from the front, doubled when full. */
module IniDictionary {
  import opened Options

  /** Smallest number of slots. */
  const DICTMINSZ := 128

  /** A null key marks an empty slot. */
  type Slots = seq<Option<string>>

  function Blank<T>(n: nat, x: T): (s: seq<T>)
    ensures |s| == n && forall i :: 0 <= i < n ==> s[i] == x
  {
    seq(n, _ => x)
  }

  /** How many slots are taken. */
  function Taken(keys: Slots): nat {
    if keys == [] then 0 else Taken(keys[..|keys| - 1]) + if keys[|keys| - 1].Some? then 1 else 0
  }

  lemma {:induction false} TakenBound(keys: Slots)
    ensures Taken(keys) <= |keys|
    ensures Taken(keys) == |keys| <==> forall i :: 0 <= i < |keys| ==> keys[i].Some?
  {
    if keys != [] {
      TakenBound(keys[..|keys| - 1]);
    }
  }

  lemma NotAllTaken(keys: Slots) returns (i: nat)
    requires Taken(keys) != |keys|
    ensures i < |keys| && keys[i] == None
  {
    TakenBound(keys);
    i :| i < |keys| && keys[i] == None;
  }

  lemma {:induction false} TakenUpdate(keys: Slots, i: nat, k: Option<string>)
    requires i < |keys|
    ensures Taken(keys[i := k]) == Taken(keys) + (if k.Some? then 1 else 0) - if keys[i].Some? then 1 else 0
  {
    var n := |keys| - 1;
    if i < n {
      TakenUpdate(keys[..n], i, k);
      assert keys[i := k][..n] == keys[..n][i := k];
    } else {
      assert keys[i := k][..n] == keys[..n];
    }
  }

  lemma {:induction false} TakenGrown(keys: Slots, m: nat)
    ensures Taken(keys + Blank(m, None)) == Taken(keys)
  {
    if m == 0 {
      assert keys + Blank(0, None) == keys;
    } else {
      TakenGrown(keys, m - 1);
      assert (keys + Blank(m, None))[..|keys| + m - 1] == keys + Blank(m - 1, None);
    }
  }

  /** The slots hold exactly the map `m`, each key in one slot. */
  ghost predicate Holds(keys: Slots, vals: Slots, m: map<string, Option<string>>) {
    && |keys| == |vals|
    && (forall i :: 0 <= i < |keys| && keys[i].Some? ==> keys[i].value in m && m[keys[i].value] == vals[i])
    && (forall k :: k in m ==> Some(k) in keys)
    && (forall i, j :: 0 <= i < j < |keys| && keys[i].Some? ==> keys[i] != keys[j])
  }

  /** Hashes are kept beside the keys; an empty slot has hash 0. */
  ghost predicate Hashed(hashOf: string -> nat, keys: Slots, hashes: seq<nat>) {
    && |hashes| == |keys|
    && forall i :: 0 <= i < |keys| ==> hashes[i] == match keys[i] case Some(k) => hashOf(k) case None => 0
  }

  lemma HoldsInsert(keys: Slots, vals: Slots, m: map<string, Option<string>>, i: nat, key: string, val: Option<string>)
    requires Holds(keys, vals, m) && i < |keys| && keys[i] == None && key !in m
    ensures Holds(keys[i := Some(key)], vals[i := val], m[key := val])
  {
    var keys' := keys[i := Some(key)];
    forall k | k in m[key := val]
      ensures Some(k) in keys'
    {
      if k == key {
        assert keys'[i] == Some(k);
      } else {
        var j :| 0 <= j < |keys| && keys[j] == Some(k);
        assert keys'[j] == Some(k);
      }
    }
  }

  lemma HoldsRemove(keys: Slots, vals: Slots, m: map<string, Option<string>>, i: nat)
    requires Holds(keys, vals, m) && i < |keys| && keys[i].Some?
    ensures Holds(keys[i := None], vals[i := None], m - {keys[i].value})
  {
    var key := keys[i].value;
    var keys' := keys[i := None];
    forall k | k in m - {key}
      ensures Some(k) in keys'
    {
      var j :| 0 <= j < |keys| && keys[j] == Some(k);
      assert keys'[j] == Some(k);
    }
  }

  lemma HoldsGrown(keys: Slots, vals: Slots, m: map<string, Option<string>>, n: nat)
    requires Holds(keys, vals, m)
    ensures Holds(keys + Blank(n, None), vals + Blank(n, None), m)
  {
    forall k | k in m
      ensures Some(k) in keys + Blank(n, None)
    {
    }
  }

  lemma NotThere(keys: Slots, vals: Slots, m: map<string, Option<string>>, k: string)
    requires Holds(keys, vals, m) && forall j :: 0 <= j < |keys| ==> keys[j] != Some(k)
    ensures k !in m
  {
  }

  datatype Found = Value(v: Option<string>) | Default | NullCompare

  class Dictionary {
    /** `dictionary_hash` may be any function. */
    const hashOf: string -> nat
    var n: nat
    var size: nat
    var key: array<Option<string>>
    var val: array<Option<string>>
    var hash: array<nat>
    ghost var contents: map<string, Option<string>>

    ghost predicate Valid()
      reads this, key, val, hash
    {
      && key != val && key.Length == val.Length == hash.Length == size && size >= DICTMINSZ
      && n == Taken(key[..]) && Holds(key[..], val[..], contents) && Hashed(hashOf, key[..], hash[..])
    }

    /** `dictionary_new` */
    constructor (hashOf: string -> nat, size0: int)
      ensures Valid() && contents == map[] && this.hashOf == hashOf && fresh(key) && fresh(val) && fresh(hash)
    {
      this.hashOf := hashOf;
      var s: nat := if size0 < DICTMINSZ then DICTMINSZ else size0;
      n, size, contents := 0, s, map[];
      key := new Option<string>[s](_ => None);
      val := new Option<string>[s](_ => None);
      hash := new nat[s](_ => 0);
      new;
      NoneTaken(key[..]);
    }

    /** The search all three operations begin with; an empty slot never matches here. */
    method Find(k: string) returns (i: nat)
      requires Valid()
      ensures i <= size && (i == size <==> k !in contents)
      ensures i < size ==> key[i] == Some(k)
    {
      var h := hashOf(k);
      i := 0;
      while i < size
        invariant 0 <= i <= size
        invariant forall j :: 0 <= j < i ==> key[j] != Some(k)
      {
        if key[i] != None && h == hash[i] && key[i].value == k {
          assert key[..][i] == Some(k);
          return;
        }
        assert key[..][i] == key[i] && hash[..][i] == hash[i];
        i := i + 1;
      }
      NotThere(key[..], val[..], contents, k);
    }

    /** `mem_double`: twice the slots, the new ones empty. */
    static method MemDouble<T>(a: array<T>, empty: T) returns (b: array<T>)
      ensures b.Length == 2 * a.Length && fresh(b)
      ensures b[..] == a[..] + Blank(a.Length, empty)
    {
      b := new T[2 * a.Length](_ => empty);
      var i := 0;
      while i < a.Length
        invariant 0 <= i <= a.Length && b.Length == 2 * a.Length
        invariant forall j :: 0 <= j < i ==> b[j] == a[j]
        invariant forall j :: i <= j < b.Length ==> b[j] == empty
        invariant a[..] == old(a[..])
      {
        b[i] := a[i];
        i := i + 1;
      }
    }

    method Double()
      requires Valid()
      modifies this`key, this`val, this`hash, this`size
      ensures Valid() && size == 2 * old(size) && fresh(key) && fresh(val) && fresh(hash)
    {
      hide Taken, Holds, Hashed;
      TakenGrown(key[..], size);
      HoldsGrown(key[..], val[..], contents, size);
      HashedGrown(hashOf, key[..], hash[..], size);
      var val2 := MemDouble(val, None);
      var key2 := MemDouble(key, None);
      var hash2 := MemDouble(hash, 0);
      key, val, hash := key2, val2, hash2;
      size := 2 * size;
    }

    method Replace(i: nat, v: Option<string>)
      requires Valid() && i < size && key[i].Some?
      modifies this`contents, val
      ensures Valid() && contents == old(contents)[key[i].value := v]
    {
      hide Taken, Hashed;
      HoldsReplaced(key[..], val[..], contents, i, v);
      ghost var vals := val[..];
      val[i] := v;
      contents := contents[key[i].value := v];
      assert val[..] == vals[i := v];
    }

    /** Storing a new key in an empty slot. */
    method Insert(i: nat, k: string, v: Option<string>)
      requires Valid() && i < size && key[i] == None && k !in contents
      modifies this`n, this`contents, key, val, hash
      ensures Valid() && contents == old(contents)[k := v]
    {
      hide Taken, Holds, Hashed;
      ghost var keys, vals, hashes := key[..], val[..], hash[..];
      HoldsInsert(keys, vals, contents, i, k, v);
      TakenUpdate(keys, i, Some(k));
      HashedUpdate(hashOf, keys, hashes, i, Some(k));
      key[i] := Some(k);
      val[i] := v;
      hash[i] := hashOf(k);
      n := n + 1;
      contents := contents[k := v];
      assert key[..] == keys[i := Some(k)] && val[..] == vals[i := v] && hash[..] == hashes[i := hashOf(k)];
    }

    /** `dictionary_set`: replaces the value of a key that is there, otherwise uses the first empty slot. */
    method Set(k: string, v: Option<string>)
      requires Valid()
      modifies this, key, val, hash
      ensures Valid() && contents == old(contents)[k := v]
      ensures (key == old(key) || fresh(key)) && (val == old(val) || fresh(val)) && (hash == old(hash) || fresh(hash))
    {
      hide Taken, Holds, Hashed;
      var i := Find(k);
      if i < size {
        Replace(i, v);
        return;
      }
      if n == size {
        Double();
      }
      i := FirstEmpty();
      Insert(i, k, v);
    }

    /** There always is an empty slot, because fewer are taken than there are. */
    method FirstEmpty() returns (i: nat)
      requires Valid() && n != size
      ensures i < size && key[i] == None && forall j :: 0 <= j < i ==> key[j] != None
    {
      ghost var free := NotAllTaken(key[..]);
      i := 0;
      while i < size && key[i] != None
        invariant 0 <= i <= size && i <= free
        invariant forall j :: 0 <= j < i ==> key[j] != None
      {
        i := i + 1;
      }
    }

    /** `dictionary_unset`: nothing happens when the key is not there. */
    method Unset(k: string)
      requires Valid()
      modifies this`n, this`contents, key, val, hash
      ensures Valid() && contents == old(contents) - {k}
    {
      hide Taken, Holds, Hashed;
      var i := Find(k);
      if i >= size {
        return;
      }
      ghost var keys, vals, hashes := key[..], val[..], hash[..];
      HoldsRemove(keys, vals, contents, i);
      TakenUpdate(keys, i, None);
      HashedUpdate(hashOf, keys, hashes, i, None);
      key[i] := None;
      val[i] := None;
      hash[i] := 0;
      n := n - 1;
      contents := contents - {k};
      assert key[..] == keys[i := None] && val[..] == vals[i := None] && hash[..] == hashes[i := 0];
    }

    /**
      `dictionary_get` does not skip empty slots, so for a key with hash 0 it compares the key with a null pointer as
      soon as it meets one.
     */
    method Get(k: string) returns (r: Found)
      requires Valid()
      ensures r.NullCompare? <==> hashOf(k) == 0 && exists i :: 0 <= i < size && key[i] == None && Some(k) !in key[..i]
      ensures !r.NullCompare? ==> r == if k in contents then Value(contents[k]) else Default
    {
      var h := hashOf(k);
      var i := 0;
      while i < size
        invariant 0 <= i <= size
        invariant forall j :: 0 <= j < i ==> key[j] != Some(k) && (h == 0 ==> key[j] != None)
      {
        assert key[..][i] == key[i] && hash[..][i] == hash[i];
        if h == hash[i] {
          if key[i] == None {
            return NullCompare;
          }
          if key[i].value == k {
            assert forall j :: i < j < size ==> Some(k) in key[..j] by {
              assert forall j :: i < j < size ==> key[..j][i] == Some(k);
            }
            assert val[..][i] == val[i];
            return Value(val[i]);
          }
        }
        i := i + 1;
      }
      NotThere(key[..], val[..], contents, k);
      return Default;
    }
  }

  lemma {:induction false} NoneTaken(keys: Slots)
    requires forall i :: 0 <= i < |keys| ==> keys[i] == None
    ensures Taken(keys) == 0
  {
    if keys != [] {
      NoneTaken(keys[..|keys| - 1]);
    }
  }

  lemma HoldsReplaced(keys: Slots, vals: Slots, m: map<string, Option<string>>, i: nat, v: Option<string>)
    requires Holds(keys, vals, m) && i < |keys| && keys[i].Some?
    ensures Holds(keys, vals[i := v], m[keys[i].value := v])
  {
  }

  lemma HashedUpdate(hashOf: string -> nat, keys: Slots, hashes: seq<nat>, i: nat, k: Option<string>)
    requires Hashed(hashOf, keys, hashes) && i < |keys|
    ensures Hashed(hashOf, keys[i := k], hashes[i := match k case Some(x) => hashOf(x) case None => 0])
  {
  }

  lemma HashedGrown(hashOf: string -> nat, keys: Slots, hashes: seq<nat>, n: nat)
    requires Hashed(hashOf, keys, hashes)
    ensures Hashed(hashOf, keys + Blank(n, None), hashes + Blank(n, 0))
  {
  }

  /** A key with hash 0 is compared with the null key of the first empty slot. */
  method NullComparison() returns (r: Found)
    ensures r.NullCompare?
  {
    var d := new Dictionary(_ => 0, 0);
    NoKeyIsZero(d);
    r := d.Get("a");
  }

  /** An empty dictionary starts with an empty slot. */
  lemma NoKeyIsZero(d: Dictionary)
    requires d.Valid() && d.contents == map[]
    ensures d.size > 0 && d.key[0] == None
  {
  }
}
