/** A Ruby `Hash` with string keys, reduced to the operations the service
    discovery client applies to its class-level tables: lookup, `h[k] = v`,
    `h.delete k` and `h.keys`. Ruby hashes remember insertion order, and
    `keys` lists the keys in that order; `keys` below is that list. */
module RubyHash {

  /** No key is listed twice. */
  predicate Distinct(s: seq<string>) {
    forall i, j :: 0 <= i < j < |s| ==> s[i] != s[j]
  }

  /** `s` with every occurrence of `k` taken out, the rest kept in order. */
  function Omit(s: seq<string>, k: string): (r: seq<string>)
    ensures |r| <= |s|
  {
    if s == [] then []
    else if s[0] == k then Omit(s[1..], k)
    else [s[0]] + Omit(s[1..], k)
  }

  /** Omitting `k` keeps exactly the other elements. */
  lemma {:induction false} OmitMembers(s: seq<string>, k: string)
    ensures forall x :: x in Omit(s, k) <==> x in s && x != k
  {
    if s != [] {
      OmitMembers(s[1..], k);
      assert s == [s[0]] + s[1..];
    }
  }

  /** Omitting a key that is not listed changes nothing. */
  lemma {:induction false} OmitAbsent(s: seq<string>, k: string)
    requires k !in s
    ensures Omit(s, k) == s
  {
    if s != [] {
      assert k !in s[1..];
      OmitAbsent(s[1..], k);
      assert s == [s[0]] + s[1..];
    }
  }

  /** The tail of a list without repeats has none, and lacks the head. */
  lemma DistinctTail(s: seq<string>)
    requires Distinct(s) && s != []
    ensures Distinct(s[1..]) && s[0] !in s[1..]
  {
    forall a, b | 0 <= a < b < |s| - 1
      ensures s[1..][a] != s[1..][b]
    {
      assert s[1..][a] == s[a + 1] && s[1..][b] == s[b + 1];
    }
  }

  /** Omitting a key from a list without repeats leaves a list without repeats. */
  lemma {:induction false} OmitDistinct(s: seq<string>, k: string)
    requires Distinct(s)
    ensures Distinct(Omit(s, k))
  {
    if s != [] {
      DistinctTail(s);
      OmitDistinct(s[1..], k);
      if s[0] != k {
        var rest := Omit(s[1..], k);
        OmitMembers(s[1..], k);
        assert s[0] !in rest;
        forall a, b | 0 <= a < b < |rest| + 1
          ensures ([s[0]] + rest)[a] != ([s[0]] + rest)[b]
        {
          assert ([s[0]] + rest)[b] == rest[b - 1];
          if a > 0 {
            assert ([s[0]] + rest)[a] == rest[a - 1];
          }
        }
      }
    }
  }

  /** Deleting a key listed once at position i closes the gap and keeps the
      order of every other key. */
  lemma {:induction false} OmitAt(s: seq<string>, i: nat)
    requires Distinct(s) && i < |s|
    ensures Omit(s, s[i]) == s[..i] + s[i + 1..]
  {
    DistinctTail(s);
    var k := s[i];
    if i == 0 {
      OmitAbsent(s[1..], k);
      assert s[..0] + s[1..] == s[1..];
    } else {
      var tail := s[1..];
      assert tail[i - 1] == k;
      assert s[0] != k;
      assert Omit(s, k) == [s[0]] + Omit(tail, k);
      OmitAt(tail, i - 1);
      assert tail[..i - 1] == s[1..i];
      assert tail[i..] == s[i + 1..];
      AppendAssociates([s[0]], s[1..i], s[i + 1..]);
      assert [s[0]] + s[1..i] == s[..i];
    }
  }

  lemma AppendAssociates<T>(a: seq<T>, b: seq<T>, c: seq<T>)
    ensures a + (b + c) == (a + b) + c
  {
  }

  datatype Hash<V> = Hash(keys: seq<string>, entries: map<string, V>) {

    /** Every stored key is listed exactly once, and nothing else is listed. */
    ghost predicate Wf() {
      && Distinct(keys)
      && forall k :: k in entries <==> k in keys
    }

    /** `h[k] = v`: the value for `k` is replaced; a new key goes to the end
        of `keys`, an existing one keeps its place. */
    function Store(k: string, v: V): (h: Hash<V>)
      requires Wf()
      ensures h.Wf()
      ensures h.entries == entries[k := v]
      ensures k in entries ==> h.keys == keys
      ensures k !in entries ==> h.keys == keys + [k]
    {
      if k in entries then Hash(keys, entries[k := v])
      else Hash(keys + [k], entries[k := v])
    }

    /** `h.delete k`: `k` is gone, the other keys keep their values and
        their order (see OmitAt). */
    function Delete(k: string): (h: Hash<V>)
      requires Wf()
      ensures h.Wf()
      ensures h.entries == entries - {k}
      ensures h.keys == Omit(keys, k)
      ensures k !in entries ==> h == this
    {
      OmitMembers(keys, k);
      OmitDistinct(keys, k);
      if k !in entries then OmitAbsent(keys, k); this
      else Hash(Omit(keys, k), entries - {k})
    }

    /** Storing a new key and deleting it again gives back the same hash,
        key order included. */
    lemma StoreThenDelete(k: string, v: V)
      requires Wf() && k !in entries
      ensures Store(k, v).Delete(k) == this
    {
      var s := Store(k, v);
      assert s.keys == keys + [k];
      OmitAt(s.keys, |keys|);
      assert s.keys[..|keys|] == keys;
      assert s.keys[|keys| + 1..] == [];
      assert keys + [] == keys;
      assert s.entries - {k} == entries;
    }
  }

  /** `{}` */
  function Empty<V>(): (h: Hash<V>)
    ensures h.Wf() && h.keys == [] && h.entries == map[]
  {
    Hash([], map[])
  }
}
