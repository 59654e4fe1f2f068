/**
 * The document representation the driver consumes: a closed variant of JSON
 * values and records as ordered (key, value) sequences, with the few object
 * operations the driver uses (lookup, delete, set, ASCII case-insensitive
 * comparison as `strcasecmp` does it).
 */
module JsonValues {

  import opened Wrappers

  /** `json_int_t`: a signed 64-bit integer. */
  newtype int64 = x: int | -0x8000_0000_0000_0000 <= x < 0x8000_0000_0000_0000

  /** `uint64_t`, the result type of `dba_create_record`. */
  newtype uint64 = x: int | 0 <= x < 0x1_0000_0000_0000_0000

  /** One byte of a blob. */
  newtype byte = x: int | 0 <= x < 256

  /** The eight kinds of JSON value; a real is always finite (the JSON library refuses NaN and infinities). */
  datatype Value =
    | Str(s: string)
    | Int(i: int64)
    | Real(r: real)
    | True
    | False
    | Null
    | Array(items: seq<Value>)
    | Object(fields: seq<(string, Value)>)

  /** A JSON object: fields in iteration (insertion) order. */
  type Record = seq<(string, Value)>

  function Keys(r: Record): (ks: seq<string>)
    ensures |ks| == |r|
    ensures forall i :: 0 <= i < |r| ==> ks[i] == r[i].0
  {
    seq(|r|, i requires 0 <= i < |r| => r[i].0)
  }

  ghost predicate NoDuplicates(ks: seq<string>)
  {
    forall i, j :: 0 <= i < j < |ks| ==> ks[i] != ks[j]
  }

  /** No key occurs twice, as in every JSON object. */
  ghost predicate UniqueKeys(r: Record)
  {
    NoDuplicates(Keys(r))
  }

  /** `json_object_get`: the value stored under `k`, if any. */
  function Lookup(r: Record, k: string): (o: Option<Value>)
    ensures o.None? <==> k !in Keys(r)
    ensures o.Some? ==> (k, o.value) in r
  {
    if r == [] then None
    else if r[0].0 == k then Some(r[0].1)
    else Lookup(r[1..], k)
  }

  /** `json_object_del`: removes the field named `k`; a missing key changes nothing. */
  function Delete(r: Record, k: string): (d: Record)
  {
    if r == [] then []
    else if r[0].0 == k then Delete(r[1..], k)
    else [r[0]] + Delete(r[1..], k)
  }

  /**
   * `json_object_set_new`: replaces the value of an existing key where it
   * stands, otherwise appends the new field at the end of the order.
   */
  function Set(r: Record, k: string, v: Value): (s: Record)
  {
    if r == [] then [(k, v)]
    else if r[0].0 == k then [(k, v)] + r[1..]
    else [r[0]] + Set(r[1..], k, v)
  }

  lemma {:induction false} DeleteRemovesOnlyKey(r: Record, k: string)
    ensures Keys(Delete(r, k)) == KeysOtherThan(r, k)
    ensures forall p :: p in Delete(r, k) <==> p in r && p.0 != k
  {
    if r != [] {
      DeleteRemovesOnlyKey(r[1..], k);
      assert r == [r[0]] + r[1..];
      if r[0].0 != k {
        assert Keys([r[0]] + Delete(r[1..], k)) == [r[0].0] + Keys(Delete(r[1..], k));
      }
    }
  }

  /** The keys of `r` other than `k`, in order. */
  function KeysOtherThan(r: Record, k: string): seq<string>
  {
    if r == [] then []
    else if r[0].0 == k then KeysOtherThan(r[1..], k)
    else [r[0].0] + KeysOtherThan(r[1..], k)
  }

  /** The keys of a record with one more field in front. */
  lemma KeysCons(p: (string, Value), r: Record)
    ensures Keys([p] + r) == [p.0] + Keys(r)
  {
    var l := Keys([p] + r);
    var m := [p.0] + Keys(r);
    assert |l| == |m|;
    forall i | 0 <= i < |l|
      ensures l[i] == m[i]
    {
      if i > 0 {
        assert ([p] + r)[i] == r[i - 1];
      }
    }
  }

  /** Setting a key keeps the order of the existing keys and adds a new key at the end. */
  lemma {:induction false} SetKeys(r: Record, k: string, v: Value)
    ensures k in Keys(r) ==> Keys(Set(r, k, v)) == Keys(r)
    ensures k !in Keys(r) ==> Keys(Set(r, k, v)) == Keys(r) + [k]
  {
    if r != [] {
      var tail := r[1..];
      assert r == [r[0]] + tail;
      KeysCons(r[0], tail);
      if r[0].0 != k {
        SetKeys(tail, k, v);
        KeysCons(r[0], Set(tail, k, v));
        assert k in Keys(r) <==> k in Keys(tail);
      } else {
        KeysCons((k, v), tail);
      }
    }
  }

  /** After setting, `k` reads the new value and every other key reads what it did before. */
  lemma {:induction false} SetLookup(r: Record, k: string, v: Value)
    ensures Lookup(Set(r, k, v), k) == Some(v)
    ensures forall k' :: k' != k ==> Lookup(Set(r, k, v), k') == Lookup(r, k')
  {
    if r != [] {
      SetLookup(r[1..], k, v);
    }
  }

  /** Setting keeps the keys of an object distinct. */
  lemma SetUnique(r: Record, k: string, v: Value)
    requires UniqueKeys(r)
    ensures UniqueKeys(Set(r, k, v))
  {
    SetKeys(r, k, v);
  }

  /** ASCII lower-casing, as `tolower` in the C locale. */
  function Lower(c: char): char
  {
    if 'A' <= c <= 'Z' then (c as int - 'A' as int + 'a' as int) as char else c
  }

  /** `strcasecmp(a, b) == 0`. */
  predicate EqualsIgnoreCase(a: string, b: string)
  {
    |a| == |b| && forall i :: 0 <= i < |a| ==> Lower(a[i]) == Lower(b[i])
  }

  /** The key `id`, written in any letter case. */
  predicate IsIdKey(k: string)
  {
    EqualsIgnoreCase(k, "id")
  }

  lemma IdKeySpellings(k: string)
    ensures IsIdKey(k) <==> k in {"id", "iD", "Id", "ID"}
  {
    if IsIdKey(k) {
      assert Lower(k[0]) == 'i' && Lower(k[1]) == 'd';
      assert k[0] == 'i' || k[0] == 'I';
      assert k[1] == 'd' || k[1] == 'D';
      assert k == [k[0], k[1]];
    }
  }

  /**
   * `kw_get_int(kw, key, default, flags)` restricted to what this model
   * needs: an integer stored under `key` is returned, otherwise the default.
   */
  function KwGetInt(r: Record, key: string, default: int64): int64
  {
    match Lookup(r, key)
    case Some(Int(i)) => i
    case _ => default
  }
}
