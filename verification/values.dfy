/** JSON values as the Lambda handler sees them once the gateway event has been
    parsed, and the Python dict operations the handler uses on them: `get`,
    `pop` and item assignment.

    A dict is a sequence of (key, value) pairs in insertion order, because a
    Python dict iterates in insertion order. A Python dict never holds a key
    twice; `DistinctKeys` states that, and members that rely on it require it. */
module Values {

  datatype Option<T> = None | Some(value: T)

  /** A decoded JSON value (Python None, bool, int, str, list, dict). */
  datatype Value =
    | Null
    | Bool(b: bool)
    | Num(n: int)
    | Str(s: string)
    | Arr(items: seq<Value>)
    | Obj(fields: Dict)

  type Dict = seq<(string, Value)>

  function Keys(d: Dict): seq<string> {
    seq(|d|, i requires 0 <= i < |d| => d[i].0)
  }

  predicate DistinctKeys(d: Dict) {
    forall i, j :: 0 <= i < j < |d| ==> d[i].0 != d[j].0
  }

  /** `d[k]` if present: the first entry with key `k`. */
  function Get(d: Dict, k: string): (r: Option<Value>)
    ensures r.None? <==> k !in Keys(d)
    ensures r.Some? ==> (k, r.value) in d
  {
    if d == [] then None
    else if d[0].0 == k then
      assert Keys(d)[0] == k;
      Some(d[0].1)
    else
      assert Keys(d) == [d[0].0] + Keys(d[1..]);
      Get(d[1..], k)
  }

  /** `d.get(k, default)` */
  function GetOr(d: Dict, k: string, default: Value): (r: Value)
    ensures k !in Keys(d) ==> r == default
    ensures k in Keys(d) ==> Get(d, k) == Some(r)
  {
    match Get(d, k)
    case Some(v) => v
    case None => default
  }

  /** `d` without any entry for `k`, the other entries in their order. */
  function Remove(d: Dict, k: string): (r: Dict)
    ensures k !in Keys(r)
    ensures forall k' :: k' != k ==> Get(r, k') == Get(d, k')
    ensures forall p :: p in r ==> p in d
    ensures |r| <= |d|
    ensures DistinctKeys(d) ==> DistinctKeys(r)
  {
    if d == [] then []
    else
      var rest := Remove(d[1..], k);
      assert Keys(d) == [d[0].0] + Keys(d[1..]);
      if d[0].0 == k then rest
      else
        var r := [d[0]] + rest;
        assert Keys(r) == [d[0].0] + Keys(rest);
        assert DistinctKeys(d) ==> DistinctKeys(r) by {
          if DistinctKeys(d) {
            forall j | 0 <= j < |rest| ensures rest[j].0 != d[0].0 {
              assert rest[j] in d[1..];
            }
          }
        }
        r
  }

  /** `d.pop(k, default)`: the value removed (or `default`) and the dict left. */
  function Pop(d: Dict, k: string, default: Value): (r: (Value, Dict))
    ensures k in Keys(d) ==> Get(d, k) == Some(r.0)
    ensures k !in Keys(d) ==> r.0 == default && r.1 == d
    ensures r.1 == Remove(d, k)
    ensures k !in Keys(r.1)
    ensures forall k' :: k' != k ==> Get(r.1, k') == Get(d, k')
    ensures DistinctKeys(d) ==> DistinctKeys(r.1)
  {
    if k !in Keys(d) then
      RemoveAbsent(d, k);
      (default, d)
    else (GetOr(d, k, default), Remove(d, k))
  }

  lemma {:induction false} RemoveAbsent(d: Dict, k: string)
    requires k !in Keys(d)
    ensures Remove(d, k) == d
  {
    if d != [] {
      assert Keys(d) == [d[0].0] + Keys(d[1..]);
      RemoveAbsent(d[1..], k);
    }
  }

  /** `d[k] = v`: overwrites the value in place when `k` is present, appends otherwise. */
  function Set(d: Dict, k: string, v: Value): (r: Dict)
    ensures Get(r, k) == Some(v)
    ensures forall k' :: k' != k ==> Get(r, k') == Get(d, k')
    ensures k in Keys(d) ==> Keys(r) == Keys(d)
    ensures k !in Keys(d) ==> r == d + [(k, v)]
  {
    if d == [] then [(k, v)]
    else
      assert Keys(d) == [d[0].0] + Keys(d[1..]);
      if d[0].0 == k then
        var r := [(k, v)] + d[1..];
        assert r[1..] == d[1..];
        assert Keys(r) == Keys(d);
        r
      else
        var rest := Set(d[1..], k, v);
        var r := [d[0]] + rest;
        assert r[1..] == rest;
        assert Keys(r) == [d[0].0] + Keys(rest);
        r
  }

  /** Assigning into a dict keeps its keys distinct. */
  lemma SetDistinct(d: Dict, k: string, v: Value)
    requires DistinctKeys(d)
    ensures DistinctKeys(Set(d, k, v))
  {
    var r := Set(d, k, v);
    if k in Keys(d) {
      var ks := Keys(d);
      assert Keys(r) == ks;
      assert |r| == |d|;
      forall i, j | 0 <= i < j < |r| ensures r[i].0 != r[j].0 {
        assert r[i].0 == ks[i] == d[i].0;
        assert r[j].0 == ks[j] == d[j].0;
      }
    } else {
      assert r == d + [(k, v)];
      forall i, j | 0 <= i < j < |r| ensures r[i].0 != r[j].0 {
        if j == |d| {
          assert Keys(d)[i] == d[i].0;
        }
      }
    }
  }

  /** Removing a key commutes with appending one more entry at the end. */
  lemma {:induction false} RemoveSnoc(d: Dict, e: (string, Value), k: string)
    ensures Remove(d + [e], k) == Remove(d, k) + (if e.0 == k then [] else [e])
  {
    if d == [] {
      assert [e][1..] == [];
    } else {
      assert (d + [e])[1..] == d[1..] + [e];
      RemoveSnoc(d[1..], e, k);
    }
  }

  /** Python truthiness, as tested by `if image:` and `if image_data:`. */
  predicate Truthy(v: Value) {
    match v
    case Null => false
    case Bool(b) => b
    case Num(n) => n != 0
    case Str(s) => s != ""
    case Arr(items) => items != []
    case Obj(fields) => fields != []
  }
}
