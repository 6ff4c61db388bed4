/** JSON-like values as the crawler handles them after `json.loads`: Python
    `None`, booleans, integers, strings, lists and insertion-ordered dicts,
    with Python truthiness, the dict operations the crawler uses and `str()`. */
module PyJson {

  import opened Wrappers
  import opened Text

  /** The exceptions the modelled code can raise on badly typed values. */
  datatype PyError = TypeError | KeyError | AttributeError

  datatype Json =
    | Null
    | Bool(b: bool)
    | Num(n: int)
    | Str(s: string)
    | Arr(items: seq<Json>)
    | Obj(fields: seq<Field>)

  datatype Field = Field(key: string, val: Json)

  /** A dict as its list of items, in insertion order. */
  type Dict = seq<Field>

  /** Python's `bool(v)`. */
  predicate Truthy(v: Json) {
    match v
    case Null => false
    case Bool(b) => b
    case Num(n) => n != 0
    case Str(s) => s != []
    case Arr(xs) => xs != []
    case Obj(fs) => fs != []
  }

  /** `d.get(k)`. */
  function Get(d: Dict, k: string): (r: Option<Json>)
    ensures r.Some? <==> exists i :: 0 <= i < |d| && d[i].key == k
  {
    if d == [] then None
    else if d[0].key == k then Some(d[0].val)
    else
      assert forall i :: 1 <= i < |d| ==> d[i] == d[1..][i - 1];
      Get(d[1..], k)
  }

  /** `k in d`. */
  predicate HasKey(d: Dict, k: string) {
    Get(d, k).Some?
  }

  /** `d.get(k)`, with Python's `None` for a missing key. */
  function GetOrNull(d: Dict, k: string): Json {
    match Get(d, k)
    case Some(v) => v
    case None => Null
  }

  /** Every key occurs once, as in any Python dict. */
  predicate DistinctKeys(d: Dict) {
    forall i, j :: 0 <= i < j < |d| ==> d[i].key != d[j].key
  }

  /** `d[k] = v`: an existing key keeps its position, a new key goes last. */
  function Put(d: Dict, k: string, v: Json): (r: Dict)
    ensures Get(r, k) == Some(v)
    ensures forall k' :: k' != k ==> Get(r, k') == Get(d, k')
    ensures |r| == if HasKey(d, k) then |d| else |d| + 1
    ensures forall i :: 0 <= i < |d| ==> r[i].key == d[i].key
    ensures !HasKey(d, k) ==> r == d + [Field(k, v)]
    ensures DistinctKeys(d) ==> DistinctKeys(r)
  {
    if d == [] then [Field(k, v)]
    else if d[0].key == k then
      var r := [Field(k, v)] + d[1..];
      assert r[1..] == d[1..];
      r
    else
      var rest := Put(d[1..], k, v);
      PutGetStep(d, k, v, rest);
      PutKeysStep(d, k, v, rest);
      [d[0]] + rest
  }

  /** Lookups after `d[k] = v` on a dict whose first key is not `k`, from the
      lookups after the assignment on the rest. */
  lemma PutGetStep(d: Dict, k: string, v: Json, rest: Dict)
    requires d != [] && d[0].key != k
    requires Get(rest, k) == Some(v)
    requires forall k' :: k' != k ==> Get(rest, k') == Get(d[1..], k')
    ensures Get([d[0]] + rest, k) == Some(v)
    ensures forall k' :: k' != k ==> Get([d[0]] + rest, k') == Get(d, k')
  {
    assert ([d[0]] + rest)[1..] == rest;
  }

  /** The keys after `d[k] = v` on a dict whose first key is not `k`, from the keys
      after the assignment on the rest. */
  lemma PutKeysStep(d: Dict, k: string, v: Json, rest: Dict)
    requires d != [] && d[0].key != k
    requires |rest| == if HasKey(d[1..], k) then |d| - 1 else |d|
    requires forall i :: 0 <= i < |d| - 1 ==> rest[i].key == d[1..][i].key
    requires !HasKey(d[1..], k) ==> rest == d[1..] + [Field(k, v)]
    requires DistinctKeys(d[1..]) ==> DistinctKeys(rest)
    ensures var r := [d[0]] + rest;
      |r| == (if HasKey(d, k) then |d| else |d| + 1)
      && (forall i :: 0 <= i < |d| ==> r[i].key == d[i].key)
      && (!HasKey(d, k) ==> r == d + [Field(k, v)])
      && (DistinctKeys(d) ==> DistinctKeys(r))
  {
    var r := [d[0]] + rest;
    assert HasKey(d, k) == HasKey(d[1..], k);
    assert forall i :: 1 <= i < |d| ==> d[i] == d[1..][i - 1];
    if DistinctKeys(d) {
      assert DistinctKeys(d[1..]);
      forall i | 0 <= i < |rest|
        ensures rest[i].key != d[0].key
      {
        if i < |d| - 1 {
          assert rest[i].key == d[i + 1].key;
        }
      }
    }
  }

  /** Storing the value a key already has changes nothing. */
  lemma {:induction false} PutExisting(d: Dict, k: string)
    requires HasKey(d, k)
    ensures Put(d, k, Get(d, k).value) == d
  {
    if d[0].key != k {
      PutExisting(d[1..], k);
    }
  }

  /** Looking a key up in a dict extended by one item. */
  lemma {:induction false} GetAppend(d: Dict, f: Field, k: string)
    ensures Get(d + [f], k) == if HasKey(d, k) then Get(d, k) else if f.key == k then Some(f.val) else None
  {
    if d != [] && d[0].key != k {
      assert (d + [f])[1..] == d[1..] + [f];
      GetAppend(d[1..], f, k);
    }
  }

  /** In a dict without duplicate keys, each item is what `Get` finds. */
  lemma {:induction false} GetDistinct(d: Dict, i: nat)
    requires DistinctKeys(d) && i < |d|
    ensures Get(d, d[i].key) == Some(d[i].val)
  {
    if i > 0 {
      GetDistinct(d[1..], i - 1);
    }
  }

  /** `d.update(e)`: the items of `e` are stored one by one, in order. */
  function Update(d: Dict, e: Dict): (r: Dict)
    ensures forall k :: Get(r, k) == if HasKey(e, k) then LastValue(e, k) else Get(d, k)
    ensures |r| >= |d| && forall i :: 0 <= i < |d| ==> r[i].key == d[i].key
    ensures DistinctKeys(d) ==> DistinctKeys(r)
    decreases |e|
  {
    if e == [] then d
    else
      var r := Update(Put(d, e[0].key, e[0].val), e[1..]);
      assert forall k :: HasKey(e, k) <==> e[0].key == k || HasKey(e[1..], k);
      r
  }

  /** The value an `update` with `e` leaves for `k`: the last item for `k` wins. */
  function LastValue(e: Dict, k: string): Option<Json>
    decreases |e|
  {
    if e == [] then None
    else if HasKey(e[1..], k) then LastValue(e[1..], k)
    else if e[0].key == k then Some(e[0].val)
    else None
  }

  lemma {:induction false} LastValueDistinct(e: Dict, k: string)
    requires DistinctKeys(e)
    ensures LastValue(e, k) == Get(e, k)
  {
    if e != [] {
      LastValueDistinct(e[1..], k);
    }
  }

  /** Python's `str(v)`; strings nested in lists and dicts print in single quotes. */
  function Show(v: Json): string {
    match v
    case Null => "None"
    case Bool(b) => if b then "True" else "False"
    case Num(n) => IntToDecimal(n)
    case Str(s) => s
    case Arr(xs) => "[" + ShowItems(xs) + "]"
    case Obj(fs) => "{" + ShowFields(fs) + "}"
  }

  function ShowItems(xs: seq<Json>): string {
    if xs == [] then ""
    else
      var first := if xs[0].Str? then "'" + xs[0].s + "'" else Show(xs[0]);
      if |xs| == 1 then first else first + ", " + ShowItems(xs[1..])
  }

  function ShowFields(fs: seq<Field>): string {
    if fs == [] then ""
    else
      var v := fs[0].val;
      var first := "'" + fs[0].key + "': " + (if v.Str? then "'" + v.s + "'" else Show(v));
      if |fs| == 1 then first else first + ", " + ShowFields(fs[1..])
  }
}
