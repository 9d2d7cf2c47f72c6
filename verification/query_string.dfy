/** The `replace` template tag: the current request's query parameters with
    one key set to a single value, serialised again for a link. */
module QueryString {
  import opened Results

  /** One key of a multi-valued query dictionary with all its values, in order. */
  datatype Param = Param(key: string, values: seq<string>)

  /** A query dictionary: keys in insertion order, each with its value list. */
  type Params = seq<Param>

  /** One `key=value` pair of a serialised query string (percent-encoding aside). */
  type Pair = (string, string)

  predicate HasKey(p: Params, key: string)
  {
    exists i :: 0 <= i < |p| && p[i].key == key
  }

  predicate DistinctKeys(p: Params)
  {
    forall i, j :: 0 <= i < j < |p| ==> p[i].key != p[j].key
  }

  /** What a parsed query string looks like: no key twice, no key without a value. */
  predicate WellFormedParams(p: Params)
  {
    DistinctKeys(p) && forall i :: 0 <= i < |p| ==> |p[i].values| > 0
  }

  /** The value list stored under `key`, if any. */
  function Lookup(p: Params, key: string): (r: Option<seq<string>>)
    ensures r.None? <==> !HasKey(p, key)
    decreases |p|
  {
    if p == [] then None
    else if p[0].key == key then Some(p[0].values)
    else
      assert forall i :: 0 < i < |p| ==> p[i] == p[1..][i - 1];
      Lookup(p[1..], key)
  }

  /** `url_dict[key] = value`: the key now holds the single value `value`. An
      existing key keeps its place; a new key goes after all the others. */
  function SetParam(p: Params, key: string, value: string): (r: Params)
    ensures Lookup(r, key) == Some([value])
    ensures forall k :: k != key ==> Lookup(r, k) == Lookup(p, k)
    ensures HasKey(p, key) ==> |r| == |p|
    ensures !HasKey(p, key) ==> |r| == |p| + 1 && r[|p|] == Param(key, [value])
    ensures forall i :: 0 <= i < |p| ==> r[i].key == p[i].key
    ensures forall i :: 0 <= i < |p| && p[i].key != key ==> r[i] == p[i]
    decreases |p|
  {
    if p == [] then
      [Param(key, [value])]
    else if p[0].key == key then
      [Param(key, [value])] + p[1..]
    else
      var rest := SetParam(p[1..], key, value);
      assert forall i :: 0 < i < |p| ==> p[i] == p[1..][i - 1];
      assert HasKey(p, key) <==> HasKey(p[1..], key);
      [p[0]] + rest
  }

  /** Under distinct keys, the entry at any index is the one lookup finds. */
  lemma {:induction false} LookupAt(p: Params, i: int)
    requires DistinctKeys(p) && 0 <= i < |p|
    ensures Lookup(p, p[i].key) == Some(p[i].values)
    decreases |p|
  {
    if i > 0 {
      assert p[1..][i - 1] == p[i];
      assert DistinctKeys(p[1..]) by {
        forall a, b | 0 <= a < b < |p[1..]| ensures p[1..][a].key != p[1..][b].key {
          assert p[1..][a] == p[a + 1] && p[1..][b] == p[b + 1];
        }
      }
      LookupAt(p[1..], i - 1);
    }
  }

  /** Setting a key keeps a query dictionary well formed. */
  lemma SetParamWellFormed(p: Params, key: string, value: string)
    requires WellFormedParams(p)
    ensures WellFormedParams(SetParam(p, key, value))
  {
    var r := SetParam(p, key, value);
    assert DistinctKeys(r) by {
      forall i, j | 0 <= i < j < |r| ensures r[i].key != r[j].key {
        if j == |p| {
          assert p[i].key != key;
        }
      }
    }
    forall i | 0 <= i < |r| ensures |r[i].values| > 0 {
      if r[i].key == key {
        LookupAt(r, i);
      } else {
        assert r[i] == p[i];
      }
    }
  }

  /** The pairs `key=v` for every value `v` of one parameter. */
  function Expand(param: Param): seq<Pair>
    decreases |param.values|
  {
    if param.values == [] then []
    else [(param.key, param.values[0])] + Expand(Param(param.key, param.values[1..]))
  }

  /** `urlencode()`: every key with each of its values, in dictionary order. */
  function Encode(p: Params): seq<Pair>
    decreases |p|
  {
    if p == [] then [] else Expand(p[0]) + Encode(p[1..])
  }

  /** `appendlist(key, value)`: the value joins the end of the key's list; an
      unseen key is added after all the others. */
  function AppendValue(p: Params, key: string, value: string): Params
    decreases |p|
  {
    if p == [] then [Param(key, [value])]
    else if p[0].key == key then [Param(key, p[0].values + [value])] + p[1..]
    else [p[0]] + AppendValue(p[1..], key, value)
  }

  /** Reads the pairs of a query string one by one into `acc`. */
  function ParseOnto(acc: Params, pairs: seq<Pair>): Params
    decreases |pairs|
  {
    if pairs == [] then acc else ParseOnto(AppendValue(acc, pairs[0].0, pairs[0].1), pairs[1..])
  }

  /** Building a query dictionary from a query string, as the request does. */
  function Parse(pairs: seq<Pair>): Params
  {
    ParseOnto([], pairs)
  }

  /** `replace(request, key, value)`: the request's parameters are copied, the
      copy gets `key` set to `value`, and the copy is serialised. Reading the
      result back gives the updated dictionary, so `key` holds just `value` and
      every other key what it held before. */
  function Replace(params: Params, key: string, value: string): (r: seq<Pair>)
    requires WellFormedParams(params)
    ensures Parse(r) == SetParam(params, key, value)
    ensures Lookup(Parse(r), key) == Some([value])
    ensures forall k :: k != key ==> Lookup(Parse(r), k) == Lookup(params, k)
  {
    var updated := SetParam(params, key, value);
    SetParamWellFormed(params, key, value);
    ParseEncode(updated);
    Encode(updated)
  }

  lemma {:induction false} AppendNewKey(acc: Params, key: string, value: string)
    requires !HasKey(acc, key)
    ensures AppendValue(acc, key, value) == acc + [Param(key, [value])]
    decreases |acc|
  {
    if acc != [] {
      AppendNewKey(acc[1..], key, value);
      assert acc == [acc[0]] + acc[1..];
    }
  }

  lemma {:induction false} AppendLastKey(acc: Params, key: string, ws: seq<string>, value: string)
    requires !HasKey(acc, key)
    ensures AppendValue(acc + [Param(key, ws)], key, value) == acc + [Param(key, ws + [value])]
    decreases |acc|
  {
    if acc != [] {
      AppendLastKey(acc[1..], key, ws, value);
      assert (acc + [Param(key, ws)])[1..] == acc[1..] + [Param(key, ws)];
      assert acc == [acc[0]] + acc[1..];
    }
  }

  lemma ExpandUnfold(key: string, vs: seq<string>)
    requires vs != []
    ensures Expand(Param(key, vs)) == [(key, vs[0])] + Expand(Param(key, vs[1..]))
  {
  }

  /** Reading the pairs of one more parameter extends its value list. */
  lemma {:induction false} ParseExpandOnto(acc: Params, key: string, ws: seq<string>, us: seq<string>)
    requires !HasKey(acc, key)
    ensures ParseOnto(acc + [Param(key, ws)], Expand(Param(key, us))) == acc + [Param(key, ws + us)]
    decreases |us|
  {
    if us == [] {
      assert ws + us == ws;
    } else {
      var pairs := Expand(Param(key, us));
      ExpandUnfold(key, us);
      assert pairs[0] == (key, us[0]) && pairs[1..] == Expand(Param(key, us[1..]));
      AppendLastKey(acc, key, ws, us[0]);
      ParseExpandOnto(acc, key, ws + [us[0]], us[1..]);
      assert ws + [us[0]] + us[1..] == ws + us;
    }
  }

  lemma {:induction false} ParseSplit(acc: Params, x: seq<Pair>, y: seq<Pair>)
    ensures ParseOnto(acc, x + y) == ParseOnto(ParseOnto(acc, x), y)
    decreases |x|
  {
    if x == [] {
      assert x + y == y;
    } else {
      assert (x + y)[0] == x[0] && (x + y)[1..] == x[1..] + y;
      ParseSplit(AppendValue(acc, x[0].0, x[0].1), x[1..], y);
    }
  }

  lemma {:induction false} ParseEncodeOnto(acc: Params, p: Params)
    requires WellFormedParams(p)
    requires forall i :: 0 <= i < |p| ==> !HasKey(acc, p[i].key)
    ensures ParseOnto(acc, Encode(p)) == acc + p
    decreases |p|
  {
    if p == [] {
      assert acc + p == acc;
    } else {
      var head := p[0];
      var expanded := Expand(Param(head.key, head.values));
      assert Encode(p) == expanded + Encode(p[1..]);
      ParseSplit(acc, expanded, Encode(p[1..]));
      ExpandUnfold(head.key, head.values);
      AppendNewKey(acc, head.key, head.values[0]);
      ParseExpandOnto(acc, head.key, [head.values[0]], head.values[1..]);
      assert [head.values[0]] + head.values[1..] == head.values;
      assert ParseOnto(acc, expanded) == acc + [head];
      var acc' := acc + [head];
      assert forall i :: 0 <= i < |p[1..]| ==> !HasKey(acc', p[1..][i].key) by {
        forall i | 0 <= i < |p[1..]| ensures !HasKey(acc', p[1..][i].key) {
          assert p[1..][i] == p[i + 1];
        }
      }
      ParseEncodeOnto(acc', p[1..]);
      assert acc' + p[1..] == acc + p;
    }
  }

  /** Serialising a well-formed query dictionary and reading it back gives it back. */
  lemma ParseEncode(p: Params)
    requires WellFormedParams(p)
    ensures Parse(Encode(p)) == p
  {
    ParseEncodeOnto([], p);
  }

  /** Setting the same key to the same value twice is setting it once. */
  lemma {:induction false} SetParamIdempotent(p: Params, key: string, value: string)
    ensures SetParam(SetParam(p, key, value), key, value) == SetParam(p, key, value)
    decreases |p|
  {
    if p != [] && p[0].key != key {
      SetParamIdempotent(p[1..], key, value);
      var once := SetParam(p, key, value);
      assert once[1..] == SetParam(p[1..], key, value);
    }
  }

  /** A link built by `replace` and followed, then rebuilt with the same key and
      value, is the same link. */
  lemma ReplaceIdempotent(params: Params, key: string, value: string)
    requires WellFormedParams(params)
    ensures WellFormedParams(Parse(Replace(params, key, value)))
    ensures Replace(Parse(Replace(params, key, value)), key, value) == Replace(params, key, value)
  {
    SetParamIdempotent(params, key, value);
    SetParamWellFormed(params, key, value);
  }

  /** `page=2&query=x` with the page set to 3 becomes `page=3&query=x`. */
  lemma ReplacePageExample()
    ensures Replace([Param("page", ["2"]), Param("query", ["x"])], "page", "3") == [("page", "3"), ("query", "x")]
  {
  }
}
