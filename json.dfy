/**
 * JSON values as `JSON.parse` produces them, and JavaScript records
 * (plain objects) as the sequence of their entries in `Object.entries` order.
 */
module Json {
  import opened Wrappers
  import Text

  /** One own property of a record. */
  datatype Entry<+T> = Entry(key: string, val: T)

  /**
   * A parsed JSON value. Numbers are integers here; objects keep their
   * entries in iteration order.
   */
  datatype Value =
    | JNull
    | JBool(b: bool)
    | JNum(n: int)
    | JStr(s: string)
    | JArr(elems: seq<Value>)
    | JObj(fields: seq<Entry<Value>>)

  function Keys<T>(r: seq<Entry<T>>): (ks: seq<string>)
    ensures |ks| == |r|
    ensures forall i :: 0 <= i < |r| ==> ks[i] == r[i].key
  {
    seq(|r|, i requires 0 <= i < |r| => r[i].key)
  }

  /** What every JavaScript object satisfies: no key occurs twice. */
  predicate DistinctKeys<T>(r: seq<Entry<T>>) {
    forall i, j :: 0 <= i < j < |r| ==> r[i].key != r[j].key
  }

  /** Where key `k` sits in `r`, or `|r|` when it is not there. */
  function KeyIndex<T>(r: seq<Entry<T>>, k: string): (i: nat)
    ensures i <= |r|
    ensures i < |r| ==> r[i].key == k
    ensures forall j :: 0 <= j < i ==> r[j].key != k
    ensures i == |r| <==> k !in Keys(r)
  {
    if r == [] then 0
    else if r[0].key == k then 0
    else 1 + KeyIndex(r[1..], k)
  }

  /** `KeyIndex` is the first position holding `k`; any position with that property is it. */
  lemma KeyIndexIs<T>(r: seq<Entry<T>>, k: string, i: nat)
    requires i <= |r| && (i < |r| ==> r[i].key == k)
    requires forall j :: 0 <= j < i ==> r[j].key != k
    ensures KeyIndex(r, k) == i
  {
    var i0 := KeyIndex(r, k);
    assert i0 < |r| ==> r[i0].key == k;
    assert i < |r| ==> r[i].key == k;
  }

  /** Own-property lookup `r[k]`, `None` standing for `undefined`. */
  function Get<T>(r: seq<Entry<T>>, k: string): (o: Option<T>)
    ensures o.Some? <==> k in Keys(r)
    ensures o.Some? ==> exists i :: 0 <= i < |r| && r[i] == Entry(k, o.value)
  {
    var i := KeyIndex(r, k);
    if i < |r| then Some(r[i].val) else None
  }

  /**
   * Record assignment `r[k] = v`: an existing key keeps its place and gets
   * the new value; a new key goes last.
   */
  function Put<T>(r: seq<Entry<T>>, k: string, v: T): (r': seq<Entry<T>>)
    ensures k in Keys(r) ==> |r'| == |r| && Keys(r') == Keys(r)
    ensures k !in Keys(r) ==> r' == r + [Entry(k, v)]
    ensures forall i :: 0 <= i < |r'| ==> r'[i] == Entry(k, v) || r'[i] in r
    ensures Get(r', k) == Some(v)
    ensures DistinctKeys(r) ==> DistinctKeys(r')
  {
    var i := KeyIndex(r, k);
    if i < |r| then
      ReplaceFacts(r, i, k, v);
      r[i := Entry(k, v)]
    else
      AppendFacts(r, k, v);
      r + [Entry(k, v)]
  }

  lemma ReplaceFacts<T>(r: seq<Entry<T>>, i: nat, k: string, v: T)
    requires i == KeyIndex(r, k) && i < |r|
    ensures var r' := r[i := Entry(k, v)];
      && Keys(r') == Keys(r)
      && (forall j :: 0 <= j < |r'| ==> r'[j] == Entry(k, v) || r'[j] in r)
      && Get(r', k) == Some(v)
      && (DistinctKeys(r) ==> DistinctKeys(r'))
  {
    var r' := r[i := Entry(k, v)];
    assert forall j :: 0 <= j < |r| ==> r'[j].key == r[j].key;
    assert forall j :: 0 <= j < |r| && j != i ==> r'[j] == r[j];
    assert Keys(r') == Keys(r);
    KeyIndexIs(r', k, i);
  }

  lemma AppendFacts<T>(r: seq<Entry<T>>, k: string, v: T)
    requires k !in Keys(r)
    ensures var r' := r + [Entry(k, v)];
      && (forall j :: 0 <= j < |r'| ==> r'[j] == Entry(k, v) || r'[j] in r)
      && Get(r', k) == Some(v)
      && (DistinctKeys(r) ==> DistinctKeys(r'))
  {
    var r' := r + [Entry(k, v)];
    assert forall j :: 0 <= j < |r| ==> r'[j] == r[j] && r[j].key == Keys(r)[j];
    KeyIndexIs(r', k, |r|);
  }

  /** The keys after an assignment: unchanged, or the new key last. */
  lemma PutKeys<T>(r: seq<Entry<T>>, k: string, v: T)
    ensures Keys(Put(r, k, v)) == Keys(r) + (if k in Keys(r) then [] else [k])
  {
    if k !in Keys(r) {
      assert Keys(r + [Entry(k, v)]) == Keys(r) + [k];
    }
  }

  lemma KeysSnoc<T>(r: seq<Entry<T>>)
    requires r != []
    ensures Keys(r) == Keys(r[..|r| - 1]) + [r[|r| - 1].key]
  {
  }

  /** In a record with distinct keys, the last key is new to the entries before it. */
  lemma DistinctSnoc<T>(r: seq<Entry<T>>)
    requires DistinctKeys(r) && r != []
    ensures DistinctKeys(r[..|r| - 1]) && r[|r| - 1].key !in Keys(r[..|r| - 1])
  {
    var p := r[..|r| - 1];
    forall j | 0 <= j < |p| ensures Keys(p)[j] != r[|r| - 1].key {
      assert p[j] == r[j];
    }
  }

  /** Lookups in a record given entry by entry. */
  lemma GetCons<T>(e: Entry<T>, r: seq<Entry<T>>, k: string)
    ensures Get([e] + r, k) == if k == e.key then Some(e.val) else Get(r, k)
  {
    var r' := [e] + r;
    assert r'[0] == e && r'[1..] == r;
    assert KeyIndex(r', k) == if e.key == k then 0 else 1 + KeyIndex(r, k);
  }

  /** Lookups in a two-entry record. */
  lemma GetPair<T>(r: seq<Entry<T>>, k: string)
    requires |r| == 2
    ensures Get(r, k) == if r[0].key == k then Some(r[0].val) else if r[1].key == k then Some(r[1].val) else None
  {
    if r[0].key == k {
      KeyIndexIs(r, k, 0);
    } else if r[1].key == k {
      KeyIndexIs(r, k, 1);
    } else {
      KeyIndexIs(r, k, 2);
    }
  }

  /** Looking a key up in a record grown by one entry at the end. */
  lemma GetSnoc<T>(r: seq<Entry<T>>, e: Entry<T>, k: string)
    ensures Get(r + [e], k) == if k in Keys(r) then Get(r, k) else if e.key == k then Some(e.val) else None
  {
    var r' := r + [e];
    assert forall j :: 0 <= j < |r| ==> r'[j] == r[j];
    var i := KeyIndex(r, k);
    if i < |r| {
      KeyIndexIs(r', k, i);
    } else if e.key == k {
      KeyIndexIs(r', k, |r|);
    } else {
      KeyIndexIs(r', k, |r'|);
    }
  }

  /** Assigning one key leaves the lookups of every other key as they were. */
  lemma PutKeepsOthers<T>(r: seq<Entry<T>>, k: string, v: T, k': string)
    requires k' != k
    ensures Get(Put(r, k, v), k') == Get(r, k')
  {
    var i := KeyIndex(r, k);
    if i < |r| {
      var r' := r[i := Entry(k, v)];
      assert forall j :: 0 <= j < |r| ==> r'[j].key == r[j].key;
      var j := KeyIndex(r, k');
      KeyIndexIs(r', k', j);
    } else {
      GetSnoc(r, Entry(k, v), k');
    }
  }

  /**
   * `String(v)` for a parsed JSON value. A string converts to itself, without
   * the quotes `JSON.stringify` would add; only an empty string or an array
   * that joins to nothing gives the empty text.
   */
  function ToJsString(v: Value): (r: string)
    ensures v.JStr? ==> r == v.s
    ensures r == "" <==> v == JStr("") || (v.JArr? && JoinElements(v.elems) == "")
  {
    match v
    case JNull => "null"
    case JBool(b) => if b then "true" else "false"
    case JNum(n) => Text.IntToString(n)
    case JStr(s) => s
    case JArr(a) => JoinElements(a)
    case JObj(_) => "[object Object]"
  }

  /**
   * `a.join(",")`, which renders `null` elements as the empty string: the text
   * is empty only for no elements or one that renders empty, and two or more
   * elements always leave a comma.
   */
  function JoinElements(a: seq<Value>): (r: string)
    ensures r == "" <==> |a| == 0 || (|a| == 1 && (a[0] == JNull || ToJsString(a[0]) == ""))
    ensures |a| >= 2 ==> ',' in r
  {
    if |a| == 0 then ""
    else
      var first := if a[0] == JNull then "" else ToJsString(a[0]);
      if |a| == 1 then first
      else
        var r := first + "," + JoinElements(a[1..]);
        assert r[|first|] == ',';
        r
  }
}
