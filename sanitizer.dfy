/**
 * The output sanitizer: a recursive reduction of parsed govc JSON that drops
 * noise, removes null and empty values, and compacts managed-object
 * references `{ type, value }` to `"type:value"`.
 */
module Sanitizer {
  import opened Wrappers
  import opened Json
  import Text

  /** Keys that are never kept, at any depth: curated vSphere noise. */
  const NoisyKeys: set<string> :=
    {"declaredAlarmState", "availableField", "effectiveRole", "disabledMethod", "iormConfiguration", "browser"}

  /** A managed-object reference: an object with exactly two keys whose `type` and `value` are strings. */
  predicate IsMoRef(v: Value): (b: bool)
    ensures b <==>
      && v.JObj? && |v.fields| == 2
      && ((v.fields[0].key == "type" && v.fields[1].key == "value")
          || (v.fields[0].key == "value" && v.fields[1].key == "type"))
      && v.fields[0].val.JStr? && v.fields[1].val.JStr?
  {
    && v.JObj?
    && |v.fields| == 2
    && (GetPair(v.fields, "type"); GetPair(v.fields, "value");
        && Get(v.fields, "type").Some? && Get(v.fields, "type").value.JStr?
        && Get(v.fields, "value").Some? && Get(v.fields, "value").value.JStr?)
  }

  /** A non-empty array made only of references. */
  predicate IsMoRefArray(a: seq<Value>): (b: bool)
    ensures b <==> a != [] && forall v :: v in a ==> IsMoRef(v)
  {
    |a| > 0 && forall i :: 0 <= i < |a| ==> IsMoRef(a[i])
  }

  /**
   * `"type:value"` for a reference. The separator is the first `:` whenever the
   * type has none, so the two parts can be read back.
   */
  function CompactMoRef(v: Value): (s: string)
    requires IsMoRef(v)
    ensures var t := Get(v.fields, "type").value.s; var x := Get(v.fields, "value").value.s;
      && |s| == |t| + 1 + |x| && s[..|t|] == t && s[|t|] == ':' && s[|t| + 1..] == x
      && (':' !in t ==> Text.IndexOf(s, ':') == |t|)
  {
    var t := Get(v.fields, "type").value.s;
    var x := Get(v.fields, "value").value.s;
    assert t + ":" + x == t + [':'] + x;
    if ':' in t then t + ":" + x else (Text.IndexOfAfter(t, ':', x); t + ":" + x)
  }

  /** `refs.map(compactMoRef)`. */
  function CompactAll(a: seq<Value>): (r: seq<Value>)
    requires forall i :: 0 <= i < |a| ==> IsMoRef(a[i])
    ensures |r| == |a|
    ensures forall i :: 0 <= i < |a| ==> r[i] == JStr(CompactMoRef(a[i]))
    ensures forall i :: 0 <= i < |a| ==> r[i].JStr? && ':' in r[i].s
  {
    seq(|a|, i requires 0 <= i < |a| => JStr(CompactMoRef(a[i])))
  }

  /** No null, no empty array, no empty object and no noisy key, at any depth. */
  predicate Clean(v: Value) {
    match v
    case JNull => false
    case JArr(a) => |a| > 0 && forall i :: 0 <= i < |a| ==> Clean(a[i])
    case JObj(fs) => |fs| > 0 && forall i :: 0 <= i < |fs| ==> fs[i].key !in NoisyKeys && Clean(fs[i].val)
    case _ => true
  }

  /** Every object, at any depth, has distinct keys (as every JavaScript object does). */
  predicate WellFormed(v: Value) {
    match v
    case JArr(a) => forall i :: 0 <= i < |a| ==> WellFormed(a[i])
    case JObj(fs) => DistinctKeys(fs) && forall i :: 0 <= i < |fs| ==> WellFormed(fs[i].val)
    case _ => true
  }

  /** No reference, at any depth. */
  predicate NoMoRef(v: Value) {
    && !IsMoRef(v)
    && match v
       case JArr(a) => forall i :: 0 <= i < |a| ==> NoMoRef(a[i])
       case JObj(fs) => forall i :: 0 <= i < |fs| ==> NoMoRef(fs[i].val)
       case _ => true
  }

  /** `sanitize(v)`, `None` standing for `undefined`. */
  function Sanitized(v: Value): (r: Option<Value>)
    ensures r.Some? ==> Clean(r.value) && WellFormed(r.value)
  {
    match v
    case JNull => None
    case JArr(a) =>
      if |a| == 0 then None
      else if IsMoRefArray(a) then Some(JArr(CompactAll(a)))
      else
        var cleaned := SanitizedElements(a);
        if |cleaned| > 0 then Some(JArr(cleaned)) else None
    case JObj(fs) =>
      if IsMoRef(v) then Some(JStr(CompactMoRef(v)))
      else
        var result := SanitizedFields(fs);
        if |result| > 0 then Some(JObj(result)) else None
    case _ => Some(v)
  }

  /** `a.map(sanitize).filter((x) => x !== undefined)`. */
  function SanitizedElements(a: seq<Value>): (c: seq<Value>)
    ensures |c| <= |a|
    ensures forall i :: 0 <= i < |c| ==> Clean(c[i]) && WellFormed(c[i])
  {
    if a == [] then []
    else SanitizedElements(a[..|a| - 1]) + Sanitized(a[|a| - 1]).ToSeq()
  }

  /** The record the object branch builds from the entries `fs`, one entry at a time. */
  function SanitizedFields(fs: seq<Entry<Value>>): (r: seq<Entry<Value>>)
    ensures |r| <= |fs|
    ensures DistinctKeys(r)
    ensures forall i :: 0 <= i < |r| ==> r[i].key !in NoisyKeys && Clean(r[i].val) && WellFormed(r[i].val)
  {
    if fs == [] then []
    else
      var acc := SanitizedFields(fs[..|fs| - 1]);
      var e := fs[|fs| - 1];
      if e.key in NoisyKeys then acc
      else
        match Sanitized(e.val)
        case None => acc
        case Some(c) => Put(acc, e.key, c)
  }

  /** `sanitize`, with the object branch's loop and `hasKeys` flag. */
  method Sanitize(v: Value) returns (r: Option<Value>)
    ensures r == Sanitized(v)
    decreases v
  {
    match v {
      case JNull =>
        r := None;
      case JArr(a) =>
        if |a| == 0 {
          r := None;
        } else if IsMoRefArray(a) {
          r := Some(JArr(CompactAll(a)));
        } else {
          var cleaned := SanitizedElements(a);
          r := if |cleaned| > 0 then Some(JArr(cleaned)) else None;
        }
      case JObj(fs) =>
        if IsMoRef(v) {
          r := Some(JStr(CompactMoRef(v)));
        } else {
          var result: seq<Entry<Value>> := [];
          var hasKeys := false;
          for i := 0 to |fs|
            invariant result == SanitizedFields(fs[..i])
            invariant hasKeys <==> |result| > 0
          {
            assert fs[..i + 1][..i] == fs[..i];
            var e := fs[i];
            if e.key in NoisyKeys {
              continue;
            }
            var cleaned := Sanitize(e.val);
            if cleaned.Some? {
              result := Put(result, e.key, cleaned.value);
              hasKeys := true;
            }
          }
          assert fs[..|fs|] == fs;
          r := if hasKeys then Some(JObj(result)) else None;
        }
      case _ =>
        r := Some(v);
    }
  }

  // ---- Shapes ------------------------------------------------------------

  /** `null` is absent; booleans, numbers and strings (also `false`, `0` and `""`) pass through. */
  lemma PrimitivesPassThrough(v: Value)
    ensures v == JNull ==> Sanitized(v) == None
    ensures v.JBool? || v.JNum? || v.JStr? ==> Sanitized(v) == Some(v)
  {
  }

  /** A two-key object of string `type` and `value` becomes `"type:value"`, whatever the key order. */
  lemma ReferenceCompacts(t: string, val: string)
    ensures Sanitized(JObj([Entry("type", JStr(t)), Entry("value", JStr(val))])) == Some(JStr(t + ":" + val))
    ensures Sanitized(JObj([Entry("value", JStr(val)), Entry("type", JStr(t))])) == Some(JStr(t + ":" + val))
  {
    var a := [Entry("type", JStr(t)), Entry("value", JStr(val))];
    var b := [Entry("value", JStr(val)), Entry("type", JStr(t))];
    assert KeyIndex(a, "value") == 1 && KeyIndex(b, "type") == 1;
  }

  /**
   * For an object with distinct keys, being a reference means exactly: two
   * entries, keyed `type` and `value`, both strings.
   */
  lemma MoRefShape(fs: seq<Entry<Value>>)
    requires DistinctKeys(fs)
    ensures IsMoRef(JObj(fs)) <==>
      && |fs| == 2
      && (forall i :: 0 <= i < |fs| ==> (fs[i].key == "type" || fs[i].key == "value") && fs[i].val.JStr?)
  {
    if |fs| == 2 {
      GetPair(fs, "type");
      GetPair(fs, "value");
    }
  }

  // ---- Arrays --------------------------------------------------------------

  /** An array of references becomes, element for element and in order, their compact strings. */
  lemma ReferenceArrayCompacts(a: seq<Value>)
    requires IsMoRefArray(a)
    ensures Sanitized(JArr(a)).Some? && Sanitized(JArr(a)).value.JArr?
    ensures var c := Sanitized(JArr(a)).value.elems;
      |c| == |a| && forall i :: 0 <= i < |a| ==> c[i] == JStr(CompactMoRef(a[i]))
  {
  }

  /** Any other non-empty array is sanitized element by element, and is absent when nothing survives. */
  lemma MixedArrayRecurses(a: seq<Value>)
    requires |a| > 0 && !IsMoRefArray(a)
    ensures Sanitized(JArr(a)) == if SanitizedElements(a) == [] then None else Some(JArr(SanitizedElements(a)))
  {
  }

  /** The element pass keeps relative order: it distributes over concatenation. */
  lemma {:induction false} ElementsAppend(a: seq<Value>, b: seq<Value>)
    ensures SanitizedElements(a + b) == SanitizedElements(a) + SanitizedElements(b)
    decreases |b|
  {
    if b == [] {
      assert a + b == a;
    } else {
      var b' := b[..|b| - 1];
      assert (a + b)[..|a + b| - 1] == a + b';
      assert (a + b)[|a + b| - 1] == b[|b| - 1];
      ElementsAppend(a, b');
    }
  }

  /** On one element, the element pass keeps the sanitized element or drops an absent one. */
  lemma ElementsSingleton(x: Value)
    ensures SanitizedElements([x]) == Sanitized(x).ToSeq()
  {
    assert [x][..0] == [];
  }

  /** The element pass yields nothing exactly when every element sanitizes to absent. */
  lemma {:induction false} ElementsAllAbsent(a: seq<Value>)
    ensures SanitizedElements(a) == [] <==> forall i :: 0 <= i < |a| ==> Sanitized(a[i]).None?
  {
    if a != [] {
      var p := a[..|a| - 1];
      ElementsAllAbsent(p);
      assert forall i :: 0 <= i < |p| ==> p[i] == a[i];
    }
  }

  // ---- Objects -------------------------------------------------------------

  /** An entry survives the object loop: its key is not noisy and its value does not sanitize to absent. */
  predicate Survives(e: Entry<Value>) {
    e.key !in NoisyKeys && Sanitized(e.val).Some?
  }

  /** No entry of `fs` survives the object loop. */
  predicate NoneSurvive(fs: seq<Entry<Value>>) {
    forall i :: 0 <= i < |fs| ==> !Survives(fs[i])
  }

  /** The surviving entries of `fs` in input order: non-noisy keys whose values are not absent. */
  function KeptFields(fs: seq<Entry<Value>>): seq<Entry<Value>> {
    if fs == [] then []
    else
      var e := fs[0];
      var kept := if e.key !in NoisyKeys && Sanitized(e.val).Some? then [Entry(e.key, Sanitized(e.val).value)] else [];
      kept + KeptFields(fs[1..])
  }

  lemma {:induction false} KeptAppend(a: seq<Entry<Value>>, b: seq<Entry<Value>>)
    ensures KeptFields(a + b) == KeptFields(a) + KeptFields(b)
    decreases |a|
  {
    if a == [] {
      assert a + b == b;
    } else {
      assert (a + b)[0] == a[0];
      assert (a + b)[1..] == a[1..] + b;
      KeptAppend(a[1..], b);
    }
  }

  lemma {:induction false} KeptKeysAreInputKeys(fs: seq<Entry<Value>>, k: string)
    ensures k in Keys(KeptFields(fs)) ==> k in Keys(fs)
    decreases |fs|
  {
    if fs != [] {
      var e := fs[0];
      var kept := if e.key !in NoisyKeys && Sanitized(e.val).Some? then [Entry(e.key, Sanitized(e.val).value)] else [];
      assert Keys(KeptFields(fs)) == Keys(kept) + Keys(KeptFields(fs[1..]));
      assert Keys(fs) == [e.key] + Keys(fs[1..]);
      KeptKeysAreInputKeys(fs[1..], k);
    }
  }

  /** On an object with distinct keys, the loop's record is exactly the surviving entries in input order. */
  lemma {:induction false} FieldsAreKept(fs: seq<Entry<Value>>)
    requires DistinctKeys(fs)
    ensures SanitizedFields(fs) == KeptFields(fs)
    decreases |fs|
  {
    if fs != [] {
      var p := fs[..|fs| - 1];
      var e := fs[|fs| - 1];
      assert fs == p + [e];
      FieldsAreKept(p);
      KeptAppend(p, [e]);
      assert KeptFields([e]) == (if e.key !in NoisyKeys && Sanitized(e.val).Some? then [Entry(e.key, Sanitized(e.val).value)] else []);
      KeptKeysAreInputKeys(p, e.key);
      assert forall j :: 0 <= j < |p| ==> Keys(p)[j] == fs[j].key != e.key;
    }
  }

  /** An entry survives exactly when some input entry has its key, the key is not noisy, and its value sanitizes to it. */
  lemma {:induction false} KeptMembership(fs: seq<Entry<Value>>, k: string, w: Value)
    ensures Entry(k, w) in KeptFields(fs) <==>
      exists i :: 0 <= i < |fs| && fs[i].key == k && k !in NoisyKeys && Sanitized(fs[i].val) == Some(w)
    decreases |fs|
  {
    if fs != [] {
      KeptMembership(fs[1..], k, w);
      assert forall i :: 1 <= i < |fs| ==> fs[i] == fs[1..][i - 1];
      assert forall i :: 0 <= i < |fs| - 1 ==> fs[1..][i] == fs[i + 1];
    }
  }

  /** The object branch builds an empty record exactly when no entry survives. */
  lemma {:induction false} FieldsAllDropped(fs: seq<Entry<Value>>)
    ensures SanitizedFields(fs) == [] <==> NoneSurvive(fs)
    decreases |fs|
  {
    if fs != [] {
      var p := fs[..|fs| - 1];
      FieldsAllDropped(p);
      assert forall i :: 0 <= i < |p| ==> p[i] == fs[i];
    }
  }

  /**
   * An object that is not a reference sanitizes to its surviving entries, in
   * input order, and to absent when none survives.
   */
  lemma ObjectSanitizes(fs: seq<Entry<Value>>)
    requires DistinctKeys(fs) && !IsMoRef(JObj(fs))
    ensures Sanitized(JObj(fs)) == if KeptFields(fs) == [] then None else Some(JObj(KeptFields(fs)))
    ensures Sanitized(JObj(fs)) == None <==> NoneSurvive(fs)
  {
    SanitizedObject(fs);
    assert SanitizedFields(fs) == KeptFields(fs) by { FieldsAreKept(fs); }
    assert (Sanitized(JObj(fs)) == None) == (SanitizedFields(fs) == []);
    FieldsAllDropped(fs);
  }

  /** A record that is not a reference sanitizes to its surviving fields, or to absent when none survive. */
  lemma SanitizedObject(fs: seq<Entry<Value>>)
    requires !IsMoRef(JObj(fs))
    ensures Sanitized(JObj(fs)) == if |SanitizedFields(fs)| > 0 then Some(JObj(SanitizedFields(fs))) else None
  {
  }

  // ---- A second pass -------------------------------------------------------

  /**
   * Pruning a field can leave a reference behind, which only a second pass
   * compacts: `{type, value, k: null}` becomes `{type, value}`, then `"type:value"`.
   */
  lemma SecondPassCompactsPrunedReference(t: string, val: string, k: string)
    requires k != "type" && k != "value"
    ensures var once := JObj([Entry("type", JStr(t)), Entry("value", JStr(val))]);
      && Sanitized(JObj([Entry("type", JStr(t)), Entry("value", JStr(val)), Entry(k, JNull)])) == Some(once)
      && Sanitized(once) == Some(JStr(t + ":" + val))
      && Sanitized(once) != Some(once)
  {
    var pair := [Entry("type", JStr(t)), Entry("value", JStr(val))];
    var fs := pair + [Entry(k, JNull)];
    assert fs == [Entry("type", JStr(t)), Entry("value", JStr(val)), Entry(k, JNull)];
    assert fs[..|fs| - 1] == pair;
    TwoStringFields("type", t, "value", val);
    assert SanitizedFields(fs) == pair;
    assert !IsMoRef(JObj(fs));
    ReferenceCompacts(t, val);
  }

  lemma ReferenceKeysNotNoisy()
    ensures "type" !in NoisyKeys && "value" !in NoisyKeys
  {
  }

  /** One more entry through the object loop: a kept one is assigned onto the record built so far. */
  lemma FieldStep(p: seq<Entry<Value>>, e: Entry<Value>, c: Value)
    requires e.key !in NoisyKeys && Sanitized(e.val) == Some(c)
    ensures SanitizedFields(p + [e]) == Put(SanitizedFields(p), e.key, c)
  {
    var fs := p + [e];
    assert fs[..|fs| - 1] == p && fs[|fs| - 1] == e;
  }

  /** The object loop over one kept entry. */
  lemma OneField(e: Entry<Value>, c: Value)
    requires e.key !in NoisyKeys && Sanitized(e.val) == Some(c)
    ensures SanitizedFields([e]) == [Entry(e.key, c)]
  {
    FieldStep([], e, c);
    assert [] + [e] == [e];
  }

  /** The object loop over a kept entry, then a second one under another key. */
  lemma SecondField(e1: Entry<Value>, e2: Entry<Value>, c2: Value)
    requires e1.key != e2.key && e1.key !in NoisyKeys && e2.key !in NoisyKeys
    requires Sanitized(e1.val) == Some(e1.val) && Sanitized(e2.val) == Some(c2)
    ensures SanitizedFields([e1, e2]) == [e1, Entry(e2.key, c2)]
  {
    assert SanitizedFields([e1]) == [e1] by {
      OneField(e1, e1.val);
    }
    assert SanitizedFields([e1, e2]) == Put([e1], e2.key, c2) by {
      FieldStep([e1], e2, c2);
      Pair(e1, e2);
    }
    PutSecond(e1, e2.key, c2);
  }

  lemma Pair<T>(a: T, b: T)
    ensures [a] + [b] == [a, b]
  {
  }

  /** Assigning a second key to a one-entry record appends it. */
  lemma PutSecond(e1: Entry<Value>, k2: string, c2: Value)
    requires e1.key != k2
    ensures Put([e1], k2, c2) == [e1, Entry(k2, c2)]
  {
    assert Keys([e1]) == [e1.key];
  }

  /** The object loop over two plain string entries with different keys keeps both. */
  lemma TwoStringFields(k1: string, s1: string, k2: string, s2: string)
    requires k1 != k2 && k1 !in NoisyKeys && k2 !in NoisyKeys
    ensures SanitizedFields([Entry(k1, JStr(s1)), Entry(k2, JStr(s2))]) == [Entry(k1, JStr(s1)), Entry(k2, JStr(s2))]
  {
    SecondField(Entry(k1, JStr(s1)), Entry(k2, JStr(s2)), JStr(s2));
  }

  /**
   * A `value` that is itself a reference compacts to a string, which turns its
   * parent into a reference for the next pass.
   */
  lemma SecondPassCompactsNestedReference(t: string, t': string, val: string)
    ensures var inner := JObj([Entry("type", JStr(t')), Entry("value", JStr(val))]);
      var once := JObj([Entry("type", JStr(t)), Entry("value", JStr(t' + ":" + val))]);
      && Sanitized(JObj([Entry("type", JStr(t)), Entry("value", inner)])) == Some(once)
      && Sanitized(once) == Some(JStr(t + ":" + (t' + ":" + val)))
  {
    var inner := JObj([Entry("type", JStr(t')), Entry("value", JStr(val))]);
    var fs := [Entry("type", JStr(t)), Entry("value", inner)];
    NestedReferenceFields(t, t', val);
    assert KeyIndex(fs, "value") == 1;
    assert !IsMoRef(JObj(fs));
    assert Sanitized(JObj(fs)) == Some(JObj(SanitizedFields(fs)));
    ReferenceCompacts(t, t' + ":" + val);
  }

  lemma NestedReferenceFields(t: string, t': string, val: string)
    ensures var inner := JObj([Entry("type", JStr(t')), Entry("value", JStr(val))]);
      SanitizedFields([Entry("type", JStr(t)), Entry("value", inner)])
        == [Entry("type", JStr(t)), Entry("value", JStr(t' + ":" + val))]
  {
    ReferenceCompacts(t', val);
    ReferenceKeysNotNoisy();
    assert "type"[0] != "value"[0];
    SecondField(Entry("type", JStr(t)), Entry("value", JObj([Entry("type", JStr(t')), Entry("value", JStr(val))])), JStr(t' + ":" + val));
  }

  lemma {:induction false} ElementsIdentity(a: seq<Value>)
    requires forall i :: 0 <= i < |a| ==> Sanitized(a[i]) == Some(a[i])
    ensures SanitizedElements(a) == a
  {
    if a != [] {
      var p, x := a[..|a| - 1], a[|a| - 1];
      assert SanitizedElements(p) == p by {
        assert forall i :: 0 <= i < |p| ==> p[i] == a[i];
        ElementsIdentity(p);
      }
      assert Sanitized(x).ToSeq() == [x];
      assert SanitizedElements(a) == SanitizedElements(p) + [x];
      assert p + [x] == a;
    }
  }

  lemma {:induction false} ElementsFixed(a: seq<Value>)
    requires SanitizedElements(a) == a
    ensures forall i :: 0 <= i < |a| ==> Sanitized(a[i]) == Some(a[i])
  {
    if a != [] {
      var p := a[..|a| - 1];
      var o := Sanitized(a[|a| - 1]).ToSeq();
      assert SanitizedElements(p) + o == p + [a[|a| - 1]];
      assert |o| == 1;
      assert SanitizedElements(p) == (SanitizedElements(p) + o)[..|p|] == p;
      ElementsFixed(p);
      assert forall i :: 0 <= i < |p| ==> p[i] == a[i];
    }
  }

  lemma {:induction false} FieldsIdentity(fs: seq<Entry<Value>>)
    requires DistinctKeys(fs)
    requires forall i :: 0 <= i < |fs| ==> fs[i].key !in NoisyKeys && Sanitized(fs[i].val) == Some(fs[i].val)
    ensures SanitizedFields(fs) == fs
  {
    if fs != [] {
      var p := fs[..|fs| - 1];
      var e := fs[|fs| - 1];
      assert fs == p + [e];
      assert forall i :: 0 <= i < |p| ==> p[i] == fs[i];
      DistinctSnoc(fs);
      FieldsIdentity(p);
      assert e.key !in NoisyKeys && Sanitized(e.val) == Some(e.val);
      assert SanitizedFields(fs) == Put(SanitizedFields(p), e.key, e.val);
      assert Put(p, e.key, e.val) == p + [Entry(e.key, e.val)];
    }
  }

  lemma {:induction false} FieldsFixed(fs: seq<Entry<Value>>)
    requires SanitizedFields(fs) == fs
    ensures forall i :: 0 <= i < |fs| ==> Sanitized(fs[i].val) == Some(fs[i].val)
  {
    if fs != [] {
      var p := fs[..|fs| - 1];
      var e := fs[|fs| - 1];
      var acc := SanitizedFields(p);
      assert e.key !in NoisyKeys && Sanitized(e.val).Some?;
      var c := Sanitized(e.val).value;
      assert e.key !in Keys(acc);
      assert acc + [Entry(e.key, c)] == p + [e];
      assert acc == (acc + [Entry(e.key, c)])[..|p|] == p;
      FieldsFixed(p);
      assert forall i :: 0 <= i < |p| ==> p[i] == fs[i];
    }
  }

  /** Sanitizing leaves a clean, well-formed value unchanged exactly when it holds no reference. */
  lemma {:induction false} FixedPointIffNoReference(v: Value)
    requires Clean(v) && WellFormed(v)
    ensures Sanitized(v) == Some(v) <==> NoMoRef(v)
  {
    if NoMoRef(v) {
      NoReferenceIsFixed(v);
    }
    if Sanitized(v) == Some(v) {
      FixedHasNoReference(v);
    }
  }

  lemma {:induction false} NoReferenceIsFixed(v: Value)
    requires Clean(v) && WellFormed(v) && NoMoRef(v)
    ensures Sanitized(v) == Some(v)
  {
    match v
    case JArr(a) =>
      forall i | 0 <= i < |a| ensures Sanitized(a[i]) == Some(a[i]) {
        NoReferenceIsFixed(a[i]);
      }
      ArrayIsFixed(a);
    case JObj(fs) =>
      forall i | 0 <= i < |fs| ensures Sanitized(fs[i].val) == Some(fs[i].val) {
        NoReferenceIsFixed(fs[i].val);
      }
      ObjectIsFixed(fs);
    case _ =>
  }

  lemma ArrayIsFixed(a: seq<Value>)
    requires |a| > 0 && !IsMoRef(a[0])
    requires forall i :: 0 <= i < |a| ==> Sanitized(a[i]) == Some(a[i])
    ensures Sanitized(JArr(a)) == Some(JArr(a))
  {
    ElementsIdentity(a);
  }

  lemma ObjectIsFixed(fs: seq<Entry<Value>>)
    requires |fs| > 0 && !IsMoRef(JObj(fs)) && DistinctKeys(fs)
    requires forall i :: 0 <= i < |fs| ==> fs[i].key !in NoisyKeys && Sanitized(fs[i].val) == Some(fs[i].val)
    ensures Sanitized(JObj(fs)) == Some(JObj(fs))
  {
    FieldsIdentity(fs);
  }

  lemma {:induction false} FixedHasNoReference(v: Value)
    requires Sanitized(v) == Some(v)
    ensures NoMoRef(v)
  {
    match v
    case JArr(a) =>
      ElementsFixed(a);
      forall i | 0 <= i < |a| ensures NoMoRef(a[i]) {
        FixedHasNoReference(a[i]);
      }
    case JObj(fs) =>
      assert !IsMoRef(v);
      FieldsFixed(fs);
      forall i | 0 <= i < |fs| ensures NoMoRef(fs[i].val) {
        FixedHasNoReference(fs[i].val);
      }
    case _ =>
  }

  /**
   * A second pass changes nothing exactly when the first pass left no
   * reference anywhere in its result (`sanitize(undefined)` is `undefined`).
   */
  lemma SecondPassIffNoReference(v: Value)
    ensures Sanitized(v).Some? ==>
      (Sanitized(Sanitized(v).value) == Sanitized(v) <==> NoMoRef(Sanitized(v).value))
  {
    if Sanitized(v).Some? {
      FixedPointIffNoReference(Sanitized(v).value);
    }
  }
}
