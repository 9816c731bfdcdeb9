/** The own-property table of a plain JavaScript object (`{}`) whose property
    values are booleans, as far as `obj[key] = value` and `Object.entries(obj)`
    see it.

    The table is kept as one sequence of entries in the order in which
    `Object.entries` lists them (the OrdinaryOwnPropertyKeys order of the
    ECMAScript specification, section 10.1.11.1): first every key that is an
    array index, in ascending numeric order, then every other key, in the order
    in which the properties were created. */
module JsObject {
  import opened Wrappers

  /** One own, enumerable data property. */
  datatype Entry = Entry(key: string, value: bool)

  /** The one name whose assignment on a plain object reaches the accessor
      `Object.prototype.__proto__`; its setter ignores a boolean and creates no
      property. Every other inherited name of `Object.prototype` is a writable
      data property, so assigning it creates an own property as usual. */
  const ProtoKey: string := "__proto__"

  /** Array indices are the integers 0 .. 2^32 - 2. */
  const ArrayIndexLimit: nat := 0xFFFF_FFFF

  predicate IsDigit(c: char) { '0' <= c <= '9' }

  function DigitValue(c: char): nat { if IsDigit(c) then c as int - '0' as int else 0 }

  predicate AllDigits(s: string) { forall i :: 0 <= i < |s| ==> IsDigit(s[i]) }

  /** The number a string of decimal digits denotes. */
  function DecimalValue(s: string): nat
  {
    if s == [] then 0 else DecimalValue(s[..|s| - 1]) * 10 + DigitValue(s[|s| - 1])
  }

  /** Digits only, with no leading zero except "0" itself; below 2^32 - 1 such a
      string is its own `ToString(ToNumber(s))`. */
  predicate IsCanonicalDecimal(s: string)
  {
    |s| > 0 && AllDigits(s) && (s[0] == '0' ==> |s| == 1)
  }

  /** A property key that `Object.entries` lists before all the others. */
  predicate IsArrayIndex(s: string)
  {
    IsCanonicalDecimal(s) && DecimalValue(s) < ArrayIndexLimit
  }

  function Keys(t: seq<Entry>): seq<string>
  {
    seq(|t|, i requires 0 <= i < |t| => t[i].key)
  }

  /** The position of the first occurrence of `k` in `ks`, if any. */
  function IndexOf(ks: seq<string>, k: string): (r: Option<nat>)
    ensures r.Some? ==> r.value < |ks| && ks[r.value] == k
    ensures r.Some? ==> forall j :: 0 <= j < r.value ==> ks[j] != k
    ensures r.None? <==> k !in ks
  {
    if ks == [] then None
    else if ks[0] == k then Some(0)
    else match IndexOf(ks[1..], k)
      case None => None
      case Some(i) => Some(i + 1)
  }

  /** `obj[k]` when `k` is an own key; None stands for a key the object lacks. */
  function Get(t: seq<Entry>, k: string): Option<bool>
  {
    match IndexOf(Keys(t), k)
    case None => None
    case Some(i) => Some(t[i].value)
  }

  /** Where a newly created array-index key `k` goes: after every array index
      that is not larger, before every larger one and before all other keys. */
  function InsertionPoint(t: seq<Entry>, k: string): (p: nat)
    ensures p <= |t|
    ensures forall j :: 0 <= j < p ==> IsArrayIndex(t[j].key) && DecimalValue(t[j].key) <= DecimalValue(k)
    ensures p < |t| ==> !IsArrayIndex(t[p].key) || DecimalValue(k) < DecimalValue(t[p].key)
  {
    if t == [] || !IsArrayIndex(t[0].key) || DecimalValue(k) < DecimalValue(t[0].key) then 0
    else 1 + InsertionPoint(t[1..], k)
  }

  /** Where a new key goes: array indices at their numeric place, every other
      key at the end. */
  function NewKeyPosition(t: seq<Entry>, k: string): (p: nat)
    ensures p <= |t|
  {
    if IsArrayIndex(k) then InsertionPoint(t, k) else |t|
  }

  /** `s` with `x` placed at position `p`. */
  function InsertAt<T>(s: seq<T>, p: nat, x: T): (r: seq<T>)
    requires p <= |s|
    ensures |r| == |s| + 1
  {
    s[..p] + [x] + s[p..]
  }

  /** `obj[k] = v`: overwrite an existing own property where it stands, or
      create a new one where the iteration order puts it. */
  function Assign(t: seq<Entry>, k: string, v: bool): seq<Entry>
  {
    if k == ProtoKey then t
    else match IndexOf(Keys(t), k)
      case Some(i) => t[i := Entry(k, v)]
      case None =>
        InsertAt(t, NewKeyPosition(t, k), Entry(k, v))
  }

  /** The shape the own keys of a plain object always have: no key twice, no
      `__proto__` key, and array-index keys first, strictly ascending. */
  predicate WellFormed(t: seq<Entry>)
  {
    Distinct(Keys(t)) && ProtoKey !in Keys(t) && IndicesFirstAscending(t)
  }

  predicate Distinct(ks: seq<string>)
  {
    forall i, j :: 0 <= i < j < |ks| ==> ks[i] != ks[j]
  }

  predicate IndicesFirstAscending(t: seq<Entry>)
  {
    forall i, j :: 0 <= i < j < |t| && IsArrayIndex(t[j].key) ==>
      IsArrayIndex(t[i].key) && DecimalValue(t[i].key) < DecimalValue(t[j].key)
  }

  /** `a` is listed before `b`; both are keys. */
  predicate Before(ks: seq<string>, a: string, b: string)
  {
    IndexOf(ks, a).Some? && IndexOf(ks, b).Some? && IndexOf(ks, a).value < IndexOf(ks, b).value
  }

  // ---------------------------------------------------------------------------
  // Canonical decimal strings denote distinct numbers

  function Pow10(n: nat): nat { if n == 0 then 1 else 10 * Pow10(n - 1) }

  lemma {:induction false} Pow10Monotone(m: nat, n: nat)
    requires m <= n
    ensures Pow10(m) <= Pow10(n)
  {
    if m < n { Pow10Monotone(m, n - 1); }
  }

  lemma {:induction false} DecimalBelow(s: string)
    requires AllDigits(s)
    ensures DecimalValue(s) < Pow10(|s|)
  {
    if s != [] { DecimalBelow(s[..|s| - 1]); }
  }

  lemma {:induction false} DecimalAtLeast(s: string)
    requires AllDigits(s) && |s| > 0 && s[0] != '0'
    ensures Pow10(|s| - 1) <= DecimalValue(s)
  {
    if |s| > 1 {
      DecimalAtLeast(s[..|s| - 1]);
    }
  }

  lemma {:induction false} DecimalInjectiveSameLength(a: string, b: string)
    requires AllDigits(a) && AllDigits(b) && |a| == |b|
    requires DecimalValue(a) == DecimalValue(b)
    ensures a == b
  {
    if a != [] {
      var n := |a| - 1;
      var da, db := DigitValue(a[n]), DigitValue(b[n]);
      assert DecimalValue(a[..n]) * 10 + da == DecimalValue(b[..n]) * 10 + db;
      assert da == db && DecimalValue(a[..n]) == DecimalValue(b[..n]);
      DecimalInjectiveSameLength(a[..n], b[..n]);
      assert a == a[..n] + [a[n]] && b == b[..n] + [b[n]];
    }
  }

  /** Two different array-index keys never have the same numeric value. */
  lemma CanonicalDecimalInjective(a: string, b: string)
    requires IsCanonicalDecimal(a) && IsCanonicalDecimal(b)
    requires DecimalValue(a) == DecimalValue(b)
    ensures a == b
  {
    if |a| < |b| {
      DecimalBelow(a);
      DecimalAtLeast(b);
      Pow10Monotone(|a|, |b| - 1);
    } else if |b| < |a| {
      DecimalBelow(b);
      DecimalAtLeast(a);
      Pow10Monotone(|b|, |a| - 1);
    } else {
      DecimalInjectiveSameLength(a, b);
    }
  }

  // ---------------------------------------------------------------------------
  // Positions of keys

  lemma IndexOfAt(ks: seq<string>, k: string, i: nat)
    requires i < |ks| && ks[i] == k
    requires forall j :: 0 <= j < i ==> ks[j] != k
    ensures IndexOf(ks, k) == Some(i)
  {
  }

  lemma InsertAtIndex<T>(s: seq<T>, p: nat, x: T, j: nat)
    requires p <= |s| && j <= |s|
    ensures InsertAt(s, p, x)[j] == if j < p then s[j] else if j == p then x else s[j - 1]
  {
  }

  /** Inserting a key `k` at position `p` shifts every other key at or after `p`
      one place to the right. */
  lemma IndexOfInsert(ks: seq<string>, p: nat, k: string, a: string)
    requires p <= |ks| && a in ks && a != k
    ensures var i := IndexOf(ks, a).value;
      IndexOf(InsertAt(ks, p, k), a) == Some(if i < p then i else i + 1)
  {
    var i := IndexOf(ks, a).value;
    var i' := if i < p then i else i + 1;
    InsertAtIndex(ks, p, k, i');
    forall j | 0 <= j < i' ensures InsertAt(ks, p, k)[j] != a {
      InsertAtIndex(ks, p, k, j);
      if j < p {
        assert j < i;
      } else if j > p {
        assert j - 1 < i;
      }
    }
    IndexOfAt(InsertAt(ks, p, k), a, i');
  }

  // ---------------------------------------------------------------------------
  // What one assignment does

  lemma InsertKeys(t: seq<Entry>, p: nat, e: Entry)
    requires p <= |t|
    ensures Keys(InsertAt(t, p, e)) == InsertAt(Keys(t), p, e.key)
  {
  }

  lemma AppendIsInsert<T>(s: seq<T>, x: T)
    ensures InsertAt(s, |s|, x) == s + [x]
  {
  }

  /** An existing key keeps its place; a new non-index key goes to the end; a
      new array-index key goes to its numeric place; `__proto__` changes nothing. */
  lemma AssignKeys(t: seq<Entry>, k: string, v: bool)
    ensures Keys(Assign(t, k, v)) ==
      if k == ProtoKey || k in Keys(t) then Keys(t)
      else if IsArrayIndex(k) then InsertAt(Keys(t), InsertionPoint(t, k), k)
      else Keys(t) + [k]
  {
    if k != ProtoKey && k !in Keys(t) {
      InsertKeys(t, NewKeyPosition(t, k), Entry(k, v));
      AppendIsInsert(Keys(t), k);
    } else if k != ProtoKey {
      var r := Assign(t, k, v);
      assert forall j :: 0 <= j < |t| ==> Keys(r)[j] == Keys(t)[j];
    }
  }

  lemma GetInsertedKey(t: seq<Entry>, p: nat, e: Entry)
    requires p <= |t| && e.key !in Keys(t)
    ensures Get(InsertAt(t, p, e), e.key) == Some(e.value)
  {
    var ks := InsertAt(Keys(t), p, e.key);
    InsertKeys(t, p, e);
    InsertAtIndex(Keys(t), p, e.key, p);
    forall j | 0 <= j < p ensures ks[j] != e.key {
      InsertAtIndex(Keys(t), p, e.key, j);
    }
    IndexOfAt(ks, e.key, p);
    InsertAtIndex(t, p, e, p);
  }

  lemma GetInsertOther(t: seq<Entry>, p: nat, e: Entry, q: string)
    requires p <= |t| && q != e.key
    ensures Get(InsertAt(t, p, e), q) == Get(t, q)
  {
    InsertKeys(t, p, e);
    if q in Keys(t) {
      IndexOfInsert(Keys(t), p, e.key, q);
      var i := IndexOf(Keys(t), q).value;
      InsertAtIndex(t, p, e, if i < p then i else i + 1);
    } else {
      forall j | 0 <= j <= |t| ensures InsertAt(Keys(t), p, e.key)[j] != q {
        InsertAtIndex(Keys(t), p, e.key, j);
      }
    }
  }

  /** After `obj[k] = v`, `obj[k]` is `v` (unless k is `__proto__`) and every other
      key reads as before. */
  lemma AssignGet(t: seq<Entry>, k: string, v: bool, q: string)
    ensures Get(Assign(t, k, v), q) ==
      if q == k && k != ProtoKey then Some(v) else Get(t, q)
  {
    if k != ProtoKey && k !in Keys(t) {
      if q == k {
        GetInsertedKey(t, NewKeyPosition(t, k), Entry(k, v));
      } else {
        GetInsertOther(t, NewKeyPosition(t, k), Entry(k, v), q);
      }
    } else if k != ProtoKey {
      AssignKeys(t, k, v);
    }
  }

  lemma BelowNewIndex(t: seq<Entry>, k: string, j: nat)
    requires IsArrayIndex(k) && k !in Keys(t) && j < InsertionPoint(t, k)
    ensures IsArrayIndex(t[j].key) && DecimalValue(t[j].key) < DecimalValue(k)
  {
    assert Keys(t)[j] == t[j].key;
    if DecimalValue(t[j].key) == DecimalValue(k) {
      CanonicalDecimalInjective(t[j].key, k);
      assert false;
    }
  }

  lemma InsertIndexAscending(t: seq<Entry>, k: string, v: bool)
    requires IndicesFirstAscending(t) && IsArrayIndex(k) && k !in Keys(t)
    ensures IndicesFirstAscending(InsertAt(t, InsertionPoint(t, k), Entry(k, v)))
  {
    var p := InsertionPoint(t, k);
    var r := InsertAt(t, p, Entry(k, v));
    forall i, j | 0 <= i < j < |r| && IsArrayIndex(r[j].key)
      ensures IsArrayIndex(r[i].key) && DecimalValue(r[i].key) < DecimalValue(r[j].key)
    {
      InsertAtIndex(t, p, Entry(k, v), i);
      InsertAtIndex(t, p, Entry(k, v), j);
      if j < p {
      } else if j == p {
        BelowNewIndex(t, k, i);
      } else if i < p {
        BelowNewIndex(t, k, i);
        assert IsArrayIndex(t[p].key) && DecimalValue(t[p].key) <= DecimalValue(t[j - 1].key);
      } else if i == p {
        assert IsArrayIndex(t[p].key) && DecimalValue(t[p].key) <= DecimalValue(t[j - 1].key);
      }
    }
  }

  lemma AppendAscending(t: seq<Entry>, k: string, v: bool)
    requires IndicesFirstAscending(t) && !IsArrayIndex(k)
    ensures IndicesFirstAscending(t + [Entry(k, v)])
  {
  }

  lemma InsertDistinct(ks: seq<string>, p: nat, k: string)
    requires Distinct(ks) && p <= |ks| && k !in ks
    ensures Distinct(InsertAt(ks, p, k))
  {
  }

  lemma AssignAscending(t: seq<Entry>, k: string, v: bool)
    requires IndicesFirstAscending(t) && Distinct(Keys(t))
    ensures IndicesFirstAscending(Assign(t, k, v))
  {
    if k != ProtoKey && k in Keys(t) {
      var i := IndexOf(Keys(t), k).value;
      assert Assign(t, k, v) == t[i := Entry(k, v)];
    } else if k != ProtoKey {
      if IsArrayIndex(k) {
        InsertIndexAscending(t, k, v);
      } else {
        AppendIsInsert(t, Entry(k, v));
        AppendAscending(t, k, v);
      }
    }
  }

  /** Assignment keeps the shape of the own keys. */
  lemma AssignWellFormed(t: seq<Entry>, k: string, v: bool)
    requires WellFormed(t)
    ensures WellFormed(Assign(t, k, v))
  {
    AssignKeys(t, k, v);
    AssignAscending(t, k, v);
    if k != ProtoKey && k !in Keys(t) {
      AppendIsInsert(Keys(t), k);
      InsertDistinct(Keys(t), NewKeyPosition(t, k), k);
    }
  }

  /** Assignment never changes the relative order of two existing keys. */
  lemma AssignKeepsOrder(t: seq<Entry>, k: string, v: bool, a: string, b: string)
    requires Before(Keys(t), a, b)
    ensures Before(Keys(Assign(t, k, v)), a, b)
  {
    AssignKeys(t, k, v);
    var ks := Keys(t);
    if k != ProtoKey && k !in ks {
      var p := NewKeyPosition(t, k);
      AppendIsInsert(ks, k);
      IndexOfInsert(ks, p, k, a);
      IndexOfInsert(ks, p, k, b);
    }
  }

  // ---------------------------------------------------------------------------
  // Keys that are not array indices keep their creation order

  /** The keys of `ks` that are not array indices, in the order given. */
  function NonIndexKeys(ks: seq<string>): seq<string>
  {
    if ks == [] then [] else (if IsArrayIndex(ks[0]) then [] else [ks[0]]) + NonIndexKeys(ks[1..])
  }

  lemma {:induction false} NonIndexKeysAppend(a: seq<string>, b: seq<string>)
    ensures NonIndexKeys(a + b) == NonIndexKeys(a) + NonIndexKeys(b)
  {
    if a != [] {
      assert (a + b)[1..] == a[1..] + b;
      NonIndexKeysAppend(a[1..], b);
    } else {
      assert a + b == b;
    }
  }

  lemma NonIndexKeysSingle(k: string)
    ensures NonIndexKeys([k]) == if IsArrayIndex(k) then [] else [k]
  {
  }

  lemma NonIndexKeysSkipIndex(a: seq<string>, b: seq<string>, k: string)
    requires IsArrayIndex(k)
    ensures NonIndexKeys(a + [k] + b) == NonIndexKeys(a + b)
  {
    NonIndexKeysSingle(k);
    NonIndexKeysAppend(a + [k], b);
    NonIndexKeysAppend(a, [k]);
    NonIndexKeysAppend(a, b);
    assert NonIndexKeys(a) + [] == NonIndexKeys(a);
  }

  lemma NonIndexKeysInsertIndex(ks: seq<string>, p: nat, k: string)
    requires p <= |ks| && IsArrayIndex(k)
    ensures NonIndexKeys(InsertAt(ks, p, k)) == NonIndexKeys(ks)
  {
    NonIndexKeysSkipIndex(ks[..p], ks[p..], k);
    assert ks[..p] + ks[p..] == ks;
  }

  /** Creating an array-index key leaves the other keys where they were;
      creating any other key appends it to them. */
  lemma AssignNonIndexKeys(t: seq<Entry>, k: string, v: bool)
    ensures NonIndexKeys(Keys(Assign(t, k, v))) ==
      NonIndexKeys(Keys(t)) + (if k != ProtoKey && k !in Keys(t) && !IsArrayIndex(k) then [k] else [])
  {
    AssignKeys(t, k, v);
    var ks := Keys(t);
    if k != ProtoKey && k !in ks {
      if IsArrayIndex(k) {
        NonIndexKeysInsertIndex(ks, InsertionPoint(t, k), k);
      } else {
        NonIndexKeysAppend(ks, [k]);
        NonIndexKeysSingle(k);
      }
    }
  }
}
