/**
 * The recursive merge of two PHP arrays.
 *
 * A PHP array is an ordered sequence of entries, each a key (an integer or
 * a string) and a value (null, a scalar, or a nested array). The merge walks
 * the entries of the second array in order and applies one of four rules:
 * add a missing key, append on an integer-key clash, merge two nested
 * arrays, or overwrite.
 */
module ArrayMerge {
  import opened Wrappers

  datatype Key = IntKey(i: int) | StrKey(s: string)

  /** Values that are not arrays only matter through their identity, so a scalar is its text. */
  datatype Value = Null | Scalar(text: string) | Arr(entries: seq<Entry>)

  datatype Entry = Entry(key: Key, value: Value)

  /** The keys of an array. */
  function KeySet(s: seq<Entry>): set<Key>
  {
    set i | 0 <= i < |s| :: s[i].key
  }

  /** No key occurs twice, as in every PHP array. */
  predicate DistinctKeys(s: seq<Entry>)
  {
    forall i, j | 0 <= i < j < |s| :: s[i].key != s[j].key
  }

  /** The first index at or after `from` that holds key `k`. */
  function FindFrom(s: seq<Entry>, k: Key, from: nat): (r: Option<nat>)
    decreases |s| - from
    ensures r.Some? ==> from <= r.value < |s| && s[r.value].key == k
    ensures r.Some? ==> forall j | from <= j < r.value :: s[j].key != k
    ensures r.None? ==> forall j | from <= j < |s| :: s[j].key != k
  {
    if from >= |s| then None
    else if s[from].key == k then Some(from)
    else FindFrom(s, k, from + 1)
  }

  /**
   * Where key `k` sits in `s`: the presence test of the merge, under which a
   * key holding null is present, and the slot that indexing by `k` refers to.
   */
  function Find(s: seq<Entry>, k: Key): (r: Option<nat>)
    ensures r.Some? <==> k in KeySet(s)
    ensures r.Some? ==> r.value < |s| && s[r.value].key == k
    ensures r.Some? ==> forall j | 0 <= j < r.value :: s[j].key != k
  {
    FindFrom(s, k, 0)
  }

  /** The value under key `k`, when the key is there. */
  function Lookup(s: seq<Entry>, k: Key): Option<Value>
  {
    match Find(s, k)
    case None => None
    case Some(i) => Some(s[i].value)
  }

  /** The largest integer key of `s`, when it has one. */
  function MaxIntKey(s: seq<Entry>): (r: Option<int>)
    ensures r.Some? ==> IntKey(r.value) in KeySet(s)
    ensures r.Some? ==> forall i | 0 <= i < |s| && s[i].key.IntKey? :: s[i].key.i <= r.value
    ensures r.None? ==> forall i | 0 <= i < |s| :: s[i].key.StrKey?
  {
    if s == [] then None
    else
      var rest := MaxIntKey(s[1..]);
      assert forall i | 1 <= i < |s| :: s[i] == s[1..][i - 1];
      if s[0].key.StrKey? then rest
      else if rest.None? || rest.value < s[0].key.i then Some(s[0].key.i)
      else rest
  }

  /** The key an append uses: one more than the largest integer key, or 0 when there is none. */
  function NextIntKey(s: seq<Entry>): (r: int)
    ensures IntKey(r) !in KeySet(s)
    ensures forall i | 0 <= i < |s| && s[i].key.IntKey? :: s[i].key.i < r
  {
    match MaxIntKey(s)
    case None => 0
    case Some(m) => m + 1
  }

  /**
   * The append key exactly: 0 for an array without integer keys, and
   * otherwise one more than an integer key the array holds, which is
   * therefore its largest.
   */
  lemma NextIntKeyIsMaxPlusOne(s: seq<Entry>)
    ensures (forall i | 0 <= i < |s| :: s[i].key.StrKey?) ==> NextIntKey(s) == 0
    ensures (exists i | 0 <= i < |s| :: s[i].key.IntKey?) ==> IntKey(NextIntKey(s) - 1) in KeySet(s)
  {
    if exists i | 0 <= i < |s| :: s[i].key.IntKey? {
      var i :| 0 <= i < |s| && s[i].key.IntKey?;
      assert MaxIntKey(s).Some?;
    }
  }

  /**
   * The array after the loop has handled the first `n` entries of `b`:
   * a missing key is added at the end; an integer key that is already there
   * is appended under the next integer key unless numeric keys are
   * preserved; two nested arrays are merged; otherwise b's value overwrites
   * a's in place.
   */
  function MergeUpTo(a: seq<Entry>, b: seq<Entry>, n: nat, preserveNumericKeys: bool): seq<Entry>
    requires n <= |b|
    decreases Arr(b), n
  {
    if n == 0 then a
    else
      var acc := MergeUpTo(a, b, n - 1, preserveNumericKeys);
      var e := b[n - 1];
      match Find(acc, e.key)
      case None => acc + [e]
      case Some(i) =>
        if !preserveNumericKeys && e.key.IntKey? then
          acc + [Entry(IntKey(NextIntKey(acc)), e.value)]
        else if e.value.Arr? && acc[i].value.Arr? then
          assert e.value == Arr(e.value.entries);
          acc[i := Entry(e.key, Arr(Merge(acc[i].value.entries, e.value.entries, preserveNumericKeys)))]
        else
          acc[i := Entry(e.key, e.value)]
  }

  /** The recursive merge of `b` into `a`. */
  function Merge(a: seq<Entry>, b: seq<Entry>, preserveNumericKeys: bool): seq<Entry>
    decreases Arr(b), |b| + 1
  {
    MergeUpTo(a, b, |b|, preserveNumericKeys)
  }

  /**
   * The merge as the source runs it: a loop over `b` that reassigns the
   * local array, recursing for two nested arrays.
   */
  method ArrayMergeRecursive(a: seq<Entry>, b: seq<Entry>, preserveNumericKeys: bool) returns (r: seq<Entry>)
    decreases Arr(b)
    ensures r == Merge(a, b, preserveNumericKeys)
  {
    r := a;
    var n := 0;
    while n < |b|
      invariant 0 <= n <= |b|
      invariant r == MergeUpTo(a, b, n, preserveNumericKeys)
    {
      var key, value := b[n].key, b[n].value;
      var slot := Find(r, key);
      if slot.None? {
        r := r + [b[n]];
      } else if !preserveNumericKeys && key.IntKey? {
        r := r + [Entry(IntKey(NextIntKey(r)), value)];
      } else if value.Arr? && r[slot.value].value.Arr? {
        assert value == Arr(value.entries);
        var inner := ArrayMergeRecursive(r[slot.value].value.entries, value.entries, preserveNumericKeys);
        r := r[slot.value := Entry(key, Arr(inner))];
      } else {
        r := r[slot.value := Entry(key, value)];
      }
      n := n + 1;
    }
  }

  // ---------------------------------------------------------------------
  // Facts about finding, looking up and collecting keys

  predicate SameKeys(s: seq<Entry>, t: seq<Entry>)
  {
    |s| == |t| && forall i | 0 <= i < |s| :: s[i].key == t[i].key
  }

  lemma FindIs(s: seq<Entry>, k: Key, i: nat)
    requires i < |s| && s[i].key == k
    requires forall j | 0 <= j < i :: s[j].key != k
    ensures Find(s, k) == Some(i)
  {
    assert s[i].key in KeySet(s);
  }

  lemma NotInKeySet(s: seq<Entry>, k: Key)
    requires k !in KeySet(s)
    ensures forall j | 0 <= j < |s| :: s[j].key != k
  {
    forall j | 0 <= j < |s|
      ensures s[j].key != k
    {
      assert s[j].key in KeySet(s);
    }
  }

  lemma FindSameKeys(s: seq<Entry>, t: seq<Entry>, k: Key)
    requires SameKeys(s, t)
    ensures Find(s, k) == Find(t, k)
  {
    match Find(s, k)
    case Some(i) => FindIs(t, k, i);
    case None =>
      NotInKeySet(s, k);
      assert forall j | 0 <= j < |t| :: t[j].key == s[j].key;
  }

  lemma KeySetSameKeys(s: seq<Entry>, t: seq<Entry>)
    requires SameKeys(s, t)
    ensures KeySet(s) == KeySet(t)
  {
    forall k | k in KeySet(s)
      ensures k in KeySet(t)
    {
      var i :| 0 <= i < |s| && s[i].key == k;
      assert t[i].key == k;
    }
    forall k | k in KeySet(t)
      ensures k in KeySet(s)
    {
      var i :| 0 <= i < |t| && t[i].key == k;
      assert s[i].key == k;
    }
  }

  lemma KeySetAppend(s: seq<Entry>, e: Entry)
    ensures KeySet(s + [e]) == KeySet(s) + {e.key}
  {
    assert (s + [e])[|s|] == e;
    forall k | k in KeySet(s)
      ensures k in KeySet(s + [e])
    {
      var i :| 0 <= i < |s| && s[i].key == k;
      assert (s + [e])[i] == s[i];
    }
  }

  lemma LookupAppend(s: seq<Entry>, e: Entry, k: Key)
    ensures Lookup(s + [e], k) == if k in KeySet(s) then Lookup(s, k) else if e.key == k then Some(e.value) else None
  {
    match Find(s, k)
    case Some(i) =>
      FindIs(s + [e], k, i);
    case None =>
      NotInKeySet(s, k);
      assert forall j | 0 <= j < |s| :: (s + [e])[j] == s[j];
      if e.key == k {
        FindIs(s + [e], k, |s|);
      } else {
        assert (s + [e])[|s|] == e;
      }
  }

  lemma LookupUpdate(s: seq<Entry>, i: nat, v: Value, k: Key)
    requires i < |s|
    ensures Lookup(s[i := Entry(s[i].key, v)], k) == if Find(s, k) == Some(i) then Some(v) else Lookup(s, k)
  {
    FindSameKeys(s, s[i := Entry(s[i].key, v)], k);
  }

  lemma DistinctAppend(s: seq<Entry>, e: Entry)
    requires DistinctKeys(s) && e.key !in KeySet(s)
    ensures DistinctKeys(s + [e])
  {
    NotInKeySet(s, e.key);
  }

  lemma DistinctSameKeys(s: seq<Entry>, t: seq<Entry>)
    requires DistinctKeys(s) && SameKeys(s, t)
    ensures DistinctKeys(t)
  {
    forall i, j | 0 <= i < j < |t|
      ensures t[i].key != t[j].key
    {
      assert s[i].key != s[j].key;
    }
  }

  // ---------------------------------------------------------------------
  // What the merge keeps of `a`

  /** One step keeps every key in place and touches only the entry whose key it handles. */
  lemma StepKeepsKeys(a: seq<Entry>, b: seq<Entry>, m: nat, p: bool)
    requires m < |b|
    ensures |MergeUpTo(a, b, m, p)| <= |MergeUpTo(a, b, m + 1, p)|
    ensures forall i | 0 <= i < |MergeUpTo(a, b, m, p)| ::
      MergeUpTo(a, b, m + 1, p)[i].key == MergeUpTo(a, b, m, p)[i].key
    ensures forall i | 0 <= i < |MergeUpTo(a, b, m, p)| && MergeUpTo(a, b, m, p)[i].key != b[m].key ::
      MergeUpTo(a, b, m + 1, p)[i] == MergeUpTo(a, b, m, p)[i]
  {
    var acc, e := MergeUpTo(a, b, m, p), b[m];
    var next := MergeUpTo(a, b, m + 1, p);
    match Find(acc, e.key)
    case None =>
      assert next == acc + [e];
    case Some(i) =>
      if !p && e.key.IntKey? {
        assert next == acc + [Entry(IntKey(NextIntKey(acc)), e.value)];
      } else {
        assert |next| == |acc| && next[i].key == e.key;
        assert forall j | 0 <= j < |acc| && j != i :: next[j] == acc[j];
      }
  }

  /** No key of `a` is removed or moved, and an entry of `a` whose key `b` lacks is untouched. */
  lemma {:induction false} MergeUpToKeepsA(a: seq<Entry>, b: seq<Entry>, n: nat, p: bool)
    requires n <= |b|
    ensures |a| <= |MergeUpTo(a, b, n, p)|
    ensures forall i | 0 <= i < |a| :: MergeUpTo(a, b, n, p)[i].key == a[i].key
    ensures forall i | 0 <= i < |a| && a[i].key !in KeySet(b[..n]) :: MergeUpTo(a, b, n, p)[i] == a[i]
  {
    if n > 0 {
      var acc, next, e := MergeUpTo(a, b, n - 1, p), MergeUpTo(a, b, n, p), b[n - 1];
      MergeUpToKeepsA(a, b, n - 1, p);
      StepKeepsKeys(a, b, n - 1, p);
      assert b[..n] == b[..n - 1] + [e];
      KeySetAppend(b[..n - 1], e);
      forall i | 0 <= i < |a| && a[i].key !in KeySet(b[..n])
        ensures next[i] == a[i]
      {
        assert acc[i] == a[i];
      }
    }
  }

  /**
   * The merge only adds after the entries of `a`: their keys keep their
   * order, and an entry whose key does not occur in `b` keeps its value.
   */
  lemma MergeKeepsA(a: seq<Entry>, b: seq<Entry>, p: bool)
    ensures |a| <= |Merge(a, b, p)|
    ensures forall i | 0 <= i < |a| :: Merge(a, b, p)[i].key == a[i].key
    ensures forall i | 0 <= i < |a| && a[i].key !in KeySet(b) :: Merge(a, b, p)[i] == a[i]
  {
    MergeUpToKeepsA(a, b, |b|, p);
    assert b[..|b|] == b;
  }

  // ---------------------------------------------------------------------
  // The keys of the result

  /** One step adds the key it handles, or the next integer key when it appends on a clash. */
  lemma StepKeySet(a: seq<Entry>, b: seq<Entry>, m: nat, p: bool)
    requires m < |b|
    ensures var acc := MergeUpTo(a, b, m, p);
      KeySet(MergeUpTo(a, b, m + 1, p)) == KeySet(acc) +
        {if b[m].key in KeySet(acc) && !p && b[m].key.IntKey? then IntKey(NextIntKey(acc)) else b[m].key}
  {
    var acc, e := MergeUpTo(a, b, m, p), b[m];
    var next := MergeUpTo(a, b, m + 1, p);
    match Find(acc, e.key)
    case None =>
      KeySetAppend(acc, e);
    case Some(i) =>
      if !p && e.key.IntKey? {
        KeySetAppend(acc, Entry(IntKey(NextIntKey(acc)), e.value));
      } else {
        assert next == acc[i := Entry(acc[i].key, next[i].value)];
        KeySetSameKeys(acc, next);
      }
  }

  lemma {:induction false} MergeUpToKeySet(a: seq<Entry>, b: seq<Entry>, n: nat, p: bool)
    requires n <= |b|
    ensures KeySet(a) + KeySet(b[..n]) <= KeySet(MergeUpTo(a, b, n, p))
    ensures forall k | k in KeySet(MergeUpTo(a, b, n, p)) && k !in KeySet(a) + KeySet(b[..n]) :: k.IntKey? && !p
  {
    if n == 0 {
      assert b[..n] == [];
    } else {
      MergeUpToKeySet(a, b, n - 1, p);
      var acc, next, e := MergeUpTo(a, b, n - 1, p), MergeUpTo(a, b, n, p), b[n - 1];
      assert b[..n] == b[..n - 1] + [e];
      KeySetAppend(b[..n - 1], e);
      StepKeySet(a, b, n - 1, p);
      var x := if e.key in KeySet(acc) && !p && e.key.IntKey? then IntKey(NextIntKey(acc)) else e.key;
      KeySetGrow(KeySet(a), KeySet(b[..n - 1]), e.key, KeySet(acc), KeySet(next), x, p);
    }
  }

  /** The key-set bookkeeping of one step, on sets alone. */
  lemma KeySetGrow(ka: set<Key>, kb: set<Key>, ek: Key, kacc: set<Key>, knext: set<Key>, x: Key, p: bool)
    requires ka + kb <= kacc
    requires forall k | k in kacc && k !in ka + kb :: k.IntKey? && !p
    requires knext == kacc + {x}
    requires x == ek || (ek in kacc && x.IntKey? && !p)
    ensures ka + (kb + {ek}) <= knext
    ensures forall k | k in knext && k !in ka + (kb + {ek}) :: k.IntKey? && !p
  {
  }

  /**
   * Every key of `a` and of `b` is in the result. With numeric keys
   * preserved the result has exactly those keys; without, the only new
   * keys are the integer keys that appended values received.
   */
  lemma MergeKeySet(a: seq<Entry>, b: seq<Entry>, p: bool)
    ensures KeySet(a) + KeySet(b) <= KeySet(Merge(a, b, p))
    ensures p ==> KeySet(Merge(a, b, p)) == KeySet(a) + KeySet(b)
    ensures forall k | k in KeySet(Merge(a, b, p)) && k !in KeySet(a) + KeySet(b) :: k.IntKey?
  {
    MergeUpToKeySet(a, b, |b|, p);
    assert b[..|b|] == b;
  }

  /** The result of merging an array with distinct keys has distinct keys. */
  lemma {:induction false} MergeUpToDistinct(a: seq<Entry>, b: seq<Entry>, n: nat, p: bool)
    requires n <= |b| && DistinctKeys(a)
    ensures DistinctKeys(MergeUpTo(a, b, n, p))
  {
    if n > 0 {
      MergeUpToDistinct(a, b, n - 1, p);
      var acc := MergeUpTo(a, b, n - 1, p);
      var e := b[n - 1];
      match Find(acc, e.key)
      case None =>
        DistinctAppend(acc, e);
      case Some(i) =>
        if !p && e.key.IntKey? {
          DistinctAppend(acc, Entry(IntKey(NextIntKey(acc)), e.value));
        } else {
          var r := MergeUpTo(a, b, n, p);
          assert r == acc[i := Entry(acc[i].key, r[i].value)];
          DistinctSameKeys(acc, r);
        }
    }
  }

  lemma MergeDistinct(a: seq<Entry>, b: seq<Entry>, p: bool)
    requires DistinctKeys(a)
    ensures DistinctKeys(Merge(a, b, p))
  {
    MergeUpToDistinct(a, b, |b|, p);
  }

  // ---------------------------------------------------------------------
  // The value at each key

  /**
   * What one key ends up holding: b's value when only b has the key, a's
   * when only a has it, the merge of the two when both are arrays, and
   * otherwise b's value.
   */
  function Combine(va: Option<Value>, vb: Option<Value>, p: bool): Option<Value>
  {
    match vb
    case None => va
    case Some(y) =>
      if va.Some? && va.value.Arr? && y.Arr? then Some(Arr(Merge(va.value.entries, y.entries, p)))
      else vb
  }

  lemma {:induction false} LookupMergeUpTo(a: seq<Entry>, b: seq<Entry>, n: nat, p: bool, k: Key)
    requires n <= |b| && DistinctKeys(b) && (p || k.StrKey?)
    ensures Lookup(MergeUpTo(a, b, n, p), k) == Combine(Lookup(a, k), Lookup(b[..n], k), p)
  {
    if n == 0 {
      assert b[..n] == [];
    } else {
      LookupMergeUpTo(a, b, n - 1, p, k);
      var acc := MergeUpTo(a, b, n - 1, p);
      var e := b[n - 1];
      assert b[..n] == b[..n - 1] + [e];
      LookupAppend(b[..n - 1], e, k);
      if e.key == k {
        assert k !in KeySet(b[..n - 1]);
      }
      match Find(acc, e.key)
      case None =>
        LookupAppend(acc, e, k);
      case Some(i) =>
        if !p && e.key.IntKey? {
          LookupAppend(acc, Entry(IntKey(NextIntKey(acc)), e.value), k);
        } else {
          var r := MergeUpTo(a, b, n, p);
          assert r == acc[i := Entry(acc[i].key, r[i].value)];
          LookupUpdate(acc, i, r[i].value, k);
        }
    }
  }

  /**
   * For a string key, or for every key when numeric keys are preserved,
   * the result holds the combination of what `a` and `b` hold there.
   */
  lemma LookupMerge(a: seq<Entry>, b: seq<Entry>, p: bool, k: Key)
    requires DistinctKeys(b) && (p || k.StrKey?)
    ensures Lookup(Merge(a, b, p), k) == Combine(Lookup(a, k), Lookup(b, k), p)
  {
    LookupMergeUpTo(a, b, |b|, p, k);
    assert b[..|b|] == b;
  }

  lemma {:induction false} LookupMergeUpToIntKey(a: seq<Entry>, b: seq<Entry>, n: nat, k: Key)
    requires n <= |b| && k.IntKey? && k in KeySet(a)
    ensures Lookup(MergeUpTo(a, b, n, false), k) == Lookup(a, k)
    ensures k in KeySet(MergeUpTo(a, b, n, false))
  {
    if n > 0 {
      LookupMergeUpToIntKey(a, b, n - 1, k);
      var acc := MergeUpTo(a, b, n - 1, false);
      var e := b[n - 1];
      KeySetAppend(acc, e);
      match Find(acc, e.key)
      case None =>
        LookupAppend(acc, e, k);
      case Some(i) =>
        if e.key.IntKey? {
          KeySetAppend(acc, Entry(IntKey(NextIntKey(acc)), e.value));
          LookupAppend(acc, Entry(IntKey(NextIntKey(acc)), e.value), k);
        } else {
          var r := MergeUpTo(a, b, n, false);
          assert r == acc[i := Entry(acc[i].key, r[i].value)];
          KeySetSameKeys(acc, r);
          LookupUpdate(acc, i, r[i].value, k);
        }
    }
  }

  /**
   * Without preserved numeric keys, an integer key of `a` keeps a's value:
   * b's value for the same key is appended instead.
   */
  lemma LookupMergeIntKey(a: seq<Entry>, b: seq<Entry>, k: Key)
    requires k.IntKey? && k in KeySet(a)
    ensures Lookup(Merge(a, b, false), k) == Lookup(a, k)
  {
    LookupMergeUpToIntKey(a, b, |b|, k);
  }

  // ---------------------------------------------------------------------
  // Lists and empty arrays

  lemma {:induction false} MergeUpToList(a: seq<Entry>, b: seq<Entry>, n: nat)
    requires n <= |b| && forall j | 0 <= j < |b| :: b[j].key.IntKey?
    ensures |MergeUpTo(a, b, n, false)| == |a| + n
    ensures MergeUpTo(a, b, n, false)[..|a|] == a
    ensures forall j | 0 <= j < n :: MergeUpTo(a, b, n, false)[|a| + j].value == b[j].value
  {
    if n > 0 {
      MergeUpToList(a, b, n - 1);
      StepKeepsIntEntries(a, b, n - 1);
      ListStep(a, b, n, MergeUpTo(a, b, n - 1, false), MergeUpTo(a, b, n, false));
    }
  }

  /** One appended entry carrying b's next value extends the list shape by one. */
  lemma ListStep(a: seq<Entry>, b: seq<Entry>, n: nat, acc: seq<Entry>, next: seq<Entry>)
    requires 0 < n <= |b|
    requires |acc| == |a| + n - 1 && acc[..|a|] == a
    requires forall j | 0 <= j < n - 1 :: acc[|a| + j].value == b[j].value
    requires |next| == |acc| + 1 && next == acc + [next[|acc|]] && next[|acc|].value == b[n - 1].value
    ensures |next| == |a| + n && next[..|a|] == a
    ensures forall j | 0 <= j < n :: next[|a| + j].value == b[j].value
  {
    assert next[..|a|] == acc[..|a|];
    forall j | 0 <= j < n
      ensures next[|a| + j].value == b[j].value
    {
      if j < n - 1 {
        assert next[|a| + j] == acc[|a| + j];
      }
    }
  }

  /**
   * Without preserved numeric keys, merging a list (integer keys only)
   * keeps `a` and appends every value of `b`, in order.
   */
  lemma MergeList(a: seq<Entry>, b: seq<Entry>)
    requires forall j | 0 <= j < |b| :: b[j].key.IntKey?
    ensures |Merge(a, b, false)| == |a| + |b|
    ensures Merge(a, b, false)[..|a|] == a
    ensures forall j | 0 <= j < |b| :: Merge(a, b, false)[|a| + j].value == b[j].value
  {
    MergeUpToList(a, b, |b|);
  }

  lemma {:induction false} MergeUpToFromEmpty(b: seq<Entry>, n: nat, p: bool)
    requires n <= |b| && DistinctKeys(b)
    ensures MergeUpTo([], b, n, p) == b[..n]
  {
    if n > 0 {
      MergeUpToFromEmpty(b, n - 1, p);
      assert b[n - 1].key !in KeySet(b[..n - 1]);
      assert b[..n] == b[..n - 1] + [b[n - 1]];
    }
  }

  /** Merging with an empty array on either side gives the other array. */
  lemma MergeEmpty(a: seq<Entry>, b: seq<Entry>, p: bool)
    requires DistinctKeys(b)
    ensures Merge(a, [], p) == a
    ensures Merge([], b, p) == b
  {
    MergeUpToFromEmpty(b, |b|, p);
  }

  /**
   * A key holding null is present. Merging one entry for that key takes
   * the clash path rather than adding the key again: without preserved
   * numeric keys an integer key gets b's value appended under the next
   * integer key, and otherwise b's value takes the null's place.
   */
  lemma NullIsPresent(a: seq<Entry>, k: Key, v: Value, p: bool)
    requires Lookup(a, k) == Some(Null)
    ensures Find(a, k).Some?
    ensures Merge(a, [Entry(k, v)], p) ==
      if !p && k.IntKey? then a + [Entry(IntKey(NextIntKey(a)), v)]
      else a[Find(a, k).value := Entry(k, v)]
  {
    var b := [Entry(k, v)];
    assert MergeUpTo(a, b, 0, p) == a;
    assert b[0] == Entry(k, v);
  }

  // ---------------------------------------------------------------------
  // Appending under integer keys

  /** Without preserved numeric keys, one step never shortens the array or changes an integer-keyed entry. */
  lemma StepKeepsIntEntries(a: seq<Entry>, b: seq<Entry>, m: nat)
    requires m < |b|
    ensures |MergeUpTo(a, b, m, false)| <= |MergeUpTo(a, b, m + 1, false)|
    ensures forall i | 0 <= i < |MergeUpTo(a, b, m, false)| && MergeUpTo(a, b, m, false)[i].key.IntKey? ::
      MergeUpTo(a, b, m + 1, false)[i] == MergeUpTo(a, b, m, false)[i]
    ensures b[m].key.IntKey? ==>
      |MergeUpTo(a, b, m + 1, false)| == |MergeUpTo(a, b, m, false)| + 1 &&
      MergeUpTo(a, b, m + 1, false) == MergeUpTo(a, b, m, false) + [MergeUpTo(a, b, m + 1, false)[|MergeUpTo(a, b, m, false)|]] &&
      MergeUpTo(a, b, m + 1, false)[|MergeUpTo(a, b, m, false)|].value == b[m].value
  {
    var acc, e := MergeUpTo(a, b, m, false), b[m];
    var next := MergeUpTo(a, b, m + 1, false);
    match Find(acc, e.key)
    case None =>
      assert next == acc + [e];
    case Some(i) =>
      if e.key.IntKey? {
        assert next == acc + [Entry(IntKey(NextIntKey(acc)), e.value)];
      } else {
        assert |next| == |acc| && next[i].key == e.key;
        assert forall j | 0 <= j < |acc| && j != i :: next[j] == acc[j];
      }
  }

  /** The same across any number of steps. */
  lemma {:induction false} IntEntriesStay(a: seq<Entry>, b: seq<Entry>, m0: nat, m: nat)
    requires m0 <= m <= |b|
    decreases m - m0
    ensures |MergeUpTo(a, b, m0, false)| <= |MergeUpTo(a, b, m, false)|
    ensures forall i | 0 <= i < |MergeUpTo(a, b, m0, false)| && MergeUpTo(a, b, m0, false)[i].key.IntKey? ::
      MergeUpTo(a, b, m, false)[i] == MergeUpTo(a, b, m0, false)[i]
  {
    if m0 < m {
      var s0, s1, s := MergeUpTo(a, b, m0, false), MergeUpTo(a, b, m0 + 1, false), MergeUpTo(a, b, m, false);
      StepKeepsIntEntries(a, b, m0);
      IntEntriesStay(a, b, m0 + 1, m);
      forall i | 0 <= i < |s0| && s0[i].key.IntKey?
        ensures s[i] == s0[i]
      {
        assert s1[i] == s0[i];
      }
    }
  }

  /**
   * Without preserved numeric keys, every entry of `b` with an integer key
   * is appended: it lands just past what the merge had built before it,
   * under its own key when that key is new and under the next integer key
   * when the key clashes, and it keeps that place and b's value to the end.
   */
  lemma MergeAppendsIntKey(a: seq<Entry>, b: seq<Entry>, j: nat)
    requires j < |b| && b[j].key.IntKey?
    ensures var before := MergeUpTo(a, b, j, false);
      && |a| <= |before| < |Merge(a, b, false)|
      && Merge(a, b, false)[|before|] ==
        Entry(if b[j].key in KeySet(before) then IntKey(NextIntKey(before)) else b[j].key, b[j].value)
  {
    var before := MergeUpTo(a, b, j, false);
    MergeUpToKeepsA(a, b, j, false);
    assert MergeUpTo(a, b, j + 1, false) ==
      before + [Entry(if b[j].key in KeySet(before) then IntKey(NextIntKey(before)) else b[j].key, b[j].value)];
    IntEntriesStay(a, b, j + 1, |b|);
  }

  /** Integer-keyed entries of `b` are appended in b's order. */
  lemma MergeAppendsInOrder(a: seq<Entry>, b: seq<Entry>, j1: nat, j2: nat)
    requires j1 < j2 <= |b| && b[j1].key.IntKey?
    ensures |MergeUpTo(a, b, j1, false)| < |MergeUpTo(a, b, j2, false)|
  {
    assert |MergeUpTo(a, b, j1, false)| < |MergeUpTo(a, b, j1 + 1, false)|;
    IntEntriesStay(a, b, j1 + 1, j2);
  }

  // ---------------------------------------------------------------------
  // Adding new keys

  /** One step never shortens the array. */
  lemma StepGrows(a: seq<Entry>, b: seq<Entry>, p: bool, m: nat)
    requires m < |b|
    ensures |MergeUpTo(a, b, m, p)| <= |MergeUpTo(a, b, m + 1, p)|
  {
    var acc, e := MergeUpTo(a, b, m, p), b[m];
    match Find(acc, e.key)
    case None =>
    case Some(i) =>
      if p || e.key.StrKey? {
        assert |MergeUpTo(a, b, m + 1, p)| == |acc|;
      }
  }

  /** Nor do several steps. */
  lemma {:induction false} MergeUpToGrows(a: seq<Entry>, b: seq<Entry>, p: bool, m0: nat, m: nat)
    requires m0 <= m <= |b|
    decreases m - m0
    ensures |MergeUpTo(a, b, m0, p)| <= |MergeUpTo(a, b, m, p)|
  {
    if m0 < m {
      var n0, n1, n := |MergeUpTo(a, b, m0, p)|, |MergeUpTo(a, b, m0 + 1, p)|, |MergeUpTo(a, b, m, p)|;
      StepGrows(a, b, p, m0);
      MergeUpToGrows(a, b, p, m0 + 1, m);
      assert n0 <= n1 <= n;
    }
  }

  /** An entry stays in place while the entries of `b` handled meanwhile have other keys. */
  lemma {:induction false} EntryStays(a: seq<Entry>, b: seq<Entry>, p: bool, m0: nat, m: nat, x: nat)
    requires m0 <= m <= |b| && x < |MergeUpTo(a, b, m0, p)|
    requires forall t | m0 <= t < m :: b[t].key != MergeUpTo(a, b, m0, p)[x].key
    decreases m - m0
    ensures x < |MergeUpTo(a, b, m, p)| && MergeUpTo(a, b, m, p)[x] == MergeUpTo(a, b, m0, p)[x]
  {
    if m0 < m {
      var s0, s1 := MergeUpTo(a, b, m0, p), MergeUpTo(a, b, m0 + 1, p);
      StepKeepsKeys(a, b, m0, p);
      assert s1[x] == s0[x];
      EntryStays(a, b, p, m0 + 1, m, x);
    }
  }

  /**
   * An entry of `b` whose key the array built so far does not hold is added
   * at its end, and, the keys of `b` being distinct, it keeps that place and
   * its value to the end.
   */
  lemma MergeAddsNewKey(a: seq<Entry>, b: seq<Entry>, p: bool, j: nat)
    requires DistinctKeys(b) && j < |b| && b[j].key !in KeySet(MergeUpTo(a, b, j, p))
    ensures var before := MergeUpTo(a, b, j, p);
      && |a| <= |before| < |Merge(a, b, p)|
      && Merge(a, b, p)[|before|] == b[j]
  {
    var before := MergeUpTo(a, b, j, p);
    MergeUpToKeepsA(a, b, j, p);
    assert Find(before, b[j].key).None?;
    assert MergeUpTo(a, b, j + 1, p) == before + [b[j]];
    EntryStays(a, b, p, j + 1, |b|, |before|);
  }

  /** Entries of `b` with new keys are added in b's order. */
  lemma MergeAddsInOrder(a: seq<Entry>, b: seq<Entry>, p: bool, j1: nat, j2: nat)
    requires j1 < j2 <= |b| && b[j1].key !in KeySet(MergeUpTo(a, b, j1, p))
    ensures |MergeUpTo(a, b, j1, p)| < |MergeUpTo(a, b, j2, p)|
  {
    assert Find(MergeUpTo(a, b, j1, p), b[j1].key).None?;
    assert |MergeUpTo(a, b, j1, p)| < |MergeUpTo(a, b, j1 + 1, p)|;
    MergeUpToGrows(a, b, p, j1 + 1, j2);
  }
}
