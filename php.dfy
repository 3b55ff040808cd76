/**
 * The parts of PHP's value semantics that the FlowFact code relies on:
 * nullable values, thrown TypeErrors, truthiness of strings, and the
 * ordered array that `$tmp[$k] = ...` and `$tmp[$k][] = ...` build.
 */
module Php {

  /** PHP `null` versus a present value. */
  datatype Option<+T> = None | Some(value: T) {
    function GetOr(default: T): T {
      match this
      case Some(v) => v
      case None => default
    }
  }

  /**
   * The outcome of a PHP call that may end in a TypeError: a value of the
   * wrong type returned from a function with a declared return type, or
   * `null` passed where an array or a string is required.
   */
  datatype Result<+T> = Ok(value: T) | TypeError(reason: string)

  /** `(bool)$s` for a string: only "" and "0" are falsy. */
  predicate Truthy(s: string) {
    s != "" && s != "0"
  }
}

/**
 * A PHP array with keys of one type, as the sequence of its entries in
 * insertion order. Assigning to an existing key keeps that key's position
 * and replaces its value; assigning to a new key appends an entry.
 */
module PhpArrays {
  import opened Php

  function Keys<K, V>(a: seq<(K, V)>): (ks: seq<K>)
    ensures |ks| == |a|
  {
    seq(|a|, i requires 0 <= i < |a| => a[i].0)
  }

  /** No key occurs twice: what PHP guarantees of every array. */
  predicate UniqueKeys<K(==), V>(a: seq<(K, V)>) {
    forall i, j :: 0 <= i < j < |a| ==> a[i].0 != a[j].0
  }

  /** The position of the first entry keyed `k`. */
  function IndexOf<K(==), V>(a: seq<(K, V)>, k: K): (r: Option<nat>)
    ensures r.Some? ==> r.value < |a| && a[r.value].0 == k
    ensures r.Some? ==> forall j :: 0 <= j < r.value ==> a[j].0 != k
    ensures r.None? <==> k !in Keys(a)
  {
    if a == [] then None
    else
      assert Keys(a) == [a[0].0] + Keys(a[1..]);
      if a[0].0 == k then Some(0)
      else match IndexOf(a[1..], k)
        case Some(i) => Some(i + 1)
        case None => None
  }

  /** Appending an entry keyed differently does not move a key's first position. */
  lemma {:induction false} IndexOfAppend<K, V>(a: seq<(K, V)>, p: (K, V), k: K)
    requires p.0 != k
    ensures IndexOf(a + [p], k) == IndexOf(a, k)
  {
    if a != [] {
      assert (a + [p])[1..] == a[1..] + [p];
      IndexOfAppend(a[1..], p, k);
    }
  }

  /** `$a[$k] ?? null` */
  function Get<K(==), V>(a: seq<(K, V)>, k: K): Option<V> {
    match IndexOf(a, k)
    case Some(i) => Some(a[i].1)
    case None => None
  }

  /** A position holding the first pair keyed `k`, or none at all, is what IndexOf finds. */
  lemma FirstKeyPosition<K, V>(a: seq<(K, V)>, k: K, i: Option<nat>)
    requires i.Some? ==> i.value < |a| && a[i.value].0 == k && forall j :: 0 <= j < i.value ==> a[j].0 != k
    requires i.None? ==> forall j :: 0 <= j < |a| ==> a[j].0 != k
    ensures IndexOf(a, k) == i
  {
    if i.Some? {
      assert Keys(a)[i.value] == k;
      var r := IndexOf(a, k);
      assert !(r.value < i.value) && !(i.value < r.value);
    } else {
      forall j | 0 <= j < |Keys(a)| ensures Keys(a)[j] != k {
      }
    }
  }

  /** In an array without repeated keys, the key at position `i` finds position `i`. */
  lemma GetAt<K, V>(a: seq<(K, V)>, i: nat)
    requires UniqueKeys(a) && i < |a|
    ensures IndexOf(a, a[i].0) == Some(i)
    ensures Get(a, a[i].0) == Some(a[i].1)
  {
    assert Keys(a)[i] == a[i].0;
  }

  /** Two arrays with the same key at every position find every key at the same position. */
  lemma {:induction false} IndexOfSameKeys<K, V, W>(a: seq<(K, V)>, b: seq<(K, W)>, k: K)
    requires Keys(a) == Keys(b)
    ensures IndexOf(a, k) == IndexOf(b, k)
  {
    if a != [] {
      assert a[0].0 == Keys(a)[0] == Keys(b)[0] == b[0].0;
      assert Keys(a[1..]) == Keys(a)[1..];
      assert Keys(b[1..]) == Keys(b)[1..];
      IndexOfSameKeys(a[1..], b[1..], k);
    }
  }

  /** `$a[$k] = $v` */
  function Assign<K(==,!new), V>(a: seq<(K, V)>, k: K, v: V): (r: seq<(K, V)>)
    ensures Keys(r) == if k in Keys(a) then Keys(a) else Keys(a) + [k]
    ensures Get(r, k) == Some(v)
    ensures forall k' :: k' != k ==> Get(r, k') == Get(a, k')
    ensures UniqueKeys(a) ==> UniqueKeys(r)
  {
    match IndexOf(a, k)
    case Some(i) =>
      var r := a[i := (k, v)];
      assert Keys(r) == Keys(a);
      forall k' ensures IndexOf(r, k') == IndexOf(a, k') {
        IndexOfSameKeys(r, a, k');
      }
      r
    case None =>
      var r := a + [(k, v)];
      assert Keys(r) == Keys(a) + [k];
      assert forall i :: 0 <= i < |a| ==> Keys(a)[i] == a[i].0 != k;
      assert IndexOf(r, k) == Some(|a|);
      forall k' | k' != k ensures IndexOf(r, k') == IndexOf(a, k') {
        IndexOfAppend(a, (k, v), k');
      }
      r
  }

  /** The array built by assigning the pairs of `ps` one after the other. */
  function FromPairs<K(==,!new), V>(ps: seq<(K, V)>): seq<(K, V)> {
    if ps == [] then []
    else
      var last := ps[|ps| - 1];
      Assign(FromPairs(ps[..|ps| - 1]), last.0, last.1)
  }

  lemma FromPairsSnoc<K(!new), V>(ps: seq<(K, V)>, p: (K, V))
    ensures FromPairs(ps + [p]) == Assign(FromPairs(ps), p.0, p.1)
  {
    assert (ps + [p])[..|ps|] == ps;
  }

  /** The elements of `s` in the order of their first occurrence. */
  function Dedup<T(==)>(s: seq<T>): seq<T> {
    if s == [] then []
    else
      var init := s[..|s| - 1];
      Dedup(init) + (if s[|s| - 1] in init then [] else [s[|s| - 1]])
  }

  /** The value of the last pair keyed `k`. */
  function LastValue<K(==), V>(ps: seq<(K, V)>, k: K): Option<V> {
    if ps == [] then None
    else if ps[|ps| - 1].0 == k then Some(ps[|ps| - 1].1)
    else LastValue(ps[..|ps| - 1], k)
  }

  lemma {:induction false} DedupElements<T>(s: seq<T>)
    ensures forall x :: x in Dedup(s) <==> x in s
    ensures forall i, j :: 0 <= i < j < |Dedup(s)| ==> Dedup(s)[i] != Dedup(s)[j]
  {
    if s != [] {
      var init := s[..|s| - 1];
      DedupElements(init);
      assert s == init + [s[|s| - 1]];
    }
  }

  lemma {:induction false} KeysSnoc<K, V>(ps: seq<(K, V)>)
    requires ps != []
    ensures Keys(ps) == Keys(ps[..|ps| - 1]) + [ps[|ps| - 1].0]
    ensures Keys(ps)[..|ps| - 1] == Keys(ps[..|ps| - 1])
  {
  }

  /**
   * Assigning pairs one after the other gives an array whose keys are the
   * distinct keys of the pairs in order of first occurrence and whose value
   * for each key is the one assigned last.
   */
  lemma {:induction false} FromPairsSpec<K(!new), V>(ps: seq<(K, V)>)
    ensures Keys(FromPairs(ps)) == Dedup(Keys(ps))
    ensures UniqueKeys(FromPairs(ps))
    ensures forall k :: Get(FromPairs(ps), k) == LastValue(ps, k)
  {
    if ps != [] {
      var init := ps[..|ps| - 1];
      FromPairsSpec(init);
      KeysSnoc(ps);
      DedupElements(Keys(init));
    }
  }

  /** `array_values($a)` */
  function Values<K, V>(ps: seq<(K, V)>): (vs: seq<V>)
    ensures |vs| == |ps|
    ensures forall i :: 0 <= i < |ps| ==> vs[i] == ps[i].1
  {
    seq(|ps|, i requires 0 <= i < |ps| => ps[i].1)
  }

  /** Each value paired with the key computed from it, as `$a[key($v)] = $v` assigns them. */
  function KeyedBy<K, V>(vs: seq<V>, key: V -> K): (r: seq<(K, V)>)
    ensures |r| == |vs|
    ensures forall i :: 0 <= i < |vs| ==> r[i] == (key(vs[i]), vs[i])
  {
    seq(|vs|, i requires 0 <= i < |vs| => (key(vs[i]), vs[i]))
  }

  /** Every pair is keyed by the key computed from its value. */
  predicate KeyedPairs<K(==), V>(ps: seq<(K, V)>, key: V -> K) {
    forall i :: 0 <= i < |ps| ==> ps[i].0 == key(ps[i].1)
  }

  lemma {:induction false} LastValueKeyed<K, V>(ps: seq<(K, V)>, key: V -> K, k: K)
    requires KeyedPairs(ps, key)
    ensures LastValue(ps, k).Some? ==> key(LastValue(ps, k).value) == k
  {
    if ps != [] && ps[|ps| - 1].0 != k {
      LastValueKeyed(ps[..|ps| - 1], key, k);
    }
  }

  /** Assigning pairs keyed by their values keeps every entry keyed by its value. */
  lemma FromPairsKeyed<K(!new), V>(ps: seq<(K, V)>, key: V -> K)
    requires KeyedPairs(ps, key)
    ensures KeyedPairs(FromPairs(ps), key)
  {
    FromPairsSpec(ps);
    var r := FromPairs(ps);
    forall i | 0 <= i < |r| ensures r[i].0 == key(r[i].1) {
      GetAt(r, i);
      LastValueKeyed(ps, key, r[i].0);
    }
  }

  /** `$a[$k][] = $x` */
  function Push<K(==,!new), V>(a: seq<(K, seq<V>)>, k: K, x: V): seq<(K, seq<V>)> {
    Assign(a, k, Get(a, k).GetOr([]) + [x])
  }

  /** The array built by pushing each value onto the list of its key. */
  function GroupBy<K(==,!new), V>(ps: seq<(K, V)>): seq<(K, seq<V>)> {
    if ps == [] then []
    else
      var last := ps[|ps| - 1];
      Push(GroupBy(ps[..|ps| - 1]), last.0, last.1)
  }

  lemma GroupBySnoc<K(!new), V>(ps: seq<(K, V)>, p: (K, V))
    ensures GroupBy(ps + [p]) == Push(GroupBy(ps), p.0, p.1)
  {
    assert (ps + [p])[..|ps|] == ps;
  }

  /** The values of the pairs keyed `k`, in order. */
  function ValuesOf<K(==), V>(ps: seq<(K, V)>, k: K): seq<V> {
    if ps == [] then []
    else
      var last := ps[|ps| - 1];
      ValuesOf(ps[..|ps| - 1], k) + (if last.0 == k then [last.1] else [])
  }

  /** Appending anything leaves the first position of a key already present where it was. */
  lemma IndexOfSnoc<K, V>(a: seq<(K, V)>, p: (K, V), k: K)
    requires k in Keys(a)
    ensures IndexOf(a + [p], k) == IndexOf(a, k)
  {
    var i := IndexOf(a, k).value;
    assert Keys(a + [p])[i] == k;
    var j := IndexOf(a + [p], k).value;
    assert (a + [p])[j] == a[j] by {
      assert (a + [p])[i] == a[i];
    }
  }

  /** A key's list is non-empty iff the key occurs, and starts with the value of its first pair. */
  lemma {:induction false} ValuesOfFirst<K, V>(ps: seq<(K, V)>, k: K)
    ensures ValuesOf(ps, k) != [] <==> k in Keys(ps)
    ensures k in Keys(ps) ==> ValuesOf(ps, k)[0] == ps[IndexOf(ps, k).value].1
  {
    if ps != [] {
      var init, last := ps[..|ps| - 1], ps[|ps| - 1];
      ValuesOfFirst(init, k);
      KeysSnoc(ps);
      assert ps == init + [last];
      if k in Keys(init) {
        IndexOfSnoc(init, last, k);
      } else if last.0 == k {
        assert IndexOf(ps, k) == Some(|init|) by {
          assert forall j :: 0 <= j < |init| ==> Keys(init)[j] == init[j].0 != k;
        }
      }
    }
  }

  /**
   * Grouping keeps the keys in order of first occurrence, and each key's
   * list holds exactly the values pushed under it, in the order pushed.
   */
  lemma {:induction false} GroupBySpec<K(!new), V>(ps: seq<(K, V)>)
    ensures Keys(GroupBy(ps)) == Dedup(Keys(ps))
    ensures UniqueKeys(GroupBy(ps))
    ensures forall k :: Get(GroupBy(ps), k) == if k in Keys(ps) then Some(ValuesOf(ps, k)) else None
  {
    GroupByKeys(ps);
    forall k ensures Get(GroupBy(ps), k) == if k in Keys(ps) then Some(ValuesOf(ps, k)) else None {
      GroupByGet(ps, k);
    }
  }

  lemma {:induction false} GroupByKeys<K(!new), V>(ps: seq<(K, V)>)
    ensures Keys(GroupBy(ps)) == Dedup(Keys(ps))
    ensures UniqueKeys(GroupBy(ps))
  {
    if ps != [] {
      var init := ps[..|ps| - 1];
      GroupByKeys(init);
      KeysSnoc(ps);
      DedupElements(Keys(init));
    }
  }

  lemma {:induction false} GroupByGet<K(!new), V>(ps: seq<(K, V)>, k: K)
    ensures Get(GroupBy(ps), k) == if k in Keys(ps) then Some(ValuesOf(ps, k)) else None
  {
    if ps != [] {
      var init := ps[..|ps| - 1];
      var last := ps[|ps| - 1];
      GroupByGet(init, k);
      KeysSnoc(ps);
      var g := GroupBy(init);
      var pushed := Get(g, last.0).GetOr([]) + [last.1];
      assert GroupBy(ps) == Assign(g, last.0, pushed);
      assert ValuesOf(ps, k) == ValuesOf(init, k) + (if last.0 == k then [last.1] else []);
      if k == last.0 {
        assert Get(GroupBy(ps), k) == Some(pushed);
        assert k in Keys(ps);
        if k !in Keys(init) {
          ValuesOfAbsent(init, k);
          assert Get(g, k) == None;
        } else {
          assert Get(g, k) == Some(ValuesOf(init, k));
        }
        assert pushed == ValuesOf(ps, k);
      } else {
        assert Get(GroupBy(ps), k) == Get(g, k);
        assert k in Keys(ps) <==> k in Keys(init);
        assert ValuesOf(ps, k) == ValuesOf(init, k);
      }
    }
  }

  lemma {:induction false} ValuesOfAbsent<K, V>(ps: seq<(K, V)>, k: K)
    requires k !in Keys(ps)
    ensures ValuesOf(ps, k) == []
  {
    if ps != [] {
      KeysSnoc(ps);
      ValuesOfAbsent(ps[..|ps| - 1], k);
    }
  }

  /** The entries of `a` whose values satisfy `p`, keys and order kept. */
  function FilterValues<K, V>(a: seq<(K, V)>, p: V -> bool): seq<(K, V)> {
    if a == [] then []
    else
      var last := a[|a| - 1];
      FilterValues(a[..|a| - 1], p) + (if p(last.1) then [last] else [])
  }

  /** An order-preserving selection of positions. */
  predicate IsSubsequence<T(==)>(r: seq<T>, s: seq<T>) {
    if r == [] then true
    else if s == [] then false
    else if r[|r| - 1] == s[|s| - 1] then IsSubsequence(r[..|r| - 1], s[..|s| - 1])
    else IsSubsequence(r, s[..|s| - 1])
  }

  lemma FilterValuesSpec<K, V>(a: seq<(K, V)>, p: V -> bool)
    ensures forall e :: e in FilterValues(a, p) <==> e in a && p(e.1)
    ensures IsSubsequence(FilterValues(a, p), a)
  {
    FilterValuesMembers(a, p);
    FilterValuesOrder(a, p);
  }

  lemma {:induction false} FilterValuesMembers<K, V>(a: seq<(K, V)>, p: V -> bool)
    ensures forall e :: e in FilterValues(a, p) <==> e in a && p(e.1)
  {
    if a != [] {
      var init, last := a[..|a| - 1], a[|a| - 1];
      FilterValuesMembers(init, p);
      assert a == init + [last];
      assert FilterValues(a, p) == FilterValues(init, p) + (if p(last.1) then [last] else []);
    }
  }

  lemma {:induction false} FilterValuesOrder<K, V>(a: seq<(K, V)>, p: V -> bool)
    ensures IsSubsequence(FilterValues(a, p), a)
  {
    if a != [] {
      var init, last := a[..|a| - 1], a[|a| - 1];
      FilterValuesOrder(init, p);
      var r := FilterValues(a, p);
      if p(last.1) {
        assert r == FilterValues(init, p) + [last];
        assert r[..|r| - 1] == FilterValues(init, p);
      } else {
        assert r == FilterValues(init, p);
        SubsequenceDropLast(r, a);
      }
    }
  }

  lemma {:induction false} SubsequenceDropLast<T>(r: seq<T>, s: seq<T>)
    requires s != [] && IsSubsequence(r, s[..|s| - 1])
    ensures IsSubsequence(r, s)
    decreases |s|, 0
  {
    if r != [] && r[|r| - 1] == s[|s| - 1] {
      SubsequencePrefix(r, s[..|s| - 1]);
    }
  }

  lemma {:induction false} SubsequencePrefix<T>(r: seq<T>, s: seq<T>)
    requires r != [] && IsSubsequence(r, s)
    ensures IsSubsequence(r[..|r| - 1], s)
    decreases |s|, 1
  {
    if s != [] {
      if r[|r| - 1] == s[|s| - 1] {
        if r[..|r| - 1] != [] {
          SubsequencePrefix(r[..|r| - 1], s[..|s| - 1]);
          SubsequenceDropLast(r[..|r| - 1], s);
        }
      } else {
        SubsequencePrefix(r, s[..|s| - 1]);
        if r[..|r| - 1] != [] {
          SubsequenceDropLast(r[..|r| - 1], s);
        }
      }
    }
  }
}

/** The string functions of PHP that the code uses, on ASCII-safe input. */
module PhpStrings {
  import opened Php

  /** `str_replace($from, $to, $s)` for one-character needles. */
  function ReplaceChar(s: string, from: char, to: char): (r: string)
    ensures |r| == |s|
    ensures forall i :: 0 <= i < |s| ==> r[i] == if s[i] == from then to else s[i]
  {
    if s == [] then [] else [if s[0] == from then to else s[0]] + ReplaceChar(s[1..], from, to)
  }

  /** `strtolower` on one character: from PHP 8.2 it folds only ASCII `A`..`Z`. */
  function LowerChar(c: char): char {
    if 'A' <= c <= 'Z' then (c as int - 'A' as int + 'a' as int) as char else c
  }

  function ToLower(s: string): (r: string)
    ensures |r| == |s|
    ensures forall i :: 0 <= i < |s| ==> r[i] == LowerChar(s[i])
  {
    if s == [] then [] else [LowerChar(s[0])] + ToLower(s[1..])
  }

  /** The bytes that `trim($s)` strips by default: " \t\n\r\0\x0B". */
  predicate IsTrimChar(c: char) {
    c == ' ' || c == '\t' || c == '\n' || c == '\r' || c == '\0' || c == '\U{0B}'
  }

  function LTrim(s: string): string {
    if s != [] && IsTrimChar(s[0]) then LTrim(s[1..]) else s
  }

  function RTrim(s: string): string {
    if s != [] && IsTrimChar(s[|s| - 1]) then RTrim(s[..|s| - 1]) else s
  }

  /** `trim($s)` */
  function Trim(s: string): string {
    RTrim(LTrim(s))
  }

  /** `ltrim($s, $c)` for a single character `c`. */
  function LTrimChar(s: string, c: char): string {
    if s != [] && s[0] == c then LTrimChar(s[1..], c) else s
  }

  /** `strpos($s, $c)`, with `false` as `None`. */
  function StrPos(s: string, c: char): (r: Option<nat>)
    ensures r.Some? ==> r.value < |s| && s[r.value] == c && c !in s[..r.value]
    ensures r.None? <==> c !in s
  {
    if s == [] then None
    else if s[0] == c then Some(0)
    else match StrPos(s[1..], c)
      case Some(i) => Some(i + 1)
      case None => None
  }

  /** The whitespace PHP skips before a numeric string. */
  predicate IsNumericSpace(c: char) {
    c == ' ' || c == '\t' || c == '\n' || c == '\r' || c == '\U{0B}' || c == '\U{0C}'
  }

  function SkipSpace(s: string): string {
    if s != [] && IsNumericSpace(s[0]) then SkipSpace(s[1..]) else s
  }

  predicate IsDecimalDigit(c: char) {
    '0' <= c <= '9'
  }

  /** The longest prefix of decimal digits. */
  function DigitPrefix(s: string): (r: string)
    ensures r <= s
    ensures forall i :: 0 <= i < |r| ==> IsDecimalDigit(r[i])
    ensures |r| < |s| ==> !IsDecimalDigit(s[|r|])
  {
    if s != [] && IsDecimalDigit(s[0]) then [s[0]] + DigitPrefix(s[1..]) else []
  }

  /** The number a string of decimal digits denotes ("" denotes 0). */
  function Decimal(ds: string): nat {
    if ds == [] then 0
    else
      var d := ds[|ds| - 1];
      Decimal(ds[..|ds| - 1]) * 10 + (if IsDecimalDigit(d) then d as int - '0' as int else 0)
  }

  /**
   * `(int)$s` on a string: leading whitespace, an optional sign and the
   * leading decimal digits; no digits give 0.
   */
  function IntCast(s: string): int {
    var t := SkipSpace(s);
    if t != [] && t[0] == '-' then 0 - Decimal(DigitPrefix(t[1..]))
    else if t != [] && t[0] == '+' then Decimal(DigitPrefix(t[1..]))
    else Decimal(DigitPrefix(t))
  }

  lemma {:induction false} DecimalLeadingZero(ds: string)
    ensures Decimal("0" + ds) == Decimal(ds)
  {
    if ds != [] {
      assert ("0" + ds)[..|ds|] == "0" + ds[..|ds| - 1];
      DecimalLeadingZero(ds[..|ds| - 1]);
    }
  }

  /** On a digit string `(int)` gives its value, so a leading zero is lost. */
  lemma IntCastDigits(ds: string)
    requires ds != [] && forall i :: 0 <= i < |ds| ==> IsDecimalDigit(ds[i])
    ensures IntCast(ds) == Decimal(ds)
    ensures IntCast("0" + ds) == IntCast(ds)
  {
    DigitPrefixAll(ds);
    IntCastUnsigned(ds);
    var zds := "0" + ds;
    assert forall i :: 1 <= i < |zds| ==> zds[i] == ds[i - 1];
    DigitPrefixAll(zds);
    IntCastUnsigned(zds);
    DecimalLeadingZero(ds);
  }

  lemma IntCastUnsigned(s: string)
    requires s != [] && IsDecimalDigit(s[0]) && SkipSpace(s) == s
    ensures IntCast(s) == Decimal(DigitPrefix(s))
  {
  }

  lemma {:induction false} DigitPrefixAll(ds: string)
    requires forall i :: 0 <= i < |ds| ==> IsDecimalDigit(ds[i])
    ensures DigitPrefix(ds) == ds && SkipSpace(ds) == ds
  {
    if ds != [] {
      DigitPrefixAll(ds[1..]);
    }
  }
}
