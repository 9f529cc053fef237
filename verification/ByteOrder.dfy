/** The order in which badger keeps its keys.

Keys are Go byte strings; a `char` stands for one byte. An iterator presents the keys of a
snapshot in ascending byte order, which `SortedKeys` defines. The main result is that the keys
carrying a prefix are one contiguous stretch of that order, starting where `Seek(prefix)` lands.
 */
module ByteOrder {

  type Key = string

  // Strict lexicographic order.
  predicate Less(a: Key, b: Key)
  {
    if b == [] then false
    else if a == [] then true
    else a[0] < b[0] || (a[0] == b[0] && Less(a[1..], b[1..]))
  }

  // One key comes before another if it is a proper prefix of it, or has the smaller byte where they
  // first differ.
  lemma {:induction false} LessIsLexicographic(a: Key, b: Key)
    ensures Less(a, b) <==> exists i :: 0 <= i <= |a| && i < |b| && FirstDiffers(a, b, i)
  {
    if a != [] && b != [] && a[0] == b[0] {
      LessIsLexicographic(a[1..], b[1..]);
      if i :| 0 <= i <= |a[1..]| && i < |b[1..]| && FirstDiffers(a[1..], b[1..], i) {
        assert a[..i + 1] == [a[0]] + a[1..][..i] && b[..i + 1] == [b[0]] + b[1..][..i];
        assert FirstDiffers(a, b, i + 1);
      }
      if i :| 0 <= i <= |a| && i < |b| && FirstDiffers(a, b, i) {
        assert i > 0 && a[1..][..i - 1] == a[..i][1..] && b[1..][..i - 1] == b[..i][1..];
        assert FirstDiffers(a[1..], b[1..], i - 1);
      }
    } else if b != [] && (a == [] || a[0] < b[0]) {
      assert FirstDiffers(a, b, 0);
    }
  }

  predicate FirstDiffers(a: Key, b: Key, i: int)
    requires 0 <= i <= |a| && i < |b|
  {
    a[..i] == b[..i] && (i == |a| || a[i] < b[i])
  }

  lemma {:induction false} LessTransitive(a: Key, b: Key, c: Key)
    requires Less(a, b) && Less(b, c)
    ensures Less(a, c)
  {
    if a != [] && a[0] == b[0] == c[0] {
      LessTransitive(a[1..], b[1..], c[1..]);
    }
  }

  lemma {:induction false} LessTotal(a: Key, b: Key)
    ensures a == b || Less(a, b) || Less(b, a)
  {
    if a != [] && b != [] && a[0] == b[0] {
      LessTotal(a[1..], b[1..]);
      assert a == [a[0]] + a[1..] && b == [b[0]] + b[1..];
    }
  }

  lemma {:induction false} LessAsymmetric(a: Key, b: Key)
    ensures !(Less(a, b) && Less(b, a))
  {
    if a != [] && b != [] && a[0] == b[0] {
      LessAsymmetric(a[1..], b[1..]);
    }
  }

  lemma LessIsStrictOrder()
    ensures forall a, b, c :: Less(a, b) && Less(b, c) ==> Less(a, c)
    ensures forall a, b {:trigger Less(a, b)} :: a == b || Less(a, b) || Less(b, a)
    ensures forall a, b :: !(Less(a, b) && Less(b, a))
  {
    forall a, b, c | Less(a, b) && Less(b, c) ensures Less(a, c) { LessTransitive(a, b, c); }
    forall a, b ensures a == b || Less(a, b) || Less(b, a) { LessTotal(a, b); }
    forall a, b ensures !(Less(a, b) && Less(b, a)) { LessAsymmetric(a, b); }
  }

  // ---------- sorted key sequences ----------

  predicate Ascending(ks: seq<Key>)
  {
    forall i, j :: 0 <= i < j < |ks| ==> Less(ks[i], ks[j])
  }

  predicate NoRepeats(ks: seq<Key>)
  {
    forall i, j :: 0 <= i < j < |ks| ==> ks[i] != ks[j]
  }

  lemma AscendingDistinct(ks: seq<Key>)
    requires Ascending(ks)
    ensures NoRepeats(ks)
  {
    LessIsStrictOrder();
  }

  lemma {:induction false} LeastExists(s: set<Key>)
    requires s != {}
    ensures exists m :: m in s && forall x | x in s :: x == m || Less(m, x)
  {
    var y :| y in s;
    var rest := s - {y};
    if rest == {} {
      forall x | x in s ensures x == y {
        assert x == y || x in rest;
      }
    } else {
      LeastExists(rest);
      var m :| m in rest && forall x | x in rest :: x == m || Less(m, x);
      LeastOf(s, y, m);
    }
  }

  lemma LeastOf(s: set<Key>, y: Key, m: Key)
    requires y in s && m in s && forall x | x in s && x != y :: x == m || Less(m, x)
    ensures exists m' :: m' in s && forall x | x in s :: x == m' || Less(m', x)
  {
    LessTotal(y, m);
    if Less(y, m) {
      forall x | x in s ensures x == y || Less(y, x) {
        if x != y && x != m { LessTransitive(y, m, x); }
      }
    }
  }

  function Least(s: set<Key>): (m: Key)
    requires s != {}
    ensures m in s && forall x | x in s :: x == m || Less(m, x)
  {
    LeastExists(s);
    LessIsStrictOrder();
    var m :| m in s && forall x | x in s :: x == m || Less(m, x);
    m
  }

  // The keys of a snapshot in the order an iterator visits them.
  function SortedKeys(s: set<Key>): (ks: seq<Key>)
    ensures Ascending(ks)
    ensures forall k :: k in ks <==> k in s
  {
    if s == {} then []
    else
      var m := Least(s);
      LessIsStrictOrder();
      [m] + SortedKeys(s - {m})
  }

  lemma NonEmptyHas(ks: seq<Key>)
    ensures ks != [] ==> exists k :: k in ks
  {
    if ks != [] { assert ks[0] in ks; }
  }

  lemma {:induction false} SortedLength(s: set<Key>)
    ensures |SortedKeys(s)| == |s|
  {
    hide Less;
    if s != {} { SortedLength(s - {Least(s)}); }
  }

  // An ascending sequence is determined by its elements.
  lemma {:induction false} AscendingUnique(a: seq<Key>, b: seq<Key>)
    requires Ascending(a) && Ascending(b)
    requires forall k :: k in a <==> k in b
    ensures a == b
  {
    LessIsStrictOrder();
    if a == [] {
      NonEmptyHas(b);
    } else {
      assert a[0] in b;
      assert b[0] in a;
      assert a[0] == b[0];
      forall k ensures k in a[1..] <==> k in b[1..] {
        if k in a[1..] { assert k in b && k != b[0]; }
        if k in b[1..] { assert k in a && k != a[0]; }
      }
      AscendingUnique(a[1..], b[1..]);
      assert a == [a[0]] + a[1..] && b == [b[0]] + b[1..];
    }
  }

  // ---------- prefixes ----------

  // A key at or after the prefix, but not carrying it, lies beyond every key that carries it.
  lemma {:induction false} BeyondPrefix(p: Key, a: Key, b: Key)
    requires p <= a && !(p <= b) && !Less(b, p)
    ensures Less(a, b)
  {
    LessTotal(b, p);
    if p != [] {
      if b[0] == p[0] {
        BeyondPrefix(p[1..], a[1..], b[1..]);
      }
    }
  }

  lemma {:induction false} PrefixNotLess(p: Key, a: Key)
    requires p <= a
    ensures !Less(a, p)
  {
    if p != [] && a != [] { PrefixNotLess(p[1..], a[1..]); }
  }

  // The keys an iterator over `keys` must visit for `prefix`: each once, in order.
  function Scan(keys: set<Key>, prefix: Key): (ks: seq<Key>)
  {
    SortedKeys(set k | k in keys && prefix <= k)
  }

  // Index of the first key not below `prefix`.
  method Seek(keys: seq<Key>, prefix: Key) returns (at: nat)
    requires Ascending(keys)
    ensures at <= |keys|
    ensures forall i | 0 <= i < at :: Less(keys[i], prefix)
    ensures forall i | at <= i < |keys| :: !Less(keys[i], prefix)
  {
    LessIsStrictOrder();
    at := 0;
    while at < |keys| && Less(keys[at], prefix)
      invariant at <= |keys|
      invariant forall i | 0 <= i < at :: Less(keys[i], prefix)
    {
      at := at + 1;
    }
  }

  // walkThroughPrefix: Seek, then Next while the key still carries the prefix.
  method WalkThroughPrefix(keys: set<Key>, prefix: Key) returns (visited: seq<Key>)
    ensures visited == Scan(keys, prefix)
    ensures NoRepeats(visited)
  {
    hide Scan, Less, Ascending;
    var sorted := SortedKeys(keys);
    hide SortedKeys;
    var start := Seek(sorted, prefix);
    var it := start;
    visited := [];
    while it < |sorted| && prefix <= sorted[it]
      invariant start <= it <= |sorted|
      invariant visited == sorted[start..it]
      invariant forall i | start <= i < it :: prefix <= sorted[i]
    {
      visited := visited + [sorted[it]];
      it := it + 1;
    }
    WalkIsExact(keys, prefix, start, it);
    AscendingDistinct(visited);
  }

  // `end` is where a walk for `prefix` from `start` stops.
  predicate Stretch(sorted: seq<Key>, prefix: Key, start: nat, end: nat)
  {
    && start <= end <= |sorted|
    && (forall i | 0 <= i < start :: Less(sorted[i], prefix))
    && (forall i | start <= i < |sorted| :: !Less(sorted[i], prefix))
    && (forall i | start <= i < end :: prefix <= sorted[i])
    && (end < |sorted| ==> !(prefix <= sorted[end]))
  }

  // In byte order the keys carrying a prefix are contiguous.
  lemma PrefixContiguous(sorted: seq<Key>, prefix: Key, start: nat, end: nat, i: nat)
    requires Ascending(sorted) && Stretch(sorted, prefix, start, end)
    requires i < |sorted| && prefix <= sorted[i]
    ensures start <= i < end
  {
    PrefixNotLess(prefix, sorted[i]);
    if end <= i {
      BeyondPrefix(prefix, sorted[i], sorted[end]);
      LessAsymmetric(sorted[i], sorted[end]);
    }
  }

  lemma WalkIsExact(keys: set<Key>, prefix: Key, start: nat, end: nat)
    requires Stretch(SortedKeys(keys), prefix, start, end)
    ensures SortedKeys(keys)[start..end] == Scan(keys, prefix)
    ensures Ascending(Scan(keys, prefix))
  {
    hide Less, SortedKeys;
    var sorted := SortedKeys(keys);
    forall k | k in keys && prefix <= k ensures k in sorted[start..end] {
      var i :| 0 <= i < |sorted| && sorted[i] == k;
      PrefixContiguous(sorted, prefix, start, end, i);
    }
    AscendingUnique(sorted[start..end], Scan(keys, prefix));
  }
}
