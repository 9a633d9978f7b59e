/** ORDER BY as the bot's SQLite database evaluates it: text compares by the BINARY
    collation, which on UTF-8 is code-point order with a proper prefix first; a
    ThenBy adds a secondary key. Rows with equal keys come back in no promised order,
    so an ordered query is specified as "sorted by the key and a permutation of the rows". */
module Ordering {

  /** Ordinal string comparison: a <= b. */
  predicate StringLe(a: string, b: string)
    decreases |a|
  {
    if |a| == 0 then true
    else if |b| == 0 then false
    else if a[0] != b[0] then a[0] < b[0]
    else StringLe(a[1..], b[1..])
  }

  lemma {:induction false} StringLeTotal(a: string, b: string)
    ensures StringLe(a, b) || StringLe(b, a)
    decreases |a|
  {
    if |a| > 0 && |b| > 0 && a[0] == b[0] {
      StringLeTotal(a[1..], b[1..]);
    }
  }

  lemma {:induction false} StringLeAntisymmetric(a: string, b: string)
    requires StringLe(a, b) && StringLe(b, a)
    ensures a == b
    decreases |a|
  {
    if |a| > 0 && |b| > 0 {
      StringLeAntisymmetric(a[1..], b[1..]);
      assert a == [a[0]] + a[1..] && b == [b[0]] + b[1..];
    }
  }

  lemma {:induction false} StringLeTransitive(a: string, b: string, c: string)
    requires StringLe(a, b) && StringLe(b, c)
    ensures StringLe(a, c)
    decreases |a|
  {
    if |a| > 0 && |b| > 0 && |c| > 0 && a[0] == b[0] == c[0] {
      StringLeTransitive(a[1..], b[1..], c[1..]);
    }
  }

  /** OrderBy(primary).ThenBy(secondary); a single-key OrderBy uses "" as secondary. */
  datatype SortKey = SortKey(primary: string, secondary: string)

  predicate KeyLe(x: SortKey, y: SortKey)
  {
    if x.primary == y.primary then StringLe(x.secondary, y.secondary)
    else StringLe(x.primary, y.primary)
  }

  lemma KeyLeTotal(x: SortKey, y: SortKey)
    ensures KeyLe(x, y) || KeyLe(y, x)
  {
    StringLeTotal(x.primary, y.primary);
    StringLeTotal(x.secondary, y.secondary);
  }

  lemma KeyLeTransitive(x: SortKey, y: SortKey, z: SortKey)
    requires KeyLe(x, y) && KeyLe(y, z)
    ensures KeyLe(x, z)
  {
    if x.primary == y.primary == z.primary {
      StringLeTransitive(x.secondary, y.secondary, z.secondary);
    } else if x.primary == z.primary {
      StringLeAntisymmetric(x.primary, y.primary);
    } else if x.primary != y.primary && y.primary != z.primary {
      StringLeTransitive(x.primary, y.primary, z.primary);
    }
  }

  ghost predicate SortedBy<T>(s: seq<T>, key: T -> SortKey)
  {
    forall i, j :: 0 <= i < j < |s| ==> KeyLe(key(s[i]), key(s[j]))
  }

  /** Inserts x into an ordered sequence, before the first element it does not follow. */
  function InsertBy<T>(x: T, s: seq<T>, key: T -> SortKey): (r: seq<T>)
    requires SortedBy(s, key)
    ensures SortedBy(r, key)
    ensures multiset(r) == multiset(s) + multiset{x}
  {
    if s == [] then [x]
    else if KeyLe(key(x), key(s[0])) then
      assert forall j :: 0 <= j < |s| ==> KeyLe(key(x), key(s[j])) by {
        forall j | 0 <= j < |s| ensures KeyLe(key(x), key(s[j])) {
          if j > 0 { KeyLeTransitive(key(x), key(s[0]), key(s[j])); }
        }
      }
      [x] + s
    else
      var rest := InsertBy(x, s[1..], key);
      KeyLeTotal(key(x), key(s[0]));
      assert s == [s[0]] + s[1..];
      assert forall y :: y in rest ==> KeyLe(key(s[0]), key(y)) by {
        forall y | y in rest ensures KeyLe(key(s[0]), key(y)) {
          assert y in multiset(rest);
          if y != x {
            assert y in multiset(s[1..]);
            var k :| 0 <= k < |s[1..]| && s[1..][k] == y;
            assert s[k + 1] == y;
          }
        }
      }
      [s[0]] + rest
  }

  /** The rows ordered by key (an insertion sort). */
  function SortBy<T>(s: seq<T>, key: T -> SortKey): (r: seq<T>)
    ensures SortedBy(r, key)
    ensures multiset(r) == multiset(s)
  {
    if s == [] then []
    else
      assert s == [s[0]] + s[1..];
      InsertBy(s[0], SortBy(s[1..], key), key)
  }
}
