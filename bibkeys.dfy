/** Reference numbering shared by the table scripts: `np.unique` (sorted,
    duplicates removed) followed by `{keys[i]: i + 1 for i in range(len(keys))}`.
    A Python dict iterates in insertion order, so the numbering is kept as
    the sorted key sequence itself; a key's number is its position plus one. */
module Bibkeys {
  import opened Strings

  /** Python's `<` on `str`: lexicographic by code point. */
  predicate StrLt(a: string, b: string)
    decreases |a|
  {
    if a == [] then b != []
    else if b == [] then false
    else if a[0] != b[0] then a[0] < b[0]
    else StrLt(a[1..], b[1..])
  }

  lemma {:induction false} StrLtIrreflexive(a: string)
    ensures !StrLt(a, a)
  {
    if a != [] { StrLtIrreflexive(a[1..]); }
  }

  lemma {:induction false} StrLtTransitive(a: string, b: string, c: string)
    requires StrLt(a, b) && StrLt(b, c)
    ensures StrLt(a, c)
    decreases |a|
  {
    if a != [] && b != [] && c != [] && a[0] == b[0] == c[0] {
      StrLtTransitive(a[1..], b[1..], c[1..]);
    }
  }

  lemma {:induction false} StrLtTotal(a: string, b: string)
    requires a != b
    ensures StrLt(a, b) || StrLt(b, a)
    decreases |a|
  {
    if a != [] && b != [] && a[0] == b[0] {
      assert a == [a[0]] + a[1..] && b == [b[0]] + b[1..];
      StrLtTotal(a[1..], b[1..]);
    }
  }

  ghost predicate StrictlySorted(s: seq<string>)
  {
    forall i, j :: 0 <= i < j < |s| ==> StrLt(s[i], s[j])
  }

  /** Inserts `x` into a strictly sorted sequence unless it is already there. */
  function InsertUnique(x: string, s: seq<string>): (r: seq<string>)
    requires StrictlySorted(s)
    ensures StrictlySorted(r)
    ensures forall y :: y in r <==> y == x || y in s
    ensures r != [] && (r[0] == x || (s != [] && r[0] == s[0]))
  {
    if s == [] then [x]
    else if x == s[0] then s
    else if StrLt(x, s[0]) then
      assert forall j :: 0 <= j < |s| ==> StrLt(x, s[j]) by {
        forall j | 0 <= j < |s| ensures StrLt(x, s[j]) {
          if j > 0 { StrLtTransitive(x, s[0], s[j]); }
        }
      }
      [x] + s
    else
      StrLtTotal(x, s[0]);
      var t := InsertUnique(x, s[1..]);
      assert forall j :: 0 <= j < |t| ==> StrLt(s[0], t[j]) by {
        forall j | 0 <= j < |t| ensures StrLt(s[0], t[j]) {
          assert t[j] in t;
          if t[j] != x {
            var k :| 0 <= k < |s[1..]| && s[1..][k] == t[j];
            assert s[k + 1] == t[j];
          }
        }
      }
      [s[0]] + t
  }

  /** `np.unique(keys)`: the distinct keys in ascending order. */
  function SortedUnique(keys: seq<string>): (r: seq<string>)
    ensures StrictlySorted(r)
    ensures forall k :: k in r <==> k in keys
  {
    if keys == [] then []
    else
      var r := InsertUnique(keys[0], SortedUnique(keys[1..]));
      assert forall k :: k in keys <==> k == keys[0] || k in keys[1..] by {
        assert keys == [keys[0]] + keys[1..];
      }
      r
  }

  /** The position of `k` in `keys`. */
  function IndexOf(keys: seq<string>, k: string): (i: nat)
    requires k in keys
    ensures i < |keys| && keys[i] == k
    ensures forall j :: 0 <= j < i ==> keys[j] != k
  {
    if keys[0] == k then 0 else 1 + IndexOf(keys[1..], k)
  }

  /** The reference number of `k` under the numbering `keys`. */
  function Number(keys: seq<string>, k: string): (n: nat)
    requires k in keys
    ensures 1 <= n <= |keys| && keys[n - 1] == k
  {
    IndexOf(keys, k) + 1
  }

  /** `np.unique` then numbering from 1, for a list of collected keys. */
  function Numbering(collected: seq<string>): (keys: seq<string>)
    ensures StrictlySorted(keys)
    ensures forall k :: k in keys <==> k in collected
  {
    SortedUnique(collected)
  }

  /** In a strictly sorted numbering, numbers are 1..n, distinct keys get
      distinct numbers, and the numbers follow the order of the keys. */
  lemma NumberOrdered(keys: seq<string>, k1: string, k2: string)
    requires StrictlySorted(keys)
    requires k1 in keys && k2 in keys
    ensures StrLt(k1, k2) <==> Number(keys, k1) < Number(keys, k2)
    ensures k1 != k2 <==> Number(keys, k1) != Number(keys, k2)
  {
    var i, j := Number(keys, k1) - 1, Number(keys, k2) - 1;
    if i < j {
      assert StrLt(k1, k2);
    } else if i == j {
      StrLtIrreflexive(k1);
    } else {
      assert StrLt(k2, k1);
      if StrLt(k1, k2) {
        StrLtTransitive(k1, k2, k1);
        StrLtIrreflexive(k1);
      }
    }
  }

  /** Every collected key receives a number, and every number belongs to
      exactly one collected key. */
  lemma NumberingComplete(collected: seq<string>, n: nat)
    requires 1 <= n <= |Numbering(collected)|
    ensures Numbering(collected)[n - 1] in collected
    ensures Number(Numbering(collected), Numbering(collected)[n - 1]) == n
  {
    var keys := Numbering(collected);
    var k := keys[n - 1];
    assert k in keys;
    var m := Number(keys, k);
    if m != n {
      assert StrLt(keys[m - 1], keys[n - 1]);
      StrLtIrreflexive(k);
    }
  }

  /** `"(" + str(n) + ")"`, the text a reference number is printed as. */
  function NumberText(n: nat): string
  {
    "(" + NatToString(n) + ")"
  }

  /** The citation command `\citet{key}` of a bibkey. */
  function CiteText(key: string): string
  {
    "\\citet{" + key + "}"
  }
}
