/** Values shared by the retrieval pipeline: optional values, identifiers as the
    two search back ends produce them, scored documents and the few Python list
    and dict idioms the pipeline relies on. */
module Common {

  datatype Option<+T> = None | Some(value: T)

  /** The outcome of an operation that may raise. */
  datatype Result<+T> = Ok(value: T) | Err(error: string)

  /** A document identifier as it arrives from a search back end: the vector
      index yields strings, other sources may yield integers. */
  datatype RawId = StrId(s: string) | IntId(n: int)

  function Digit(d: nat): char
    requires d < 10
  {
    "0123456789"[d]
  }

  /** Decimal digits of a natural number, as Python's `str` prints it. */
  function NatToDecimal(n: nat): (r: string)
    ensures |r| >= 1
    ensures forall i :: 0 <= i < |r| ==> '0' <= r[i] <= '9'
    decreases n
  {
    if n < 10 then [Digit(n)] else NatToDecimal(n / 10) + [Digit(n % 10)]
  }

  /** Python's `str(id)`: the canonical string form used to compare identifiers
      that come from different sources. */
  function Str(id: RawId): string
  {
    match id
    case StrId(s) => s
    case IntId(n) => if n < 0 then "-" + NatToDecimal(-n) else NatToDecimal(n)
  }

  /** The number a string of decimal digits denotes. */
  function DecimalValue(s: string): (v: nat)
    requires forall i :: 0 <= i < |s| ==> '0' <= s[i] <= '9'
  {
    if s == [] then 0
    else DecimalValue(s[..|s| - 1]) * 10 + ((s[|s| - 1] as int) - ('0' as int))
  }

  lemma DigitValue(d: nat)
    requires d < 10
    ensures (Digit(d) as int) - ('0' as int) == d
  {
  }

  /** The decimal digits of `n` denote `n`. */
  lemma {:induction false} NatToDecimalValue(n: nat)
    ensures DecimalValue(NatToDecimal(n)) == n
    decreases n
  {
    var r := NatToDecimal(n);
    DigitValue(n % 10);
    if n < 10 {
      assert r[..0] == [];
    } else {
      NatToDecimalValue(n / 10);
      assert r[..|r| - 1] == NatToDecimal(n / 10);
    }
  }

  /** Two integer identifiers print the same only when they are equal, so
      comparing `str` forms never merges distinct integer identifiers. */
  lemma NatToDecimalInjective(a: nat, b: nat)
    requires NatToDecimal(a) == NatToDecimal(b)
    ensures a == b
  {
    NatToDecimalValue(a);
    NatToDecimalValue(b);
  }

  lemma StrIntIdInjective(m: int, n: int)
    requires Str(IntId(m)) == Str(IntId(n))
    ensures m == n
  {
    if m < 0 && n < 0 {
      NegativeDecimalInjective(m, n);
    } else if m >= 0 && n >= 0 {
      assert NatToDecimal(m) == Str(IntId(m));
      assert NatToDecimal(n) == Str(IntId(n));
      NatToDecimalInjective(m, n);
    } else if m < 0 {
      SignDistinguishes(m, n);
      assert false;
    } else {
      SignDistinguishes(n, m);
      assert false;
    }
  }

  /** Distinct negative integers have distinct string forms. */
  lemma NegativeDecimalInjective(m: int, n: int)
    requires m < 0 && n < 0
    requires Str(IntId(m)) == Str(IntId(n))
    ensures m == n
  {
    var a, b: nat := -m, -n;
    var da, db := NatToDecimal(a), NatToDecimal(b);
    assert Str(IntId(m)) == "-" + da;
    assert Str(IntId(n)) == "-" + db;
    assert da == ("-" + da)[1..];
    assert db == ("-" + db)[1..];
    NatToDecimalInjective(a, b);
  }

  /** Only a negative integer's string form starts with a minus sign. */
  lemma SignDistinguishes(m: int, n: int)
    requires m < 0 <= n
    ensures Str(IntId(m)) != Str(IntId(n))
  {
    MinusDecimal(m);
    var d := NatToDecimal(n);
    assert Str(IntId(n)) == d;
    assert '0' <= d[0] <= '9';
  }

  lemma MinusDecimal(m: int)
    requires m < 0
    ensures Str(IntId(m)) == "-" + NatToDecimal(-m)
    ensures Str(IntId(m))[0] == '-' && Str(IntId(m))[1..] == NatToDecimal(-m)
  {
  }

  /** A retrieved document: its identifier, its `score` key (absent when the
      source did not set one) and the remaining keys of the dict. */
  datatype Doc = Doc(id: RawId, score: Option<real>, payload: map<string, string>)

  /** Every document carries a `score` key. */
  predicate Scored(docs: seq<Doc>)
  {
    forall i :: 0 <= i < |docs| ==> docs[i].score.Some?
  }

  /** The canonical string identifiers of a result list, in list order. */
  function Ids(docs: seq<Doc>): seq<string>
  {
    seq(|docs|, i requires 0 <= i < |docs| => Str(docs[i].id))
  }

  /** The identifiers of a result list as they are, in list order. */
  function DocIds(docs: seq<Doc>): seq<RawId>
  {
    seq(|docs|, i requires 0 <= i < |docs| => docs[i].id)
  }

  /** The `score` values of a result list whose documents all carry one. */
  function RawScores(docs: seq<Doc>): seq<real>
    requires Scored(docs)
  {
    seq(|docs|, i requires 0 <= i < |docs| => docs[i].score.value)
  }

  /** `d.get(k, 0)`. */
  function Get0<K>(m: map<K, real>, k: K): real
  {
    if k in m then m[k] else 0.0
  }

  function Min(a: int, b: int): int { if a <= b then a else b }

  /** Position of the first occurrence of `x` in `s` (`s.index(x)`), or `|s|`
      when `x` does not occur. */
  function IndexOf<T(==)>(s: seq<T>, x: T): (i: nat)
    ensures i <= |s|
    ensures i < |s| <==> x in s
    ensures i < |s| ==> s[i] == x
    ensures forall j :: 0 <= j < i ==> s[j] != x
  {
    if s == [] then 0
    else if s[0] == x then 0
    else 1 + IndexOf(s[1..], x)
  }

  /** `s.remove(x)`: drops the first occurrence of `x`. */
  function RemoveFirst<T(==)>(s: seq<T>, x: T): (r: seq<T>)
    requires x in s
    ensures |r| == |s| - 1
    ensures forall y :: y in r ==> y in s
  {
    if s[0] == x then s[1..]
    else [s[0]] + RemoveFirst(s[1..], x)
  }

  /** `s.remove(x)` cuts out exactly the entry at `s.index(x)`. */
  lemma RemoveFirstCutsIndex<T>(s: seq<T>, x: T)
    requires x in s
    ensures RemoveFirst(s, x) == s[..IndexOf(s, x)] + s[IndexOf(s, x) + 1..]
  {
    RemoveFirstCutsAt(s, x, IndexOf(s, x));
  }

  /** Removing the first `x` cuts out position `i` when `i` holds the first `x`. */
  lemma {:induction false} RemoveFirstCutsAt<T>(s: seq<T>, x: T, i: nat)
    requires i < |s| && s[i] == x
    requires forall j :: 0 <= j < i ==> s[j] != x
    ensures RemoveFirst(s, x) == s[..i] + s[i + 1..]
    decreases i
  {
    if i == 0 {
      assert s[..i] + s[i + 1..] == s[1..];
    } else {
      var t := s[1..];
      assert forall j :: 0 <= j < i - 1 ==> t[j] == s[j + 1];
      RemoveFirstCutsAt(t, x, i - 1);
      assert s[..i] == [s[0]] + t[..i - 1];
      assert s[i + 1..] == t[i..];
    }
  }

  /** Python's slice `s[:n]`; a negative `n` counts from the end. */
  function Take<T>(s: seq<T>, n: int): (r: seq<T>)
    ensures |r| <= |s| && r == s[..|r|]
    ensures n >= 0 ==> |r| == Min(n, |s|)
    ensures n < 0 ==> |r| == if |s| + n < 0 then 0 else |s| + n
  {
    if n >= |s| then s
    else if n >= 0 then s[..n]
    else if |s| + n <= 0 then []
    else s[..|s| + n]
  }

  /** Position of the last occurrence of `k` in `keys`. */
  function LastIndex<K(==)>(keys: seq<K>, k: K): (i: nat)
    requires k in keys
    ensures i < |keys| && keys[i] == k
    ensures forall j :: i < j < |keys| ==> keys[j] != k
  {
    if keys[|keys| - 1] == k then |keys| - 1 else LastIndex(keys[..|keys| - 1], k)
  }

  /** A dict comprehension `{keys[i]: vals[i] for i ...}`: keys are inserted in
      order, so a repeated key keeps the value of its last occurrence. */
  function DictFrom<K, V>(keys: seq<K>, vals: seq<V>): map<K, V>
    requires |keys| == |vals|
  {
    if keys == [] then map[]
    else DictFrom(keys[..|keys| - 1], vals[..|vals| - 1])[keys[|keys| - 1] := vals[|vals| - 1]]
  }

  /** The comprehension has one key per distinct key of the input, and the value
      of each key is the one paired with its last occurrence. */
  lemma {:induction false} DictFromLastWins<K, V>(keys: seq<K>, vals: seq<V>)
    requires |keys| == |vals|
    ensures DictFrom(keys, vals).Keys == set k | k in keys
    ensures forall k :: k in keys ==> DictFrom(keys, vals)[k] == vals[LastIndex(keys, k)]
  {
    if keys != [] {
      var n := |keys| - 1;
      DictFromLastWins(keys[..n], vals[..n]);
      assert keys == keys[..n] + [keys[n]];
      forall k | k in keys
        ensures DictFrom(keys, vals)[k] == vals[LastIndex(keys, k)]
      {
        if k != keys[n] {
          assert k in keys[..n];
        }
      }
    }
  }

  /** No identifier occurs twice. */
  ghost predicate DistinctIds(docs: seq<Doc>)
  {
    forall i, j :: 0 <= i < j < |docs| ==> docs[i].id != docs[j].id
  }

  /** A prefix of a list keeps its documents and their distinct identifiers. */
  lemma TakeKeepsDistinctIds(docs: seq<Doc>, n: int)
    requires DistinctIds(docs)
    ensures DistinctIds(Take(docs, n))
    ensures forall j :: 0 <= j < |Take(docs, n)| ==> Take(docs, n)[j] == docs[j]
  {
    var t := Take(docs, n);
    assert t == docs[..|t|];
    forall i, j | 0 <= i < j < |t| ensures t[i].id != t[j].id {
      assert t[i] == docs[i] && t[j] == docs[j];
    }
  }

  ghost predicate NoDuplicates<T>(s: seq<T>)
  {
    forall i, j :: 0 <= i < j < |s| ==> s[i] != s[j]
  }

  /** In a sequence without duplicates every element is counted once. */
  lemma {:induction false} NoDuplicatesCountsOnce<T>(s: seq<T>, x: T)
    requires NoDuplicates(s)
    ensures multiset(s)[x] <= 1
  {
    if s != [] {
      var n := |s| - 1;
      assert s == s[..n] + [s[n]];
      NoDuplicatesCountsOnce(s[..n], x);
      if x == s[n] {
        assert x !in s[..n];
      }
    }
  }

  /** A permutation of a sequence without duplicates has none either. */
  lemma PermutationNoDuplicates<T>(a: seq<T>, b: seq<T>)
    requires NoDuplicates(a) && multiset(a) == multiset(b)
    ensures NoDuplicates(b)
  {
    forall i, j | 0 <= i < j < |b|
      ensures b[i] != b[j]
    {
      if b[i] == b[j] {
        assert b == b[..j] + b[j..];
        assert b[i] in multiset(b[..j]) && b[j] in multiset(b[j..]);
        assert multiset(b)[b[i]] >= 2;
        NoDuplicatesCountsOnce(a, b[i]);
      }
    }
  }

  lemma {:induction false} IncreasingAtLeastIndex(g: seq<int>, i: nat)
    requires forall p, q :: 0 <= p < q < |g| ==> g[p] < g[q]
    requires forall p :: 0 <= p < |g| ==> 0 <= g[p]
    requires i < |g|
    ensures g[i] >= i
  {
    if i > 0 {
      IncreasingAtLeastIndex(g, i - 1);
    }
  }

  lemma {:induction false} IdentityUpTo(g: seq<int>, n: nat, i: nat)
    requires forall p, q :: 0 <= p < q < |g| ==> g[p] < g[q]
    requires forall p :: 0 <= p < |g| ==> 0 <= g[p] < n
    requires forall v :: 0 <= v < n ==> v in g
    requires i < |g|
    ensures forall j :: 0 <= j <= i ==> g[j] == j
  {
    if i > 0 {
      IdentityUpTo(g, n, i - 1);
    }
    IncreasingAtLeastIndex(g, i);
    assert i in g;
    var p :| 0 <= p < |g| && g[p] == i;
    IncreasingAtLeastIndex(g, p);
  }

  /** A strictly increasing sequence of positions below `n` that hits every
      position below `n` is exactly 0, 1, ..., n - 1: sorting by a key that
      numbers the elements puts each element at its number. */
  lemma IncreasingOntoIsIdentity(g: seq<int>, n: nat)
    requires forall p, q :: 0 <= p < q < |g| ==> g[p] < g[q]
    requires forall p :: 0 <= p < |g| ==> 0 <= g[p] < n
    requires forall v :: 0 <= v < n ==> v in g
    ensures |g| == n
    ensures forall i :: 0 <= i < |g| ==> g[i] == i
  {
    if |g| > 0 {
      IdentityUpTo(g, n, |g| - 1);
      assert g[|g| - 1] == |g| - 1;
    }
    if n > 0 {
      assert n - 1 in g;
      var p :| 0 <= p < |g| && g[p] == n - 1;
    }
  }

  /** A duplicate-free sequence has as many distinct elements as entries; any
      sequence has at most that many. */
  lemma {:induction false} DistinctCount<T>(s: seq<T>)
    ensures |(set x | x in s)| <= |s|
    ensures NoDuplicates(s) ==> |(set x | x in s)| == |s|
  {
    if s != [] {
      var n := |s| - 1;
      DistinctCount(s[..n]);
      assert s == s[..n] + [s[n]];
      assert (set x | x in s) == (set x | x in s[..n]) + {s[n]};
      if NoDuplicates(s) {
        assert s[n] !in s[..n];
      }
    }
  }

  lemma {:induction false} SubsetCard<T>(a: set<T>, b: set<T>)
    requires a <= b
    ensures |a| <= |b|
    decreases |b|
  {
    if a != {} {
      var y :| y in a;
      SubsetCard(a - {y}, b - {y});
    }
  }

  /** A duplicate-free `a` drawn from `b` and as long as `b` covers `b`. */
  lemma AllWithinAndAsLong<T>(a: seq<T>, b: seq<T>)
    requires NoDuplicates(a) && |a| >= |b|
    requires forall x :: x in a ==> x in b
    ensures forall x :: x in b ==> x in a
  {
    DistinctCount(a);
    DistinctCount(b);
    var sa, sb := (set x | x in a), (set x | x in b);
    assert sa <= sb;
    if sa != sb {
      var y :| y in sb && y !in sa;
      SubsetCard(sa, sb - {y});
    }
    forall x | x in b ensures x in a {
      assert x in sb;
    }
  }
}
