/** Division of every value of a score dict by its largest value, the step both
    the blender (vector scores) and the diversity selector (relevance scores)
    perform in place: `m = max(d.values()); if m > 0: for k in d: d[k] /= m`. */
module MaxNorm {

  /** `x` is the largest value of `m`. */
  ghost predicate IsMaxOf<K>(m: map<K, real>, x: real)
  {
    x in m.Values && forall k :: k in m ==> m[k] <= x
  }

  lemma {:induction false} MaxExists<K>(m: map<K, real>)
    requires m != map[]
    ensures exists x :: IsMaxOf(m, x)
    decreases |m|
  {
    var k :| k in m;
    var rest := m - {k};
    if rest == map[] {
      assert m[k] in m.Values;
      forall j | j in m ensures m[j] <= m[k] {
        assert j !in rest;
      }
      assert IsMaxOf(m, m[k]);
    } else {
      MaxExists(rest);
      var y :| IsMaxOf(rest, y);
      var z := if m[k] > y then m[k] else y;
      assert forall j :: j in m ==> j == k || j in rest;
      var kz :| kz in rest && rest[kz] == y;
      assert m[kz] == y;
      assert IsMaxOf(m, z);
    }
  }

  /** The largest value of a non-empty dict (Python's `max(d.values())`). */
  ghost function MaxOf<K>(m: map<K, real>): (x: real)
    requires m != map[]
    ensures IsMaxOf(m, x)
  {
    MaxExists(m);
    var x :| IsMaxOf(m, x);
    x
  }

  /** The maximum is unique, so any value a loop finds with the two properties
      of `IsMaxOf` is `MaxOf`. */
  lemma MaxOfUnique<K>(m: map<K, real>, x: real)
    requires IsMaxOf(m, x)
    ensures m != map[] && x == MaxOf(m)
  {
    var k :| k in m && m[k] == x;
    var y := MaxOf(m);
    var ky :| ky in m && m[ky] == y;
    assert x <= y && y <= x;
  }

  /** The dict after the normalisation step: unchanged when empty or when the
      maximum is not positive, every value divided by the maximum otherwise. */
  ghost function Normalized<K>(m: map<K, real>): (n: map<K, real>)
    ensures n.Keys == m.Keys
  {
    if m == map[] then m
    else
      var mx := MaxOf(m);
      if mx > 0.0 then map k | k in m :: m[k] / mx else m
  }

  /** After normalisation by a positive maximum the top entry is exactly 1.0,
      no entry exceeds 1.0, and non-negative inputs stay non-negative. */
  lemma NormalizedTopIsOne<K>(m: map<K, real>)
    requires m != map[] && MaxOf(m) > 0.0
    ensures Normalized(m).Keys == m.Keys
    ensures exists k :: k in m && Normalized(m)[k] == 1.0
    ensures forall k :: k in m ==> Normalized(m)[k] <= 1.0
    ensures forall k :: k in m && m[k] >= 0.0 ==> Normalized(m)[k] >= 0.0
  {
    var mx := MaxOf(m);
    var top :| top in m && m[top] == mx;
    assert Normalized(m)[top] == mx / mx == 1.0;
    forall k | k in m
      ensures Normalized(m)[k] <= 1.0
    {
      assert m[k] <= mx;
      assert m[k] / mx <= mx / mx;
    }
  }

  /** When the maximum is not positive the scores are kept as they are. */
  lemma NormalizedNonPositiveKeeps<K>(m: map<K, real>)
    requires m != map[] && MaxOf(m) <= 0.0
    ensures Normalized(m) == m
  {
  }

  /** `max(d.values())`, scanning the keys. */
  method MaxValue<K>(m: map<K, real>) returns (mx: real)
    requires m != map[]
    ensures IsMaxOf(m, mx)
  {
    var k0 :| k0 in m;
    mx := m[k0];
    var todo := m.Keys - {k0};
    while todo != {}
      invariant todo <= m.Keys
      invariant mx in m.Values
      invariant forall k :: k in m && k !in todo ==> m[k] <= mx
      decreases |todo|
    {
      var k :| k in todo;
      if m[k] > mx {
        mx := m[k];
      }
      todo := todo - {k};
    }
  }

  /** `for k in d: d[k] /= divisor`. */
  method DivideAll<K>(m: map<K, real>, divisor: real) returns (n: map<K, real>)
    requires divisor != 0.0
    ensures n.Keys == m.Keys
    ensures forall k :: k in m ==> n[k] == m[k] / divisor
  {
    n := m;
    var todo := m.Keys;
    while todo != {}
      invariant todo <= m.Keys && n.Keys == m.Keys
      invariant forall k :: k in m ==> n[k] == if k in todo then m[k] else m[k] / divisor
      decreases |todo|
    {
      var k :| k in todo;
      n := n[k := n[k] / divisor];
      todo := todo - {k};
    }
  }

  /** The whole step: find the maximum of a non-empty dict and, when it is
      positive, divide every value by it. */
  method NormalizeByMax<K>(m: map<K, real>) returns (n: map<K, real>)
    ensures n == Normalized(m)
  {
    n := m;
    if m != map[] {
      var mx := MaxValue(m);
      MaxOfUnique(m, mx);
      if mx > 0.0 {
        n := DivideAll(m, mx);
      }
    }
  }
}
