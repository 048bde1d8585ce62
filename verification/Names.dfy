/** The order chain identifiers are written and reported in: by code point, like `sorted`
    and `ORDER BY` do. */
module Names {

  predicate Before(a: string, b: string) {
    if b == "" then false
    else if a == "" then true
    else a[0] < b[0] || (a[0] == b[0] && Before(a[1..], b[1..]))
  }

  /** At the first place where they differ, one has the smaller code point or is at its end. */
  ghost predicate SmallerAt(a: string, b: string, k: nat) {
    && k <= |a| && k < |b| && a[..k] == b[..k]
    && (k == |a| || (a[k] as int) < (b[k] as int))
  }

  lemma {:induction false} BeforeIsCodePointOrder(a: string, b: string)
    ensures Before(a, b) <==> exists k: nat :: SmallerAt(a, b, k)
  {
    if a == "" || b == "" {
      assert b != "" ==> SmallerAt(a, b, 0);
    } else {
      BeforeIsCodePointOrder(a[1..], b[1..]);
      if a[0] < b[0] {
        assert SmallerAt(a, b, 0);
      }
      if k: nat :| SmallerAt(a[1..], b[1..], k) && a[0] == b[0] {
        assert a[..k + 1] == [a[0]] + a[1..][..k] && b[..k + 1] == [b[0]] + b[1..][..k];
        assert SmallerAt(a, b, k + 1);
      }
      if k: nat :| SmallerAt(a, b, k) && k > 0 {
        assert a[0] == a[..k][0] == b[..k][0] == b[0];
        assert a[1..][..k - 1] == a[..k][1..] && b[1..][..k - 1] == b[..k][1..];
        assert SmallerAt(a[1..], b[1..], k - 1);
      }
    }
  }

  lemma {:induction false} BeforeTotal(a: string, b: string)
    ensures Before(a, b) || a == b || Before(b, a)
    ensures !(Before(a, b) && Before(b, a)) && !Before(a, a)
  {
    if a != "" {
      BeforeTotal(a[1..], a[1..]);
      if b != "" {
        BeforeTotal(a[1..], b[1..]);
        assert a == [a[0]] + a[1..] && b == [b[0]] + b[1..];
      }
    }
  }

  lemma {:induction false} BeforeTransitive(a: string, b: string, c: string)
    requires Before(a, b) && Before(b, c)
    ensures Before(a, c)
  {
    if a != "" && a[0] == b[0] == c[0] {
      BeforeTransitive(a[1..], b[1..], c[1..]);
    }
  }

  predicate IsFirst(m: string, s: set<string>) {
    m in s && forall k :: k in s && k != m ==> Before(m, k)
  }

  lemma {:induction false} FirstExists(s: set<string>)
    requires s != {}
    ensures exists m :: IsFirst(m, s)
  {
    var x :| x in s;
    if s == {x} {
      assert IsFirst(x, s);
    } else {
      var t := s - {x};
      assert t != {};
      FirstExists(t);
      var y :| IsFirst(y, t);
      BeforeTotal(x, y);
      if Before(y, x) {
        assert IsFirst(y, s);
      } else {
        forall k | k in t && k != y ensures Before(x, k) {
          BeforeTransitive(x, y, k);
        }
        assert IsFirst(x, s);
      }
    }
  }

  lemma FirstUnique(s: set<string>)
    ensures forall m, n :: IsFirst(m, s) && IsFirst(n, s) ==> m == n
  {
    forall m, n | IsFirst(m, s) && IsFirst(n, s) ensures m == n {
      BeforeTotal(m, n);
    }
  }

  function First(s: set<string>): (m: string)
    requires s != {}
    ensures IsFirst(m, s)
  {
    FirstUnique(s);
    FirstExists(s);
    var m :| m in s && IsFirst(m, s);
    m
  }

  ghost predicate Distinct(keys: seq<string>) {
    forall i, j :: 0 <= i < j < |keys| ==> keys[i] != keys[j]
  }

  /** The names of a set, each once, in order. */
  function Sorted(s: set<string>): (keys: seq<string>)
    ensures |keys| == |s|
    ensures forall k :: k in keys <==> k in s
    ensures forall i, j :: 0 <= i < j < |keys| ==> Before(keys[i], keys[j])
  {
    if s == {} then []
    else
      var m := First(s);
      var rest := Sorted(s - {m});
      assert forall i :: 0 <= i < |rest| ==> rest[i] in rest;
      [m] + rest
  }

  lemma SortedDistinct(s: set<string>)
    ensures Distinct(Sorted(s))
  {
    var keys := Sorted(s);
    forall i, j | 0 <= i < j < |keys| ensures keys[i] != keys[j] {
      BeforeTotal(keys[i], keys[j]);
    }
  }
}
