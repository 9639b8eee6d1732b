/** File names in directory-listing order. `ioutil.ReadDir` sorts entries by
    name, comparing strings byte by byte; for well-formed UTF-8 that is
    code-point order, which is the order of `char` here. */
module Names {

  /** `a` sorts no later than `b`. */
  predicate NoLater(a: string, b: string)
    decreases |a|
  {
    |a| == 0 || (|b| > 0 && (a[0] < b[0] || (a[0] == b[0] && NoLater(a[1..], b[1..]))))
  }

  lemma {:induction false} NoLaterReflexive(a: string)
    ensures NoLater(a, a)
    decreases |a|
  {
    if |a| > 0 {
      NoLaterReflexive(a[1..]);
    }
  }

  lemma {:induction false} NoLaterTotal(a: string, b: string)
    ensures NoLater(a, b) || NoLater(b, a)
    decreases |a|
  {
    if |a| > 0 && |b| > 0 && a[0] == b[0] {
      NoLaterTotal(a[1..], b[1..]);
    }
  }

  lemma {:induction false} NoLaterAntisymmetric(a: string, b: string)
    requires NoLater(a, b) && NoLater(b, a)
    ensures a == b
    decreases |a|
  {
    if |a| > 0 {
      NoLaterAntisymmetric(a[1..], b[1..]);
      assert a == [a[0]] + a[1..];
      assert b == [b[0]] + b[1..];
    }
  }

  lemma {:induction false} NoLaterTransitive(a: string, b: string, c: string)
    requires NoLater(a, b) && NoLater(b, c)
    ensures NoLater(a, c)
    decreases |a|
  {
    if |a| > 0 && a[0] == b[0] && b[0] == c[0] {
      NoLaterTransitive(a[1..], b[1..], c[1..]);
    }
  }

  /** `m` sorts no later than any member of `s`. */
  predicate IsLeast(m: string, s: set<string>)
  {
    m in s && forall y :: y in s ==> NoLater(m, y)
  }

  lemma {:induction false} LeastExists(s: set<string>)
    requires s != {}
    ensures exists m :: IsLeast(m, s)
    decreases |s|
  {
    var x :| x in s;
    NoLaterReflexive(x);
    if s != {x} {
      LeastExists(s - {x});
      var m :| IsLeast(m, s - {x});
      NoLaterTotal(x, m);
      if NoLater(x, m) {
        forall y | y in s ensures NoLater(x, y) {
          if y != x {
            NoLaterTransitive(x, m, y);
          }
        }
        assert IsLeast(x, s);
      } else {
        assert IsLeast(m, s);
      }
    } else {
      assert IsLeast(x, s);
    }
  }

  lemma LeastUnique(s: set<string>)
    ensures forall m, m' :: IsLeast(m, s) && IsLeast(m', s) ==> m == m'
  {
    forall m, m' | IsLeast(m, s) && IsLeast(m', s) ensures m == m' {
      NoLaterAntisymmetric(m, m');
    }
  }

  /** Strictly ascending: listing order with no name twice. */
  ghost predicate Sorted(names: seq<string>)
  {
    forall i, j :: 0 <= i < j < |names| ==> NoLater(names[i], names[j]) && names[i] != names[j]
  }

  /** The members of `s` in listing order. */
  function SortedSeq(s: set<string>): (r: seq<string>)
    ensures Sorted(r)
    ensures forall x :: x in r <==> x in s
    ensures |r| == |s|
    decreases |s|
  {
    if s == {} then []
    else
      LeastExists(s);
      LeastUnique(s);
      var m :| m in s && IsLeast(m, s);
      var rest := SortedSeq(s - {m});
      assert forall j :: 0 <= j < |rest| ==> rest[j] in s - {m};
      [m] + rest
  }
}
