/** A JavaScript `Set` of strings, which iterates in insertion order, as
    a sequence without duplicates. */
module InsertionSets {
  predicate Distinct(s: seq<string>) {
    forall i, j :: 0 <= i < j < |s| ==> s[i] != s[j]
  }

  /** The elements of a sequence. */
  function Elems(s: seq<string>): set<string> {
    set x | x in s
  }

  /** `s` without the elements of `d`, the rest in their order. */
  function Without(s: seq<string>, d: set<string>): (r: seq<string>)
    ensures Elems(r) == Elems(s) - d
    ensures Distinct(s) ==> Distinct(r)
    ensures forall x :: x in r <==> x in s && x !in d
  {
    if s == [] then []
    else
      var t := Without(s[1..], d);
      assert s == [s[0]] + s[1..];
      assert forall x :: x in s[1..] ==> x in s;
      (if s[0] in d then [] else [s[0]]) + t
  }

  /** Removing from a concatenation removes from each part, so the elements
      that stay keep their relative order. */
  lemma {:induction false} WithoutAppend(a: seq<string>, b: seq<string>, d: set<string>)
    ensures Without(a + b, d) == Without(a, d) + Without(b, d)
  {
    if a == [] {
      assert a + b == b;
    } else {
      assert (a + b)[0] == a[0];
      assert (a + b)[1..] == a[1..] + b;
      WithoutAppend(a[1..], b, d);
    }
  }

  /** One element stays exactly when it is not removed. */
  lemma WithoutSingle(x: string, d: set<string>)
    ensures Without([x], d) == if x in d then [] else [x]
  {
    assert [x][1..] == [];
  }

  lemma {:induction false} WithoutTwice(s: seq<string>, d: set<string>, e: set<string>)
    ensures Without(Without(s, d), e) == Without(s, d + e)
  {
    if s != [] {
      WithoutTwice(s[1..], d, e);
      var t := Without(s[1..], d);
      if s[0] in d {
        assert Without(s, d) == t;
      } else {
        assert Without(s, d) == [s[0]] + t;
        assert ([s[0]] + t)[1..] == t;
      }
    }
  }

  lemma {:induction false} WithoutNothing(s: seq<string>, d: set<string>)
    requires forall x :: x in s ==> x !in d
    ensures Without(s, d) == s
  {
    if s != [] {
      assert s == [s[0]] + s[1..];
      WithoutNothing(s[1..], d);
    }
  }

  /** `set.delete(x)`. */
  function Delete(s: seq<string>, x: string): seq<string> {
    Without(s, {x})
  }

  /** `set.add(x)`: appended when new, otherwise the set is unchanged. */
  function Add(s: seq<string>, x: string): (r: seq<string>)
    ensures Elems(r) == Elems(s) + {x}
    ensures Distinct(s) ==> Distinct(r)
    ensures |r| >= |s| && r[..|s|] == s
  {
    if x in s then s else s + [x]
  }

  /** Adding keeps every prefix of the order in place. */
  lemma AddKeepsPrefix(s: seq<string>, prefix: seq<string>, x: string)
    requires |s| >= |prefix| && s[..|prefix|] == prefix
    ensures |Add(s, x)| >= |prefix| && Add(s, x)[..|prefix|] == prefix
  {
    var r := Add(s, x);
    assert r[..|s|][..|prefix|] == r[..|prefix|];
  }

  /** Deleting one more element after removing `d` removes `d + {x}`. */
  lemma DeleteAfterWithout(s: seq<string>, d: set<string>, x: string)
    ensures Delete(Without(s, d), x) == Without(s, d + {x})
  {
    WithoutTwice(s, d, {x});
  }

  lemma ElemsPrefixStep(s: seq<string>, i: nat)
    requires i < |s|
    ensures Elems(s[..i + 1]) == Elems(s[..i]) + {s[i]}
  {
    assert s[..i + 1] == s[..i] + [s[i]];
  }

  lemma ElemsSnoc(s: seq<string>, x: string)
    ensures Elems(s + [x]) == Elems(s) + {x}
  {
  }

  lemma ElemsTail(s: seq<string>)
    requires s != []
    ensures Elems(s) == {s[0]} + Elems(s[1..])
  {
    assert s == [s[0]] + s[1..];
  }

  lemma DistinctSnoc(s: seq<string>, x: string)
    requires Distinct(s) && x !in Elems(s)
    ensures Distinct(s + [x])
  {
  }
}
