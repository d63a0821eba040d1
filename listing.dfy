/** How `getChildren` orders and filters a directory listing
    (src/fileSystemProvider.ts, lines 128-137): directories before
    everything else, each group by name, ignored names dropped. */
module Listing {
  import opened FileSystem

  /** Lexicographic order on names by character code; it stands for
      `localeCompare`, whose collation depends on the locale. */
  predicate NameLeq(a: string, b: string) {
    a == [] || (b != [] && (a[0] < b[0] || (a[0] == b[0] && NameLeq(a[1..], b[1..]))))
  }

  lemma {:induction false} NameLeqTotal(a: string, b: string)
    ensures NameLeq(a, b) || NameLeq(b, a)
  {
    if a != [] && b != [] && a[0] == b[0] {
      NameLeqTotal(a[1..], b[1..]);
    }
  }

  lemma {:induction false} NameLeqTransitive(a: string, b: string, c: string)
    requires NameLeq(a, b) && NameLeq(b, c)
    ensures NameLeq(a, c)
  {
    if a != [] && b != [] && c != [] && a[0] == b[0] && b[0] == c[0] {
      NameLeqTransitive(a[1..], b[1..], c[1..]);
    }
  }

  lemma {:induction false} NameLeqAntisymmetric(a: string, b: string)
    requires NameLeq(a, b) && NameLeq(b, a)
    ensures a == b
  {
    if a != [] && b != [] {
      NameLeqAntisymmetric(a[1..], b[1..]);
      assert a == [a[0]] + a[1..] && b == [b[0]] + b[1..];
    }
  }

  /** The comparator of the sort: `a` may come before `b`. */
  predicate EntryLeq(a: Entry, b: Entry) {
    if a.kind == Directory && b.kind != Directory then true
    else if a.kind != Directory && b.kind == Directory then false
    else NameLeq(a.name, b.name)
  }

  lemma EntryLeqTotal(a: Entry, b: Entry)
    ensures EntryLeq(a, b) || EntryLeq(b, a)
  {
    NameLeqTotal(a.name, b.name);
  }

  lemma EntryLeqTransitive(a: Entry, b: Entry, c: Entry)
    requires EntryLeq(a, b) && EntryLeq(b, c)
    ensures EntryLeq(a, c)
  {
    if (a.kind == Directory) == (b.kind == Directory) && (b.kind == Directory) == (c.kind == Directory) {
      NameLeqTransitive(a.name, b.name, c.name);
    }
  }

  predicate Sorted(es: seq<Entry>) {
    forall i, j :: 0 <= i < j < |es| ==> EntryLeq(es[i], es[j])
  }

  /** `e` placed before the first entry it may precede. */
  function Insert(e: Entry, es: seq<Entry>): (r: seq<Entry>)
    requires Sorted(es)
    ensures Sorted(r)
    ensures multiset(r) == multiset(es) + multiset{e}
  {
    if es == [] then [e]
    else if EntryLeq(e, es[0]) then
      forall j | 0 < j < |es| ensures EntryLeq(e, es[j]) {
        EntryLeqTransitive(e, es[0], es[j]);
      }
      [e] + es
    else
      EntryLeqTotal(e, es[0]);
      var t := Insert(e, es[1..]);
      assert multiset(t) == multiset(es[1..]) + multiset{e};
      assert es == [es[0]] + es[1..];
      forall j | 0 <= j < |t| ensures EntryLeq(es[0], t[j]) {
        assert t[j] in multiset(t);
        assert t[j] == e || t[j] in es[1..];
      }
      [es[0]] + t
  }

  /** The listing sorted by `EntryLeq`. */
  function SortEntries(es: seq<Entry>): (r: seq<Entry>)
    ensures Sorted(r)
    ensures multiset(r) == multiset(es)
  {
    if es == [] then []
    else
      assert es == es[..|es| - 1] + [es[|es| - 1]];
      Insert(es[|es| - 1], SortEntries(es[..|es| - 1]))
  }

  /** The entries the loop over the sorted listing does not skip. */
  function Visible(es: seq<Entry>): (r: seq<Entry>)
    ensures forall e :: e in r <==> e in es && !Ignored(e.name)
  {
    if es == [] then []
    else
      assert es == [es[0]] + es[1..];
      (if Ignored(es[0].name) then [] else [es[0]]) + Visible(es[1..])
  }

  lemma {:induction false} VisibleCount(es: seq<Entry>)
    ensures forall e :: multiset(Visible(es))[e] == (if Ignored(e.name) then 0 else multiset(es)[e])
  {
    if es != [] {
      VisibleCount(es[1..]);
      assert es == [es[0]] + es[1..];
    }
  }

  lemma {:induction false} VisibleAppend(a: seq<Entry>, b: seq<Entry>)
    ensures Visible(a + b) == Visible(a) + Visible(b)
  {
    if a != [] {
      var t := a + b;
      assert t[0] == a[0];
      assert t[1..] == a[1..] + b;
      VisibleAppend(a[1..], b);
    } else {
      assert a + b == b;
    }
  }

  lemma {:induction false} VisibleSorted(es: seq<Entry>)
    requires Sorted(es)
    ensures Sorted(Visible(es))
  {
    if es != [] {
      VisibleSorted(es[1..]);
      var r := Visible(es[1..]);
      forall j | 0 <= j < |r| ensures EntryLeq(es[0], r[j]) {
        assert r[j] in es[1..];
      }
    }
  }

  /** The shown entries of a listing: sorted, directories first and each
      group by name, and exactly the non-ignored entries, each as many
      times as the listing has it. */
  lemma ShownEntries(es: seq<Entry>)
    ensures forall i, j :: 0 <= i < j < |Visible(SortEntries(es))| ==>
      var a, b := Visible(SortEntries(es))[i], Visible(SortEntries(es))[j];
      (b.kind == Directory ==> a.kind == Directory)
      && ((a.kind == Directory) == (b.kind == Directory) ==> NameLeq(a.name, b.name))
    ensures forall e ::
      multiset(Visible(SortEntries(es)))[e] == (if Ignored(e.name) then 0 else multiset(es)[e])
  {
    VisibleSorted(SortEntries(es));
    VisibleCount(SortEntries(es));
  }
}
