/** recursiveVisit: walk a document tree and rewrite the values of matching
    mapping keys, unless a guard entry of that mapping vetoes it. */
module TreeVisitor {
  import opened Wrappers
  import opened Yaml
  import opened Replacers

  /** What visiting a node yields. Scalars are left alone, sequences are
      visited element by element, and a mapping is either vetoed by its guard
      (and left exactly as it was) or has every entry visited. */
  function Visit(v: Value, r: Replacer): (w: Value)
    ensures v.Scalar? ==> w == v
    ensures v.Sequence? ==> w.Sequence? && |w.items| == |v.items|
    ensures v.Sequence? ==>
      forall i :: 0 <= i < |v.items| && v.items[i].Scalar? ==> w.items[i] == v.items[i]
    ensures v.Mapping? ==> w.Mapping? && Keys(w.entries) == Keys(v.entries)
    decreases v, 1
  {
    match v
    case Scalar(_, _) => v
    case Sequence(items) =>
      Sequence(seq(|items|, i requires 0 <= i < |items| => Visit(items[i], r)))
    case Mapping(es) =>
      if GuardVetoes(r.objMatcher, es) then v else Mapping(VisitEntries(es, r))
  }

  /** The replace pass over the entries of one mapping (the guard having
      passed): each entry is treated on its own. */
  function VisitEntries(es: seq<Entry>, r: Replacer): (fs: seq<Entry>)
    ensures Keys(fs) == Keys(es)
    decreases Mapping(es), 0
  {
    seq(|es|, i requires 0 <= i < |es| => VisitEntry(es[i], r))
  }

  /** One entry of the replace pass. A matching key has its value offered to
      NewValue and overwritten only if NewValue accepts; either way the value
      is not descended into. Any other value is visited. */
  function VisitEntry(e: Entry, r: Replacer): (f: Entry)
    ensures f.key == e.key
    decreases e, 1
  {
    if r.matches(e.key) then
      var (ok, newValue) := r.newValue(e.value);
      if ok then Entry(e.key, newValue) else e
    else
      Entry(e.key, Visit(e.value, r))
  }

  /** The traversal as the program runs it: a loop over the elements of a
      sequence, and for a mapping a guard loop that returns as soon as an
      entry vetoes, then a loop that overwrites values slot by slot. */
  method RecursiveVisit(v: Value, r: Replacer) returns (w: Value)
    ensures w == Visit(v, r)
    decreases v
  {
    match v {
      case Scalar(_, _) =>
        w := v;
      case Sequence(items) =>
        var out := items;
        var i := 0;
        while i < |items|
          invariant 0 <= i <= |items| && |out| == |items|
          invariant forall j :: 0 <= j < i ==> out[j] == Visit(items[j], r)
          invariant forall j :: i <= j < |items| ==> out[j] == items[j]
        {
          var visited := RecursiveVisit(items[i], r);
          out := out[i := visited];
          i := i + 1;
        }
        w := Sequence(out);
      case Mapping(es) =>
        if r.objMatcher.Some? {
          var guard := r.objMatcher.value;
          var i := 0;
          while i < |es|
            invariant 0 <= i <= |es|
            invariant forall j :: 0 <= j < i ==> !Vetoes(guard, es[j])
          {
            if guard.isMatchKey(es[i].key) && !guard.matches(es[i].value) {
              return v;
            }
            i := i + 1;
          }
        }
        var out := es;
        var i := 0;
        while i < |es|
          invariant 0 <= i <= |es| && |out| == |es|
          invariant forall j :: 0 <= j < i ==> out[j] == VisitEntry(es[j], r)
          invariant forall j :: i <= j < |es| ==> out[j] == es[j]
        {
          var e := es[i];
          if r.matches(e.key) {
            var (ok, newValue) := r.newValue(e.value);
            if ok {
              out := out[i := Entry(e.key, newValue)];
            }
          } else {
            var visited := RecursiveVisit(e.value, r);
            out := out[i := Entry(e.key, visited)];
          }
          i := i + 1;
        }
        w := Mapping(out);
    }
  }

  /** A veto leaves the whole mapping as it was, nested values included;
      otherwise every entry goes through the replace pass. */
  lemma GuardDecidesMapping(es: seq<Entry>, r: Replacer)
    ensures GuardVetoes(r.objMatcher, es) ==> Visit(Mapping(es), r) == Mapping(es)
    ensures !GuardVetoes(r.objMatcher, es) ==>
      forall i :: 0 <= i < |es| ==> Visit(Mapping(es), r).entries[i] == VisitEntry(es[i], r)
    ensures r.objMatcher.None? ==> !GuardVetoes(r.objMatcher, es)
  {
  }

  /** For a matching key nothing below the value is consulted: two replacers
      that agree on the key and on NewValue of the whole value give the same
      entry, however differently they treat the keys nested inside it. */
  lemma MatchedValueNotDescended(k: Value, x: Value, r1: Replacer, r2: Replacer)
    requires r1.matches(k) && r2.matches(k)
    requires r1.newValue(x) == r2.newValue(x)
    ensures VisitEntry(Entry(k, x), r1) == VisitEntry(Entry(k, x), r2)
    ensures !r1.newValue(x).0 ==> VisitEntry(Entry(k, x), r1).value == x
  {
  }

  /** A replacer that matches no key, or whose NewValue never accepts,
      leaves every tree unchanged. */
  ghost predicate Inert(r: Replacer)
  {
    (forall k :: !r.matches(k)) || (forall x :: !r.newValue(x).0)
  }

  lemma {:induction false} InertReplacerIsIdentity(v: Value, r: Replacer)
    requires Inert(r)
    ensures Visit(v, r) == v
    decreases v
  {
    match v
    case Scalar(_, _) =>
    case Sequence(items) =>
      forall i | 0 <= i < |items| ensures Visit(items[i], r) == items[i] {
        InertReplacerIsIdentity(items[i], r);
      }
      assert Visit(v, r).items == items;
    case Mapping(es) =>
      if !GuardVetoes(r.objMatcher, es) {
        forall i | 0 <= i < |es| ensures VisitEntry(es[i], r) == es[i] {
          if !r.matches(es[i].key) {
            InertReplacerIsIdentity(es[i].value, r);
          }
        }
        assert VisitEntries(es, r) == es;
      }
  }

  /** NewValue is stable on its own output: once it has produced a value,
      offering that value again is declined or gives it back. */
  ghost predicate StableNewValue(r: Replacer)
  {
    forall x :: r.newValue(x).0 ==>
      !r.newValue(r.newValue(x).1).0 || r.newValue(r.newValue(x).1).1 == r.newValue(x).1
  }

  /** With a stable NewValue, visiting an already visited tree changes
      nothing more, whatever the guard. */
  lemma {:induction false} VisitIdempotent(v: Value, r: Replacer)
    requires StableNewValue(r)
    ensures Visit(Visit(v, r), r) == Visit(v, r)
    decreases v
  {
    match v
    case Scalar(_, _) =>
    case Sequence(items) =>
      var w := Visit(v, r);
      forall i | 0 <= i < |items| ensures Visit(w.items[i], r) == w.items[i] {
        VisitIdempotent(items[i], r);
      }
      assert Visit(w, r).items == w.items;
    case Mapping(es) =>
      if !GuardVetoes(r.objMatcher, es) {
        var fs := VisitEntries(es, r);
        if !GuardVetoes(r.objMatcher, fs) {
          forall i | 0 <= i < |fs| ensures VisitEntry(fs[i], r) == fs[i] {
            assert fs[i] == VisitEntry(es[i], r);
            if r.matches(es[i].key) {
              var (ok, newValue) := r.newValue(es[i].value);
              assert fs[i] == if ok then Entry(es[i].key, newValue) else es[i];
            } else {
              VisitIdempotent(es[i].value, r);
            }
          }
          assert VisitEntries(fs, r) == fs;
        }
      }
  }

  /** If NewValue only produces well-formed trees, a visit keeps every
      mapping's keys unique: values are replaced, keys never added. */
  lemma {:induction false} VisitPreservesWellFormed(v: Value, r: Replacer)
    requires WellFormed(v)
    requires forall x :: r.newValue(x).0 ==> WellFormed(r.newValue(x).1)
    ensures WellFormed(Visit(v, r))
    decreases v
  {
    match v
    case Scalar(_, _) =>
    case Sequence(items) =>
      var w := Visit(v, r);
      forall i | 0 <= i < |items| ensures WellFormed(w.items[i]) {
        VisitPreservesWellFormed(items[i], r);
      }
    case Mapping(es) =>
      if !GuardVetoes(r.objMatcher, es) {
        var fs := VisitEntries(es, r);
        assert Keys(fs) == Keys(es);
        forall i, j | 0 <= i < j < |fs| ensures fs[i].key != fs[j].key {
          assert Keys(fs)[i] == Keys(es)[i] && Keys(fs)[j] == Keys(es)[j];
        }
        forall i | 0 <= i < |fs| ensures WellFormed(fs[i].value) {
          assert fs[i] == VisitEntry(es[i], r);
          assert WellFormed(es[i].value);
          if !r.matches(es[i].key) {
            VisitPreservesWellFormed(es[i].value, r);
          }
        }
        assert Visit(v, r) == Mapping(fs);
      }
  }

  /** The replace pass over two runs of entries is the two passes joined. */
  lemma VisitEntriesAppend(a: seq<Entry>, b: seq<Entry>, r: Replacer)
    ensures VisitEntries(a + b, r) == VisitEntries(a, r) + VisitEntries(b, r)
  {
  }

  /** Neither pass depends on the order of a mapping's entries: reordering
      them gives the same guard decision and the same visited entries,
      reordered. */
  lemma {:induction false} EntryOrderIrrelevant(es1: seq<Entry>, es2: seq<Entry>, r: Replacer)
    requires multiset(es1) == multiset(es2)
    ensures GuardVetoes(r.objMatcher, es1) == GuardVetoes(r.objMatcher, es2)
    ensures multiset(VisitEntries(es1, r)) == multiset(VisitEntries(es2, r))
    decreases |es1|
  {
    if GuardVetoes(r.objMatcher, es1) {
      var i :| 0 <= i < |es1| && Vetoes(r.objMatcher.value, es1[i]);
      assert es1[i] in multiset(es2);
      var j :| 0 <= j < |es2| && es2[j] == es1[i];
    }
    if GuardVetoes(r.objMatcher, es2) {
      var j :| 0 <= j < |es2| && Vetoes(r.objMatcher.value, es2[j]);
      assert es2[j] in multiset(es1);
      var i :| 0 <= i < |es1| && es1[i] == es2[j];
    }
    if es1 == [] {
      assert |multiset(es2)| == 0;
    } else {
      var e := es1[0];
      assert e in multiset(es2);
      var j :| 0 <= j < |es2| && es2[j] == e;
      var rest := es2[..j] + es2[j + 1..];
      assert es2 == es2[..j] + [e] + es2[j + 1..];
      assert es1 == [e] + es1[1..];
      assert multiset(es1) == multiset([e]) + multiset(es1[1..]);
      assert multiset(es2) == multiset(es2[..j]) + multiset([e]) + multiset(es2[j + 1..]);
      assert multiset(rest) == multiset(es2[..j]) + multiset(es2[j + 1..]);
      calc {
        multiset(es1[1..]);
        multiset(es1) - multiset([e]);
        multiset(es2) - multiset([e]);
        multiset(rest);
      }
      EntryOrderIrrelevant(es1[1..], rest, r);
      VisitEntriesAppend([e], es1[1..], r);
      VisitEntriesAppend(es2[..j] + [e], es2[j + 1..], r);
      VisitEntriesAppend(es2[..j], [e], r);
      VisitEntriesAppend(es2[..j], es2[j + 1..], r);
    }
  }

  /** A matching key four levels down (sequence, mapping, sequence,
      mapping) is found and its value replaced, while the scalar beside it in
      each sequence and the non-matching entry beside it keep their values.
      The guard is present or not; it only has to pass at both mappings. */
  lemma DeepMatchReplaced(
    s1: Value, s2: Value, outer: Value, side: Value, z: Value,
    k: Value, x: Value, y: Value, r: Replacer)
    requires s1.Scalar? && s2.Scalar? && z.Scalar?
    requires !r.matches(outer) && !r.matches(side) && r.matches(k)
    requires r.newValue(x) == (true, y)
    requires !GuardVetoes(r.objMatcher, [Entry(k, x), Entry(side, z)])
    requires !GuardVetoes(r.objMatcher,
      [Entry(outer, Sequence([s2, Mapping([Entry(k, x), Entry(side, z)])]))])
    ensures Visit(Sequence([s1, Mapping([Entry(outer, Sequence([s2, Mapping([Entry(k, x), Entry(side, z)])]))])]), r)
         == Sequence([s1, Mapping([Entry(outer, Sequence([s2, Mapping([Entry(k, y), Entry(side, z)])]))])])
  {
    var inner := Mapping([Entry(k, x), Entry(side, z)]);
    var inner' := Mapping([Entry(k, y), Entry(side, z)]);
    assert VisitEntry(Entry(k, x), r) == Entry(k, y);
    assert VisitEntry(Entry(side, z), r) == Entry(side, z);
    assert VisitEntries(inner.entries, r) == inner'.entries;
    assert Visit(inner, r) == inner';
    var middle := Sequence([s2, inner]);
    assert Visit(middle, r) == Sequence([s2, inner']);
    var top := Mapping([Entry(outer, middle)]);
    assert VisitEntry(Entry(outer, middle), r) == Entry(outer, Sequence([s2, inner']));
    assert VisitEntries(top.entries, r) == [Entry(outer, Sequence([s2, inner']))];
    assert Visit(top, r) == Mapping([Entry(outer, Sequence([s2, inner']))]);
  }
}
