/** The policy the traversal is parameterised by. The concrete replacers
    live elsewhere in the program; here each capability is a pure function. */
module Replacers {
  import opened Wrappers
  import opened Yaml

  /** The guard capability: which key is the guard key, and which values of
      it let the enclosing mapping be rewritten. */
  datatype Matcher = Matcher(isMatchKey: Value -> bool, matches: Value -> bool)

  /** The Replacer interface: which keys are rewritten, what a rewritten
      value becomes (the flag says whether to overwrite at all), and the
      optional guard. */
  datatype Replacer = Replacer(
    matches: Value -> bool,
    newValue: Value -> (bool, Value),
    objMatcher: Option<Matcher>)

  /** An entry that vetoes its mapping: its key is the guard key and its
      value fails the guard. */
  predicate Vetoes(m: Matcher, e: Entry)
  {
    m.isMatchKey(e.key) && !m.matches(e.value)
  }

  /** The guard pass over one mapping: a guard is present and some entry
      vetoes. */
  predicate GuardVetoes(om: Option<Matcher>, es: seq<Entry>)
  {
    om.Some? && exists i :: 0 <= i < |es| && Vetoes(om.value, es[i])
  }

  /** The guard's decision depends only on which entries the mapping holds:
      neither their order nor how often one is repeated matters. */
  lemma GuardVetoesByPresence(om: Option<Matcher>, es1: seq<Entry>, es2: seq<Entry>)
    requires forall e :: e in es1 <==> e in es2
    ensures GuardVetoes(om, es1) == GuardVetoes(om, es2)
  {
    if GuardVetoes(om, es1) {
      var i :| 0 <= i < |es1| && Vetoes(om.value, es1[i]);
      assert es1[i] in es2;
    }
    if GuardVetoes(om, es2) {
      var j :| 0 <= j < |es2| && Vetoes(om.value, es2[j]);
      assert es2[j] in es1;
    }
  }

  /** When the guard vetoes there is a first vetoing entry: the one at which
      a scan of the entries in order stops, with every earlier entry passing. */
  lemma {:induction false} FirstVeto(m: Matcher, es: seq<Entry>)
    requires GuardVetoes(Some(m), es)
    ensures exists i :: 0 <= i < |es| && Vetoes(m, es[i]) &&
                        forall j :: 0 <= j < i ==> !Vetoes(m, es[j])
    decreases |es|
  {
    if !Vetoes(m, es[0]) {
      var tail := es[1..];
      var i :| 0 <= i < |es| && Vetoes(m, es[i]);
      assert tail[i - 1] == es[i];
      FirstVeto(m, tail);
      var k :| 0 <= k < |tail| && Vetoes(m, tail[k]) &&
        forall j :: 0 <= j < k ==> !Vetoes(m, tail[j]);
      assert es[k + 1] == tail[k];
      forall j | 0 <= j < k + 1 ensures !Vetoes(m, es[j]) {
        if j > 0 {
          assert es[j] == tail[j - 1];
        }
      }
    }
  }
}
