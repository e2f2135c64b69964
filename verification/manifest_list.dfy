/** ManifestList.Visit: read each manifest of a list, rewrite its tree, write
    it back, dropping empty manifests and stopping at the first failure. */
module ManifestList {
  import opened Wrappers
  import opened Yaml
  import opened Replacers
  import TreeVisitor

  /** One serialised Kubernetes manifest. */
  type Manifest = seq<bv8>

  /** The two ways a visit of a list fails. The wrapped message of the
      underlying YAML error is not modelled. */
  datatype VisitError = ReadError | MarshalError

  /** The YAML library: reading a manifest into a top-level mapping, and
      marshalling a tree back. Either may fail. */
  datatype Codec = Codec(
    unmarshal: Manifest -> Option<seq<Entry>>,
    marshal: Value -> Option<Manifest>)

  /** What happens to a single manifest of the list. */
  datatype Step = Skip | Emit(manifest: Manifest) | Fail(error: VisitError)

  function VisitManifest(m: Manifest, r: Replacer, c: Codec): (s: Step)
    ensures s.Skip? <==> c.unmarshal(m) == Some([])
    ensures s == Fail(ReadError) <==> c.unmarshal(m).None?
    ensures s == Fail(MarshalError) <==>
      c.unmarshal(m).Some? && c.unmarshal(m).value != [] &&
      c.marshal(TreeVisitor.Visit(Mapping(c.unmarshal(m).value), r)).None?
    ensures s.Emit? ==>
      c.unmarshal(m).Some? &&
      c.marshal(TreeVisitor.Visit(Mapping(c.unmarshal(m).value), r)) == Some(s.manifest)
  {
    match c.unmarshal(m)
    case None => Fail(ReadError)
    case Some(es) =>
      if |es| == 0 then Skip
      else
        match c.marshal(TreeVisitor.Visit(Mapping(es), r))
        case None => Fail(MarshalError)
        case Some(out) => Emit(out)
  }

  /** Puts already produced manifests in front of the outcome of the rest. */
  function Prepend(done: seq<Manifest>, rest: Result<seq<Manifest>, VisitError>): Result<seq<Manifest>, VisitError>
  {
    match rest
    case Success(more) => Success(done + more)
    case Failure(e) => Failure(e)
  }

  /** What happens to each manifest of a list, position by position. */
  function Steps(ms: seq<Manifest>, r: Replacer, c: Codec): seq<Step>
  {
    seq(|ms|, i requires 0 <= i < |ms| => VisitManifest(ms[i], r, c))
  }

  /** Folds the steps from the front: the first failure is the outcome,
      otherwise the emitted manifests in order. */
  function Collect(steps: seq<Step>): (res: Result<seq<Manifest>, VisitError>)
    ensures res.Success? ==> |res.value| <= |steps|
    decreases |steps|
  {
    if steps == [] then Success([])
    else
      match steps[0]
      case Fail(e) => Failure(e)
      case Skip => Collect(steps[1..])
      case Emit(out) => Prepend([out], Collect(steps[1..]))
  }

  /** The outcome of visiting a whole list: it fails exactly when some
      manifest fails, and otherwise yields at most one manifest per input. */
  function VisitAll(ms: seq<Manifest>, r: Replacer, c: Codec): (res: Result<seq<Manifest>, VisitError>)
    ensures res.Failure? <==> exists i :: 0 <= i < |ms| && VisitManifest(ms[i], r, c).Fail?
    ensures res.Success? ==> |res.value| <= |ms|
  {
    var steps := Steps(ms, r, c);
    FailFast(steps);
    assert forall i :: 0 <= i < |ms| ==> steps[i] == VisitManifest(ms[i], r, c);
    Collect(steps)
  }

  /** The method itself: one loop over the list, returning at the first
      failure and appending each rewritten manifest otherwise. */
  method Visit(l: seq<Manifest>, r: Replacer, c: Codec) returns (res: Result<seq<Manifest>, VisitError>)
    ensures res == VisitAll(l, r, c)
  {
    ghost var steps := Steps(l, r, c);
    var updated: seq<Manifest> := [];
    var i := 0;
    assert steps[0..] == steps;
    assert Prepend(updated, Collect(steps)) == Collect(steps) by {
      if Collect(steps).Success? {
        assert updated + Collect(steps).value == Collect(steps).value;
      }
    }
    while i < |l|
      invariant 0 <= i <= |l|
      invariant VisitAll(l, r, c) == Prepend(updated, Collect(steps[i..]))
    {
      assert steps[i..][0] == VisitManifest(l[i], r, c) && steps[i..][1..] == steps[i + 1..];
      var m := l[i];
      var parsed := c.unmarshal(m);
      if parsed.None? {
        return Failure(ReadError);
      }
      var entries := parsed.value;
      if |entries| == 0 {
        i := i + 1;
        continue;
      }
      var tree := TreeVisitor.RecursiveVisit(Mapping(entries), r);
      var marshalled := c.marshal(tree);
      if marshalled.None? {
        return Failure(MarshalError);
      }
      PrependTwice(updated, [marshalled.value], Collect(steps[i + 1..]));
      updated := updated + [marshalled.value];
      i := i + 1;
    }
    assert steps[i..] == [];
    assert updated + [] == updated;
    return Success(updated);
  }

  /** Putting two runs of manifests in front is putting their join in front. */
  lemma PrependTwice(a: seq<Manifest>, b: seq<Manifest>, rest: Result<seq<Manifest>, VisitError>)
    ensures Prepend(a, Prepend(b, rest)) == Prepend(a + b, rest)
  {
    if rest.Success? {
      assert a + (b + rest.value) == (a + b) + rest.value;
    }
  }

  /** Fail-fast: a list fails exactly when some manifest fails, and then
      with the error of the first failing manifest. */
  lemma {:induction false} FailFast(steps: seq<Step>)
    ensures Collect(steps).Failure? <==> exists i :: 0 <= i < |steps| && steps[i].Fail?
    ensures Collect(steps).Failure? ==>
      exists i :: 0 <= i < |steps| && steps[i] == Fail(Collect(steps).error) &&
        forall j :: 0 <= j < i ==> !steps[j].Fail?
    decreases |steps|
  {
    if steps != [] && !steps[0].Fail? {
      var tail := steps[1..];
      FailFast(tail);
      if exists i :: 0 <= i < |steps| && steps[i].Fail? {
        var i :| 0 <= i < |steps| && steps[i].Fail?;
        assert i > 0 && tail[i - 1].Fail?;
      }
      if Collect(tail).Failure? {
        var e := Collect(tail).error;
        assert Collect(steps) == Failure(e);
        var i :| 0 <= i < |tail| && tail[i] == Fail(e) && forall j :: 0 <= j < i ==> !tail[j].Fail?;
        assert steps[i + 1] == Fail(e);
        forall j | 0 <= j < i + 1 ensures !steps[j].Fail? {
          if j > 0 {
            assert steps[j] == tail[j - 1];
          }
        }
      }
    }
  }

  /** The positions of the manifests that produce output, in list order. */
  ghost function EmitIndices(steps: seq<Step>): seq<nat>
    decreases |steps|
  {
    if steps == [] then []
    else
      var rest := EmitIndices(steps[1..]);
      var shifted := seq(|rest|, k requires 0 <= k < |rest| => rest[k] + 1);
      if steps[0].Emit? then [0] + shifted else shifted
  }

  /** Every listed position produces output. */
  lemma {:induction false} EmitIndicesSound(steps: seq<Step>)
    ensures forall k :: 0 <= k < |EmitIndices(steps)| ==>
      EmitIndices(steps)[k] < |steps| && steps[EmitIndices(steps)[k]].Emit?
    decreases |steps|
  {
    if steps != [] {
      var tail := steps[1..];
      EmitIndicesSound(tail);
      var rest := EmitIndices(tail);
      var shifted := seq(|rest|, k requires 0 <= k < |rest| => rest[k] + 1);
      var head: seq<nat> := if steps[0].Emit? then [0] else [];
      assert EmitIndices(steps) == head + shifted;
      forall k | 0 <= k < |shifted| ensures shifted[k] < |steps| && steps[shifted[k]].Emit? {
        assert tail[rest[k]] == steps[shifted[k]];
      }
    }
  }

  /** The listed positions are strictly increasing, so the output keeps the
      order of the list. */
  lemma {:induction false} EmitIndicesIncreasing(steps: seq<Step>)
    ensures forall k :: 0 < k < |EmitIndices(steps)| ==>
      EmitIndices(steps)[k - 1] < EmitIndices(steps)[k]
    decreases |steps|
  {
    if steps != [] {
      var tail := steps[1..];
      EmitIndicesIncreasing(tail);
      var rest := EmitIndices(tail);
      var shifted := seq(|rest|, k requires 0 <= k < |rest| => rest[k] + 1);
      var head: seq<nat> := if steps[0].Emit? then [0] else [];
      var idx := EmitIndices(steps);
      assert idx == head + shifted;
      forall k | 0 < k < |idx| ensures idx[k - 1] < idx[k] {
        if k - 1 >= |head| {
          assert idx[k - 1] == shifted[k - 1 - |head|] && idx[k] == shifted[k - |head|];
        } else {
          assert idx[k] == shifted[0];
        }
      }
    }
  }

  /** Every position that produces output is listed. */
  lemma {:induction false} EmitIndicesComplete(steps: seq<Step>)
    ensures forall i :: 0 <= i < |steps| && steps[i].Emit? ==> i in EmitIndices(steps)
    decreases |steps|
  {
    if steps != [] {
      var tail := steps[1..];
      EmitIndicesComplete(tail);
      var rest := EmitIndices(tail);
      var shifted := seq(|rest|, k requires 0 <= k < |rest| => rest[k] + 1);
      var head: seq<nat> := if steps[0].Emit? then [0] else [];
      var idx := EmitIndices(steps);
      assert idx == head + shifted;
      forall i | 0 <= i < |steps| && steps[i].Emit? ensures i in idx {
        if i == 0 {
          assert idx[0] == 0;
        } else {
          assert tail[i - 1] == steps[i];
          var k :| 0 <= k < |rest| && rest[k] == i - 1;
          assert idx[|head| + k] == i;
        }
      }
    }
  }

  /** On success the output holds, in list order, exactly the rewritten
      manifests of the manifests that produce output: empty manifests are
      dropped and nothing is reordered. */
  lemma {:induction false} OutputIsOrderedSelection(steps: seq<Step>)
    requires Collect(steps).Success?
    ensures |Collect(steps).value| == |EmitIndices(steps)|
    ensures forall k :: 0 <= k < |Collect(steps).value| ==>
      EmitIndices(steps)[k] < |steps| && steps[EmitIndices(steps)[k]] == Emit(Collect(steps).value[k])
    decreases |steps|
  {
    EmitIndicesSound(steps);
    if steps != [] {
      var tail := steps[1..];
      OutputIsOrderedSelection(tail);
      var rest := EmitIndices(tail);
      var shifted := seq(|rest|, k requires 0 <= k < |rest| => rest[k] + 1);
      var out := Collect(steps).value;
      var outTail := Collect(tail).value;
      var idx := EmitIndices(steps);
      if steps[0].Emit? {
        assert out == [steps[0].manifest] + outTail;
        assert idx == [0] + shifted;
        forall k | 0 < k < |out| ensures steps[idx[k]] == Emit(out[k]) {
          assert idx[k] == rest[k - 1] + 1 && out[k] == outTail[k - 1];
          assert tail[rest[k - 1]] == steps[idx[k]];
        }
      } else {
        assert out == outTail && idx == shifted;
        forall k | 0 <= k < |out| ensures steps[idx[k]] == Emit(out[k]) {
          assert idx[k] == rest[k] + 1;
          assert tail[rest[k]] == steps[idx[k]];
        }
      }
    }
  }

  /** On success a manifest produces output exactly when it does not read as
      an empty mapping: only empty manifests are dropped. */
  lemma OnlyEmptyDropped(ms: seq<Manifest>, r: Replacer, c: Codec)
    requires VisitAll(ms, r, c).Success?
    ensures forall i :: 0 <= i < |ms| ==>
      (i in EmitIndices(Steps(ms, r, c)) <==> c.unmarshal(ms[i]) != Some([]))
  {
    var steps := Steps(ms, r, c);
    FailFast(steps);
    EmitIndicesSound(steps);
    EmitIndicesComplete(steps);
    forall i | 0 <= i < |ms|
      ensures i in EmitIndices(steps) <==> c.unmarshal(ms[i]) != Some([])
    {
      assert steps[i] == VisitManifest(ms[i], r, c);
      assert !steps[i].Fail?;
    }
  }

  /** A replacer that changes nothing writes every non-empty manifest back
      as the marshalling of what was read. */
  lemma InertReplacerRoundTrip(m: Manifest, r: Replacer, c: Codec)
    requires TreeVisitor.Inert(r)
    requires c.unmarshal(m).Some? && c.unmarshal(m).value != []
    ensures var tree := Mapping(c.unmarshal(m).value);
      VisitManifest(m, r, c) ==
        if c.marshal(tree).Some? then Emit(c.marshal(tree).value) else Fail(MarshalError)
  {
    TreeVisitor.InertReplacerIsIdentity(Mapping(c.unmarshal(m).value), r);
  }
}
