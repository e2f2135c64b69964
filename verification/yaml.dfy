/** The generic document tree that the YAML reader produces: a node is a
    scalar, a sequence of nodes, or a mapping from nodes to nodes. */
module Yaml {

  /** The dynamic type of a scalar as the YAML reader decodes it. The int 1
      and the string "1" are different keys of a Go map, and so they are
      different scalars here. */
  datatype ScalarKind = Str | Int | Float | Bool | Null

  /** A parsed YAML node. A scalar is kept as its kind and its text: the
      traversal never looks inside it. */
  datatype Value =
    | Scalar(kind: ScalarKind, text: string)
    | Sequence(items: seq<Value>)
    | Mapping(entries: seq<Entry>)

  /** One key/value pair of a mapping. Keys are nodes too. */
  datatype Entry = Entry(key: Value, value: Value)

  /** The keys of a mapping, in entry order. */
  function Keys(es: seq<Entry>): seq<Value>
  {
    seq(|es|, i requires 0 <= i < |es| => es[i].key)
  }

  /** A mapping holds each key at most once, as a Go map does for keys
      equal to themselves (a float NaN key is the exception). */
  predicate UniqueKeys(es: seq<Entry>)
  {
    forall i, j :: 0 <= i < j < |es| ==> es[i].key != es[j].key
  }

  /** Every mapping anywhere in the tree has unique keys. */
  ghost predicate WellFormed(v: Value)
    decreases v
  {
    match v
    case Scalar(_, _) => true
    case Sequence(items) => forall i | 0 <= i < |items| :: WellFormed(items[i])
    case Mapping(es) => UniqueKeys(es) && forall i | 0 <= i < |es| :: WellFormed(es[i].value)
  }
}
