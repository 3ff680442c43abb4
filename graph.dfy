/** The follow and collect relations as sets of (source, target) edges:
    `user.followers` are the sources of follow edges into a user,
    `photo.collectors` the sources of collect edges into a photo. */
module Graph {
  /** (source id, target id); user and photo ids are both naturals. */
  type Edge = (nat, nat)

  /** The sources of the edges into `b`. */
  function Sources(edges: set<Edge>, b: nat): set<nat> {
    set e | e in edges && e.1 == b :: e.0
  }

  /** The edges into `b`. */
  function Into(edges: set<Edge>, b: nat): set<Edge> {
    set e | e in edges && e.1 == b
  }

  /** Edges into one target differ in their source, so there are as many
      sources as edges: `len(photo.collectors)` counts collect rows. */
  lemma SourcesCountIsEdgeCount(edges: set<Edge>, b: nat)
    ensures |Sources(edges, b)| == |Into(edges, b)|
  {
    assert Sources(edges, b) == Firsts(Into(edges, b));
    FirstsCount(Into(edges, b), b);
  }

  function Firsts(es: set<Edge>): set<nat> {
    set e | e in es :: e.0
  }

  lemma {:induction false} FirstsCount(es: set<Edge>, b: nat)
    requires forall e :: e in es ==> e.1 == b
    ensures |Firsts(es)| == |es|
    decreases |es|
  {
    if es != {} {
      var x :| x in es;
      var rest := es - {x};
      FirstsCount(rest, b);
      assert Firsts(es) == Firsts(rest) + {x.0};
      forall y | y in rest ensures y.0 != x.0 {
        assert y != x && y.1 == x.1;
      }
    }
  }

  /** Inserting a new edge adds its source to the target's sources, so the
      count grows by one; other targets are untouched. */
  lemma AddEdge(edges: set<Edge>, a: nat, b: nat)
    requires (a, b) !in edges
    ensures Sources(edges + {(a, b)}, b) == Sources(edges, b) + {a}
    ensures |Sources(edges + {(a, b)}, b)| == |Sources(edges, b)| + 1
    ensures forall c :: c != b ==> Sources(edges + {(a, b)}, c) == Sources(edges, c)
  {
    forall e | e in edges && e.1 == b ensures e.0 != a {
      assert e != (a, b);
    }
    assert Sources(edges + {(a, b)}, b) == Sources(edges, b) + {a};
  }

  /** Removing an existing edge removes its source from the target's
      sources, so the count drops by one; other targets are untouched. */
  lemma RemoveEdge(edges: set<Edge>, a: nat, b: nat)
    requires (a, b) in edges
    ensures Sources(edges - {(a, b)}, b) == Sources(edges, b) - {a}
    ensures |Sources(edges - {(a, b)}, b)| == |Sources(edges, b)| - 1
    ensures forall c :: c != b ==> Sources(edges - {(a, b)}, c) == Sources(edges, c)
  {
    assert Sources(edges - {(a, b)}, b) == Sources(edges, b) - {a} by {
      forall x | x in Sources(edges, b) && x != a ensures x in Sources(edges - {(a, b)}, b) {
        var e :| e in edges && e.1 == b && e.0 == x;
        assert e != (a, b);
      }
    }
    assert a in Sources(edges, b) by { assert (a, b).0 == a; }
  }

  /** A target without edges has no sources: a photo nobody collected has
      count 0, and after one collect it has count 1. */
  lemma FirstCollect(edges: set<Edge>, a: nat, b: nat)
    requires Into(edges, b) == {}
    ensures |Sources(edges, b)| == 0
    ensures |Sources(edges + {(a, b)}, b)| == 1
  {
    SourcesCountIsEdgeCount(edges, b);
    assert (a, b) !in edges by { assert (a, b) !in Into(edges, b); }
    AddEdge(edges, a, b);
  }
}
