/**
 What the node and link loops of `generate_force_graph` promise, stated about
 the specification functions of ForceGraph for any two dictionaries.
 */
module GraphProperties {
  import opened Wrappers
  import opened Dicts
  import opened Notes
  import opened ForceGraph

  /** The node list holds one node per key, in key order. */
  lemma {:induction false} NodesOfAt(keys: seq<string>, titles: Dict<Titled>, hl: seq<string>)
    requires forall k :: k in keys ==> k in titles.entries
    ensures |NodesOf(keys, titles, hl)| == |keys|
    ensures forall i :: 0 <= i < |keys| ==>
      NodesOf(keys, titles, hl)[i] == NodeOf(keys[i], titles.entries[keys[i]], hl)
  {
    if keys != [] {
      var n := |keys| - 1;
      NodesOfAt(keys[..n], titles, hl);
      assert forall i :: 0 <= i < n ==> keys[..n][i] == keys[i];
    }
  }

  /** One node per entry of id_title_dict, in its order; the id is the display
      title, or the path when that is empty; the group is 2 exactly for the
      highlighted keys and 1 otherwise. */
  lemma GraphNodes(files: Dict<Note>, titles: Dict<Titled>, highlight: Option<seq<string>>)
    requires files.Valid() && titles.Valid()
    ensures var g := ForceGraphOf(files, titles, highlight);
      && |g.nodes| == |titles.order|
      && forall i :: 0 <= i < |g.nodes| ==>
        var t := titles.entries[titles.order[i]];
        && g.nodes[i].id == (if t.display != "" then t.display else t.path)
        && (g.nodes[i].group == 1 || g.nodes[i].group == 2)
        && (g.nodes[i].group == 2 <==> titles.order[i] in Highlights(highlight))
  {
    NodesOfAt(titles.order, titles, Highlights(highlight));
  }

  /** A missing or empty highlight list leaves every node in group 1. */
  lemma NoHighlightMeansGroupOne(files: Dict<Note>, titles: Dict<Titled>, highlight: Option<seq<string>>)
    requires files.Valid() && titles.Valid()
    requires highlight.None? || highlight == Some([])
    ensures forall node :: node in ForceGraphOf(files, titles, highlight).nodes ==> node.group == 1
  {
    GraphNodes(files, titles, highlight);
  }

  /** The entries of `links` tagged with their note's key. */
  function Tag(uid: string, links: seq<LinkEntry>): (es: seq<(string, LinkEntry)>)
    ensures |es| == |links|
    ensures forall i :: 0 <= i < |links| ==> es[i] == (uid, links[i])
  {
    seq(|links|, i requires 0 <= i < |links| => (uid, links[i]))
  }

  /** Every link entry of the notes with the given keys, tagged with its note's
      key: note by note in key order, then in list order within a note. */
  function Tagged(keys: seq<string>, files: Dict<Note>): (es: seq<(string, LinkEntry)>)
    requires forall k :: k in keys ==> k in files.entries
    ensures forall i :: 0 <= i < |es| ==> es[i].0 in keys && es[i].1 in LinksOf(files.entries[es[i].0])
  {
    if keys == [] then []
    else
      var n := |keys| - 1;
      Tagged(keys[..n], files) + Tag(keys[n], LinksOf(files.entries[keys[n]]))
  }

  /** The positions, in increasing order, of the tagged entries that qualify. */
  function QualifyingIndices(es: seq<(string, LinkEntry)>, titles: Dict<Titled>): (q: seq<nat>)
    ensures forall j :: 0 <= j < |q| ==> q[j] < |es| && Qualifies(es[q[j]].0, es[q[j]].1, titles)
    ensures forall j, j' :: 0 <= j < j' < |q| ==> q[j] < q[j']
    ensures forall i :: 0 <= i < |es| && Qualifies(es[i].0, es[i].1, titles) ==> i in q
  {
    if es == [] then []
    else
      var n := |es| - 1;
      QualifyingIndices(es[..n], titles) + (if Qualifies(es[n].0, es[n].1, titles) then [n] else [])
  }

  /** The edges of a run of tagged entries, as the link loop appends them. */
  function FlatEdges(es: seq<(string, LinkEntry)>, titles: Dict<Titled>): seq<Edge>
  {
    if es == [] then []
    else
      var n := |es| - 1;
      FlatEdges(es[..n], titles)
        + (if Qualifies(es[n].0, es[n].1, titles) then [EdgeFor(es[n].0, es[n].1, titles)] else [])
  }

  lemma {:induction false} FlatEdgesAppend(a: seq<(string, LinkEntry)>, b: seq<(string, LinkEntry)>, titles: Dict<Titled>)
    ensures FlatEdges(a + b, titles) == FlatEdges(a, titles) + FlatEdges(b, titles)
  {
    if b == [] {
      assert a + b == a;
    } else {
      var n := |b| - 1;
      assert (a + b)[..|a| + n] == a + b[..n];
      FlatEdgesAppend(a, b[..n], titles);
    }
  }

  lemma {:induction false} LinkEdgesFlat(uid: string, links: seq<LinkEntry>, titles: Dict<Titled>)
    ensures LinkEdges(uid, links, titles) == FlatEdges(Tag(uid, links), titles)
  {
    if links != [] {
      var n := |links| - 1;
      assert Tag(uid, links)[..n] == Tag(uid, links[..n]);
      LinkEdgesFlat(uid, links[..n], titles);
    }
  }

  lemma {:induction false} NoteEdgesFlat(keys: seq<string>, files: Dict<Note>, titles: Dict<Titled>)
    requires forall k :: k in keys ==> k in files.entries
    ensures NoteEdges(keys, files, titles) == FlatEdges(Tagged(keys, files), titles)
  {
    if keys != [] {
      var n := |keys| - 1;
      NoteEdgesFlat(keys[..n], files, titles);
      LinkEdgesFlat(keys[n], LinksOf(files.entries[keys[n]]), titles);
      FlatEdgesAppend(Tagged(keys[..n], files), Tag(keys[n], LinksOf(files.entries[keys[n]])), titles);
    }
  }

  /** The j-th edge comes from the j-th qualifying entry. */
  lemma {:induction false} FlatEdgesAt(es: seq<(string, LinkEntry)>, titles: Dict<Titled>)
    ensures var q := QualifyingIndices(es, titles);
      && |FlatEdges(es, titles)| == |q|
      && forall j :: 0 <= j < |q| ==> FlatEdges(es, titles)[j] == EdgeFor(es[q[j]].0, es[q[j]].1, titles)
  {
    if es != [] {
      var n := |es| - 1;
      FlatEdgesAt(es[..n], titles);
      var q' := QualifyingIndices(es[..n], titles);
      var q := QualifyingIndices(es, titles);
      assert forall j :: 0 <= j < |q'| ==> es[..n][q'[j]] == es[q'[j]];
      assert q == q' + (if Qualifies(es[n].0, es[n].1, titles) then [n] else []);
    }
  }

  /** Lines 28-39: the link list holds, in order, one edge for each link
      entry that qualifies, taken note by note and then entry by entry. */
  lemma EdgesFollowLinkEntries(files: Dict<Note>, titles: Dict<Titled>)
    requires files.Valid()
    ensures var es := Tagged(files.order, files);
      var q := QualifyingIndices(es, titles);
      var edges := NoteEdges(files.order, files, titles);
      && |edges| == |q|
      && forall j :: 0 <= j < |q| ==> edges[j] == EdgeFor(es[q[j]].0, es[q[j]].1, titles)
  {
    NoteEdgesFlat(files.order, files, titles);
    FlatEdgesAt(Tagged(files.order, files), titles);
  }

  lemma FlatEdgeMembership(es: seq<(string, LinkEntry)>, titles: Dict<Titled>, e: Edge)
    ensures e in FlatEdges(es, titles) <==>
      exists i :: 0 <= i < |es| && Qualifies(es[i].0, es[i].1, titles) && e == EdgeFor(es[i].0, es[i].1, titles)
  {
  }

  /** An edge is in the link list exactly when some qualifying entry yields it. */
  lemma EdgeMembership(files: Dict<Note>, titles: Dict<Titled>, e: Edge)
    requires files.Valid()
    ensures var es := Tagged(files.order, files);
      e in NoteEdges(files.order, files, titles) <==>
        exists i :: 0 <= i < |es| && Qualifies(es[i].0, es[i].1, titles) && e == EdgeFor(es[i].0, es[i].1, titles)
  {
    NoteEdgesFlat(files.order, files, titles);
    FlatEdgeMembership(Tagged(files.order, files), titles, e);
  }

  /** When every entry qualifies, no edge is dropped. */
  lemma {:induction false} AllQualifyingKept(es: seq<(string, LinkEntry)>, titles: Dict<Titled>)
    requires forall i :: 0 <= i < |es| ==> Qualifies(es[i].0, es[i].1, titles)
    ensures |FlatEdges(es, titles)| == |es|
  {
    if es != [] {
      var n := |es| - 1;
      AllQualifyingKept(es[..n], titles);
    }
  }
}
