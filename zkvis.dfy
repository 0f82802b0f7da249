/**
 The script's main path (zkvis.py lines 70-75): index the notes by path, then
 build the force graph from the two indexes. The lemmas state what the
 composition guarantees about the graph in terms of the notes themselves.
 */
module Zkvis {
  import opened Wrappers
  import opened Dicts
  import opened Notes
  import opened ForceGraph
  import opened GraphProperties

  /** The graph the script writes for `notes`, or the KeyError it dies with. */
  function Pipeline(notes: seq<Note>, highlight: Option<seq<string>>): (r: Result<Graph, IndexError>)
    ensures r.Success? <==> HasPaths(notes) && HasTitles(notes)
    ensures r.Failure? ==> r.error == BuildIndex(notes).error
  {
    match BuildIndex(notes)
    case Failure(e) => Failure(e)
    case Success(ix) => Success(ForceGraphOf(ix.files, ix.titles, highlight))
  }

  /** Lines 70-75 run in order: the two comprehensions, then the graph builder. */
  method BuildGraph(notes: seq<Note>, highlight: Option<seq<string>>) returns (r: Result<Graph, IndexError>)
    ensures r == Pipeline(notes, highlight)
  {
    var index := BuildIndex(notes);
    if index.Failure? {
      return Failure(index.error);
    }
    var graph := GenerateForceGraph(index.value.files, index.value.titles, highlight);
    r := Success(graph);
  }

  /** A note's node id: its title, else its filename, else its path. */
  function NodeId(n: Note): string
    requires n.path.Some? && DisplayTitle(n).Success?
  {
    if n.title.value != "" then n.title.value
    else if n.filename.value != "" then n.filename.value
    else n.path.value
  }

  /** Every key resolves to itself: the path stored beside each title is the
      key it is stored under, and a missing key is kept as it is. */
  lemma ResolveIsIdentity(notes: seq<Note>, k: string)
    requires BuildIndex(notes).Success?
    ensures Resolve(BuildIndex(notes).value.titles, k) == k
  {
    TitlesIndexFacts(notes);
  }

  /** Under the index, a link entry of note `uid` yields an edge exactly when
      it has a "targetPath" and neither `uid` nor that path is empty, and the
      edge joins the two paths as they are. */
  lemma QualifiesUnderIndex(notes: seq<Note>, uid: string, link: LinkEntry)
    requires BuildIndex(notes).Success?
    ensures var titles := BuildIndex(notes).value.titles;
      && (Qualifies(uid, link, titles) <==>
            link.targetPath.Some? && uid != "" && link.targetPath.value != "")
      && (link.targetPath.Some? ==> EdgeFor(uid, link, titles) == Edge(uid, link.targetPath.value, 2))
  {
    ResolveIsIdentity(notes, uid);
    if link.targetPath.Some? {
      ResolveIsIdentity(notes, link.targetPath.value);
    }
  }

  /** One node per distinct path, in order of first appearance. */
  lemma PipelineNodeOrder(notes: seq<Note>, highlight: Option<seq<string>>)
    requires HasPaths(notes) && HasTitles(notes)
    ensures var g := Pipeline(notes, highlight).value;
      var order := BuildIndex(notes).value.titles.order;
      && |g.nodes| == |order| == |set k | k in Paths(notes)|
      && (forall k :: k in order <==> k in Paths(notes))
      && (forall a, b :: 0 <= a < b < |order| ==>
            FirstIndex(Paths(notes), order[a]) < FirstIndex(Paths(notes), order[b]))
  {
    var ix := BuildIndex(notes).value;
    assert Pipeline(notes, highlight).value == ForceGraphOf(ix.files, ix.titles, highlight);
    IndexOrder(notes);
    NodesOfAt(ix.titles.order, ix.titles, Highlights(highlight));
  }

  /** The id the node loop gives an indexed note is its NodeId. */
  lemma NodeOfIndexedNote(n: Note, uid: string, hl: seq<string>)
    requires n.path.Some? && DisplayTitle(n).Success?
    ensures NodeOf(uid, Titled(DisplayTitle(n).value, n.path.value), hl).id == NodeId(n)
  {
  }

  /** The node for the i-th path has group 2 exactly when the path is
      highlighted, and group 1 otherwise. */
  lemma PipelineNodeGroups(notes: seq<Note>, highlight: Option<seq<string>>)
    requires HasPaths(notes) && HasTitles(notes)
    ensures var g := Pipeline(notes, highlight).value;
      var order := BuildIndex(notes).value.titles.order;
      && |g.nodes| == |order|
      && forall i :: 0 <= i < |order| ==>
        g.nodes[i].group == (if order[i] in Highlights(highlight) then 2 else 1)
  {
    var ix := BuildIndex(notes).value;
    assert Pipeline(notes, highlight).value.nodes == NodesOf(ix.titles.order, ix.titles, Highlights(highlight));
    NodesOfAt(ix.titles.order, ix.titles, Highlights(highlight));
  }

  /** The node for the i-th path has as id the title, filename or path of the
      last note with that path. */
  lemma PipelineNodeIds(notes: seq<Note>, highlight: Option<seq<string>>)
    requires HasPaths(notes) && HasTitles(notes)
    ensures var g := Pipeline(notes, highlight).value;
      var order := BuildIndex(notes).value.titles.order;
      && |g.nodes| == |order|
      && forall i :: 0 <= i < |order| ==>
        order[i] in Paths(notes) && g.nodes[i].id == NodeId(notes[Owner(notes, order[i])])
  {
    var ix := BuildIndex(notes).value;
    var hl := Highlights(highlight);
    var g := Pipeline(notes, highlight).value;
    assert g.nodes == NodesOf(ix.titles.order, ix.titles, hl);
    TitlesIndexFacts(notes);
    NodesOfAt(ix.titles.order, ix.titles, hl);
    forall i | 0 <= i < |ix.titles.order|
      ensures ix.titles.order[i] in Paths(notes)
      ensures g.nodes[i].id == NodeId(notes[Owner(notes, ix.titles.order[i])])
    {
      var k := ix.titles.order[i];
      var n := notes[Owner(notes, k)];
      assert ix.titles.entries[k] == Titled(DisplayTitle(n).value, n.path.value);
      NodeOfIndexedNote(n, k, hl);
    }
  }

  /** With pairwise distinct paths there is exactly one node per note. */
  lemma DistinctPathsOneNodePerNote(notes: seq<Note>, highlight: Option<seq<string>>)
    requires HasPaths(notes) && HasTitles(notes)
    requires forall i, j :: 0 <= i < j < |notes| ==> notes[i].path != notes[j].path
    ensures |Pipeline(notes, highlight).value.nodes| == |notes|
  {
    PipelineNodeOrder(notes, highlight);
    DistinctCard(Paths(notes));
  }

  /** Each tagged link entry belongs to the note that owns its path. */
  lemma TaggedEntriesOwned(notes: seq<Note>)
    requires BuildIndex(notes).Success?
    ensures var ix := BuildIndex(notes).value;
      var es := Tagged(ix.files.order, ix.files);
      forall i :: 0 <= i < |es| ==>
        es[i].0 in Paths(notes) && es[i].1 in LinksOf(notes[Owner(notes, es[i].0)])
  {
    FilesIndexFacts(notes);
  }

  /** Lines 28-39 under the index: the j-th edge joins the path of the note
      owning the j-th qualifying link entry to that entry's "targetPath",
      verbatim, with weight 2; an entry qualifies exactly when it has a
      "targetPath" and neither path is empty. */
  lemma PipelineEdges(notes: seq<Note>, highlight: Option<seq<string>>)
    requires HasPaths(notes) && HasTitles(notes)
    ensures var g := Pipeline(notes, highlight).value;
      var ix := BuildIndex(notes).value;
      var es := Tagged(ix.files.order, ix.files);
      var q := QualifyingIndices(es, ix.titles);
      && (forall i :: 0 <= i < |es| ==>
            (i in q <==> es[i].1.targetPath.Some? && es[i].0 != "" && es[i].1.targetPath.value != ""))
      && |g.links| == |q|
      && forall j :: 0 <= j < |q| ==> g.links[j] == Edge(es[q[j]].0, es[q[j]].1.targetPath.value, 2)
  {
    var ix := BuildIndex(notes).value;
    var es := Tagged(ix.files.order, ix.files);
    var q := QualifyingIndices(es, ix.titles);
    var g := Pipeline(notes, highlight).value;
    assert g.links == NoteEdges(ix.files.order, ix.files, ix.titles);
    EdgesFollowLinkEntries(ix.files, ix.titles);
    forall i | 0 <= i < |es|
      ensures i in q <==> es[i].1.targetPath.Some? && es[i].0 != "" && es[i].1.targetPath.value != ""
    {
      QualifiesUnderIndex(notes, es[i].0, es[i].1);
      if i in q {
        var j :| 0 <= j < |q| && q[j] == i;
      }
    }
    forall j | 0 <= j < |q|
      ensures g.links[j] == Edge(es[q[j]].0, es[q[j]].1.targetPath.value, 2)
    {
      QualifiesUnderIndex(notes, es[q[j]].0, es[q[j]].1);
    }
  }

  /** Every emitted edge joins a non-empty note path to the non-empty
      "targetPath" of one of that note's link entries, with weight 2. */
  lemma EdgeHasLinkEntry(notes: seq<Note>, highlight: Option<seq<string>>, e: Edge)
    requires HasPaths(notes) && HasTitles(notes)
    ensures e in Pipeline(notes, highlight).value.links ==>
      && e.value == 2 && e.source != "" && e.target != ""
      && e.source in Paths(notes)
      && LinkEntry(Some(e.target)) in LinksOf(notes[Owner(notes, e.source)])
  {
    var ix := BuildIndex(notes).value;
    var es := Tagged(ix.files.order, ix.files);
    assert Pipeline(notes, highlight).value.links == NoteEdges(ix.files.order, ix.files, ix.titles);
    if e in Pipeline(notes, highlight).value.links {
      TaggedEntriesOwned(notes);
      EdgeMembership(ix.files, ix.titles, e);
      var i :| 0 <= i < |es| && Qualifies(es[i].0, es[i].1, ix.titles) && e == EdgeFor(es[i].0, es[i].1, ix.titles);
      QualifiesUnderIndex(notes, es[i].0, es[i].1);
    }
  }

  /** Every link entry with a "targetPath" of the note owning a path yields an
      edge between the two paths, unless one of them is empty, and whether or
      not the target is the path of a note. */
  lemma LinkEntryHasEdge(notes: seq<Note>, highlight: Option<seq<string>>, k: string, target: string)
    requires HasPaths(notes) && HasTitles(notes)
    ensures k in Paths(notes) && k != "" && target != ""
        && LinkEntry(Some(target)) in LinksOf(notes[Owner(notes, k)])
      ==> Edge(k, target, 2) in Pipeline(notes, highlight).value.links
  {
    var ix := BuildIndex(notes).value;
    if k in Paths(notes) && k != "" && target != "" && LinkEntry(Some(target)) in LinksOf(notes[Owner(notes, k)]) {
      assert Pipeline(notes, highlight).value.links == NoteEdges(ix.files.order, ix.files, ix.titles);
      FilesIndexFacts(notes);
      TitlesIndexFacts(notes);
      assert k in ix.files.order;
      var links := LinksOf(ix.files.entries[k]);
      var j :| 0 <= j < |links| && links[j] == LinkEntry(Some(target));
      var i := TaggedIndex(ix.files.order, ix.files, k, j);
      QualifiesUnderIndex(notes, k, links[j]);
      EdgeMembership(ix.files, ix.titles, Edge(k, target, 2));
    }
  }

  /** Lines 29-39 under the index: an edge is emitted exactly for a note path
      and one of that note's link entries whose "targetPath" is present, when
      neither path is empty. */
  lemma EdgeIffLinkEntry(notes: seq<Note>, highlight: Option<seq<string>>, e: Edge)
    requires HasPaths(notes) && HasTitles(notes)
    ensures e in Pipeline(notes, highlight).value.links <==>
      && e.value == 2 && e.source != "" && e.target != ""
      && e.source in Paths(notes)
      && LinkEntry(Some(e.target)) in LinksOf(notes[Owner(notes, e.source)])
  {
    EdgeHasLinkEntry(notes, highlight, e);
    if e.value == 2 {
      LinkEntryHasEdge(notes, highlight, e.source, e.target);
    }
  }

  /** Where the `j`-th link entry of note `k` sits among the tagged entries. */
  lemma {:induction false} TaggedIndex(keys: seq<string>, files: Dict<Note>, k: string, j: nat) returns (i: nat)
    requires forall k' :: k' in keys ==> k' in files.entries
    requires k in keys && j < |LinksOf(files.entries[k])|
    ensures i < |Tagged(keys, files)| && Tagged(keys, files)[i] == (k, LinksOf(files.entries[k])[j])
  {
    var n := |keys| - 1;
    var prev := Tagged(keys[..n], files);
    if keys[n] == k {
      i := |prev| + j;
    } else {
      assert k in keys[..n];
      i := TaggedIndex(keys[..n], files, k, j);
    }
  }

  /** When every link entry of every note has a non-empty "targetPath" and no
      path is empty, every entry of the note id_files_dict keeps for each path
      (the last note with it) becomes an edge. */
  lemma EveryLinkKept(notes: seq<Note>, highlight: Option<seq<string>>)
    requires HasPaths(notes) && HasTitles(notes)
    requires forall i :: 0 <= i < |notes| ==> notes[i].path != Some("")
    requires forall i, l :: 0 <= i < |notes| && l in LinksOf(notes[i]) ==>
      l.targetPath.Some? && l.targetPath.value != ""
    ensures var ix := BuildIndex(notes).value;
      |Pipeline(notes, highlight).value.links| == |Tagged(ix.files.order, ix.files)|
  {
    var ix := BuildIndex(notes).value;
    var es := Tagged(ix.files.order, ix.files);
    assert Pipeline(notes, highlight).value.links == NoteEdges(ix.files.order, ix.files, ix.titles);
    TaggedEntriesOwned(notes);
    NoteEdgesFlat(ix.files.order, ix.files, ix.titles);
    forall i | 0 <= i < |es|
      ensures Qualifies(es[i].0, es[i].1, ix.titles)
    {
      assert es[i].1 in LinksOf(notes[Owner(notes, es[i].0)]);
      QualifiesUnderIndex(notes, es[i].0, es[i].1);
    }
    AllQualifyingKept(es, ix.titles);
  }

  /** The index of a single well-formed note. */
  lemma SingleNoteIndex(n: Note)
    requires n.path.Some? && DisplayTitle(n).Success?
    ensures BuildIndex([n]) == Success(Index(
      Dict([n.path.value], map[n.path.value := n]),
      Dict([n.path.value], map[n.path.value := Titled(DisplayTitle(n).value, n.path.value)])))
  {
    var notes := [n];
    var p := n.path.value;
    var fp, tp := FilePairs(notes), TitlePairs(notes);
    assert fp == [(p, n)] && fp[..0] == [];
    assert tp == [(p, Titled(DisplayTitle(n).value, p))] && tp[..0] == [];
    assert HasPaths(notes) && HasTitles(notes);
    assert FromPairs(fp) == Insert(Dict([], map[]), p, n);
    assert FromPairs(tp) == Insert(Dict([], map[]), p, Titled(DisplayTitle(n).value, p));
    assert FromPairs(fp) == Dict([p], map[p := n]);
    assert FromPairs(tp) == Dict([p], map[p := Titled(DisplayTitle(n).value, p)]);
    assert BuildIndex(notes) == Success(Index(FromPairs(fp), FromPairs(tp)));
  }

  /** A single note titled "A" at path "a" with no links gives one node "A" in
      group 1 and no edges. */
  lemma SingleNoteExample()
    ensures Pipeline([Note(Some("a"), Some("A"), Some("a.md"), None)], None)
      == Success(Graph([GraphNode("A", 1)], []))
  {
    var n := Note(Some("a"), Some("A"), Some("a.md"), None);
    SingleNoteIndex(n);
    var ix := BuildIndex([n]).value;
    assert ["a"][..0] == [];
    assert NodesOf(ix.titles.order, ix.titles, []) == [GraphNode("A", 1)];
    assert NoteEdges(ix.files.order, ix.files, ix.titles) == [];
  }

  lemma ExampleLinkEdges(links: seq<LinkEntry>, titles: Dict<Titled>)
    requires links == [LinkEntry(Some("a")), LinkEntry(Some("b")), LinkEntry(None)]
    requires titles == Dict(["a"], map["a" := Titled("A", "a")])
    ensures LinkEdges("a", links, titles) == [Edge("a", "a", 2), Edge("a", "b", 2)]
  {
    assert links[..2][..1][..0] == [];
    assert links[..2][..1] == [LinkEntry(Some("a"))];
    assert links[..2] == [LinkEntry(Some("a")), LinkEntry(Some("b"))];
    assert LinkEdges("a", links[..2][..1], titles) == [Edge("a", "a", 2)];
    assert LinkEdges("a", links[..2], titles) == [Edge("a", "a", 2), Edge("a", "b", 2)];
  }

  /** Edge endpoints are paths, not node ids, and a target no note has is kept:
      here neither endpoint of either edge is the id of a node. */
  lemma EndpointsArePathsNotNodeIds()
    ensures Pipeline([Note(Some("a"), Some("A"), Some("a.md"),
                           Some([LinkEntry(Some("a")), LinkEntry(Some("b")), LinkEntry(None)]))], None)
      == Success(Graph([GraphNode("A", 1)], [Edge("a", "a", 2), Edge("a", "b", 2)]))
  {
    var links := [LinkEntry(Some("a")), LinkEntry(Some("b")), LinkEntry(None)];
    var n := Note(Some("a"), Some("A"), Some("a.md"), Some(links));
    SingleNoteIndex(n);
    var ix := BuildIndex([n]).value;
    assert ["a"][..0] == [];
    assert NodesOf(ix.titles.order, ix.titles, []) == [GraphNode("A", 1)];
    ExampleLinkEdges(links, ix.titles);
    assert LinksOf(ix.files.entries["a"]) == links;
    assert NoteEdges(ix.files.order, ix.files, ix.titles) == [Edge("a", "a", 2), Edge("a", "b", 2)];
  }
}
