/**
 `generate_force_graph` of zkvis.py (lines 9-42): the node loop over
 id_title_dict and the link loop over id_files_dict. The functions below
 specify the two lists the loops build; the method builds them as the source
 does, by appending.
 */
module ForceGraph {
  import opened Wrappers
  import opened Dicts
  import opened Notes

  /** `{"id": ..., "group": ...}` */
  datatype GraphNode = GraphNode(id: string, group: int)

  /** `{"source": ..., "target": ..., "value": ...}` */
  datatype Edge = Edge(source: string, target: string, value: int)

  /** `{"nodes": ..., "links": ...}`, the object serialised into the page. */
  datatype Graph = Graph(nodes: seq<GraphNode>, links: seq<Edge>)

  /** `if not highlight: highlight = []`: an absent list is an empty one. */
  function Highlights(highlight: Option<seq<string>>): (hl: seq<string>)
    ensures highlight.None? ==> hl == []
    ensures highlight.Some? ==> hl == highlight.value
  {
    if highlight.None? || highlight.value == [] then [] else highlight.value
  }

  /** The node for one entry `uid: (title, path)` of id_title_dict. */
  function NodeOf(uid: string, t: Titled, hl: seq<string>): (node: GraphNode)
    ensures node.group == 2 <==> uid in hl
    ensures node.group == 1 <==> uid !in hl
    ensures t.display != "" ==> node.id == t.display
    ensures t.display == "" ==> node.id == t.path
  {
    GraphNode(if t.display != "" then t.display else t.path, if uid in hl then 2 else 1)
  }

  /** The nodes for the given keys of id_title_dict, one per key, in order. */
  function NodesOf(keys: seq<string>, titles: Dict<Titled>, hl: seq<string>): (nodes: seq<GraphNode>)
    requires forall k :: k in keys ==> k in titles.entries
    ensures |nodes| == |keys|
  {
    if keys == [] then []
    else
      var n := |keys| - 1;
      NodesOf(keys[..n], titles, hl) + [NodeOf(keys[n], titles.entries[keys[n]], hl)]
  }

  /** `id_title_dict.get(key, ("", key))[1]` */
  function Resolve(titles: Dict<Titled>, key: string): (id: string)
    ensures key !in titles.entries ==> id == key
    ensures (forall k :: k in titles.entries ==> titles.entries[k].path == k) ==> id == key
  {
    if key in titles.entries then titles.entries[key].path else key
  }

  /** `file.get("links", [])` */
  function LinksOf(note: Note): (links: seq<LinkEntry>)
    ensures note.links.None? ==> links == []
    ensures note.links.Some? ==> links == note.links.value
  {
    match note.links
    case None => []
    case Some(ls) => ls
  }

  /** Whether a link entry of note `uid` is turned into an edge. */
  predicate Qualifies(uid: string, link: LinkEntry, titles: Dict<Titled>)
    ensures Qualifies(uid, link, titles) <==>
      link.targetPath.Some? && EdgeFor(uid, link, titles).source != "" && EdgeFor(uid, link, titles).target != ""
  {
    && link.targetPath.Some?
    && Resolve(titles, uid) != ""
    && Resolve(titles, link.targetPath.value) != ""
  }

  /** The edge a qualifying link entry of note `uid` becomes. */
  function EdgeFor(uid: string, link: LinkEntry, titles: Dict<Titled>): (e: Edge)
    requires link.targetPath.Some?
    ensures e.value == 2
    ensures (forall k :: k in titles.entries ==> titles.entries[k].path == k) ==>
      e.source == uid && e.target == link.targetPath.value
  {
    Edge(Resolve(titles, uid), Resolve(titles, link.targetPath.value), 2)
  }

  /** The edges contributed by the link entries of note `uid`, in order. */
  function LinkEdges(uid: string, links: seq<LinkEntry>, titles: Dict<Titled>): (edges: seq<Edge>)
    ensures |edges| <= |links|
    ensures forall i :: 0 <= i < |edges| ==> edges[i].value == 2
  {
    if links == [] then []
    else
      var n := |links| - 1;
      LinkEdges(uid, links[..n], titles)
        + (if Qualifies(uid, links[n], titles) then [EdgeFor(uid, links[n], titles)] else [])
  }

  /** The edges contributed by the notes with the given keys of id_files_dict. */
  function NoteEdges(keys: seq<string>, files: Dict<Note>, titles: Dict<Titled>): (edges: seq<Edge>)
    requires forall k :: k in keys ==> k in files.entries
    ensures forall i :: 0 <= i < |edges| ==> edges[i].value == 2
  {
    if keys == [] then []
    else
      var n := |keys| - 1;
      NoteEdges(keys[..n], files, titles) + LinkEdges(keys[n], LinksOf(files.entries[keys[n]]), titles)
  }

  /** The graph `generate_force_graph` serialises. */
  function ForceGraphOf(files: Dict<Note>, titles: Dict<Titled>, highlight: Option<seq<string>>): (g: Graph)
    requires files.Valid() && titles.Valid()
    ensures |g.nodes| == |titles.order|
    ensures forall i :: 0 <= i < |g.links| ==> g.links[i].value == 2
  {
    Graph(NodesOf(titles.order, titles, Highlights(highlight)), NoteEdges(files.order, files, titles))
  }

  lemma NodesOfSnoc(keys: seq<string>, i: nat, titles: Dict<Titled>, hl: seq<string>)
    requires i < |keys| && forall k :: k in keys ==> k in titles.entries
    ensures NodesOf(keys[..i + 1], titles, hl) == NodesOf(keys[..i], titles, hl) + [NodeOf(keys[i], titles.entries[keys[i]], hl)]
  {
    assert keys[..i + 1][..i] == keys[..i];
  }

  lemma LinkEdgesSnoc(uid: string, links: seq<LinkEntry>, j: nat, titles: Dict<Titled>)
    requires j < |links|
    ensures LinkEdges(uid, links[..j + 1], titles) == LinkEdges(uid, links[..j], titles)
      + (if Qualifies(uid, links[j], titles) then [EdgeFor(uid, links[j], titles)] else [])
  {
    assert links[..j + 1][..j] == links[..j];
  }

  lemma NoteEdgesSnoc(keys: seq<string>, n: nat, files: Dict<Note>, titles: Dict<Titled>)
    requires n < |keys| && forall k :: k in keys ==> k in files.entries
    ensures NoteEdges(keys[..n + 1], files, titles) == NoteEdges(keys[..n], files, titles)
      + LinkEdges(keys[n], LinksOf(files.entries[keys[n]]), titles)
  {
    assert keys[..n + 1][..n] == keys[..n];
  }

  /** Lines 21-25: one node per entry of id_title_dict, in its order. */
  method BuildNodes(titles: Dict<Titled>, hl: seq<string>) returns (nodes: seq<GraphNode>)
    requires titles.Valid()
    ensures nodes == NodesOf(titles.order, titles, hl)
  {
    nodes := [];
    var i := 0;
    while i < |titles.order|
      invariant 0 <= i <= |titles.order|
      invariant nodes == NodesOf(titles.order[..i], titles, hl)
    {
      var uid := titles.order[i];
      var t := titles.entries[uid];
      var group := if uid in hl then 2 else 1;
      var nodeId := if t.display != "" then t.display else t.path;
      nodes := nodes + [GraphNode(nodeId, group)];
      NodesOfSnoc(titles.order, i, titles, hl);
      i := i + 1;
    }
    assert titles.order[..i] == titles.order;
  }

  /** Lines 30-39: the inner loop, appending the edges that the entries of
      one note's "links" list yield, in order. */
  method AppendLinkEdges(uid: string, fileLinks: seq<LinkEntry>, titles: Dict<Titled>, linkList: seq<Edge>)
    returns (extended: seq<Edge>)
    ensures extended == linkList + LinkEdges(uid, fileLinks, titles)
  {
    extended := linkList;
    var j := 0;
    while j < |fileLinks|
      invariant 0 <= j <= |fileLinks|
      invariant extended == linkList + LinkEdges(uid, fileLinks[..j], titles)
    {
      var link := fileLinks[j];
      ghost var before := extended;
      if link.targetPath.Some? {
        var targetPath := link.targetPath.value;
        var sourceId := if uid in titles.entries then titles.entries[uid].path else uid;
        var targetId := if targetPath in titles.entries then titles.entries[targetPath].path else targetPath;
        if sourceId != "" && targetId != "" {
          extended := extended + [Edge(sourceId, targetId, 2)];
        }
      }
      ghost var step := if Qualifies(uid, link, titles) then [EdgeFor(uid, link, titles)] else [];
      assert extended == before + step;
      LinkEdgesSnoc(uid, fileLinks, j, titles);
      assert linkList + LinkEdges(uid, fileLinks[..j + 1], titles) == before + step;
      j := j + 1;
    }
    assert fileLinks[..j] == fileLinks;
  }

  /** Lines 28-39: for every note of id_files_dict and every entry of its
      "links" list, in order, the edge that entry yields. */
  method BuildLinks(files: Dict<Note>, titles: Dict<Titled>) returns (linkList: seq<Edge>)
    requires files.Valid()
    ensures linkList == NoteEdges(files.order, files, titles)
  {
    linkList := [];
    var n := 0;
    while n < |files.order|
      invariant 0 <= n <= |files.order|
      invariant linkList == NoteEdges(files.order[..n], files, titles)
    {
      var uid := files.order[n];
      linkList := AppendLinkEdges(uid, LinksOf(files.entries[uid]), titles, linkList);
      NoteEdgesSnoc(files.order, n, files, titles);
      n := n + 1;
    }
    assert files.order[..n] == files.order;
  }

  /** Lines 9-42 without the console output and the page writing: the graph
      that is serialised. */
  method GenerateForceGraph(files: Dict<Note>, titles: Dict<Titled>, highlight: Option<seq<string>>)
    returns (graph: Graph)
    requires files.Valid() && titles.Valid()
    ensures graph == ForceGraphOf(files, titles, highlight)
  {
    var hl := if highlight.None? || highlight.value == [] then [] else highlight.value;
    var nodes := BuildNodes(titles, hl);
    var linkList := BuildLinks(files, titles);
    graph := Graph(nodes, linkList);
  }
}
