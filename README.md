# zkvis graph builder, modelled in Dafny

`zkvis.py` turns a list of note records (each with a `path`, a `title`, a
`filename` and an optional list of `links` entries) into the `{nodes, links}`
object of a force-directed graph and substitutes it into an HTML page. This
project models the part with logic in it:

- the two indexes built by dictionary comprehensions (zkvis.py lines 70-71):
  `id_files_dict` (path to note) and `id_title_dict` (path to the pair
  `(title or filename, path)`), including the `KeyError` raised for a missing
  field;
- `generate_force_graph` (lines 9-42): one node per entry of `id_title_dict`,
  then one edge per qualifying link entry of each note of `id_files_dict`.

Python dictionaries are modelled as `Dicts.Dict`: the key sequence in
first-insertion order plus a map. Storing an existing key keeps its place and
replaces its value, so when several notes share a path, the node sits where the
path first appears and describes the last note with that path. A note field
that is `None` in the model is a key the JSON object lacks. The two loops of
`generate_force_graph` are methods (`ForceGraph.BuildNodes`,
`ForceGraph.BuildLinks` with its inner loop in `ForceGraph.AppendLinkEdges`,
called by `ForceGraph.GenerateForceGraph`) proved
equal to the specification functions `NodesOf` and `NoteEdges`. The lemmas in
`GraphProperties` and `Zkvis` state what those functions guarantee.

One might expect edges to join node ids and a link whose target names no note
to be dropped. The code does neither, and the model follows the code:

- The code looks each endpoint up in `id_title_dict` and takes the path
  component, so an edge joins two paths. A target path that no note has is
  kept verbatim (the `.get` default at lines 34-35).
- An edge is dropped only when an endpoint is the empty string. Node ids are
  display titles, so node ids and edge endpoints differ whenever a note's
  display title (its title, or its filename when the title is empty) is
  non-empty and is not its path. `Zkvis.EndpointsArePathsNotNodeIds` shows one such graph.

Files: `wrappers.dfy` (Option, Result), `dicts.dfy` (Python dicts),
`notes.dfy` (records and the indexes), `force_graph.dfy` (the graph builder),
`graph_properties.dfy` (its properties), `zkvis.dfy` (indexes plus builder, as
the script runs them).

## Model

| member | source | states |
|---|---|---|
| `Dicts.Insert` | zkvis.py:70-71 | a dict store: the key maps to the new value, all other keys keep theirs, a present key keeps its position and a new one goes last |
| `Dicts.FromPairs` | zkvis.py:70-71 | a dict comprehension always yields a well-formed dict (no key twice, same keys in order and map) |
| `Dicts.FromPairsKeys` | zkvis.py:70-71 | the comprehension has exactly the keys of its pairs |
| `Dicts.FromPairsLastWins` | zkvis.py:70-71 | the last pair with a key gives that key's value |
| `Dicts.FromPairsValue` | zkvis.py:70-71 | every value comes from the last pair with its key |
| `Dicts.FromPairsOrder` | zkvis.py:70-71 | keys are ordered by their first occurrence among the pairs |
| `Dicts.FromPairsSize` | zkvis.py:70-71 | the comprehension has one entry per distinct key |
| `Dicts.FromPairsSameKeys` | zkvis.py:70-71 | two comprehensions over the same key list have the same key order and key set |
| `Notes.DisplayTitle` | zkvis.py:71 | succeeds exactly when the title is present and either non-empty or backed by a present filename; the value is the title when non-empty, else the filename; KeyError "title" exactly when the title is missing, KeyError "filename" exactly when the title is empty and the filename missing |
| `Notes.FilePairs` | zkvis.py:70 | the comprehension visits the notes in list order, keying each by its path and storing the whole note |
| `Notes.TitlePairs` | zkvis.py:71 | the comprehension visits the notes in list order, keying each by its path and storing (its display title, its path) |
| `Notes.FirstTitleError` | zkvis.py:71 | the error is that of the first note, in list order, whose display title cannot be read |
| `Notes.BuildIndex` | zkvis.py:70-71 | succeeds exactly when every note has a path and a readable display title; a missing path anywhere gives KeyError "path" (line 70 runs first); otherwise the first failing note's KeyError |
| `Notes.Owner` | zkvis.py:70 | the note a path resolves to is the last note with that path |
| `Notes.FilesIndexFacts` | zkvis.py:70 | id_files_dict has exactly the notes' paths as keys and maps each to the last note with it |
| `Notes.TitlesIndexFacts` | zkvis.py:71 | id_title_dict has exactly the notes' paths as keys and maps each to (display title of the last note with it, the path) |
| `Notes.IndexFacts` | zkvis.py:70-71 | both dicts have the same keys in the same order; `id_title_dict[k][1] == k`; the stored title is the display title of the stored note |
| `Notes.IndexOrder` | zkvis.py:70-71 | one entry per distinct path, in order of first appearance |
| `ForceGraph.Highlights` | zkvis.py:10-11 | a missing highlight list is the empty list; a given one is used as it is |
| `ForceGraph.NodeOf` | zkvis.py:23-24 | a node's group is 2 exactly when its key is highlighted and 1 otherwise; its id is the stored title, or the stored path when the title is empty |
| `ForceGraph.NodesOf` | zkvis.py:21-25 | one node per key of id_title_dict (the i-th node is stated by `GraphProperties.NodesOfAt`) |
| `ForceGraph.Resolve` | zkvis.py:34-35 | a key that is not in id_title_dict resolves to itself; when every entry stores its own key as its path, every key resolves to itself |
| `ForceGraph.LinksOf` | zkvis.py:30 | a note without a "links" list has no link entries; otherwise its entries are that list |
| `ForceGraph.Qualifies` | zkvis.py:32-37 | an entry yields an edge exactly when it has a targetPath and both endpoints of the edge it would give are non-empty |
| `ForceGraph.EdgeFor` | zkvis.py:34-38 | every edge has value 2; when every entry stores its own key as its path, the source is the note's key and the target the targetPath as written |
| `ForceGraph.LinkEdges` | zkvis.py:31-39 | a note's link entries give at most one edge each, every one with value 2 |
| `ForceGraph.NoteEdges` | zkvis.py:28-39 | every edge in the link list has value 2 |
| `ForceGraph.ForceGraphOf` | zkvis.py:9-42 | the graph has one node per entry of id_title_dict, and every edge has value 2 |
| `ForceGraph.BuildNodes` | zkvis.py:21-25 | the node loop builds exactly `NodesOf` of the keys of id_title_dict |
| `ForceGraph.AppendLinkEdges` | zkvis.py:30-39 | the inner loop appends exactly `LinkEdges` of one note's entries to the list built so far |
| `ForceGraph.BuildLinks` | zkvis.py:28-39 | the nested link loops build exactly `NoteEdges` of the keys of id_files_dict |
| `ForceGraph.GenerateForceGraph` | zkvis.py:9-42 | the graph is the node list and the link list of the two dictionaries under the normalised highlight list |
| `GraphProperties.NodesOfAt` | zkvis.py:21-25 | one node per key, the i-th node built from the i-th key |
| `GraphProperties.GraphNodes` | zkvis.py:22-24 | node count equals the dict size; id is the stored title, or the path when it is empty; group is 1 or 2, and 2 exactly for highlighted keys |
| `GraphProperties.NoHighlightMeansGroupOne` | zkvis.py:10-23 | with a missing or empty highlight list every node has group 1 |
| `GraphProperties.Tagged` | zkvis.py:29-31 | the flattened link entries, each tagged with its note's key, come from that note's `links` list (missing list = empty) |
| `GraphProperties.QualifyingIndices` | zkvis.py:32-37 | the increasing positions of exactly the entries that have a targetPath and two non-empty resolved endpoints |
| `GraphProperties.FlatEdgesAt` | zkvis.py:31-39 | the j-th edge comes from the j-th qualifying entry, and there is one edge per qualifying entry |
| `GraphProperties.FlatEdgeMembership` | zkvis.py:31-39 | an edge is emitted iff some qualifying entry yields it |
| `GraphProperties.EdgesFollowLinkEntries` | zkvis.py:28-39 | the link list is ordered by note then by entry, with one edge per qualifying entry, of length the number of qualifying entries |
| `GraphProperties.EdgeMembership` | zkvis.py:28-39 | an edge is in the link list iff some qualifying entry of some note yields it |
| `GraphProperties.AllQualifyingKept` | zkvis.py:37-39 | when every entry qualifies no edge is dropped |
| `Zkvis.Pipeline` | zkvis.py:70-75 | the comprehensions and the builder yield a graph exactly when the indexes can be built, otherwise the KeyError of the comprehensions |
| `Zkvis.BuildGraph` | zkvis.py:70-75 | running the comprehensions then `generate_force_graph` gives `Pipeline` |
| `Zkvis.ResolveIsIdentity` | zkvis.py:34-35 | under the index every key resolves to itself, present or not |
| `Zkvis.QualifiesUnderIndex` | zkvis.py:32-38 | an entry yields an edge iff it has a targetPath and neither path is empty; the edge is (note path, targetPath verbatim, 2) |
| `Zkvis.PipelineNodeOrder` | zkvis.py:21-25 | one node per distinct path, in order of first appearance of the path |
| `Zkvis.PipelineNodeGroups` | zkvis.py:23 | a node's group is 2 iff its path is in the highlight list, else 1 |
| `Zkvis.PipelineNodeIds` | zkvis.py:24 | a node's id is the title if non-empty, else the filename if non-empty, else the path, of the last note with that path |
| `Zkvis.DistinctPathsOneNodePerNote` | zkvis.py:21-25 | with pairwise distinct paths there are exactly as many nodes as notes |
| `Zkvis.TaggedEntriesOwned` | zkvis.py:29-31 | every link entry considered belongs to the last note with its path |
| `Zkvis.PipelineEdges` | zkvis.py:28-39 | the j-th edge is (path of the owning note, targetPath of the j-th qualifying entry, 2); qualifying means a targetPath is present and neither path is empty |
| `Zkvis.EdgeHasLinkEntry` | zkvis.py:32-39 | every edge has weight 2, non-empty endpoints, a source that is a note path, and a target that is the targetPath of one of that note's entries |
| `Zkvis.LinkEntryHasEdge` | zkvis.py:32-39 | every entry with a targetPath of the last note with path k (the note id_files_dict keeps) yields Edge(k, targetPath, 2) when neither is empty, even if the target names no note; entries of earlier notes with a repeated path are not visited |
| `Zkvis.EdgeIffLinkEntry` | zkvis.py:29-42 | both directions together: an edge is emitted iff its source is a note path and the last note with that path has an entry whose targetPath is its target, neither empty, value 2 |
| `Zkvis.EveryLinkKept` | zkvis.py:29-39 | with non-empty paths and non-empty targetPaths everywhere, every link entry of the last note with each path (the note id_files_dict keeps) becomes an edge; entries of earlier notes with a repeated path are not visited |
| `Zkvis.SingleNoteExample` | zkvis.py:21-25 | note ("a", "A", "a.md") without links gives nodes [("A", 1)] and no edges |
| `Zkvis.EndpointsArePathsNotNodeIds` | zkvis.py:24-38 | a note titled "A" at path "a" linking to "a", to the unknown "b" and without targetPath gives node "A" and edges a→a and a→b: endpoints are paths, not node ids, and unknown targets are kept |

## Left out

- Console output: the debug and warning `print` calls (zkvis.py lines 15-18, 26, 40, 42, 52-53). They change no data.
- Serialisation and page writing: `json.dumps`, reading the HTML template and `string.Template` substitution (lines 45-50). These are library calls and file I/O; so is the `FileNotFoundError` raised at line 46 when the template file is missing, which the model does not represent. `GenerateForceGraph` returns the graph that would be serialised.
- Command-line handling: argparse, reading the JSON file, the `"notes"` lookup and the error/`exit(1)` path (lines 55-68). These are I/O. The notes and the highlight list are parameters of `Zkvis.Pipeline`; the normalisation at line 73 is the same as at lines 10-11 (`Highlights`).
- The `links` parameter of `generate_force_graph` (line 9, given `[]` at line 75). It is never read.
- JSON values other than strings, lists and objects where the code expects them: a `null` or non-string `path`, `title` or `filename`; a `null` `links` value (iterating it raises `TypeError`); a link entry that is not an object (for a string, `in` would test for a substring). The model treats `""` as the only false string.
- `LinkEntry`: a `targetPath` that is present but not a string. A `null` targetPath passes the `in` test at line 32, resolves to `None` at line 35, fails the test at line 37, and the entry is dropped with the warning at line 42; a list targetPath raises `TypeError` in the `.get` at line 35. `LinkEntry` holds only an absent or a string targetPath, so it can represent neither.
