/**
 The note records read from the input JSON and the two indexes built from them
 by the dictionary comprehensions of zkvis.py (lines 70-71):

   id_files_dict: path -> the whole note
   id_title_dict: path -> (title, or filename when the title is empty; path)

 A field that is `None` is a key the JSON object does not have.
 */
module Notes {
  import opened Wrappers
  import opened Dicts

  /** One element of a note's "links" list; only "targetPath" is ever read. */
  datatype LinkEntry = LinkEntry(targetPath: Option<string>)

  /** A note record as loaded from JSON. */
  datatype Note = Note(
    path: Option<string>,
    title: Option<string>,
    filename: Option<string>,
    links: Option<seq<LinkEntry>>)

  /** The `(title, path)` tuple stored in id_title_dict. */
  datatype Titled = Titled(display: string, path: string)

  /** The KeyError that the comprehensions raise for a missing field. */
  datatype IndexError = KeyError(key: string)

  /** id_files_dict and id_title_dict. */
  datatype Index = Index(files: Dict<Note>, titles: Dict<Titled>)

  predicate HasPaths(notes: seq<Note>)
  {
    forall i :: 0 <= i < |notes| ==> notes[i].path.Some?
  }

  /** `item["title"] if item["title"] else item["filename"]`, with the
      KeyError raised when a field it reads is missing. */
  function DisplayTitle(n: Note): (r: Result<string, IndexError>)
    ensures r.Success? <==> n.title.Some? && (n.title.value != "" || n.filename.Some?)
    ensures r == Failure(KeyError("title")) <==> n.title.None?
    ensures r == Failure(KeyError("filename")) <==> n.title == Some("") && n.filename.None?
    ensures r.Success? ==> r.value == (if n.title.value != "" then n.title.value else n.filename.value)
  {
    match n.title
    case None => Failure(KeyError("title"))
    case Some(t) =>
      if t != "" then Success(t)
      else match n.filename
        case None => Failure(KeyError("filename"))
        case Some(f) => Success(f)
  }

  predicate HasTitles(notes: seq<Note>)
  {
    forall i :: 0 <= i < |notes| ==> DisplayTitle(notes[i]).Success?
  }

  /** The KeyError of the first note, in list order, whose display title
      cannot be read. */
  function FirstTitleError(notes: seq<Note>): (e: IndexError)
    requires !HasTitles(notes)
    ensures exists i :: 0 <= i < |notes| && HasTitles(notes[..i]) && DisplayTitle(notes[i]) == Failure(e)
  {
    if DisplayTitle(notes[0]).Failure? then
      assert HasTitles(notes[..0]);
      DisplayTitle(notes[0]).error
    else
      var e := FirstTitleError(notes[1..]);
      ghost var i :| 0 <= i < |notes[1..]| && HasTitles(notes[1..][..i]) && DisplayTitle(notes[1..][i]) == Failure(e);
      assert notes[..i + 1] == [notes[0]] + notes[1..][..i];
      e
  }

  /** The paths of the notes, in list order. */
  function Paths(notes: seq<Note>): (ps: seq<string>)
    requires HasPaths(notes)
    ensures |ps| == |notes| && forall i :: 0 <= i < |notes| ==> ps[i] == notes[i].path.value
  {
    seq(|notes|, i requires 0 <= i < |notes| => notes[i].path.value)
  }

  /** The pairs iterated by the comprehension of line 70. */
  function FilePairs(notes: seq<Note>): (ps: seq<(string, Note)>)
    requires HasPaths(notes)
    ensures Keys(ps) == Paths(notes)
    ensures forall i :: 0 <= i < |notes| ==> ps[i].1 == notes[i]
  {
    seq(|notes|, i requires 0 <= i < |notes| => (notes[i].path.value, notes[i]))
  }

  /** The pairs iterated by the comprehension of line 71. */
  function TitlePairs(notes: seq<Note>): (ps: seq<(string, Titled)>)
    requires HasPaths(notes) && HasTitles(notes)
    ensures Keys(ps) == Paths(notes)
    ensures forall i :: 0 <= i < |notes| ==>
      ps[i].1 == Titled(DisplayTitle(notes[i]).value, notes[i].path.value)
  {
    seq(|notes|, i requires 0 <= i < |notes| =>
      (notes[i].path.value, Titled(DisplayTitle(notes[i]).value, notes[i].path.value)))
  }

  /** Lines 70-71: line 70 reads "path" of every note first; line 71 then
      reads the title fields note by note. */
  function BuildIndex(notes: seq<Note>): (r: Result<Index, IndexError>)
    ensures r.Success? <==> HasPaths(notes) && HasTitles(notes)
    ensures !HasPaths(notes) ==> r == Failure(KeyError("path"))
    ensures HasPaths(notes) && !HasTitles(notes) ==>
      (r.Failure? && exists i :: 0 <= i < |notes| && HasTitles(notes[..i]) && DisplayTitle(notes[i]) == Failure(r.error))
    ensures r.Success? ==> r.value.files.Valid() && r.value.titles.Valid()
  {
    if !HasPaths(notes) then Failure(KeyError("path"))
    else if !HasTitles(notes) then Failure(FirstTitleError(notes))
    else Success(Index(FromPairs(FilePairs(notes)), FromPairs(TitlePairs(notes))))
  }

  /** The index of the note that a path resolves to: the last note with it. */
  function Owner(notes: seq<Note>, k: string): (i: nat)
    requires HasPaths(notes) && k in Paths(notes)
    ensures i < |notes| && notes[i].path == Some(k)
    ensures forall j :: i < j < |notes| ==> notes[j].path != Some(k)
  {
    LastIndex(Paths(notes), k)
  }

  /** Line 70: id_files_dict maps each path to the last note with that path. */
  lemma FilesIndexFacts(notes: seq<Note>)
    requires BuildIndex(notes).Success?
    ensures var files := BuildIndex(notes).value.files;
      && (forall k :: k in files.entries <==> k in Paths(notes))
      && (forall k :: k in files.entries ==> files.entries[k] == notes[Owner(notes, k)])
  {
    var fp := FilePairs(notes);
    assert Keys(fp) == Paths(notes);
    FromPairsKeys(fp);
    forall k | k in Paths(notes)
      ensures FromPairs(fp).entries[k] == notes[Owner(notes, k)]
    {
      FromPairsValue(fp, k);
    }
  }

  /** Line 71: id_title_dict maps each path to the display title of the last
      note with that path, paired with the path itself. */
  lemma TitlesIndexFacts(notes: seq<Note>)
    requires BuildIndex(notes).Success?
    ensures var titles := BuildIndex(notes).value.titles;
      && (forall k :: k in titles.entries <==> k in Paths(notes))
      && (forall k :: k in titles.entries ==>
            titles.entries[k] == Titled(DisplayTitle(notes[Owner(notes, k)]).value, k))
  {
    var tp := TitlePairs(notes);
    assert Keys(tp) == Paths(notes);
    FromPairsKeys(tp);
    forall k | k in Paths(notes)
      ensures FromPairs(tp).entries[k] == Titled(DisplayTitle(notes[Owner(notes, k)]).value, k)
    {
      FromPairsValue(tp, k);
    }
  }

  /** What lines 70-71 promise about the two dictionaries they build: the same
      keys in the same order, and for every key k, `id_title_dict[k][1] == k`. */
  lemma IndexFacts(notes: seq<Note>)
    requires BuildIndex(notes).Success?
    ensures var ix := BuildIndex(notes).value;
      && ix.files.order == ix.titles.order
      && (forall k :: k in ix.files.entries <==> k in ix.titles.entries)
      && (forall k :: k in ix.titles.entries ==> ix.titles.entries[k].path == k)
      && (forall k :: k in ix.titles.entries ==>
            DisplayTitle(ix.files.entries[k]) == Success(ix.titles.entries[k].display))
  {
    var fp, tp := FilePairs(notes), TitlePairs(notes);
    assert Keys(fp) == Paths(notes) && Keys(tp) == Paths(notes);
    FromPairsSameKeys(fp, tp);
    FilesIndexFacts(notes);
    TitlesIndexFacts(notes);
  }

  /** One node per distinct path, in order of first appearance. */
  lemma IndexOrder(notes: seq<Note>)
    requires BuildIndex(notes).Success?
    ensures var order := BuildIndex(notes).value.titles.order;
      && |order| == |set k | k in Paths(notes)|
      && (forall k :: k in order <==> k in Paths(notes))
      && (forall a, b :: 0 <= a < b < |order| ==>
            FirstIndex(Paths(notes), order[a]) < FirstIndex(Paths(notes), order[b]))
  {
    var tp := TitlePairs(notes);
    assert Keys(tp) == Paths(notes);
    FromPairsSize(tp);
    FromPairsOrder(tp);
    FromPairsKeys(tp);
  }
}
