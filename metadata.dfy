/**
 * Task metadata records as the history and analytics pages read them back:
 * every `*.json` file of the metadata directory that loads is one record;
 * a file that cannot be read or parsed is skipped (and logged).
 */
module Metadata {
  import opened Wrappers
  import opened Text

  /** The keys of a metadata record that the application reads. A record is
      a JSON object, so any key may be missing. */
  datatype Record = Record(taskId: Option<string>, text: Option<string>, voiceId: Option<string>,
                           format: Option<string>, outputFile: Option<string>, timestamp: Option<string>)

  /** One name of the directory listing with what `json.load` gave for it:
      `None` when opening or parsing the file raised. */
  datatype DirEntry = DirEntry(name: string, contents: Option<Record>)

  /** The loader keeps this entry's record. */
  predicate Loadable(e: DirEntry) {
    EndsWith(e.name, ".json") && e.contents.Some?
  }

  /** The records of the loadable entries, in listing order. */
  function Loaded(dir: seq<DirEntry>): seq<Record> {
    if dir == [] then []
    else
      var last := dir[|dir| - 1];
      Loaded(dir[..|dir| - 1]) + (if Loadable(last) then [last.contents.value] else [])
  }

  /** Only `*.json` files are loaded, each that loads gives its record, and
      nothing else is in the list. */
  lemma {:induction false} LoadedMeaning(dir: seq<DirEntry>)
    ensures |Loaded(dir)| <= |dir|
    ensures forall r :: r in Loaded(dir) ==> exists e :: e in dir && Loadable(e) && e.contents.value == r
    ensures forall e :: e in dir && Loadable(e) ==> e.contents.value in Loaded(dir)
  {
    if dir != [] {
      var init := dir[..|dir| - 1];
      LoadedMeaning(init);
      assert dir == init + [dir[|dir| - 1]];
      assert forall e :: e in init ==> e in dir;
    }
  }

  /** The loop of `dashboard` and `analytics` over `os.listdir`: keep the
      `*.json` names, load each, skip those that fail. */
  method LoadRecords(dir: seq<DirEntry>) returns (records: seq<Record>)
    ensures records == Loaded(dir)
  {
    records := [];
    var i := 0;
    while i < |dir|
      invariant 0 <= i <= |dir|
      invariant records == Loaded(dir[..i])
    {
      assert dir[..i + 1][..i] == dir[..i];
      var entry := dir[i];
      if EndsWith(entry.name, ".json") {
        match entry.contents {
          case Some(record) => records := records + [record];
          case None =>
        }
      }
      i := i + 1;
    }
    assert dir[..|dir|] == dir;
  }
}
