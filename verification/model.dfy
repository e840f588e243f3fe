/** The data the resolution engine works on. The class-level dictionaries
    `albums` and `photos` of `PicasaToIPTC` become explicit values
    (`Registry`, `PhotoTable`, bundled as `Tables`) that every step takes
    and returns. */
module Model {
  import opened Results

  /** One `key = value` line of an ini section. */
  datatype Entry = Entry(key: string, value: string)

  /** A parsed ini section: its name, verbatim, and its lines in file order. */
  datatype Section = Section(name: string, entries: seq<Entry>)

  /** One `.picasa.ini` file: the directory it lives in (`os.path.dirname`
      of its path) and its sections in file order. */
  datatype Document = Document(dir: string, sections: seq<Section>)

  /** Album token to album name. */
  type Registry = map<string, string>

  /** What is known about one photo: the album names (and the `star`
      pseudo-album) in the order they were appended, and the star flag. */
  datatype PhotoRecord = PhotoRecord(albums: seq<string>, star: bool)

  /** Photo path to its record. */
  type PhotoTable = map<string, PhotoRecord>

  /** The run-scoped state threaded through every step. */
  datatype Tables = Tables(albums: Registry, photos: PhotoTable)

  const EmptyTables := Tables(map[], map[])

  /** The two fatal conditions: a token redefined with another name, and a
      second claim on a photo path that already has a record. */
  datatype Conflict =
    | AlbumConflict(token: string, registered: string, proposed: string)
    | DuplicatePhoto(path: string)

  /** The file system as the engine sees it: `os.path.isfile` and
      `os.path.join`. */
  datatype Env = Env(isFile: string -> bool, join: (string, string) -> string)

  /** The keys present in a section (`section.keys()`). */
  function KeySet(entries: seq<Entry>): set<string>
  {
    set e | e in entries :: e.key
  }

  /** The keys of a non-empty section are its first key and the keys of
      the rest. */
  lemma KeySetCons(entries: seq<Entry>)
    requires |entries| > 0
    ensures KeySet(entries) == {entries[0].key} + KeySet(entries[1..])
  {
    assert entries == [entries[0]] + entries[1..];
  }

  /** `section[key]`: the value of the first line with that key. The ini
      reader refuses a section that repeats a key, so the first line is the
      only one. */
  function Lookup(entries: seq<Entry>, key: string): (r: Option<string>)
    ensures r.Some? <==> key in KeySet(entries)
    ensures r.Some? ==> Entry(key, r.value) in entries
    decreases |entries|
  {
    if |entries| == 0 then None
    else if entries[0].key == key then Some(entries[0].value)
    else
      KeySetCons(entries);
      Lookup(entries[1..], key)
  }
}
