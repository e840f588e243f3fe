/** The keyword step of `write_info`: a photo's IPTC keywords become the
    union of its old keywords and its record's album names. Reading and
    saving the IPTC block is outside the model; the old keywords come in as
    a function of the photo path. */
module Keywords {
  import opened Model

  /** `set(photo.keywords + info["albums"])`. */
  function MergeKeywords(existing: set<string>, albums: seq<string>): (r: set<string>)
    ensures existing <= r
    ensures forall a :: a in albums ==> a in r
    ensures forall k :: k in r ==> k in existing || k in albums
  {
    existing + set a | a in albums
  }

  /** Merging the same record again changes nothing. */
  lemma MergeIdempotent(existing: set<string>, albums: seq<string>)
    ensures MergeKeywords(MergeKeywords(existing, albums), albums) == MergeKeywords(existing, albums)
  {
  }

  /** The loop of `write_info`: every photo with a record gets its merged
      keyword set; a record without album names leaves the keywords as they
      were. */
  function WriteInfo(photos: PhotoTable, keywordsOf: string -> set<string>): (r: map<string, set<string>>)
    ensures r.Keys == photos.Keys
    ensures forall p :: p in r ==> keywordsOf(p) <= r[p]
    ensures forall p :: p in r ==> forall a :: a in photos[p].albums ==> a in r[p]
    ensures forall p :: p in r ==> forall k :: k in r[p] ==> k in keywordsOf(p) || k in photos[p].albums
  {
    map p | p in photos ::
      if photos[p].albums == [] then keywordsOf(p) else MergeKeywords(keywordsOf(p), photos[p].albums)
  }

  /** Running the write step a second time, on the keywords the first run
      wrote, writes the same keywords again. */
  lemma {:induction false} WriteInfoIdempotent(photos: PhotoTable, keywordsOf: string -> set<string>)
    ensures var once := WriteInfo(photos, keywordsOf);
      WriteInfo(photos, p => if p in once then once[p] else keywordsOf(p)) == once
  {
    var once := WriteInfo(photos, keywordsOf);
    var again := WriteInfo(photos, p => if p in once then once[p] else keywordsOf(p));
    forall p | p in photos
      ensures again[p] == once[p]
    {
      if photos[p].albums != [] {
        MergeIdempotent(keywordsOf(p), photos[p].albums);
      }
    }
  }
}
