/** `parse_ini` and the document loop of `parse_folder`: each document
    first registers its albums, then aggregates its photo sections against
    the registry as it stands after those albums. */
module Pipeline {
  import opened Results
  import opened Model
  import opened Albums
  import opened Photos

  /** `parse_ini` for one document. */
  function ParseIni(env: Env, t: Tables, doc: Document): (r: Result<Tables, Conflict>)
    ensures r.Success? ==> forall k :: k in t.albums ==> k in r.value.albums && r.value.albums[k] == t.albums[k]
    ensures r.Success? ==> forall p :: p in t.photos ==> p in r.value.photos && r.value.photos[p] == t.photos[p]
  {
    var reg :- GetAlbums(t.albums, doc.sections);
    var photos :- PhotoPass(env, doc.dir, reg, t.photos, OtherSections(doc.sections));
    Success(Tables(reg, photos))
  }

  /** The loop of `parse_folder` over the ini files, in discovery order,
      aborting at the first conflict. */
  function Run(env: Env, t: Tables, docs: seq<Document>): (r: Result<Tables, Conflict>)
    ensures r.Success? ==> forall k :: k in t.albums ==> k in r.value.albums && r.value.albums[k] == t.albums[k]
    ensures r.Success? ==> forall p :: p in t.photos ==> p in r.value.photos && r.value.photos[p] == t.photos[p]
    decreases |docs|
  {
    if |docs| == 0 then Success(t)
    else
      var t1 :- ParseIni(env, t, docs[0]);
      Run(env, t1, docs[1..])
  }

  /* ---------- one document ---------- */

  /** A document fails on an album conflict exactly when one of its album
      sections clashes with the registry so far or with another of its
      album sections; otherwise every album it defines is registered under
      its name. */
  lemma ParseIniAlbums(env: Env, t: Tables, doc: Document)
    ensures (ParseIni(env, t, doc).Failure? && ParseIni(env, t, doc).error.AlbumConflict?)
        <==> Clash(t.albums, AlbumSections(doc.sections))
    ensures ParseIni(env, t, doc).Success? ==>
      var reg := ParseIni(env, t, doc).value.albums;
      forall s :: s in doc.sections && IsAlbumSection(s.name) && Complete(s) ==>
        AlbumToken(s) in reg && reg[AlbumToken(s)] == AlbumName(s)
  {
    var secs := AlbumSections(doc.sections);
    RegisterAllSpec(t.albums, secs);
    if ParseIni(env, t, doc).Success? {
      var reg := ParseIni(env, t, doc).value.albums;
      forall s | s in doc.sections && IsAlbumSection(s.name) && Complete(s)
        ensures AlbumToken(s) in reg && reg[AlbumToken(s)] == AlbumName(s)
      {
        var i :| 0 <= i < |secs| && secs[i] == s;
      }
    }
  }

  /** Album sections are consumed by the registry step: every record a
      document adds comes from one of its non-album photo sections whose
      file exists. */
  lemma ParseIniNewRecords(env: Env, t: Tables, doc: Document)
    requires ParseIni(env, t, doc).Success?
    ensures var t' := ParseIni(env, t, doc).value;
      forall p :: p in t'.photos && p !in t.photos ==>
        exists s :: s in doc.sections && !IsAlbumSection(s.name) && Owns(env, doc.dir, t'.albums, s, p, t'.photos[p])
  {
    var reg := GetAlbums(t.albums, doc.sections).value;
    var others := OtherSections(doc.sections);
    PhotoPassOwners(env, doc.dir, reg, t.photos, others);
    var t' := ParseIni(env, t, doc).value;
    forall p | p in t'.photos && p !in t.photos
      ensures exists s :: s in doc.sections && !IsAlbumSection(s.name) && Owns(env, doc.dir, t'.albums, s, p, t'.photos[p])
    {
      var j :| 0 <= j < |others| && Owns(env, doc.dir, reg, others[j], p, t'.photos[p]);
      assert others[j] in others;
    }
  }

  /** Albums are visible to every photo section of the document that
      defines them, whichever comes first in the file: a photo section that
      yields a tag gets the record of its tags resolved against the
      registry after all of the document's album sections. */
  lemma SameDocumentAlbumsVisible(env: Env, t: Tables, doc: Document, s: Section)
    requires s in doc.sections && !IsAlbumSection(s.name)
    requires Classify(s.name) == Photo && env.isFile(env.join(doc.dir, s.name))
    requires env.join(doc.dir, s.name) !in t.photos
    requires ParseIni(env, t, doc).Success?
    requires SectionTags(ParseIni(env, t, doc).value.albums, s.entries) != []
    ensures var t' := ParseIni(env, t, doc).value;
      var path := env.join(doc.dir, s.name);
      path in t'.photos && t'.photos[path] == PhotoRecord(SectionTags(t'.albums, s.entries), HasStar(s.entries))
  {
    var others := OtherSections(doc.sections);
    var reg := GetAlbums(t.albums, doc.sections).value;
    var i :| 0 <= i < |others| && others[i] == s;
    PhotoPassRecord(env, doc.dir, reg, t.photos, others, i);
  }

  /** A photo section of a later document that claims a path which already
      has a record makes that document fail. */
  lemma DuplicateAcrossDocuments(env: Env, t: Tables, doc: Document, s: Section)
    requires s in doc.sections && !IsAlbumSection(s.name)
    requires Classify(s.name) == Photo && env.isFile(env.join(doc.dir, s.name))
    requires env.join(doc.dir, s.name) in t.photos
    ensures ParseIni(env, t, doc).Failure?
  {
    var others := OtherSections(doc.sections);
    var i :| 0 <= i < |others| && others[i] == s;
    if GetAlbums(t.albums, doc.sections).Success? {
      DuplicateClaimFails(env, doc.dir, GetAlbums(t.albums, doc.sections).value, t.photos, others, i);
    }
  }

  /* ---------- the run invariant ---------- */

  /** What holds of every stored record: its file exists, it has at least
      one album name, a starred record carries the `star` pseudo-album, and
      every name is the pseudo-album or a non-empty registered album name. */
  ghost predicate RecordOk(env: Env, reg: Registry, path: string, rec: PhotoRecord)
  {
    && env.isFile(path)
    && rec.albums != []
    && (rec.star ==> StarTag in rec.albums)
    && forall a :: a in rec.albums ==> a != "" && (a == StarTag || a in reg.Values)
  }

  ghost predicate Inv(env: Env, t: Tables)
  {
    forall p :: p in t.photos ==> RecordOk(env, t.albums, p, t.photos[p])
  }

  lemma ParseIniPreservesInv(env: Env, t: Tables, doc: Document)
    requires Inv(env, t)
    ensures ParseIni(env, t, doc).Success? ==> Inv(env, ParseIni(env, t, doc).value)
  {
    if ParseIni(env, t, doc).Success? {
      var t' := ParseIni(env, t, doc).value;
      ParseIniNewRecords(env, t, doc);
      assert t.albums.Values <= t'.albums.Values by {
        forall v | v in t.albums.Values
          ensures v in t'.albums.Values
        {
          var k :| k in t.albums && t.albums[k] == v;
          assert t'.albums[k] == v;
        }
      }
      forall p | p in t'.photos
        ensures RecordOk(env, t'.albums, p, t'.photos[p])
      {
        if p in t.photos {
          assert RecordOk(env, t.albums, p, t.photos[p]);
        } else {
          var s :| s in doc.sections && !IsAlbumSection(s.name) && Owns(env, doc.dir, t'.albums, s, p, t'.photos[p]);
          SectionTagsFromRegistry(t'.albums, s.entries);
          StarTagged(t'.albums, s.entries);
        }
      }
    }
  }

  /** Every run that gets through its documents, started from empty
      tables, leaves only well-formed records. */
  lemma {:induction false} RunPreservesInv(env: Env, t: Tables, docs: seq<Document>)
    requires Inv(env, t)
    ensures Run(env, t, docs).Success? ==> Inv(env, Run(env, t, docs).value)
    decreases |docs|
  {
    if |docs| != 0 {
      ParseIniPreservesInv(env, t, docs[0]);
      if ParseIni(env, t, docs[0]).Success? {
        RunPreservesInv(env, ParseIni(env, t, docs[0]).value, docs[1..]);
      }
    }
  }

  lemma RunFromEmpty(env: Env, docs: seq<Document>)
    ensures Run(env, EmptyTables, docs).Success? ==> Inv(env, Run(env, EmptyTables, docs).value)
  {
    RunPreservesInv(env, EmptyTables, docs);
  }
}
