/** Worked examples of the engine on concrete inputs. */
module Scenarios {
  import opened Results
  import opened Text
  import opened Model
  import opened Albums
  import opened Photos
  import opened Keywords
  import opened Pipeline

  /** `Lower(s)` is `t` when `t` is `s` lower-cased character by
      character. */
  lemma {:induction false} LowerIs(s: string, t: string)
    requires |s| == |t|
    requires forall i :: 0 <= i < |s| ==> LowerChar(s[i]) == t[i]
    ensures Lower(s) == t
    decreases |s|
  {
    if |s| != 0 {
      LowerIs(s[1..], t[1..]);
      assert t == [t[0]] + t[1..];
    }
  }

  /** The lower-cased photo name of the examples is a photo. */
  lemma ClassifyLoweredPhoto()
    ensures Classify("img_1.jpg") == Photo
  {
    var p := "img_1.jpg";
    LowerIs(p, p);
    assert LastIndexOf(p, '.') == 5 by {
      assert p[5] == '.';
      assert forall j :: 5 < j < |p| ==> p[j] != '.';
    }
    assert LastIndexOf(p, '/') == -1;
    assert p[0] != '.';
    assert SplitExt(p).1 == ".jpg";
  }

  /** An upper-case extension is accepted: the name lower-cases to a
      photo name, and the filter ignores case. */
  lemma ClassifyUpperCasePhoto()
    ensures Classify("IMG_1.JPG") == Photo
  {
    LowerIs("IMG_1.JPG", "img_1.jpg");
    ClassifyIgnoresCase("IMG_1.JPG");
    ClassifyLoweredPhoto();
  }

  /** An extension outside the valid ones is an unknown format. */
  lemma ClassifyUnknownFormat()
    ensures Classify("notes.txt") == UnknownFormat
  {
    var p := "notes.txt";
    LowerIs(p, p);
    assert LastIndexOf(p, '.') == 5 by {
      assert p[5] == '.';
      assert forall j :: 5 < j < |p| ==> p[j] != '.';
    }
    assert LastIndexOf(p, '/') == -1;
    assert p[0] != '.';
    assert SplitExt(p).1 == ".txt";
  }

  /** A name made of a run of leading dots and a suffix has no extension. */
  lemma ClassifyLeadingDots()
    ensures Classify("..jpg") == NoExtension
  {
    var p := "..jpg";
    LowerIs(p, p);
    assert LastIndexOf(p, '.') == 1 by {
      assert p[1] == '.';
      assert forall j :: 1 < j < |p| ==> p[j] != '.';
    }
    assert LastIndexOf(p, '/') == -1;
    assert AllDots(p, 0, 1);
  }

  /** A dot in a directory part of the name does not count. */
  lemma ClassifyDotBeforeSlash()
    ensures Classify("a.jpg/b") == NoExtension
  {
    var p := "a.jpg/b";
    LowerIs(p, p);
    assert LastIndexOf(p, '.') == 1 by {
      assert p[1] == '.';
      assert forall j :: 1 < j < |p| ==> p[j] != '.';
    }
    assert LastIndexOf(p, '/') == 5;
  }

  /** Old keywords {A, C} merged with albums [A, B] give {A, B, C}. */
  lemma MergeExample()
    ensures MergeKeywords({"A", "C"}, ["A", "B"]) == {"A", "B", "C"}
  {
  }

  /** A file system in which every path is a file and joining puts a slash
      between directory and name. */
  function AllFiles(): Env
  {
    Env(p => true, (d, n) => d + "/" + n)
  }

  /** The photo section comes first in the file and still sees the album
      defined after it. */
  function TripDocument(): Document
  {
    Document("/pics", [
      TripPhoto(),
      Section(".album:xyz", [Entry("token", "t1"), Entry("name", "Trip")])
    ])
  }

  lemma TripRegistry()
    ensures GetAlbums(map[], TripDocument().sections) == Success(map["t1" := "Trip"])
  {
    var doc := TripDocument();
    var photo, album := doc.sections[0], doc.sections[1];
    assert IsAlbumSection(album.name);
    assert !IsAlbumSection(photo.name) by {
      assert photo.name[0] != AlbumPrefix[0];
    }
    assert AlbumSections(doc.sections) == [album];
    assert KeySet(album.entries) == {"token", "name"};
    assert AlbumToken(album) == "t1" && AlbumName(album) == "Trip";
  }

  function TripPhoto(): Section
  {
    Section("IMG_1.JPG", [Entry("albums", "t1"), Entry("star", "1")])
  }

  lemma TripTags()
    ensures SectionTags(map["t1" := "Trip"], TripPhoto().entries) == ["Trip", "star"]
    ensures HasStar(TripPhoto().entries)
  {
    var entries := TripPhoto().entries;
    var empty: string := [];
    assert Split(empty, ',') == [empty];
    assert Split("1", ',') == ["1"] by {
      assert "1"[1..] == empty;
      assert Split("1", ',') == [['1'] + empty] + [empty][1..];
      assert ['1'] + empty == "1";
      assert [empty][1..] == [];
    }
    assert Split("t1", ',') == ["t1"] by {
      assert "t1"[1..] == "1";
      assert Split("t1", ',') == [['t'] + "1"] + ["1"][1..];
      assert ['t'] + "1" == "t1";
      assert ["1"][1..] == [];
    }
    assert EntryTags(map["t1" := "Trip"], entries[0]) == ["Trip"];
    assert EntryTags(map["t1" := "Trip"], entries[1]) == ["star"];
    assert entries[1].key == StarKey;
  }

  lemma TripParsePhoto()
    ensures ParsePhoto(AllFiles(), "/pics", map["t1" := "Trip"], map[], TripPhoto())
         == Success(map["/pics/IMG_1.JPG" := PhotoRecord(["Trip", "star"], true)])
  {
    TripTags();
    assert AllFiles().join("/pics", "IMG_1.JPG") == "/pics/IMG_1.JPG";
  }

  lemma TripPhotoSection()
    ensures OtherSections(TripDocument().sections) == [TripPhoto()]
    ensures PhotoPass(AllFiles(), "/pics", map["t1" := "Trip"], map[], [TripPhoto()])
         == Success(map["/pics/IMG_1.JPG" := PhotoRecord(["Trip", "star"], true)])
  {
    var doc := TripDocument();
    assert IsAlbumSection(doc.sections[1].name);
    assert !IsAlbumSection(doc.sections[0].name) by {
      assert doc.sections[0].name[0] != AlbumPrefix[0];
    }
    ClassifyUpperCasePhoto();
    TripParsePhoto();
  }

  function TripTables(): Tables
  {
    Tables(map["t1" := "Trip"], map["/pics/IMG_1.JPG" := PhotoRecord(["Trip", "star"], true)])
  }

  lemma TripParseIni()
    ensures ParseIni(AllFiles(), EmptyTables, TripDocument()) == Success(TripTables())
  {
    TripRegistry();
    TripPhotoSection();
    var doc := TripDocument();
    assert doc.dir == "/pics";
    assert EmptyTables.albums == map[] && EmptyTables.photos == map[];
  }

  /** The end-to-end example: registry {t1: Trip} and the photo's record
      [Trip, star], starred. */
  lemma TripScenario()
    ensures Run(AllFiles(), EmptyTables, [TripDocument()]) == Success(TripTables())
  {
    TripParseIni();
    assert [TripDocument()][1..] == [];
  }

  /** Writing the example's record keeps the photo's old keywords and adds
      both names. */
  lemma TripKeywords(keywordsOf: string -> set<string>)
    ensures var kw := WriteInfo(map["/pics/IMG_1.JPG" := PhotoRecord(["Trip", "star"], true)], keywordsOf);
      kw["/pics/IMG_1.JPG"] == keywordsOf("/pics/IMG_1.JPG") + {"Trip", "star"}
  {
  }
}
