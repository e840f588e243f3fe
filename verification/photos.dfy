/** The photo aggregator: the extension filter of `parse_ini` and
    `parse_photo`. */
module Photos {
  import opened Results
  import opened Text
  import opened Model

  /** `valid_extensions`. */
  const ValidExtensions: seq<string> := ["jpg", "jpeg", "raw", "rw2"]

  const AlbumsKey: string := "albums"
  const StarKey: string := "star"

  /** The pseudo-album appended for a `star` line. */
  const StarTag: string := "star"

  /* ---------- extension filter ---------- */

  /** The extension `os.path.splitext(name.lower())` reports, dot included. */
  function Extension(name: string): string
  {
    SplitExt(Lower(name)).1
  }

  /** What `parse_ini` does with a section left after the album sections
      are removed: ignore it silently, warn about an unknown format, or hand
      it to `parse_photo`. */
  datatype Kind = NoExtension | UnknownFormat | Photo

  function Classify(name: string): Kind
  {
    var ext := Extension(name);
    if ext == [] then NoExtension
    else if ext[1..] in ValidExtensions then Photo
    else UnknownFormat
  }

  /** The lower-cased name has an extension, as `splitext` finds it, and
      that extension without its dot is one of the photo formats. */
  ghost predicate PhotoName(name: string)
  {
    exists i :: ExtensionAt(Lower(name), i) && Lower(name)[i + 1..] in ValidExtensions
  }

  /** A section is ignored silently exactly when its lower-cased name has
      no extension, and handed to `parse_photo` exactly when that extension,
      without its dot, is one of the valid ones. */
  lemma ClassifySpec(name: string)
    ensures Classify(name) == NoExtension <==> !exists i :: ExtensionAt(Lower(name), i)
    ensures Classify(name) == Photo <==> PhotoName(name)
  {
    var p := Lower(name);
    SplitExtSpec(p);
    SplitExtParts(p);
    var root, ext := SplitExt(p).0, SplitExt(p).1;
    assert Extension(name) == ext;
    if ext != [] {
      var d := |root|;
      assert ExtensionAt(p, d);
      assert p[d + 1..] == ext[1..] by {
        assert p == root + ext;
      }
      forall i | ExtensionAt(p, i)
        ensures i == d
      {
        ExtensionAtUnique(p, i, d);
      }
      assert Classify(name) == Photo <==> p[d + 1..] in ValidExtensions;
    }
  }

  /** The filter ignores case: a name and its lower-cased form are treated
      alike. */
  lemma ClassifyIgnoresCase(name: string)
    ensures Classify(Lower(name)) == Classify(name)
  {
    LowerIdempotent(name);
  }

  /* ---------- resolving album tokens ---------- */

  /** `self.albums.get(uid)` is truthy: registered under a non-empty name. */
  predicate Resolves(reg: Registry, uid: string)
  {
    uid in reg && reg[uid] != ""
  }

  /** The album names the tokens resolve to, in token order, unresolved
      tokens dropped and repeats kept. */
  function ResolveTokens(reg: Registry, uids: seq<string>): (r: seq<string>)
    ensures |r| <= |uids|
    ensures forall a :: a in r <==> exists i :: 0 <= i < |uids| && Resolves(reg, uids[i]) && reg[uids[i]] == a
    decreases |uids|
  {
    if |uids| == 0 then []
    else
      var rest := ResolveTokens(reg, uids[1..]);
      assert forall i :: 0 < i < |uids| ==> uids[i] == uids[1..][i - 1];
      if Resolves(reg, uids[0]) then [reg[uids[0]]] + rest else rest
  }

  /** Resolution works token by token, so it distributes over
      concatenation: order and repeats are those of the token list. */
  lemma {:induction false} ResolveTokensAppend(reg: Registry, a: seq<string>, b: seq<string>)
    ensures ResolveTokens(reg, a + b) == ResolveTokens(reg, a) + ResolveTokens(reg, b)
    decreases |a|
  {
    if |a| == 0 {
      assert a + b == b;
    } else {
      assert (a + b)[0] == a[0];
      assert (a + b)[1..] == a[1..] + b;
      ResolveTokensAppend(reg, a[1..], b);
    }
  }

  /* ---------- parse_photo, as written ---------- */

  /** `self.photos.setdefault(filename, {})`: the record for `path`, or the
      empty one. */
  function RecordOf(photos: PhotoTable, path: string): PhotoRecord
  {
    if path in photos then photos[path] else PhotoRecord([], false)
  }

  /** The `for uid in value.split(",")` loop: each resolving token creates
      the record if needed and appends its album name. */
  function AddUids(reg: Registry, photos: PhotoTable, path: string, uids: seq<string>): PhotoTable
    decreases |uids|
  {
    if |uids| == 0 then photos
    else
      var photos1 :=
        if Resolves(reg, uids[0]) then
          photos[path := RecordOf(photos, path).(albums := RecordOf(photos, path).albums + [reg[uids[0]]])]
        else photos;
      AddUids(reg, photos1, path, uids[1..])
  }

  /** One line of a photo section: `albums` resolves its tokens, `star`
      sets the flag and appends the pseudo-album, anything else is
      ignored. */
  function ApplyEntry(reg: Registry, photos: PhotoTable, path: string, e: Entry): PhotoTable
  {
    if e.key == AlbumsKey then AddUids(reg, photos, path, Split(e.value, ','))
    else if e.key == StarKey then
      photos[path := PhotoRecord(RecordOf(photos, path).albums + [StarTag], true)]
    else photos
  }

  /** The `for key, value in section.iteritems()` loop. */
  function ApplyEntries(reg: Registry, photos: PhotoTable, path: string, entries: seq<Entry>): (r: PhotoTable)
    decreases |entries|
  {
    if |entries| == 0 then photos
    else ApplyEntries(reg, ApplyEntry(reg, photos, path, entries[0]), path, entries[1..])
  }

  /* ---------- reference reading of a photo section ---------- */

  /** What one line contributes to the album sequence. */
  function EntryTags(reg: Registry, e: Entry): seq<string>
  {
    if e.key == AlbumsKey then ResolveTokens(reg, Split(e.value, ','))
    else if e.key == StarKey then [StarTag]
    else []
  }

  /** What a whole section contributes, line by line. */
  function SectionTags(reg: Registry, entries: seq<Entry>): seq<string>
    decreases |entries|
  {
    if |entries| == 0 then [] else EntryTags(reg, entries[0]) + SectionTags(reg, entries[1..])
  }

  /** The section has a `star` line, whatever its value. */
  predicate HasStar(entries: seq<Entry>)
  {
    StarKey in KeySet(entries)
  }

  /** Append `tags` to the record of `path`, creating it, but only when
      there is something to append. */
  function Extend(photos: PhotoTable, path: string, tags: seq<string>, star: bool): (r: PhotoTable)
  {
    if tags == [] then photos
    else photos[path := PhotoRecord(RecordOf(photos, path).albums + tags, RecordOf(photos, path).star || star)]
  }

  lemma ExtendTwice(photos: PhotoTable, path: string, t1: seq<string>, s1: bool, t2: seq<string>, s2: bool)
    requires s1 ==> t1 != []
    requires s2 ==> t2 != []
    ensures Extend(Extend(photos, path, t1, s1), path, t2, s2) == Extend(photos, path, t1 + t2, s1 || s2)
  {
    if t1 != [] && t2 != [] {
      assert RecordOf(photos, path).albums + t1 + t2 == RecordOf(photos, path).albums + (t1 + t2);
    } else if t1 == [] {
      assert t1 + t2 == t2;
    } else {
      assert t1 + t2 == t1;
    }
  }

  /** The token loop appends exactly the resolved names. */
  lemma {:induction false} AddUidsSpec(reg: Registry, photos: PhotoTable, path: string, uids: seq<string>)
    ensures AddUids(reg, photos, path, uids) == Extend(photos, path, ResolveTokens(reg, uids), false)
    decreases |uids|
  {
    if |uids| != 0 {
      var head := if Resolves(reg, uids[0]) then [reg[uids[0]]] else [];
      var photos1 := Extend(photos, path, head, false);
      AddUidsSpec(reg, photos1, path, uids[1..]);
      ExtendTwice(photos, path, head, false, ResolveTokens(reg, uids[1..]), false);
    }
  }

  lemma ApplyEntrySpec(reg: Registry, photos: PhotoTable, path: string, e: Entry)
    ensures ApplyEntry(reg, photos, path, e) == Extend(photos, path, EntryTags(reg, e), e.key == StarKey)
  {
    if e.key == AlbumsKey {
      AddUidsSpec(reg, photos, path, Split(e.value, ','));
    }
  }

  /** A `star` line always contributes the pseudo-album. */
  lemma {:induction false} StarTagged(reg: Registry, entries: seq<Entry>)
    ensures HasStar(entries) ==> StarTag in SectionTags(reg, entries)
    decreases |entries|
  {
    if |entries| != 0 {
      KeySetCons(entries);
      StarTagged(reg, entries[1..]);
    }
  }

  /** The literal setdefault-and-append loop against the reference reading:
      the record of `path` grows by the section's tags in line order and is
      starred when the section has a `star` line; when the section yields no
      tag the table is untouched (no record is created). */
  lemma {:induction false} ApplyEntriesSpec(reg: Registry, photos: PhotoTable, path: string, entries: seq<Entry>)
    ensures ApplyEntries(reg, photos, path, entries)
         == Extend(photos, path, SectionTags(reg, entries), HasStar(entries))
    decreases |entries|
  {
    if |entries| == 0 {
      assert KeySet(entries) == {};
    } else {
      var e := entries[0];
      ApplyEntrySpec(reg, photos, path, e);
      var photos1 := Extend(photos, path, EntryTags(reg, e), e.key == StarKey);
      ApplyEntriesSpec(reg, photos1, path, entries[1..]);
      StarTagged(reg, entries[1..]);
      KeySetCons(entries);
      ExtendTwice(photos, path, EntryTags(reg, e), e.key == StarKey,
                  SectionTags(reg, entries[1..]), HasStar(entries[1..]));
    }
  }

  /** Every tag a section contributes is the star pseudo-album or a
      non-empty registered album name. */
  lemma {:induction false} SectionTagsFromRegistry(reg: Registry, entries: seq<Entry>)
    ensures forall a :: a in SectionTags(reg, entries) ==> a != "" && (a == StarTag || a in reg.Values)
    decreases |entries|
  {
    if |entries| != 0 {
      SectionTagsFromRegistry(reg, entries[1..]);
    }
  }

  /* ---------- parse_photo ---------- */

  /** `parse_photo`: join the name to the ini's directory; a missing file is
      skipped; a path that already has a record is a conflict, detected
      before anything changes; otherwise the section's lines are applied. */
  function ParsePhoto(env: Env, dir: string, reg: Registry, photos: PhotoTable, s: Section)
    : (r: Result<PhotoTable, Conflict>)
    ensures var path := env.join(dir, s.name);
      && (r.Failure? <==> env.isFile(path) && path in photos)
      && (r.Failure? ==> r.error == DuplicatePhoto(path))
      && (r.Success? && !env.isFile(path) ==> r.value == photos)
      && (r.Success? && env.isFile(path) ==>
            var tags := SectionTags(reg, s.entries);
            if tags == [] then r.value == photos
            else r.value == photos[path := PhotoRecord(tags, HasStar(s.entries))])
  {
    var path := env.join(dir, s.name);
    if !env.isFile(path) then Success(photos)
    else if path in photos then Failure(DuplicatePhoto(path))
    else
      ApplyEntriesSpec(reg, photos, path, s.entries);
      assert RecordOf(photos, path) == PhotoRecord([], false);
      assert [] + SectionTags(reg, s.entries) == SectionTags(reg, s.entries);
      Success(ApplyEntries(reg, photos, path, s.entries))
  }

  /** One iteration of the section loop of `parse_ini`: a section whose
      lower-cased name ends in a photo extension goes to `parse_photo`;
      every other section (no extension, or an unknown one) leaves the
      table as it was. */
  function ParseSection(env: Env, dir: string, reg: Registry, photos: PhotoTable, s: Section)
    : (r: Result<PhotoTable, Conflict>)
    ensures PhotoName(s.name) ==> r == ParsePhoto(env, dir, reg, photos, s)
    ensures !PhotoName(s.name) ==> r == Success(photos)
  {
    ClassifySpec(s.name);
    if Classify(s.name) == Photo then ParsePhoto(env, dir, reg, photos, s) else Success(photos)
  }

  /** `s` is a photo section whose file exists at `path`. */
  predicate Claims(env: Env, dir: string, s: Section, path: string)
  {
    Classify(s.name) == Photo && env.isFile(env.join(dir, s.name)) && env.join(dir, s.name) == path
  }

  /** `s` is a photo section whose file exists at `path`, it yields at
      least one tag, and `rec` is the record it builds. */
  predicate Owns(env: Env, dir: string, reg: Registry, s: Section, path: string, rec: PhotoRecord)
  {
    && Claims(env, dir, s, path)
    && SectionTags(reg, s.entries) != []
    && rec == PhotoRecord(SectionTags(reg, s.entries), HasStar(s.entries))
  }

  /** The section loop of `parse_ini` over the sections left once album
      sections are removed, stopping at the first conflict. Records are
      only ever added, never changed. */
  function PhotoPass(env: Env, dir: string, reg: Registry, photos: PhotoTable, secs: seq<Section>)
    : (r: Result<PhotoTable, Conflict>)
    ensures r.Success? ==> forall p :: p in photos ==> p in r.value && r.value[p] == photos[p]
    ensures r.Failure? ==> r.error.DuplicatePhoto?
    decreases |secs|
  {
    if |secs| == 0 then Success(photos)
    else
      var photos1 :- ParseSection(env, dir, reg, photos, secs[0]);
      PhotoPass(env, dir, reg, photos1, secs[1..])
  }

  /** Every record a successful pass adds is the record built by one of
      its photo sections whose file exists. */
  lemma {:induction false} PhotoPassOwners(env: Env, dir: string, reg: Registry, photos: PhotoTable,
                                           secs: seq<Section>)
    requires PhotoPass(env, dir, reg, photos, secs).Success?
    ensures var out := PhotoPass(env, dir, reg, photos, secs).value;
      forall p :: p in out && p !in photos ==>
        exists j :: 0 <= j < |secs| && Owns(env, dir, reg, secs[j], p, out[p])
    decreases |secs|
  {
    if |secs| != 0 {
      var out := PhotoPass(env, dir, reg, photos, secs).value;
      var step := ParseSection(env, dir, reg, photos, secs[0]);
      assert step.Success?;
      var photos1 := step.value;
      assert out == PhotoPass(env, dir, reg, photos1, secs[1..]).value;
      PhotoPassOwners(env, dir, reg, photos1, secs[1..]);
      forall p | p in out && p !in photos
        ensures exists j :: 0 <= j < |secs| && Owns(env, dir, reg, secs[j], p, out[p])
      {
        if p in photos1 {
          assert out[p] == photos1[p];
          assert Owns(env, dir, reg, secs[0], p, out[p]);
        } else {
          var j :| 0 <= j < |secs[1..]| && Owns(env, dir, reg, secs[1..][j], p, out[p]);
          assert secs[1..][j] == secs[j + 1];
        }
      }
    }
  }

  /** A photo section whose file exists, and whose path already has a
      record when its turn comes, makes the pass fail, wherever it stands in
      the sequence. The record may predate the pass or come from an earlier
      section of it. */
  lemma DuplicateClaimFails(env: Env, dir: string, reg: Registry, photos: PhotoTable,
                            secs: seq<Section>, i: int)
    requires 0 <= i < |secs|
    requires Classify(secs[i].name) == Photo && env.isFile(env.join(dir, secs[i].name))
    requires RecordedBefore(env, dir, reg, photos, secs, i, env.join(dir, secs[i].name))
    ensures PhotoPass(env, dir, reg, photos, secs).Failure?
  {
    assert DuplicateAt(env, dir, reg, photos, secs, i);
    PhotoPassFailure(env, dir, reg, photos, secs);
  }

  /** On success, a photo section whose file exists, whose path had no
      record and which yields at least one tag owns the record of its path:
      the section's tags, resolved against `reg`, and its star flag. */
  lemma {:induction false} PhotoPassRecord(env: Env, dir: string, reg: Registry, photos: PhotoTable,
                                           secs: seq<Section>, i: int)
    requires 0 <= i < |secs|
    requires Classify(secs[i].name) == Photo && env.isFile(env.join(dir, secs[i].name))
    requires env.join(dir, secs[i].name) !in photos
    requires SectionTags(reg, secs[i].entries) != []
    requires PhotoPass(env, dir, reg, photos, secs).Success?
    ensures var path := env.join(dir, secs[i].name);
      var out := PhotoPass(env, dir, reg, photos, secs).value;
      path in out && out[path] == PhotoRecord(SectionTags(reg, secs[i].entries), HasStar(secs[i].entries))
    decreases |secs|
  {
    var step := ParseSection(env, dir, reg, photos, secs[0]);
    assert step.Success?;
    var photos1 := step.value;
    if i > 0 {
      assert secs[i] == secs[1..][i - 1];
      if env.join(dir, secs[i].name) in photos1 {
        DuplicateClaimFails(env, dir, reg, photos1, secs[1..], i - 1);
        assert false;
      }
      PhotoPassRecord(env, dir, reg, photos1, secs[1..], i - 1);
    }
  }
  /* ---------- when a pass fails ---------- */

  /** Before section `i` runs, `path` holds a record: it had one when the
      pass started, or an earlier photo section whose file exists claimed
      it and yielded at least one tag. */
  ghost predicate RecordedBefore(env: Env, dir: string, reg: Registry, photos: PhotoTable,
                                 secs: seq<Section>, i: int, path: string)
    requires 0 <= i <= |secs|
  {
    || path in photos
    || exists j :: 0 <= j < i && Claims(env, dir, secs[j], path) && SectionTags(reg, secs[j].entries) != []
  }

  /** Section `i` is a photo section whose file exists and whose path
      already holds a record when it is reached. */
  ghost predicate DuplicateAt(env: Env, dir: string, reg: Registry, photos: PhotoTable,
                              secs: seq<Section>, i: int)
    requires 0 <= i < |secs|
  {
    var path := env.join(dir, secs[i].name);
    Claims(env, dir, secs[i], path) && RecordedBefore(env, dir, reg, photos, secs, i, path)
  }

  /** After one successful section, the table holds exactly the paths it
      held before plus the path the section claims when it yields tags. */
  lemma ParseSectionKeys(env: Env, dir: string, reg: Registry, photos: PhotoTable, s: Section)
    requires ParseSection(env, dir, reg, photos, s).Success?
    ensures forall p :: p in ParseSection(env, dir, reg, photos, s).value <==>
      p in photos || (Claims(env, dir, s, p) && SectionTags(reg, s.entries) != [])
  {
    ClassifySpec(s.name);
  }

  /** Whether a path is recorded before section `k + 1` of a pass is
      whether it is recorded before section `k` of the rest of the pass,
      run on the table the first section leaves. */
  lemma ShiftRecorded(env: Env, dir: string, reg: Registry, photos: PhotoTable, photos1: PhotoTable,
                      secs: seq<Section>, k: int, path: string)
    requires 0 <= k < |secs| - 1
    requires forall p :: p in photos1 <==>
      p in photos || (Claims(env, dir, secs[0], p) && SectionTags(reg, secs[0].entries) != [])
    ensures RecordedBefore(env, dir, reg, photos1, secs[1..], k, path)
        <==> RecordedBefore(env, dir, reg, photos, secs, k + 1, path)
  {
    if RecordedBefore(env, dir, reg, photos1, secs[1..], k, path) && path !in photos1 {
      var j :| 0 <= j < k && Claims(env, dir, secs[1..][j], path) && SectionTags(reg, secs[1..][j].entries) != [];
      assert secs[1..][j] == secs[j + 1];
    }
    if RecordedBefore(env, dir, reg, photos, secs, k + 1, path) && path !in photos {
      var j :| 0 <= j < k + 1 && Claims(env, dir, secs[j], path) && SectionTags(reg, secs[j].entries) != [];
      if j > 0 {
        assert secs[1..][j - 1] == secs[j];
      }
    }
  }

  /** Shifting the pass by one successful section shifts the duplicate
      positions by one. */
  lemma ShiftDuplicate(env: Env, dir: string, reg: Registry, photos: PhotoTable,
                       secs: seq<Section>, k: int)
    requires 0 <= k < |secs| - 1
    requires ParseSection(env, dir, reg, photos, secs[0]).Success?
    ensures var photos1 := ParseSection(env, dir, reg, photos, secs[0]).value;
      DuplicateAt(env, dir, reg, photos1, secs[1..], k) <==> DuplicateAt(env, dir, reg, photos, secs, k + 1)
  {
    var photos1 := ParseSection(env, dir, reg, photos, secs[0]).value;
    ParseSectionKeys(env, dir, reg, photos, secs[0]);
    assert secs[1..][k] == secs[k + 1];
    ShiftRecorded(env, dir, reg, photos, photos1, secs, k, env.join(dir, secs[k + 1].name));
  }

  /** The first section of a pass fails exactly when it is a duplicate,
      and the error names its path. */
  lemma FirstSection(env: Env, dir: string, reg: Registry, photos: PhotoTable, secs: seq<Section>)
    requires 0 < |secs|
    ensures ParseSection(env, dir, reg, photos, secs[0]).Failure? <==> DuplicateAt(env, dir, reg, photos, secs, 0)
    ensures ParseSection(env, dir, reg, photos, secs[0]).Failure? ==>
      ParseSection(env, dir, reg, photos, secs[0]).error == DuplicatePhoto(env.join(dir, secs[0].name))
  {
    ClassifySpec(secs[0].name);
  }

  /** A pass fails exactly when some photo section whose file exists
      reaches a path that already holds a record, whether from an earlier
      document or from an earlier section of this pass; the error names
      the path of the first such section. */
  lemma {:induction false} PhotoPassFailure(env: Env, dir: string, reg: Registry, photos: PhotoTable,
                                            secs: seq<Section>)
    ensures PhotoPass(env, dir, reg, photos, secs).Failure? <==>
      exists i :: 0 <= i < |secs| && DuplicateAt(env, dir, reg, photos, secs, i)
    ensures PhotoPass(env, dir, reg, photos, secs).Failure? ==>
      exists i :: 0 <= i < |secs| && DuplicateAt(env, dir, reg, photos, secs, i)
        && PhotoPass(env, dir, reg, photos, secs).error == DuplicatePhoto(env.join(dir, secs[i].name))
        && forall k :: 0 <= k < i ==> !DuplicateAt(env, dir, reg, photos, secs, k)
    decreases |secs|
  {
    if |secs| != 0 {
      var step := ParseSection(env, dir, reg, photos, secs[0]);
      FirstSection(env, dir, reg, photos, secs);
      if step.Success? {
        var photos1 := step.value;
        assert PhotoPass(env, dir, reg, photos, secs) == PhotoPass(env, dir, reg, photos1, secs[1..]);
        PhotoPassFailure(env, dir, reg, photos1, secs[1..]);
        forall k | 0 <= k < |secs| - 1
          ensures DuplicateAt(env, dir, reg, photos1, secs[1..], k) <==> DuplicateAt(env, dir, reg, photos, secs, k + 1)
        {
          ShiftDuplicate(env, dir, reg, photos, secs, k);
        }
        var rest := PhotoPass(env, dir, reg, photos1, secs[1..]);
        FirstDuplicateShift(env, dir, reg, photos, photos1, secs, rest);
        if rest.Failure? {
          FirstDuplicateWitness(env, dir, reg, photos, photos1, secs, rest);
        }
      }
    }
  }

  /** The inductive step of `PhotoPassFailure` for its first ensures,
      stated over any outcome `rest` of the pass on the sections after
      the first. */
  lemma FirstDuplicateShift(env: Env, dir: string, reg: Registry, photos: PhotoTable, photos1: PhotoTable,
                            secs: seq<Section>, rest: Result<PhotoTable, Conflict>)
    requires 0 < |secs|
    requires !DuplicateAt(env, dir, reg, photos, secs, 0)
    requires forall k :: 0 <= k < |secs| - 1 ==>
      (DuplicateAt(env, dir, reg, photos1, secs[1..], k) <==> DuplicateAt(env, dir, reg, photos, secs, k + 1))
    requires rest.Failure? <==> exists i :: 0 <= i < |secs[1..]| && DuplicateAt(env, dir, reg, photos1, secs[1..], i)
    ensures rest.Failure? <==> exists i :: 0 <= i < |secs| && DuplicateAt(env, dir, reg, photos, secs, i)
  {
    if exists i :: 0 <= i < |secs| && DuplicateAt(env, dir, reg, photos, secs, i) {
      var i :| 0 <= i < |secs| && DuplicateAt(env, dir, reg, photos, secs, i);
      assert DuplicateAt(env, dir, reg, photos1, secs[1..], i - 1);
    }
  }

  /** The inductive step of `PhotoPassFailure` for its second ensures:
      the first duplicate of the rest is the first duplicate of the whole
      pass, one position on. */
  lemma FirstDuplicateWitness(env: Env, dir: string, reg: Registry, photos: PhotoTable, photos1: PhotoTable,
                              secs: seq<Section>, rest: Result<PhotoTable, Conflict>)
    requires 0 < |secs|
    requires !DuplicateAt(env, dir, reg, photos, secs, 0)
    requires forall k :: 0 <= k < |secs| - 1 ==>
      (DuplicateAt(env, dir, reg, photos1, secs[1..], k) <==> DuplicateAt(env, dir, reg, photos, secs, k + 1))
    requires rest.Failure?
    requires
      exists i :: 0 <= i < |secs[1..]| && DuplicateAt(env, dir, reg, photos1, secs[1..], i)
        && rest.error == DuplicatePhoto(env.join(dir, secs[1..][i].name))
        && forall k :: 0 <= k < i ==> !DuplicateAt(env, dir, reg, photos1, secs[1..], k)
    ensures
      exists i :: 0 <= i < |secs| && DuplicateAt(env, dir, reg, photos, secs, i)
        && rest.error == DuplicatePhoto(env.join(dir, secs[i].name))
        && forall k :: 0 <= k < i ==> !DuplicateAt(env, dir, reg, photos, secs, k)
  {
    var i :| 0 <= i < |secs[1..]| && DuplicateAt(env, dir, reg, photos1, secs[1..], i)
      && rest.error == DuplicatePhoto(env.join(dir, secs[1..][i].name))
      && forall k :: 0 <= k < i ==> !DuplicateAt(env, dir, reg, photos1, secs[1..], k);
    assert secs[1..][i] == secs[i + 1];
    forall k | 0 <= k < i + 1
      ensures !DuplicateAt(env, dir, reg, photos, secs, k)
    {
      if k > 0 {
        assert !DuplicateAt(env, dir, reg, photos1, secs[1..], k - 1);
      }
    }
    assert DuplicateAt(env, dir, reg, photos, secs, i + 1);
  }

  /** A second claim within one pass fails: once an earlier photo section
      has recorded a path, a later photo section on the same existing file
      makes the pass fail. */
  lemma WithinPassDuplicate(env: Env, dir: string, reg: Registry, photos: PhotoTable,
                            secs: seq<Section>, j: int, i: int)
    requires 0 <= j < i < |secs|
    requires Claims(env, dir, secs[j], env.join(dir, secs[i].name))
    requires SectionTags(reg, secs[j].entries) != []
    requires Classify(secs[i].name) == Photo
    ensures PhotoPass(env, dir, reg, photos, secs).Failure?
  {
    assert DuplicateAt(env, dir, reg, photos, secs, i);
    PhotoPassFailure(env, dir, reg, photos, secs);
  }
}
