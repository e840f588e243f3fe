/** The album registry: `get_albums` and `parse_album`. Every section whose
    name starts with `.album:` defines (or re-states) one album; the
    registry maps its `token` to its `name`. */
module Albums {
  import opened Results
  import opened Model

  /** The section-name prefix that marks an album definition. */
  const AlbumPrefix: string := ".album:"

  const TokenKey: string := "token"
  const NameKey: string := "name"

  /** `mandatory_album_keys`. */
  const MandatoryAlbumKeys: set<string> := {NameKey, TokenKey}

  /** `name.startswith(".album:")`. */
  predicate IsAlbumSection(name: string)
  {
    AlbumPrefix <= name
  }

  /** The sections `get_albums` picks out, in document order. */
  function AlbumSections(secs: seq<Section>): (r: seq<Section>)
    ensures forall s :: s in r <==> s in secs && IsAlbumSection(s.name)
    ensures |r| <= |secs|
    decreases |secs|
  {
    if |secs| == 0 then []
    else (if IsAlbumSection(secs[0].name) then [secs[0]] else []) + AlbumSections(secs[1..])
  }

  /** The sections left in the document once `get_albums` has removed the
      album definitions, in document order. */
  function OtherSections(secs: seq<Section>): (r: seq<Section>)
    ensures forall s :: s in r <==> s in secs && !IsAlbumSection(s.name)
    ensures |r| <= |secs|
    decreases |secs|
  {
    if |secs| == 0 then []
    else (if IsAlbumSection(secs[0].name) then [] else [secs[0]]) + OtherSections(secs[1..])
  }

  /** The album filter keeps document order: filtering a concatenation
      concatenates the filtered parts. */
  lemma {:induction false} AlbumSectionsAppend(a: seq<Section>, b: seq<Section>)
    ensures AlbumSections(a + b) == AlbumSections(a) + AlbumSections(b)
    decreases |a|
  {
    if |a| == 0 {
      assert a + b == b;
    } else {
      assert (a + b)[0] == a[0] && (a + b)[1..] == a[1..] + b;
      AlbumSectionsAppend(a[1..], b);
    }
  }

  /** The sections left after `remove_section` keep document order. */
  lemma {:induction false} OtherSectionsAppend(a: seq<Section>, b: seq<Section>)
    ensures OtherSections(a + b) == OtherSections(a) + OtherSections(b)
    decreases |a|
  {
    if |a| == 0 {
      assert a + b == b;
    } else {
      assert (a + b)[0] == a[0] && (a + b)[1..] == a[1..] + b;
      OtherSectionsAppend(a[1..], b);
    }
  }

  /** Removing the album sections splits the document in two: every section
      lands in exactly one part, duplicates included. */
  lemma {:induction false} PartitionSections(secs: seq<Section>)
    ensures multiset(AlbumSections(secs)) + multiset(OtherSections(secs)) == multiset(secs)
    decreases |secs|
  {
    if |secs| != 0 {
      PartitionSections(secs[1..]);
      assert secs == [secs[0]] + secs[1..];
    }
  }

  /** The section carries both mandatory keys. */
  predicate Complete(s: Section)
  {
    MandatoryAlbumKeys <= KeySet(s.entries)
  }

  function AlbumToken(s: Section): string
    requires Complete(s)
  {
    assert TokenKey in MandatoryAlbumKeys;
    Lookup(s.entries, TokenKey).value
  }

  function AlbumName(s: Section): string
    requires Complete(s)
  {
    assert NameKey in MandatoryAlbumKeys;
    Lookup(s.entries, NameKey).value
  }

  /** `parse_album`: an incomplete section is ignored; a complete one
      registers `token -> name`, unless the token is already registered
      under another name, which is a conflict. */
  function ParseAlbum(reg: Registry, s: Section): (r: Result<Registry, Conflict>)
    ensures !Complete(s) ==> r == Success(reg)
    ensures Complete(s) ==>
      var t, n := AlbumToken(s), AlbumName(s);
      && (r.Failure? <==> t in reg && reg[t] != n)
      && (r.Failure? ==> r.error == AlbumConflict(t, reg[t], n))
      && (r.Success? ==>
            && r.value.Keys == reg.Keys + {t}
            && r.value[t] == n
            && forall u :: u in reg && u != t ==> r.value[u] == reg[u])
  {
    if !Complete(s) then Success(reg)
    else
      var token := AlbumToken(s);
      if token in reg && reg[token] != AlbumName(s) then
        Failure(AlbumConflict(token, reg[token], AlbumName(s)))
      else
        Success(reg[token := AlbumName(s)])
  }

  /** Registering the same section a second time (say, from a second
      document that repeats the album) changes nothing. */
  lemma ParseAlbumIdempotent(reg: Registry, s: Section)
    requires ParseAlbum(reg, s).Success?
    ensures ParseAlbum(ParseAlbum(reg, s).value, s) == ParseAlbum(reg, s)
  {
    if Complete(s) {
      var r1 := ParseAlbum(reg, s).value;
      assert r1[AlbumToken(s) := AlbumName(s)] == r1;
    }
  }

  /** The loop of `get_albums` over the album sections, stopping at the
      first conflict. */
  function RegisterAll(reg: Registry, secs: seq<Section>): (r: Result<Registry, Conflict>)
    ensures r.Success? ==> forall t :: t in reg ==> t in r.value && r.value[t] == reg[t]
    ensures r.Failure? ==> r.error.AlbumConflict?
    decreases |secs|
  {
    if |secs| == 0 then Success(reg)
    else
      var reg1 :- ParseAlbum(reg, secs[0]);
      RegisterAll(reg1, secs[1..])
  }

  /** `get_albums`: register every album section of one document. */
  function GetAlbums(reg: Registry, secs: seq<Section>): (r: Result<Registry, Conflict>)
    ensures r.Success? ==> forall t :: t in reg ==> t in r.value && r.value[t] == reg[t]
    ensures r.Failure? ==> r.error.AlbumConflict?
  {
    RegisterAll(reg, AlbumSections(secs))
  }

  /* ---------- declarative reading of the registry fold ---------- */

  /** `s` names a registered token with a different name. */
  ghost predicate ClashesWithRegistry(reg: Registry, s: Section)
  {
    Complete(s) && AlbumToken(s) in reg && reg[AlbumToken(s)] != AlbumName(s)
  }

  /** Two complete sections give one token two names. */
  ghost predicate ClashBetween(a: Section, b: Section)
  {
    Complete(a) && Complete(b) && AlbumToken(a) == AlbumToken(b) && AlbumName(a) != AlbumName(b)
  }

  ghost predicate Clash(reg: Registry, secs: seq<Section>)
  {
    || (exists i :: 0 <= i < |secs| && ClashesWithRegistry(reg, secs[i]))
    || (exists i, j :: 0 <= i < j < |secs| && ClashBetween(secs[i], secs[j]))
  }

  /** The tokens the complete sections define. */
  ghost function Tokens(secs: seq<Section>): set<string>
  {
    set s | s in secs && Complete(s) :: AlbumToken(s)
  }

  lemma TokensCons(secs: seq<Section>)
    requires |secs| > 0
    ensures Tokens(secs) == (if Complete(secs[0]) then {AlbumToken(secs[0])} else {}) + Tokens(secs[1..])
  {
    assert secs == [secs[0]] + secs[1..];
    assert forall s :: s in secs <==> s == secs[0] || s in secs[1..];
  }

  /** A section without both mandatory keys neither clashes nor changes
      the registry, so dropping it keeps the clashes as they are. */
  lemma ClashSkip(reg: Registry, secs: seq<Section>)
    requires |secs| > 0 && !Complete(secs[0])
    ensures Clash(reg, secs[1..]) <==> Clash(reg, secs)
  {
    if Clash(reg, secs) {
      ClashSkipForward(reg, secs);
    }
    if Clash(reg, secs[1..]) {
      ClashSkipBackward(reg, secs);
    }
  }

  lemma ClashSkipForward(reg: Registry, secs: seq<Section>)
    requires |secs| > 0 && !Complete(secs[0])
    requires Clash(reg, secs)
    ensures Clash(reg, secs[1..])
  {
    var rest := secs[1..];
    if i :| 0 <= i < |secs| && ClashesWithRegistry(reg, secs[i]) {
      assert i != 0;
      assert secs[i] == rest[i - 1];
    } else {
      var i, j :| 0 <= i < j < |secs| && ClashBetween(secs[i], secs[j]);
      assert i != 0;
      assert secs[i] == rest[i - 1] && secs[j] == rest[j - 1];
    }
  }

  lemma ClashSkipBackward(reg: Registry, secs: seq<Section>)
    requires |secs| > 0
    requires Clash(reg, secs[1..])
    ensures Clash(reg, secs)
  {
    var rest := secs[1..];
    if i :| 0 <= i < |rest| && ClashesWithRegistry(reg, rest[i]) {
      assert secs[i + 1] == rest[i];
    } else {
      var i, j :| 0 <= i < j < |rest| && ClashBetween(rest[i], rest[j]);
      assert secs[i + 1] == rest[i] && secs[j + 1] == rest[j];
    }
  }

  /** Against the registry grown by `s`, a section clashes exactly when it
      clashes with the old registry or with `s` itself. */
  lemma ClashesWithGrown(reg: Registry, s: Section, x: Section)
    requires Complete(s) && !ClashesWithRegistry(reg, s)
    ensures ClashesWithRegistry(reg[AlbumToken(s) := AlbumName(s)], x)
        <==> ClashesWithRegistry(reg, x) || ClashBetween(s, x)
  {
  }

  lemma ClashAddForward(reg: Registry, secs: seq<Section>)
    requires |secs| > 0 && Complete(secs[0]) && !ClashesWithRegistry(reg, secs[0])
    requires Clash(reg, secs)
    ensures Clash(reg[AlbumToken(secs[0]) := AlbumName(secs[0])], secs[1..])
  {
    var reg1, rest := reg[AlbumToken(secs[0]) := AlbumName(secs[0])], secs[1..];
    if i :| 0 <= i < |secs| && ClashesWithRegistry(reg, secs[i]) {
      ClashesWithGrown(reg, secs[0], rest[i - 1]);
      assert ClashesWithRegistry(reg1, rest[i - 1]);
    } else {
      var i, j :| 0 <= i < j < |secs| && ClashBetween(secs[i], secs[j]);
      if i == 0 {
        ClashesWithGrown(reg, secs[0], rest[j - 1]);
        assert ClashesWithRegistry(reg1, rest[j - 1]);
      } else {
        assert ClashBetween(rest[i - 1], rest[j - 1]);
      }
    }
  }

  lemma ClashAddBackward(reg: Registry, secs: seq<Section>)
    requires |secs| > 0 && Complete(secs[0]) && !ClashesWithRegistry(reg, secs[0])
    requires Clash(reg[AlbumToken(secs[0]) := AlbumName(secs[0])], secs[1..])
    ensures Clash(reg, secs)
  {
    var reg1, rest := reg[AlbumToken(secs[0]) := AlbumName(secs[0])], secs[1..];
    if i :| 0 <= i < |rest| && ClashesWithRegistry(reg1, rest[i]) {
      ClashesWithGrown(reg, secs[0], rest[i]);
      assert secs[i + 1] == rest[i];
      if !ClashesWithRegistry(reg, secs[i + 1]) {
        assert ClashBetween(secs[0], secs[i + 1]);
      }
    } else {
      var i, j :| 0 <= i < j < |rest| && ClashBetween(rest[i], rest[j]);
      assert ClashBetween(secs[i + 1], secs[j + 1]);
    }
  }

  /** After one successful registration step, the clashes left in the rest
      of the sections against the grown registry are exactly the clashes of
      the whole sequence against the original registry. */
  lemma ClashStep(reg: Registry, secs: seq<Section>, reg1: Registry)
    requires |secs| > 0
    requires ParseAlbum(reg, secs[0]) == Success(reg1)
    ensures Clash(reg1, secs[1..]) <==> Clash(reg, secs)
  {
    if !Complete(secs[0]) {
      ClashSkip(reg, secs);
    } else {
      assert reg1 == reg[AlbumToken(secs[0]) := AlbumName(secs[0])];
      if Clash(reg, secs) {
        ClashAddForward(reg, secs);
      }
      if Clash(reg1, secs[1..]) {
        ClashAddBackward(reg, secs);
      }
    }
  }

  /** The registry fold against its declarative reading: it fails exactly
      when some section clashes with the registry or with another section,
      and on success the registry holds the old entries unchanged plus every
      defined token with its name. */
  lemma {:induction false} RegisterAllSpec(reg: Registry, secs: seq<Section>)
    ensures RegisterAll(reg, secs).Failure? <==> Clash(reg, secs)
    ensures RegisterAll(reg, secs).Success? ==>
      var r := RegisterAll(reg, secs).value;
      && r.Keys == reg.Keys + Tokens(secs)
      && (forall t :: t in reg ==> r[t] == reg[t])
      && (forall i :: 0 <= i < |secs| && Complete(secs[i]) ==> r[AlbumToken(secs[i])] == AlbumName(secs[i]))
    decreases |secs|
  {
    if |secs| == 0 {
      assert Tokens(secs) == {};
    } else {
      match ParseAlbum(reg, secs[0])
      case Failure(e) =>
        assert ClashesWithRegistry(reg, secs[0]);
      case Success(reg1) =>
        RegisterAllSpec(reg1, secs[1..]);
        ClashStep(reg, secs, reg1);
        TokensCons(secs);
        if RegisterAll(reg, secs).Success? {
          var r := RegisterAll(reg, secs).value;
          assert r == RegisterAll(reg1, secs[1..]).value;
          forall i | 0 <= i < |secs| && Complete(secs[i])
            ensures r[AlbumToken(secs[i])] == AlbumName(secs[i])
          {
            if i > 0 {
              assert secs[i] == secs[1..][i - 1];
            }
          }
        }
    }
  }

  /** `s` is a complete album section that gives `token` the name `name`. */
  predicate Proposes(s: Section, token: string, name: string)
  {
    Complete(s) && AlbumToken(s) == token && AlbumName(s) == name
  }

  /** The conflict a failing fold reports comes from the sections: some
      section proposes the reported name for the reported token, and the
      different name it clashes with is the one the registry held before
      the fold or the one an earlier section gave that token. */
  lemma {:induction false} RegisterAllError(reg: Registry, secs: seq<Section>)
    requires RegisterAll(reg, secs).Failure?
    ensures var e := RegisterAll(reg, secs).error;
      && e.AlbumConflict?
      && e.registered != e.proposed
      && (exists i :: 0 <= i < |secs| && Proposes(secs[i], e.token, e.proposed)
            && ((e.token in reg && e.registered == reg[e.token])
                || (exists j :: 0 <= j < i && Proposes(secs[j], e.token, e.registered))))
    decreases |secs|
  {
    var e := RegisterAll(reg, secs).error;
    match ParseAlbum(reg, secs[0])
    case Failure(e0) =>
      assert e == e0;
      assert Proposes(secs[0], e.token, e.proposed);
    case Success(reg1) =>
      assert RegisterAll(reg, secs) == RegisterAll(reg1, secs[1..]);
      RegisterAllError(reg1, secs[1..]);
      var i :| 0 <= i < |secs[1..]| && Proposes(secs[1..][i], e.token, e.proposed)
        && ((e.token in reg1 && e.registered == reg1[e.token])
            || (exists j :: 0 <= j < i && Proposes(secs[1..][j], e.token, e.registered)));
      assert secs[1..][i] == secs[i + 1];
      if e.token in reg1 && e.registered == reg1[e.token] {
        if !(e.token in reg && e.registered == reg[e.token]) {
          assert Proposes(secs[0], e.token, e.registered);
        }
      } else {
        var j :| 0 <= j < i && Proposes(secs[1..][j], e.token, e.registered);
        assert secs[1..][j] == secs[j + 1];
      }
  }

  /** The registry a successful fold builds does not depend on the order
      (or repetition) of the album sections. */
  lemma RegisterAllOrderFree(reg: Registry, a: seq<Section>, b: seq<Section>)
    requires forall s :: s in a <==> s in b
    requires RegisterAll(reg, a).Success? && RegisterAll(reg, b).Success?
    ensures RegisterAll(reg, a).value == RegisterAll(reg, b).value
  {
    RegisterAllSpec(reg, a);
    RegisterAllSpec(reg, b);
    var ra, rb := RegisterAll(reg, a).value, RegisterAll(reg, b).value;
    assert Tokens(a) == Tokens(b) by {
      forall k | k in Tokens(a)
        ensures k in Tokens(b)
      {
        var s :| s in a && Complete(s) && AlbumToken(s) == k;
        assert s in b;
      }
      forall k | k in Tokens(b)
        ensures k in Tokens(a)
      {
        var s :| s in b && Complete(s) && AlbumToken(s) == k;
        assert s in a;
      }
    }
    assert ra.Keys == rb.Keys;
    forall k | k in ra
      ensures ra[k] == rb[k]
    {
      if k !in reg {
        var s :| s in a && Complete(s) && AlbumToken(s) == k;
        var i :| 0 <= i < |a| && a[i] == s;
        var j :| 0 <= j < |b| && b[j] == s;
        assert ra[k] == AlbumName(s) == rb[k];
      }
    }
  }
}
