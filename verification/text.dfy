/** String primitives the resolution engine relies on, modelled on the
    Python 2 standard library: ASCII `str.lower`, `str.rfind`,
    `str.split(sep)` and `posixpath.splitext`. */
module Text {

  /** ASCII lower-casing of one character (Python 2 `str.lower` on a byte
      string in the C locale touches only `A`..`Z`). */
  function LowerChar(c: char): char
  {
    if IsUpper(c) then (c as int + 32) as char else c
  }

  predicate IsUpper(c: char)
  {
    'A' <= c <= 'Z'
  }

  /** `s.lower()`. */
  function Lower(s: string): string
    decreases |s|
  {
    if |s| == 0 then [] else [LowerChar(s[0])] + Lower(s[1..])
  }

  /** Lower-casing keeps the length, leaves no upper-case letter, keeps
      every other character in place and shifts each upper-case letter to
      its lower-case partner. */
  lemma {:induction false} LowerSpec(s: string)
    ensures |Lower(s)| == |s|
    ensures forall i :: 0 <= i < |s| ==> !IsUpper(Lower(s)[i])
    ensures forall i :: 0 <= i < |s| && !IsUpper(s[i]) ==> Lower(s)[i] == s[i]
    ensures forall i :: 0 <= i < |s| && IsUpper(s[i]) ==> Lower(s)[i] as int == s[i] as int + 32
    decreases |s|
  {
    if |s| != 0 {
      LowerSpec(s[1..]);
      assert forall i :: 0 < i < |s| ==> Lower(s)[i] == Lower(s[1..])[i - 1];
    }
  }

  /** Lower-casing twice is lower-casing once. */
  lemma {:induction false} LowerIdempotent(s: string)
    ensures Lower(Lower(s)) == Lower(s)
    decreases |s|
  {
    if |s| != 0 {
      LowerIdempotent(s[1..]);
      assert Lower(s)[1..] == Lower(s[1..]);
    }
  }

  /** `s.rfind(c)`: the index of the last occurrence of `c`, or -1. */
  function LastIndexOf(s: string, c: char): (r: int)
    ensures -1 <= r < |s|
    ensures r >= 0 ==> s[r] == c
    ensures forall j :: r < j < |s| ==> s[j] != c
    decreases |s|
  {
    if |s| == 0 then -1
    else if s[|s| - 1] == c then |s| - 1
    else LastIndexOf(s[..|s| - 1], c)
  }

  /** Every character of `s[lo..hi]` is a dot. */
  predicate AllDots(s: string, lo: int, hi: int)
    requires 0 <= lo <= hi <= |s|
  {
    forall k :: lo <= k < hi ==> s[k] == '.'
  }

  /** `posixpath.splitext(p)`: the extension is everything from the last dot
      on, provided that dot comes after the last `/` and is not part of the
      run of dots that opens the final path component; otherwise the
      extension is empty. */
  function SplitExt(p: string): (string, string)
  {
    var sepIndex := LastIndexOf(p, '/');
    var dotIndex := LastIndexOf(p, '.');
    if dotIndex > sepIndex && !AllDots(p, sepIndex + 1, dotIndex) then
      (p[..dotIndex], p[dotIndex..])
    else
      (p, [])
  }

  /** The two parts put back together give the path, and a non-empty
      extension is a dot followed by neither a dot nor a slash. */
  lemma SplitExtParts(p: string)
    ensures SplitExt(p).0 + SplitExt(p).1 == p
    ensures var ext := SplitExt(p).1;
      ext == [] || (ext[0] == '.' && '.' !in ext[1..] && '/' !in ext[1..])
  {
    var dotIndex := LastIndexOf(p, '.');
    if SplitExt(p).1 != [] {
      assert p[..dotIndex] + p[dotIndex..] == p;
    }
  }

  /** Declarative reading of "p has an extension starting at index i": `i`
      is a dot, no dot or slash follows it, and some non-dot character
      precedes it within the same path component. */
  ghost predicate ExtensionAt(p: string, i: int)
  {
    && 0 <= i < |p|
    && p[i] == '.'
    && (forall j :: i < j < |p| ==> p[j] != '.' && p[j] != '/')
    && (exists k :: 0 <= k < i && p[k] != '.' && forall j :: k <= j < i ==> p[j] != '/')
  }

  /** A path has at most one extension position: the last dot. */
  lemma ExtensionAtUnique(p: string, i: int, j: int)
    requires ExtensionAt(p, i) && ExtensionAt(p, j)
    ensures i == j
  {
  }

  /** `SplitExt` finds an extension exactly when one exists in the
      declarative sense, and then it starts where `ExtensionAt` says. */
  lemma SplitExtSpec(p: string)
    ensures SplitExt(p).1 != [] <==> exists i :: ExtensionAt(p, i)
    ensures SplitExt(p).1 != [] ==> ExtensionAt(p, |SplitExt(p).0|)
  {
    var sepIndex := LastIndexOf(p, '/');
    var dotIndex := LastIndexOf(p, '.');
    if dotIndex > sepIndex && !AllDots(p, sepIndex + 1, dotIndex) {
      var k :| sepIndex + 1 <= k < dotIndex && p[k] != '.';
      assert forall j :: k <= j < dotIndex ==> p[j] != '/';
      assert ExtensionAt(p, dotIndex);
    }
  }

  /** `s.split(sep)`: the pieces between occurrences of `sep`, always at
      least one piece, empty pieces kept. */
  function Split(s: string, sep: char): (r: seq<string>)
    ensures |r| >= 1
    ensures forall i :: 0 <= i < |r| ==> sep !in r[i]
    decreases |s|
  {
    if |s| == 0 then [[]]
    else
      var rest := Split(s[1..], sep);
      if s[0] == sep then [[]] + rest
      else [[s[0]] + rest[0]] + rest[1..]
  }

  /** `sep.join(pieces)`. */
  function JoinWith(pieces: seq<string>, sep: char): string
    decreases |pieces|
  {
    if |pieces| == 0 then []
    else if |pieces| == 1 then pieces[0]
    else pieces[0] + [sep] + JoinWith(pieces[1..], sep)
  }

  /** Splitting loses nothing: joining the pieces back gives the input. */
  lemma {:induction false} SplitJoin(s: string, sep: char)
    ensures JoinWith(Split(s, sep), sep) == s
    decreases |s|
  {
    if |s| == 0 {
    } else {
      var rest := Split(s[1..], sep);
      SplitJoin(s[1..], sep);
      if s[0] == sep {
        assert Split(s, sep) == [[]] + rest;
        assert s == [sep] + s[1..];
      } else {
        var r := Split(s, sep);
        assert r == [[s[0]] + rest[0]] + rest[1..];
        if |rest| == 1 {
          assert s == [s[0]] + rest[0];
        } else {
          assert r[1..] == rest[1..];
          assert JoinWith(rest, sep) == rest[0] + [sep] + JoinWith(rest[1..], sep);
          assert s == [s[0]] + s[1..];
        }
      }
    }
  }

  /** Number of occurrences of `c` in `s`. */
  function Count(s: string, c: char): nat
    decreases |s|
  {
    if |s| == 0 then 0 else (if s[0] == c then 1 else 0) + Count(s[1..], c)
  }

  /** There is exactly one more piece than separators. */
  lemma {:induction false} SplitLength(s: string, sep: char)
    ensures |Split(s, sep)| == Count(s, sep) + 1
    decreases |s|
  {
    if |s| != 0 {
      SplitLength(s[1..], sep);
    }
  }
}
