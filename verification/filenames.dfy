/**
 Filename derivation (`getFilename`, both overloads) and destination joining
 (`safeAddPath`) of `SaverActivity`.

 The string overload applies, in order, Kotlin's `replaceBeforeLast("/", "")`
 (which keeps the slash itself), `replaceAfter(" ", "")` (which keeps the
 space itself), deletion of every character outside the class
 `[a-zA-Z0-9æøåÆØÅ_ -]`, and a cut to 100 characters. The slash is deleted by
 the character filter, the space survives it: "My Photo.jpg" becomes "My ".
 */
module Filenames {
  import opened Base

  /** `FILENAME_LENGTH_LIMIT`. */
  const LengthLimit: nat := 100

  /** `File.separatorChar` on Android. */
  const Separator: char := '/'

  /** Membership in the character class of `FILENAME_REGEX`, the complement of
      which the regex deletes. */
  predicate Allowed(c: char) {
    || 'a' <= c <= 'z'
    || 'A' <= c <= 'Z'
    || '0' <= c <= '9'
    || c == 'æ' || c == 'ø' || c == 'å' || c == 'Æ' || c == 'Ø' || c == 'Å'
    || c == '_' || c == ' ' || c == '-'
  }

  /** What the sanitiser promises of every name it returns. */
  predicate Sanitised(name: string) {
    && |name| <= LengthLimit
    && (forall i :: 0 <= i < |name| ==> Allowed(name[i]))
    && (forall i :: 0 <= i < |name| && name[i] == ' ' ==> i == |name| - 1)
  }

  /** Index of the first occurrence of `c` in `s` (Kotlin `indexOf`). */
  function IndexOf(s: string, c: char): (r: Option<nat>)
    ensures r.None? <==> c !in s
    ensures r.Some? ==> r.value < |s| && s[r.value] == c && c !in s[..r.value]
  {
    if |s| == 0 then None
    else if s[0] == c then Some(0)
    else
      match IndexOf(s[1..], c)
      case None => None
      case Some(i) =>
        assert s[..i + 1] == [s[0]] + s[1..][..i];
        Some(i + 1)
  }

  /** Index of the last occurrence of `c` in `s` (Kotlin `lastIndexOf`). */
  function LastIndexOf(s: string, c: char): (r: Option<nat>)
    ensures r.None? <==> c !in s
    ensures r.Some? ==> r.value < |s| && s[r.value] == c && c !in s[r.value + 1..]
  {
    if |s| == 0 then None
    else if s[|s| - 1] == c then Some(|s| - 1)
    else
      var init := s[..|s| - 1];
      assert s == init + [s[|s| - 1]];
      match LastIndexOf(init, c)
      case None => None
      case Some(i) =>
        assert s[i + 1..] == init[i + 1..] + [s[|s| - 1]];
        Some(i)
  }

  /** Kotlin `s.replaceBeforeLast(delimiter, "")`: the result starts at the
      last delimiter, or is `s` itself when there is none. */
  function ReplaceBeforeLast(s: string, delimiter: char): (r: string)
    ensures delimiter !in s ==> r == s
    ensures delimiter in s ==> |r| > 0 && r[0] == delimiter && delimiter !in r[1..]
    ensures delimiter in s ==> exists i :: 0 <= i < |s| && s[i..] == r
  {
    match LastIndexOf(s, delimiter)
    case None => s
    case Some(i) => s[i..]
  }

  /** Kotlin `s.replaceAfter(delimiter, "")`: the result ends at the first
      delimiter, or is `s` itself when there is none. */
  function ReplaceAfter(s: string, delimiter: char): (r: string)
    ensures delimiter !in s ==> r == s
    ensures delimiter in s ==> |r| > 0 && r[|r| - 1] == delimiter && delimiter !in r[..|r| - 1]
    ensures delimiter in s ==> exists j :: 0 < j <= |s| && s[..j] == r
  {
    match IndexOf(s, delimiter)
    case None => s
    case Some(i) => s[..i + 1]
  }

  /** `replace(Regex(FILENAME_REGEX), "")`: every character outside the
      allowed class is deleted, the others keep their order. */
  function StripDisallowed(s: string): (r: string)
    ensures |r| <= |s|
    ensures forall i :: 0 <= i < |r| ==> Allowed(r[i])
    ensures (forall i :: 0 <= i < |s| ==> Allowed(s[i])) ==> r == s
    ensures forall c {:trigger multiset(r)[c]} :: Allowed(c) ==> multiset(r)[c] == multiset(s)[c]
  {
    if |s| == 0 then []
    else
      assert s == [s[0]] + s[1..];
      if Allowed(s[0]) then [s[0]] + StripDisallowed(s[1..])
      else StripDisallowed(s[1..])
  }

  /** The `substring(0, FILENAME_LENGTH_LIMIT)` applied to longer names. */
  function Truncate(s: string, limit: nat): (r: string)
    ensures |r| <= limit
    ensures |s| <= limit ==> r == s
    ensures |s| > limit ==> r == s[..limit]
  {
    if |s| > limit then s[..limit] else s
  }

  /** `getFilename(String)`. */
  function GetFilename(s: string): (r: string)
    ensures Sanitised(r)
    ensures '/' !in r && '.' !in r
  {
    var afterSlash := ReplaceBeforeLast(s, '/');
    var firstWord := ReplaceAfter(afterSlash, ' ');
    var stripped := StripDisallowed(firstWord);
    SpaceStaysLast(firstWord);
    Truncate(stripped, LengthLimit)
  }

  /** A string whose only space, if any, is its last character keeps that
      shape through the character filter. */
  lemma {:induction false} SpaceStaysLast(s: string)
    requires forall i :: 0 <= i < |s| && s[i] == ' ' ==> i == |s| - 1
    ensures forall i :: 0 <= i < |StripDisallowed(s)| && StripDisallowed(s)[i] == ' ' ==> i == |StripDisallowed(s)| - 1
  {
    if |s| > 0 {
      var tail := s[1..];
      assert forall i :: 0 <= i < |tail| && tail[i] == ' ' ==> i == |tail| - 1 by {
        forall i | 0 <= i < |tail| && tail[i] == ' '
          ensures i == |tail| - 1
        {
          assert s[i + 1] == ' ';
        }
      }
      SpaceStaysLast(tail);
      if Allowed(s[0]) && s[0] == ' ' {
        assert |s| == 1;
      }
    }
  }

  /** Sanitising an already sanitised name changes nothing, so applying
      `getFilename` twice is the same as applying it once. */
  lemma GetFilenameIdempotent(s: string)
    ensures GetFilename(GetFilename(s)) == GetFilename(s)
  {
    var r := GetFilename(s);
    assert '/' !in r;
    assert ReplaceBeforeLast(r, '/') == r;
    if ' ' in r {
      var i :| 0 <= i < |r| && r[i] == ' ';
      assert i == |r| - 1;
      assert IndexOf(r, ' ') == Some(|r| - 1);
      assert r[..|r|] == r;
    }
    assert ReplaceAfter(r, ' ') == r;
    assert StripDisallowed(r) == r;
  }

  /** Everything up to and including the last slash is dropped. */
  lemma GetFilenameDropsDirectory(dir: string, name: string)
    requires '/' !in name
    ensures GetFilename(dir + "/" + name) == GetFilename(name)
  {
    var s := dir + "/" + name;
    assert s[|dir|] == '/';
    assert s[|dir| + 1..] == name;
    LastIndexOfAt(s, '/', |dir|);
    assert ReplaceBeforeLast(s, '/') == "/" + name;
    assert ReplaceBeforeLast(name, '/') == name;
    ReplaceAfterCons('/', name);
    var firstWord := ReplaceAfter(name, ' ');
    assert ("/" + firstWord)[1..] == firstWord;
    assert StripDisallowed("/" + firstWord) == StripDisallowed(firstWord);
  }

  /** A leading non-space character does not move the first space. */
  lemma ReplaceAfterCons(c: char, t: string)
    requires c != ' '
    ensures ReplaceAfter([c] + t, ' ') == [c] + ReplaceAfter(t, ' ')
  {
    var s := [c] + t;
    assert s[1..] == t;
    if ' ' in t {
      var j := IndexOf(t, ' ').value;
      assert s[..j + 1] == [c] + t[..j];
      IndexOfAt(s, ' ', j + 1);
      assert s[..j + 2] == [c] + t[..j + 1];
    } else {
      assert ' ' !in s;
    }
  }

  /** The last occurrence of `c` is at `k` when `c` is at `k` and not after it. */
  lemma LastIndexOfAt(s: string, c: char, k: nat)
    requires k < |s| && s[k] == c && c !in s[k + 1..]
    ensures LastIndexOf(s, c) == Some(k)
  {
    var i := LastIndexOf(s, c).value;
  }

  /** The first occurrence of `c` is at `k` when `c` is at `k` and not before it. */
  lemma IndexOfAt(s: string, c: char, k: nat)
    requires k < |s| && s[k] == c && c !in s[..k]
    ensures IndexOf(s, c) == Some(k)
  {
    var i := IndexOf(s, c).value;
  }

  /** Everything after the first space is dropped (the space itself is kept). */
  lemma GetFilenameDropsAfterSpace(word: string, rest: string)
    requires ' ' !in word && '/' !in word && '/' !in rest
    ensures GetFilename(word + " " + rest) == Truncate(StripDisallowed(word) + " ", LengthLimit)
  {
    var w := word + " ";
    var s := w + rest;
    assert ReplaceBeforeLast(s, '/') == s by {
      assert '/' !in " ";
      assert '/' !in w;
    }
    assert ReplaceAfter(s, ' ') == w by {
      assert s[..|word|] == word;
      IndexOfAt(s, ' ', |word|);
      assert s[..|word| + 1] == w;
    }
    assert StripDisallowed(w) == StripDisallowed(word) + " " by {
      StripAppend(word, " ");
    }
    assert GetFilename(s) == Truncate(StripDisallowed(w), LengthLimit);
  }

  lemma {:induction false} StripAppend(a: string, b: string)
    ensures StripDisallowed(a + b) == StripDisallowed(a) + StripDisallowed(b)
  {
    if |a| == 0 {
      assert a + b == b;
    } else {
      assert (a + b)[1..] == a[1..] + b;
      StripAppend(a[1..], b);
    }
  }

  /** A short first word of allowed characters is kept with its trailing
      space, and what follows the space is lost, extension included: "My
      Photo.jpg" becomes "My ". */
  lemma GetFilenameKeepsFirstWord(word: string, rest: string)
    requires |word| < LengthLimit && forall i :: 0 <= i < |word| ==> Allowed(word[i]) && word[i] != ' '
    requires '/' !in rest
    ensures GetFilename(word + " " + rest) == word + " "
  {
    assert '/' !in word by {
      forall i | 0 <= i < |word| ensures word[i] != '/' {
        assert Allowed(word[i]);
      }
    }
    GetFilenameDropsAfterSpace(word, rest);
  }

  /** A name without slash or space only loses its disallowed characters
      (the dot of an extension among them). */
  lemma GetFilenamePlain(name: string)
    requires '/' !in name && ' ' !in name
    ensures GetFilename(name) == Truncate(StripDisallowed(name), LengthLimit)
  {
    assert ReplaceBeforeLast(name, '/') == name;
    assert ReplaceAfter(name, ' ') == name;
  }

  /** What the content resolver's `DISPLAY_NAME` query yields: a uri is in the
      map when the query returns a cursor with a first row. */
  type DisplayNames = map<Uri, string>

  /** `getFilename(uri)` does not throw: either the display name is found or
      the last path segment is not null. */
  predicate NameResolves(names: DisplayNames, uri: Uri) {
    (uri.scheme == "content" && uri in names) || uri.lastPathSegment.Some?
  }

  /** `getFilename(Uri)`: a `content:` reference with a display name is
      named after it, anything else after its last path segment. */
  function GetUriFilename(names: DisplayNames, uri: Uri): (r: string)
    requires NameResolves(names, uri)
    ensures Sanitised(r)
    ensures uri.scheme == "content" && uri in names ==> r == GetFilename(names[uri])
    ensures !(uri.scheme == "content" && uri in names) ==> r == GetFilename(uri.lastPathSegment.value)
  {
    if uri.scheme == "content" && uri in names then GetFilename(names[uri])
    else GetFilename(uri.lastPathSegment.value)
  }

  /** `safeAddPath`: with a location set, a filename not already under it is
      placed under it; otherwise the filename is used as it is. */
  function SafeAddPath(location: Option<string>, filename: string): (r: string)
    ensures location.None? ==> r == filename
    ensures location.Some? ==> StartsWith(r, location.value)
    ensures location.Some? && StartsWith(filename, location.value) ==> r == filename
    ensures location.Some? && !StartsWith(filename, location.value) ==> r == location.value + [Separator] + filename
  {
    match location
    case None => filename
    case Some(loc) =>
      if !StartsWith(filename, loc) then
        var joined := loc + [Separator] + filename;
        assert joined[..|loc|] == loc;
        joined
      else filename
  }

  /** Joining twice is joining once. */
  lemma SafeAddPathIdempotent(location: Option<string>, filename: string)
    ensures SafeAddPath(location, SafeAddPath(location, filename)) == SafeAddPath(location, filename)
  {
  }

  /** A name produced by `getFilename` never looks like it is already under a
      location that contains a slash, so it is always joined to it. */
  lemma SanitisedNameIsJoined(location: string, filename: string)
    requires '/' in location
    requires Sanitised(filename)
    ensures SafeAddPath(Some(location), filename) == location + [Separator] + filename
  {
    assert '/' !in filename;
    if |location| <= |filename| {
      assert '/' !in filename[..|location|];
    }
  }
}
