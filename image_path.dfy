/**
 * Path-string helpers used when images are pasted or dropped into the editor: separator
 * conversion, the directory part of a path, joining a directory and a name, and the
 * classification of a link target as an absolute file path or a web URL.
 */
module ImagePath {
  import opened Strings

  predicate IsSep(c: char) { c == '/' || c == '\\' }

  /** `toPosixPath`: every backslash becomes a slash, nothing else changes. */
  function ToPosixPath(p: string): (r: string)
    ensures |r| == |p| && '\\' !in r
    ensures forall i :: 0 <= i < |p| ==> r[i] == if p[i] == '\\' then '/' else p[i]
  {
    seq(|p|, i requires 0 <= i < |p| => if p[i] == '\\' then '/' else p[i])
  }

  /** A path already in POSIX form is left as it is, so converting twice is converting once. */
  lemma ToPosixPathFixed(p: string)
    ensures '\\' !in p ==> ToPosixPath(p) == p
    ensures ToPosixPath(ToPosixPath(p)) == ToPosixPath(p)
  {
  }

  /** `Math.max(lastIndexOf('/'), lastIndexOf('\\'))`: the last separator of either kind. */
  function LastSeparator(p: string): (r: int)
    ensures -1 <= r < |p|
    ensures r == -1 <==> forall i :: 0 <= i < |p| ==> !IsSep(p[i])
    ensures r >= 0 ==> IsSep(p[r]) && forall j :: r < j < |p| ==> !IsSep(p[j])
  {
    var a := LastIndexOf(p, '/');
    var b := LastIndexOf(p, '\\');
    AbsentAfter(p, a, '/');
    AbsentAfter(p, b, '\\');
    if a >= b then a else b
  }

  /** What `lastIndexOf` promises, as a statement about positions. */
  lemma AbsentAfter(p: string, a: int, c: char)
    requires a == LastIndexOf(p, c)
    ensures forall j :: a < j < |p| ==> p[j] != c
  {
    if a >= 0 {
      var q := p[a + 1..];
      assert c !in q;
      forall j | a < j < |p| ensures p[j] != c {
        assert p[j] == q[j - a - 1];
      }
    } else {
      assert c !in p;
    }
  }

  /** `getDirectoryPath`: the text before the last separator; a separator at index 0 is kept
    * as the directory itself, and a path without separators has an empty directory. */
  function GetDirectoryPath(p: string): (r: string)
    ensures StartsWith(p, r)
    ensures r == [] <==> LastSeparator(p) == -1
    ensures r != [] ==> (|r| < |p| && IsSep(p[|r|])) || (r == p[..1] && IsSep(p[0]))
    ensures forall j :: |r| < j < |p| ==> !IsSep(p[j])
  {
    var slash := LastSeparator(p);
    if slash == -1 then ""
    else if slash == 0 then p[..1]
    else p[..slash]
  }

  /** `joinPath`: the directory, one separator unless the directory already ends in one,
    * then the name; the separator is a backslash exactly when the directory holds one. */
  function JoinPath(dir: string, name: string): (r: string)
    ensures dir == [] ==> r == name
    ensures dir != [] ==> StartsWith(r, dir) && EndsWith(r, name)
    ensures dir != [] ==> |r| == |dir| + |name| + (if IsSep(dir[|dir| - 1]) then 0 else 1)
    ensures dir != [] && !IsSep(dir[|dir| - 1]) ==> r[|dir|] == if '\\' in dir then '\\' else '/'
  {
    if dir == [] then name
    else
      var separator := if '\\' in dir then "\\" else "/";
      var needsSeparator := !EndsWith(dir, "/") && !EndsWith(dir, "\\");
      assert EndsWith(dir, "/") <==> dir[|dir| - 1] == '/';
      assert EndsWith(dir, "\\") <==> dir[|dir| - 1] == '\\';
      dir + (if needsSeparator then separator else "") + name
  }

  /** Splitting a slash-separated path at its last separator and joining the parts again
    * gives the path back, unless the directory part itself ends in a slash. */
  lemma DirectoryJoinRoundTrip(p: string)
    requires '\\' !in p
    requires LastSeparator(p) > 0 ==> p[LastSeparator(p) - 1] != '/'
    ensures JoinPath(GetDirectoryPath(p), p[LastSeparator(p) + 1..]) == p
  {
    var k := LastSeparator(p);
    var dir := GetDirectoryPath(p);
    if k > 0 {
      assert dir == p[..k] && dir[|dir| - 1] == p[k - 1];
      assert '\\' !in dir by { assert forall c :: c in dir ==> c in p; }
      assert p[k] == '/';
      assert p == p[..k] + [p[k]] + p[k + 1..];
    } else if k == 0 {
      assert p == p[..1] + p[1..];
    }
  }

  /** For any path, splitting at the last separator and joining again gives the path back
    * exactly when the last separator is absent or at index 0, or the character before it is
    * no separator and it is the separator `joinPath` picks (a backslash exactly when the
    * directory part holds one). So "a\\b" comes back as "a/b", and "a//b" as "a/b". */
  lemma DirectoryJoinIff(p: string)
    ensures var k := LastSeparator(p);
      JoinPath(GetDirectoryPath(p), p[k + 1..]) == p
      <==> k <= 0 || (!IsSep(p[k - 1]) && p[k] == (if '\\' in p[..k] then '\\' else '/'))
  {
    var k := LastSeparator(p);
    if k == 0 {
      assert p == p[..1] + p[1..];
    } else if k > 0 {
      JoinAt(p, k);
    }
  }

  /** Joining the text before index `k` with the text after it restores the path exactly
    * when index `k` holds the separator `joinPath` would insert there. */
  lemma JoinAt(p: string, k: int)
    requires 0 < k < |p|
    ensures JoinPath(p[..k], p[k + 1..]) == p
      <==> !IsSep(p[k - 1]) && p[k] == (if '\\' in p[..k] then '\\' else '/')
  {
    var dir, name := p[..k], p[k + 1..];
    assert dir[|dir| - 1] == p[k - 1];
    var j := JoinPath(dir, name);
    if !IsSep(p[k - 1]) {
      assert p == dir + [p[k]] + name;
      if j == p {
        assert j[k] == p[k];
      } else {
        assert j[..k] == p[..k] && j[k + 1..] == p[k + 1..];
        assert j == j[..k] + [j[k]] + j[k + 1..];
      }
    }
  }

  /** `isAbsoluteFilePath`: a leading slash, a UNC prefix, or a drive letter, a colon and a
    * separator. */
  predicate IsAbsoluteFilePath(p: string) {
    StartsWith(p, "/") || StartsWith(p, "\\\\")
    || (|p| >= 3 && IsAsciiLetter(p[0]) && p[1] == ':' && IsSep(p[2]))
  }

  predicate IsSchemeChar(c: char) { IsAsciiLetter(c) || IsDigit(c) || c == '+' || c == '.' || c == '-' }

  /** `/^[a-zA-Z][a-zA-Z\d+.-]*:/`: a letter, scheme characters, then a colon at index `k`. */
  predicate HasSchemeColonAt(v: string, k: int) {
    1 <= k < |v| && IsAsciiLetter(v[0]) && v[k] == ':' && forall j :: 1 <= j < k ==> IsSchemeChar(v[j])
  }

  predicate HasScheme(v: string) {
    exists k :: 1 <= k < |v| && HasSchemeColonAt(v, k)
  }

  /** `isWebUrl`: not an absolute file path, and either a URL scheme or a `//` prefix. */
  predicate IsWebUrl(v: string) {
    !IsAbsoluteFilePath(v) && (HasScheme(v) || StartsWith(v, "//"))
  }

  /** A drive path matches the scheme pattern (its letter and colon), yet the absolute-path
    * test runs first and keeps it from being taken for a URL. */
  lemma DrivePathIsNotWebUrl(letter: char, sep: char, rest: string)
    requires IsAsciiLetter(letter) && IsSep(sep)
    ensures var v := [letter, ':', sep] + rest;
      HasScheme(v) && IsAbsoluteFilePath(v) && !IsWebUrl(v)
  {
    var v := [letter, ':', sep] + rest;
    assert HasSchemeColonAt(v, 1);
  }

  /** Every text with a `//` prefix also starts with `/`, so it is classified as an absolute
    * file path: the protocol-relative branch of `isWebUrl` never decides anything. */
  lemma ProtocolRelativeIsFilePath(v: string)
    requires StartsWith(v, "//")
    ensures IsAbsoluteFilePath(v) && !IsWebUrl(v)
  {
    assert v[..1] == v[..2][..1];
  }

  /** A URL with a scheme of two or more characters, such as `https://host/x`, is a web URL
    * (a one-letter scheme followed by a separator is a drive path instead). */
  lemma SchemeUrlIsWebUrl(scheme: string, rest: string)
    requires |scheme| >= 2 && IsAsciiLetter(scheme[0])
    requires forall j :: 1 <= j < |scheme| ==> IsSchemeChar(scheme[j])
    ensures IsWebUrl(scheme + ":" + rest)
  {
    var v := scheme + ":" + rest;
    assert HasSchemeColonAt(v, |scheme|);
    assert v[0] == scheme[0] && v[1] == scheme[1];
    assert v[..1] != "/" && v[..2] != "\\\\";
  }

  /** `normalizeMarkdownUrl`: trim, drop one enclosing `<`…`>` pair, trim again. */
  function NormalizeMarkdownUrl(url: string): (r: string)
    ensures Trim(r) == r
    ensures |r| <= |url|
  {
    var trimmed := Trim(url);
    TrimTwice(url);
    if StartsWith(trimmed, "<") && EndsWith(trimmed, ">") then Unbracket(trimmed)
    else trimmed
  }

  /** The trimmed inside of a text that starts with `<` and ends with `>`. */
  function Unbracket(t: string): (r: string)
    requires StartsWith(t, "<") && EndsWith(t, ">")
    ensures Trim(r) == r
    ensures |r| + 2 <= |t|
  {
    assert t[0] == '<' && t[|t| - 1] == '>';
    assert |t| >= 2;
    var inner := t[1..|t| - 1];
    assert |inner| + 2 == |t|;
    TrimTwice(inner);
    Trim(inner)
  }

  /** A URL in angle brackets comes out as its trimmed inside. */
  lemma NormalizeBracketed(u: string)
    ensures NormalizeMarkdownUrl("<" + u + ">") == Trim(u)
  {
    var v := "<" + u + ">";
    assert v[0] == '<' && v[|v| - 1] == '>';
    assert StartsWith(v, "<") by { assert v[..1] == "<"; }
    assert EndsWith(v, ">") by { assert v[|v| - 1..] == ">"; }
    assert v[1..|v| - 1] == u;
    TrimOfTrimmed(v);
    NormalizeOfTrimmed(v, v);
  }

  /** Once the trimmed text is known, normalising is unbracketing or nothing. */
  lemma NormalizeOfTrimmed(url: string, t: string)
    requires t == Trim(url) && StartsWith(t, "<") && EndsWith(t, ">")
    ensures NormalizeMarkdownUrl(url) == Unbracket(t)
  {
  }

  /** A trimmed URL not wrapped in angle brackets is returned unchanged. */
  lemma NormalizeBare(u: string)
    requires Trim(u) == u && !(StartsWith(u, "<") && EndsWith(u, ">"))
    ensures NormalizeMarkdownUrl(u) == u
  {
  }
}
