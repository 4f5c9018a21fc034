/** Paths (split_path_filename of directory.c), cut into tokens at their slashes as strtok_r does. */
module Paths {
  import opened Directories

  /** How far the token that starts S reaches. */
  function TokenEnd(s: Name): (k: nat)
    ensures k <= |s| && SLASH !in s[..k] && (k < |s| ==> s[k] == SLASH)
  {
    if s == [] || s[0] == SLASH then 0 else 1 + TokenEnd(s[1..])
  }

  /** The tokens of S: the longest stretches without a slash. */
  function Tokens(s: Name): seq<Name>
    decreases |s|
  {
    if s == [] then []
    else if s[0] == SLASH then Tokens(s[1..])
    else [s[..TokenEnd(s)]] + Tokens(s[TokenEnd(s)..])
  }

  /** The last token, or nothing. */
  function LastName(path: Name): Name {
    var tokens := Tokens(path);
    if tokens == [] then [] else tokens[|tokens| - 1]
  }

  /** The tokens before it. */
  function Folders(path: Name): seq<Name> {
    var tokens := Tokens(path);
    if tokens == [] then [] else tokens[..|tokens| - 1]
  }

  lemma {:induction false} TokensAreNames(s: Name)
    ensures forall i :: 0 <= i < |Tokens(s)| ==> Tokens(s)[i] != [] && SLASH !in Tokens(s)[i]
    ensures 0 !in s ==> forall i :: 0 <= i < |Tokens(s)| ==> 0 !in Tokens(s)[i]
    decreases |s|
  {
    if s != [] {
      TokensAreNames(if s[0] == SLASH then s[1..] else s[TokenEnd(s)..]);
    }
  }

  /** A path without a slash is the name itself. */
  lemma {:induction false} NameIsToken(name: Name)
    requires SLASH !in name
    ensures Tokens(name) == (if name == [] then [] else [name]) && LastName(name) == name && Folders(name) == []
  {
    if name != [] {
      var k := TokenEnd(name);
      assert k == |name|;
      assert name[..k] == name && name[k..] == [];
    }
  }

  lemma LastIsName(path: Name)
    requires 0 !in path
    ensures 0 !in LastName(path) && SLASH !in LastName(path)
  {
    TokensAreNames(path);
  }

  /** The end of a token that a slash or the end of the string follows. */
  lemma {:induction false} TokenEndIs(t: Name, rest: Name)
    requires SLASH !in t && (rest == [] || rest[0] == SLASH)
    ensures TokenEnd(t + rest) == |t|
  {
    if t != [] {
      assert (t + rest)[1..] == t[1..] + rest;
      TokenEndIs(t[1..], rest);
    } else {
      assert t + rest == rest;
    }
  }

  predicate Slashes(z: Name) { forall k :: 0 <= k < |z| ==> z[k] == SLASH }

  lemma {:induction false} SlashesHaveNoToken(z: Name)
    requires Slashes(z)
    ensures Tokens(z) == []
  {
    if z != [] {
      SlashesHaveNoToken(z[1..]);
    }
  }

  /** The path is D, T and Z in a row: T is its last name, only slashes follow it, and a slash precedes it
      unless it comes first. */
  predicate Ends(path: Name, d: Name, t: Name, z: Name) {
    path == d + t + z && (d == [] || d[|d| - 1] == SLASH) && t != [] && SLASH !in t && Slashes(z)
  }

  /** Such a path has the tokens of D, and then T. With the slashes alone this says what the tokens of any
      path are. */
  lemma {:induction false} TokensOfEnds(path: Name, d: Name, t: Name, z: Name)
    requires Ends(path, d, t, z)
    ensures Tokens(path) == Tokens(d) + [t] && LastName(path) == t && Folders(path) == Tokens(d)
    decreases |d|
  {
    if d == [] {
      TokenEndIs(t, z);
      assert path == t + z && path[..|t|] == t && path[|t|..] == z;
      SlashesHaveNoToken(z);
    } else if d[0] == SLASH {
      assert path[1..] == d[1..] + t + z;
      TokensOfEnds(path[1..], d[1..], t, z);
    } else {
      var k := TokenEnd(d);
      TokenEndIs(d[..k], d[k..] + t + z);
      assert path == d[..k] + (d[k..] + t + z);
      assert path[..k] == d[..k] && path[k..] == d[k..] + t + z;
      TokensOfEnds(path[k..], d[k..], t, z);
    }
    assert (Tokens(d) + [t])[..|Tokens(d)|] == Tokens(d);
  }

  ghost predicate HasEnd(path: Name) { exists d, t, z :: Ends(path, d, t, z) }

  /** Every path ends in a name or is nothing but slashes. */
  lemma {:induction false} EveryPathEnds(path: Name)
    ensures Slashes(path) || HasEnd(path)
  {
    if !Slashes(path) {
      LastSlashes(path);
      var i: nat :| 0 < i <= |path| && path[i - 1] != SLASH && Slashes(path[i..]);
      NameEndsAt(path, path[..i], i);
    }
  }

  lemma {:induction false} NameEndsAt(path: Name, s: Name, i: nat)
    requires 0 < i <= |path| && s == path[..i] && s[i - 1] != SLASH && Slashes(path[i..])
    ensures HasEnd(path)
  {
    LastStart(s);
    var h: nat :| h < i && SLASH !in s[h..] && (h == 0 || s[h - 1] == SLASH);
    EndsAt(path, h, i);
  }

  lemma EndsAt(path: Name, h: nat, i: nat)
    requires h < i <= |path| && SLASH !in path[..i][h..] && (h == 0 || path[..i][h - 1] == SLASH) && Slashes(path[i..])
    ensures HasEnd(path)
  {
    assert path[..i][h..] == path[h..i];
    assert path == path[..h] + path[h..i] + path[i..];
    assert Ends(path, path[..h], path[h..i], path[i..]);
  }

  lemma {:induction false} LastSlashes(path: Name)
    requires !Slashes(path)
    ensures exists i: nat :: 0 < i <= |path| && path[i - 1] != SLASH && Slashes(path[i..])
  {
    var last := |path| - 1;
    if path[last] != SLASH {
      assert Slashes(path[|path|..]);
    } else {
      LastSlashes(path[..last]);
      var i: nat :| 0 < i <= last && path[i - 1] != SLASH && Slashes(path[..last][i..]);
      assert path[i..] == path[..last][i..] + [SLASH];
    }
  }

  lemma {:induction false} LastStart(s: Name)
    requires s != [] && s[|s| - 1] != SLASH
    ensures exists h: nat :: h < |s| && SLASH !in s[h..] && (h == 0 || s[h - 1] == SLASH)
  {
    var last := |s| - 1;
    if last == 0 || s[last - 1] == SLASH {
      assert s[last..] == [s[last]];
    } else {
      LastStart(s[..last]);
      var h: nat :| h < last && SLASH !in s[..last][h..] && (h == 0 || s[h - 1] == SLASH);
      assert s[h..] == s[..last][h..] + [s[last]];
    }
  }

  /** A token and a slash put behind a directory's path make it one folder longer. */
  lemma {:induction false} OneMoreFolder(d: Name, t: Name)
    requires (d == [] || d[|d| - 1] == SLASH) && t != [] && SLASH !in t
    ensures Tokens(d + t + [SLASH]) == Tokens(d) + [t]
  {
    TokensOfEnds(d + t + [SLASH], d, t, [SLASH]);
  }

  /** strtok_r at the slashes of S: the next token, and what comes behind it. */
  method NextToken(s: Name) returns (more: bool, token: Name, rest: Name)
    ensures Tokens(s) == if more then [token] + Tokens(rest) else []
    ensures |rest| <= |s| && (more ==> |rest| < |s| && token != [] && SLASH !in token)
  {
    rest := s;
    while |rest| > 0 && rest[0] == SLASH
      invariant |rest| <= |s| && Tokens(rest) == Tokens(s)
      decreases |rest|
    {
      rest := rest[1..];
    }
    more, token := |rest| > 0, [];
    ghost var start := rest;
    while |rest| > 0 && rest[0] != SLASH
      invariant token + rest == start && SLASH !in token && |rest| <= |s|
      decreases |rest|
    {
      token, rest := token + [rest[0]], rest[1..];
    }
    TokenEndIs(token, rest);
    assert start[..|token|] == token && start[|token|..] == rest;
  }

  /** After the tokens SEEN, the last one is FILENAME and DIRECTORY is the path of the others. */
  ghost predicate SplitInto(seen: seq<Name>, directory: Name, fileName: Name) {
    && (directory == [] || directory[|directory| - 1] == SLASH)
    && if seen == [] then fileName == [] && Tokens(directory) == []
       else fileName != [] && SLASH !in fileName && Tokens(directory) + [fileName] == seen
  }

  lemma SplitMore(seen: seq<Name>, directory: Name, fileName: Name, token: Name)
    requires SplitInto(seen, directory, fileName) && token != [] && SLASH !in token
    ensures SplitInto(seen + [token], if |fileName| > 0 then directory + fileName + [SLASH] else directory, token)
  {
    if |fileName| > 0 {
      OneMoreFolder(directory, fileName);
    }
  }

  lemma {:induction false} SplitEnd(path: Name, directory: Name, fileName: Name)
    requires SplitInto(Tokens(path), directory, fileName)
    ensures fileName == LastName(path) && Tokens(directory) == Folders(path)
  {
  }

  lemma TokensMove(seen: seq<Name>, token: Name, rest: seq<Name>)
    ensures seen + ([token] + rest) == (seen + [token]) + rest
  {
  }

  /** split_path_filename: the last name of the path, and the path of the folders before it. */
  method SplitPath(path: Name) returns (directory: Name, fileName: Name)
    ensures fileName == LastName(path) && Tokens(directory) == Folders(path)
    ensures forall d, t, z :: Ends(path, d, t, z) ==> fileName == t && Tokens(directory) == Tokens(d)
    ensures Slashes(path) ==> fileName == [] && Tokens(directory) == []
  {
    directory := if |path| > 0 && path[0] == SLASH then [SLASH] else [];
    fileName := [];
    ghost var seen: seq<Name> := [];
    assert Tokens([SLASH]) == [];
    var more, token, rest := NextToken(path);
    while more
      invariant Tokens(path) == seen + (if more then [token] + Tokens(rest) else [])
      invariant more ==> token != [] && SLASH !in token
      invariant SplitInto(seen, directory, fileName)
      decreases |rest|, more
    {
      SplitMore(seen, directory, fileName, token);
      TokensMove(seen, token, Tokens(rest));
      if |fileName| > 0 {
        directory := directory + fileName + [SLASH];
      }
      fileName, seen := token, seen + [token];
      more, token, rest := NextToken(rest);
    }
    SplitEnd(path, directory, fileName);
    if Slashes(path) {
      SlashesHaveNoToken(path);
    }
    forall d, t, z | Ends(path, d, t, z)
      ensures fileName == t && Tokens(directory) == Tokens(d)
    {
      TokensOfEnds(path, d, t, z);
    }
  }
}
