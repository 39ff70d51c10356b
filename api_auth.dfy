/**
 * The base authentication template of the Basic-authentication API
 * (`api/v1/auth/auth.py`): the path-exclusion gate `require_auth` and the two
 * placeholders that later schemes override.
 */
module ApiAuth {
  import opened Wrappers

  /** A path with a trailing '/' appended unless its last character already is one. */
  function Normalize(s: string): (r: string)
    ensures |r| > 0 && r[|r| - 1] == '/'
    ensures r == s || r == s + "/"
    ensures |s| > 0 && s[|s| - 1] == '/' ==> r == s
  {
    if |s| > 0 && s[|s| - 1] == '/' then s else s + "/"
  }

  /** Some entry of `excluded` names the same normalized path as `path`. */
  predicate Excluded(path: string, excluded: seq<string>)
  {
    exists e :: e in excluded && Normalize(e) == Normalize(path)
  }

  /**
   * What `require_auth` demands of its caller so that no `[-1]` is taken on an
   * empty string: when the loop runs, the path is non-empty and every empty
   * entry comes after an entry that already matched (the loop returns first).
   */
  predicate NoIndexError(path: Option<string>, excludedPaths: Option<seq<string>>)
  {
    path.None? || excludedPaths.None? || |excludedPaths.value| == 0 ||
    (|path.value| > 0 &&
     forall i :: 0 <= i < |excludedPaths.value| && excludedPaths.value[i] == "" ==>
       Excluded(path.value, excludedPaths.value[..i]))
  }

  /**
   * Specification of `require_auth`: authentication is required unless both
   * arguments are present, the exclusion list is non-empty and some entry
   * matches the path after both are normalized.
   */
  predicate AuthRequired(path: Option<string>, excludedPaths: Option<seq<string>>)
  {
    path.None? || excludedPaths.None? || |excludedPaths.value| == 0 ||
    !Excluded(path.value, excludedPaths.value)
  }

  /** `Auth.require_auth`: the early return, the normalization of the path and the scan of the entries. */
  method RequireAuth(path: Option<string>, excludedPaths: Option<seq<string>>) returns (required: bool)
    requires NoIndexError(path, excludedPaths)
    ensures path.None? || excludedPaths.None? || excludedPaths == Some([]) ==> required
    ensures required == AuthRequired(path, excludedPaths)
  {
    if path.None? || excludedPaths.None? || |excludedPaths.value| == 0 {
      return true;
    }
    var p := path.value;
    var entries := excludedPaths.value;
    if p[|p| - 1] != '/' {
      p := p + "/";
    }
    for i := 0 to |entries|
      invariant p == Normalize(path.value)
      invariant forall j :: 0 <= j < i ==> Normalize(entries[j]) != p
    {
      var e := entries[i];
      if e == "" {
        NoMatchInPrefix(path.value, entries, i);
        assert false;
      }
      if e[|e| - 1] != '/' {
        e := e + "/";
      }
      if p == e {
        assert entries[i] in entries;
        return false;
      }
    }
    return true;
  }

  /** An exclusion prefix none of whose entries matches does not exclude the path. */
  lemma NoMatchInPrefix(path: string, entries: seq<string>, i: nat)
    requires i <= |entries|
    requires forall j :: 0 <= j < i ==> Normalize(entries[j]) != Normalize(path)
    ensures !Excluded(path, entries[..i])
  {
  }

  /** Appending the missing trailing '/' to the path does not change the decision. */
  lemma TrailingSlashOnPath(path: string, excludedPaths: seq<string>)
    requires |path| > 0 && path[|path| - 1] != '/'
    ensures AuthRequired(Some(path), Some(excludedPaths)) == AuthRequired(Some(path + "/"), Some(excludedPaths))
  {
  }

  /** Writing an exclusion entry with or without its trailing '/' does not change the decision. */
  lemma TrailingSlashOnEntry(path: string, excludedPaths: seq<string>, i: nat)
    requires i < |excludedPaths| && |excludedPaths[i]| > 0
    requires excludedPaths[i][|excludedPaths[i]| - 1] != '/'
    ensures AuthRequired(Some(path), Some(excludedPaths)) ==
            AuthRequired(Some(path), Some(excludedPaths[i := excludedPaths[i] + "/"]))
  {
    var e := excludedPaths[i];
    var other := excludedPaths[i := e + "/"];
    assert Normalize(e + "/") == Normalize(e);
    if Excluded(path, excludedPaths) {
      var w :| w in excludedPaths && Normalize(w) == Normalize(path);
      var j :| 0 <= j < |excludedPaths| && excludedPaths[j] == w;
      if j == i {
        assert other[i] in other;
      } else {
        assert other[j] in other;
      }
    }
    if Excluded(path, other) {
      var w :| w in other && Normalize(w) == Normalize(path);
      var j :| 0 <= j < |other| && other[j] == w;
      if j == i {
        assert excludedPaths[i] in excludedPaths;
      } else {
        assert excludedPaths[j] in excludedPaths;
      }
    }
  }

  /** The decision depends on the exclusion entries, not on the order they are listed in. */
  lemma OrderIrrelevant(path: Option<string>, excludedPaths: seq<string>, reordered: seq<string>)
    requires multiset(excludedPaths) == multiset(reordered)
    ensures AuthRequired(path, Some(excludedPaths)) == AuthRequired(path, Some(reordered))
  {
    assert |excludedPaths| == |multiset(excludedPaths)| == |reordered|;
    forall e ensures e in excludedPaths <==> e in reordered {
      assert e in excludedPaths <==> e in multiset(excludedPaths);
      assert e in reordered <==> e in multiset(reordered);
    }
  }

  /** Adding exclusion entries can lift the requirement but never impose it. */
  lemma MoreExclusionsNeverRequire(path: Option<string>, excludedPaths: seq<string>, more: seq<string>)
    requires forall e :: e in excludedPaths ==> e in more
    requires !AuthRequired(path, Some(excludedPaths))
    ensures !AuthRequired(path, Some(more))
  {
  }

  /** `Auth.authorization_header`: the template reads no header and always answers `None`. */
  function AuthorizationHeader<Request>(request: Option<Request>): (header: Option<string>)
    ensures header == None
  {
    None
  }

  /** `Auth.current_user`: the template identifies nobody and always answers `None`. */
  function CurrentUser<Request, User>(request: Option<Request>): (user: Option<User>)
    ensures user == None
  {
    None
  }
}
