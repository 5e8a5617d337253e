/**
 * The key the collector deduplicates packages by: `uniqueGitPath` followed by
 * `strings.ToLower` (package-collector.go lines 215 and 368-373).
 */
module GitKey {
  import opened GoStrings

  const GithubPrefix := "https://github.com"
  const GitSuffix := ".git"

  /** Only a URL that starts with the GitHub prefix (case-sensitively) and ends in `.git` loses that suffix. */
  function UniqueGitPath(uri: string): (r: string)
    ensures HasPrefix(uri, GithubPrefix) && HasSuffix(uri, GitSuffix) ==> r + GitSuffix == uri
    ensures !(HasPrefix(uri, GithubPrefix) && HasSuffix(uri, GitSuffix)) ==> r == uri
  {
    if HasPrefix(uri, GithubPrefix) && HasSuffix(uri, GitSuffix) then uri[..|uri| - 4] else uri
  }

  /** The map key of a record with repository URL `uri`. */
  function CanonicalKey(uri: string): (r: string)
    ensures IsLower(r)
    ensures HasPrefix(uri, GithubPrefix) && HasSuffix(uri, GitSuffix) ==> |r| == |uri| - 4
    ensures !(HasPrefix(uri, GithubPrefix) && HasSuffix(uri, GitSuffix)) ==> |r| == |uri|
  {
    ToLowerIsLower(UniqueGitPath(uri));
    ToLower(UniqueGitPath(uri))
  }

  /** A GitHub URL with and without `.git` names the same package. */
  lemma {:induction false} GitSuffixSameKey(uri: string)
    requires HasPrefix(uri, GithubPrefix) && !HasSuffix(uri, GitSuffix)
    ensures CanonicalKey(uri + GitSuffix) == CanonicalKey(uri)
  {
    var u := uri + GitSuffix;
    assert u[..|GithubPrefix|] == uri[..|GithubPrefix|];
    assert u[|u| - 4..] == GitSuffix;
    assert u[..|u| - 4] == uri;
  }

  /** Only the empty URL has the empty key: stripping needs the 18-character prefix. */
  lemma EmptyKeyIffEmptyUrl(uri: string)
    ensures CanonicalKey(uri) == "" <==> uri == ""
  {
  }

  /** The key is always lower-case, so lower-casing it again changes nothing. */
  lemma KeyIsLower(uri: string)
    ensures IsLower(CanonicalKey(uri))
    ensures ToLower(CanonicalKey(uri)) == CanonicalKey(uri)
  {
    ToLowerIdempotent(UniqueGitPath(uri));
  }

  /** The prefix test precedes lower-casing: under an upper-case host the key keeps `.git`. */
  lemma UpperCaseHostKeepsSuffix(path: string)
    requires HasSuffix(path, GitSuffix)
    ensures HasSuffix(CanonicalKey("HTTPS://GITHUB.COM" + path), GitSuffix)
  {
    var uri := "HTTPS://GITHUB.COM" + path;
    assert uri[0] != GithubPrefix[0];
    assert UniqueGitPath(uri) == uri;
    var key := CanonicalKey(uri);
    assert uri[|uri| - 4..] == path[|path| - 4..] == GitSuffix;
    assert key[|key| - 4..] == GitSuffix;
  }
}
