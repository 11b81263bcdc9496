/**
 * The url tests both dispatchers are made of. `url.find(prefix) == 0` holds
 * exactly when the url starts with `prefix`, so the routes are stated as
 * prefix and equality tests on the url.
 */
module Routes {
  import opened Wrappers
  import opened Strings

  const FILES_PREFIX: string := "/files/"
  const ECHO_PREFIX: string := "/echo/"
  const USER_AGENT_PATH: string := "/user-agent"
  const ROOT_PATH: string := "/"
  const INDEX_PATH: string := "/index.html"

  /** The two methods the servers tell apart. */
  const GET: string := "GET"
  const POST: string := "POST"

  /** `url.find(prefix) == 0`: the first occurrence is at the start. */
  predicate FoundAtStart(url: string, prefix: string) {
    Find(url, prefix, 0) == Some(0)
  }

  /** A search finds `prefix` at position 0 exactly when `s` starts with it. */
  lemma FoundAtStartIsPrefix(s: string, prefix: string)
    ensures FoundAtStart(s, prefix) <==> StartsWith(s, prefix)
  {
    if StartsWith(s, prefix) {
      assert OccursAt(s, prefix, 0);
      FirstOccurrence(s, prefix, 0, 0);
    }
  }

  predicate IsFilesUrl(url: string) {
    StartsWith(url, FILES_PREFIX)
  }

  predicate IsRootUrl(url: string) {
    url == ROOT_PATH || url == INDEX_PATH
  }

  predicate IsEchoUrl(url: string) {
    StartsWith(url, ECHO_PREFIX)
  }

  /** `url.substr(6)` on an echo url: what follows `/echo/`. */
  function EchoText(url: string): (text: string)
    requires IsEchoUrl(url)
    ensures url == ECHO_PREFIX + text
  {
    url[|ECHO_PREFIX|..]
  }

  /** `url.substr(7)` on a files url: what follows `/files/`. */
  function FileName(url: string): (name: string)
    requires IsFilesUrl(url)
    ensures url == FILES_PREFIX + name
  {
    url[|FILES_PREFIX|..]
  }

  /** The four kinds of url the dispatchers tell apart never overlap, so the
      order in which the dispatchers test them does not decide which one a
      url belongs to. */
  lemma RoutesDisjoint(url: string)
    ensures !(IsFilesUrl(url) && IsRootUrl(url))
    ensures !(IsFilesUrl(url) && IsEchoUrl(url))
    ensures !(IsFilesUrl(url) && url == USER_AGENT_PATH)
    ensures !(IsRootUrl(url) && IsEchoUrl(url))
    ensures !(IsEchoUrl(url) && url == USER_AGENT_PATH)
  {
    if IsFilesUrl(url) { assert url[1] == FILES_PREFIX[1] == 'f'; }
    if IsEchoUrl(url) { assert url[1] == ECHO_PREFIX[1] == 'e'; }
  }
}
