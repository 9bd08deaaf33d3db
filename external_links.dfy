/**
 * `configurarLinksExternos`: every anchor whose `href` attribute starts with
 * "http" and whose host name does not contain the page's host name gets
 * `target="_blank"` and `rel="noopener noreferrer"`.
 *
 * The host test is `String.prototype.includes`, a substring test, not an
 * equality: a foreign host that happens to contain the page's host name is
 * left alone, and on a page whose host name is empty (a file opened from
 * disk) no link is rewritten at all.
 */
module ExternalLinks {

  datatype Option<T> = None | Some(value: T)

  /** One `<a>` element: its `href` attribute as written, the host name the
      browser parsed from it, and its `target` and `rel` attributes. */
  datatype Link = Link(href: string, hostname: string, target: Option<string>, rel: Option<string>)

  const NewTab: string := "_blank"
  const SafeRel: string := "noopener noreferrer"

  /** The attribute selector `[href^="http"]` (case-sensitive). */
  predicate StartsWith(s: string, prefix: string) {
    |prefix| <= |s| && s[..|prefix|] == prefix
  }

  /** `sub` occurs in `s` starting at index `i`. */
  predicate OccursAt(s: string, sub: string, i: int) {
    0 <= i <= |s| - |sub| && s[i..i + |sub|] == sub
  }

  /** `s.includes(sub)`: the search tries each start position in turn. */
  function Includes(s: string, sub: string): (r: bool)
    ensures r <==> exists i :: OccursAt(s, sub, i)
    decreases |s|
  {
    if StartsWith(s, sub) then
      assert OccursAt(s, sub, 0);
      true
    else if |s| <= |sub| then
      assert forall i :: OccursAt(s, sub, i) ==> i == 0;
      false
    else
      var r := Includes(s[1..], sub);
      assert !OccursAt(s, sub, 0);
      assert forall i | 1 <= i :: OccursAt(s, sub, i) ==> OccursAt(s[1..], sub, i - 1) by {
        forall i | 1 <= i && OccursAt(s, sub, i) ensures OccursAt(s[1..], sub, i - 1) {
          assert s[1..][i - 1..i - 1 + |sub|] == s[i..i + |sub|];
        }
      }
      assert forall j | 0 <= j :: OccursAt(s[1..], sub, j) ==> OccursAt(s, sub, j + 1) by {
        forall j | 0 <= j && OccursAt(s[1..], sub, j) ensures OccursAt(s, sub, j + 1) {
          assert s[1..][j..j + |sub|] == s[j + 1..j + 1 + |sub|];
        }
      }
      r
  }

  /** The links the rewriter changes. An external link has an `http` URL, and
      the page's host name is non-empty and not the link's own. */
  predicate IsExternal(l: Link, pageHostname: string): (r: bool)
    ensures r ==> StartsWith(l.href, "http") && pageHostname != "" && l.hostname != pageHostname
  {
    assert pageHostname == "" || l.hostname == pageHostname ==> OccursAt(l.hostname, pageHostname, 0);
    StartsWith(l.href, "http") && !Includes(l.hostname, pageHostname)
  }

  /** One turn of `links.forEach` (with the selector's filter folded in). It
      never touches the URL or the host name, so a rewritten link is still
      classified as it was. */
  function Configure(l: Link, pageHostname: string): (r: Link)
    ensures r.href == l.href && r.hostname == l.hostname
    ensures IsExternal(r, pageHostname) <==> IsExternal(l, pageHostname)
  {
    if IsExternal(l, pageHostname) then
      l.(target := Some(NewTab), rel := Some(SafeRel))
    else l
  }

  /** The anchors of the document in document order are updated in place. */
  method ConfigurarLinksExternos(links: array<Link>, pageHostname: string)
    modifies links
    ensures forall k :: 0 <= k < links.Length ==> links[k] == Configure(old(links[k]), pageHostname)
  {
    var i := 0;
    while i < links.Length
      invariant 0 <= i <= links.Length
      invariant forall k :: 0 <= k < i ==> links[k] == Configure(old(links[k]), pageHostname)
      invariant forall k :: i <= k < links.Length ==> links[k] == old(links[k])
    {
      var link := links[i];
      if StartsWith(link.href, "http") {
        if !Includes(link.hostname, pageHostname) {
          link := link.(target := Some(NewTab));
          link := link.(rel := Some(SafeRel));
          links[i] := link;
        }
      }
      i := i + 1;
    }
  }

  // ---------------------------------------------------------------------
  // What the rewrite does to one link
  // ---------------------------------------------------------------------

  /** A link is changed only if it is external; an external link ends up with
      exactly the two attributes; `href` and host name are never touched. */
  lemma ConfigureExact(l: Link, pageHostname: string)
    ensures var r := Configure(l, pageHostname);
      && r.href == l.href && r.hostname == l.hostname
      && (r != l ==> IsExternal(l, pageHostname))
      && (IsExternal(l, pageHostname) ==> r.target == Some(NewTab) && r.rel == Some(SafeRel))
      && (!IsExternal(l, pageHostname) ==> r == l)
  {
  }

  /** Rewriting twice is rewriting once. */
  lemma ConfigureIdempotent(l: Link, pageHostname: string)
    ensures Configure(Configure(l, pageHostname), pageHostname) == Configure(l, pageHostname)
  {
  }

  /** A link to the page's own host is left alone. */
  lemma SameHostUntouched(l: Link, pageHostname: string)
    requires l.hostname == pageHostname
    ensures Configure(l, pageHostname) == l
  {
    assert OccursAt(l.hostname, pageHostname, 0);
  }

  /** On a page with an empty host name nothing is rewritten, since every
      string includes the empty string. */
  lemma EmptyPageHostRewritesNothing(l: Link)
    ensures Configure(l, "") == l
  {
    assert OccursAt(l.hostname, "", 0);
  }

  /** A link with an `http` or `https` URL to another host is rewritten. */
  lemma OtherHostRewritten(l: Link, pageHostname: string)
    requires StartsWith(l.href, "http")
    requires |l.hostname| < |pageHostname|
    ensures Configure(l, pageHostname) == l.(target := Some(NewTab), rel := Some(SafeRel))
  {
  }

  /** The substring test lets a foreign host through when its name contains
      the page's host name. */
  lemma ContainingHostUntouched()
    ensures var l := Link("https://notlacid.com/", "notlacid.com", None, None);
      Configure(l, "lacid.com") == l
  {
    assert OccursAt("notlacid.com", "lacid.com", 3);
  }
}
