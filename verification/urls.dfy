/**
 Google Docs addresses: pulling the document id out of an editor URL, building the public
 HTML export URL from it, and unwrapping the `www.google.com/url?q=...` redirects that
 Google Docs puts around every outbound link.
 */
module DocUrls {
  import opened Base
  import opened Text
  import opened Scan

  const DocPath := "/document/d/"
  const DocsHost := "https://" + "docs.google.com"
  const ExportPrefix := DocsHost + DocPath
  const ExportSuffix := "/export?format=html"
  const InvalidUrl := "유효하지 않은 구글 독스 URL입니다."

  /** The id alphabet `[a-zA-Z0-9-_]`. */
  predicate IsIdChar(c: char) {
    IsUpper(c) || IsLowerLetter(c) || IsDigit(c) || c == '-' || c == '_'
  }

  /** `/document/d/` at `i`, followed by at least one id character: where the id pattern can match. */
  predicate StartsDocId(url: string, i: int) {
    OccursAt(url, DocPath, i) && i + |DocPath| < |url| && IsIdChar(url[i + |DocPath|])
  }

  /** `id` is the maximal run of id characters right after a `/document/d/` at `i`. */
  predicate IdAt(url: string, i: int, id: string) {
    OccursAt(url, DocPath, i) && OccursAt(url, id, i + |DocPath|) && id != []
    && (forall k :: 0 <= k < |id| ==> IsIdChar(id[k]))
    && (i + |DocPath| + |id| == |url| || !IsIdChar(url[i + |DocPath| + |id|]))
  }

  /** The matcher of `/\/document\/d\/([a-zA-Z0-9-_]+)/`; the greedy `+` takes the whole run. */
  function DocIdAt(url: string, i: nat): Option<Hit> {
    if StartsDocId(url, i) then
      var e := FindChar(url, i + |DocPath|, c => !IsIdChar(c));
      Some(Hit(e, [url[i + |DocPath|..e]]))
    else None
  }

  lemma DocIdAtValid(url: string, i: nat)
    ensures ValidHit(url, i, DocIdAt(url, i)) <==> StartsDocId(url, i)
    ensures StartsDocId(url, i) ==> IdAt(url, i, DocIdAt(url, i).value.groups[0])
  {
  }

  /** `extractDocumentId`: the id after the first `/document/d/` that is followed by one; an error otherwise. */
  function ExtractDocumentId(url: string): (r: Result<string>)
    ensures r.Ok? <==> exists i :: 0 <= i < |url| && StartsDocId(url, i)
    ensures r.Ok? ==> exists i :: IdAt(url, i, r.value) && forall j :: 0 <= j < i ==> !StartsDocId(url, j)
    ensures r.Err? ==> r.message == InvalidUrl
  {
    match FirstMatchFrom(url, 0, DocIdAt)
    case None =>
      assert forall i :: 0 <= i < |url| ==> !StartsDocId(url, i) by {
        forall i | 0 <= i < |url| ensures !StartsDocId(url, i) {
          DocIdAtValid(url, i);
        }
      }
      Err(InvalidUrl)
    case Some(i) =>
      DocIdAtValid(url, i);
      assert forall j :: 0 <= j < i ==> !StartsDocId(url, j) by {
        forall j | 0 <= j < i ensures !StartsDocId(url, j) {
          DocIdAtValid(url, j);
        }
      }
      Ok(DocIdAt(url, i).value.groups[0])
  }

  /** `getPublicHtmlUrl`. */
  function GetPublicHtmlUrl(documentId: string): (r: string)
    ensures OccursAt(r, documentId, |ExportPrefix|)
    ensures r[..|ExportPrefix|] == ExportPrefix && r[|ExportPrefix| + |documentId|..] == ExportSuffix
  {
    ExportPrefix + documentId + ExportSuffix
  }

  lemma DocsHostLacksU()
    ensures |DocsHost| == 23 && Lacks(DocsHost, 'u')
  {
    assert Lacks("https://", 'u');
    assert Lacks("docs.google.com", 'u');
    LacksAppend("https://", "docs.google.com", 'u');
  }

  /** No `/document/d/` occurrence in the export URL comes before the one the id follows. */
  lemma NoEarlierDocPath(documentId: string, j: nat)
    requires j < |DocsHost|
    ensures !StartsDocId(GetPublicHtmlUrl(documentId), j)
  {
    var r := GetPublicHtmlUrl(documentId);
    DocsHostLacksU();
    assert r == DocsHost + (DocPath + documentId + ExportSuffix);
    var c := r[j + 4];
    if j + 4 < |DocsHost| {
      assert c == DocsHost[j + 4];
    } else {
      assert c == DocPath[j + 4 - |DocsHost|];
    }
    assert c != 'u';
    assert !OccursAt(r, DocPath, j) by {
      if OccursAt(r, DocPath, j) {
        OccursAtChar(r, DocPath, j, 4);
      }
    }
  }

  /** The export URL has `/document/d/` right after the host, followed by the id and then `/`. */
  lemma ExportUrlShape(documentId: string)
    requires documentId != []
    requires forall k :: 0 <= k < |documentId| ==> IsIdChar(documentId[k])
    ensures var url := GetPublicHtmlUrl(documentId);
      && StartsDocId(url, |DocsHost|)
      && OccursAt(url, documentId, |ExportPrefix|)
      && url[|ExportPrefix| + |documentId|] == '/'
  {
    var url := GetPublicHtmlUrl(documentId);
    assert url == DocsHost + DocPath + (documentId + ExportSuffix);
    assert url[|DocsHost|..|DocsHost| + |DocPath|] == DocPath;
    assert url[|ExportPrefix|] == documentId[0];
    assert url[|ExportPrefix| + |documentId|] == ExportSuffix[0];
  }

  /** Building the export URL of an id and extracting the id again gives it back. */
  lemma ExportUrlRoundTrip(documentId: string)
    requires documentId != []
    requires forall k :: 0 <= k < |documentId| ==> IsIdChar(documentId[k])
    ensures ExtractDocumentId(GetPublicHtmlUrl(documentId)) == Ok(documentId)
  {
    var url := GetPublicHtmlUrl(documentId);
    var at := |DocsHost|;
    ExportUrlShape(documentId);
    var r := ExtractDocumentId(url);
    var i :| IdAt(url, i, r.value) && forall j :: 0 <= j < i ==> !StartsDocId(url, j);
    if i < at {
      NoEarlierDocPath(documentId, i);
      OccursAtChar(url, r.value, i + |DocPath|, 0);
      assert false;
    }
    assert i == at;
    IdRunUnique(url, |ExportPrefix|, r.value, documentId);
  }

  /** Two maximal id runs starting at the same index are equal. */
  lemma IdRunUnique(url: string, k: nat, a: string, b: string)
    requires OccursAt(url, a, k) && OccursAt(url, b, k)
    requires forall x :: 0 <= x < |a| ==> IsIdChar(a[x])
    requires forall x :: 0 <= x < |b| ==> IsIdChar(b[x])
    requires k + |a| == |url| || !IsIdChar(url[k + |a|])
    requires k + |b| == |url| || !IsIdChar(url[k + |b|])
    ensures a == b
  {
    if |a| < |b| {
      OccursAtChar(url, b, k, |a|);
      assert false;
    } else if |b| < |a| {
      OccursAtChar(url, a, k, |b|);
      assert false;
    } else {
      assert a == url[k..k + |a|] == b;
    }
  }

  // ------------------------------------------------------------------ redirects

  /** What `new URL(url).searchParams.get("q")` yields: a thrown parse error, `null`, or the decoded value. */
  datatype QueryLookup = ParseFailed | NoQuery | Query(value: string)

  const RedirectHost := "www.google.com/url"

  /**
   `cleanGoogleDocsUrl`: a redirect URL becomes its non-empty `q` parameter; anything else,
   a failed parse, or a missing or empty `q` leaves the URL as it is.
   */
  function CleanGoogleDocsUrl(url: string, lookupQ: string -> QueryLookup): (r: string)
    ensures !Contains(url, RedirectHost) ==> r == url
    ensures r == url || (Contains(url, RedirectHost) && lookupQ(url) == Query(r) && r != [])
    ensures Contains(url, RedirectHost) && lookupQ(url).Query? && lookupQ(url).value != [] ==> r == lookupQ(url).value
  {
    if Contains(url, RedirectHost) then
      match lookupQ(url)
      case Query(q) => if q != [] then q else url
      case _ => url
    else url
  }

  /**
   The `href` rewrite of the link pass: an absent `href` stays absent, and a present one is
   cleaned exactly as `cleanGoogleDocsUrl` cleans a URL.
   */
  function RewriteHref(href: Option<string>, lookupQ: string -> QueryLookup): (r: Option<string>)
    ensures r.None? <==> href.None?
    ensures href.Some? && !Contains(href.value, RedirectHost) ==> r == href
    ensures href.Some? ==> r.value == href.value || (lookupQ(href.value) == Query(r.value) && r.value != [])
  {
    match href
    case None => None
    case Some(h) =>
      if h != [] && Contains(h, RedirectHost) then
        match lookupQ(h)
        case Query(q) => Some(if q != [] then q else h)
        case _ => Some(h)
      else Some(h)
  }

  /** The link pass and the parsers' cleanup agree on every present `href`. */
  lemma RewriteHrefIsClean(h: string, lookupQ: string -> QueryLookup)
    ensures RewriteHref(Some(h), lookupQ) == Some(CleanGoogleDocsUrl(h, lookupQ))
  {
    if h == [] {
      assert !Contains(h, RedirectHost) by {
        NoCharNoOccurrence(h, RedirectHost, 0);
      }
    }
  }
}
