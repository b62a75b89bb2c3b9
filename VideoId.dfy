/**
 * Extraction of the video identifier from a link (app.py, `extract_video_id`):
 * the search for the pattern `(?:v=|\/)([0-9A-Za-z_-]{11}).*`, written as the
 * left-to-right scan that Python's `re.search` performs, returning the
 * captured group or `None`.
 */
module VideoId {
  import opened Options

  /** The length of a video identifier: the `{11}` of the pattern. */
  const IdLength: nat := 11

  /** The character class `[0-9A-Za-z_-]`. */
  predicate IsIdChar(ch: char)
  {
    ('0' <= ch <= '9') || ('A' <= ch <= 'Z') || ('a' <= ch <= 'z') || ch == '_' || ch == '-'
  }

  /** Every character of `t` is in the identifier class. */
  function AllIdChars(t: string): (b: bool)
    ensures b <==> forall k :: 0 <= k < |t| ==> IsIdChar(t[k])
    decreases |t|
  {
    if |t| == 0 then true
    else IsIdChar(t[0]) && AllIdChars(t[1..])
  }

  /** `IdLength` identifier characters start at index `j` of `url`. */
  predicate IdAt(url: string, j: int)
  {
    0 <= j && j + IdLength <= |url| &&
    forall k :: j <= k < j + IdLength ==> IsIdChar(url[k])
  }

  /**
   * The pattern matches with its marker starting at index `p`: either `v=` or
   * `/` is there, followed by eleven identifier characters. (The trailing `.*`
   * matches anything, the empty rest included.)
   */
  predicate MatchesAt(url: string, p: int)
  {
    0 <= p < |url| &&
    ((p + 2 <= |url| && url[p] == 'v' && url[p + 1] == '=' && IdAt(url, p + 2)) ||
     (url[p] == '/' && IdAt(url, p + 1)))
  }

  /** Where the captured group starts when the match begins at `p`. */
  function GroupStart(url: string, p: int): int
    requires MatchesAt(url, p)
  {
    if url[p] == '/' then p + 1 else p + 2
  }

  /** The characters just before index `j` are `v=` or `/`. */
  predicate AfterMarker(url: string, j: int)
  {
    (2 <= j <= |url| && url[j - 2] == 'v' && url[j - 1] == '=') ||
    (1 <= j <= |url| && url[j - 1] == '/')
  }

  /** The quantified `IdAt` agrees with the recursive check on the slice. */
  lemma IdAtSlice(url: string, j: nat)
    ensures j + IdLength <= |url| ==> (IdAt(url, j) <==> AllIdChars(url[j..j + IdLength]))
  {
    if j + IdLength <= |url| {
      var t := url[j..j + IdLength];
      assert forall k :: 0 <= k < IdLength ==> t[k] == url[j + k];
    }
  }

  /** The pattern tried at one position: what the regular-expression engine does at `p`. */
  function TryAt(url: string, p: nat): (b: bool)
    requires p < |url|
    ensures b <==> MatchesAt(url, p)
  {
    IdAtSlice(url, p + 2);
    IdAtSlice(url, p + 1);
    (p + 2 + IdLength <= |url| && url[p] == 'v' && url[p + 1] == '=' &&
     AllIdChars(url[p + 2..p + 2 + IdLength])) ||
    (p + 1 + IdLength <= |url| && url[p] == '/' && AllIdChars(url[p + 1..p + 1 + IdLength]))
  }

  /**
   * The search from index `p` on: the first position at or after `p` where the
   * pattern matches, or `None` when there is none.
   */
  function SearchFrom(url: string, p: nat): (r: Option<nat>)
    requires p <= |url|
    ensures r.Some? ==> p <= r.value && MatchesAt(url, r.value)
    ensures r.Some? ==> forall q :: p <= q < r.value ==> !MatchesAt(url, q)
    ensures r.None? <==> forall q :: p <= q ==> !MatchesAt(url, q)
    decreases |url| - p
  {
    if p == |url| then None
    else if TryAt(url, p) then Some(p)
    else SearchFrom(url, p + 1)
  }

  /**
   * `extract_video_id`: the eleven characters captured at the leftmost match.
   * A returned identifier has eleven characters of the class, stands in the
   * link right after `v=` or `/`, and comes from the leftmost position where
   * the pattern matches; `None` is returned exactly when it matches nowhere.
   */
  function ExtractVideoId(url: string): (r: Option<string>)
    ensures r.Some? ==> |r.value| == IdLength
    ensures r.Some? ==> forall k :: 0 <= k < |r.value| ==> IsIdChar(r.value[k])
    ensures r.Some? ==> exists p :: MatchesAt(url, p) && (forall q :: 0 <= q < p ==> !MatchesAt(url, q)) &&
                                   r.value == url[GroupStart(url, p)..GroupStart(url, p) + IdLength]
    ensures r.Some? ==> exists j :: AfterMarker(url, j) && IdAt(url, j) && r.value == url[j..j + IdLength]
    ensures r.None? <==> forall p :: !MatchesAt(url, p)
  {
    match SearchFrom(url, 0)
    case None => None
    case Some(p) =>
      var j := GroupStart(url, p);
      var id := url[j..j + IdLength];
      assert AfterMarker(url, j);
      assert forall k :: 0 <= k < IdLength ==> id[k] == url[j + k];
      Some(id)
  }

  /**
   * After a prefix where no match can start (no `v`, and every `/` is
   * followed within eleven characters by one outside the class), the marker
   * `v=` or `/` followed by eleven identifier characters is where the
   * identifier is taken from, whatever follows it.
   */
  lemma {:induction false} ExtractAfterMarker(pre: string, marker: string, id: string, rest: string)
    requires marker == "v=" || marker == "/"
    requires forall k :: 0 <= k < |pre| ==> pre[k] != 'v'
    requires forall k :: 0 <= k < |pre| && pre[k] == '/' ==>
               exists m :: k < m <= k + IdLength && m < |pre| && !IsIdChar(pre[m])
    requires |id| == IdLength && forall k :: 0 <= k < |id| ==> IsIdChar(id[k])
    ensures ExtractVideoId(pre + marker + id + rest) == Some(id)
  {
    var url := pre + marker + id + rest;
    var p := |pre|;
    forall k | p + |marker| <= k < p + |marker| + IdLength ensures IsIdChar(url[k]) {
      assert url[k] == id[k - p - |marker|];
    }
    assert url[p] == marker[0];
    assert marker == "v=" ==> url[p + 1] == '=';
    assert MatchesAt(url, p);
    forall q | 0 <= q < p ensures !MatchesAt(url, q) {
      assert url[q] == pre[q];
      if pre[q] == '/' {
        var m :| q < m <= q + IdLength && m < |pre| && !IsIdChar(pre[m]);
        assert url[m] == pre[m];
      }
    }
    var r := ExtractVideoId(url);
    var m :| MatchesAt(url, m) && (forall q :: 0 <= q < m ==> !MatchesAt(url, q)) &&
             r.value == url[GroupStart(url, m)..GroupStart(url, m) + IdLength];
    assert m == p;
    assert url[p + |marker|..p + |marker| + IdLength] == id;
  }

  /** The address part of a watch link, up to its `v=`. */
  const WatchPage: string := "https://www.youtube.com/watch?"

  /** From a watch link the identifier after `v=` is extracted, whatever query parameters follow it. */
  lemma WatchLink(id: string, rest: string)
    requires |id| == IdLength && forall k :: 0 <= k < |id| ==> IsIdChar(id[k])
    ensures ExtractVideoId(WatchPage + "v=" + id + rest) == Some(id)
  {
    var pre := WatchPage;
    forall k | 0 <= k < |pre| && pre[k] == '/'
      ensures exists m :: k < m <= k + IdLength && m < |pre| && !IsIdChar(pre[m])
    {
      assert k == 6 || k == 7 || k == 23;
      if k == 6 {
        assert !IsIdChar(pre[7]);
      } else if k == 7 {
        assert !IsIdChar(pre[11]);
      } else {
        assert !IsIdChar(pre[29]);
      }
    }
    ExtractAfterMarker(pre, "v=", id, rest);
  }

  /** The site part of a link, before its path. */
  const Site: string := "https://www.youtube.com"

  /**
   * The leftmost match wins: a path segment of eleven identifier characters
   * right after the site, such as the `attribution` of an attribution link, is
   * taken for the identifier even when a `v=` with the real one follows.
   */
  lemma PathSegmentFirst(rest: string)
    ensures ExtractVideoId(Site + "/" + "attribution" + rest) == Some("attribution")
  {
    var pre := Site;
    forall k | 0 <= k < |pre| && pre[k] == '/'
      ensures exists m :: k < m <= k + IdLength && m < |pre| && !IsIdChar(pre[m])
    {
      assert k == 6 || k == 7;
      if k == 6 {
        assert !IsIdChar(pre[7]);
      } else {
        assert !IsIdChar(pre[11]);
      }
    }
    var id := "attribution";
    assert forall k :: 0 <= k < |id| ==> IsIdChar(id[k]);
    ExtractAfterMarker(pre, "/", id, rest);
  }
}
