/**
 * `nameFromURL` of vote_crawler.py: the municipality name and the Sprengel (voting district)
 * number that a result page's URL carries.
 */
module UrlNames {
  import opened PyText

  /** The query parameter that carries the Sprengel number. */
  const DETAIL_MARKER: string := "detailonr="

  /**
   * A URL `nameFromURL` accepts without an `IndexError`: it has a second `.`-separated part, and
   * its last part holds the marker.
   */
  predicate WellFormedUrl(url: string)
  {
    var parts := Split(url, ".");
    |parts| >= 2 && |Split(parts[|parts| - 1], DETAIL_MARKER)| >= 2
  }

  /** `url[k..]` is the part after the last `.` (all of `url` when it has none). */
  ghost predicate IsLastSegment(url: string, k: int)
  {
    && 0 <= k <= |url|
    && '.' !in url[k..]
    && (k == 0 || url[k - 1] == '.')
  }

  /**
   * `sprengel` is what follows the first marker in `segment`, cut at the first `&`, at the next
   * marker, or at the end.
   */
  ghost predicate IsDetailValue(segment: string, sprengel: string)
  {
    exists m :: OccursAt(segment, DETAIL_MARKER, m) &&
      (forall j :: 0 <= j < m ==> !OccursAt(segment, DETAIL_MARKER, j)) &&
      DetailValueAfter(segment[m + |DETAIL_MARKER|..], sprengel)
  }

  /** `sprengel` starts `after` and runs to its first `&`, its first marker, or its end. */
  ghost predicate DetailValueAfter(after: string, sprengel: string)
  {
    && sprengel <= after
    && '&' !in sprengel
    && !Contains(sprengel, DETAIL_MARKER)
    && (|sprengel| == |after| || after[|sprengel|] == '&' || OccursAt(after, DETAIL_MARKER, |sprengel|))
  }

  /** `name` runs from just after the first `.` of `url` to the next `.` or to the end. */
  ghost predicate IsSecondSegment(url: string, name: string)
  {
    exists i :: 0 <= i < |url| && url[i] == '.' && '.' !in url[..i] &&
      name <= url[i + 1..] && '.' !in name &&
      (i + 1 + |name| == |url| || url[i + 1 + |name|] == '.')
  }

  /**
   * `nameFromURL`: the second `.`-separated part of the URL (the path and query are not stripped
   * from it), and the marker's value in the last part.
   */
  function NameFromUrl(url: string): (r: (string, string))
    requires WellFormedUrl(url)
    ensures IsSecondSegment(url, r.0)
    ensures exists k :: IsLastSegment(url, k) && IsDetailValue(url[k..], r.1)
    ensures '.' !in r.0 && '&' !in r.1
  {
    var parts := Split(url, ".");
    var sprengel := Split(Split(parts[|parts| - 1], DETAIL_MARKER)[1], "&")[0];
    NameIsSecondSegment(url);
    SprengelIsDetailValue(url);
    (parts[1], sprengel)
  }

  /** The second `.`-part of a well-formed URL is its second segment. */
  lemma NameIsSecondSegment(url: string)
    requires WellFormedUrl(url)
    ensures IsSecondSegment(url, Split(url, ".")[1])
    ensures '.' !in Split(url, ".")[1]
  {
    SplitSecond(url, ".");
    var i := Find(url, ".").value;
    var rest := url[i + 1..];
    var name := Split(url, ".")[1];
    assert name == Split(rest, ".")[0];
    SplitHead(rest, ".");
    ContainsChar(name, '.');
    OccursAtChar(url, '.', i);
    forall j | 0 <= j < i
      ensures url[..i][j] != '.'
    {
      OccursAtChar(url, '.', j);
    }
    if i + 1 + |name| < |url| {
      OccursAtChar(rest, '.', |name|);
    }
  }

  /** The value taken from the last `.`-part of a well-formed URL is its detail value. */
  lemma SprengelIsDetailValue(url: string)
    requires WellFormedUrl(url)
    ensures var parts := Split(url, ".");
      var sprengel := Split(Split(parts[|parts| - 1], DETAIL_MARKER)[1], "&")[0];
      && (exists k :: IsLastSegment(url, k) && IsDetailValue(url[k..], sprengel))
      && '&' !in sprengel
  {
    var parts := Split(url, ".");
    var segment := parts[|parts| - 1];
    var k := LastPartIsLastSegment(url);
    DetailValueOfSegment(segment);
    assert IsLastSegment(url, k) && url[k..] == segment;
  }

  /** The last `.`-part of a URL is its last segment. */
  lemma LastPartIsLastSegment(url: string) returns (k: nat)
    ensures k <= |url| && url[k..] == Split(url, ".")[|Split(url, ".")| - 1]
    ensures IsLastSegment(url, k)
  {
    var parts := Split(url, ".");
    var segment := parts[|parts| - 1];
    SplitLast(url, ".");
    SplitPiecesFree(url, ".");
    ContainsChar(segment, '.');
    k := |url| - |segment|;
    if k > 0 {
      OccursAtChar(url, '.', k - 1);
    }
  }

  /** The value `nameFromURL` takes from a segment holding the marker is the segment's detail value. */
  lemma DetailValueOfSegment(segment: string)
    requires |Split(segment, DETAIL_MARKER)| >= 2
    ensures IsDetailValue(segment, Split(Split(segment, DETAIL_MARKER)[1], "&")[0])
    ensures '&' !in Split(Split(segment, DETAIL_MARKER)[1], "&")[0]
  {
    SplitSecond(segment, DETAIL_MARKER);
    var m := Find(segment, DETAIL_MARKER).value;
    var after := segment[m + |DETAIL_MARKER|..];
    assert Split(segment, DETAIL_MARKER)[1] == Split(after, DETAIL_MARKER)[0];
    DetailValueOfRest(after);
  }

  /** What follows the first marker, cut at the next marker and then at the first `&`. */
  lemma DetailValueOfRest(after: string)
    ensures DetailValueAfter(after, Split(Split(after, DETAIL_MARKER)[0], "&")[0])
  {
    var value := Split(after, DETAIL_MARKER)[0];
    SplitHead(after, DETAIL_MARKER);
    var sprengel := Split(value, "&")[0];
    SplitHead(value, "&");
    ContainsChar(sprengel, '&');
    assert value[..|sprengel|] == sprengel;
    assert after[..|value|] == value;
    if Contains(sprengel, DETAIL_MARKER) {
      var j := Find(sprengel, DETAIL_MARKER).value;
      OccursInPrefix(value, DETAIL_MARKER, |sprengel|, j);
      assert false;
    }
    if |sprengel| < |value| {
      OccursAtChar(value, '&', |sprengel|);
    } else {
      assert sprengel == value;
    }
  }

  /** Both parts of the result are made of characters of the URL. */
  lemma NameFromUrlChars(url: string, c: char)
    requires WellFormedUrl(url)
    ensures c in NameFromUrl(url).0 ==> c in url
    ensures c in NameFromUrl(url).1 ==> c in url
  {
    var parts := Split(url, ".");
    var last := parts[|parts| - 1];
    var query := Split(last, DETAIL_MARKER)[1];
    if c in parts[1] {
      SplitPieceChars(url, ".", 1, c);
    }
    if c in Split(query, "&")[0] {
      SplitPieceChars(query, "&", 0, c);
      SplitPieceChars(last, DETAIL_MARKER, 1, c);
      SplitPieceChars(url, ".", |parts| - 1, c);
    }
  }

  /** Whether a URL is well formed depends only on its having a `.` and the marker after the last one. */
  lemma WellFormedUrlIff(url: string)
    ensures WellFormedUrl(url) <==>
      '.' in url && Contains(Split(url, ".")[|Split(url, ".")| - 1], DETAIL_MARKER)
  {
    SplitInTwoIff(url, ".");
    ContainsChar(url, '.');
    var parts := Split(url, ".");
    SplitInTwoIff(parts[|parts| - 1], DETAIL_MARKER);
  }

  /** A piece without the separator splits into itself. */
  lemma SplitWithout(s: string, sep: string)
    requires |sep| > 0 && !Contains(s, sep)
    ensures Split(s, sep) == [s]
  {
  }

  /**
   * A URL with exactly one `.` is named after everything that follows it: the path and the query
   * stay in the name (for "http://x.example/a?detailonr=007&y=1" the name is
   * "example/a?detailonr=007&y=1").
   */
  lemma NameKeepsPathAndQuery(host: string, rest: string)
    requires '.' !in host && '.' !in rest
    requires Contains(rest, DETAIL_MARKER)
    ensures WellFormedUrl(host + "." + rest)
    ensures NameFromUrl(host + "." + rest).0 == rest
  {
    var url := host + "." + rest;
    assert url[|host|] == '.';
    forall j | 0 <= j < |host|
      ensures url[j] != '.'
    {
      assert url[j] == host[j];
    }
    FindChar(url, '.', |host|);
    ContainsChar(rest, '.');
    SplitWithout(rest, ".");
    assert url[..|host|] == host && url[|host| + 1..] == rest;
    assert Split(url, ".") == [host] + Split(rest, ".");
    SplitInTwoIff(rest, DETAIL_MARKER);
  }
}
