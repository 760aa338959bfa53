/** The token carried in the page path (src/App.tsx: the mount effect reads it, the search
    handler writes it). */
module Routing {
  import opened Options
  import opened Builtins
  import opened Uri

  /** The path the search handler pushes for `token`: `/token/` and the encoded token. */
  function SearchPath(token: string): string {
    "/token/" + EncodeURIComponent(token)
  }

  /** As written: the segment after the first `token` segment of `path`, taken as it stands
      (still percent-encoded) when it exists and is non-empty. */
  function ExtractToken(path: string): (r: Option<string>)
    ensures r.Some? ==> r.value != [] && '/' !in r.value
  {
    var segments := Split(path, '/');
    var k := IndexOf(segments, "token");
    if k != -1 && k + 1 < |segments| && segments[k + 1] != [] then Some(segments[k + 1]) else None
  }

  /** Corrected: the same segment, percent-decoded; None, so that nothing is fetched, when it is
      absent, empty or not a valid encoding. */
  function ExtractDecodedToken(path: string): (r: Option<string>)
    ensures r.Some? ==> r.value != []
  {
    match ExtractToken(path)
    case None => None
    case Some(segment) => DecodeURIComponent(segment)
  }

  /** `path` is the segments `before`, then `token`, then `segment`, then `after`, joined by
      `/`, with no `token` segment among `before`. */
  ghost predicate TokenSegmentAt(path: string, before: seq<string>, segment: string, after: seq<string>)
  {
    && (forall i :: 0 <= i < |before| ==> '/' !in before[i] && before[i] != "token")
    && '/' !in segment
    && (forall i :: 0 <= i < |after| ==> '/' !in after[i])
    && path == Join(before + ["token", segment] + after, '/')
  }

  /** A token read from the path follows the first `token` segment. */
  lemma ExtractTokenSegmented(path: string, segment: string)
    requires ExtractToken(path) == Some(segment)
    ensures exists before, after :: TokenSegmentAt(path, before, segment, after)
  {
    var segments := Split(path, '/');
    var k := IndexOf(segments, "token");
    var before, after := segments[..k], segments[k + 2..];
    assert before + ["token", segment] + after == segments;
    JoinSplit(path, '/');
    assert TokenSegmentAt(path, before, segment, after);
  }

  /** A non-empty segment following the first `token` segment is what is read from the path. */
  lemma SegmentedExtractToken(path: string, before: seq<string>, segment: string, after: seq<string>)
    requires segment != [] && TokenSegmentAt(path, before, segment, after)
    ensures ExtractToken(path) == Some(segment)
  {
    var parts := before + ["token", segment] + after;
    SplitJoin(parts, '/');
    assert parts[..|before|] == before;
    IndexOfFirst(parts, |before|, "token");
    assert parts[|before| + 1] == segment;
  }

  /** The extracted token is exactly a non-empty segment that follows the first `token` segment;
      when there is none, nothing is extracted. */
  lemma ExtractTokenCharacterized(path: string, segment: string)
    ensures ExtractToken(path) == Some(segment)
        <==> segment != [] && exists before, after :: TokenSegmentAt(path, before, segment, after)
  {
    if ExtractToken(path) == Some(segment) {
      ExtractTokenSegmented(path, segment);
    }
    if segment != [] && exists before, after :: TokenSegmentAt(path, before, segment, after) {
      var before, after :| TokenSegmentAt(path, before, segment, after);
      SegmentedExtractToken(path, before, segment, after);
    }
  }

  /** `/token/` followed by a segment is the join of an empty segment, `token` and it. */
  lemma JoinTokenPath(segment: string)
    ensures "/token/" + segment == Join(["", "token", segment], '/')
  {
    var parts := ["", "token", segment];
    assert parts[1..] == ["token", segment] && parts[1..][1..] == [segment];
    assert Join(["token", segment], '/') == "token" + ['/'] + segment;
    calc {
      Join(parts, '/');
      "" + ['/'] + Join(["token", segment], '/');
      ['/'] + "token" + ['/'] + segment;
      { assert ['/'] + "token" + ['/'] == "/token/"; }
      "/token/" + segment;
    }
  }

  /** The path written for `token` splits into an empty segment, `token` and the encoded
      token. */
  lemma SearchPathSegments(token: string)
    ensures Split(SearchPath(token), '/') == ["", "token", EncodeURIComponent(token)]
  {
    var encoded := EncodeURIComponent(token);
    JoinTokenPath(encoded);
    SplitJoin(["", "token", encoded], '/');
  }

  /** As written, reading the path back yields the encoded token, not the token. */
  lemma ExtractSearchPath(token: string)
    requires token != []
    ensures ExtractToken(SearchPath(token)) == Some(EncodeURIComponent(token))
  {
    SearchPathSegments(token);
    var segments := Split(SearchPath(token), '/');
    assert segments[0] != "token" && segments[1] == "token";
    assert IndexOf(segments, "token") == 1;
  }

  /** For a non-empty token of unreserved characters the path reads back as the token. */
  lemma UnreservedTokenRoundTrip(token: string)
    requires token != []
    requires forall i :: 0 <= i < |token| ==> Unreserved(token[i])
    ensures ExtractToken(SearchPath(token)) == Some(token)
  {
    ExtractSearchPath(token);
    EncodeUnreserved(token);
  }

  /** A space is written `%20`. */
  lemma SpaceEscape()
    ensures EncodeChar(' ') == "%20"
  {
    assert !Unreserved(' ') && Utf8(' ') == [32];
    assert HexDigit(2) == '2' && HexDigit(0) == '0';
    PercentBytesCons(32, []);
  }

  /** The token `A B` is written `/token/A%20B` and, as written, read back as `A%20B`. */
  lemma SpacedTokenMisread()
    ensures ExtractToken(SearchPath("A B")) == Some("A%20B")
  {
    SpaceEscape();
    EncodeUnreserved("B");
    assert " B"[1..] == "B";
    assert EncodeURIComponent(" B") == "%20B";
    assert "A B"[1..] == " B";
    assert EncodeURIComponent("A B") == "A%20B";
    ExtractSearchPath("A B");
  }

  /** Corrected: every non-empty token reads back from the path the search writes for it. */
  lemma SearchPathRoundTrip(token: string)
    requires token != []
    ensures ExtractDecodedToken(SearchPath(token)) == Some(token)
  {
    ExtractSearchPath(token);
    DecodeEncode(token);
  }

  /** An empty token writes `/token/`, from which nothing is read back. */
  lemma EmptyTokenNotReadBack()
    ensures ExtractToken(SearchPath("")) == None
    ensures ExtractDecodedToken(SearchPath("")) == None
  {
    SearchPathSegments("");
  }

  /** The site root `/` carries no token, so loading it looks nothing up. */
  lemma RootPathCarriesNoToken()
    ensures ExtractToken("/") == None
    ensures ExtractDecodedToken("/") == None
  {
    var parts: seq<string> := ["", ""];
    assert Join(parts, '/') == "/" by {
      assert parts[1..] == [""];
    }
    SplitJoin(parts, '/');
    assert "token" !in parts;
  }
}
